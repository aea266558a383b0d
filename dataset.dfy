/** `BankDataset`: a read-only, positional view over one partition. */
module Dataset {
  import opened Seqs
  import opened Cells
  import opened Results
  import opened Frame

  /** The dictionary `__getitem__` returns: each group of values keyed by column name. */
  datatype Sample = Sample(
    cateFeatures: map<string, Cell>,
    contFeatures: map<string, Cell>,
    labels: map<string, Cell>)

  /** `iloc`'s reading of a position: from the front when non-negative, from
      the back when negative. */
  predicate InRange(idx: int, n: nat)
  {
    -(n as int) <= idx < n
  }

  function RowOf(idx: int, n: nat): (row: nat)
    requires InRange(idx, n)
    ensures row < n
    ensures 0 <= idx ==> row == idx
    ensures idx < 0 ==> row == n + idx
  {
    if idx < 0 then n + idx else idx
  }

  /** The values of the columns `names` in row `row`, keyed by name. */
  function Values(file: Table, names: seq<string>, row: nat): (m: map<string, Cell>)
    requires Valid(file) && row < file.height && forall f :: f in names ==> f in file.data
  {
    map f | f in names :: file.data[f][row]
  }

  /** The view holds the partition and the two feature lists; it owns and
      changes nothing. */
  datatype BankDataset = BankDataset(file: Table, cateFeatures: seq<string>, contFeatures: seq<string>)
  {
    /** `__len__`: the partition's row count, the length of every column and
        the number of rows the view can read. */
    function Len(): (n: nat)
      ensures Valid(file) ==> (forall c :: c in file.data ==> |file.data[c]| == n) && |Rows(file)| == n
    {
      file.height
    }

    /** `__getitem__(idx)`. Selecting the categorical columns comes first, so
        a missing one is a KeyError even for a bad index; the index is then
        checked (an IndexError outside -len..len-1), and after it the
        continuous columns and 'y' are selected. */
    function GetItem(idx: int): (r: Result<Sample>)
      requires Valid(file)
      ensures r.Ok? <==> (forall f :: f in cateFeatures + contFeatures + [Label] ==> f in file.data)
                         && InRange(idx, Len())
      ensures !(forall f :: f in cateFeatures ==> f in file.data) ==> r == Err(MissingColumn)
      ensures r.Err? && (forall f :: f in cateFeatures ==> f in file.data) && !(InRange(idx, Len())) ==>
                r.error == IndexOutOfRange
      ensures r.Err? && InRange(idx, Len()) ==> r.error == MissingColumn
      ensures r.Ok? ==>
        var row := RowOf(idx, Len());
        && (forall f :: f in r.value.cateFeatures <==> f in cateFeatures)
        && (forall f :: f in r.value.contFeatures <==> f in contFeatures)
        && (forall f :: f in r.value.labels <==> f == Label)
        && (forall f :: f in cateFeatures ==> r.value.cateFeatures[f] == file.data[f][row])
        && (forall f :: f in contFeatures ==> r.value.contFeatures[f] == file.data[f][row])
        && r.value.labels[Label] == file.data[Label][row]
    {
      if !(forall f :: f in cateFeatures ==> f in file.data) then Err(MissingColumn)
      else if !(InRange(idx, Len())) then Err(IndexOutOfRange)
      else if !(forall f :: f in contFeatures ==> f in file.data) then Err(MissingColumn)
      else if Label !in file.data then Err(MissingColumn)
      else
        var row := RowOf(idx, Len());
        Ok(Sample(Values(file, cateFeatures, row), Values(file, contFeatures, row), Values(file, [Label], row)))
    }
  }

  /** The sample's groups, read in feature order, as one list. */
  function Flatten(s: Sample, cate: seq<string>, cont: seq<string>): (r: seq<Cell>)
    requires forall f :: f in cate ==> f in s.cateFeatures
    requires forall f :: f in cont ==> f in s.contFeatures
    requires Label in s.labels
    ensures |r| == |cate| + |cont| + 1
  {
    seq(|cate|, j requires 0 <= j < |cate| => s.cateFeatures[cate[j]])
      + seq(|cont|, j requires 0 <= j < |cont| => s.contFeatures[cont[j]])
      + [s.labels[Label]]
  }

  /** Over a partition laid out as categorical ++ continuous ++ ['y'], every
      row 0..len-1 is readable, and reading its groups in feature order gives
      back the table's row. */
  lemma GetItemIsRow(ds: BankDataset, i: nat)
    requires Valid(ds.file) && ds.file.columns == ds.cateFeatures + ds.contFeatures + [Label]
    requires i < ds.Len()
    ensures ds.GetItem(i).Ok?
    ensures Flatten(ds.GetItem(i).value, ds.cateFeatures, ds.contFeatures) == Row(ds.file, i)
  {
  }

  /** Entry `j` of the flattened sample is the cell of column `j` in row `i`. */
  lemma FlattenAt(ds: BankDataset, i: nat, j: nat)
    requires Valid(ds.file) && ds.file.columns == ds.cateFeatures + ds.contFeatures + [Label]
    requires i < ds.Len() && j < |ds.file.columns|
    requires ds.GetItem(i).Ok?
    ensures Flatten(ds.GetItem(i).value, ds.cateFeatures, ds.contFeatures)[j] == ds.file.data[ds.file.columns[j]][i]
  {
  }

  /** The position just past the end is an IndexError. */
  lemma GetItemPastEnd(ds: BankDataset)
    requires Valid(ds.file) && ds.file.columns == ds.cateFeatures + ds.contFeatures + [Label]
    ensures ds.GetItem(ds.Len()) == Err(IndexOutOfRange)
    ensures ds.GetItem(-(ds.Len() as int) - 1) == Err(IndexOutOfRange)
  {
  }

  /** With distinct feature names, each group of a sample has exactly as many
      entries as its feature list. */
  lemma GetItemCounts(ds: BankDataset, idx: int)
    requires Valid(ds.file) && ds.GetItem(idx).Ok?
    requires Distinct(ds.cateFeatures) && Distinct(ds.contFeatures)
    ensures |ds.GetItem(idx).value.cateFeatures| == |ds.cateFeatures|
    ensures |ds.GetItem(idx).value.contFeatures| == |ds.contFeatures|
    ensures |ds.GetItem(idx).value.labels| == 1
  {
    var s := ds.GetItem(idx).value;
    assert s.cateFeatures.Keys == set f | f in ds.cateFeatures;
    assert s.contFeatures.Keys == set f | f in ds.contFeatures;
    assert s.labels.Keys == {Label};
    DistinctCardinality(ds.cateFeatures);
    DistinctCardinality(ds.contFeatures);
  }
}
