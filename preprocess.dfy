/** `BankPreprocessor.preprocess`: the categorical/continuous/label partition
    of the columns, the categorical encoding loop, the label map and the final
    column order. */
module Preprocessing {
  import opened Seqs
  import opened Cells
  import opened Results
  import opened Frame
  import opened Encoding

  /** The seven continuous features, a fixed list independent of the data. */
  const ContFeatures: seq<string> := ["age", "balance", "day", "duration", "campaign", "pdays", "previous"]

  /** `set(data.columns).difference(set(cont_features))`. */
  function NonContinuous(columns: seq<string>): (s: set<string>)
    ensures forall c :: c in s ==> c in columns
    ensures forall c :: c in columns ==> (c in s <==> c !in ContFeatures)
  {
    set c | c in columns && c !in ContFeatures
  }

  /** `order` lists the elements of `s`, each once: what `list(s)` yields, in
      whatever order Python's set iteration takes. */
  predicate Enumerates(order: seq<string>, s: set<string>)
  {
    Distinct(order) && (forall c :: c in order ==> c in s) && (forall c :: c in s ==> c in order)
  }

  /** The position of the first `x` in `xs`. */
  function FirstIndex(xs: seq<string>, x: string): (k: nat)
    requires x in xs
    ensures k < |xs| && xs[k] == x && x !in xs[..k]
  {
    if xs[0] == x then 0
    else
      var k := FirstIndex(xs[1..], x);
      assert xs[..k + 1] == [xs[0]] + xs[1..][..k];
      k + 1
  }

  /** `features.remove('y')`: the list without its first 'y'; a ValueError
      when there is none. */
  function RemoveLabel(features: seq<string>): (r: Result<seq<string>>)
    ensures r.Ok? <==> Label in features
    ensures r.Ok? ==> exists k :: 0 <= k <= |r.value| && Label !in r.value[..k]
                                 && features == r.value[..k] + [Label] + r.value[k..]
  {
    if Label in features then
      var k := FirstIndex(features, Label);
      var rest := features[..k] + features[k + 1..];
      assert rest[..k] == features[..k] && rest[k..] == features[k + 1..];
      assert features == rest[..k] + [Label] + rest[k..];
      Ok(rest)
    else
      Err(LabelNotInColumns)
  }

  /** `remove` fails exactly when there is no 'y' (a ValueError); from a list
      without repetitions it removes 'y' and keeps every other element. */
  lemma RemoveLabelKeepsOthers(features: seq<string>)
    ensures RemoveLabel(features).Ok? <==> Label in features
    ensures RemoveLabel(features).Err? ==> RemoveLabel(features).error == LabelNotInColumns
    ensures RemoveLabel(features).Ok? && Distinct(features) ==>
      var cate := RemoveLabel(features).value;
      && |cate| == |features| - 1
      && Distinct(cate) && Label !in cate
      && (forall c :: c in cate <==> c in features && c != Label)
  {
  }

  /** The categorical features, the continuous features and the label split
      the table's columns into three disjoint groups, and the output order
      categorical ++ continuous ++ ['y'] lists every column exactly once. */
  lemma FeaturePartition(columns: seq<string>, order: seq<string>)
    requires Distinct(columns) && Enumerates(order, NonContinuous(columns))
    requires Label in columns && forall c :: c in ContFeatures ==> c in columns
    ensures RemoveLabel(order).Ok?
    ensures var cate := RemoveLabel(order).value;
      var out := cate + ContFeatures + [Label];
      && (forall c :: c in cate ==> c !in ContFeatures && c != Label)
      && Label !in ContFeatures
      && (forall c :: c in columns <==> c in cate || c in ContFeatures || c == Label)
      && Distinct(out) && |out| == |columns|
      && (forall c :: c in out <==> c in columns)
  {
    assert Label in NonContinuous(columns);
    RemoveLabelKeepsOthers(order);
    var cate := RemoveLabel(order).value;
    var out := cate + ContFeatures + [Label];
    assert Distinct(ContFeatures);
    forall i, j | 0 <= i < j < |out| ensures out[i] != out[j] {
      if j < |cate| { } else if i < |cate| { assert out[i] in cate; }
      else if j < |cate| + |ContFeatures| { assert out[i] == ContFeatures[i - |cate|]; }
      else { assert out[i] in ContFeatures; }
    }
    SameElementsSameLength(out, columns);
  }

  /** Removing 'y' from the listed non-continuous columns succeeds exactly
      when the table has a 'y' column, and leaves distinct columns of the
      table that are neither continuous nor the label. */
  lemma CateFeatures(data: Table, order: seq<string>)
    requires Valid(data) && Enumerates(order, NonContinuous(data.columns))
    ensures RemoveLabel(order).Ok? <==> Label in data.data
    ensures RemoveLabel(order).Ok? ==>
      var cate := RemoveLabel(order).value;
      && Distinct(cate)
      && forall f :: f in cate ==> f in data.data && f !in ContFeatures && f != Label
  {
  }

  /** Every column's dictionary, as the loop would build it. */
  function AllRecords(t: Table): map<string, map<Cell, int>>
  {
    map f | f in t.data :: FieldMap(f, t.data[f])
  }

  /** The dictionaries of `map_records` wanted for the features `cate`. */
  function Records(t: Table, cate: seq<string>): (r: map<string, map<Cell, int>>)
    requires forall f :: f in cate ==> f in t.data
    ensures forall f :: f in r <==> f in cate
    ensures forall f :: f in cate ==> r[f] == FieldMap(f, t.data[f])
  {
    Restrict(AllRecords(t), cate)
  }

  /** One categorical column rewritten through its dictionary. */
  function Encoded(t: Table, c: string): (r: seq<Cell>)
    requires Valid(t) && c in t.data
    ensures |r| == t.height
  {
    ApplyMap(t.data[c], FieldMap(c, t.data[c]))
  }

  /** Every column of `t` rewritten through its own dictionary. */
  function EncodedAll(t: Table): (r: map<string, seq<Cell>>)
    requires Valid(t)
    ensures r.Keys == t.data.Keys
    ensures forall c :: c in t.data ==> r[c] == Encoded(t, c)
  {
    map c | c in t.data :: Encoded(t, c)
  }

  /** The entries of `m` for `keys`. */
  function Restrict<K(!new), V>(m: map<K, V>, keys: seq<K>): (r: map<K, V>)
    requires forall k :: k in keys ==> k in m
    ensures forall k :: k in r <==> k in keys
    ensures forall k :: k in keys ==> r[k] == m[k]
  {
    map k | k in keys :: m[k]
  }

  /** Restricting to one more key is a single map update. */
  lemma RestrictStep<K(!new), V>(m: map<K, V>, keys: seq<K>, f: K)
    requires forall k :: k in keys ==> k in m
    requires f in m
    ensures Restrict(m, keys + [f]) == Restrict(m, keys)[f := m[f]]
  {
  }

  /** `d` with the entries for `keys` taken from `e` instead. */
  function Overwrite<K, V>(d: map<K, V>, e: map<K, V>, keys: seq<K>): (r: map<K, V>)
    requires forall k :: k in keys && k in d ==> k in e
    ensures r.Keys == d.Keys
    ensures forall k :: k in d && k in keys ==> r[k] == e[k]
    ensures forall k :: k in d && k !in keys ==> r[k] == d[k]
  {
    map k | k in d :: if k in keys then e[k] else d[k]
  }

  /** Overwriting one more key is a single map update. */
  lemma OverwriteStep<K, V>(d: map<K, V>, e: map<K, V>, keys: seq<K>, f: K)
    requires forall k :: k in keys && k in d ==> k in e
    requires f in d && f in e && f !in keys
    ensures Overwrite(d, e, keys)[f] == d[f]
    ensures Overwrite(d, e, keys + [f]) == Overwrite(d, e, keys)[f := e[f]]
  {
  }

  /** The table after the categorical loop: each feature in `cate` rewritten
      through its dictionary, every other column as it was. */
  function EncodeColumns(t: Table, cate: seq<string>): (r: Table)
    requires Valid(t) && forall f :: f in cate ==> f in t.data
    ensures Valid(r) && r.columns == t.columns && r.height == t.height && r.data.Keys == t.data.Keys
  {
    t.(data := Overwrite(t.data, EncodedAll(t), cate))
  }

  /** After the loop each feature's column is its raw column looked up in
      that feature's dictionary, and every other column is untouched. */
  lemma EncodeColumnsContents(t: Table, cate: seq<string>)
    requires Valid(t) && forall f :: f in cate ==> f in t.data
    ensures var r := EncodeColumns(t, cate);
      && (forall f :: f in cate ==> r.data[f] == ApplyMap(t.data[f], FieldMap(f, t.data[f])))
      && (forall c :: c in t.data && c !in cate ==> r.data[c] == t.data[c])
  {
  }

  /** One more feature through the loop: its column is rewritten from its
      raw cells and its dictionary is recorded. */
  lemma EncodeStep(t: Table, cate: seq<string>, i: nat)
    requires Valid(t) && (forall g :: g in cate ==> g in t.data) && i < |cate| && cate[i] !in cate[..i]
    ensures var e := EncodeColumns(t, cate[..i]);
      && e.data[cate[i]] == t.data[cate[i]]
      && EncodeColumns(t, cate[..i + 1]) == e.(data := e.data[cate[i] := Encoded(t, cate[i])])
      && Records(t, cate[..i + 1]) == Records(t, cate[..i])[cate[i] := FieldMap(cate[i], t.data[cate[i]])]
  {
    var f := cate[i];
    assert cate[..i + 1] == cate[..i] + [f];
    OverwriteStep(t.data, EncodedAll(t), cate[..i], f);
    RestrictStep(AllRecords(t), cate[..i], f);
  }

  /** Before the loop nothing is encoded and nothing recorded. */
  lemma EncodeNone(t: Table, cate: seq<string>)
    requires Valid(t) && forall g :: g in cate ==> g in t.data
    ensures EncodeColumns(t, cate[..0]) == t && Records(t, cate[..0]) == map[]
  {
  }

  /** The table after the first `i` passes of the loop, pass by pass: each
      pass builds the feature's dictionary from its column as it stands and
      rewrites that column through it. */
  function EncodePrefix(t: Table, cate: seq<string>, i: nat): (r: Table)
    requires i <= |cate| && forall g :: g in cate ==> g in t.data
    ensures r.data.Keys == t.data.Keys
  {
    if i == 0 then t
    else
      var e := EncodePrefix(t, cate, i - 1);
      var f := cate[i - 1];
      e.(data := e.data[f := ApplyMap(e.data[f], FieldMap(f, e.data[f]))])
  }

  /** The dictionaries recorded by the first `i` passes of the loop. */
  function RecordsPrefix(t: Table, cate: seq<string>, i: nat): map<string, map<Cell, int>>
    requires i <= |cate| && forall g :: g in cate ==> g in t.data
  {
    if i == 0 then map[]
    else
      var f := cate[i - 1];
      RecordsPrefix(t, cate, i - 1)[f := FieldMap(f, EncodePrefix(t, cate, i - 1).data[f])]
  }

  /** With no feature listed twice the passes do not interfere: after `i`
      passes the table and the dictionaries are those of the first `i`
      features, each built from the raw column. */
  lemma {:induction false} PrefixEncodes(t: Table, cate: seq<string>, i: nat)
    requires Valid(t) && EachNew(cate) && (forall g :: g in cate ==> g in t.data) && i <= |cate|
    ensures EncodePrefix(t, cate, i) == EncodeColumns(t, cate[..i])
    ensures RecordsPrefix(t, cate, i) == Records(t, cate[..i])
  {
    if i == 0 {
      EncodeNone(t, cate);
    } else {
      PrefixEncodes(t, cate, i - 1);
      EncodeStep(t, cate, i - 1);
    }
  }

  /** After the last pass: the loop computes `EncodeColumns` and `Records`. */
  lemma PrefixEncodesAll(t: Table, cate: seq<string>)
    requires Valid(t) && EachNew(cate) && (forall g :: g in cate ==> g in t.data)
    ensures EncodePrefix(t, cate, |cate|) == EncodeColumns(t, cate)
    ensures RecordsPrefix(t, cate, |cate|) == Records(t, cate)
  {
    PrefixEncodes(t, cate, |cate|);
    assert cate[..|cate|] == cate;
  }

  /** One pass of the loop body, as the method performs it, is one more step
      of `EncodePrefix` and `RecordsPrefix`. */
  lemma LoopPass(t: Table, cate: seq<string>, i: nat, out: Table, records: map<string, map<Cell, int>>, mapDict: map<Cell, int>)
    requires i < |cate| && forall g :: g in cate ==> g in t.data
    requires out == EncodePrefix(t, cate, i) && records == RecordsPrefix(t, cate, i)
    requires mapDict == if cate[i] == MonthField then MonthMap() else IndexMap(SortedUniques(out.data[cate[i]]))
    ensures out.(data := out.data[cate[i] := ApplyMap(out.data[cate[i]], mapDict)]) == EncodePrefix(t, cate, i + 1)
    ensures records[cate[i] := mapDict] == RecordsPrefix(t, cate, i + 1)
  {
  }

  /** The `for f in cate_features` loop: builds each feature's dictionary from
      the column it is about to rewrite, rewrites the column in place and
      records the dictionary under the feature's name. */
  method MapCategorical(data: Table, cate: seq<string>) returns (out: Table, records: map<string, map<Cell, int>>)
    requires Valid(data) && EachNew(cate) && forall f :: f in cate ==> f in data.data
    ensures out == EncodeColumns(data, cate)
    ensures records == Records(data, cate)
  {
    out := data;
    records := map[];
    var i := 0;
    while i < |cate|
      invariant 0 <= i <= |cate|
      invariant out == EncodePrefix(data, cate, i)
      invariant records == RecordsPrefix(data, cate, i)
    {
      var f := cate[i];
      var column := out.data[f];
      var mapDict: map<Cell, int>;
      if f == MonthField {
        mapDict := MonthMap();
      } else {
        mapDict := IndexMap(SortedUniques(column));
      }
      LoopPass(data, cate, i, out, records, mapDict);
      out := out.(data := out.data[f := ApplyMap(column, mapDict)]);
      records := records[f := mapDict];
      i := i + 1;
    }
    PrefixEncodesAll(data, cate);
  }

  /** What `preprocess` hands back: the processed table, `map_records`, and
      the categorical and continuous feature lists. */
  datatype Processed = Processed(
    table: Table,
    records: map<string, map<Cell, int>>,
    cateFeatures: seq<string>,
    contFeatures: seq<string>)

  /** `data['y'] = data['y'].map({'yes': 1, 'no': 0})`. */
  function MapLabel(t: Table): (r: Table)
    requires Label in t.data
    ensures r.columns == t.columns && r.height == t.height && r.data.Keys == t.data.Keys
    ensures forall c :: c in t.data && c != Label ==> r.data[c] == t.data[c]
    ensures Valid(t) ==> Valid(r)
  {
    t.(data := t.data[Label := ApplyMap(t.data[Label], LabelMap)])
  }

  /** The whole of `preprocess` on the loaded table `data`, where `order` is
      the order in which `list(set(...))` happened to list the non-continuous
      columns. The continuous columns pass through unscaled. */
  function PreprocessResult(data: Table, order: seq<string>): (r: Result<Processed>)
    requires Valid(data) && Enumerates(order, NonContinuous(data.columns))
  {
    match RemoveLabel(order)
    case Err(e) => Err(e)
    case Ok(cate) =>
      if !(forall c :: c in ContFeatures ==> c in data.data) then Err(MissingColumn)
      else
        CateFeatures(data, order);
        SelectedColumns(data, cate);
        var out := Select(Labelled(data, cate), cate + ContFeatures + [Label]);
        Ok(Processed(out.value, Records(data, cate), cate, ContFeatures))
  }

  /** `preprocess`, step by step: remove 'y' from the feature list, run the
      categorical loop, select the continuous columns (a KeyError if one is
      missing), map the label, and reorder the columns. */
  method Preprocess(data: Table, order: seq<string>) returns (r: Result<Processed>)
    requires Valid(data) && Enumerates(order, NonContinuous(data.columns))
    ensures r == PreprocessResult(data, order)
  {
    var removed := RemoveLabel(order);
    if removed.Err? {
      return Err(removed.error);
    }
    var cate := removed.value;
    CateFeatures(data, order);
    DistinctEachNew(cate);
    var out, records := MapCategorical(data, cate);
    if !(forall c :: c in ContFeatures ==> c in out.data) {
      return Err(MissingColumn);
    }
    SelectedColumns(data, cate);
    out := MapLabel(out);
    var selected := Select(out, cate + ContFeatures + [Label]);
    r := Ok(Processed(selected.value, records, cate, ContFeatures));
  }

  /** What `preprocess` guarantees: it fails exactly when 'y' or a continuous
      column is missing (a missing 'y' is reported first); otherwise the
      categorical features are all columns but the continuous ones and 'y',
      the table keeps its rows and is ordered categorical ++ continuous ++
      ['y'], each categorical column is its raw column rewritten through the
      dictionary recorded for it, `map_records` holds one dictionary per
      categorical feature and nothing else, the continuous columns are
      unchanged, and the label column is the raw one mapped yes->1, no->0. */
  lemma PreprocessFacts(data: Table, order: seq<string>)
    requires Valid(data) && Enumerates(order, NonContinuous(data.columns))
    ensures var r := PreprocessResult(data, order);
      && (r.Err? <==> Label !in data.columns || exists c :: c in ContFeatures && c !in data.columns)
      && (Label !in data.columns ==> r == Err(LabelNotInColumns))
      && (r.Err? && Label in data.columns ==> r == Err(MissingColumn))
  {
  }

  /** What the categorical loop and the label map need of the table and of
      the categorical features: the features, 'y' and the continuous columns
      are present, and the three groups do not overlap. */
  predicate Encodable(data: Table, cate: seq<string>)
  {
    && Valid(data) && (forall f :: f in cate ==> f in data.data)
    && Label in data.data && Label !in cate
    && forall c :: c in ContFeatures ==> c in data.data && c !in cate && c != Label
  }

  /** The table after the categorical loop and the label map, before the
      columns are reordered. */
  function Labelled(data: Table, cate: seq<string>): (r: Table)
    requires Encodable(data, cate)
    ensures Valid(r) && r.columns == data.columns && r.height == data.height && r.data.Keys == data.data.Keys
  {
    MapLabel(EncodeColumns(data, cate))
  }

  /** The columns of the encoded and labelled table. */
  lemma LabelledColumns(data: Table, cate: seq<string>)
    requires Encodable(data, cate)
    ensures var l := Labelled(data, cate);
      && (forall f :: f in cate ==> l.data[f] == ApplyMap(data.data[f], FieldMap(f, data.data[f])))
      && (forall c :: c in ContFeatures ==> l.data[c] == data.data[c])
      && l.data[Label] == ApplyMap(data.data[Label], LabelMap)
  {
  }

  /** The selected table holds the labelled table's columns, in the order
      categorical ++ continuous ++ ['y']. */
  lemma SelectedColumns(data: Table, cate: seq<string>)
    requires Encodable(data, cate)
    ensures var sel := Select(Labelled(data, cate), cate + ContFeatures + [Label]);
      && sel.Ok?
      && (forall c :: c in cate || c in ContFeatures || c == Label ==> c in sel.value.data && sel.value.data[c] == Labelled(data, cate).data[c])
  {
  }

  /** The shape of what `preprocess` returns: the feature lists and the
      column order of the processed table. */
  lemma PreprocessShape(data: Table, order: seq<string>)
    requires Valid(data) && Enumerates(order, NonContinuous(data.columns))
    requires PreprocessResult(data, order).Ok?
    ensures var p := PreprocessResult(data, order).value;
      && p.contFeatures == ContFeatures
      && Distinct(p.cateFeatures)
      && (forall c :: c in p.cateFeatures <==> c in data.columns && c !in ContFeatures && c != Label)
      && Valid(p.table) && p.table.height == data.height
      && p.table.columns == p.cateFeatures + ContFeatures + [Label]
  {
    RemoveLabelKeepsOthers(order);
    FeaturePartition(data.columns, order);
  }

  /** The contents of what `preprocess` returns: one dictionary per
      categorical feature, each categorical column its raw column rewritten
      through that dictionary, the continuous columns unchanged and the label
      column mapped yes->1, no->0. */
  lemma PreprocessContents(data: Table, order: seq<string>)
    requires Valid(data) && Enumerates(order, NonContinuous(data.columns))
    requires PreprocessResult(data, order).Ok?
    ensures var p := PreprocessResult(data, order).value;
      && (forall f :: f in p.records <==> f in p.cateFeatures)
      && (forall f :: f in p.cateFeatures ==>
            && f in data.data && f in p.records && f in p.table.data
            && p.records[f] == FieldMap(f, data.data[f])
            && p.table.data[f] == ApplyMap(data.data[f], p.records[f]))
      && (forall c :: c in ContFeatures ==> c in data.data && c in p.table.data && p.table.data[c] == data.data[c])
      && Label in data.data && Label in p.table.data
      && p.table.data[Label] == ApplyMap(data.data[Label], LabelMap)
  {
    CateFeatures(data, order);
    var cate := RemoveLabel(order).value;
    LabelledColumns(data, cate);
    SelectedColumns(data, cate);
  }
}
