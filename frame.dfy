/** A column-ordered table: the part of a pandas DataFrame the pipeline uses. */
module Frame {
  import opened Seqs
  import opened Cells
  import opened Results

  /** The target column, which both the preprocessing and the view look up by name. */
  const Label: string := "y"

  /** Columns in display order, each column's cells by name, and the row count. */
  datatype Table = Table(columns: seq<string>, data: map<string, seq<Cell>>, height: nat)

  /** Column names are distinct, every named column is present, all columns
      have `height` cells. */
  predicate Valid(t: Table)
  {
    && Distinct(t.columns)
    && (forall c :: c in t.columns ==> c in t.data)
    && (forall c :: c in t.data ==> c in t.columns)
    && (forall c :: c in t.data ==> |t.data[c]| == t.height)
  }

  /** Row `i` as the list of its cells, in column order. */
  function Row(t: Table, i: nat): (r: seq<Cell>)
    requires Valid(t) && i < t.height
    ensures |r| == |t.columns|
  {
    seq(|t.columns|, j requires 0 <= j < |t.columns| => t.data[t.columns[j]][i])
  }

  /** The table as its list of rows. */
  function Rows(t: Table): (r: seq<seq<Cell>>)
    requires Valid(t)
    ensures |r| == t.height
  {
    seq(t.height, i requires 0 <= i < t.height => Row(t, i))
  }

  /** `t[cols]`: the columns named in `cols`, in that order; a name the table
      does not have is a KeyError. */
  function Select(t: Table, cols: seq<string>): (r: Result<Table>)
    ensures r.Ok? <==> forall c :: c in cols ==> c in t.data
    ensures r.Err? ==> r.error == MissingColumn
    ensures r.Ok? ==> r.value.columns == cols && r.value.height == t.height
    ensures r.Ok? ==> forall c :: c in cols ==> c in r.value.data && r.value.data[c] == t.data[c]
    ensures r.Ok? && Valid(t) && Distinct(cols) ==> Valid(r.value)
  {
    if forall c :: c in cols ==> c in t.data then
      Ok(Table(cols, map c | c in cols :: t.data[c], t.height))
    else
      Err(MissingColumn)
  }

  /** `data.sample(frac=1.0)` for a given draw: row `i` of the result is row
      `perm[i]` of `t`. */
  function Shuffle(t: Table, perm: seq<nat>): (r: Table)
    requires Valid(t) && IsPermutation(perm, t.height)
    ensures Valid(r) && r.columns == t.columns && r.height == t.height
  {
    Table(t.columns,
          map c | c in t.data :: seq(t.height, i requires 0 <= i < t.height => t.data[c][perm[i]]),
          t.height)
  }

  lemma ShuffleRows(t: Table, perm: seq<nat>)
    requires Valid(t) && IsPermutation(perm, t.height)
    ensures Rows(Shuffle(t, perm)) == Pick(Rows(t), perm)
    ensures multiset(Rows(Shuffle(t, perm))) == multiset(Rows(t))
  {
    var s := Shuffle(t, perm);
    forall i | 0 <= i < t.height ensures Rows(s)[i] == Pick(Rows(t), perm)[i] {
      assert Row(s, i) == Row(t, perm[i]);
    }
    PermutedMultiset(Rows(t), perm);
  }

  /** Python's clamping of a slice start or stop to a sequence of length `n`. */
  function Clamp(k: nat, n: nat): (r: nat)
    ensures r <= n && (k <= n ==> r == k) && (n < k ==> r == n)
  {
    if k <= n then k else n
  }

  /** `t.iloc[lo:hi].reset_index(drop=True)`: rows `lo` up to `hi`, both clamped
      to the row count, renumbered from 0; empty when `hi` is not past `lo`. */
  function Slice(t: Table, lo: nat, hi: nat): (r: Table)
    requires Valid(t)
    ensures Valid(r) && r.columns == t.columns
    ensures r.height == if Clamp(hi, t.height) <= Clamp(lo, t.height) then 0
                        else Clamp(hi, t.height) - Clamp(lo, t.height)
  {
    var a := Clamp(lo, t.height);
    var b := if Clamp(hi, t.height) <= a then a else Clamp(hi, t.height);
    Table(t.columns, map c | c in t.data :: t.data[c][a..b], b - a)
  }

  /** The rows of a slice are the clamped range of the table's rows. */
  lemma SliceRows(t: Table, lo: nat, hi: nat)
    requires Valid(t)
    ensures var a := Clamp(lo, t.height);
      var b := if Clamp(hi, t.height) <= a then a else Clamp(hi, t.height);
      Rows(Slice(t, lo, hi)) == Rows(t)[a..b]
  {
    var a := Clamp(lo, t.height);
    var b := if Clamp(hi, t.height) <= a then a else Clamp(hi, t.height);
    var s := Slice(t, lo, hi);
    assert |Rows(s)| == b - a == |Rows(t)[a..b]|;
    forall i | 0 <= i < b - a ensures Rows(s)[i] == Rows(t)[a..b][i] {
      forall j | 0 <= j < |t.columns| ensures Row(s, i)[j] == Row(t, a + i)[j] {
        var c := t.columns[j];
        assert s.data[c] == t.data[c][a..b];
        calc {
          Row(s, i)[j];
          s.data[c][i];
          t.data[c][a + i];
          Row(t, a + i)[j];
        }
      }
      assert Rows(s)[i] == Row(s, i) && Rows(t)[a..b][i] == Row(t, a + i);
    }
  }
}
