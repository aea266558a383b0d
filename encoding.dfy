/** The dictionaries `preprocess` builds for the categorical columns and the
    label, and how `Series.map` applies them. */
module Encoding {
  import opened Seqs
  import opened Cells

  /** `{v: i for i, v in enumerate(xs)}`: each listed value to its position.
      A value listed twice keeps its last position, as in a dict comprehension. */
  function IndexMap(xs: seq<Cell>): (m: map<Cell, int>)
    ensures forall y :: y in m <==> y in xs
  {
    if xs == [] then map[]
    else
      var init := xs[..|xs| - 1];
      assert xs == init + [xs[|xs| - 1]];
      IndexMap(init)[xs[|xs| - 1] := |xs| - 1]
  }

  /** Over a list without repetitions, every value is mapped to its own position. */
  lemma {:induction false} IndexMapPositions(xs: seq<Cell>)
    requires Distinct(xs)
    ensures forall i :: 0 <= i < |xs| ==> xs[i] in IndexMap(xs) && IndexMap(xs)[xs[i]] == i
  {
    if xs != [] {
      var init := xs[..|xs| - 1];
      assert Distinct(init) by {
        forall i, j | 0 <= i < j < |init| ensures init[i] != init[j] { assert init[i] == xs[i] && init[j] == xs[j]; }
      }
      IndexMapPositions(init);
      forall i | 0 <= i < |xs| ensures xs[i] in IndexMap(xs) && IndexMap(xs)[xs[i]] == i {
        if i < |xs| - 1 { assert xs[i] == init[i] && xs[i] != xs[|xs| - 1]; }
      }
    }
  }

  /** The dictionary enumerating a sorted list of distinct values: its keys are
      the listed values, its codes are exactly 0..k-1, and it is injective and
      order-preserving in both directions. */
  lemma SortedIndexMap(xs: seq<Cell>)
    requires Sorted(xs)
    ensures var m := IndexMap(xs);
      && (forall i :: 0 <= i < |xs| ==> xs[i] in m && m[xs[i]] == i)
      && (forall k :: k in m.Values <==> 0 <= k < |xs|)
      && (forall a, b :: a in m && b in m ==> (Below(a, b) <==> m[a] < m[b]))
      && (forall a, b :: a in m && b in m && m[a] == m[b] ==> a == b)
  {
    var m := IndexMap(xs);
    SortedHasNoRepeats(xs);
    IndexMapPositions(xs);
    forall a | a in m ensures exists i :: 0 <= i < |xs| && xs[i] == a && m[a] == i {
      var i :| 0 <= i < |xs| && xs[i] == a;
    }
    forall k | k in m.Values ensures 0 <= k < |xs| {
      var a :| a in m && m[a] == k;
    }
    forall k | 0 <= k < |xs| ensures k in m.Values {
      assert m[xs[k]] == k;
    }
    forall a, b | a in m && b in m ensures Below(a, b) <==> m[a] < m[b] {
      var i :| 0 <= i < |xs| && xs[i] == a && m[a] == i;
      var j :| 0 <= j < |xs| && xs[j] == b && m[b] == j;
      if i == j { BelowIrreflexive(a); }
      else if j < i { BelowAsymmetric(b, a); }
    }
  }

  /** `Series.map(d)` on one cell: the code for a key of `d`, NaN otherwise. */
  function Lookup(d: map<Cell, int>, c: Cell): Cell
  {
    if c in d then Num(d[c]) else Missing
  }

  /** `column.map(d)`: every cell looked up in `d`. A cell becomes NaN exactly
      when it is not a key, and a key becomes its code. */
  function ApplyMap(col: seq<Cell>, d: map<Cell, int>): (r: seq<Cell>)
    ensures |r| == |col|
    ensures forall i :: 0 <= i < |col| ==> (r[i] == Missing <==> col[i] !in d)
    ensures forall i :: 0 <= i < |col| && col[i] in d ==> r[i] == Num(d[col[i]])
  {
    seq(|col|, i requires 0 <= i < |col| => Lookup(d, col[i]))
  }

  /** The one field whose codes follow calendar order instead of sorted order. */
  const MonthField: string := "month"

  /** The calendar as `preprocess` lists it: eleven abbreviations, without "sep". */
  const MonthList: seq<string> := ["jan", "feb", "mar", "apr", "may", "jun", "jul", "aug", "oct", "nov", "dec"]

  function MonthCells(): (r: seq<Cell>)
    ensures |r| == |MonthList|
  {
    seq(|MonthList|, i requires 0 <= i < |MonthList| => Str(MonthList[i]))
  }

  /** The month dictionary, which does not depend on the data. */
  function MonthMap(): map<Cell, int>
  {
    IndexMap(MonthCells())
  }

  /** An independent month table, written out case by case: the position of
      each listed abbreviation, -1 for anything else. */
  function MonthNumber(s: string): int
  {
    if s == "jan" then 0 else if s == "feb" then 1 else if s == "mar" then 2
    else if s == "apr" then 3 else if s == "may" then 4 else if s == "jun" then 5
    else if s == "jul" then 6 else if s == "aug" then 7 else if s == "oct" then 8
    else if s == "nov" then 9 else if s == "dec" then 10 else -1
  }

  lemma MonthNumberAt(k: nat)
    requires k < |MonthList|
    ensures MonthNumber(MonthList[k]) == k
  {
  }

  lemma MonthNumberListed(s: string)
    requires MonthNumber(s) >= 0
    ensures MonthNumber(s) < |MonthList| && MonthList[MonthNumber(s)] == s
  {
  }

  lemma MonthCellsDistinct()
    ensures Distinct(MonthCells())
  {
  }

  /** Each listed month is a key, coded by its position in the list; only
      listed months are keys. */
  lemma MonthPositions()
    ensures forall k :: 0 <= k < |MonthList| ==> Str(MonthList[k]) in MonthMap() && MonthMap()[Str(MonthList[k])] == k
    ensures forall c :: c in MonthMap() <==> c in MonthCells()
  {
    var ms := MonthCells();
    MonthCellsDistinct();
    IndexMapPositions(ms);
    forall k | 0 <= k < |MonthList| ensures Str(MonthList[k]) == ms[k] { }
  }

  /** The month dictionary agrees with the written-out table on every string:
      a key exactly when the table lists it, with the table's number. */
  lemma MonthMapIsTable(s: string)
    ensures Str(s) in MonthMap() <==> MonthNumber(s) >= 0
    ensures Str(s) in MonthMap() ==> MonthMap()[Str(s)] == MonthNumber(s)
  {
    var ms := MonthCells();
    MonthPositions();
    if Str(s) in ms {
      var k :| 0 <= k < |ms| && ms[k] == Str(s);
      MonthNumberAt(k);
    }
    if MonthNumber(s) >= 0 {
      MonthNumberListed(s);
      assert ms[MonthNumber(s)] == Str(s);
    }
  }

  /** The codes around the gap: 'jan' is 0, 'aug' 7, then 'oct' 8 and 'dec' 10. */
  lemma MonthCodes()
    ensures |MonthList| == 11
    ensures Str("jan") in MonthMap() && MonthMap()[Str("jan")] == 0
    ensures Str("aug") in MonthMap() && MonthMap()[Str("aug")] == 7
    ensures Str("oct") in MonthMap() && MonthMap()[Str("oct")] == 8
    ensures Str("dec") in MonthMap() && MonthMap()[Str("dec")] == 10
  {
    MonthMapIsTable("jan");
    MonthMapIsTable("aug");
    MonthMapIsTable("oct");
    MonthMapIsTable("dec");
  }

  /** 'sep' is not a key of the month dictionary. */
  lemma SeptemberUnmapped()
    ensures Str("sep") !in MonthMap()
  {
  }

  /** `{'yes': 1, 'no': 0}`. */
  const LabelMap: map<Cell, int> := map[Str("yes") := 1, Str("no") := 0]

  /** The dictionary `preprocess` builds for categorical field `f` holding `col`. */
  function FieldMap(f: string, col: seq<Cell>): (m: map<Cell, int>)
    ensures f == MonthField ==> forall y :: y in m <==> y in MonthCells()
    ensures f != MonthField ==> forall y :: y in m <==> y in col
  {
    if f == MonthField then MonthMap() else IndexMap(SortedUniques(col))
  }

  /** For a field other than 'month': the dictionary's keys are exactly the
      column's distinct values, every cell becomes a code in 0..k-1 (k the
      number of distinct values) from which the sorted distinct list gives the
      value back, and every code is taken by some row. */
  lemma EncodeByRank(f: string, col: seq<Cell>)
    requires f != MonthField
    ensures var d, u := FieldMap(f, col), SortedUniques(col);
      var enc := ApplyMap(col, d);
      && (forall y :: y in d <==> y in col)
      && (forall i :: 0 <= i < |col| ==> enc[i].Num? && 0 <= enc[i].n < |u| && u[enc[i].n] == col[i])
      && (forall k :: 0 <= k < |u| ==> exists i :: 0 <= i < |col| && enc[i] == Num(k))
  {
    var d, u := FieldMap(f, col), SortedUniques(col);
    var enc := ApplyMap(col, d);
    SortedIndexMap(u);
    forall i | 0 <= i < |col| ensures enc[i].Num? && 0 <= enc[i].n < |u| && u[enc[i].n] == col[i] {
      assert col[i] in u;
      var k :| 0 <= k < |u| && u[k] == col[i];
      assert d[col[i]] == k;
    }
    forall k | 0 <= k < |u| ensures exists i :: 0 <= i < |col| && enc[i] == Num(k) {
      assert u[k] in col;
      var i :| 0 <= i < |col| && col[i] == u[k];
      assert enc[i] == Num(k);
    }
  }

  /** For a field other than 'month', codes compare exactly as the raw values
      do: equal values get equal codes, and a value sorts below another iff its
      code is smaller. */
  lemma EncodeKeepsOrder(f: string, col: seq<Cell>)
    requires f != MonthField
    ensures var enc := ApplyMap(col, FieldMap(f, col));
      && (forall i :: 0 <= i < |col| ==> enc[i].Num?)
      && (forall i, j :: 0 <= i < |col| && 0 <= j < |col| ==> (col[i] == col[j] <==> enc[i] == enc[j]))
      && (forall i, j :: 0 <= i < |col| && 0 <= j < |col| ==> (Below(col[i], col[j]) <==> enc[i].n < enc[j].n))
  {
    var u := SortedUniques(col);
    var d := IndexMap(u);
    var enc := ApplyMap(col, d);
    SortedIndexMap(u);
    assert forall i :: 0 <= i < |col| ==> col[i] in d && enc[i] == Num(d[col[i]]);
  }

  /** Encoding the sorted distinct values themselves gives 0, 1, ..., k-1. */
  lemma EncodeSortedValues(f: string, col: seq<Cell>)
    requires f != MonthField
    ensures var u := SortedUniques(col);
      ApplyMap(u, FieldMap(f, col)) == seq(|u|, k requires 0 <= k < |u| => Num(k))
  {
    var u := SortedUniques(col);
    SortedIndexMap(u);
  }

  /** The 'month' column is coded cell by cell with the fixed dictionary:
      a listed month becomes its position, anything else (such as 'sep')
      becomes NaN, whatever the other rows hold. */
  lemma EncodeMonth(col: seq<Cell>)
    ensures var enc := ApplyMap(col, FieldMap(MonthField, col));
      && (forall i :: 0 <= i < |col| && col[i].Str? && MonthNumber(col[i].s) >= 0 ==> enc[i] == Num(MonthNumber(col[i].s)))
      && (forall i :: 0 <= i < |col| && !(col[i].Str? && MonthNumber(col[i].s) >= 0) ==> enc[i] == Missing)
      && (forall i :: 0 <= i < |col| && col[i] == Str("sep") ==> enc[i] == Missing)
  {
    forall i | 0 <= i < |col| && col[i].Str? {
      MonthMapIsTable(col[i].s);
    }
    SeptemberUnmapped();
  }

  /** The label column: 'yes' becomes 1, 'no' becomes 0, anything else NaN;
      so when every label is 'yes' or 'no', every coded label is 0 or 1. */
  lemma EncodeLabel(col: seq<Cell>)
    ensures var enc := ApplyMap(col, LabelMap);
      && (forall i :: 0 <= i < |col| ==> (enc[i] == Num(1) <==> col[i] == Str("yes")))
      && (forall i :: 0 <= i < |col| ==> (enc[i] == Num(0) <==> col[i] == Str("no")))
      && (forall i :: 0 <= i < |col| ==> (enc[i] == Missing <==> col[i] != Str("yes") && col[i] != Str("no")))
      && ((forall i :: 0 <= i < |col| ==> col[i] == Str("yes") || col[i] == Str("no")) ==>
            forall i :: 0 <= i < |col| ==> enc[i] == Num(0) || enc[i] == Num(1))
  {
  }
}
