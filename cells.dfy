/** Table cells, the order `sorted` puts raw values in, and the sorted list of
    a column's distinct values. */
module Cells {
  import opened Seqs

  /** A cell: an integer, a string, or the missing value (pandas' NaN) that a
      dictionary lookup produces for a key the dictionary does not hold. */
  datatype Cell = Num(n: int) | Str(s: string) | Missing

  /** Python's `<` on strings: lexicographic by character code. It is strict,
      and a proper prefix sorts before the longer string. */
  predicate StrBelow(a: string, b: string)
    ensures StrBelow(a, b) ==> a != b
    ensures a < b ==> StrBelow(a, b)
  {
    if a == [] then b != []
    else if b == [] then false
    else if a[0] == b[0] then StrBelow(a[1..], b[1..])
    else a[0] < b[0]
  }

  /** The strict order used to sort raw values: integers numerically, strings
      lexicographically; integers before strings, the missing value last.
      It is irreflexive here, and asymmetric, transitive and total by the
      lemmas below. */
  predicate Below(a: Cell, b: Cell)
    ensures Below(a, b) ==> a != b
  {
    match (a, b)
    case (Num(x), Num(y)) => x < y
    case (Num(_), _) => !b.Num?
    case (Str(x), Str(y)) => StrBelow(x, y)
    case (Str(_), _) => b.Missing?
    case (Missing, _) => false
  }

  lemma StrBelowIrreflexive(a: string)
    ensures !StrBelow(a, a)
  {
  }

  lemma {:induction false} StrBelowTransitive(a: string, b: string, c: string)
    requires StrBelow(a, b) && StrBelow(b, c)
    ensures StrBelow(a, c)
  {
    if a != [] && a[0] == b[0] && b[0] == c[0] {
      StrBelowTransitive(a[1..], b[1..], c[1..]);
    }
  }

  lemma {:induction false} StrBelowTotal(a: string, b: string)
    requires a != b
    ensures StrBelow(a, b) || StrBelow(b, a)
  {
    if a != [] && b != [] && a[0] == b[0] {
      assert a == [a[0]] + a[1..] && b == [b[0]] + b[1..];
      StrBelowTotal(a[1..], b[1..]);
    }
  }

  lemma {:induction false} StrBelowAsymmetric(a: string, b: string)
    requires StrBelow(a, b)
    ensures !StrBelow(b, a)
  {
    if a != [] && b != [] && a[0] == b[0] {
      StrBelowAsymmetric(a[1..], b[1..]);
    }
  }

  lemma BelowIrreflexive(a: Cell)
    ensures !Below(a, a)
  {
  }

  lemma BelowTransitive(a: Cell, b: Cell, c: Cell)
    requires Below(a, b) && Below(b, c)
    ensures Below(a, c)
  {
    if a.Str? && b.Str? && c.Str? { StrBelowTransitive(a.s, b.s, c.s); }
  }

  lemma BelowAsymmetric(a: Cell, b: Cell)
    requires Below(a, b)
    ensures !Below(b, a)
  {
    if a.Str? && b.Str? { StrBelowAsymmetric(a.s, b.s); }
  }

  /** Any two different cells are comparable. */
  lemma BelowTotal(a: Cell, b: Cell)
    requires a != b
    ensures Below(a, b) || Below(b, a)
  {
    if a.Str? && b.Str? { StrBelowTotal(a.s, b.s); }
  }

  /** Strictly increasing, hence free of duplicates. */
  predicate Sorted(xs: seq<Cell>)
  {
    forall i, j :: 0 <= i < j < |xs| ==> Below(xs[i], xs[j])
  }

  lemma SortedDistinctElements(xs: seq<Cell>, i: nat, j: nat)
    requires Sorted(xs) && i < |xs| && j < |xs| && i != j
    ensures xs[i] != xs[j]
  {
  }

  /** A strictly increasing sequence has no repeats. */
  lemma SortedHasNoRepeats(xs: seq<Cell>)
    requires Sorted(xs)
    ensures Distinct(xs)
  {
  }

  /** A sorted sequence with `h` below all its elements stays sorted with `h` in front. */
  lemma PrependSorted(h: Cell, t: seq<Cell>)
    requires Sorted(t)
    requires forall y :: y in t ==> Below(h, y)
    ensures Sorted([h] + t)
  {
  }

  /** Inserts `x` into a sorted sequence of distinct values, keeping it sorted
      and adding no duplicate. */
  function Insert(x: Cell, s: seq<Cell>): (r: seq<Cell>)
    requires Sorted(s)
    ensures Sorted(r)
    ensures forall y :: y in r <==> y == x || y in s
  {
    if s == [] then [x]
    else if x == s[0] then s
    else if Below(x, s[0]) then
      assert forall y :: y in s ==> Below(x, y) by {
        forall y | y in s ensures Below(x, y) {
          var k :| 0 <= k < |s| && s[k] == y;
          if k > 0 { BelowTransitive(x, s[0], y); }
        }
      }
      PrependSorted(x, s);
      [x] + s
    else
      BelowTotal(x, s[0]);
      var t := Insert(x, s[1..]);
      assert forall y :: y in t ==> Below(s[0], y) by {
        forall y | y in t ensures Below(s[0], y) {
          if y != x {
            assert y in s[1..];
            var k :| 0 <= k < |s[1..]| && s[1..][k] == y;
            assert s[k + 1] == y;
          }
        }
      }
      PrependSorted(s[0], t);
      assert s == [s[0]] + s[1..];
      [s[0]] + t
  }

  /** `sorted(column.unique())`: the column's distinct values in increasing order. */
  function SortedUniques(col: seq<Cell>): (r: seq<Cell>)
    ensures Sorted(r)
    ensures forall y :: y in r <==> y in col
  {
    if col == [] then []
    else
      var init := col[..|col| - 1];
      assert col == init + [col[|col| - 1]];
      Insert(col[|col| - 1], SortedUniques(init))
  }

  /** There is only one strictly increasing sequence with a given set of
      elements, so `SortedUniques` is the sorted list of distinct values
      whichever way it is computed. */
  lemma {:induction false} SortedUnique(a: seq<Cell>, b: seq<Cell>)
    requires Sorted(a) && Sorted(b)
    requires forall y :: y in a <==> y in b
    ensures a == b
  {
    SortedHasNoRepeats(a);
    SortedHasNoRepeats(b);
    SameElementsSameLength(a, b);
    if a != [] {
      assert a[0] in b;
      if a[0] != b[0] {
        var k :| 0 <= k < |b| && b[k] == a[0];
        assert b[0] in a;
        var m :| 0 <= m < |a| && a[m] == b[0];
        assert Below(b[0], a[0]);
        assert Below(a[0], b[0]);
        BelowAsymmetric(a[0], b[0]);
        assert false;
      }
      forall y ensures y in a[1..] <==> y in b[1..] {
        if y in a[1..] {
          var k :| 0 <= k < |a[1..]| && a[1..][k] == y;
          SortedDistinctElements(a, 0, k + 1);
          assert y in b && y != b[0];
          var m :| 0 <= m < |b| && b[m] == y;
          assert b[1..][m - 1] == y;
        }
        if y in b[1..] {
          var k :| 0 <= k < |b[1..]| && b[1..][k] == y;
          SortedDistinctElements(b, 0, k + 1);
          assert y in a && y != a[0];
          var m :| 0 <= m < |a| && a[m] == y;
          assert a[1..][m - 1] == y;
        }
      }
      SortedUnique(a[1..], b[1..]);
      assert a == [a[0]] + a[1..] && b == [b[0]] + b[1..];
    }
  }
}
