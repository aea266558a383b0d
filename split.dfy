/** `BankPreprocessor.get_dataset`: shuffle, the two split boundaries, the
    three slices, and the three views over them. */
module Splitting {
  import opened Seqs
  import opened Cells
  import opened Results
  import opened Frame
  import opened Preprocessing
  import opened Dataset

  datatype Fraction = Fraction(num: nat, den: nat)

  /** A split ratio: a non-negative rational `num / den`. */
  type Ratio = f: Fraction | f.den > 0 witness Fraction(0, 1)

  lemma PositiveProduct(a: nat, b: nat)
    requires a > 0 && b > 0
    ensures a * b > 0
  {
  }

  /** `train_ratio + val_ratio`, exactly. Neither summand exceeds the sum,
      and adding zero gives the other summand's value. */
  function Plus(a: Ratio, b: Ratio): (r: Ratio)
    ensures a.num * r.den <= r.num * a.den
    ensures b.num * r.den <= r.num * b.den
    ensures a.num == 0 ==> r.num * b.den == b.num * r.den
  {
    PositiveProduct(a.den, b.den);
    assert a.num * (a.den * b.den) == (a.num * b.den) * a.den;
    assert b.num * (a.den * b.den) == (b.num * a.den) * b.den;
    assert (a.num * b.den + b.num * a.den) * a.den == (a.num * b.den) * a.den + (b.num * a.den) * a.den;
    assert (a.num * b.den + b.num * a.den) * b.den == (a.num * b.den) * b.den + (b.num * a.den) * b.den;
    Fraction(a.num * b.den + b.num * a.den, a.den * b.den)
  }

  predicate AtMostOne(r: Ratio)
  {
    r.num <= r.den
  }

  /** `int(n * r)`: truncation of a non-negative number is its floor, the
      largest `b` with `b <= n * r`. */
  function Boundary(n: nat, r: Ratio): (b: nat)
    ensures b * r.den <= n * r.num < (b + 1) * r.den
  {
    var x := n * r.num;
    assert x == (x / r.den) * r.den + x % r.den;
    x / r.den
  }

  lemma MulMonotone(a: nat, b: nat, c: nat)
    requires a <= b
    ensures a * c <= b * c
  {
  }

  /** Division by `m` is the unique quotient of a remainder decomposition. */
  lemma DivUnique(x: nat, m: nat, q: nat, r: nat)
    requires m > 0 && r < m && x == q * m + r
    ensures x / m == q
  {
    var q0, r0 := x / m, x % m;
    assert x == q0 * m + r0;
    if q0 > q {
      MulMonotone(q + 1, q0, m);
      assert false;
    } else if q0 < q {
      MulMonotone(q0 + 1, q, m);
      assert false;
    }
  }

  lemma DivMonotone(x: nat, y: nat, d: nat)
    requires x <= y && d > 0
    ensures x / d <= y / d
  {
    var q, q' := x / d, y / d;
    assert x == q * d + x % d && y == q' * d + y % d;
    if q > q' {
      MulMonotone(q' + 1, q, d);
      assert false;
    }
  }

  lemma DivCancel(x: nat, b: nat, d: nat)
    requires b > 0 && d > 0
    ensures (x * d) / (b * d) == x / b
  {
    var q, r := x / b, x % b;
    assert x == q * b + r;
    calc {
      x * d;
      (q * b + r) * d;
      q * (b * d) + r * d;
    }
    MulMonotone(r + 1, b, d);
    assert (r + 1) * d == r * d + d;
    PositiveProduct(b, d);
    DivUnique(x * d, b * d, q, r * d);
  }

  /** The first boundary never passes the second. */
  lemma BoundaryMonotone(n: nat, train: Ratio, val: Ratio)
    ensures Boundary(n, train) <= Boundary(n, Plus(train, val))
  {
    var a, b, c, d := train.num, train.den, val.num, val.den;
    DivCancel(n * a, b, d);
    assert (n * a) * d <= n * (a * d + c * b) by {
      calc {
        (n * a) * d;
        n * (a * d);
      <= { MulMonotone(a * d, a * d + c * b, n); }
        n * (a * d + c * b);
      }
    }
    PositiveProduct(b, d);
    DivMonotone((n * a) * d, n * (a * d + c * b), b * d);
  }

  /** A ratio of at most one puts the boundary inside the table. */
  lemma BoundaryInside(n: nat, r: Ratio)
    requires AtMostOne(r)
    ensures Boundary(n, r) <= n
  {
  }

  /** The three partitions for one draw `perm` of the shuffle:
      `[0, b1)`, `[b1, b2)` and `[b2, N)` of the shuffled table, each
      renumbered from 0, with `b1 = int(N * train)` and
      `b2 = int(N * (train + val))`. */
  function Split(t: Table, perm: seq<nat>, train: Ratio, val: Ratio): (parts: (Table, Table, Table))
    requires Valid(t) && IsPermutation(perm, t.height)
    ensures Valid(parts.0) && Valid(parts.1) && Valid(parts.2)
    ensures parts.0.columns == t.columns && parts.1.columns == t.columns && parts.2.columns == t.columns
    ensures parts.0.height == Clamp(Boundary(t.height, train), t.height)
    ensures parts.2.height == t.height - Clamp(Boundary(t.height, Plus(train, val)), t.height)
  {
    var shuffled := Shuffle(t, perm);
    var b1, b2 := Boundary(t.height, train), Boundary(t.height, Plus(train, val));
    (Slice(shuffled, 0, b1), Slice(shuffled, b1, b2), Slice(shuffled, b2, t.height))
  }

  /** For any ratios, the three partitions keep the table's columns and
      their sizes add up to the row count; slicing clamps a boundary past the
      end, so the sum holds even when the ratios exceed one. */
  lemma SplitSizes(t: Table, perm: seq<nat>, train: Ratio, val: Ratio)
    requires Valid(t) && IsPermutation(perm, t.height)
    ensures var (tr, va, te) := Split(t, perm, train, val);
      && Valid(tr) && Valid(va) && Valid(te)
      && tr.columns == t.columns && va.columns == t.columns && te.columns == t.columns
      && tr.height + va.height + te.height == t.height
  {
    BoundaryMonotone(t.height, train, val);
  }

  /** With `train + val <= 1` the boundaries satisfy `0 <= b1 <= b2 <= N` and
      the partitions have `b1`, `b2 - b1` and `N - b2` rows. */
  lemma SplitBounds(t: Table, perm: seq<nat>, train: Ratio, val: Ratio)
    requires Valid(t) && IsPermutation(perm, t.height)
    requires AtMostOne(Plus(train, val))
    ensures var b1, b2 := Boundary(t.height, train), Boundary(t.height, Plus(train, val));
      var (tr, va, te) := Split(t, perm, train, val);
      && 0 <= b1 <= b2 <= t.height
      && tr.height == b1 && va.height == b2 - b1 && te.height == t.height - b2
  {
    BoundaryMonotone(t.height, train, val);
    BoundaryInside(t.height, Plus(train, val));
  }

  /** Concatenating train, val and test gives back the shuffled table row for
      row, so together they hold every row of the original table exactly as
      often as it holds it. */
  lemma SplitRows(t: Table, perm: seq<nat>, train: Ratio, val: Ratio)
    requires Valid(t) && IsPermutation(perm, t.height)
    ensures var (tr, va, te) := Split(t, perm, train, val);
      && Rows(tr) + Rows(va) + Rows(te) == Rows(Shuffle(t, perm))
      && multiset(Rows(tr) + Rows(va) + Rows(te)) == multiset(Rows(t))
  {
    var n := t.height;
    var shuffled := Shuffle(t, perm);
    var b1, b2 := Boundary(n, train), Boundary(n, Plus(train, val));
    BoundaryMonotone(n, train, val);
    var c1, c2 := Clamp(b1, n), Clamp(b2, n);
    SliceRows(shuffled, 0, b1);
    SliceRows(shuffled, b1, b2);
    SliceRows(shuffled, b2, n);
    var rs := Rows(shuffled);
    assert rs[0..c1] + rs[c1..c2] + rs[c2..n] == rs;
    ShuffleRows(t, perm);
  }

  /** Ten rows with the default ratios taken exactly, 7/10 and 2/10, give
      partitions of 7, 2 and 1 rows. */
  lemma SplitTenRows(t: Table, perm: seq<nat>)
    requires Valid(t) && IsPermutation(perm, t.height) && t.height == 10
    ensures var (tr, va, te) := Split(t, perm, Fraction(7, 10), Fraction(2, 10));
      tr.height == 7 && va.height == 2 && te.height == 1
  {
  }

  /** What `get_dataset` returns: three views and `map_records`. */
  datatype Datasets = Datasets(
    train: BankDataset,
    val: BankDataset,
    test: BankDataset,
    records: map<string, map<Cell, int>>)

  /** The whole of `get_dataset` for the loaded table `data`, the set order
      `order` and the shuffle draw `perm`. */
  function DatasetsResult(data: Table, order: seq<string>, perm: seq<nat>, train: Ratio, val: Ratio): (r: Result<Datasets>)
    requires Valid(data) && Enumerates(order, NonContinuous(data.columns)) && IsPermutation(perm, data.height)
  {
    match PreprocessResult(data, order)
    case Err(e) => Err(e)
    case Ok(p) =>
      PreprocessShape(data, order);
      var (tr, va, te) := Split(p.table, perm, train, val);
      Ok(Datasets(BankDataset(tr, p.cateFeatures, p.contFeatures),
                  BankDataset(va, p.cateFeatures, p.contFeatures),
                  BankDataset(te, p.cateFeatures, p.contFeatures),
                  p.records))
  }

  /** `get_dataset`: preprocess, shuffle, cut at the two boundaries and wrap
      each slice in a view that shares the feature lists. */
  method GetDataset(data: Table, order: seq<string>, perm: seq<nat>, train: Ratio, val: Ratio) returns (r: Result<Datasets>)
    requires Valid(data) && Enumerates(order, NonContinuous(data.columns)) && IsPermutation(perm, data.height)
    ensures r == DatasetsResult(data, order, perm, train, val)
  {
    var processed := Preprocess(data, order);
    if processed.Err? {
      return Err(processed.error);
    }
    var p := processed.value;
    PreprocessShape(data, order);
    var shuffled := Shuffle(p.table, perm);
    var b1 := Boundary(p.table.height, train);
    var b2 := Boundary(p.table.height, Plus(train, val));
    var trainPart := Slice(shuffled, 0, b1);
    var valPart := Slice(shuffled, b1, b2);
    var testPart := Slice(shuffled, b2, p.table.height);
    r := Ok(Datasets(BankDataset(trainPart, p.cateFeatures, p.contFeatures),
                     BankDataset(valPart, p.cateFeatures, p.contFeatures),
                     BankDataset(testPart, p.cateFeatures, p.contFeatures),
                     p.records));
  }

  /** What `get_dataset` guarantees: it fails exactly when `preprocess` does;
      otherwise the three views together have one row per input row, each
      carries the feature lists `preprocess` returned and is laid out
      categorical ++ continuous ++ ['y'] so that every row of every view reads
      back as a sample, and between them they hold exactly the processed
      table's rows. */
  lemma DatasetsFacts(data: Table, order: seq<string>, perm: seq<nat>, train: Ratio, val: Ratio)
    requires Valid(data) && Enumerates(order, NonContinuous(data.columns)) && IsPermutation(perm, data.height)
    ensures var r := DatasetsResult(data, order, perm, train, val);
      && (r.Err? <==> PreprocessResult(data, order).Err?)
      && (r.Ok? ==>
            var p := PreprocessResult(data, order).value;
            var ds := r.value;
            && Valid(p.table) && Valid(ds.train.file) && Valid(ds.val.file) && Valid(ds.test.file)
            && ds.train.Len() + ds.val.Len() + ds.test.Len() == data.height
            && ds.train.file.columns == ds.train.cateFeatures + ds.train.contFeatures + [Label]
            && ds.val.file.columns == ds.val.cateFeatures + ds.val.contFeatures + [Label]
            && ds.test.file.columns == ds.test.cateFeatures + ds.test.contFeatures + [Label]
            && ds.train.cateFeatures == p.cateFeatures && ds.train.contFeatures == p.contFeatures
            && ds.val.cateFeatures == p.cateFeatures && ds.val.contFeatures == p.contFeatures
            && ds.test.cateFeatures == p.cateFeatures && ds.test.contFeatures == p.contFeatures
            && ds.train.file.columns == p.table.columns && ds.val.file.columns == p.table.columns
            && ds.test.file.columns == p.table.columns
            && ds.records == p.records
            && multiset(Rows(ds.train.file) + Rows(ds.val.file) + Rows(ds.test.file)) == multiset(Rows(p.table)))
  {
    if PreprocessResult(data, order).Ok? {
      var p := PreprocessResult(data, order).value;
      PreprocessShape(data, order);
      SplitSizes(p.table, perm, train, val);
      SplitRows(p.table, perm, train, val);
    }
  }
}
