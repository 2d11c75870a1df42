/** The grid store: an N×N phase field of oil fractions, and its total mass.
    Cell (x, y) of a field `g` is `g[x][y]`, the indexing the simulator uses. */
module Field {

  /** A phase field; a well-formed one is square (see `Square`). */
  type Grid = seq<seq<real>>

  /** Every row is as long as there are rows. */
  predicate Square(g: Grid) {
    forall i :: 0 <= i < |g| ==> |g[i]| == |g|
  }

  /** Every cell of `g` holds `c`. */
  predicate Uniform(g: Grid, c: real) {
    forall i, j :: 0 <= i < |g| && 0 <= j < |g[i]| ==> g[i][j] == c
  }

  /** Every cell of `g` is an oil fraction between 0 (water) and 1 (oil). */
  predicate InUnit(g: Grid) {
    forall i, j :: 0 <= i < |g| && 0 <= j < |g[i]| ==> 0.0 <= g[i][j] <= 1.0
  }

  /** The freshly allocated N×N field of water. */
  function Zeros(n: nat): (g: Grid)
    ensures Square(g) && |g| == n
    ensures Uniform(g, 0.0)
  {
    seq(n, _ => seq(n, _ => 0.0))
  }

  function Min(a: real, b: real): real {
    if a <= b then a else b
  }

  function Max(a: real, b: real): real {
    if a >= b then a else b
  }

  /** Sum of a row, accumulated left to right. */
  function RowSum(s: seq<real>): real {
    if |s| == 0 then 0.0 else RowSum(s[..|s| - 1]) + s[|s| - 1]
  }

  /** Total mass of a field: its cells summed row by row. */
  function Sum(g: Grid): real {
    if |g| == 0 then 0.0 else Sum(g[..|g| - 1]) + RowSum(g[|g| - 1])
  }

  /** `k` copies of `d` added up; kept recursive so that mass bookkeeping stays linear
      until `TimesIsProduct` turns it into k·d. */
  function Times(k: nat, d: real): real {
    if k == 0 then 0.0 else Times(k - 1, d) + d
  }

  lemma {:induction false} TimesIsProduct(k: nat, d: real)
    ensures Times(k, d) == k as real * d
  {
    if k > 0 {
      TimesIsProduct(k - 1, d);
    }
  }

  lemma Distribute(p: real, q: real, r: real)
    ensures r * p + r * q == r * (p + q)
  {
  }

  /** Cell-by-cell addition of rows adds their sums. */
  lemma {:induction false} RowSumAdd(a: seq<real>, b: seq<real>, c: seq<real>)
    requires |a| == |b| == |c|
    requires forall k :: 0 <= k < |c| ==> c[k] == a[k] + b[k]
    ensures RowSum(c) == RowSum(a) + RowSum(b)
  {
    if |c| > 0 {
      var m := |c| - 1;
      RowSumAdd(a[..m], b[..m], c[..m]);
    }
  }

  /** Cell-by-cell subtraction of rows subtracts their sums. */
  lemma {:induction false} RowSumMinus(a: seq<real>, b: seq<real>, c: seq<real>)
    requires |a| == |b| == |c|
    requires forall k :: 0 <= k < |c| ==> c[k] == a[k] - b[k]
    ensures RowSum(c) == RowSum(a) - RowSum(b)
  {
    if |c| > 0 {
      var m := |c| - 1;
      RowSumMinus(a[..m], b[..m], c[..m]);
    }
  }

  /** Scaling every cell of a row by `x` scales its sum by `x`. */
  lemma {:induction false} RowSumScale(a: seq<real>, c: seq<real>, x: real)
    requires |a| == |c|
    requires forall k :: 0 <= k < |c| ==> c[k] == x * a[k]
    ensures RowSum(c) == x * RowSum(a)
  {
    if |c| > 0 {
      var m := |c| - 1;
      RowSumScale(a[..m], c[..m], x);
      Distribute(RowSum(a[..m]), a[m], x);
    }
  }

  lemma RowTimesSum(x: real, a: seq<real>)
    ensures RowSum(RowTimes(x, a)) == x * RowSum(a)
  {
    RowSumScale(a, RowTimes(x, a), x);
  }

  lemma ScaledRowSum(d: seq<real>, a: seq<real>, x: real, v: real)
    requires d == RowTimes(x, a) && RowSum(a) == v
    ensures RowSum(d) == x * v
  {
    RowTimesSum(x, a);
  }

  /** Adding `d` to every cell of a row adds |row| copies of `d` to its sum. */
  lemma {:induction false} RowSumShift(a: seq<real>, c: seq<real>, d: real)
    requires |a| == |c|
    requires forall k :: 0 <= k < |c| ==> c[k] == a[k] + d
    ensures RowSum(c) == RowSum(a) + Times(|a|, d)
  {
    if |c| > 0 {
      var m := |c| - 1;
      RowSumShift(a[..m], c[..m], d);
    }
  }

  /** Cell-by-cell sum of two rows. */
  function RowPlus(a: seq<real>, b: seq<real>): (c: seq<real>)
    requires |a| == |b|
    ensures |c| == |a| && forall k :: 0 <= k < |a| ==> c[k] == a[k] + b[k]
  {
    seq(|a|, k requires 0 <= k < |a| => a[k] + b[k])
  }

  /** Cell-by-cell difference of two rows. */
  function RowMinus(a: seq<real>, b: seq<real>): (c: seq<real>)
    requires |a| == |b|
    ensures |c| == |a| && forall k :: 0 <= k < |a| ==> c[k] == a[k] - b[k]
  {
    seq(|a|, k requires 0 <= k < |a| => a[k] - b[k])
  }

  /** A row with every cell multiplied by `x`. */
  function RowTimes(x: real, a: seq<real>): (c: seq<real>)
    ensures |c| == |a| && forall k :: 0 <= k < |a| ==> c[k] == x * a[k]
  {
    seq(|a|, k requires 0 <= k < |a| => x * a[k])
  }

  /** Cell-by-cell sum of two fields of the same shape. */
  function GridPlus(a: Grid, b: Grid): (c: Grid)
    requires |a| == |b| && forall i :: 0 <= i < |a| ==> |a[i]| == |b[i]|
    ensures |c| == |a| && forall i :: 0 <= i < |a| ==> |c[i]| == |a[i]|
    ensures forall i, j :: 0 <= i < |a| && 0 <= j < |a[i]| ==> c[i][j] == a[i][j] + b[i][j]
  {
    seq(|a|, i requires 0 <= i < |a| => RowPlus(a[i], b[i]))
  }

  /** The sums of the rows of a field, in order. */
  function RowSums(g: Grid): (v: seq<real>)
    ensures |v| == |g| && forall i :: 0 <= i < |g| ==> v[i] == RowSum(g[i])
  {
    seq(|g|, i requires 0 <= i < |g| => RowSum(g[i]))
  }

  /** A field whose row sums are `v` has total mass Σv. */
  lemma {:induction false} SumByRows(g: Grid, v: seq<real>)
    requires |g| == |v|
    requires forall i :: 0 <= i < |g| ==> RowSum(g[i]) == v[i]
    ensures Sum(g) == RowSum(v)
  {
    if |g| > 0 {
      var m := |g| - 1;
      SumByRows(g[..m], v[..m]);
    }
  }

  /** Cell-by-cell addition of fields adds their masses. */
  lemma SumAdd(a: Grid, b: Grid, c: Grid)
    requires |a| == |b| == |c|
    requires forall i :: 0 <= i < |c| ==> |a[i]| == |b[i]| == |c[i]|
    requires forall i, j :: 0 <= i < |c| && 0 <= j < |c[i]| ==> c[i][j] == a[i][j] + b[i][j]
    ensures Sum(c) == Sum(a) + Sum(b)
  {
    forall i | 0 <= i < |c|
      ensures RowSum(c[i]) == RowSum(a[i]) + RowSum(b[i])
    {
      RowSumAdd(a[i], b[i], c[i]);
    }
    RowsAdd(a, b, c);
  }

  lemma {:induction false} RowsAdd(a: Grid, b: Grid, c: Grid)
    requires |a| == |b| == |c|
    requires forall i :: 0 <= i < |c| ==> RowSum(c[i]) == RowSum(a[i]) + RowSum(b[i])
    ensures Sum(c) == Sum(a) + Sum(b)
  {
    if |c| > 0 {
      RowsAdd(a[..|c| - 1], b[..|c| - 1], c[..|c| - 1]);
    }
  }

  /** Adding `d` to every cell of an N×N field adds N² copies of `d` to its mass. */
  lemma SumShift(a: Grid, c: Grid, d: real)
    requires Square(a) && |c| == |a|
    requires forall i :: 0 <= i < |c| ==> |c[i]| == |a|
    requires forall i, j :: 0 <= i < |c| && 0 <= j < |a| ==> c[i][j] == a[i][j] + d
    ensures Sum(c) == Sum(a) + Times(|a|, Times(|a|, d))
  {
    forall i | 0 <= i < |c|
      ensures RowSum(c[i]) == RowSum(a[i]) + Times(|a|, d)
    {
      RowSumShift(a[i], c[i], d);
    }
    RowsShift(a, c, Times(|a|, d));
  }

  lemma {:induction false} RowsShift(a: Grid, c: Grid, e: real)
    requires |a| == |c|
    requires forall i :: 0 <= i < |c| ==> RowSum(c[i]) == RowSum(a[i]) + e
    ensures Sum(c) == Sum(a) + Times(|a|, e)
  {
    if |c| > 0 {
      RowsShift(a[..|c| - 1], c[..|c| - 1], e);
    }
  }

  /** Spreading `diff` evenly over the N² cells of an N×N field and adding the shares back up
      returns exactly `diff`. */
  lemma SpreadEvenly(n: nat, diff: real)
    requires n > 0
    ensures Times(n, Times(n, diff / (n * n) as real)) == diff
  {
    var share := diff / (n * n) as real;
    TimesIsProduct(n, share);
    var row := Times(n, share);
    TimesIsProduct(n, row);
    assert row == n as real * share;
    assert Times(n, row) == n as real * row;
    calc {
      n as real * row;
      n as real * (n as real * share);
      (n * n) as real * share;
      diff;
    }
  }

  /** Conversely, the only share that adds up to `diff` over N² cells is diff / N². */
  lemma SpreadUnique(n: nat, d: real, diff: real)
    requires n > 0 && Times(n, Times(n, d)) == diff
    ensures d == diff / (n * n) as real
  {
    TimesIsProduct(n, d);
    TimesIsProduct(n, Times(n, d));
    assert diff == n as real * (n as real * d);
    assert diff == (n * n) as real * d;
  }

  /** The freshly allocated field holds no oil. */
  lemma {:induction false} ZerosMass(n: nat)
    ensures Sum(Zeros(n)) == 0.0
  {
    var z := Zeros(n);
    var v := seq(n, _ => 0.0);
    ZeroRow(n);
    forall i | 0 <= i < n
      ensures RowSum(z[i]) == v[i]
    {
      assert z[i] == v;
    }
    SumByRows(z, v);
  }

  /** A row of n zeros sums to zero. */
  lemma {:induction false} ZeroRow(n: nat)
    ensures RowSum(seq(n, _ => 0.0)) == 0.0
  {
    if n > 0 {
      var s := seq(n, _ => 0.0);
      assert s[..n - 1] == seq(n - 1, _ => 0.0);
      ZeroRow(n - 1);
    }
  }

  /** Sums a field cell by cell in row-major order, accumulating into one running total. */
  method TotalMass(g: Grid) returns (m: real)
    ensures m == Sum(g)
  {
    m := 0.0;
    var i := 0;
    while i < |g|
      invariant 0 <= i <= |g|
      invariant m == Sum(g[..i])
    {
      var j := 0;
      while j < |g[i]|
        invariant 0 <= j <= |g[i]|
        invariant m == Sum(g[..i]) + RowSum(g[i][..j])
      {
        assert g[i][..j + 1][..j] == g[i][..j];
        m := m + g[i][j];
        j := j + 1;
      }
      assert g[i][..j] == g[i];
      assert g[..i + 1][..i] == g[..i];
      i := i + 1;
    }
    assert g[..i] == g;
  }
}
