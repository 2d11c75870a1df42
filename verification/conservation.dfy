/** Mass correction and clamping: after the update pass the simulator spreads the gap between
    the tracked oil mass and the field's actual mass evenly over all cells, then clamps every
    cell to the unit interval. */
module Conservation {
  import opened Field

  /** The share of the mass gap each of the N² cells receives. */
  function Correction(g: Grid, target: real): real
    requires |g| > 0
  {
    (target - Sum(g)) / (|g| * |g|) as real
  }

  /** The field with the mass gap spread evenly over its cells. */
  function Correct(g: Grid, target: real): (r: Grid)
    requires Square(g) && |g| > 0
    ensures Square(r) && |r| == |g|
    ensures forall i, j :: 0 <= i < |g| && 0 <= j < |g| ==> r[i][j] == g[i][j] + Correction(g, target)
  {
    seq(|g|, i requires 0 <= i < |g| => seq(|g|, j requires 0 <= j < |g| => g[i][j] + Correction(g, target)))
  }

  /** Before clamping, the corrected field carries exactly the target mass. */
  lemma CorrectRestoresMass(g: Grid, target: real)
    requires Square(g) && |g| > 0
    ensures Sum(Correct(g, target)) == target
  {
    SumShift(g, Correct(g, target), Correction(g, target));
    SpreadEvenly(|g|, target - Sum(g));
  }

  /** The even correction is the only uniform shift of the field that reaches the target mass. */
  lemma CorrectUnique(g: Grid, c: Grid, d: real, target: real)
    requires Square(g) && |g| > 0
    requires |c| == |g| && forall i :: 0 <= i < |c| ==> |c[i]| == |g|
    requires forall i, j :: 0 <= i < |g| && 0 <= j < |g| ==> c[i][j] == g[i][j] + d
    requires Sum(c) == target
    ensures d == Correction(g, target) && c == Correct(g, target)
  {
    SumShift(g, c, d);
    SpreadUnique(|g|, d, target - Sum(g));
    var r := Correct(g, target);
    forall i | 0 <= i < |g|
      ensures c[i] == r[i]
    {
    }
  }

  /** A field that already carries the target mass is left as it is. */
  lemma CorrectAtTarget(g: Grid)
    requires Square(g) && |g| > 0
    ensures Correct(g, Sum(g)) == g
  {
    var r := Correct(g, Sum(g));
    NoGapNoShare(g);
    forall i | 0 <= i < |g|
      ensures r[i] == g[i]
    {
    }
  }

  lemma NoGapNoShare(g: Grid)
    requires |g| > 0
    ensures Correction(g, Sum(g)) == 0.0
  {
    var gap := Sum(g) - Sum(g);
    assert gap == 0.0;
  }

  /** One cell clamped to [0, 1], the upper bound applied after the lower one. */
  function ClampCell(v: real): real {
    Min(1.0, Max(0.0, v))
  }

  /** Every cell clamped to [0, 1]. */
  function Clamp(g: Grid): (r: Grid)
    requires Square(g)
    ensures Square(r) && |r| == |g| && InUnit(r)
    ensures forall i, j :: 0 <= i < |g| && 0 <= j < |g| ==> r[i][j] == ClampCell(g[i][j])
  {
    seq(|g|, i requires 0 <= i < |g| => seq(|g|, j requires 0 <= j < |g| => ClampCell(g[i][j])))
  }

  /** Clamping keeps a value already in [0, 1] and sends values below to 0 and above to 1. */
  lemma ClampCellCases(v: real)
    ensures 0.0 <= v <= 1.0 ==> ClampCell(v) == v
    ensures v < 0.0 ==> ClampCell(v) == 0.0
    ensures v > 1.0 ==> ClampCell(v) == 1.0
  {
  }

  function Abs(v: real): real {
    if v < 0.0 then -v else v
  }

  /** The clamped value is the point of [0, 1] nearest to the input. */
  lemma ClampCellNearest(v: real, w: real)
    requires 0.0 <= w <= 1.0
    ensures 0.0 <= ClampCell(v) <= 1.0
    ensures Abs(ClampCell(v) - v) <= Abs(w - v)
  {
  }

  /** Clamping preserves the order of cells. */
  lemma ClampCellMonotone(v: real, w: real)
    requires v <= w
    ensures ClampCell(v) <= ClampCell(w)
  {
  }

  /** A field of oil fractions is unchanged by clamping. */
  lemma ClampKeepsUnit(g: Grid)
    requires Square(g) && InUnit(g)
    ensures Clamp(g) == g
  {
    var r := Clamp(g);
    forall i | 0 <= i < |g|
      ensures r[i] == g[i]
    {
    }
  }

  /** Clamping twice is clamping once. */
  lemma ClampIdempotent(g: Grid)
    requires Square(g)
    ensures Clamp(Clamp(g)) == Clamp(g)
  {
    ClampKeepsUnit(Clamp(g));
  }

  /** The clamp can undo the correction: a saturated 2×2 field asked to hold 5 units of oil is
      corrected to 1.25 per cell and clamped back to 1, so the step ends with mass 4. */
  lemma ClampCanLoseMass()
    ensures Sum(Correct([[1.0, 1.0], [1.0, 1.0]], 5.0)) == 5.0
    ensures Clamp(Correct([[1.0, 1.0], [1.0, 1.0]], 5.0)) == [[1.0, 1.0], [1.0, 1.0]]
    ensures Sum([[1.0, 1.0], [1.0, 1.0]]) == 4.0
  {
    var g: Grid := [[1.0, 1.0], [1.0, 1.0]];
    assert [1.0, 1.0][..1] == [1.0] && |[1.0][..0]| == 0;
    assert RowSum([1.0, 1.0]) == 2.0;
    assert g[..1] == [[1.0, 1.0]] && |g[..1][..0]| == 0;
    assert Sum(g) == 4.0;
    assert Correction(g, 5.0) == 0.25;
    CorrectRestoresMass(g, 5.0);
    ClampCellCases(1.25);
    var c := Clamp(Correct(g, 5.0));
    forall i | 0 <= i < 2
      ensures c[i] == g[i]
    {
    }
  }

  /** When the corrected field already lies in [0, 1], the clamp is idle and the mass after the
      whole pass is exactly the target. */
  lemma CorrectAndClampMass(g: Grid, target: real)
    requires Square(g) && |g| > 0 && InUnit(Correct(g, target))
    ensures Sum(Clamp(Correct(g, target))) == target
  {
    ClampKeepsUnit(Correct(g, target));
    CorrectRestoresMass(g, target);
  }

  /** The correction-and-clamp pass as the simulator runs it: the field's mass summed up, the gap
      to the target divided by the number of cells, then every cell shifted and clamped. */
  method CorrectAndClamp(g: Grid, target: real) returns (h: Grid)
    requires Square(g) && |g| > 0
    ensures h == Clamp(Correct(g, target))
    ensures InUnit(h)
  {
    var n := |g|;
    var current := TotalMass(g);
    var share := (target - current) / (n * n) as real;
    assert share == Correction(g, target);
    h := ShiftAndClamp(g, share);
    var c := Clamp(Correct(g, target));
    forall a | 0 <= a < n
      ensures h[a] == c[a]
    {
    }
  }

  /** One row-major pass that adds `share` to each cell and clamps it in place. */
  method ShiftAndClamp(g: Grid, share: real) returns (h: Grid)
    requires Square(g)
    ensures Square(h) && |h| == |g|
    ensures forall a, b :: 0 <= a < |g| && 0 <= b < |g| ==> h[a][b] == ClampCell(g[a][b] + share)
  {
    var n := |g|;
    h := g;
    var i := 0;
    while i < n
      invariant 0 <= i <= n
      invariant Square(h) && |h| == n
      invariant forall a, b :: 0 <= a < i && 0 <= b < n ==> h[a][b] == ClampCell(g[a][b] + share)
      invariant forall a, b :: i <= a < n && 0 <= b < n ==> h[a][b] == g[a][b]
    {
      var j := 0;
      while j < n
        invariant 0 <= j <= n
        invariant Square(h) && |h| == n
        invariant forall a, b :: 0 <= a < n && 0 <= b < n && (a < i || (a == i && b < j)) ==> h[a][b] == ClampCell(g[a][b] + share)
        invariant forall a, b :: 0 <= a < n && 0 <= b < n && (a > i || (a == i && b >= j)) ==> h[a][b] == g[a][b]
      {
        var v := h[i][j] + share;
        v := Min(1.0, Max(0.0, v));
        h := h[i := h[i][j := v]];
        j := j + 1;
      }
      i := i + 1;
    }
  }
}
