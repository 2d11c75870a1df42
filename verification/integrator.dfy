/** The integrator: one explicit-Euler step of the Allen–Cahn-like phase-field equation
    dφ/dt = M·∇²φ − K·4φ(φ−1)(φ−½) on an N×N grid with no-flux edges. */
module Integrator {
  import opened Field

  /** Mobility M: weight of diffusion. */
  const Mobility: real := 0.5
  /** Surface-tension strength K: weight of the reaction term. */
  const Stiffness: real := 0.05
  /** Time step at speed 100%. */
  const BaseStep: real := 0.05

  /** The time step for a speed given in percent (100 means ×1). */
  function TimeStep(speedPercent: real): real {
    BaseStep * (speedPercent / 100.0)
  }

  /** The double-well reaction term 4φ(φ−1)(φ−½). */
  function Reaction(phi: real): real {
    4.0 * phi * (phi - 1.0) * (phi - 0.5)
  }

  /** The reaction term vanishes exactly at the three equilibria 0, ½ and 1. */
  lemma ReactionRoots(phi: real)
    ensures Reaction(phi) == 0.0 <==> phi == 0.0 || phi == 0.5 || phi == 1.0
  {
    if Reaction(phi) == 0.0 {
      ZeroProduct(4.0 * phi * (phi - 1.0), phi - 0.5);
      if phi != 0.5 {
        ZeroProduct(4.0 * phi, phi - 1.0);
      }
    }
  }

  lemma ZeroProduct(a: real, b: real)
    requires a * b == 0.0
    ensures a == 0.0 || b == 0.0
  {
  }

  /** The reaction drift −K·4φ(φ−1)(φ−½) pushes a value away from ½: upward on (½, 1) and below 0,
      downward on (0, ½) and above 1. */
  lemma DriftDirection(phi: real)
    ensures -Stiffness * Reaction(phi) > 0.0 <==> phi < 0.0 || 0.5 < phi < 1.0
    ensures -Stiffness * Reaction(phi) < 0.0 <==> 0.0 < phi < 0.5 || 1.0 < phi
  {
    ReactionRoots(phi);
    var a, b, c := phi, phi - 1.0, phi - 0.5;
    assert Reaction(phi) == 4.0 * (a * b * c);
    if a < 0.0 {
      assert b < 0.0 && c < 0.0 && a * b > 0.0;
      assert a * b * c < 0.0;
    } else if 0.0 < a && c < 0.0 {
      assert b < 0.0 && a * b < 0.0;
      assert a * b * c > 0.0;
    } else if 0.0 < c && b < 0.0 {
      assert a > 0.0 && a * b < 0.0;
      assert a * b * c < 0.0;
    } else if 0.0 < b {
      assert a > 0.0 && c > 0.0 && a * b > 0.0;
      assert a * b * c > 0.0;
    }
  }

  /** The four-neighbour Laplacian of cell (i, j) with no-flux edges: a neighbour outside the
      grid is replaced by the cell's own value. The neighbours above and to the left,
      (i−1, j) and (i, j−1), are read from `early`; the cell itself and the neighbours below
      and to the right from `g`. The snapshot Laplacian reads everything from one field. */
  function SweptLaplacian(early: Grid, g: Grid, i: int, j: int): real
    requires Square(g) && Square(early) && |early| == |g|
    requires 0 <= i < |g| && 0 <= j < |g|
  {
    var n := |g|;
    var phi := g[i][j];
    var up := if i > 0 then early[i - 1][j] else phi;
    var down := if i < n - 1 then g[i + 1][j] else phi;
    var left := if j > 0 then early[i][j - 1] else phi;
    var right := if j < n - 1 then g[i][j + 1] else phi;
    up + down + left + right - 4.0 * phi
  }

  /** The Laplacian of cell (i, j) computed from one snapshot of the field. */
  function Laplacian(g: Grid, i: int, j: int): real
    requires Square(g) && 0 <= i < |g| && 0 <= j < |g|
  {
    SweptLaplacian(g, g, i, j)
  }

  /** The explicit-Euler update of one cell holding `phi` whose Laplacian is `lap`. */
  function Advance(phi: real, lap: real, dt: real): real {
    phi + (Mobility * lap - Stiffness * Reaction(phi)) * dt
  }

  /** A cell at an equilibrium of the reaction term with zero Laplacian does not move. */
  lemma AdvanceAtRest(phi: real, lap: real, dt: real)
    requires lap == 0.0 && Reaction(phi) == 0.0
    ensures Advance(phi, lap, dt) == phi
  {
  }

  /** One step computed purely from the pre-step snapshot `g` (separate read and write buffers). */
  function Relax(g: Grid, dt: real): (h: Grid)
    requires Square(g)
    ensures Square(h) && |h| == |g|
  {
    seq(|g|, i requires 0 <= i < |g| =>
      seq(|g|, j requires 0 <= j < |g| => Advance(g[i][j], Laplacian(g, i, j), dt)))
  }

  /** On a uniform field the no-flux Laplacian is zero everywhere, edges and corners included. */
  lemma UniformLaplacian(g: Grid, c: real)
    requires Square(g) && Uniform(g, c)
    ensures forall i, j :: 0 <= i < |g| && 0 <= j < |g| ==> Laplacian(g, i, j) == 0.0
  {
  }

  /** A uniform field at an equilibrium value 0, ½ or 1 is left unchanged by a snapshot step,
      whatever the time step. */
  lemma RelaxFixedPoint(g: Grid, c: real, dt: real)
    requires Square(g) && Uniform(g, c)
    requires c == 0.0 || c == 0.5 || c == 1.0
    ensures Relax(g, dt) == g
  {
    var h := Relax(g, dt);
    ReactionRoots(c);
    UniformLaplacian(g, c);
    forall i | 0 <= i < |g|
      ensures h[i] == g[i]
    {
      forall j | 0 <= j < |g|
        ensures h[i][j] == g[i][j]
      {
        AdvanceAtRest(g[i][j], Laplacian(g, i, j), dt);
      }
    }
  }

  /** The field of Laplacians. */
  function LaplacianField(g: Grid): (l: Grid)
    requires Square(g)
    ensures Square(l) && |l| == |g|
    ensures forall i, j :: 0 <= i < |g| && 0 <= j < |g| ==> l[i][j] == Laplacian(g, i, j)
  {
    seq(|g|, i requires 0 <= i < |g| => seq(|g|, j requires 0 <= j < |g| => Laplacian(g, i, j)))
  }

  /** One-dimensional no-flux second difference of `s` at `k`. */
  function LineLaplacian(s: seq<real>, k: int): real
    requires 0 <= k < |s|
  {
    (if k > 0 then s[k - 1] else s[k]) + (if k < |s| - 1 then s[k + 1] else s[k]) - 2.0 * s[k]
  }

  function LineLaplacians(s: seq<real>): (l: seq<real>)
    ensures |l| == |s| && forall k :: 0 <= k < |s| ==> l[k] == LineLaplacian(s, k)
  {
    seq(|s|, k requires 0 <= k < |s| => LineLaplacian(s, k))
  }

  /** Partial sums of the one-dimensional second differences telescope to the last difference. */
  lemma {:induction false} LinePrefix(s: seq<real>, m: nat)
    requires 1 <= m < |s|
    ensures RowSum(LineLaplacians(s)[..m]) == s[m] - s[m - 1]
  {
    var l := LineLaplacians(s);
    if m == 1 {
      assert l[..1][..0] == [];
    } else {
      LinePrefix(s, m - 1);
      assert l[..m][..m - 1] == l[..m - 1];
    }
  }

  /** With no-flux ends the one-dimensional second differences sum to zero. */
  lemma LineConserves(s: seq<real>)
    ensures RowSum(LineLaplacians(s)) == 0.0
  {
    var l := LineLaplacians(s);
    var n := |s|;
    if n == 1 {
      assert l[..0] == [];
    } else if n > 1 {
      LinePrefix(s, n - 1);
      assert l[..n][..n - 1] == l[..n - 1];
      assert l[..n] == l;
    }
  }

  /** Diffusion with no-flux edges neither creates nor destroys oil: the Laplacians of any field
      sum to zero. */
  lemma DiffusionConservesMass(g: Grid)
    requires Square(g)
    ensures Sum(LaplacianField(g)) == 0.0
  {
    var n := |g|;
    var l := LaplacianField(g);
    var sums := RowSums(g);
    forall i | 0 <= i < n
      ensures RowSum(l[i]) == LineLaplacian(sums, i)
    {
      RowLaplacianSum(g, i);
    }
    SumByRows(l, LineLaplacians(sums));
    LineConserves(sums);
  }

  /** A row of Laplacians sums to the row's own horizontal second differences (zero) plus the
      vertical second difference of the row sums. */
  lemma RowLaplacianSum(g: Grid, i: int)
    requires Square(g) && 0 <= i < |g|
    ensures RowSum(LaplacianField(g)[i]) == LineLaplacian(RowSums(g), i)
  {
    var row := LaplacianField(g)[i];
    var vertical := VerticalRow(g, i);
    var horizontal := LineLaplacians(g[i]);
    forall j | 0 <= j < |g|
      ensures row[j] == vertical[j] + horizontal[j]
    {
      LaplacianSplits(g, i, j);
    }
    RowSumAdd(vertical, horizontal, row);
    LineConserves(g[i]);
    VerticalRowSum(g, i);
  }

  /** The vertical second differences along row i: each cell's upper plus lower neighbour (no-flux
      at the top and bottom edges) minus twice the cell. */
  function VerticalRow(g: Grid, i: int): (v: seq<real>)
    requires Square(g) && 0 <= i < |g|
    ensures |v| == |g|
    ensures forall j :: 0 <= j < |g| ==>
              v[j] == (if i > 0 then g[i - 1][j] else g[i][j]) + (if i < |g| - 1 then g[i + 1][j] else g[i][j]) - g[i][j] - g[i][j]
  {
    var above := if i > 0 then g[i - 1] else g[i];
    var below := if i < |g| - 1 then g[i + 1] else g[i];
    RowMinus(RowMinus(RowPlus(above, below), g[i]), g[i])
  }

  /** Summed along the row, the vertical second differences are the second difference of the row sums. */
  lemma VerticalRowSum(g: Grid, i: int)
    requires Square(g) && 0 <= i < |g|
    ensures RowSum(VerticalRow(g, i)) == LineLaplacian(RowSums(g), i)
  {
    var above := if i > 0 then g[i - 1] else g[i];
    var below := if i < |g| - 1 then g[i + 1] else g[i];
    RowDifferenceSum(above, below, g[i]);
    var sums := RowSums(g);
    assert RowSum(above) == (if i > 0 then sums[i - 1] else sums[i]);
    assert RowSum(below) == (if i < |g| - 1 then sums[i + 1] else sums[i]);
  }

  /** Summing a row of cellwise a + b − c − c gives Σa + Σb − 2Σc. */
  lemma RowDifferenceSum(a: seq<real>, b: seq<real>, c: seq<real>)
    requires |a| == |b| == |c|
    ensures RowSum(RowMinus(RowMinus(RowPlus(a, b), c), c)) == RowSum(a) + RowSum(b) - 2.0 * RowSum(c)
  {
    var both := RowPlus(a, b);
    var once := RowMinus(both, c);
    RowSumAdd(a, b, both);
    RowSumMinus(both, c, once);
    RowSumMinus(once, c, RowMinus(once, c));
  }

  /** The Laplacian of a cell is its vertical second difference plus the horizontal one along its row. */
  lemma LaplacianSplits(g: Grid, i: int, j: int)
    requires Square(g) && 0 <= i < |g| && 0 <= j < |g|
    ensures Laplacian(g, i, j) == VerticalRow(g, i)[j] + LineLaplacian(g[i], j)
  {
  }

  /** The change the diffusion term alone makes in one step of length `dt`. */
  function DiffusionIncrement(g: Grid, dt: real): (d: Grid)
    requires Square(g)
    ensures Square(d) && |d| == |g|
    ensures forall i :: 0 <= i < |g| ==> d[i] == RowTimes(Mobility * dt, LaplacianField(g)[i])
  {
    seq(|g|, i requires 0 <= i < |g| => RowTimes(Mobility * dt, LaplacianField(g)[i]))
  }

  /** The change the reaction term alone makes in one step of length `dt`. */
  function ReactionIncrement(g: Grid, dt: real): (d: Grid)
    requires Square(g)
    ensures Square(d) && |d| == |g|
    ensures forall i, j :: 0 <= i < |g| && 0 <= j < |g| ==> d[i][j] == -Stiffness * Reaction(g[i][j]) * dt
  {
    seq(|g|, i requires 0 <= i < |g| => seq(|g|, j requires 0 <= j < |g| => -Stiffness * Reaction(g[i][j]) * dt))
  }

  /** Whatever the time step, the diffusion increments of a step sum to zero. */
  lemma DiffusionIncrementMass(g: Grid, dt: real)
    requires Square(g)
    ensures Sum(DiffusionIncrement(g, dt)) == 0.0
  {
    forall i | 0 <= i < |g|
      ensures RowSum(DiffusionIncrement(g, dt)[i]) == (Mobility * dt) * LineLaplacian(RowSums(g), i)
    {
      DiffusionRowSum(g, dt, i);
    }
    ScaledLinesMass(DiffusionIncrement(g, dt), RowSums(g), Mobility * dt);
  }

  /** A field whose row sums are x times the second differences of a line has mass zero. */
  lemma ScaledLinesMass(d: Grid, s: seq<real>, x: real)
    requires |d| == |s|
    requires forall i :: 0 <= i < |d| ==> RowSum(d[i]) == x * LineLaplacian(s, i)
    ensures Sum(d) == 0.0
  {
    var v := RowTimes(x, LineLaplacians(s));
    SumByRows(d, v);
    ScaledLineConserves(s, x);
  }

  /** Row i of the diffusion increments sums to the scaled second difference of the row sums. */
  lemma DiffusionRowSum(g: Grid, dt: real, i: int)
    requires Square(g) && 0 <= i < |g|
    ensures RowSum(DiffusionIncrement(g, dt)[i]) == (Mobility * dt) * LineLaplacian(RowSums(g), i)
  {
    RowLaplacianSum(g, i);
    ScaledRowAt(DiffusionIncrement(g, dt), LaplacianField(g), Mobility * dt, i, LineLaplacian(RowSums(g), i));
  }

  /** Row i of a field whose rows are x times those of `l` sums to x times row i of `l`. */
  lemma ScaledRowAt(d: Grid, l: Grid, x: real, i: int, v: real)
    requires 0 <= i < |d| == |l|
    requires forall k :: 0 <= k < |d| ==> d[k] == RowTimes(x, l[k])
    requires RowSum(l[i]) == v
    ensures RowSum(d[i]) == x * v
  {
    ScaledRowSum(d[i], l[i], x, v);
  }

  /** Scaled second differences of a line still sum to zero. */
  lemma ScaledLineConserves(s: seq<real>, x: real)
    ensures RowSum(RowTimes(x, LineLaplacians(s))) == 0.0
  {
    LineConserves(s);
    RowTimesSum(x, LineLaplacians(s));
  }

  /** A snapshot step changes the total mass only through the reaction term: diffusion moves oil
      around but its net contribution is zero. */
  lemma RelaxMass(g: Grid, dt: real)
    requires Square(g)
    ensures Sum(Relax(g, dt)) == Sum(g) + Sum(ReactionIncrement(g, dt))
  {
    forall i, j | 0 <= i < |g| && 0 <= j < |g|
      ensures Relax(g, dt)[i][j] == g[i][j] + (ReactionIncrement(g, dt)[i][j] + DiffusionIncrement(g, dt)[i][j])
    {
      RelaxCellSplits(g, dt, i, j);
    }
    SplitMass(g, ReactionIncrement(g, dt), DiffusionIncrement(g, dt), Relax(g, dt));
    DiffusionIncrementMass(g, dt);
  }

  /** A field that is cellwise the sum of three others has the sum of their masses. */
  lemma SplitMass(g: Grid, r: Grid, d: Grid, h: Grid)
    requires Square(g) && Square(r) && Square(d) && Square(h)
    requires |r| == |g| && |d| == |g| && |h| == |g|
    requires forall i, j :: 0 <= i < |g| && 0 <= j < |g| ==> h[i][j] == g[i][j] + (r[i][j] + d[i][j])
    ensures Sum(h) == Sum(g) + (Sum(r) + Sum(d))
  {
    var change := GridPlus(r, d);
    SumAdd(r, d, change);
    SumAdd(g, change, h);
  }

  lemma RelaxCellSplits(g: Grid, dt: real, i: int, j: int)
    requires Square(g) && 0 <= i < |g| && 0 <= j < |g|
    ensures Relax(g, dt)[i][j] == g[i][j] + (ReactionIncrement(g, dt)[i][j] + DiffusionIncrement(g, dt)[i][j])
  {
    ReactionCell(g, dt, i, j);
    DiffusionCell(g, dt, i, j);
    RelaxCell(g, dt, i, j);
    AdvanceSplits(g[i][j], Laplacian(g, i, j), dt);
  }

  lemma ReactionCell(g: Grid, dt: real, i: int, j: int)
    requires Square(g) && 0 <= i < |g| && 0 <= j < |g|
    ensures ReactionIncrement(g, dt)[i][j] == -Stiffness * Reaction(g[i][j]) * dt
  {
  }

  lemma RelaxCell(g: Grid, dt: real, i: int, j: int)
    requires Square(g) && 0 <= i < |g| && 0 <= j < |g|
    ensures Relax(g, dt)[i][j] == Advance(g[i][j], Laplacian(g, i, j), dt)
  {
  }

  lemma DiffusionCell(g: Grid, dt: real, i: int, j: int)
    requires Square(g) && 0 <= i < |g| && 0 <= j < |g|
    ensures DiffusionIncrement(g, dt)[i][j] == (Mobility * dt) * Laplacian(g, i, j)
  {
    assert DiffusionIncrement(g, dt)[i] == RowTimes(Mobility * dt, LaplacianField(g)[i]);
  }

  lemma AdvanceSplits(phi: real, lap: real, dt: real)
    ensures Advance(phi, lap, dt) == phi + -Stiffness * Reaction(phi) * dt + (Mobility * dt) * lap
  {
  }

  /** The field mirrored across its main diagonal. */
  function Transpose(g: Grid): (t: Grid)
    requires Square(g)
    ensures Square(t) && |t| == |g|
    ensures forall i, j :: 0 <= i < |g| && 0 <= j < |g| ==> t[i][j] == g[j][i]
  {
    seq(|g|, i requires 0 <= i < |g| => seq(|g|, j requires 0 <= j < |g| => g[j][i]))
  }

  /** The snapshot step treats both axes alike: stepping a mirrored field gives the mirrored step. */
  lemma RelaxTranspose(g: Grid, dt: real)
    requires Square(g)
    ensures Relax(Transpose(g), dt) == Transpose(Relax(g, dt))
  {
    var t := Transpose(g);
    var a := Relax(t, dt);
    var b := Transpose(Relax(g, dt));
    forall i | 0 <= i < |g|
      ensures a[i] == b[i]
    {
      forall j | 0 <= j < |g|
        ensures a[i][j] == b[i][j]
      {
        LaplacianTranspose(g, i, j);
      }
    }
  }

  lemma LaplacianTranspose(g: Grid, i: int, j: int)
    requires Square(g) && 0 <= i < |g| && 0 <= j < |g|
    ensures Laplacian(Transpose(g), i, j) == Laplacian(g, j, i)
  {
  }

  /** The update pass over two distinct buffers, as on the first tick after a reset: the write
      buffer starts as a copy of the field, and every cell is advanced from values read in the
      unchanged read buffer. */
  method SnapshotSweep(g: Grid, dt: real) returns (h: Grid)
    requires Square(g)
    ensures h == Relax(g, dt)
  {
    var n := |g|;
    h := g;
    var i := 0;
    while i < n
      invariant 0 <= i <= n
      invariant Square(h) && |h| == n
      invariant forall a, b :: 0 <= a < i && 0 <= b < n ==> h[a][b] == Advance(g[a][b], Laplacian(g, a, b), dt)
      invariant forall a, b :: i <= a < n && 0 <= b < n ==> h[a][b] == g[a][b]
    {
      var j := 0;
      while j < n
        invariant 0 <= j <= n
        invariant Square(h) && |h| == n
        invariant forall a, b :: 0 <= a < n && 0 <= b < n && (a < i || (a == i && b < j)) ==>
                    h[a][b] == Advance(g[a][b], Laplacian(g, a, b), dt)
        invariant forall a, b :: 0 <= a < n && 0 <= b < n && (a > i || (a == i && b >= j)) ==> h[a][b] == g[a][b]
      {
        var phi := g[i][j];
        var lap := Laplacian(g, i, j);
        h := h[i := h[i][j := Advance(phi, lap, dt)]];
        j := j + 1;
      }
      i := i + 1;
    }
    var r := Relax(g, dt);
    forall a | 0 <= a < n
      ensures h[a] == r[a]
    {
    }
  }

  /** `h` is what the row-major sweep over a single buffer leaves behind: each cell is advanced from
      its own pre-step value, reading the already-advanced values of its upper and left neighbours
      and the pre-step values of its lower and right ones. */
  predicate SweepResult(g: Grid, h: Grid, dt: real) {
    && Square(g) && Square(h) && |h| == |g|
    && forall i, j {:trigger SweptLaplacian(h, g, i, j)} :: 0 <= i < |g| && 0 <= j < |g| ==>
         h[i][j] == Advance(g[i][j], SweptLaplacian(h, g, i, j), dt)
  }

  /** The sweep over a field whose read and write buffers are one and the same array: rows in
      order, cells left to right, each cell overwritten as soon as it is computed. */
  method InPlaceSweep(g: Grid, dt: real) returns (h: Grid)
    requires Square(g)
    ensures SweepResult(g, h, dt)
  {
    var n := |g|;
    h := g;
    var i := 0;
    while i < n
      invariant 0 <= i <= n
      invariant Square(h) && |h| == n
      invariant forall a, b :: 0 <= a < i && 0 <= b < n ==> h[a][b] == Advance(g[a][b], SweptLaplacian(h, g, a, b), dt)
      invariant forall a, b :: i <= a < n && 0 <= b < n ==> h[a][b] == g[a][b]
    {
      var j := 0;
      while j < n
        invariant 0 <= j <= n
        invariant Square(h) && |h| == n
        invariant forall a, b :: 0 <= a < n && 0 <= b < n && (a < i || (a == i && b < j)) ==>
                    h[a][b] == Advance(g[a][b], SweptLaplacian(h, g, a, b), dt)
        invariant forall a, b :: 0 <= a < n && 0 <= b < n && (a > i || (a == i && b >= j)) ==> h[a][b] == g[a][b]
      {
        var phi := h[i][j];
        var lap := SweptLaplacian(h, h, i, j);
        assert lap == SweptLaplacian(h, g, i, j);
        var h' := h[i := h[i][j := Advance(phi, lap, dt)]];
        assert forall a, b :: 0 <= a < n && 0 <= b < n && (a < i || (a == i && b < j)) ==>
                 SweptLaplacian(h', g, a, b) == SweptLaplacian(h, g, a, b);
        assert SweptLaplacian(h', g, i, j) == SweptLaplacian(h, g, i, j);
        h := h';
        j := j + 1;
      }
      i := i + 1;
    }
  }

  /** The sweep's outcome is determined by the pre-step field: two results agree cell for cell,
      by induction along the sweep order. */
  lemma {:induction false} SweepCellUnique(g: Grid, h1: Grid, h2: Grid, dt: real, i: int, j: int)
    requires SweepResult(g, h1, dt) && SweepResult(g, h2, dt)
    requires 0 <= i < |g| && 0 <= j < |g|
    ensures h1[i][j] == h2[i][j]
    decreases i, j
  {
    if i > 0 {
      SweepCellUnique(g, h1, h2, dt, i - 1, j);
    }
    if j > 0 {
      SweepCellUnique(g, h1, h2, dt, i, j - 1);
    }
    SweepCellStep(g, h1, h2, dt, i, j);
  }

  /** Two sweep results that agree on the upper and left neighbours of a cell agree on the cell. */
  lemma SweepCellStep(g: Grid, h1: Grid, h2: Grid, dt: real, i: int, j: int)
    requires SweepResult(g, h1, dt) && SweepResult(g, h2, dt)
    requires 0 <= i < |g| && 0 <= j < |g|
    requires i > 0 ==> h1[i - 1][j] == h2[i - 1][j]
    requires j > 0 ==> h1[i][j - 1] == h2[i][j - 1]
    ensures h1[i][j] == h2[i][j]
  {
    SweptLaplacianAgree(h1, h2, g, i, j);
  }

  /** The swept Laplacian depends on the early field only through the upper and left neighbours. */
  lemma SweptLaplacianAgree(e1: Grid, e2: Grid, g: Grid, i: int, j: int)
    requires Square(g) && Square(e1) && Square(e2) && |e1| == |e2| == |g|
    requires 0 <= i < |g| && 0 <= j < |g|
    requires i > 0 ==> e1[i - 1][j] == e2[i - 1][j]
    requires j > 0 ==> e1[i][j - 1] == e2[i][j - 1]
    ensures SweptLaplacian(e1, g, i, j) == SweptLaplacian(e2, g, i, j)
  {
  }

  lemma SweepUnique(g: Grid, h1: Grid, h2: Grid, dt: real)
    requires SweepResult(g, h1, dt) && SweepResult(g, h2, dt)
    ensures h1 == h2
  {
    forall i | 0 <= i < |g|
      ensures h1[i] == h2[i]
    {
      forall j | 0 <= j < |g|
        ensures h1[i][j] == h2[i][j]
      {
        SweepCellUnique(g, h1, h2, dt, i, j);
      }
    }
  }

  /** A uniform field at an equilibrium value 0, ½ or 1 is also left unchanged by the in-place
      sweep. */
  lemma SweepFixedPoint(g: Grid, h: Grid, c: real, dt: real)
    requires Square(g) && Uniform(g, c)
    requires c == 0.0 || c == 0.5 || c == 1.0
    requires SweepResult(g, h, dt)
    ensures h == g
  {
    ReactionRoots(c);
    forall i, j | 0 <= i < |g| && 0 <= j < |g|
      ensures g[i][j] == Advance(g[i][j], SweptLaplacian(g, g, i, j), dt)
    {
      AdvanceAtRest(g[i][j], SweptLaplacian(g, g, i, j), dt);
    }
    assert SweepResult(g, g, dt);
    SweepUnique(g, h, g, dt);
  }

  /** The in-place sweep is not the snapshot step: on the 2×2 field with oil only in cell (0, 0),
      at the default time step, the snapshot step gives cell (1, 0) the value 0.025, while the
      sweep, which reads the already-updated cell (0, 0) = 0.95, gives it 0.02375. */
  lemma SweepDivergesFromSnapshot(h: Grid)
    requires SweepResult([[1.0, 0.0], [0.0, 0.0]], h, 0.05)
    ensures h[0][0] == 0.95 && h[1][0] == 0.02375
    ensures Relax([[1.0, 0.0], [0.0, 0.0]], 0.05)[1][0] == 0.025
    ensures h != Relax([[1.0, 0.0], [0.0, 0.0]], 0.05)
  {
    var g := [[1.0, 0.0], [0.0, 0.0]];
    assert h[0][0] == Advance(g[0][0], SweptLaplacian(h, g, 0, 0), 0.05);
    assert h[1][0] == Advance(g[1][0], SweptLaplacian(h, g, 1, 0), 0.05);
    assert Relax(g, 0.05)[1][0] == Advance(g[1][0], Laplacian(g, 1, 0), 0.05);
  }
}
