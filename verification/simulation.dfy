/** The simulator's state and the operations that change it: reset, clear, adding a droplet,
    and one animation tick (update pass, mass correction, clamp, buffer hand-over). */
module Simulation {
  import opened Field
  import opened Droplet
  import opened Integrator
  import opened Conservation

  /** Cells per side of the simulated field. */
  const SimSize: nat := 100

  /** The read buffer `grid`, the write buffer `next`, the tracked oil mass, and whether the two
      buffers are one and the same array (as they are from the first tick on). */
  datatype Sim = Sim(grid: Grid, next: Grid, mass: real, shared: bool)

  predicate Valid(s: Sim) {
    && Square(s.grid) && |s.grid| == SimSize && InUnit(s.grid)
    && Square(s.next) && |s.next| == SimSize
    && (s.shared ==> s.next == s.grid)
  }

  /** One snapshot step from `g`: update pass, then correction towards `target`, then clamp. */
  function Step(g: Grid, target: real, dt: real): (r: Grid)
    requires Square(g) && |g| > 0
    ensures Square(r) && |r| == |g| && InUnit(r)
  {
    Clamp(Correct(Relax(g, dt), target))
  }

  /** A uniform field at an equilibrium value, whose tracked mass is its own mass, is a fixed
      point of the whole snapshot step. */
  lemma StepFixedPoint(g: Grid, c: real, dt: real)
    requires Square(g) && |g| > 0 && Uniform(g, c)
    requires c == 0.0 || c == 0.5 || c == 1.0
    ensures Step(g, Sum(g), dt) == g
  {
    RelaxFixedPoint(g, c, dt);
    CorrectAtTarget(g);
    ClampKeepsUnit(g);
  }

  /** The same holds when the update pass is the in-place sweep. */
  lemma SweepStepFixedPoint(g: Grid, w: Grid, c: real, dt: real, target: real)
    requires Square(g) && |g| > 0 && Uniform(g, c)
    requires c == 0.0 || c == 0.5 || c == 1.0
    requires SweepResult(g, w, dt) && target == Sum(g)
    ensures Clamp(Correct(w, target)) == g
  {
    SweepFixedPoint(g, w, c, dt);
    CorrectAtTarget(g);
    ClampKeepsUnit(g);
  }

  /** The Clear button: two fresh water fields and no tracked oil. */
  function Clear(): (s: Sim)
    ensures Valid(s) && !s.shared
    ensures Uniform(s.grid, 0.0) && Uniform(s.next, 0.0)
    ensures s.mass == 0.0 && s.mass == Sum(s.grid)
  {
    ZerosMass(SimSize);
    Sim(Zeros(SimSize), Zeros(SimSize), 0.0, false)
  }

  /** Reset: two fresh water fields, one droplet of radius `r` stamped at each centre in turn
      (the centres stand for the random draws), then the tracked mass set to the field's mass. */
  method InitSimulation(centres: seq<(int, int)>, r: int) returns (s: Sim)
    ensures Valid(s) && !s.shared
    ensures Uniform(s.next, 0.0)
    ensures forall i, j :: 0 <= i < SimSize && 0 <= j < SimSize ==>
              s.grid[i][j] == if Covered(centres, r, i, j) then 1.0 else 0.0
    ensures s.mass == Sum(s.grid)
  {
    var g := Zeros(SimSize);
    var k := 0;
    while k < |centres|
      invariant 0 <= k <= |centres|
      invariant g == StampAll(Zeros(SimSize), centres[..k], r)
    {
      assert centres[..k + 1][..k] == centres[..k];
      g := CreateDroplet(g, centres[k].0, centres[k].1, r);
      k := k + 1;
    }
    assert centres[..k] == centres;
    StampAllCells(Zeros(SimSize), centres, r);
    var m := TotalMass(g);
    s := Sim(g, Zeros(SimSize), m, false);
  }

  /** A droplet added by a click or the Add Oil button: stamped into the read buffer (and so into
      the write buffer when they are shared), with the tracked mass raised by `added`, the
      caller's estimate of the droplet's area. */
  function AddOil(s: Sim, x: int, y: int, r: int, added: real): (t: Sim)
    requires Valid(s)
    ensures Valid(t) && t.shared == s.shared && t.mass == s.mass + added
    ensures forall i, j :: 0 <= i < SimSize && 0 <= j < SimSize ==>
              t.grid[i][j] == if Covers(i - x, j - y, r) then Saturate(s.grid[i][j]) else s.grid[i][j]
    ensures !s.shared ==> t.next == s.next
  {
    StampKeepsUnit(s.grid, x, y, r);
    var g := Stamp(s.grid, x, y, r);
    Sim(g, if s.shared then g else s.next, s.mass + added, s.shared)
  }

  /** Adding oil to a field that is already saturated changes no cell but still raises the
      tracked mass by `added`. */
  lemma AddOilOnSaturatedField(s: Sim, x: int, y: int, r: int, added: real, t: Sim)
    requires Valid(s) && Uniform(s.grid, 1.0) && t == AddOil(s, x, y, r, added)
    ensures t.grid == s.grid && t.mass == s.mass + added
  {
    StampSaturatedField(s.grid, x, y, r);
  }

  /** A droplet with a negative radius stamps nothing, yet its (positive) area estimate is still
      added to the tracked mass. */
  lemma AddOilNegativeRadius(s: Sim, x: int, y: int, r: int, added: real)
    requires Valid(s) && r < 0
    ensures AddOil(s, x, y, r, added).grid == s.grid
    ensures AddOil(s, x, y, r, added).mass == s.mass + added
  {
    StampNegativeRadius(s.grid, x, y, r);
  }

  /** One animation tick as written: the update pass (a snapshot step while the buffers are
      distinct, an in-place sweep once they are shared), the mass correction towards the tracked
      mass, the clamp, and then the write buffer becoming the read buffer, so that from here on
      both names refer to one array. `raw` is the field after the update pass. */
  method Tick(s: Sim, speedPercent: real) returns (t: Sim, raw: Grid)
    requires Valid(s)
    ensures Valid(t) && t.shared && t.mass == s.mass
    ensures !s.shared ==> raw == Relax(s.grid, TimeStep(speedPercent))
    ensures s.shared ==> SweepResult(s.grid, raw, TimeStep(speedPercent))
    ensures Square(raw) && |raw| == SimSize
    ensures Sum(Correct(raw, s.mass)) == s.mass
    ensures t.grid == Clamp(Correct(raw, s.mass))
    ensures !s.shared ==> t.grid == Step(s.grid, s.mass, TimeStep(speedPercent))
  {
    var dt := TimeStep(speedPercent);
    if s.shared {
      raw := InPlaceSweep(s.grid, dt);
    } else {
      raw := SnapshotSweep(s.grid, dt);
    }
    var h := CorrectAndClamp(raw, s.mass);
    CorrectRestoresMass(raw, s.mass);
    t := Sim(h, h, s.mass, true);
  }

  /** The Restart button: a reset followed at once by the first tick, which is a snapshot step
      from the stamped field towards its own mass. */
  method Restart(centres: seq<(int, int)>, r: int, speedPercent: real) returns (t: Sim)
    ensures Valid(t) && t.shared
    ensures t.grid == Step(StampAll(Zeros(SimSize), centres, r), Sum(StampAll(Zeros(SimSize), centres, r)), TimeStep(speedPercent))
    ensures t.mass == Sum(StampAll(Zeros(SimSize), centres, r))
  {
    var s := InitSimulation(centres, r);
    StampAllCells(Zeros(SimSize), centres, r);
    var stamped := StampAll(Zeros(SimSize), centres, r);
    assert s.grid == stamped by {
      forall i | 0 <= i < SimSize
        ensures s.grid[i] == stamped[i]
      {
      }
    }
    var raw;
    t, raw := Tick(s, speedPercent);
  }

  /** The tick as the buffer copy and the naming of the two fields suggest it was meant: always a
      snapshot step, after which the buffers swap roles and stay distinct. */
  method TickDoubleBuffered(s: Sim, speedPercent: real) returns (t: Sim)
    requires Valid(s)
    ensures Valid(t) && !t.shared && t.mass == s.mass
    ensures t.grid == Step(s.grid, s.mass, TimeStep(speedPercent))
    ensures t.next == s.grid
  {
    var dt := TimeStep(speedPercent);
    var raw := SnapshotSweep(s.grid, dt);
    var h := CorrectAndClamp(raw, s.mass);
    t := Sim(h, s.grid, s.mass, false);
  }
}
