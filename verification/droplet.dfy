/** The droplet stamper: paints a disk of oil onto a field with saturating addition. */
module Droplet {
  import opened Field

  /** Adds one unit of oil to a cell, saturating at 1. */
  function Saturate(v: real): real {
    Min(1.0, v + 1.0)
  }

  /** Offset (dx, dy) is visited by the stamping loops (both in [-r, r]) and passes the
      distance test. For integer offsets, sqrt(dx² + dy²) <= r is dx² + dy² <= r². */
  predicate Covers(dx: int, dy: int, r: int) {
    -r <= dx <= r && -r <= dy <= r && dx * dx + dy * dy <= r * r
  }

  /** The field after a droplet of radius `r` is stamped at (x, y): every in-grid cell the disk
      covers gets one unit of oil, saturating at 1; cells the disk would cover outside the grid
      are skipped. */
  function Stamp(g: Grid, x: int, y: int, r: int): (h: Grid)
    requires Square(g)
    ensures Square(h) && |h| == |g|
    ensures forall i, j :: 0 <= i < |g| && 0 <= j < |g| ==>
              h[i][j] == if Covers(i - x, j - y, r) then Saturate(g[i][j]) else g[i][j]
  {
    seq(|g|, i requires 0 <= i < |g| =>
      seq(|g|, j requires 0 <= j < |g| =>
        if Covers(i - x, j - y, r) then Saturate(g[i][j]) else g[i][j]))
  }

  lemma SquareBound(a: int, r: int)
    requires r >= 0 && a * a <= r * r
    ensures -r <= a <= r
  {
  }

  /** The loop box is redundant for a non-negative radius: coverage is exactly the disk
      dx² + dy² <= r². A negative radius covers nothing, because the loops run zero times. */
  lemma CoversIsDisk(dx: int, dy: int, r: int)
    ensures r >= 0 ==> (Covers(dx, dy, r) <==> dx * dx + dy * dy <= r * r)
    ensures r < 0 ==> !Covers(dx, dy, r)
  {
    if r >= 0 && dx * dx + dy * dy <= r * r {
      assert dx * dx <= r * r && dy * dy <= r * r;
      SquareBound(dx, r);
      SquareBound(dy, r);
    }
  }

  /** Stamping is saturating addition: a covered cell never ends above 1 and becomes exactly 1
      when it held no negative value; every other cell keeps its value. */
  lemma StampSaturates(g: Grid, x: int, y: int, r: int)
    requires Square(g)
    ensures forall i, j :: 0 <= i < |g| && 0 <= j < |g| && Covers(i - x, j - y, r) ==>
              Stamp(g, x, y, r)[i][j] <= 1.0 &&
              (g[i][j] >= 0.0 ==> Stamp(g, x, y, r)[i][j] == 1.0) &&
              (g[i][j] <= 0.0 ==> Stamp(g, x, y, r)[i][j] == g[i][j] + 1.0)
    ensures forall i, j :: 0 <= i < |g| && 0 <= j < |g| && !Covers(i - x, j - y, r) ==>
              Stamp(g, x, y, r)[i][j] == g[i][j]
  {
  }

  /** A field of oil fractions stays one: stamping never pushes a cell above 1 or below 0. */
  lemma StampKeepsUnit(g: Grid, x: int, y: int, r: int)
    requires Square(g) && InUnit(g)
    ensures InUnit(Stamp(g, x, y, r))
  {
  }

  /** A negative radius leaves the field untouched. */
  lemma StampNegativeRadius(g: Grid, x: int, y: int, r: int)
    requires Square(g) && r < 0
    ensures Stamp(g, x, y, r) == g
  {
    var h := Stamp(g, x, y, r);
    forall i | 0 <= i < |g|
      ensures h[i] == g[i]
    {
      forall j | 0 <= j < |g|
        ensures h[i][j] == g[i][j]
      {
        CoversIsDisk(i - x, j - y, r);
      }
    }
  }

  /** On a field without negative cells, stamping the same droplet twice is stamping it once. */
  lemma StampIdempotent(g: Grid, x: int, y: int, r: int)
    requires Square(g)
    requires forall i, j :: 0 <= i < |g| && 0 <= j < |g| ==> g[i][j] >= 0.0
    ensures Stamp(Stamp(g, x, y, r), x, y, r) == Stamp(g, x, y, r)
  {
    var h := Stamp(g, x, y, r);
    var h2 := Stamp(h, x, y, r);
    forall i | 0 <= i < |g|
      ensures h2[i] == h[i]
    {
    }
  }

  /** The order in which droplets are stamped does not matter. */
  lemma StampCommutes(g: Grid, x1: int, y1: int, r1: int, x2: int, y2: int, r2: int)
    requires Square(g)
    ensures Stamp(Stamp(g, x1, y1, r1), x2, y2, r2) == Stamp(Stamp(g, x2, y2, r2), x1, y1, r1)
  {
    var a := Stamp(Stamp(g, x1, y1, r1), x2, y2, r2);
    var b := Stamp(Stamp(g, x2, y2, r2), x1, y1, r1);
    forall i | 0 <= i < |g|
      ensures a[i] == b[i]
    {
    }
  }

  /** A field already saturated with oil is unchanged by any stamp. */
  lemma StampSaturatedField(g: Grid, x: int, y: int, r: int)
    requires Square(g) && Uniform(g, 1.0)
    ensures Stamp(g, x, y, r) == g
  {
    var h := Stamp(g, x, y, r);
    forall i | 0 <= i < |g|
      ensures h[i] == g[i]
    {
    }
  }

  /** A radius-1 droplet at the centre of an empty 5×5 field is a plus sign: the centre and its
      four axis neighbours become oil, the diagonal cells stay water. */
  lemma StampPlusShape()
    ensures forall i, j :: 0 <= i < 5 && 0 <= j < 5 ==>
              Stamp(Zeros(5), 2, 2, 1)[i][j] ==
                if (i == 2 && 1 <= j <= 3) || (j == 2 && 1 <= i <= 3) then 1.0 else 0.0
  {
  }

  /** Stamps a droplet as the simulator does: offsets dx, then dy, each from -r to r,
      skipping cells outside the grid and offsets outside the disk. */
  method CreateDroplet(g: Grid, x: int, y: int, r: int) returns (h: Grid)
    requires Square(g)
    ensures h == Stamp(g, x, y, r)
  {
    var n := |g|;
    h := g;
    var dx := -r;
    while dx <= r
      invariant Square(h) && |h| == n
      invariant r >= 0 ==> -r <= dx <= r + 1
      invariant forall i, j :: 0 <= i < n && 0 <= j < n ==>
                  h[i][j] == if Covers(i - x, j - y, r) && i - x < dx then Saturate(g[i][j]) else g[i][j]
    {
      var dy := -r;
      while dy <= r
        invariant Square(h) && |h| == n
        invariant -r <= dx <= r && -r <= dy <= r + 1
        invariant forall i, j :: 0 <= i < n && 0 <= j < n ==>
                    h[i][j] == if Covers(i - x, j - y, r) && (i - x < dx || (i - x == dx && j - y < dy))
                               then Saturate(g[i][j]) else g[i][j]
      {
        if 0 <= x + dx < n && 0 <= y + dy < n {
          if dx * dx + dy * dy <= r * r {
            h := h[x + dx := h[x + dx][y + dy := Min(1.0, h[x + dx][y + dy] + 1.0)]];
          }
        }
        dy := dy + 1;
      }
      dx := dx + 1;
    }
    var s := Stamp(g, x, y, r);
    forall i | 0 <= i < n
      ensures h[i] == s[i]
    {
      forall j | 0 <= j < n
        ensures h[i][j] == s[i][j]
      {
        CoversIsDisk(i - x, j - y, r);
      }
    }
  }

  /** Some droplet of the list, all of radius `r`, covers cell (i, j). */
  predicate Covered(centres: seq<(int, int)>, r: int, i: int, j: int) {
    exists k :: 0 <= k < |centres| && Covers(i - centres[k].0, j - centres[k].1, r)
  }

  /** Stamps droplets of radius `r` at the given centres, first to last. */
  function StampAll(g: Grid, centres: seq<(int, int)>, r: int): (h: Grid)
    requires Square(g)
    ensures Square(h) && |h| == |g|
  {
    if |centres| == 0 then g
    else
      var last := centres[|centres| - 1];
      Stamp(StampAll(g, centres[..|centres| - 1], r), last.0, last.1, r)
  }

  /** On a field without negative cells, stamping a list of droplets turns exactly the cells
      some droplet covers into oil (1) and leaves the rest as they were. */
  lemma {:induction false} StampAllCells(g: Grid, centres: seq<(int, int)>, r: int)
    requires Square(g)
    requires forall i, j :: 0 <= i < |g| && 0 <= j < |g| ==> g[i][j] >= 0.0
    ensures forall i, j :: 0 <= i < |g| && 0 <= j < |g| ==>
              StampAll(g, centres, r)[i][j] == if Covered(centres, r, i, j) then 1.0 else g[i][j]
  {
    if |centres| > 0 {
      var m := |centres| - 1;
      var front := centres[..m];
      StampAllCells(g, front, r);
      forall i, j | 0 <= i < |g| && 0 <= j < |g|
        ensures Covered(centres, r, i, j) <==> Covered(front, r, i, j) || Covers(i - centres[m].0, j - centres[m].1, r)
      {
        if Covered(front, r, i, j) {
          var k :| 0 <= k < |front| && Covers(i - front[k].0, j - front[k].1, r);
          assert centres[k] == front[k];
        }
        if Covered(centres, r, i, j) && !Covers(i - centres[m].0, j - centres[m].1, r) {
          var k :| 0 <= k < |centres| && Covers(i - centres[k].0, j - centres[k].1, r);
          assert k < m && front[k] == centres[k];
        }
      }
    }
  }
}
