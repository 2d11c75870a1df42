# Oil droplets on water: a verified model of the phase-field kernel

This project models the numeric core of `script.js`, a browser simulator that shows oil
droplets merging on water. The state is an N×N phase field φ of oil fractions: 0 is water,
1 is oil, and cell (x, y) is `grid[x][y]`. It also holds the tracked total oil mass. The core
has four parts:

* **Droplet stamper.** `createDroplet` paints a disk of radius r with saturating addition
  `min(1, φ + 1)`. Cells outside the grid are skipped, and so are offsets outside the disk.
* **Update pass.** One explicit-Euler step of dφ/dt = M·∇²φ − K·4φ(φ−1)(φ−½), where:
  * M = 0.5 and K = 0.05;
  * dt = 0.05 · speed/100;
  * ∇² is the four-neighbour Laplacian, and a missing neighbour at an edge is replaced by the
    cell itself (no flux).
* **Mass correction and clamp.** The gap between the tracked mass and the field's mass is
  spread evenly over the N² cells. Then every cell is clamped to [0, 1].
* **Reset, Clear and Add Oil.** Reset and Clear build fresh zero fields. Reset stamps droplets
  and records the field's exact mass. Add Oil stamps one droplet and raises the tracked mass.

The simulator keeps two buffers, `grid` and `nextGrid`. On the first tick after a reset or
clear they are distinct arrays. At the end of that tick `grid = nextGrid` makes them the same
array, and it stays that way. So only the first tick is a snapshot (Jacobi) step. Every later
tick is an in-place, row-major Gauss–Seidel sweep: a cell reads its upper and left neighbours
after they have been updated in the same tick. The model keeps both behaviours apart:
* `Integrator.Relax` and `Integrator.SnapshotSweep` are the snapshot step.
* `Integrator.SweepResult` and `Integrator.InPlaceSweep` are the in-place sweep.
* `Simulation.Sim.shared` records whether the two buffers are one array.

Numbers are Dafny `real`s, so the model has no floating-point rounding. The field size is a
parameter of the kernel. The simulator's state fixes it at `Simulation.SimSize` = 100.

Modules:
* `Field`: fields, row and field sums, the mass-summing loop, and linear sum lemmas.
* `Droplet`: stamping.
* `Integrator`: reaction term, Laplacian, snapshot step, in-place sweep.
* `Conservation`: correction and clamp.
* `Simulation`: state, reset, clear, add oil, tick.

The comment at script.js:101 says the reaction term pushes values towards 0 or 1. As written,
4φ(φ−1)(φ−½) is negative on (½, 1), so its drift −K·4φ(φ−1)(φ−½) is positive there and
negative on (0, ½): values move away from ½ and towards 0 or 1 inside [0, 1].
`Integrator.DriftDirection` states the sign of the drift on every interval. script.js:29-30
does not check the radius: a negative radius runs the loops zero times and stamps nothing
(`Droplet.StampNegativeRadius`). Likewise a non-positive droplet count runs the loop at
script.js:57 zero times, which the model expresses as an empty list of centres.

## Model

| member | source | states |
|---|---|---|
| Field.Zeros | script.js:49-50 | A freshly allocated field is N×N and holds 0 (water) in every cell. |
| Field.ZerosMass | script.js:49-51 | A fresh field has mass 0, matching the reset of the tracked mass. |
| Field.RowSum | script.js:64-66 | The sum of one row, added left to right as the inner mass loop does. |
| Field.Sum | script.js:64-68 | The mass of a field: its rows' sums added in order. It is the quantity the reset records and the correction at script.js:113 measures. |
| Field.TotalMass | script.js:63-68 | The nested loop that adds every cell to a running total ends with exactly the field's mass. |
| Field.SpreadEvenly | script.js:114-119 | Giving each of the N² cells the share gap/N² adds exactly the gap to the mass. |
| Droplet.Covers | script.js:29-33 | An offset is stamped when both components lie in [−r, r] and dx² + dy² ≤ r², the squared form of the distance test `sqrt(dx² + dy²) <= r` on integers. |
| Droplet.Saturate | script.js:35 | A stamped cell gains one unit of oil and is capped at 1. |
| Droplet.Stamp | script.js:28-40 | After a stamp, every in-grid cell the disk covers holds min(1, old+1). Every other cell keeps its value, and the result is still N×N. |
| Droplet.CreateDroplet | script.js:28-40 | The dx/dy loops with bounds skipping and the distance test produce exactly the field `Stamp` describes. |
| Droplet.CoversIsDisk | script.js:29-33 | For r ≥ 0 an offset is stamped iff dx²+dy² ≤ r²; the square loop box adds nothing. For r < 0 no offset is stamped. |
| Droplet.StampSaturates | script.js:35 | A covered cell never ends above 1. It becomes exactly 1 when it held no negative value, and old+1 when it held a value ≤ 0. Uncovered cells are unchanged. |
| Droplet.StampKeepsUnit | script.js:35 | Stamping a field of oil fractions leaves every cell in [0, 1]. |
| Droplet.StampNegativeRadius | script.js:29-30 | A negative radius leaves the field unchanged. |
| Droplet.StampIdempotent | script.js:35 | On a field without negative cells, stamping the same droplet twice equals stamping it once. |
| Droplet.StampCommutes | script.js:28-40 | Stamping two droplets gives the same field in either order. |
| Droplet.StampSaturatedField | script.js:35 | A field that is oil everywhere is unchanged by any stamp. |
| Droplet.StampPlusShape | script.js:29-37 | A radius-1 droplet at the centre of an empty 5×5 field covers exactly the centre and its four axis neighbours. |
| Droplet.StampAll | script.js:57-61 | Droplets are stamped one after another in list order, each onto the field the previous ones left; the field stays N×N. |
| Droplet.StampAllCells | script.js:57-61 | After stamping a list of droplets on a non-negative field, every cell some droplet covers holds 1 and every other cell keeps its value. |
| Integrator.TimeStep | script.js:77-78 | The time step is dt = 0.05 · speed/100 for a speed given in percent. |
| Integrator.Reaction | script.js:102 | The reaction term is 4φ(φ−1)(φ−½) of the cell's pre-step value. |
| Integrator.SweptLaplacian | script.js:93-98 | The four-neighbour Laplacian of a cell, a missing neighbour at an edge replaced by the cell's own value; upper and left neighbours come from one field, the cell and its lower and right neighbours from another. |
| Integrator.Laplacian | script.js:93-98 | The snapshot Laplacian reads the cell and all four neighbours from one field. |
| Integrator.Advance | script.js:104-108 | A cell moves by (M·∇²φ − K·4φ(φ−1)(φ−½))·dt from its pre-step value, with M = 0.5 and K = 0.05. |
| Integrator.Relax | script.js:81-109 | The snapshot step advances every cell from the pre-step field alone and returns an N×N field. |
| Integrator.ReactionRoots | script.js:102 | The reaction term 4φ(φ−1)(φ−½) is zero iff φ is 0, ½ or 1. |
| Integrator.DriftDirection | script.js:102-107 | The reaction drift −K·4φ(φ−1)(φ−½) is positive iff φ < 0 or ½ < φ < 1. It is negative iff 0 < φ < ½ or φ > 1. |
| Integrator.UniformLaplacian | script.js:93-98 | On a uniform field the no-flux Laplacian is 0 in every cell, edges and corners included. |
| Integrator.RelaxFixedPoint | script.js:88-109 | A uniform field at 0, ½ or 1 is unchanged by a snapshot step, for any time step. |
| Integrator.DiffusionConservesMass | script.js:93-98 | The no-flux Laplacians of any field sum to zero, so diffusion neither creates nor destroys oil. |
| Integrator.DiffusionIncrementMass | script.js:104-108 | For any time step, the diffusion parts M·∇²φ·dt of one step sum to zero. |
| Integrator.RelaxMass | script.js:88-109 | A snapshot step changes the field's mass only by the sum of the reaction increments −K·4φ(φ−1)(φ−½)·dt. |
| Integrator.RelaxTranspose | script.js:93-98 | The snapshot step treats both axes alike: stepping the transposed field gives the transposed result. |
| Integrator.SnapshotSweep | script.js:81-109 | The copy plus update loops over two distinct buffers compute the snapshot step, every cell advanced from pre-step values only. |
| Integrator.InPlaceSweep | script.js:88-109 | The update loops over one shared buffer advance each cell from its own pre-step value. The upper and left neighbours are read after their update in this tick; the lower and right ones before theirs. |
| Integrator.SweepResult | script.js:88-109 | Once the buffers are one array, each cell ends as its pre-step value advanced with a Laplacian whose upper and left neighbours are already advanced this tick and whose lower and right neighbours are still pre-step. |
| Integrator.SweepUnique | script.js:88-109 | The in-place sweep's outcome is determined by the pre-step field and dt. |
| Integrator.SweepFixedPoint | script.js:88-109 | A uniform field at 0, ½ or 1 is also unchanged by the in-place sweep. |
| Integrator.SweepDivergesFromSnapshot | script.js:88-109 | On the 2×2 field with oil only at (0, 0) and dt = 0.05, the sweep gives (0, 0) = 0.95 and (1, 0) = 0.02375. The snapshot step gives (1, 0) = 0.025, so the two differ. |
| Conservation.Correction | script.js:113-115 | The share is the gap between tracked mass and field mass divided by N². |
| Conservation.Correct | script.js:114-119 | The correction adds the same amount to every cell: the mass gap divided by N². |
| Conservation.CorrectRestoresMass | script.js:113-119 | Before the clamp, the corrected field's mass equals the tracked mass exactly. |
| Conservation.CorrectUnique | script.js:113-119 | The even correction is the only uniform shift of the field that reaches the tracked mass. |
| Conservation.CorrectAtTarget | script.js:113-119 | A field whose mass already equals the tracked mass is left unchanged by the correction. |
| Conservation.ClampCell | script.js:121 | One cell clamped as min(1, max(0, v)). |
| Conservation.Clamp | script.js:121 | After the clamp every cell lies in [0, 1], and each cell is its own value clamped. |
| Conservation.ClampCellCases | script.js:121 | The clamp keeps a value in [0, 1], sends negative values to 0 and sends values above 1 to 1. |
| Conservation.ClampCellNearest | script.js:121 | The clamped value is the point of [0, 1] nearest to the input. |
| Conservation.ClampCellMonotone | script.js:121 | The clamp preserves the order of values. |
| Conservation.ClampKeepsUnit | script.js:121 | A field of oil fractions is unchanged by the clamp. |
| Conservation.ClampIdempotent | script.js:121 | Clamping twice equals clamping once. |
| Conservation.ClampCanLoseMass | script.js:112-123 | The clamp can undo the correction: a saturated 2×2 field corrected towards mass 5 is clamped back to mass 4. |
| Conservation.CorrectAndClampMass | script.js:112-123 | When the corrected field already lies in [0, 1], the field's mass after the pass equals the tracked mass. |
| Conservation.CorrectAndClamp | script.js:112-123 | The pass (sum the field, compute the share, shift and clamp each cell) gives the clamped corrected field, with every cell in [0, 1]. |
| Conservation.ShiftAndClamp | script.js:117-123 | The row-major loop leaves each cell as its old value plus the share, clamped to [0, 1]. |
| Simulation.Valid | script.js:119-126 | The state invariant every operation keeps: both buffers are N×N, every cell of the read buffer lies in [0, 1] (the clamp at line 121 ends each tick there), and once line 126 has made the buffers one array they hold the same field. |
| Simulation.Step | script.js:77-123 | A snapshot step followed by correction and clamp returns an N×N field of oil fractions. |
| Simulation.StepFixedPoint | script.js:77-123 | A uniform field at 0, ½ or 1, whose tracked mass is its own mass, is a fixed point of a whole snapshot tick. |
| Simulation.SweepStepFixedPoint | script.js:77-123 | The same fixed points hold for a whole in-place tick. |
| Simulation.Clear | script.js:184-192 | Clear gives two distinct zero fields, tracked mass 0, and that 0 is the field's mass. |
| Simulation.InitSimulation | script.js:43-68 | After a reset, a cell is 1 iff some droplet covers it and 0 otherwise. The write buffer is a distinct zero field, and the tracked mass is the stamped field's exact mass. |
| Simulation.AddOil | script.js:171-178 | Adding oil stamps the droplet into the read buffer, and into the write buffer too when they are shared. The tracked mass rises by the caller's increment, and all state invariants are kept. |
| Simulation.AddOilOnSaturatedField | script.js:167-177 | On a field that is oil everywhere, adding oil changes no cell yet still raises the tracked mass by the area estimate `added`. |
| Simulation.AddOilNegativeRadius | script.js:165-168 | A negative radius stamps nothing, yet the tracked mass still rises by the increment. |
| Simulation.Tick | script.js:75-126 | While the buffers are distinct, a tick is the snapshot step; once shared, it is the in-place sweep. Then come correction (pre-clamp mass equals the tracked mass) and clamp. Afterwards the buffers are shared and the tracked mass is unchanged. |
| Simulation.Restart | script.js:43-71 | Restart is reset then one tick, which is a snapshot step from the stamped field towards the stamped field's own mass. Afterwards the buffers are shared and the tracked mass is still the stamped field's exact mass. |
| Simulation.TickDoubleBuffered | script.js:80-126 | A tick that keeps the buffers distinct and swaps them is always the snapshot step followed by correction and clamp, and the old read buffer becomes the write buffer. |

## Left out

- Drawing (script.js:136-157): canvas output and the opacity mapping have no effect on the field.
- Animation scheduling: `requestAnimationFrame` and `cancelAnimationFrame` are left out. Tick
  and Restart describe what one frame does, not when frames run.
- Random droplet centres: `Math.random` draws become the `centres` and (x, y) parameters.
- Input parsing: `parseInt` and `parseFloat` of the form fields, including NaN inputs, are left
  out. Radius and speed are parameters.
- Click coordinate mapping (script.js:160-163): it is a pixel-to-cell conversion; the model
  takes the cell directly.
- The π·r² mass increment (script.js:168, 177): the area estimate is floating-point code. It is
  the parameter `added` of `Simulation.AddOil`.
- Floating point: cells are reals, so IEEE-754 rounding, and with it the stability bound on dt
  that keeps the explicit step from oscillating, are not modelled.
- Simulation.Tick: on the shared path the result is characterised by the predicate
  `SweepResult`, which `SweepUnique` shows has one solution, rather than by a closed form.

## Findings

| source | as written | input that shows it | evidently intended | confidence | as-written member | corrected member |
|---|---|---|---|---|---|---|
| script.js:126 | `grid = nextGrid` makes both names refer to one array. From the second tick on, the copy at lines 81-85 does nothing, and the update loop reads upper and left neighbours already overwritten in the same tick (in-place Gauss–Seidel). | 2×2 field with oil at (0, 0) only, dt = 0.05: the sweep gives cell (1, 0) = 0.02375, the snapshot step gives 0.025. | Every tick is computed from the previous tick's field (double buffering), which the copy into a separate next-field buffer sets up. | not executed; high | Integrator.SweepDivergesFromSnapshot | Simulation.TickDoubleBuffered |
