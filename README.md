# Emitter lattice quenching, in Dafny

A model of the two simulation engines of the emitter-quenching scripts:

- `count.py` is the flat lattice. Every emitter starts active (status 1).
  A quencher within the effective distance `EFFECT_D` but outside an
  emitter's `RADIUS` switches that emitter off for good (status 0).
- `count3d.py` is the layered lattice. An emitter starts off when its random
  draw exceeds the activation rate. Otherwise it starts at 1, except on the
  first layer (`z == 0`), where a site stands for `CONNECTED` (3) stacked
  emitters. Such a chain-linked site loses the quencher's `strength` on its
  first reaction in range and outside its radius; every other reaction
  leaves a status alone.

In both scripts `makeEmitterGrid` lays the emitters out on a honeycomb
lattice: layer by layer, row by row, column by column, with odd rows shifted
by half a step. `countActive` lets every emitter react to one quencher in
list order. It returns -1 at the first emitter the quencher lies inside
and within range of (in `count.py` the radius is below the effective
distance, so inside is enough), leaving the emitters already reacted as
they are. Otherwise it returns the sum of the statuses.

Files:

- `geometry.dfy` (module `Geometry`): the distance tests without a square
  root, and the index arithmetic of the lattice.
- `sweep.dfy` (module `Sweep`): the sweep of `countActive`, stated over the
  sequence of reaction values. Both scripts share it.
- `count3d.dfy` (module `Count3D`): `count3d.py`.
- `count.dfy` (module `Count`): `count.py`.

Each `Emitter` is a class. Its position fields are constants and its
`status` is a field that `React` updates in place. An emitter list is a
`seq<Emitter>`. `MakeEmitterGrid` builds the list with the source's three
(or two) nested loops. Each loop level is a method of its own:
`AppendLayer`, `AppendRow` and `AppendSite`. Each level keeps the `Laid`
invariant: every emitter stands at the lattice site of its index, with the
status its own draw gave it. `CountActive` runs the source's loop and is
proved against the functions `After` (the new statuses) and
`Count` (the returned value). The lemmas then state the source's promises
about those functions.

Distances are compared without square roots. `Exceeds(d2, bound)` holds
when `bound < 0` or `d2 > bound * bound`. The `DistanceTests` lemmas show
that these tests agree with the comparisons `react` makes on `d = sqrt(d2)`.

## Model

| member | source | states |
|---|---|---|
| Geometry.ExceedsMatchesDistance | count3d.py:49-52 | for any non-negative root `d` of `d2`, the square-root-free test `Exceeds(d2, bound)` holds exactly when `d > bound`, for a bound of either sign |
| Geometry.WithinBothIsWithinMin | count3d.py:50-53 | being within both the effective distance and the radius is being within the smaller of the two |
| Geometry.IndexDecomposes | count3d.py:76-82 | the emitter appended at column `col` of row `row` of layer `layer` has list index `layer*width*width + row*width + col`, and layer, row and column are read back from that index |
| Geometry.IndexRecomposes | count3d.py:76-82 | every index is the index of its own (layer, row, column), and its row and column are below `width` |
| Geometry.IndexNextRow | count3d.py:77-78 | the site after the last column of a row is the first site of the next row |
| Geometry.IndexNextLayer | count3d.py:76-77 | the site after the last row of a layer is the first site of the next layer |
| Geometry.IndexBelow | count3d.py:76-78 | every (layer, row, column) the loops visit has an index below the number of emitters created |
| Geometry.LayerBelow | count3d.py:76-78 | every index below the number of emitters lies on one of the `layer` layers |
| Geometry.FirstRowEndDecomposes | count3d.py:141 | index `WIDTH-1` is the last column of the first row of the first layer |
| Geometry.LastSiteIndex | count3d.py:142-143 | the last list index is that of the last column of the last row of the last layer |
| Geometry.LastSiteDecomposes | count3d.py:142-143 | the last list index reads back as the last layer, last row and last column |
| Geometry.SiteCountIsIndex | count3d.py:76-83 | the number of emitters `width*width*layer` is the first index past the last layer |
| Geometry.ColumnXBounds | count3d.py:79-82 | every column's x lies between 0 and the first row's last x plus half a step |
| Sweep.FirstSentinel | count3d.py:99-102 | the first index whose reaction returned -1: none before it did, and it did unless it is the length of the list |
| Sweep.Splice | count3d.py:99-102 | the statuses after a sweep that stopped at `k`: reacted before `k`, untouched from `k` on |
| Sweep.SumPrefixStep | count3d.py:104 | adding one more reaction to the running count adds its value |
| Sweep.SumMonotone | count3d.py:104 | a count of pointwise smaller statuses is smaller |
| Sweep.SumNonNegative | count3d.py:104 | a count of non-negative statuses is not negative |
| Sweep.SumOfBits | count.py:63 | a sum of 0/1 statuses is the number of active emitters, between 0 and the number of emitters |
| Sweep.SumOfOnes | count.py:29 | a sum of statuses that are all 1 is the number of emitters |
| Sweep.OutcomeSentinelAt | count3d.py:99-102 | a -1 at any index makes the sweep return -1, stopping there at the latest |
| Sweep.OutcomeSentinel | count3d.py:99-105 | when no reaction returns less than -1, the sweep returns -1 exactly when some reaction returned -1, and a non-negative count otherwise |
| Count3D.DistanceTests | count3d.py:49-53 | for `d` the Euclidean distance, `d > effect_d` is being out of range and `d <= radius` is being inside the emitter |
| Count3D.Emitter.constructor | count3d.py:26-36 | the emitter stands at (x, y, z); its status is 0 when the draw exceeds the activation rate, else CONNECTED at z == 0, else 1 |
| Count3D.Emitter.React | count3d.py:38-58 | out of range: status kept and returned; inside: -1 and status kept; otherwise a CONNECTED status drops by `strength` and any other is kept, and the new status is returned |
| Count3D.LaidSite | count3d.py:74-83 | every emitter of a laid-out list stands at the site of its own index, with the status its own draw gave it |
| Count3D.LaidExtend | count3d.py:79-82 | appending the emitter of the next site keeps a list laid out |
| Count3D.AppendSite | count3d.py:79-82 | one append: a fresh emitter at column `x`, row `y`, layer `z`, shifted by half a step on odd rows, with status from the next draw |
| Count3D.AppendRow | count3d.py:78-82 | the column loop appends a whole row of fresh emitters and keeps the list laid out |
| Count3D.AppendLayer | count3d.py:77-82 | the row loop appends a whole layer of fresh emitters and keeps the list laid out |
| Count3D.MakeEmitterGrid | count3d.py:61-83 | a list of `width*width*layer` distinct fresh emitters (none for a non-positive width or layer count), each at the lattice site of its index with the status of its own draw |
| Count3D.SiteAtIndex | count3d.py:76-82 | the emitter at index `layer*width*width + row*width + col` stands at `(col*step_x (+ step_x/2 on odd rows), row*step_y, layer*step_z)` |
| Count3D.FirstRowEnd | count3d.py:141 | `emitters[WIDTH-1]`, from which `limit_x` is taken, stands at `((WIDTH-1)*step_x, 0, 0)` |
| Count3D.LastSite | count3d.py:142-143 | the last emitter, from which `limit_y` and `limit_z` are taken, is the last column of the last row of the last layer |
| Count3D.SiteWithinBox | count3d.py:141-143 | with non-negative steps, every emitter lies in the box `[0, limit_x] x [0, limit_y] x [0, limit_z]` the driver samples quenchers in |
| Count3D.CoordinatesWithinBox | count3d.py:79-82 | the site of any (layer, row, column) of the lattice lies in that box |
| Count3D.InitialStatusByLayer | count3d.py:30-36 | with a non-zero layer spacing a fresh emitter is chain-linked exactly on the first layer, unless its draw turned it off; every fresh status is 0, 1 or CONNECTED |
| Count3D.ReactSentinelExactly | count3d.py:50-53 | `react` returns -1 exactly when the quencher is within both distances, that is within the smaller one, and the status is then unchanged |
| Count3D.ReactKeepsStatusInBounds | count3d.py:54-57 | with a strength from 1 to CONNECTED a status never goes negative and never rises, and only a CONNECTED status changes |
| Count3D.ChainDepletedAtMostOnce | count3d.py:54-57 | whatever quenchers follow, a chain-linked site is decremented at most once, by one quencher's strength; any other status never changes |
| Count3D.ChainSiteTwoHits | count3d.py:54-57 | a chain-linked site hit with strength 2 and then with strength 1 keeps status 1 |
| Count3D.SweepAborted | count3d.py:101-102 | a sweep whose first -1 is at index `i` returns -1, and the emitters up to and including `i` have reacted |
| Count3D.SweepCompleted | count3d.py:103-105 | a sweep with no -1 returns the sum of the reactions, and every emitter has reacted |
| Count3D.ReactNext | count3d.py:99-100 | one turn of the loop: emitter `i` reacts and returns its reaction value; the emitters before it keep their reacted status, and the ones after it are untouched |
| Count3D.CountActive | count3d.py:86-105 | the returned count is `Count` and the new statuses are `After` of the positions, the old statuses and the quencher |
| Count3D.ReactionsSentinel | count3d.py:50-55 | from non-negative statuses no reaction returns less than -1; one returns -1 exactly when the quencher is in range and inside its emitter, which then keeps its status |
| Count3D.CountSentinelExactly | count3d.py:99-102 | `countActive` returns -1 exactly when the quencher lies inside some emitter within range |
| Count3D.AbortedSweepKeepsPrefix | count3d.py:99-102 | an aborted sweep stops at the first emitter the quencher lies inside; the emitters before it have reacted and are not rolled back; it and all later ones keep their status |
| Count3D.CompletedSweepCounts | count3d.py:98-105 | no status rises or goes negative; a sweep that goes through returns the sum of the statuses it leaves, between 0 and the sum before it |
| Count3D.SweepsNeverRaise | count3d.py:99-102 | over any sequence of sweeps, aborted ones included, with strengths from 1 to CONNECTED, no status goes negative and none rises |
| Count3D.SuccessiveCountsNonIncreasing | count3d.py:152-162 | of two sweeps that go through, with any sweeps (rejected -1 ones included) in between, the later count is at most the earlier one |
| Count3D.OverStrengthFakesSentinel | count3d.py:54-58 | a strength of CONNECTED + 1 takes a chain-linked site to -1, and `countActive` returns -1 although the quencher is inside no emitter; the site is left at -1 |
| Count3D.NegativeStatusAborts | count3d.py:50-58 | an emitter at -1 makes every sweep return -1, stopping there at the latest, wherever the quencher lands |
| Count3D.BaselineProbeChangesNothing | count3d.py:140 | the baseline probe at (0, 0, -100) with the default arguments reaches no emitter at z >= 0, changes no status and returns the sum of the statuses |
| Count.DistanceTests | count.py:31-38 | for `d` the distance `getDistance` returns, `d > EFFECT_D` is being out of range and `d <= RADIUS` is being inside the emitter |
| Count.Emitter.constructor | count.py:26-29 | the emitter stands at (x, y) and is on |
| Count.Emitter.React | count.py:34-42 | out of range: status kept and returned; inside: -1 and status kept; otherwise switched off and 0 returned |
| Count.LaidSite | count.py:45-53 | every emitter of a laid-out list stands at the site of its own index and is on |
| Count.LaidExtend | count.py:49-52 | appending the emitter of the next site keeps a list laid out |
| Count.AppendSite | count.py:49-52 | one append: a fresh emitter at column `x` of row `y`, shifted by half a step on odd rows |
| Count.AppendRow | count.py:48-52 | the column loop appends a whole row of fresh emitters and keeps the list laid out |
| Count.MakeEmitterGrid | count.py:45-53 | a list of `width*width` distinct fresh emitters (none for a non-positive width), each at the lattice site of its index and on |
| Count.SiteAtIndex | count.py:47-52 | the emitter at index `row*width + col` stands at `(col*X_STEP (+ X_STEP/2 on odd rows), row*Y_STEP)` |
| Count.FirstRowEnd | count.py:70 | `emitters[WIDTH-1]`, from which `limit_x` is taken, stands at `((WIDTH-1)*X_STEP, 0)` |
| Count.LastSite | count.py:71 | the last emitter, from which `limit_y` is taken, is the last column of the last row |
| Count.SiteWithinBox | count.py:70-71 | with a non-negative row height, every emitter lies in the box `[0, limit_x] x [0, limit_y]` the driver samples quenchers in |
| Count.CoordinatesWithinBox | count.py:49-52 | the site of any (row, column) of the lattice lies in that box |
| Count.ReactSentinelExactly | count.py:36-39 | since RADIUS is below EFFECT_D, `react` returns -1 exactly when the quencher lies inside the emitter, and the status is then unchanged |
| Count.ReactSwitchesOff | count.py:36-42 | a status of 0 or 1 stays 0 or 1; it becomes 0 exactly when it was 0 or the quencher is in range but outside; reacting twice is reacting once |
| Count.SweepAborted | count.py:60-61 | a sweep whose first -1 is at index `i` returns -1, and the emitters up to and including `i` have reacted |
| Count.SweepCompleted | count.py:62-64 | a sweep with no -1 returns the sum of the reactions, and every emitter has reacted |
| Count.ReactNext | count.py:58-59 | one turn of the loop: emitter `i` reacts and returns its reaction value; the emitters before it keep their reacted status, and the ones after it are untouched |
| Count.CountActive | count.py:56-64 | the returned count is `Count` and the new statuses are `After` of the positions, the old statuses and the quencher |
| Count.ReactionsSentinel | count.py:36-41 | from non-negative statuses no reaction returns less than -1; one returns -1 exactly when the quencher lies inside its emitter, which then keeps its status |
| Count.CountSentinelExactly | count.py:58-61 | `countActive` returns -1 exactly when the quencher lies inside some emitter |
| Count.AbortedSweepKeepsPrefix | count.py:58-61 | an aborted sweep stops at the first emitter the quencher lies inside; the emitters before it have reacted and stay off; it and all later ones keep their status |
| Count.CompletedSweepCounts | count.py:56-64 | statuses stay 0 or 1 and none is switched back on; a sweep that goes through returns the number of emitters it leaves on, at most the number on before and at most the number of emitters |
| Count.SweepIdempotent | count.py:56-64 | sweeping again with the same quencher changes no status and returns the same value |
| Count.SweepsNeverSwitchOn | count.py:58-61 | over any sequence of sweeps, aborted ones included, every emitter stays on or off and none is switched back on |
| Count.SuccessiveCountsNonIncreasing | count.py:80-85 | of two sweeps that go through, with any sweeps (rejected -1 ones included) in between, the later count is at most the earlier one |
| Count.FreshLatticeBaseline | count.py:29 | on a fresh lattice `N0`, the number of emitters, is the sum of the statuses, and a sweep that goes through returns between 0 and `N0` |
| Count.WidthTwoSites | count.py:45-53 | the lattice of width 2 has its four sites at (0, 0), (6.1, 0), (3.05, Y_STEP) and (9.15, Y_STEP), in that order |
| Count.WidthTwoCounts | count.py:56-64 | on that lattice with every emitter on, a quencher at (0, 0) makes the sweep return -1 and one at (100, 100) makes it return 4 |

## Left out

- The drivers (`count3d.py:108-171`, `count.py:67-88`): argument parsing, the quencher sampling loops, the printed statistics and the `(N0-N)/N0` ratio are I/O around the core. Their lattice bounds (`limit_x`, `limit_y`, `limit_z`) and the 3-D baseline probe are covered by `FirstRowEnd`, `LastSite`, `SiteWithinBox` and `BaselineProbeChangesNothing`.
- Two quirks of the 3-D driver are not modelled, because they are in that loop: `prev_active` is updated even after a -1 (`count3d.py:162`), and the second stage draws `g_y` but passes the stale `q_y` (`count3d.py:166-168`).
- Floating point: coordinates and distances are exact reals, not IEEE doubles. `math.sqrt` is never computed; the distance tests compare squares (see `DistanceTests`).
- Count3D.MakeEmitterGrid, Count.MakeEmitterGrid: the row height `sqrt(0.75) * step_x` (`Y_STEP` in `count.py:22`) is a parameter `stepY`/`yStep` and is not computed.
- Count3D.MakeEmitterGrid, Count3D.Emitter.constructor: `random.random()` is not modelled; the draws it returns are a parameter, one per emitter in creation order.
- Count3D.CountActive, Count.CountActive: require the emitters of the list to be distinct objects; a list holding the same emitter twice (aliasing) is not modelled. `makeEmitterGrid` only builds lists of distinct emitters.
- Count.Emitter.SquaredDistanceTo (`getDistance`) returns the squared distance and has no contract of its own; `Count.DistanceTests` ties its square root to the comparisons of `react`.
- Count3D.ReactKeepsStatusInBounds, Count3D.ReactSentinelExactly and the sweep lemmas of `Count3D` assume a strength from 1 to CONNECTED, the range the driver draws from. A larger strength takes a CONNECTED status below 0. At CONNECTED + 1 the site returns -1, which `countActive` takes for the sentinel although the quencher is inside no emitter, and the site stays at -1, so every later sweep that reaches it aborts (`Count3D.OverStrengthFakesSentinel`, `Count3D.NegativeStatusAborts`). `Count3D.Emitter.React` itself places no bound on the strength.
- A chain site is not depleted progressively: after a hit of strength 2 it sits at 1, and a later hit finds it no longer CONNECTED and leaves it there (`count3d.py:54-57`, `Count3D.ChainSiteTwoHits`); nothing clamps a status at 0.
