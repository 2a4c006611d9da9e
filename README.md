# Reachability map and joint-limit task

A Dafny model of two pieces of a robot motion-control library:

- **`ReachabilityMap`** (src/reachability_map.cpp). This is a voxel grid over the workspace of an
  end effector. It is built from sampled end-effector positions, or laid out from explicit bounds.
  Each cell keeps a reach count `r_map_` and a penalty `p_map_`. `getValue` scores a point as
  `(r - p) / max_value_`. `grow` dilates the reachable region by one voxel along each axis.
  `addMap`, `setValue`, `clear`, `addPenalty` and `resetPenalty` edit the counts.
- **`Task_JLC`** (src/task_jlc.cpp). This is the joint-limit-avoidance task. For each joint,
  `jointLimitTrq` computes a repulsive torque and an activation inside a band of width
  `limit_range` next to either limit. `compute` turns these into the task torque, the per-joint
  stiffness and activation, and a damping term. It also builds the diagonal nullspace projector
  `N = I - diag(a) * diag(a)`. `getActivationCount` counts the joints whose activation exceeds 0.001.

## Modules

- `VoxelGrid` (voxel_grid.dfy) covers the grid arithmetic shared by the map:
  - row-major index composition and decomposition, with both round trips;
  - axis neighbours;
  - the per-axis floor index and its out-of-range rule;
  - the step counts derived from an extent.
- `Reachability` (reachability_map.dfy) holds the `ReachabilityMap` class and the specification
  functions for its operations: `Grown`, `CellSum`, `Resized` and `Ratio`.
- `ReachabilityLemmas` (reachability_lemmas.dfy) holds lemmas about those functions: what `grow`
  does to the reachable set, concrete grids, repeated penalties, and the sampling finding below.
- `JointLimits` (task_jlc.dfy) holds the limit torque function, the stiffness rule, the nullspace
  projector on sequence matrices, and the `TaskJlc` class.
- `JointLimitLemmas` (task_jlc_lemmas.dfy) holds lemmas about the torque bands, the limits, the
  bounds, the idempotence of the projector and the activation count.

Some behaviour follows the code rather than an informal reading of it:

- **`generate(lower, upper)` keeps old counts.** It resizes the grids, so cells that existed
  before keep their counts and only new cells start at 0.
- **`grow` changes more than empty cells.** It adds 1 to every positive cell, so an isolated
  source cell becomes 2. It also doubles every negative cell.
- **`getValue` does not guard zero.** It divides by `max_value_` even when that is 0, so the model's
  score is a `Score` datatype covering finite values, ±infinity and NaN.
- **`neighbours_` is unused.** The constructor builds this table, but `grow` uses axis neighbours only.

## Model

| member | source | states |
|---|---|---|
| VoxelGrid.ComposeInRange | src/reachability_map.cpp:327-337 | the row-major index of an in-bounds cell lies in `[0, product of steps)` |
| VoxelGrid.DecomposeCompose | src/reachability_map.cpp:327-337 | decoding the row-major index of an in-bounds cell gives back that cell |
| VoxelGrid.ComposeDecompose | src/reachability_map.cpp:327-337 | every index below the cell count decodes to an in-bounds cell that encodes back to the same index |
| VoxelGrid.ListedIsAdjacent | src/reachability_map.cpp:193-230 | every listed index is the index of an in-grid cell one step from `d` along one axis |
| VoxelGrid.AdjacentIsListed | src/reachability_map.cpp:193-230 | every in-grid cell one axis step from `d` is listed |
| VoxelGrid.NeighboursAreAdjacent | src/reachability_map.cpp:193-230 | an index is listed exactly when it decodes to an in-grid axis neighbour of `d` (both directions) |
| VoxelGrid.Index | src/reachability_map.cpp:327-337 | -1 exactly when the floored cell of some axis is negative or at least that axis's step count; otherwise an index below the cell count that decodes to the floored cell |
| VoxelGrid.Ceil | src/reachability_map.cpp:123-129 | the least integer not below the argument |
| VoxelGrid.BoxPointOutsideIff | src/reachability_map.cpp:123-140 | with ceiling step counts, a point inside the sample box falls outside the grid exactly when it sits on the upper face of an axis whose extent is a whole number of voxels |
| VoxelGrid.BoxPointBinnedUnderCovering | src/reachability_map.cpp:123-140 | with floor(extent / voxel) + 1 steps per axis, every point of the sample box gets a valid index |
| Reachability.Resized | src/reachability_map.cpp:131-132 | `resize` keeps the first cells, zero-fills the new ones and has the requested length |
| Reachability.MooreOffsets | src/reachability_map.cpp:43-73 | the `neighbours_` table has 8 entries in 2-D and 26 in 3-D, each of length `dim` with components in {-1,0,1} and not all zero, and no offset listed twice; it is empty for other dimensions |
| Reachability.ReachabilityMap.constructor | src/reachability_map.cpp:38-76 | voxel size and dimension stored, `neighbours_` is the offset table, grids empty |
| Reachability.ReachabilityMap.GetIndex | src/reachability_map.cpp:327-337 | the loop computes `Index`: -1 outside, otherwise the row-major index of the floored cell |
| Reachability.ReachabilityMap.ShiftedIndex | src/reachability_map.cpp:197-225 | the inner loop computes the row-major index of `d` moved along one axis |
| Reachability.ReachabilityMap.GetNeighbourIndices | src/reachability_map.cpp:193-230 | at most `2 * dim` indices, listing exactly the in-grid axis neighbours of `d` |
| Reachability.MarkNeighbours | src/reachability_map.cpp:250-256 | every listed cell that is still zero in the copy becomes 2, and nothing else changes |
| Reachability.ScanActiveCell | src/reachability_map.cpp:242-280 | after a positive cell is scanned, a cell is near an active cell exactly when it was before or is one of that cell's listed neighbours |
| Reachability.MarkingAdvances | src/reachability_map.cpp:242-280 | one positive cell's marking moves the marked copy forward by one scanned cell |
| Reachability.ReachabilityMap.MarkFrontier | src/reachability_map.cpp:232-280 | after the clamp and the marking pass, each cell is 2 if it was zero and adjacent to a positive original cell; otherwise it keeps its clamped value |
| Reachability.FoldCopy | src/reachability_map.cpp:286-294 | every cell gains its copy value with the marker 2 folded to 1, and the maximum is raised to cover every new count (it stays the old value or becomes one of them) |
| Reachability.ReachabilityMap.Grow | src/reachability_map.cpp:232-295 | in 2-D and 3-D the new map is `Grown(old map)`; `max_value_` becomes the maximum of its old value and the new cells; in other dimensions nothing changes |
| ReachabilityLemmas.GrowDilates | src/reachability_map.cpp:232-295 | for a non-negative map, a cell is positive after grow exactly when it was positive or has a positive axis neighbour, and no cell decreases |
| ReachabilityLemmas.SingleSource | src/reachability_map.cpp:232-295 | with a single positive cell, a cell has a positive neighbour exactly when it neighbours that cell |
| ReachabilityLemmas.CentreNeighbour | src/reachability_map.cpp:193-230 | in a 3x3 grid the neighbours of the centre are the four edge midpoints |
| ReachabilityLemmas.GrowCentre | src/reachability_map.cpp:232-295 | growing a 3x3 grid with one count in the centre gives a plus shape with the centre at 2 |
| ReachabilityLemmas.GrowDoesNotChain | src/reachability_map.cpp:232-295 | cells marked during the pass do not spread further in the same call |
| Reachability.ReachabilityMap.AddMap | src/reachability_map.cpp:297-304 | each cell gains the other map's count, the maximum is updated over the new cells and bounds them all, and passing the map itself doubles it |
| Reachability.ReachabilityMap.MaxValue | src/reachability_map.cpp:310-312 | the maximum is non-negative and bounds every cell while the map is bounded |
| Reachability.ReachabilityMap.GetValue | src/reachability_map.cpp:166-173 | outside the grid the score is 0; with a zero maximum it is not finite; with a positive maximum, bounded counts and a non-negative penalty it is finite and at most 1 |
| Reachability.ScoreAtMostOne | src/reachability_map.cpp:166-173 | a count at most the maximum, minus a non-negative penalty, scores at most 1 |
| Reachability.PenaltyLowersScore | src/reachability_map.cpp:166-173 | one penalty of `max_value_` lowers the score of a cell by exactly 1 |
| ReachabilityLemmas.RepeatedPenalties | src/reachability_map.cpp:314-319 | `n` penalties lower the score by exactly `n` |
| ReachabilityLemmas.PenalisedCellScoresNothing | src/reachability_map.cpp:314-319 | a cell whose penalty has reached its count scores at most 0 |
| Reachability.ReachabilityMap.SetValue | src/reachability_map.cpp:175-184 | outside the grid nothing changes; inside, the one cell is overwritten, the maximum rises to it if needed, and the boundedness of the map is kept |
| Reachability.ReachabilityMap.Clear | src/reachability_map.cpp:186-191 | all reach counts 0, same size, maximum 0, penalties untouched |
| Reachability.ReachabilityMap.AddPenalty | src/reachability_map.cpp:314-319 | inside the grid the cell's penalty grows by `max_value_` and its score drops by exactly 1 when the maximum is positive; outside nothing changes |
| Reachability.ReachabilityMap.ResetPenalty | src/reachability_map.cpp:321-325 | all penalties 0, same size, counts untouched |
| Reachability.ReachabilityMap.Generate | src/reachability_map.cpp:147-162 | bounds stored, ceiling step counts per axis, both grids resized to their product (old cells kept), maximum 0 |
| Reachability.SampleExtent | src/reachability_map.cpp:83-86 | the loops compute the per-axis minimum and maximum of the samples, starting from 1000000 and -1000000 |
| Reachability.WithinExtent | src/reachability_map.cpp:111-120 | every sample coordinate lies between the computed minimum and maximum of its axis |
| Reachability.SampleInBox | src/reachability_map.cpp:111-120 | every sample lies in the box spanned by the computed extent |
| Reachability.BinStep | src/reachability_map.cpp:134-143 | counting one more sample keeps "each cell holds its multiplicity among the binned indices" and "the maximum is the largest such count" |
| Reachability.BinCounts | src/reachability_map.cpp:134-143 | each cell's count grows by the number of samples whose index is that cell, and the maximum equals the largest count among hit cells |
| Reachability.ReachabilityMap.BinSamples | src/reachability_map.cpp:134-143 | the same, on the map's own grid |
| Reachability.ReachabilityMap.GenerateFromSamples | src/reachability_map.cpp:81-144 | extent from the samples, grid laid out as by `generate(lower, upper)`, counts and maximum from the binned samples (when every sample is in range) |
| ReachabilityLemmas.ExtremeSampleNotBinned | src/reachability_map.cpp:123-140 | as written: a sample at the maximum of an axis whose extent is a whole number of voxels gets index -1 |
| ReachabilityLemmas.SingleSampleNotBinned | src/reachability_map.cpp:123-140 | as written: a run with a single sample strictly inside ±1000000 has zero extent, so the grid has no cell for it and the sample is never binned |
| Reachability.CoveringStepCounts | src/reachability_map.cpp:123-129 | corrected: floor(extent / voxel) + 1 steps per axis and their product |
| Reachability.CoveringBinsAllSamples | src/reachability_map.cpp:123-140 | corrected: with covering steps every sample gets a valid index |
| Reachability.ReachabilityMap.GenerateCoveringFromSamples | src/reachability_map.cpp:81-144 | corrected: the same as GenerateFromSamples with covering steps, counting every sample and needing no in-range assumption |
| JointLimits.Clamp | src/task_jlc.cpp:59-64 | the result lies in `[ll, hl]` and equals `q` when `q` already does |
| JointLimits.JointLimitTrq | src/task_jlc.cpp:57-75 | activation in `[0, 1]`; a non-zero activation needs a positive band width; a zero activation means zero torque |
| JointLimitLemmas.ClampInvariance | src/task_jlc.cpp:59-64 | positions beyond a limit give the same response as the limit itself |
| JointLimitLemmas.UpperBand | src/task_jlc.cpp:65-67 | inside the upper band the activation is the normalised depth and the torque is `-depth^2 * rMax`, non-positive and at least `-rMax` |
| JointLimitLemmas.LowerBand | src/task_jlc.cpp:68-70 | inside the lower band (and outside the upper one) the activation is the normalised depth and the torque is `depth^2 * rMax`, between 0 and `rMax` |
| JointLimitLemmas.Quiet | src/task_jlc.cpp:71-73 | between the bands, or with no positive band width, torque and activation are 0 |
| JointLimitLemmas.AtUpperLimit | src/task_jlc.cpp:59-67 | at or above the upper limit the response is full: torque `-rMax`, activation 1 |
| JointLimitLemmas.AtLowerLimit | src/task_jlc.cpp:59-70 | at or below the lower limit, when the bands do not overlap, torque `rMax`, activation 1 |
| JointLimitLemmas.BandEdgesAreQuiet | src/task_jlc.cpp:65-73 | exactly at a band edge the strict tests give no torque |
| JointLimitLemmas.UpperBandWins | src/task_jlc.cpp:65-70 | where the bands overlap the upper band is tested first, so a positive `rMax` gives a negative torque |
| JointLimitLemmas.DeeperIsStronger | src/task_jlc.cpp:65-67 | deeper into the upper band the torque magnitude and the activation do not decrease |
| JointLimitLemmas.TorqueBounded | src/task_jlc.cpp:57-75 | the torque magnitude never exceeds `rMax`, for non-negative `rMax` |
| JointLimits.TaskJlc.StiffnessPositive | src/task_jlc.cpp:79-106 | the stiffness written for a joint is positive when the joint is excluded (0.001) or when its maximum torque and band width are positive, whichever branch of the threshold test is taken, so `diag(k_)` is positive definite |
| JointLimits.SubtractDamping | src/task_jlc.cpp:119 | each torque entry loses its damping entry and nothing else changes |
| JointLimits.NullspaceProjector | src/task_jlc.cpp:122-123 | `I - diag(a) * diag(a)` is the square matrix with `1 - a_i^2` on the diagonal and 0 elsewhere |
| JointLimitLemmas.NullspaceDiagonal | src/task_jlc.cpp:122-123 | a fully active joint has diagonal 0, an inactive one 1, and activations in [0, 1] give a diagonal in [0, 1] |
| JointLimitLemmas.BinaryActivationsProject | src/task_jlc.cpp:122-123 | with activations in {0, 1} the projector is idempotent (`N * N == N`) |
| JointLimits.TaskJlc.constructor | src/task_jlc.cpp:34-52 | limits, ranges, maximum torques, exclusions and the activation function stored; the activation and stiffness vectors are fresh, one entry per joint (uninitialised in C++, 0 here) |
| JointLimits.TaskJlc.LimitTorques | src/task_jlc.cpp:79-108 | every excluded joint gets torque 0, activation 0 and stiffness 0.001; every other joint gets the limit torque, activation `1 - Ndes(1 - a)` and the stiffness rule, and every stiffness is positive for excluded joints and for joints with positive maximum torque and band width |
| JointLimits.TaskJlc.Compute | src/task_jlc.cpp:77-124 | the per-joint results above with the damping product subtracted from the torque, and the diagonal nullspace projector |
| JointLimits.TaskJlc.Nullspace | src/task_jlc.cpp:121-123 | the projector built from the current activations |
| JointLimits.TaskJlc.ActivationCount | src/task_jlc.cpp:126-134 | the number of joints whose activation exceeds 0.001, between 0 and the joint count |
| JointLimitLemmas.CountExample | src/task_jlc.cpp:126-134 | activations 0, 0.001, 0.5, 1 count 2 (the threshold is strict) |

## Left out

- Sampling (src/reachability_map.cpp:87-110): random joint configurations, forward kinematics and collision checks call code outside this model. The model takes the resulting collision-free end-effector positions as a parameter.
- Console output in the constructor, in sampling and in `grow`'s unsupported-dimension branch is not modelled.
- The `addMap` overload taking a shared pointer (src/reachability_map.cpp:306-308) only forwards to `addMap` and is covered by `AddMap`.
- Doubles are modelled as exact reals: no rounding and no overflow. The source has two unguarded divisions by zero. `getValue` divides by a zero maximum (src/reachability_map.cpp:166-173, marked TODO there); the `Score` datatype models its IEEE result. `jointLimitTrq` divides by a zero band width when the limits are inverted; that case is excluded, see `JointLimits.JointLimitTrq` below.
- `int` counts, step counts and the map size are unbounded integers: 32-bit overflow and the `static_cast<int>` of huge quotients are not modelled.
- C++ leaves `max_value_`, the map's `ep_min_` and `ep_max_` (src/reachability_map.cpp:41-42) and the Eigen vectors of the task uninitialised. The model starts them at 0.
- Reachability.ReachabilityMap.Generate: requires a non-negative cell count, because `std::vector::resize` to a negative size throws, and the throw is not modelled.
- Reachability.ReachabilityMap.GenerateFromSamples: requires a non-negative cell count. An empty sample list in 3-D has extent -2000000 on every axis, so the step counts are negative and their product is negative; the source's `resize` then throws, which is not modelled. It also requires every sample to get a valid index. The source then writes `r_map_[-1]`, which is undefined behaviour (see Findings). `GenerateCoveringFromSamples` is the corrected form and needs no such requirement.
- Reachability.ReachabilityMap.Grow: requires the grid to have been laid out (one step per axis, one cell per index), because otherwise the source reads outside its vectors. The nested per-dimension loops are modelled as one loop over flat indices in the same order.
- Reachability.ReachabilityMap.GetIndex: requires `generate` to have set one step per axis, for the same reason.
- JointLimits.JointLimitTrq: requires `ll <= hl` (also part of `TaskJlc.Valid`). This excludes more than a division by zero. With inverted limits and `ls == 0` the source divides by zero (src/task_jlc.cpp:66). With inverted limits and `ls > 0` it returns a response whose activation can exceed 1: for hl = 0, ll = 1, ls = 0.5, q = -5 the position clamps to 1 (lines 59-64), and the activation is |(1 - 0 + 0.5) / 0.5| = 3 (line 66). The activation bound `[0, 1]` in the contract, and `TorqueBounded`, hold only because of this requirement.
- JointLimits.Stiffness: requires a non-zero range whenever the torque exceeds the threshold, because the source divides by it.
- JointLimits.TaskJlc.Compute: the damping matrix comes from an Eigen eigendecomposition of the inertia (src/task_jlc.cpp:110-117). It is a parameter `damping(stiffness, inertia)`, required to give an `n x n` matrix. Its numerical content is not modelled.
- JointLimits.TaskJlc: the activation-shaping function `func_Ndes` is a parameter `ndes: real -> real`, because its body is defined elsewhere.
- `visualize` (src/task_jlc.cpp:136-156) draws markers and is not modelled, and neither are the helpers in utilities.cpp and utilities.h.
- The intermediate Eigen members of the task (`q_`, `d_`, `k0_`, scratch matrices) are local values in the model.

## Findings

| source | as written | input that shows it | evidently intended | confidence | as-written member | corrected member |
|---|---|---|---|---|---|---|
| src/reachability_map.cpp:123-143 | the step count per axis is `ceil(extent / voxel)`, and the binning loop increments `r_map_[getIndex(x)]` without checking for -1 | a single sample (extent 0, so 0 steps), or samples whose extent on some axis is a whole number of voxels: the sample at that axis's maximum floors to index `steps`, so `getIndex` returns -1 and `r_map_[-1]` is written | every sample is counted in some cell, e.g. `floor(extent / voxel) + 1` steps per axis | not executed | ReachabilityLemmas.ExtremeSampleNotBinned | Reachability.ReachabilityMap.GenerateCoveringFromSamples |
