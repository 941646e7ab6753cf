# Environment Query System — a Dafny model

The Environment Query System answers one question for a game agent: where should
it stand? It lays a square grid of candidate points around an origin, snapped to a
world grid. It validates each point against the navigation mesh and the physics
scene, and records distances, line of sight and cover. Then it scores every valid
point, in index order, with a pluggable score function, and hands the whole array
to the caller. Queries wait in a FIFO queue, and one query runs per engine tick.

The model has five modules:

- `Engine`: vectors, distances that may be infinite, and the engine calls the core
  makes (navmesh sampling, box overlap, line and ray casts, magnitude,
  normalisation, world-grid snapping). These calls are uninterpreted functions held
  in an `Oracles` record.
- `Grid`: the eight-neighbour lookup on a row-major grid (`EQS_Utils`).
- `QuerySystem`: point validation, the sampling and scoring loops over an
  `array`, `RunQuery`, and the request queue as a class
  (`EnvironmentQuerySystem`).
- `QuerySettings`: the three reference score functions and the selector that picks
  one by query type (`EQS_QuerySettings`).
- `Tester`: the editor tester's completion callback. It copies the delivered
  array, sorts it in place by descending score, and keeps the first valid entry
  (`EQS_Tester`).

The sampling and scoring loops are proved against specification functions.
`Sampled` is the array after the sampling loops, `Scored`/`ScoringPass` the array
after the scoring loop, and `QueryResult` the array a query delivers. The lemmas
beside them state what those arrays hold:

- where each grid cell lands, and that an even grid fills the array exactly once;
- that the neighbour lookup the scorers use agrees with the sampling layout;
- what every valid and every invalid entry holds;
- that each score is computed on the array as the loop had left it.

Two facts about the code that the model keeps:

- An invalid sample is not all-default: it keeps its `Point`. That is the
  candidate position when navmesh sampling fails, and the navmesh position when
  only the clearance box overlaps something. Every other field of an invalid
  sample keeps its default.
- Nothing rejects a grid size that is odd or below 2. An odd size leaves the last
  `2G - 1` entries at `default` and misaligns the neighbour lookup
  (`OddGridMismatch`). A size below 2 yields an array with no valid point
  (`SmallGridNothingValid`).

## Model

| member | source | states |
|---|---|---|
| Grid.NeighborsFromMembers | Runtime/EQS_Utils.cs:16-25 | the loop from offset k on keeps exactly the in-grid cells reached through offsets k..7 |
| Grid.NeighborsFrom | Runtime/EQS_Utils.cs:16-25 | the offsets from k on yield at most 8 - k indices |
| Grid.NeighborIndices | Runtime/EQS_Utils.cs:11-26 | the lookup yields at most eight indices, in strictly increasing order |
| Grid.NeighborsExactly | Runtime/EQS_Utils.cs:11-26 | n is yielded iff n is an in-grid cell touching the cell of index; every yielded index is in [0, w*h) and differs from index |
| Grid.NeighborSound | Runtime/EQS_Utils.cs:13-25 | every yielded index is an in-grid adjacent cell |
| Grid.NeighborComplete | Runtime/EQS_Utils.cs:13-25 | every in-grid adjacent cell is yielded |
| Grid.OffsetOrder | Runtime/EQS_Utils.cs:8-9 | the offset tables list the neighbours in row-major order, so in-grid offsets later in the table give larger indices |
| Grid.NeighborsIncreasing | Runtime/EQS_Utils.cs:16-25 | the indices yielded from offset k on are strictly increasing |
| Grid.NeighborSymmetric | Runtime/EQS_Utils.cs:8-25 | for in-range cells, j is a neighbour of i iff i is a neighbour of j |
| Grid.NeighborCount | Runtime/EQS_Utils.cs:16-25 | the number of neighbours is the size of the 3x3 block clipped to the grid, minus the cell itself |
| Grid.Grid4x4Counts | Runtime/EQS_Utils.cs:11-26 | on a 4x4 grid, corners have 3 neighbours, edge cells 5 and interior cells 8 |
| QuerySystem.Sample | Runtime/EnvironmentQuerySystem.cs:154-233 | off the navmesh: default at the candidate; on the navmesh: at the navmesh position. Valid iff on the navmesh with no box overlap; validity equals clearance; score 0; an invalid sample is default except for its point; cover type None/Half/Full by obstacle distance within the bound and target visibility |
| QuerySystem.Cover | Runtime/EnvironmentQuerySystem.cs:222-229 | None iff the obstacle is beyond MaxDistanceFromCover; within it, Half iff the target is visible and Full iff it is not |
| QuerySystem.CreateSample | Runtime/EnvironmentQuerySystem.cs:154-233 | the field-by-field construction with its early return yields exactly `Sample` |
| QuerySystem.HalfGrid | Runtime/EnvironmentQuerySystem.cs:119 | C#'s truncating `gridSize / 2`: for non-negative sizes, 2*max is the size or one below it |
| QuerySystem.Sampled | Runtime/EnvironmentQuerySystem.cs:129-139 | the array after the sampling loops keeps gridSize² entries: the rows written so far, then the untouched tail |
| QuerySystem.RowsLength | Runtime/EnvironmentQuerySystem.cs:129-139 | the first n rows of the loops write n * side entries |
| QuerySystem.RowsFit | Runtime/EnvironmentQuerySystem.cs:129-139 | each further row appends one row of samples and still fits in the gridSize² array |
| QuerySystem.RowsAt | Runtime/EnvironmentQuerySystem.cs:129-139 | entry j of row r sits at r * side + j |
| QuerySystem.SampledCell | Runtime/EnvironmentQuerySystem.cs:129-139 | cell (x, y) is written at the running counter's value `CellIndex`, inside the written prefix, and holds the sample of that cell's world position |
| QuerySystem.RowsCell | Runtime/EnvironmentQuerySystem.cs:129-139 | cell (x, y) lies inside the written rows, at `CellIndex`, and holds the sample of that cell's world position |
| QuerySystem.CellCoordinates | Runtime/EnvironmentQuerySystem.cs:129-139 | for an even size, the slot of cell (x, y) has column y + max and row x + max in the lookup's row-major reading |
| QuerySystem.SampledIsRows | Runtime/EnvironmentQuerySystem.cs:129-139 | when the outer loop ends, the written rows followed by the untouched tail are exactly `Sampled` |
| QuerySystem.EvenGridCoversArray | Runtime/EnvironmentQuerySystem.cs:118-139 | for an even size of at least 2 the loops write the whole array, and slot k belongs to cell (k / G - max, k % G - max) |
| QuerySystem.CellIndexInjective | Runtime/EnvironmentQuerySystem.cs:129-139 | distinct cells land in distinct slots |
| QuerySystem.NeighborsAreAdjacentCells | Runtime/EnvironmentQuerySystem.cs:129-139 | for an even size, the lookup on a cell's slot yields another cell's slot iff the two cells are adjacent |
| QuerySystem.OddGridMismatch | Runtime/EnvironmentQuerySystem.cs:119-139 | for size 3 only 4 of 9 entries are written, and two side-by-side cells (slots 0 and 2) are not neighbours to the lookup |
| QuerySystem.Scored | Runtime/EnvironmentQuerySystem.cs:143-151 | after the loop has handled indices below n, only score fields have changed, entries from n on are untouched, and invalid entries are never touched |
| QuerySystem.ScoringPass | Runtime/EnvironmentQuerySystem.cs:143-151 | the pass keeps the length, changes no field but the score, and leaves every invalid entry as it was |
| QuerySystem.ValidIndices | Runtime/EnvironmentQuerySystem.cs:143-151 | the score function is called for exactly the valid indices below n, in increasing order |
| QuerySystem.ScoredStable | Runtime/EnvironmentQuerySystem.cs:143-151 | once the loop has handled index k, that entry never changes again |
| QuerySystem.ScoredSnapshot | Runtime/EnvironmentQuerySystem.cs:143-151 | the array seen at index k is the final array below k and the unscored array from k on |
| QuerySystem.ScoringPassAt | Runtime/EnvironmentQuerySystem.cs:143-151 | a valid final entry k holds f's value on that snapshot; an invalid entry is unchanged |
| QuerySystem.ScoringPassBlind | Runtime/EnvironmentQuerySystem.cs:143-151 | for a score function that ignores score fields, each valid entry's score is f's value on the unscored array |
| QuerySystem.Execute | Runtime/EnvironmentQuerySystem.cs:116-152 | the array becomes the scoring pass over the sampled array; f is called for exactly the valid indices, in increasing order |
| QuerySystem.SampleGrid | Runtime/EnvironmentQuerySystem.cs:118-139 | the nested loops leave the array equal to `Sampled` of its old contents |
| QuerySystem.RowStep | Runtime/EnvironmentQuerySystem.cs:129-139 | one outer iteration advances the counter by one row and extends the written prefix by that row |
| QuerySystem.SampleRow | Runtime/EnvironmentQuerySystem.cs:131-138 | the inner loop writes row x at the counter's slots and advances the counter by side |
| QuerySystem.SampleNextRow | Runtime/EnvironmentQuerySystem.cs:129-139 | one pass of the outer loop turns the first rows plus tail into one more row plus the shorter tail, and advances the counter to that row's end |
| QuerySystem.ScoreSamples | Runtime/EnvironmentQuerySystem.cs:143-151 | the scoring loop leaves the scoring pass of the old array and calls f for exactly the valid indices |
| QuerySystem.Validated | Runtime/EnvironmentQuerySystem.cs:38-41 | the array has gridSize² entries |
| QuerySystem.QueryResult | Runtime/EnvironmentQuerySystem.cs:32-48 | the delivered array has gridSize² entries |
| QuerySystem.QueryResultCell | Runtime/EnvironmentQuerySystem.cs:32-48 | the delivered entry of cell (x, y) is that cell's sample, scored by f on the scoring snapshot if valid |
| QuerySystem.QueryResultTail | Runtime/EnvironmentQuerySystem.cs:32-48 | slots the loops never reach are delivered as default |
| QuerySystem.SmallGridNothingValid | Runtime/EnvironmentQuerySystem.cs:119-139 | a grid size below 2 delivers only default entries |
| QuerySystem.RowsUnscored | Runtime/EnvironmentQuerySystem.cs:154-233 | every sample the loops write has score 0 and, if invalid, is default except for its point |
| QuerySystem.ValidatedEntry | Runtime/EnvironmentQuerySystem.cs:38-41 | before scoring every entry has score 0 and, if invalid, is default except for its point |
| QuerySystem.InvalidResultsAreDefault | Runtime/EnvironmentQuerySystem.cs:116-152 | every invalid delivered entry has score 0 and is default except for its point |
| QuerySystem.RunQuery | Runtime/EnvironmentQuerySystem.cs:32-48 | a fresh default array of gridSize² entries goes through Execute, and the callback receives `QueryResult` |
| QuerySystem.RequestQueue.constructor | Runtime/EnvironmentQuerySystem.cs:114 | the queue starts empty |
| QuerySystem.RequestQueue.AddQuery | Runtime/EnvironmentQuerySystem.cs:27-30 | the request joins the tail of the queue |
| QuerySystem.RequestQueue.Update | Runtime/EnvironmentQuerySystem.cs:19-25 | an empty queue does nothing; otherwise the head is removed and its query's result is delivered |
| QuerySettings.Clamp01 | Runtime/EQS_QuerySettings.cs:40-41 | the result is in [0, 1]: values already in [0, 1] are kept, values below become 0 and values above become 1 |
| QuerySettings.ObstacleRatio | Runtime/EQS_QuerySettings.cs:41 | the clamped obstacle ratio is in [0, 1], and equals 1 iff no obstacle is strictly nearer than MaxDistanceFromCover |
| QuerySettings.InverseDistFromObstacle | Runtime/EQS_QuerySettings.cs:41 | the obstacle closeness term is in [0, 1], and is 0 iff no obstacle is strictly nearer than MaxDistanceFromCover |
| QuerySettings.UnitProduct | Runtime/EQS_QuerySettings.cs:56 | a curve value in [0, 1] times a closeness in [0, 1] stays in [0, 1] |
| QuerySettings.NeighbourSeesTarget | Runtime/EQS_QuerySettings.cs:46-53 | the bonus test holds iff some in-array neighbour the lookup yields can see the target |
| QuerySettings.NearestCoverScore | Runtime/EQS_QuerySettings.cs:38-60 | 0 unless hidden and clear, 0 with no obstacle nearer than the bound, and in [0, 1] for a curve that keeps [0, 1] |
| QuerySettings.NearestCoverValue | Runtime/EQS_QuerySettings.cs:38-60 | 0 unless hidden and clear; 0 with no obstacle nearer than the bound; otherwise the curve at some point of [0, 1] times the obstacle closeness; in [0, 1] for a curve that keeps [0, 1] |
| QuerySettings.ScoreNearestCover | Runtime/EQS_QuerySettings.cs:33-61 | the loop that stops at the first neighbour seeing the target computes `NearestCoverScore` |
| QuerySettings.ShootingPositionScore | Runtime/EQS_QuerySettings.cs:63-71 | 0 unless visible and clear; otherwise the curve at a point of [0, 1]; in [0, 1] for a curve that keeps [0, 1] |
| QuerySettings.RetreatTerms | Runtime/EQS_QuerySettings.cs:86-90 | the sum of the four retreat terms is never negative |
| QuerySettings.RetreatPositionScore | Runtime/EQS_QuerySettings.cs:73-97 | 0 unless hidden and clear, 0 when not behind the origin as seen from the target, 0 with no obstacle nearer than the bound; otherwise the curve at the clamped mean of the terms times the obstacle closeness; in [0, 1] for a curve that keeps [0, 1] |
| QuerySettings.GetScoreFunction | Runtime/EQS_QuerySettings.cs:22-31 | each named query type selects its scorer; any other value raises ArgumentOutOfRange |
| QuerySettings.NearestCoverReadsNeighbourFlags | Runtime/EQS_QuerySettings.cs:46-53 | the nearest-cover score depends on the array only through the in-range neighbours' CanSeeTarget flags |
| QuerySettings.NearestCoverBonusOnce | Runtime/EQS_QuerySettings.cs:46-53 | the bonus is granted once: one seeing neighbour scores the same as all points seeing |
| QuerySettings.ScorersIgnoreScores | Runtime/EQS_QuerySettings.cs:22-97 | no selectable scorer reads the score fields of the array, so in-place scoring order cannot change any score |
| QuerySettings.ShootingPrefersNearer | Runtime/EQS_QuerySettings.cs:63-71 | with a non-decreasing curve, of two visible clear points the nearer one scores at least as high |
| Tester.FirstValid | Runtime/EQS_Tester.cs:73-80 | the position of the first valid entry, or none when no entry is valid |
| Tester.FirstValidIsBest | Runtime/EQS_Tester.cs:71-80 | in a descending rearrangement, the first valid entry is a valid delivered sample that no valid delivered sample outscores |
| Tester.ValidSurvivesRearrangement | Runtime/EQS_Tester.cs:67-80 | a rearrangement has a valid entry iff the delivered array has one |
| Tester.SortDescending | Runtime/EQS_Tester.cs:71 | the in-place sort leaves a permutation of the array in non-increasing score order |
| Tester.InsertAt | Runtime/EQS_Tester.cs:71 | one insertion step extends the sorted prefix by one entry and permutes the array |
| Tester.Swap | Runtime/EQS_Tester.cs:71 | the sort's exchange of two entries changes only those two and keeps the same multiset |
| Tester.Tester.constructor | Runtime/EQS_Tester.cs:24-25 | no result array yet, and the best result is default |
| Tester.Tester.OnQueryComplete | Runtime/EQS_Tester.cs:65-86 | the stored copy is a sorted permutation of the delivered array. The best result is its first valid entry, hence a best-scoring valid sample. It is unchanged when no entry is valid and reset to default when the array is empty |

## Left out

- Engine calls (navmesh sampling, box overlap, line and ray casts, `magnitude`, `normalized`, `SnapPositionToWorldGrid`) are uninterpreted functions of their arguments. Their geometry is not modelled.
- `AnimationCurve.Evaluate` is an arbitrary function `real -> real`. Range and monotonicity facts are stated under the explicit hypotheses `CurveInUnit` and `CurveMonotone`.
- Floats are modelled as exact reals. Rounding, NaN and IEEE infinity arithmetic are not modelled, except that `Mathf.Infinity` is the `Infinity` distance.
- QuerySettings.Settings: MaxDistance and MaxDistanceFromCover are taken to be positive. Division by zero, and the NaN or infinity it gives in C#, is not modelled.
- QuerySystem.RunQuery: `gridSize * gridSize` is an unbounded integer. The 32-bit overflow of a huge grid size is not modelled.
- QuerySettings.NeighbourSeesTarget: the model asks for `index >= 0` and `gridSize > 0`, and ignores a yielded neighbour outside the array. C# throws for `gridSize == 0` (division by zero) and for a neighbour outside the array. A negative grid size yields no neighbours in both. For a negative index, C#'s truncating `%` gives a negative column and the lookup still yields cells (index -1 on width 4 yields 0 and 4); the model grants no bonus there. `Execute` only passes indices from 0 up, and a valid entry needs a grid size of at least 2, so the scorer never meets these cases from the query system.
- `Debug.Log`, the `Profiler` calls, `NativeArray` allocation and disposal, and the shared `m_overlaps` collider buffer are not modelled.
- QuerySystem.RunQuery always delivers a result. In C# its log line reads `query.Source.name`, and `CreateSample` reads `Settings.NavMeshSampleRadius`. A null or destroyed `Source`, or an unassigned `Settings`, throws before any callback runs. Then the query that `Update` dequeued is lost, and nothing is delivered. Those exceptions are not modelled.
- QuerySystem.ScoreFunction is a pure function of the query, the index, the point and a snapshot of the array. In C# the delegate receives the live `NativeArray`, so it could write other entries or throw; the model assumes a score function that only reads and returns. All three scorers in `EQS_QuerySettings` do only that.
- The query's `Source` game object and the `Callback` field are not modelled. The callback's argument is `RunQuery`'s return value, and `Update` reports it as `Ran(delivered)`.
- The static `Settings` holder is replaced by a `radius` parameter carrying its navmesh sample radius. The config-only `EQS_GlobalSettings` and `EQS_QueryType` are not part of this model.
- Tester.SortDescending: `Array.Sort` is an unstable introspective sort. The model proves only what the comparison promises (sorted, a permutation). The order among equal scores, and hence which of several equally scored valid samples becomes the best result, is left open.
- Tester: the editor parts of `EQS_Tester` (`TestQuery`, `OnValidate`, `Update`, `OnDrawGizmosSelected`) and the gizmo drawing are not part of this model.
- The numeric values of the `QueryTypes` enum are not modelled. Any value other than the three named members is `Unnamed`.
- `SamplePoint.ToString` is not modelled.
