/** The query pipeline (EnvironmentQuerySystem): build a square grid of candidate
    points around the origin, validate each one against the engine, score the
    valid ones in index order with a pluggable score function, and hand the
    whole array to the caller. A FIFO request queue defers queries to a later
    tick, one per tick. */
module QuerySystem {
  import opened Engine
  import Grid

  datatype CoverType = None | Half | Full

  /** One request. The score function and the callback travel beside it (see `Request`). */
  datatype Query = Query(
    origin: Vec3,
    lineOfSightOrigin: Vec3,
    gridSize: int,
    gridSpacing: real,
    target: Vec3,
    lineOfSightTarget: Vec3,
    obstacleMask: int,
    navMeshAreas: int,
    overlapSize: Vec3,
    maxDistanceFromCover: real)

  /** One grid cell's evaluation. */
  datatype SamplePoint = SamplePoint(
    isValid: bool,
    point: Vec3,
    distanceToOrigin: real,
    distanceToTarget: real,
    distanceToObstacle: Distance,
    inLineOfSight: bool,
    isClear: bool,
    canSeeTarget: bool,
    coverType: CoverType,
    score: real)

  /** `default(SamplePoint)`: every field zero, false or the first enum value. */
  const DefaultSample := SamplePoint(false, Zero, 0.0, 0.0, Finite(0.0), false, false, false, None, 0.0)

  /** PointScoreFunction: (query, pointIndex, samplePoint, points) -> score. */
  type ScoreFunction = (Query, int, SamplePoint, seq<SamplePoint>) -> real

  /** Offset lifting the line-of-sight rays off the ground. */
  const LosOffset := Vec3(0.0, 0.1, 0.0)

  // ------------------------------------------------------------------ validation

  function BoxCenter(q: Query, p: Vec3): Vec3
  {
    Add(p, Scale(Up, q.overlapSize.y / 2.0 + 0.01))
  }

  function BoxHalfExtents(q: Query): Vec3
  {
    Scale(q.overlapSize, 0.5)
  }

  /** Ground-level ray from the point toward the target: hit distance, or infinity. */
  function ObstacleDistance(e: Oracles, q: Query, p: Vec3): Distance
  {
    var from := Add(p, LosOffset);
    var dir := Sub(Add(q.target, LosOffset), from);
    match e.raycast(from, e.normalized(dir), e.magnitude(dir), q.obstacleMask)
    case HitAt(d) => Finite(d)
    case NoHit => Infinity
  }

  /** Eye-level ray toward the target's line-of-sight point is unobstructed. */
  predicate SeesTarget(e: Oracles, q: Query, p: Vec3)
  {
    var from := WithY(p, q.lineOfSightOrigin.y);
    var dir := Sub(q.lineOfSightTarget, from);
    e.raycast(from, e.normalized(dir), e.magnitude(dir), q.obstacleMask).NoHit?
  }

  function Cover(distanceToObstacle: Distance, maxDistanceFromCover: real, canSeeTarget: bool): (c: CoverType)
    ensures c == None <==> !Within(distanceToObstacle, maxDistanceFromCover)
    ensures c == Half <==> Within(distanceToObstacle, maxDistanceFromCover) && canSeeTarget
    ensures c == Full <==> Within(distanceToObstacle, maxDistanceFromCover) && !canSeeTarget
  {
    if Within(distanceToObstacle, maxDistanceFromCover) then (if canSeeTarget then Half else Full)
    else None
  }

  /** The sample for a navigable, unobstructed snapped point `p`. */
  function ClearSample(e: Oracles, q: Query, p: Vec3): SamplePoint
  {
    var obstacle := ObstacleDistance(e, q, p);
    var sees := SeesTarget(e, q, p);
    SamplePoint(
      true, p,
      e.magnitude(Sub(p, q.origin)),
      e.magnitude(Sub(q.target, p)),
      obstacle,
      !e.linecast(Add(p, LosOffset), Add(q.origin, LosOffset), q.obstacleMask),
      true, sees,
      Cover(obstacle, q.maxDistanceFromCover, sees),
      0.0)
  }

  /** What CreateSample produces for a candidate position. */
  function Sample(e: Oracles, radius: real, q: Query, candidate: Vec3): (s: SamplePoint)
    ensures s.score == 0.0
    ensures s.isValid <==> s.isClear
    ensures !s.isValid ==> s == DefaultSample.(point := s.point)
    ensures e.samplePosition(candidate, radius, q.navMeshAreas) == NoNavMesh ==>
      s == DefaultSample.(point := candidate)
    ensures e.samplePosition(candidate, radius, q.navMeshAreas).OnNavMesh? ==>
      s.point == e.samplePosition(candidate, radius, q.navMeshAreas).position
    ensures s.isValid <==>
      (e.samplePosition(candidate, radius, q.navMeshAreas).OnNavMesh? &&
       e.overlapBox(BoxCenter(q, s.point), BoxHalfExtents(q)) == 0)
    ensures s.isValid ==>
      (s.coverType == None <==> !Within(s.distanceToObstacle, q.maxDistanceFromCover)) &&
      (s.coverType == Half <==> Within(s.distanceToObstacle, q.maxDistanceFromCover) && s.canSeeTarget) &&
      (s.coverType == Full <==> Within(s.distanceToObstacle, q.maxDistanceFromCover) && !s.canSeeTarget)
    ensures s.distanceToObstacle == Infinity ==> s.coverType == None
  {
    match e.samplePosition(candidate, radius, q.navMeshAreas)
    case NoNavMesh => DefaultSample.(point := candidate)
    case OnNavMesh(p) =>
      if e.overlapBox(BoxCenter(q, p), BoxHalfExtents(q)) > 0 then DefaultSample.(point := p)
      else ClearSample(e, q, p)
  }

  /** CreateSample: fills the record field by field, leaving early when the point
      is off the navmesh or the clearance box overlaps a collider. */
  method CreateSample(e: Oracles, radius: real, q: Query, candidate: Vec3) returns (sample: SamplePoint)
    ensures sample == Sample(e, radius, q, candidate)
  {
    sample := DefaultSample.(point := candidate);
    var hit := e.samplePosition(candidate, radius, q.navMeshAreas);
    if hit.OnNavMesh? {
      sample := sample.(point := hit.position);
      var boxCenter := Add(sample.point, Scale(Up, q.overlapSize.y / 2.0 + 0.01));
      var overlapHits := e.overlapBox(boxCenter, Scale(q.overlapSize, 0.5));
      if overlapHits > 0 {
        return;
      }
      sample := sample.(isClear := true, isValid := true);
      sample := sample.(distanceToTarget := e.magnitude(Sub(q.target, sample.point)));
      sample := sample.(distanceToOrigin := e.magnitude(Sub(sample.point, q.origin)));
      sample := sample.(inLineOfSight :=
        !e.linecast(Add(sample.point, LosOffset), Add(q.origin, LosOffset), q.obstacleMask));
      // ground-level obstacle distance
      var obsCheckOrigin := Add(sample.point, LosOffset);
      var losDir := Sub(Add(q.target, LosOffset), obsCheckOrigin);
      var obstacleHit := e.raycast(obsCheckOrigin, e.normalized(losDir), e.magnitude(losDir), q.obstacleMask);
      if obstacleHit.HitAt? {
        sample := sample.(distanceToObstacle := Finite(obstacleHit.distance));
      } else {
        sample := sample.(distanceToObstacle := Infinity);
      }
      // eye-level line of sight
      var losOrigin := WithY(sample.point, q.lineOfSightOrigin.y);
      var eyeDir := Sub(q.lineOfSightTarget, losOrigin);
      if e.raycast(losOrigin, e.normalized(eyeDir), e.magnitude(eyeDir), q.obstacleMask).NoHit? {
        sample := sample.(canSeeTarget := true);
      }
      if Within(sample.distanceToObstacle, q.maxDistanceFromCover) {
        sample := sample.(coverType := if sample.canSeeTarget then Half else Full);
      } else {
        sample := sample.(coverType := None);
      }
    }
  }

  // ------------------------------------------------------------------ grid layout

  /** C#'s `gridSize / 2`, which truncates toward zero. */
  function HalfGrid(gridSize: int): (max: int)
    ensures gridSize >= 0 ==> 0 <= 2 * max <= gridSize && gridSize - 2 * max <= 1
    ensures gridSize < 0 ==> max <= 0
  {
    if gridSize >= 0 then gridSize / 2 else -((-gridSize) / 2)
  }

  /** Cells per side that the sampling loops visit: x and y run over [-max, max). */
  function Side(q: Query): nat
  {
    if HalfGrid(q.gridSize) > 0 then 2 * HalfGrid(q.gridSize) else 0
  }

  /** Number of array entries the sampling loops write. */
  function Written(q: Query): nat
  {
    Side(q) * Side(q)
  }

  /** The running counter's value when the loops reach cell (x, y). */
  function CellIndex(q: Query, x: int, y: int): int
  {
    (x + HalfGrid(q.gridSize)) * Side(q) + (y + HalfGrid(q.gridSize))
  }

  /** World position of cell (x, y): the snapped origin plus the cell's offset. */
  function CellPoint(e: Oracles, q: Query, x: int, y: int): Vec3
  {
    Add(e.snapToWorldGrid(q.origin, q.gridSpacing),
        Vec3(x as real * q.gridSpacing, 0.0, y as real * q.gridSpacing))
  }

  /** The samples the inner loop produces for row x, one per y in [-max, max). */
  function Row(e: Oracles, radius: real, q: Query, x: int): (r: seq<SamplePoint>)
    ensures |r| == Side(q)
  {
    seq(Side(q), j => Sample(e, radius, q, CellPoint(e, q, x, j - HalfGrid(q.gridSize))))
  }

  /** The samples of the first n rows, x = -max .. n-1-max, in loop order. */
  function Rows(e: Oracles, radius: real, q: Query, n: nat): seq<SamplePoint>
  {
    if n == 0 then [] else Rows(e, radius, q, n - 1) + Row(e, radius, q, n - 1 - HalfGrid(q.gridSize))
  }

  /** The array of size gridSize * gridSize after the sampling loops: every row in
      order, then the entries the loops do not reach, unchanged. */
  function Sampled(e: Oracles, radius: real, q: Query, init: seq<SamplePoint>): (r: seq<SamplePoint>)
    requires |init| == q.gridSize * q.gridSize
    ensures |r| == |init|
  {
    WrittenFits(q);
    RowsLength(e, radius, q, Side(q));
    Rows(e, radius, q, Side(q)) + init[Written(q)..]
  }

  lemma WrittenFits(q: Query)
    ensures Written(q) <= q.gridSize * q.gridSize
  {
    var side := Side(q);
    if side > 0 {
      Grid.MulMonotone(side, q.gridSize, side);
      Grid.MulMonotone(side, q.gridSize, q.gridSize);
    }
  }

  /** The first n rows hold n * side samples. */
  lemma {:induction false} RowsLength(e: Oracles, radius: real, q: Query, n: nat)
    ensures |Rows(e, radius, q, n)| == n * Side(q)
  {
    if n > 0 {
      RowsLength(e, radius, q, n - 1);
      assert n * Side(q) == (n - 1) * Side(q) + Side(q);
    }
  }

  /** One more row still fits in an array of gridSize * gridSize entries. */
  lemma RowsFit(e: Oracles, radius: real, q: Query, n: nat, length: int)
    requires n < Side(q) && length == q.gridSize * q.gridSize
    ensures Rows(e, radius, q, n + 1) == Rows(e, radius, q, n) + Row(e, radius, q, n - HalfGrid(q.gridSize))
    ensures |Rows(e, radius, q, n + 1)| == |Rows(e, radius, q, n)| + Side(q) <= length
  {
    RowsLength(e, radius, q, n + 1);
    Grid.MulMonotone(n + 1, Side(q), Side(q));
    WrittenFits(q);
  }

  /** Entry j of row r lies at r * side + j of the first n rows. */
  lemma {:induction false} RowsAt(e: Oracles, radius: real, q: Query, n: nat, r: nat, j: nat)
    requires r < n && j < Side(q)
    ensures r * Side(q) + j < n * Side(q) == |Rows(e, radius, q, n)|
    ensures Rows(e, radius, q, n)[r * Side(q) + j] == Row(e, radius, q, r - HalfGrid(q.gridSize))[j]
  {
    var side := Side(q);
    if r < n - 1 {
      RowsAt(e, radius, q, n - 1, r, j);
    }
    RowsLength(e, radius, q, n - 1);
    assert n * side == (n - 1) * side + side;
  }

  /** Cell (x, y) of the sampling loops is entry `CellIndex(q, x, y)` of the rows. */
  lemma RowsCell(e: Oracles, radius: real, q: Query, x: int, y: int)
    requires -HalfGrid(q.gridSize) <= x < HalfGrid(q.gridSize)
    requires -HalfGrid(q.gridSize) <= y < HalfGrid(q.gridSize)
    ensures 0 <= CellIndex(q, x, y) < |Rows(e, radius, q, Side(q))| == Written(q)
    ensures Rows(e, radius, q, Side(q))[CellIndex(q, x, y)] == Sample(e, radius, q, CellPoint(e, q, x, y))
  {
    var max := HalfGrid(q.gridSize);
    assert 0 <= CellIndex(q, x, y) by {
      Grid.MulMonotone(0, x + max, Side(q));
    }
    RowsAt(e, radius, q, Side(q), x + max, y + max);
    assert Row(e, radius, q, x)[y + max] == Sample(e, radius, q, CellPoint(e, q, x, y));
  }

  /** Cell (x, y) of the sampling loops lands at `CellIndex(q, x, y)`. */
  lemma SampledCell(e: Oracles, radius: real, q: Query, init: seq<SamplePoint>, x: int, y: int)
    requires -HalfGrid(q.gridSize) <= x < HalfGrid(q.gridSize)
    requires -HalfGrid(q.gridSize) <= y < HalfGrid(q.gridSize)
    requires |init| == q.gridSize * q.gridSize
    ensures 0 <= CellIndex(q, x, y) < Written(q) <= |init|
    ensures Sampled(e, radius, q, init)[CellIndex(q, x, y)] == Sample(e, radius, q, CellPoint(e, q, x, y))
  {
    RowsCell(e, radius, q, x, y);
    WrittenFits(q);
    assert Sampled(e, radius, q, init) == Rows(e, radius, q, Side(q)) + init[Written(q)..];
  }

  /** With an even grid size of at least 2 the loops visit every slot of the
      array exactly once: slot k belongs to cell (k / G - max, k % G - max). */
  lemma EvenGridCoversArray(q: Query, k: int)
    requires q.gridSize >= 2 && q.gridSize % 2 == 0
    requires 0 <= k < q.gridSize * q.gridSize
    ensures Side(q) == q.gridSize && Written(q) == q.gridSize * q.gridSize
    ensures var max := HalfGrid(q.gridSize);
      -max <= k / q.gridSize - max < max && -max <= k % q.gridSize - max < max &&
      CellIndex(q, k / q.gridSize - max, k % q.gridSize - max) == k
  {
    var g, max := q.gridSize, HalfGrid(q.gridSize);
    assert Side(q) == g;
    assert g == 2 * max;
    var row, col := k / g, k % g;
    Grid.AreaBelowCell(k, g, g);
    assert k == row * g + col;
    assert CellIndex(q, row - max, col - max) == (row - max + max) * g + (col - max + max);
  }

  /** Distinct cells of the loops land in distinct slots. */
  lemma CellIndexInjective(q: Query, x1: int, y1: int, x2: int, y2: int)
    requires -HalfGrid(q.gridSize) <= x1 < HalfGrid(q.gridSize) && -HalfGrid(q.gridSize) <= y1 < HalfGrid(q.gridSize)
    requires -HalfGrid(q.gridSize) <= x2 < HalfGrid(q.gridSize) && -HalfGrid(q.gridSize) <= y2 < HalfGrid(q.gridSize)
    requires CellIndex(q, x1, y1) == CellIndex(q, x2, y2)
    ensures x1 == x2 && y1 == y2
  {
    var max, side := HalfGrid(q.gridSize), Side(q);
    Grid.DivModUnique(x1 + max, y1 + max, side);
    Grid.DivModUnique(x2 + max, y2 + max, side);
  }

  /** For an even grid size, the neighbour lookup that the scorers run on a slot
      (row-major, width = height = gridSize) returns exactly the slots of the
      eight cells around it. */
  lemma NeighborsAreAdjacentCells(q: Query, x1: int, y1: int, x2: int, y2: int)
    requires q.gridSize >= 2 && q.gridSize % 2 == 0
    requires -HalfGrid(q.gridSize) <= x1 < HalfGrid(q.gridSize) && -HalfGrid(q.gridSize) <= y1 < HalfGrid(q.gridSize)
    requires -HalfGrid(q.gridSize) <= x2 < HalfGrid(q.gridSize) && -HalfGrid(q.gridSize) <= y2 < HalfGrid(q.gridSize)
    ensures CellIndex(q, x2, y2) in Grid.NeighborIndices(CellIndex(q, x1, y1), q.gridSize, q.gridSize)
            <==> Grid.Adjacent(x1, y1, x2, y2)
  {
    CellCoordinates(q, x1, y1);
    CellCoordinates(q, x2, y2);
    Grid.NeighborsExactly(CellIndex(q, x1, y1), q.gridSize, q.gridSize);
  }

  /** For an even grid size, the lookup's row-major split of a cell's slot gives
      back the cell's loop coordinates, shifted by max. */
  lemma CellCoordinates(q: Query, x: int, y: int)
    requires q.gridSize >= 2 && q.gridSize % 2 == 0
    requires -HalfGrid(q.gridSize) <= x < HalfGrid(q.gridSize) && -HalfGrid(q.gridSize) <= y < HalfGrid(q.gridSize)
    ensures 0 <= CellIndex(q, x, y)
    ensures CellIndex(q, x, y) % q.gridSize == y + HalfGrid(q.gridSize)
    ensures CellIndex(q, x, y) / q.gridSize == x + HalfGrid(q.gridSize)
  {
    var max := HalfGrid(q.gridSize);
    assert Side(q) == q.gridSize;
    Grid.DivModUnique(x + max, y + max, q.gridSize);
  }

  /** For an odd grid size the loops stop one row and one column short
      (2 * max = gridSize - 1), so the array has an unwritten tail, and the
      lookup's row width no longer matches the layout: with gridSize 3, cells
      (-1, -1) and (0, -1) lie side by side in slots 0 and 2, yet slot 2 is not
      among the neighbours of slot 0. */
  lemma OddGridMismatch(q: Query)
    requires q.gridSize == 3
    ensures Side(q) == 2 && Written(q) == 4 < q.gridSize * q.gridSize
    ensures CellIndex(q, -1, -1) == 0 && CellIndex(q, 0, -1) == 2 && Grid.Adjacent(-1, -1, 0, -1)
    ensures 2 !in Grid.NeighborIndices(0, q.gridSize, q.gridSize)
  {
    Grid.NeighborsExactly(0, 3, 3);
    assert !Grid.IsNeighbor(0, 2, 3, 3);
  }

  // ------------------------------------------------------------------ scoring

  /** Scoring of index k: a valid entry gets the score function's value, computed
      on the array as it stands; an invalid one is left alone. */
  function ScoreStep(f: ScoreFunction, q: Query, t: seq<SamplePoint>, k: nat): seq<SamplePoint>
    requires k < |t|
  {
    if t[k].isValid then t[k := t[k].(score := f(q, k, t[k], t))] else t
  }

  /** The array after the scoring loop has handled indices 0 .. n-1. */
  function Scored(f: ScoreFunction, q: Query, s: seq<SamplePoint>, n: nat): (r: seq<SamplePoint>)
    requires n <= |s|
    ensures |r| == |s|
    ensures forall k :: 0 <= k < |s| ==> r[k].(score := s[k].score) == s[k]
    ensures forall k :: n <= k < |s| ==> r[k] == s[k]
    ensures forall k :: 0 <= k < |s| && !s[k].isValid ==> r[k] == s[k]
    decreases n
  {
    if n == 0 then s else ScoreStep(f, q, Scored(f, q, s, n - 1), n - 1)
  }

  function ScoringPass(f: ScoreFunction, q: Query, s: seq<SamplePoint>): (r: seq<SamplePoint>)
    ensures |r| == |s|
    ensures forall k :: 0 <= k < |s| ==> r[k].(score := s[k].score) == s[k]
    ensures forall k :: 0 <= k < |s| && !s[k].isValid ==> r[k] == s[k]
  {
    Scored(f, q, s, |s|)
  }

  /** Indices below n whose sample is valid, in increasing order. */
  function ValidIndices(s: seq<SamplePoint>, n: nat): (r: seq<int>)
    requires n <= |s|
    ensures forall k :: k in r <==> 0 <= k < n && s[k].isValid
    ensures Grid.StrictlyIncreasing(r)
    ensures forall j :: 0 <= j < |r| ==> r[j] < n
  {
    if n == 0 then [] else ValidIndices(s, n - 1) + (if s[n - 1].isValid then [n - 1] else [])
  }

  /** Once index k is handled its entry never changes again. */
  lemma {:induction false} ScoredStable(f: ScoreFunction, q: Query, s: seq<SamplePoint>, n: nat, m: nat, k: nat)
    requires k < n <= m <= |s|
    ensures Scored(f, q, s, m)[k] == Scored(f, q, s, n)[k]
    decreases m
  {
    if m > n {
      ScoredStable(f, q, s, n, m - 1, k);
    }
  }

  /** The scoring pass gives valid entry k the score function's value on the array
      in which entries below k already hold their final scores and entries from k
      on are as validated; invalid entries are untouched. */
  lemma ScoringPassAt(f: ScoreFunction, q: Query, s: seq<SamplePoint>, k: nat)
    requires k < |s|
    ensures Scored(f, q, s, k) == ScoringPass(f, q, s)[..k] + s[k..]
    ensures ScoringPass(f, q, s)[k] ==
      if s[k].isValid then s[k].(score := f(q, k, s[k], Scored(f, q, s, k))) else s[k]
  {
    ScoredSnapshot(f, q, s, k);
    ScoredStable(f, q, s, k + 1, |s|, k);
  }

  lemma ScoredSnapshot(f: ScoreFunction, q: Query, s: seq<SamplePoint>, k: nat)
    requires k < |s|
    ensures Scored(f, q, s, k) == ScoringPass(f, q, s)[..k] + s[k..]
  {
    var snapshot, final := Scored(f, q, s, k), ScoringPass(f, q, s);
    var whole := final[..k] + s[k..];
    forall j | 0 <= j < |s| ensures snapshot[j] == whole[j] {
      if j < k {
        ScoredStable(f, q, s, k, |s|, j);
      }
    }
  }

  /** The score fields of `s` and `t` may differ; nothing else does. */
  predicate SameButScores(s: seq<SamplePoint>, t: seq<SamplePoint>)
  {
    |s| == |t| && forall k :: 0 <= k < |s| ==> s[k].(score := 0.0) == t[k].(score := 0.0)
  }

  /** A score function that never looks at the score fields of the array. */
  ghost predicate ScoreBlind(f: ScoreFunction)
  {
    forall q, k, p, s, t :: SameButScores(s, t) ==> f(q, k, p, s) == f(q, k, p, t)
  }

  /** For a score function that ignores earlier scores, scoring in place is the
      same as scoring every valid entry against the unscored array. */
  lemma ScoringPassBlind(f: ScoreFunction, q: Query, s: seq<SamplePoint>, k: nat)
    requires ScoreBlind(f) && k < |s|
    ensures ScoringPass(f, q, s)[k] == if s[k].isValid then s[k].(score := f(q, k, s[k], s)) else s[k]
  {
    ScoringPassAt(f, q, s, k);
    var snapshot := Scored(f, q, s, k);
    forall j | 0 <= j < |s| ensures snapshot[j].(score := 0.0) == s[j].(score := 0.0) {
      assert snapshot[j].(score := s[j].score) == s[j];
    }
    assert SameButScores(snapshot, s);
  }

  // ------------------------------------------------------------------ execution

  /** Execute: sample every cell of the loops into `results`, then score the valid
      entries in index order, writing each score back in place. The ghost result
      lists the indices the score function was called with. */
  method Execute(e: Oracles, radius: real, q: Query, f: ScoreFunction, results: array<SamplePoint>)
    returns (ghost calls: seq<int>)
    requires results.Length == q.gridSize * q.gridSize
    modifies results
    ensures results[..] == ScoringPass(f, q, Sampled(e, radius, q, old(results[..])))
    ensures calls == ValidIndices(Sampled(e, radius, q, old(results[..])), results.Length)
  {
    SampleGrid(e, radius, q, results);
    calls := ScoreSamples(q, f, results);
  }

  /** The sampling loops of Execute: cell (x, y) for x, y in [-max, max) goes to the
      running counter's slot. */
  method SampleGrid(e: Oracles, radius: real, q: Query, results: array<SamplePoint>)
    requires results.Length == q.gridSize * q.gridSize
    modifies results
    ensures results[..] == Sampled(e, radius, q, old(results[..]))
  {
    ghost var init := results[..];
    var i := 0;
    var max := HalfGrid(q.gridSize);
    var origin := e.snapToWorldGrid(q.origin, q.gridSpacing);
    var x := -max;
    while x < max
      invariant -max <= x && (x <= max || x == -max)
      invariant i == |Rows(e, radius, q, x + max)| <= results.Length
      invariant results[..] == Rows(e, radius, q, x + max) + init[i..]
    {
      i := SampleNextRow(e, radius, q, results, origin, x, i, init);
      x := x + 1;
    }
    SampledIsRows(e, radius, q, init, x + max, i);
  }

  /** Once the outer loop has run all its rows, the array is `Sampled`. */
  lemma SampledIsRows(e: Oracles, radius: real, q: Query, init: seq<SamplePoint>, n: nat, i: int)
    requires |init| == q.gridSize * q.gridSize
    requires n == Side(q) && i == |Rows(e, radius, q, n)| <= |init|
    ensures Rows(e, radius, q, n) + init[i..] == Sampled(e, radius, q, init)
  {
    RowsLength(e, radius, q, Side(q));
  }

  /** Row x extends the rows before it and uses up the next Side(q) entries. */
  lemma RowStep(e: Oracles, radius: real, q: Query, init: seq<SamplePoint>, x: int, i0: int)
    requires -HalfGrid(q.gridSize) <= x < HalfGrid(q.gridSize)
    requires |init| == q.gridSize * q.gridSize
    requires i0 == |Rows(e, radius, q, x + HalfGrid(q.gridSize))|
    ensures i0 + Side(q) == |Rows(e, radius, q, x + HalfGrid(q.gridSize) + 1)| <= |init|
    ensures Rows(e, radius, q, x + HalfGrid(q.gridSize)) + Row(e, radius, q, x) + init[i0..][Side(q)..] ==
      Rows(e, radius, q, x + HalfGrid(q.gridSize) + 1) + init[i0 + Side(q)..]
  {
    RowsFit(e, radius, q, x + HalfGrid(q.gridSize), |init|);
    assert init[i0..][Side(q)..] == init[i0 + Side(q)..];
  }

  /** One pass of the outer sampling loop: row x extends the rows already written. */
  method SampleNextRow(e: Oracles, radius: real, q: Query, results: array<SamplePoint>, origin: Vec3,
                       x: int, i0: int, ghost init: seq<SamplePoint>)
    returns (i: int)
    requires origin == e.snapToWorldGrid(q.origin, q.gridSpacing)
    requires -HalfGrid(q.gridSize) <= x < HalfGrid(q.gridSize)
    requires |init| == results.Length == q.gridSize * q.gridSize
    requires i0 == |Rows(e, radius, q, x + HalfGrid(q.gridSize))| <= |init|
    requires results[..] == Rows(e, radius, q, x + HalfGrid(q.gridSize)) + init[i0..]
    modifies results
    ensures i == |Rows(e, radius, q, x + HalfGrid(q.gridSize) + 1)| <= results.Length
    ensures results[..] == Rows(e, radius, q, x + HalfGrid(q.gridSize) + 1) + init[i..]
  {
    RowStep(e, radius, q, init, x, i0);
    i := SampleRow(e, radius, q, results, origin, x, i0, Rows(e, radius, q, x + HalfGrid(q.gridSize)), init[i0..]);
  }

  /** One pass of the inner sampling loop: row x, written from counter i0 on
      over what `rest` held there. */
  method SampleRow(e: Oracles, radius: real, q: Query, results: array<SamplePoint>, origin: Vec3,
                   x: int, i0: int, ghost done: seq<SamplePoint>, ghost rest: seq<SamplePoint>)
    returns (i: int)
    requires origin == e.snapToWorldGrid(q.origin, q.gridSpacing)
    requires -HalfGrid(q.gridSize) <= x < HalfGrid(q.gridSize)
    requires i0 == |done| && Side(q) <= |rest|
    requires results[..] == done + rest
    modifies results
    ensures i == i0 + Side(q)
    ensures results[..] == done + Row(e, radius, q, x) + rest[Side(q)..]
  {
    var max := HalfGrid(q.gridSize);
    ghost var row := Row(e, radius, q, x);
    i := i0;
    var y := -max;
    while y < max
      invariant -max <= y <= max
      invariant i == i0 + (y + max)
      invariant results[..] == done + row[..y + max] + rest[y + max..]
    {
      var point := Add(origin, Vec3(x as real * q.gridSpacing, 0.0, y as real * q.gridSpacing));
      var sample := CreateSample(e, radius, q, point);
      assert point == CellPoint(e, q, x, y);
      assert row[y + max] == Sample(e, radius, q, CellPoint(e, q, x, (y + max) - max));
      results[i] := sample;
      assert row[..y + max + 1] == row[..y + max] + [sample];
      i := i + 1;
      y := y + 1;
    }
    assert row[..y + max] == row;
  }

  /** The scoring loop of Execute. */
  method ScoreSamples(q: Query, f: ScoreFunction, results: array<SamplePoint>) returns (ghost calls: seq<int>)
    modifies results
    ensures results[..] == ScoringPass(f, q, old(results[..]))
    ensures calls == ValidIndices(old(results[..]), results.Length)
  {
    ghost var sampled := results[..];
    calls := [];
    var index := 0;
    while index < results.Length
      invariant 0 <= index <= results.Length
      invariant results[..] == Scored(f, q, sampled, index)
      invariant calls == ValidIndices(sampled, index)
    {
      ghost var before := results[..];
      var point := results[index];
      if point.isValid {
        point := point.(score := f(q, index, point, results[..]));
        calls := calls + [index];
        results[index] := point;
      }
      assert results[..] == ScoreStep(f, q, before, index);
      index := index + 1;
    }
  }

  /** The array a query works on once sampling is done and before scoring. */
  function Validated(e: Oracles, radius: real, q: Query): (r: seq<SamplePoint>)
    ensures |r| == q.gridSize * q.gridSize
  {
    Sampled(e, radius, q, seq(q.gridSize * q.gridSize, _ => DefaultSample))
  }

  /** The array a query delivers to its callback. */
  function QueryResult(e: Oracles, radius: real, q: Query, f: ScoreFunction): (r: seq<SamplePoint>)
    ensures |r| == q.gridSize * q.gridSize
  {
    ScoringPass(f, q, Validated(e, radius, q))
  }

  /** The delivered entry for cell (x, y) is the sample validated at that cell's
      position; if valid, its score is f's value on the array as scoring left it
      when the loop reached the entry. */
  lemma QueryResultCell(e: Oracles, radius: real, q: Query, f: ScoreFunction, x: int, y: int)
    requires -HalfGrid(q.gridSize) <= x < HalfGrid(q.gridSize)
    requires -HalfGrid(q.gridSize) <= y < HalfGrid(q.gridSize)
    ensures 0 <= CellIndex(q, x, y) < Written(q) <= q.gridSize * q.gridSize
    ensures var k, s := CellIndex(q, x, y), Sample(e, radius, q, CellPoint(e, q, x, y));
      QueryResult(e, radius, q, f)[k] ==
        if s.isValid then s.(score := f(q, k, s, Scored(f, q, Validated(e, radius, q), k))) else s
  {
    WrittenFits(q);
    SampledCell(e, radius, q, seq(q.gridSize * q.gridSize, _ => DefaultSample), x, y);
    ScoringPassAt(f, q, Validated(e, radius, q), CellIndex(q, x, y));
  }

  /** Entries the loops never reach stay `default`: the tail of an odd grid, and
      the whole array when gridSize is below 2. */
  lemma QueryResultTail(e: Oracles, radius: real, q: Query, f: ScoreFunction, k: int)
    requires Written(q) <= k < q.gridSize * q.gridSize
    ensures QueryResult(e, radius, q, f)[k] == DefaultSample
  {
    WrittenFits(q);
    var v := Validated(e, radius, q);
    assert v[k] == DefaultSample;
    ScoringPassAt(f, q, v, k);
  }

  /** A query with gridSize below 2 produces no valid point at all. */
  lemma SmallGridNothingValid(e: Oracles, radius: real, q: Query, f: ScoreFunction)
    requires q.gridSize < 2
    ensures QueryResult(e, radius, q, f) == seq(q.gridSize * q.gridSize, _ => DefaultSample)
  {
    assert Written(q) == 0;
    forall k | 0 <= k < q.gridSize * q.gridSize ensures QueryResult(e, radius, q, f)[k] == DefaultSample {
      QueryResultTail(e, radius, q, f, k);
    }
  }

  /** A sample as CreateSample leaves it: unscored, and `default` apart from its
      position when invalid. */
  predicate Unscored(s: SamplePoint)
  {
    s.score == 0.0 && (!s.isValid ==> s == DefaultSample.(point := s.point))
  }

  lemma {:induction false} RowsUnscored(e: Oracles, radius: real, q: Query, n: nat)
    ensures forall i :: 0 <= i < |Rows(e, radius, q, n)| ==> Unscored(Rows(e, radius, q, n)[i])
  {
    if n > 0 {
      RowsUnscored(e, radius, q, n - 1);
      var row := Row(e, radius, q, n - 1 - HalfGrid(q.gridSize));
      forall j | 0 <= j < |row| ensures Unscored(row[j]) {
        assert row[j] == Sample(e, radius, q, CellPoint(e, q, n - 1 - HalfGrid(q.gridSize), j - HalfGrid(q.gridSize)));
      }
    }
  }

  /** Before scoring every entry has score 0, and an invalid one is `default`
      except for its position. */
  lemma ValidatedEntry(e: Oracles, radius: real, q: Query, k: int)
    requires 0 <= k < q.gridSize * q.gridSize
    ensures Unscored(Validated(e, radius, q)[k])
  {
    var v := Validated(e, radius, q);
    var rows := Rows(e, radius, q, Side(q));
    var init := seq(q.gridSize * q.gridSize, _ => DefaultSample);
    assert v == rows + init[Written(q)..] && Written(q) == |rows| by {
      WrittenFits(q);
      RowsLength(e, radius, q, Side(q));
    }
    RowsUnscored(e, radius, q, Side(q));
  }

  /** Every invalid delivered entry is `default` except for its position, with score 0. */
  lemma InvalidResultsAreDefault(e: Oracles, radius: real, q: Query, f: ScoreFunction, k: int)
    requires 0 <= k < q.gridSize * q.gridSize
    requires !QueryResult(e, radius, q, f)[k].isValid
    ensures QueryResult(e, radius, q, f)[k] == DefaultSample.(point := QueryResult(e, radius, q, f)[k].point)
    ensures QueryResult(e, radius, q, f)[k].score == 0.0
  {
    assert QueryResult(e, radius, q, f) == ScoringPass(f, q, Validated(e, radius, q));
    ScoringPassAt(f, q, Validated(e, radius, q), k);
    ValidatedEntry(e, radius, q, k);
  }

  /** RunQuery: allocate `gridSize * gridSize` default samples, execute, and
      return the array that is handed to the callback. */
  method RunQuery(e: Oracles, radius: real, q: Query, f: ScoreFunction) returns (delivered: seq<SamplePoint>)
    ensures delivered == QueryResult(e, radius, q, f)
  {
    var totalPoints := q.gridSize * q.gridSize;
    var results := new SamplePoint[totalPoints](_ => DefaultSample);
    assert results[..] == seq(totalPoints, _ => DefaultSample);
    ghost var calls := Execute(e, radius, q, f, results);
    delivered := results[..];
  }

  // ------------------------------------------------------------------ request queue

  datatype Request = Request(query: Query, scoreFunction: ScoreFunction)

  /** What one tick of the queue did. */
  datatype Tick = Idle | Ran(delivered: seq<SamplePoint>)

  /** The process-wide FIFO of deferred queries. */
  class RequestQueue {
    var pending: seq<Request>

    constructor ()
      ensures pending == []
    {
      pending := [];
    }

    /** AddQuery: enqueue at the tail. */
    method AddQuery(request: Request)
      modifies this
      ensures pending == old(pending) + [request]
    {
      pending := pending + [request];
    }

    /** Update: dequeue and run at most one query. */
    method Update(e: Oracles, radius: real) returns (tick: Tick)
      modifies this
      ensures old(pending) == [] ==> pending == [] && tick == Idle
      ensures old(pending) != [] ==>
        pending == old(pending)[1..] &&
        tick == Ran(QueryResult(e, radius, old(pending)[0].query, old(pending)[0].scoreFunction))
    {
      if |pending| > 0 {
        var request := pending[0];
        pending := pending[1..];
        var delivered := RunQuery(e, radius, request.query, request.scoreFunction);
        tick := Ran(delivered);
      } else {
        tick := Idle;
      }
    }
  }
}
