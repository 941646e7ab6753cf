/** The reference heuristics (EQS_QuerySettings): three score functions that
    normalise a weighted mix of sub-scores into [0, 1] with `Mathf.Clamp01`, pass
    it through the designer's response curve, and a switch that picks one of
    them by query type. */
module QuerySettings {
  import opened Engine
  import Grid
  import QS = QuerySystem

  /** A serialized float that the heuristics divide by; it must be positive. */
  type Positive = r: real | r > 0.0 witness 1.0

  /** The fields the heuristics read. `responseCurve` is `AnimationCurve.Evaluate`. */
  datatype Settings = Settings(maxDistance: Positive, maxDistanceFromCover: Positive, responseCurve: real -> real)

  /** QueryTypes: the three named members, or any other value the enum can hold. */
  datatype QueryType = NearestCover | ShootingPosition | RetreatPosition | Unnamed(value: int)

  /** The outcome of GetScoreFunction: a score function, or the thrown exception. */
  datatype Selection = Scorer(f: QS.ScoreFunction) | ArgumentOutOfRange(queryType: QueryType)

  /** The curve keeps [0, 1] inside [0, 1] (true of the default ease-in-out curve). */
  ghost predicate CurveInUnit(c: real -> real)
  {
    forall v :: 0.0 <= v <= 1.0 ==> 0.0 <= c(v) <= 1.0
  }

  /** The curve never decreases on [0, 1]. */
  ghost predicate CurveMonotone(c: real -> real)
  {
    forall a, b :: 0.0 <= a <= b <= 1.0 ==> c(a) <= c(b)
  }

  /** `Mathf.Clamp01`. */
  function Clamp01(v: real): (r: real)
    ensures 0.0 <= r <= 1.0
    ensures 0.0 <= v <= 1.0 ==> r == v
    ensures v <= 0.0 ==> r == 0.0
    ensures v >= 1.0 ==> r == 1.0
  {
    if v < 0.0 then 0.0 else if v > 1.0 then 1.0 else v
  }

  lemma Clamp01Monotone(a: real, b: real)
    requires a <= b
    ensures Clamp01(a) <= Clamp01(b)
  {
  }

  /** An obstacle was hit strictly nearer than `bound`. */
  predicate CloserThan(d: Distance, bound: real)
  {
    d.Finite? && d.value < bound
  }

  /** `Mathf.Clamp01(DistanceToObstacle / MaxDistanceFromCover)`; an infinite
      distance divides to infinity and clamps to 1. */
  function ObstacleRatio(d: Distance, max: Positive): (r: real)
    ensures 0.0 <= r <= 1.0
    ensures r == 1.0 <==> !CloserThan(d, max)
  {
    match d
    case Infinity => 1.0
    case Finite(v) =>
      if v >= max then
        assert v / max >= 1.0 by { assert v / max * max == v; }
        1.0
      else
        assert v / max < 1.0 by { assert v / max * max == v; }
        Clamp01(v / max)
  }

  /** Some in-range neighbour of the point, read row-major with width = height =
      gridSize, can see the target. The lookup needs index >= 0 and gridSize > 0;
      both hold for every point the query system scores. */
  predicate NeighbourSeesTarget(q: QS.Query, index: int, points: seq<QS.SamplePoint>)
    ensures NeighbourSeesTarget(q, index, points) <==>
      0 <= index && 0 < q.gridSize &&
      exists n :: n in Grid.NeighborIndices(index, q.gridSize, q.gridSize) && 0 <= n < |points| && points[n].canSeeTarget
  {
    0 <= index && 0 < q.gridSize &&
    var ns := Grid.NeighborIndices(index, q.gridSize, q.gridSize);
    exists j :: 0 <= j < |ns| && 0 <= ns[j] < |points| && points[ns[j]].canSeeTarget
  }

  /** ScoreNearestCover, as the value it returns. */
  function NearestCoverScore(s: Settings, q: QS.Query, index: int, p: QS.SamplePoint, points: seq<QS.SamplePoint>): (r: real)
    ensures !(!p.canSeeTarget && p.isClear) ==> r == 0.0
    ensures !CloserThan(p.distanceToObstacle, s.maxDistanceFromCover) ==> r == 0.0
    ensures CurveInUnit(s.responseCurve) ==> 0.0 <= r <= 1.0
  {
    NearestCoverValue(s, p, NeighbourSeesTarget(q, index, points))
  }

  /** `1 - Clamp01(DistanceToOrigin / MaxDistance) * 2`: C# precedence doubles the
      clamped ratio, not the difference, so the term ranges over [-1, 1]. */
  function InverseDistToOrigin(s: Settings, p: QS.SamplePoint): real
  {
    1.0 - Clamp01(p.distanceToOrigin / s.maxDistance) * 2.0
  }

  /** `1 - Clamp01(DistanceToObstacle / MaxDistanceFromCover)`. */
  function InverseDistFromObstacle(s: Settings, p: QS.SamplePoint): (r: real)
    ensures 0.0 <= r <= 1.0
    ensures r == 0.0 <==> !CloserThan(p.distanceToObstacle, s.maxDistanceFromCover)
  {
    1.0 - ObstacleRatio(p.distanceToObstacle, s.maxDistanceFromCover)
  }

  /** The nearest-cover score of a point, given whether a neighbour sees the
      target: hidden from the target, near the origin and close to an obstacle,
      with a bonus of 1 in the mix when a neighbouring cell can see the target. */
  function NearestCoverValue(s: Settings, p: QS.SamplePoint, neighbourSees: bool): (r: real)
    ensures !(!p.canSeeTarget && p.isClear) ==> r == 0.0
    ensures !CloserThan(p.distanceToObstacle, s.maxDistanceFromCover) ==> r == 0.0
    ensures CurveInUnit(s.responseCurve) ==> 0.0 <= r <= 1.0
    ensures !p.canSeeTarget && p.isClear ==>
      exists c :: 0.0 <= c <= 1.0 &&
        r == s.responseCurve(c) * InverseDistFromObstacle(s, p)
  {
    if !p.canSeeTarget && p.isClear then
      var inverseDistToOrigin := InverseDistToOrigin(s, p);
      var inverseDistFromObstacle := InverseDistFromObstacle(s, p);
      var bonus := if neighbourSees then 1.0 else 0.0;
      var combinedScore := Clamp01((inverseDistToOrigin + inverseDistFromObstacle + bonus) / 3.0);
      CurveProduct(s.responseCurve, combinedScore, inverseDistFromObstacle);
      s.responseCurve(combinedScore) * inverseDistFromObstacle
    else 0.0
  }

  /** A curve value in [0, 1] scaled by a weight in [0, 1] stays in [0, 1]. */
  lemma CurveProduct(c: real -> real, v: real, w: real)
    requires 0.0 <= v <= 1.0 && 0.0 <= w <= 1.0
    ensures CurveInUnit(c) ==> 0.0 <= c(v) * w <= 1.0
  {
    if CurveInUnit(c) {
      UnitProduct(c(v), w);
    }
  }

  /** The product of two numbers in [0, 1] lies in [0, 1]. */
  lemma UnitProduct(y: real, w: real)
    requires 0.0 <= y <= 1.0 && 0.0 <= w <= 1.0
    ensures 0.0 <= y * w <= 1.0
  {
    MulNonneg(y, w);
    MulNonneg(1.0 - y, w);
    assert (1.0 - y) * w == w - y * w;
  }

  lemma MulNonneg(a: real, b: real)
    requires a >= 0.0 && b >= 0.0
    ensures a * b >= 0.0
  {
  }

  /** ScoreNearestCover as written: the neighbour loop stops at the first
      neighbour that can see the target. */
  method ScoreNearestCover(s: Settings, q: QS.Query, index: int, p: QS.SamplePoint, points: seq<QS.SamplePoint>)
    returns (score: real)
    ensures score == NearestCoverScore(s, q, index, p, points)
  {
    if !p.canSeeTarget && p.isClear {
      var inverseDistToOrigin := InverseDistToOrigin(s, p);
      var inverseDistFromObstacle := InverseDistFromObstacle(s, p);
      var combinedScore := inverseDistToOrigin + inverseDistFromObstacle;
      if 0 <= index && 0 < q.gridSize {
        var neighbours := Grid.NeighborIndices(index, q.gridSize, q.gridSize);
        var i := 0;
        while i < |neighbours|
          invariant 0 <= i <= |neighbours|
          invariant combinedScore == inverseDistToOrigin + inverseDistFromObstacle
          invariant forall j :: 0 <= j < i ==> !(0 <= neighbours[j] < |points| && points[neighbours[j]].canSeeTarget)
        {
          var n := neighbours[i];
          if 0 <= n < |points| && points[n].canSeeTarget {
            combinedScore := combinedScore + 1.0;
            break;
          }
          i := i + 1;
        }
      }
      combinedScore := Clamp01(combinedScore / 3.0);
      score := s.responseCurve(combinedScore) * inverseDistFromObstacle;
    } else {
      score := 0.0;
    }
  }

  /** ScoreShootingPosition: visible to the target and clear, the nearer the origin the better. */
  function ShootingPositionScore(s: Settings, p: QS.SamplePoint): (r: real)
    ensures !(p.canSeeTarget && p.isClear) ==> r == 0.0
    ensures p.canSeeTarget && p.isClear ==> exists c :: 0.0 <= c <= 1.0 && r == s.responseCurve(c)
    ensures CurveInUnit(s.responseCurve) ==> 0.0 <= r <= 1.0
  {
    if p.canSeeTarget && p.isClear then
      var c := 1.0 - Clamp01(p.distanceToOrigin / s.maxDistance);
      // c is the witness of the existential in the second ensures
      assert 0.0 <= c <= 1.0;
      s.responseCurve(c)
    else 0.0
  }

  /** `Vector3.Dot((Origin - Point).normalized, (Origin - Target).normalized)`. */
  function Alignment(e: Oracles, q: QS.Query, p: QS.SamplePoint): real
  {
    Dot(e.normalized(Sub(q.origin, p.point)), e.normalized(Sub(q.origin, q.target)))
  }

  function Abs(v: real): (r: real)
    ensures r >= 0.0 && (r == v || r == -v)
  {
    if v < 0.0 then -v else v
  }

  /** ScoreRetreatPosition: hidden from the target and clear, on the far side of
      the origin from the target, scored by the clamped mean of four terms. */
  function RetreatPositionScore(s: Settings, e: Oracles, q: QS.Query, p: QS.SamplePoint): (r: real)
    ensures !(!p.canSeeTarget && p.isClear) ==> r == 0.0
    ensures Alignment(e, q, p) >= 0.0 ==> r == 0.0
    ensures !CloserThan(p.distanceToObstacle, s.maxDistanceFromCover) ==> r == 0.0
    ensures CurveInUnit(s.responseCurve) ==> 0.0 <= r <= 1.0
    ensures !p.canSeeTarget && p.isClear && Alignment(e, q, p) < 0.0 ==>
      r == s.responseCurve(Clamp01(RetreatTerms(s, e, q, p) / 4.0)) *
             InverseDistFromObstacle(s, p)
  {
    if !p.canSeeTarget && p.isClear then
      var alignmentWithTargetView := Alignment(e, q, p);
      if alignmentWithTargetView < 0.0 then
        var inverseDistFromObstacle := InverseDistFromObstacle(s, p);
        var combinedScore := Clamp01(RetreatTerms(s, e, q, p) / 4.0);
        CurveProduct(s.responseCurve, combinedScore, inverseDistFromObstacle);
        s.responseCurve(combinedScore) * inverseDistFromObstacle
      else 0.0
    else 0.0
  }

  /** The four retreat terms before averaging: distance from the target, twice
      the closeness to the origin, closeness to the obstacle, and 2.5 times the
      strength of the alignment. */
  function RetreatTerms(s: Settings, e: Oracles, q: QS.Query, p: QS.SamplePoint): (t: real)
    ensures 0.0 <= t
  {
    var distFromTarget := Clamp01(p.distanceToTarget / s.maxDistance);
    var inverseDistToOrigin := (1.0 - Clamp01(p.distanceToOrigin / s.maxDistance)) * 2.0;
    var inverseDistFromObstacle := InverseDistFromObstacle(s, p);
    var alignment := Abs(Alignment(e, q, p)) * 2.5;
    distFromTarget + inverseDistToOrigin + inverseDistFromObstacle + alignment
  }

  /** GetScoreFunction: the scorer for a named query type; any other value throws. */
  function GetScoreFunction(s: Settings, e: Oracles, t: QueryType): (r: Selection)
    ensures t.Unnamed? <==> r == ArgumentOutOfRange(t)
    ensures t == NearestCover ==>
              r.Scorer? && forall q, k, p, pts :: r.f(q, k, p, pts) == NearestCoverScore(s, q, k, p, pts)
    ensures t == ShootingPosition ==>
              r.Scorer? && forall q, k, p, pts :: r.f(q, k, p, pts) == ShootingPositionScore(s, p)
    ensures t == RetreatPosition ==>
              r.Scorer? && forall q, k, p, pts :: r.f(q, k, p, pts) == RetreatPositionScore(s, e, q, p)
  {
    match t
    case NearestCover => Scorer((q, k, p, pts) => NearestCoverScore(s, q, k, p, pts))
    case ShootingPosition => Scorer((q, k, p, pts) => ShootingPositionScore(s, p))
    case RetreatPosition => Scorer((q, k, p, pts) => RetreatPositionScore(s, e, q, p))
    case Unnamed(_) => ArgumentOutOfRange(t)
  }

  // ------------------------------------------------------------------ properties

  /** The bonus reads only the `canSeeTarget` flags of the in-range neighbours:
      two arrays that agree on those give the same score, however many of the
      neighbours see the target. */
  lemma NearestCoverReadsNeighbourFlags(s: Settings, q: QS.Query, index: int, p: QS.SamplePoint,
                                        points: seq<QS.SamplePoint>, points': seq<QS.SamplePoint>)
    requires 0 <= index && 0 < q.gridSize
    requires forall n :: n in Grid.NeighborIndices(index, q.gridSize, q.gridSize) ==>
      (0 <= n < |points| <==> 0 <= n < |points'|) &&
      (0 <= n < |points| ==> points[n].canSeeTarget == points'[n].canSeeTarget)
    ensures NearestCoverScore(s, q, index, p, points) == NearestCoverScore(s, q, index, p, points')
  {
    var ns := Grid.NeighborIndices(index, q.gridSize, q.gridSize);
    forall j | 0 <= j < |ns|
      ensures (0 <= ns[j] < |points| && points[ns[j]].canSeeTarget) <==>
              (0 <= ns[j] < |points'| && points'[ns[j]].canSeeTarget)
    {
      assert ns[j] in ns;
    }
    assert NeighbourSeesTarget(q, index, points) == NeighbourSeesTarget(q, index, points');
  }

  /** The bonus is 1 whether one neighbour or all of them see the target. */
  lemma NearestCoverBonusOnce(s: Settings, q: QS.Query, index: int, p: QS.SamplePoint,
                              points: seq<QS.SamplePoint>, j: int)
    requires !p.canSeeTarget && p.isClear
    requires 0 <= index && 0 < q.gridSize
    requires 0 <= j < |Grid.NeighborIndices(index, q.gridSize, q.gridSize)|
    requires 0 <= Grid.NeighborIndices(index, q.gridSize, q.gridSize)[j] < |points|
    ensures var n := Grid.NeighborIndices(index, q.gridSize, q.gridSize)[j];
      NearestCoverScore(s, q, index, p, points[n := points[n].(canSeeTarget := true)]) ==
      NearestCoverScore(s, q, index, p, seq(|points|, i requires 0 <= i < |points| => points[i].(canSeeTarget := true)))
  {
    var ns := Grid.NeighborIndices(index, q.gridSize, q.gridSize);
    var n := ns[j];
    var one := points[n := points[n].(canSeeTarget := true)];
    var all := seq(|points|, i requires 0 <= i < |points| => points[i].(canSeeTarget := true));
    assert one[n].canSeeTarget && all[n].canSeeTarget;
    assert NeighbourSeesTarget(q, index, one) && NeighbourSeesTarget(q, index, all);
  }

  /** For every query type, the scorer never reads the score fields of the array,
      so the in-place scoring order of the query system does not affect any score. */
  lemma ScorersIgnoreScores(s: Settings, e: Oracles, t: QueryType)
    requires !t.Unnamed?
    ensures QS.ScoreBlind(GetScoreFunction(s, e, t).f)
  {
    var f := GetScoreFunction(s, e, t).f;
    forall q: QS.Query, k: int, p: QS.SamplePoint, pts: seq<QS.SamplePoint>, pts': seq<QS.SamplePoint> | QS.SameButScores(pts, pts') ensures f(q, k, p, pts) == f(q, k, p, pts') {
      if t == NearestCover && 0 <= k && 0 < q.gridSize {
        forall n | n in Grid.NeighborIndices(k, q.gridSize, q.gridSize) && 0 <= n < |pts|
          ensures pts[n].canSeeTarget == pts'[n].canSeeTarget
        {
          assert pts[n].(score := 0.0).canSeeTarget == pts'[n].(score := 0.0).canSeeTarget;
        }
        NearestCoverReadsNeighbourFlags(s, q, k, p, pts, pts');
      }
    }
  }

  /** With a non-decreasing curve, of two visible clear points the one nearer
      the origin scores at least as high. */
  lemma ShootingPrefersNearer(s: Settings, p: QS.SamplePoint, p': QS.SamplePoint)
    requires CurveMonotone(s.responseCurve)
    requires p.canSeeTarget && p.isClear && p'.canSeeTarget && p'.isClear
    requires p.distanceToOrigin <= p'.distanceToOrigin
    ensures ShootingPositionScore(s, p) >= ShootingPositionScore(s, p')
  {
    var m := s.maxDistance;
    assert p.distanceToOrigin / m <= p'.distanceToOrigin / m by {
      assert p.distanceToOrigin / m * m == p.distanceToOrigin;
      assert p'.distanceToOrigin / m * m == p'.distanceToOrigin;
    }
    Clamp01Monotone(p.distanceToOrigin / m, p'.distanceToOrigin / m);
  }
}
