/** The host engine as seen by the query system: vectors, and the navigation,
    physics and vector-maths calls it makes, as uninterpreted oracles.
    Floats are modelled as `real`; `Mathf.Infinity` is the `Infinity` distance. */
module Engine {

  datatype Vec3 = Vec3(x: real, y: real, z: real)

  const Zero := Vec3(0.0, 0.0, 0.0)
  const Up := Vec3(0.0, 1.0, 0.0)

  function Add(a: Vec3, b: Vec3): Vec3
  {
    Vec3(a.x + b.x, a.y + b.y, a.z + b.z)
  }

  function Sub(a: Vec3, b: Vec3): Vec3
  {
    Vec3(a.x - b.x, a.y - b.y, a.z - b.z)
  }

  function Scale(a: Vec3, k: real): Vec3
  {
    Vec3(a.x * k, a.y * k, a.z * k)
  }

  function Dot(a: Vec3, b: Vec3): real
  {
    a.x * b.x + a.y * b.y + a.z * b.z
  }

  /** `v.WithY(y)`: the same vector at another height. */
  function WithY(v: Vec3, y: real): Vec3
  {
    Vec3(v.x, y, v.z)
  }

  /** A float distance that may be `Mathf.Infinity`. */
  datatype Distance = Finite(value: real) | Infinity

  /** `d <= bound` for a finite bound: infinity is never within it. */
  predicate Within(d: Distance, bound: real)
  {
    d.Finite? && d.value <= bound
  }

  /** Outcome of `NavMesh.SamplePosition`. */
  datatype NavMeshHit = NoNavMesh | OnNavMesh(position: Vec3)

  /** Outcome of `Physics.Raycast` with a hit-info out-parameter. */
  datatype RayHit = NoHit | HitAt(distance: real)

  /** The engine calls the core makes, each a pure function of its arguments. */
  datatype Oracles = Oracles(
    // EQS_Utils.SnapPositionToWorldGrid(position, spacing)
    snapToWorldGrid: (Vec3, real) -> Vec3,
    // NavMesh.SamplePosition(point, maxDistance, areaMask)
    samplePosition: (Vec3, real, int) -> NavMeshHit,
    // Physics.OverlapBoxNonAlloc(center, halfExtents, ...): number of colliders hit, triggers ignored
    overlapBox: (Vec3, Vec3) -> nat,
    // Physics.Linecast(start, end, layerMask): true when something blocks the segment
    linecast: (Vec3, Vec3, int) -> bool,
    // Physics.Raycast(origin, direction, maxDistance, layerMask), triggers ignored
    raycast: (Vec3, Vec3, real, int) -> RayHit,
    // Vector3.magnitude
    magnitude: Vec3 -> real,
    // Vector3.normalized
    normalized: Vec3 -> Vec3)
}
