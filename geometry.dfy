/** World-space vectors and the distances the planner computes with them.
    Unity's `Vector3` becomes a triple of reals; floating-point rounding is not
    modelled. `Vector3.Distance` is a library call whose value the planner never
    inspects beyond comparing and adding it, so it is a parameter of the graph
    (a `Metric`), not defined here. */
module Geometry {

  datatype Vec3 = Vec3(x: real, y: real, z: real)

  /** `Vector3.zero`. */
  const Zero: Vec3 := Vec3(0.0, 0.0, 0.0)

  /** The type of `Vector3.Distance`. */
  type Metric = (Vec3, Vec3) -> real

  /** What the planner relies on from its metric: distances are never negative. */
  ghost predicate NonNegative(dist: Metric) {
    forall a, b :: dist(a, b) >= 0.0
  }

  function Abs(r: real): (a: real)
    ensures a >= 0.0
    ensures a == r || a == -r
  {
    if r < 0.0 then -r else r
  }

  function Add(a: Vec3, b: Vec3): Vec3 {
    Vec3(a.x + b.x, a.y + b.y, a.z + b.z)
  }

  function Sub(a: Vec3, b: Vec3): Vec3 {
    Vec3(a.x - b.x, a.y - b.y, a.z - b.z)
  }

  function Scale(a: Vec3, t: real): Vec3 {
    Vec3(a.x * t, a.y * t, a.z * t)
  }

  /** `Vector3.Lerp`, which clamps its parameter to [0, 1]. */
  function Lerp(a: Vec3, b: Vec3, t: real): (p: Vec3)
    ensures t <= 0.0 ==> p == a
    ensures t >= 1.0 ==> p == b
  {
    var u := if t < 0.0 then 0.0 else if t > 1.0 then 1.0 else t;
    Add(a, Scale(Sub(b, a), u))
  }

  /** The heuristic of `Node.destination`: the sum of the absolute coordinate
      differences. */
  function Manhattan(a: Vec3, b: Vec3): (h: real)
    ensures h >= 0.0
    ensures h == 0.0 <==> a == b
    ensures h == Abs(b.x - a.x) + Abs(b.y - a.y) + Abs(b.z - a.z)
  {
    Abs(a.x - b.x) + Abs(a.y - b.y) + Abs(a.z - b.z)
  }
}
