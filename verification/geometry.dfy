/** Points, directions and axes in model space, with exact real coordinates. */
module Geometry {

  datatype Point = Point(x: real, y: real, z: real)

  /** An axis: a location and a direction (the direction is not normalised here). */
  datatype Axis = Axis(location: Point, direction: Point)

  const Origin: Point := Point(0.0, 0.0, 0.0)

  /** The x axis, the longitudinal axis of the tube. */
  const XDir: Point := Point(1.0, 0.0, 0.0)

  /** The z axis, the revolve direction of the arc sector. */
  const ZDir: Point := Point(0.0, 0.0, 1.0)

  /** Squared Euclidean distance; comparing it with tol * tol avoids a square root. */
  function Dist2(p: Point, q: Point): (d: real)
    ensures d >= 0.0
    ensures p == q ==> d == 0.0
  {
    var dx := p.x - q.x;
    var dy := p.y - q.y;
    var dz := p.z - q.z;
    SquareSign(dx);
    SquareSign(dy);
    SquareSign(dz);
    dx * dx + dy * dy + dz * dz
  }

  lemma SquareSign(a: real)
    ensures a * a >= 0.0
  {
    if a < 0.0 {
      assert a * a == (-a) * (-a);
    }
  }
}
