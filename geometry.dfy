/**
 * Hand keypoints and the distances between them.
 *
 * Coordinates are exact reals. Both classifiers compare a Euclidean distance
 * (computed with a square root) against a threshold; the model compares the
 * squared distance against the squared threshold instead, which
 * `SqrtThreshold` shows to be the same decision.
 */
module Geometry {

  /** One hand keypoint: frame-relative x and y, and depth z. */
  datatype Point = Point(x: real, y: real, z: real)

  function Square(a: real): (s: real)
    ensures s >= 0.0
  {
    a * a
  }

  /** Squared 3D Euclidean distance: `calculateDistance` in the browser, squared. */
  function SqDistance3(p: Point, q: Point): (d: real)
    ensures d >= 0.0
    ensures d >= Square(p.x - q.x) && d >= Square(p.y - q.y) && d >= Square(p.z - q.z)
  {
    Square(p.x - q.x) + Square(p.y - q.y) + Square(p.z - q.z)
  }

  /** Squared distance over x and y only: the distances of the server, squared. */
  function SqDistance2(p: Point, q: Point): (d: real)
    ensures d >= 0.0
    ensures d <= SqDistance3(p, q)
  {
    Square(p.x - q.x) + Square(p.y - q.y)
  }

  lemma ProductPositive(u: real, v: real)
    requires u > 0.0 && v > 0.0
    ensures u * v > 0.0
  {
  }

  /**
   * For a non-negative distance `d` whose square is `sq` and a non-negative
   * threshold `t`: `d < t` and `d > t` decide exactly as `sq < t * t` and
   * `sq > t * t`. So a rule written with a square root and the same rule
   * written with squares accept the same keypoints.
   */
  lemma SqrtThreshold(d: real, sq: real, t: real)
    requires 0.0 <= d && 0.0 <= t && d * d == sq
    ensures d < t <==> sq < t * t
    ensures d > t <==> sq > t * t
  {
    assert t * t - sq == (t - d) * (t + d);
    if d < t {
      ProductPositive(t - d, t + d);
    } else if d > t {
      ProductPositive(d - t, d + t);
    }
  }
}
