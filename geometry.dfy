/** Pixel coordinates of detections and the distance test used to merge them. */
module Geometry {

  /** A detection: an integer pixel position (column x, row y) in the target image. */
  datatype Point = Point(x: int, y: int)

  /** Two detections at most this many pixels apart are the same object. */
  const RADIUS: int := 10

  /** The radius squared, so that the distance test stays in integers. */
  const RADIUS_SQ: int := RADIUS * RADIUS

  /** Squared Euclidean distance between two pixel positions. */
  function SqDistance(p: Point, q: Point): (d: int)
    ensures d >= 0
    ensures d == 0 <==> p == q
  {
    var dx := p.x - q.x;
    var dy := p.y - q.y;
    assert dx * dx >= 0 && dy * dy >= 0;
    assert dx * dx == 0 ==> dx == 0;
    assert dy * dy == 0 ==> dy == 0;
    dx * dx + dy * dy
  }

  /**
   * `distance <= 10` on the Euclidean distance. For integer coordinates the
   * squares are exact, the square root is monotone and the square root of
   * 100 is exactly 10, so this is the same as the squared test.
   */
  predicate Near(p: Point, q: Point) {
    SqDistance(p, q) <= RADIUS_SQ
  }

  lemma NearSymmetric(p: Point, q: Point)
    ensures Near(p, q) <==> Near(q, p)
    ensures SqDistance(p, q) == SqDistance(q, p)
  {
  }
}
