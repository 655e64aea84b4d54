/** Control points: 2D vectors over the reals, with the vector operations that
    linear interpolation and weighted sums need (numpy's element-wise `+`, `-`
    and scalar `*` on a point of shape (2,)). */
module Points {

  datatype Point = Point(x: real, y: real)

  /** The zero vector. */
  const Zero: Point := Point(0.0, 0.0)

  function Add(a: Point, b: Point): Point {
    Point(a.x + b.x, a.y + b.y)
  }

  function Sub(a: Point, b: Point): Point {
    Point(a.x - b.x, a.y - b.y)
  }

  /** Scalar multiplication `c * a`. */
  function Scale(c: real, a: Point): Point {
    Point(c * a.x, c * a.y)
  }

  /** Scaling distributes over the sum of the scalars. */
  lemma ScaleDistributes(s: real, t: real, a: Point)
    ensures Add(Scale(s, a), Scale(t, a)) == Scale(s + t, a)
  {
  }
}
