/** Integer points and Android-style rectangles. */
module Geometry {

  /** A 2-D integer point (a `ViewPoint` or a `WorkspacePoint`). */
  datatype Point = Point(x: int, y: int)

  function Add(p: Point, q: Point): Point {
    Point(p.x + q.x, p.y + q.y)
  }

  function Sub(p: Point, q: Point): Point {
    Point(p.x - q.x, p.y - q.y)
  }

  const Origin: Point := Point(0, 0)

  /** An `android.graphics.Rect`: left and top inclusive, right and bottom
      exclusive. */
  datatype Rect = Rect(left: int, top: int, right: int, bottom: int)

  /** What `Rect.setEmpty()` leaves behind. */
  const EmptyRect: Rect := Rect(0, 0, 0, 0)

  /** `Rect.isEmpty()`: no area. */
  predicate IsEmpty(r: Rect) {
    r.left >= r.right || r.top >= r.bottom
  }

  /** `outer` covers every point of `inner`. */
  predicate Contains(outer: Rect, inner: Rect) {
    outer.left <= inner.left && outer.top <= inner.top
    && inner.right <= outer.right && inner.bottom <= outer.bottom
  }

  /** `Rect.union(l, t, r, b)`: an empty argument is ignored; into an empty
      rectangle the argument is copied; otherwise each edge is widened just
      enough, so the result is the smallest rectangle containing both. */
  function Union(r: Rect, other: Rect): (u: Rect)
    ensures IsEmpty(other) ==> u == r
    ensures !IsEmpty(other) ==> !IsEmpty(u) && Contains(u, other)
    ensures !IsEmpty(other) && !IsEmpty(r) ==> Contains(u, r)
    ensures !IsEmpty(other) && !IsEmpty(r) ==>
              && (u.left == r.left || u.left == other.left)
              && (u.top == r.top || u.top == other.top)
              && (u.right == r.right || u.right == other.right)
              && (u.bottom == r.bottom || u.bottom == other.bottom)
    ensures !IsEmpty(other) && IsEmpty(r) ==> u == other
  {
    if IsEmpty(other) then r
    else if IsEmpty(r) then other
    else Rect(if r.left > other.left then other.left else r.left,
              if r.top > other.top then other.top else r.top,
              if r.right < other.right then other.right else r.right,
              if r.bottom < other.bottom then other.bottom else r.bottom)
  }
}
