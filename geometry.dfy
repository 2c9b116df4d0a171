/** Axis-aligned integer rectangles, in the `[left, top, right, bottom]`
    order the source uses for its lists. */
module Geometry {
  import opened Wrappers

  datatype Rect = Rect(left: int, top: int, right: int, bottom: int)

  /** The box of one character position: `None` is the source's empty list `[]`. */
  type CharBox = Option<Rect>

  function Min(a: int, b: int): int { if a <= b then a else b }

  function Max(a: int, b: int): int { if a >= b then a else b }

  /** `outer` covers `inner` in top-down image coordinates. */
  predicate Encloses(outer: Rect, inner: Rect)
  {
    outer.left <= inner.left && outer.top <= inner.top &&
    inner.right <= outer.right && inner.bottom <= outer.bottom
  }

  /** One step of the min/max fold: the smallest rectangle covering both. */
  function Union(a: Rect, b: Rect): (u: Rect)
    ensures Encloses(u, a) && Encloses(u, b)
    ensures forall c :: Encloses(c, a) && Encloses(c, b) ==> Encloses(c, u)
  {
    Rect(Min(a.left, b.left), Min(a.top, b.top), Max(a.right, b.right), Max(a.bottom, b.bottom))
  }
}
