/** Berkelium's rectangle: an origin (left, top) and an extent (width, height).
    Right and bottom are exclusive bounds, so a rectangle holds the points
    left <= x < left + width, top <= y < top + height. */
module Rects {

  datatype Rect = Rect(left: int, top: int, width: int, height: int) {

    function Right(): int { left + width }

    function Bottom(): int { top + height }

    predicate Contains(x: int, y: int) {
      left <= x < Right() && top <= y < Bottom()
    }

    /** True if this rectangle's bounds lie within `outer`'s bounds. For a
        non-empty rectangle that means every point lies in `outer`; it is
        stronger for an empty one, whose corners must still lie in `outer`. */
    predicate Within(outer: Rect) {
      outer.left <= left && Right() <= outer.Right() &&
      outer.top <= top && Bottom() <= outer.Bottom()
    }

    /** Shifts both corners by (dx, dy). */
    function Translate(dx: int, dy: int): (r: Rect)
      ensures r.width == width && r.height == height
      ensures r.left - dx == left && r.top - dy == top
      ensures forall x, y {:trigger r.Contains(x, y)} :: r.Contains(x, y) <==> Contains(x - dx, y - dy)
    {
      Rect(left + dx, top + dy, width, height)
    }

    /** The overlap of two rectangles: largest left and top, smallest right
        and bottom; an empty overlap is the empty rectangle at the origin. */
    function Intersect(other: Rect): (r: Rect)
      ensures r.width >= 0 && r.height >= 0
      ensures forall x, y {:trigger r.Contains(x, y)} :: r.Contains(x, y) <==> Contains(x, y) && other.Contains(x, y)
      ensures r.width > 0 && r.height > 0 ==> r.Within(this) && r.Within(other)
      ensures r.width == 0 || r.height == 0 ==> r == Rect(0, 0, 0, 0)
    {
      var l := Max(left, other.left);
      var t := Max(top, other.top);
      var rr := Min(Right(), other.Right());
      var b := Min(Bottom(), other.Bottom());
      if l >= rr || t >= b then Rect(0, 0, 0, 0) else Rect(l, t, rr - l, b - t)
    }
  }

  function Max(a: int, b: int): int { if a < b then b else a }

  function Min(a: int, b: int): int { if a < b then a else b }

  /** The rectangle covering a whole w-by-h texture. */
  function FullRect(w: int, h: int): Rect { Rect(0, 0, w, h) }

  /** A rectangle with non-negative extent lying inside a w-by-h texture. */
  predicate InBounds(r: Rect, w: int, h: int) {
    0 <= r.width && 0 <= r.height && r.Within(FullRect(w, h))
  }
}
