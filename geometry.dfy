/** Integer points and rectangles with the java.awt.Rectangle rules that the
    spanning table relies on (add, union, intersects, intersection), and Java's
    truncating integer division by two. */
module Geometry {

  datatype Point = Point(x: int, y: int)

  /** A java.awt.Rectangle: top-left corner and size. */
  datatype Rect = Rect(x: int, y: int, width: int, height: int)

  function Min(a: int, b: int): int { if a <= b then a else b }

  function Max(a: int, b: int): int { if a >= b then a else b }

  /** Java's `n / 2`, which truncates toward zero; Dafny's `/` is Euclidean. */
  function Half(n: int): (h: int)
    ensures 0 <= n ==> 0 <= h + h <= n < h + h + 2
    ensures n < 0 ==> h + h - 2 < n <= h + h <= 0
  {
    if n >= 0 then n / 2 else -((-n) / 2)
  }

  /** A rectangle that `add` and `union` take into account: neither dimension
      is negative. */
  predicate Present(r: Rect)
  {
    r.width >= 0 && r.height >= 0
  }

  /** `outer` covers all of `inner`. */
  predicate Contains(outer: Rect, inner: Rect)
  {
    outer.x <= inner.x && inner.x + inner.width <= outer.x + outer.width &&
    outer.y <= inner.y && inner.y + inner.height <= outer.y + outer.height
  }

  /** `new Rectangle(-1, -1)`: the accumulator before anything is added to it. */
  const NoRect: Rect := Rect(0, 0, -1, -1)

  /** `a.add(r)`: an absent receiver is replaced by `r`, an absent `r` leaves
      the receiver, and otherwise the result is the smallest rectangle
      covering both. `a.union(r)` gives the same rectangle whenever the
      receiver is present or has both dimensions negative, as every receiver
      the spanning table builds does; `add` on a receiver with exactly one
      negative dimension keeps that stale dimension in its bounds, which is
      not modelled. */
  function Add(a: Rect, r: Rect): (s: Rect)
    ensures Present(s) <==> Present(a) || Present(r)
    ensures Present(a) ==> Contains(s, a)
    ensures Present(r) ==> Contains(s, r)
    ensures !Present(r) ==> s == (if Present(a) then a else r)
    ensures !Present(a) ==> s == r
    ensures Present(a) && Present(r) ==>
      s.x == Min(a.x, r.x) && s.y == Min(a.y, r.y) &&
      s.x + s.width == Max(a.x + a.width, r.x + r.width) &&
      s.y + s.height == Max(a.y + a.height, r.y + r.height)
  {
    var t := if Present(a) then a else r;
    if !Present(r) then t
    else
      var x1 := Min(t.x, r.x);
      var y1 := Min(t.y, r.y);
      Rect(x1, y1, Max(t.x + t.width, r.x + r.width) - x1, Max(t.y + t.height, r.y + r.height) - y1)
  }

  lemma ContainsTransitive(a: Rect, b: Rect, c: Rect)
    requires Contains(a, b) && Contains(b, c)
    ensures Contains(a, c)
  {
  }

  /** `a.intersects(b)`: both have a positive area and they overlap. */
  predicate Intersects(a: Rect, b: Rect)
  {
    a.width > 0 && a.height > 0 && b.width > 0 && b.height > 0 &&
    b.x + b.width > a.x && b.y + b.height > a.y &&
    a.x + a.width > b.x && a.y + a.height > b.y
  }

  /** `a.intersection(b)`: the overlap, with a negative size when there is none. */
  function Intersection(a: Rect, b: Rect): (s: Rect)
    ensures Intersects(a, b) ==> Present(s) && Contains(a, s) && Contains(b, s)
    ensures Intersects(a, b) ==> s.width > 0 && s.height > 0
  {
    var x1 := Max(a.x, b.x);
    var y1 := Max(a.y, b.y);
    Rect(x1, y1, Min(a.x + a.width, b.x + b.width) - x1, Min(a.y + a.height, b.y + b.height) - y1)
  }
}
