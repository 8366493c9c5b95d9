/** Rectangle algebra of the compositor: half-open pixel rectangles on an unbounded integer grid. */
module Geometry {
  import opened Basics

  datatype Rect = Rect(x: int, y: int, width: int, height: int)

  const EMPTY := Rect(0, 0, 0, 0)

  predicate Contains(r: Rect, x: int, y: int) {
    r.x <= x < r.x + r.width && r.y <= y < r.y + r.height
  }

  predicate Nonempty(r: Rect) {
    r.width > 0 && r.height > 0
  }

  predicate Inside(inner: Rect, outer: Rect) {
    && outer.x <= inner.x && inner.x + inner.width <= outer.x + outer.width
    && outer.y <= inner.y && inner.y + inner.height <= outer.y + outer.height
  }

  function Intersect(a: Rect, b: Rect): (r: Rect)
    ensures r.width > 0 <==> Nonempty(r)
  {
    var left, top := Max(a.x, b.x), Max(a.y, b.y);
    var right, bottom := Min(a.x + a.width, b.x + b.width), Min(a.y + a.height, b.y + b.height);
    if right <= left || bottom <= top then EMPTY else Rect(left, top, right - left, bottom - top)
  }

  /** The intersection holds exactly the common pixels, whatever the sign of the operands' sizes. */
  lemma IntersectIsCommonPixels(a: Rect, b: Rect)
    ensures forall x, y :: Contains(Intersect(a, b), x, y) <==> Contains(a, x, y) && Contains(b, x, y)
  {
  }

  function Unite(left: Rect, right: Rect): (u: Rect)
    ensures Nonempty(u) <==> Nonempty(left) || Nonempty(right)
  {
    if left.width <= 0 || left.height <= 0 then right
    else if right.width <= 0 || right.height <= 0 then left
    else
      var x, y := Min(left.x, right.x), Min(left.y, right.y);
      var endX := Max(left.x + left.width, right.x + right.width);
      var endY := Max(left.y + left.height, right.y + right.height);
      Rect(x, y, endX - x, endY - y)
  }

  /** The union covers both operands and stays inside every rectangle that holds both. */
  lemma UniteIsHull(left: Rect, right: Rect)
    ensures forall x, y :: Contains(left, x, y) || Contains(right, x, y) ==> Contains(Unite(left, right), x, y)
    ensures forall box :: Inside(left, box) && Inside(right, box) ==> Inside(Unite(left, right), box)
  {
  }
}
