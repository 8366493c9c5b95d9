/** The damage region and the back-to-front window stack of the compositor. */
module Compositor {
  import opened Geometry

  // ---- window chrome -------------------------------------------------------

  const TITLE_HEIGHT := 30

  datatype WindowChrome = WindowChrome(
    outer: Rect, damage: Rect, shadow: Rect, titlebar: Rect, content: Rect,
    closeButton: Rect, resizeHandle: Rect)

  /** Every decoration of a window at least 27 pixels wide lies inside its damage rectangle,
      and the title bar and content tile the outer rectangle. */
  function Chrome(x: int, y: int, contentWidth: int, contentHeight: int): (c: WindowChrome)
    ensures Inside(c.outer, c.damage) && Inside(c.shadow, c.damage)
    ensures forall px, py ::
              Contains(c.outer, px, py) && contentHeight >= 0
              ==> (Contains(c.titlebar, px, py) <==> !Contains(c.content, px, py))
    ensures contentWidth >= 27 && contentHeight >= 0 ==>
              Inside(c.closeButton, c.titlebar) && Inside(c.resizeHandle, c.outer)
  {
    var outerHeight := contentHeight + TITLE_HEIGHT;
    WindowChrome(
      Rect(x, y, contentWidth, outerHeight),
      Rect(x, y, contentWidth + 5, outerHeight + 6),
      Rect(x + 3, y + 4, contentWidth + 2, outerHeight + 2),
      Rect(x, y, contentWidth, TITLE_HEIGHT),
      Rect(x, y + TITLE_HEIGHT, contentWidth, contentHeight),
      Rect(x + contentWidth - 27, y + 6, 20, 18),
      Rect(x + contentWidth - 14, y + outerHeight - 14, 14, 14))
  }

  // ---- damage region -------------------------------------------------------

  predicate Covered(rects: seq<Rect>, x: int, y: int) {
    exists i :: 0 <= i < |rects| && Contains(rects[i], x, y)
  }

  lemma CoveredAt(rects: seq<Rect>, k: nat, x: int, y: int)
    requires k < |rects| && Contains(rects[k], x, y)
    ensures Covered(rects, x, y)
  {
  }

  /** The index of the first stored rectangle that overlaps `rect`, or the length if there is none. */
  function FirstOverlap(rects: seq<Rect>, rect: Rect): (i: nat)
    ensures i <= |rects|
  {
    if rects == [] || Intersect(rects[0], rect).width > 0 then 0
    else 1 + FirstOverlap(rects[1..], rect)
  }

  lemma {:induction false} FirstOverlapIsFirst(rects: seq<Rect>, rect: Rect, i: nat)
    requires i <= |rects|
    requires forall j :: 0 <= j < i ==> Intersect(rects[j], rect).width <= 0
    requires i < |rects| ==> Intersect(rects[i], rect).width > 0
    ensures FirstOverlap(rects, rect) == i
  {
    if i > 0 { FirstOverlapIsFirst(rects[1..], rect, i - 1); }
  }

  /** The region after one invalidation: merge into the first overlap, else append, else widen the last. */
  function Invalidated(rects: seq<Rect>, capacity: nat, rect: Rect): (r: seq<Rect>)
    requires |rects| <= capacity && capacity >= 1
    ensures |r| <= capacity
  {
    var i := FirstOverlap(rects, rect);
    if rect.width <= 0 || rect.height <= 0 then rects
    else if i < |rects| then rects[i := Unite(rects[i], rect)]
    else if |rects| < capacity then rects + [rect]
    else rects[capacity - 1 := Unite(rects[capacity - 1], rect)]
  }

  /** No stored pixel is lost and the new rectangle is covered. */
  lemma InvalidatedCovers(rects: seq<Rect>, capacity: nat, rect: Rect, x: int, y: int)
    requires |rects| <= capacity && capacity >= 1
    requires Covered(rects, x, y) || Contains(rect, x, y)
    ensures Covered(Invalidated(rects, capacity, rect), x, y)
  {
    var r, n := Invalidated(rects, capacity, rect), |rects|;
    var i := FirstOverlap(rects, rect);
    if i < n { UniteIsHull(rects[i], rect); } else if 0 < n { UniteIsHull(rects[n - 1], rect); }
    if Covered(rects, x, y) {
      var k :| 0 <= k < |rects| && Contains(rects[k], x, y);
      assert Contains(r[k], x, y);
    } else {
      assert Contains(r[if i < |rects| then i else |r| - 1], x, y);
    }
  }

  /** The region never grows beyond the hull of what was invalidated. */
  lemma InvalidatedStaysInHull(rects: seq<Rect>, capacity: nat, rect: Rect, hull: Rect)
    requires |rects| <= capacity && capacity >= 1
    requires forall i :: 0 <= i < |rects| ==> Inside(rects[i], hull)
    requires Inside(rect, hull)
    ensures forall i :: 0 <= i < |Invalidated(rects, capacity, rect)|
                        ==> Inside(Invalidated(rects, capacity, rect)[i], hull)
  {
    var i, last := FirstOverlap(rects, rect), |rects| - 1;
    if i < |rects| { UniteIsHull(rects[i], rect); }
    if 0 <= last { UniteIsHull(rects[last], rect); }
  }

  /** Two rectangles have a pixel in common. */
  ghost predicate Overlap(a: Rect, b: Rect) {
    exists x, y :: Contains(a, x, y) && Contains(b, x, y)
  }

  lemma OverlapIsIntersect(a: Rect, b: Rect)
    ensures Overlap(a, b) <==> Intersect(a, b).width > 0
  {
    var c := Intersect(a, b);
    IntersectIsCommonPixels(a, b);
    if Overlap(a, b) {
      var x, y :| Contains(a, x, y) && Contains(b, x, y);
      assert Contains(c, x, y);
    }
    if c.width > 0 { assert Contains(c, c.x, c.y); }
  }

  /** Something new and apart from all that is stored is stored by itself while there is room; otherwise it is united
      with the first stored rectangle that it overlaps, or with the last one, and the others stay as they are. */
  lemma InvalidatedApart(rects: seq<Rect>, capacity: nat, rect: Rect, i: nat)
    requires |rects| <= capacity && capacity >= 1 && Nonempty(rect) && i <= |rects|
    requires forall j :: 0 <= j < i ==> !Overlap(rects[j], rect)
    ensures i == |rects| < capacity ==> Invalidated(rects, capacity, rect) == rects + [rect]
    ensures i < |rects| && Overlap(rects[i], rect) ==>
              Invalidated(rects, capacity, rect) == rects[i := Unite(rects[i], rect)]
    ensures i == |rects| == capacity ==>
              Invalidated(rects, capacity, rect) == rects[i - 1 := Unite(rects[i - 1], rect)]
  {
    forall j | 0 <= j < i ensures Intersect(rects[j], rect).width <= 0 { OverlapIsIntersect(rects[j], rect); }
    if i < |rects| { OverlapIsIntersect(rects[i], rect); }
    if i == |rects| || Overlap(rects[i], rect) { FirstOverlapIsFirst(rects, rect, i); }
  }

  function InvalidatedAll(rects: seq<Rect>, capacity: nat, more: seq<Rect>): (r: seq<Rect>)
    requires |rects| <= capacity && capacity >= 1
    ensures |r| <= capacity
    decreases |more|
  {
    if more == [] then rects
    else InvalidatedAll(Invalidated(rects, capacity, more[0]), capacity, more[1..])
  }

  lemma InvalidatedTwo(rects: seq<Rect>, capacity: nat, a: Rect, b: Rect)
    requires |rects| <= capacity && capacity >= 1
    ensures InvalidatedAll(rects, capacity, [a]) == Invalidated(rects, capacity, a)
    ensures InvalidatedAll(rects, capacity, [a, b])
         == Invalidated(Invalidated(rects, capacity, a), capacity, b)
  {
    assert [a][1..] == [] && [a, b][1..] == [b] && [b][1..] == [];
    assert InvalidatedAll(Invalidated(rects, capacity, a), capacity, [b])
        == InvalidatedAll(Invalidated(Invalidated(rects, capacity, a), capacity, b), capacity, []);
  }

  lemma InvalidatedThree(rects: seq<Rect>, capacity: nat, a: Rect, b: Rect, c: Rect)
    requires |rects| <= capacity && capacity >= 1
    ensures InvalidatedAll(rects, capacity, [a, b, c])
         == Invalidated(Invalidated(Invalidated(rects, capacity, a), capacity, b), capacity, c)
  {
    assert [a, b, c][1..] == [b, c];
    InvalidatedTwo(Invalidated(rects, capacity, a), capacity, b, c);
  }

  lemma {:induction false} InvalidatedAllCovers(rects: seq<Rect>, capacity: nat, more: seq<Rect>, x: int, y: int)
    requires |rects| <= capacity && capacity >= 1
    requires Covered(rects, x, y) || Covered(more, x, y)
    ensures Covered(InvalidatedAll(rects, capacity, more), x, y)
    decreases |more|
  {
    if more != [] {
      if Covered(rects, x, y) || Contains(more[0], x, y) {
        InvalidatedCovers(rects, capacity, more[0], x, y);
      } else {
        var k :| 0 <= k < |more| && Contains(more[k], x, y);
        assert Contains(more[1..][k - 1], x, y);
      }
      InvalidatedAllCovers(Invalidated(rects, capacity, more[0]), capacity, more[1..], x, y);
    }
  }

  class DamageRegion {
    const capacity: nat
    const rects: array<Rect>
    var count: nat

    ghost predicate Valid() reads this {
      1 <= capacity == rects.Length && count <= capacity
    }

    function Stored(): seq<Rect>
      requires Valid()
      reads this, rects
    {
      rects[..count]
    }

    constructor (capacity: nat)
      requires capacity >= 1
      ensures Valid() && fresh(rects) && this.capacity == capacity && Stored() == []
    {
      this.capacity := capacity;
      rects := new Rect[capacity](_ => EMPTY);
      count := 0;
    }

    method Invalidate(rect: Rect)
      requires Valid()
      modifies this, rects
      ensures Valid()
      ensures Stored() == Invalidated(old(Stored()), capacity, rect)
    {
      if rect.width <= 0 || rect.height <= 0 { return; }
      ghost var was := Stored();
      var i := 0;
      while i < count
        invariant i <= count && Stored() == was && unchanged(this)
        invariant forall j :: 0 <= j < i ==> Intersect(was[j], rect).width <= 0
      {
        if Intersect(rects[i], rect).width > 0 {
          FirstOverlapIsFirst(was, rect, i);
          rects[i] := Unite(rects[i], rect);
          assert Stored() == was[i := Unite(was[i], rect)];
          return;
        }
        i := i + 1;
      }
      FirstOverlapIsFirst(was, rect, count);
      if count < capacity {
        rects[count] := rect;
        count := count + 1;
        assert Stored() == was + [rect];
      } else {
        rects[capacity - 1] := Unite(rects[capacity - 1], rect);
        assert Stored() == was[capacity - 1 := Unite(was[capacity - 1], rect)];
      }
    }

    method Clear()
      requires Valid()
      modifies this
      ensures Valid() && Stored() == []
    {
      count := 0;
    }
  }

  // ---- window stack --------------------------------------------------------

  datatype Op<Item> = Push(item: Item) | Raise(index: nat) | Erase(index: nat)

  /** The stack after an operation; an operation that the code refuses leaves it alone. */
  function Restacked<Item>(items: seq<Item>, capacity: nat, op: Op<Item>): (r: seq<Item>)
    ensures |items| <= capacity ==> |r| <= capacity
  {
    match op
    case Push(item) => if |items| >= capacity then items else items + [item]
    case Raise(i) =>
      if i >= |items| || i + 1 == |items| then items else items[..i] + items[i + 1..] + [items[i]]
    case Erase(i) => if i >= |items| then items else items[..i] + items[i + 1..]
  }

  lemma RestackedAt<Item>(items: seq<Item>, capacity: nat, i: nat)
    requires i < |items|
    ensures var r := Restacked(items, capacity, Op.Raise(i));
            |r| == |items| && r[|r| - 1] == items[i]
            && forall k :: 0 <= k < |r| - 1 ==> r[k] == items[if k < i then k else k + 1]
    ensures var r := Restacked(items, capacity, Op.Erase(i));
            |r| == |items| - 1 && forall k :: 0 <= k < |r| ==> r[k] == items[if k < i then k else k + 1]
  {
  }

  /** A new window goes on top of the others, if there is room. */
  lemma PushedIsOnTop<Item>(items: seq<Item>, capacity: nat, item: Item)
    ensures var r := Restacked(items, capacity, Op.Push(item));
            if |items| < capacity
            then |r| == |items| + 1 && r[|items|] == item && r[..|items|] == items
            else r == items
  {
  }

  /** Raising only reorders the stack. */
  lemma RaiseKeepsWindows<Item>(items: seq<Item>, capacity: nat, i: nat)
    ensures multiset(Restacked(items, capacity, Op.Raise(i))) == multiset(items)
  {
    if i + 1 < |items| {
      assert items == items[..i] + [items[i]] + items[i + 1..];
    }
  }

  /** What an operation invalidates, in order. */
  function Dirtied<Item>(items: seq<Item>, capacity: nat, bounds: Item -> Rect, op: Op<Item>): seq<Rect> {
    var n := |items|;
    match op
    case Push(item) =>
      if n >= capacity then []
      else if n == 0 then [bounds(item)]
      else [bounds(items[n - 1]), bounds(item)]
    case Raise(i) =>
      if i >= n || i + 1 == n then []
      else [bounds(items[n - 1]), bounds(items[i]), bounds(items[i])]
    case Erase(i) =>
      if i >= n then []
      else if i + 1 == n && n > 1 then [bounds(items[i]), bounds(items[n - 2])]
      else [bounds(items[i])]
  }

  /** Nothing is invalidated but the bounds of the window concerned and of those that lose or gain the focus. */
  lemma DirtiedIsTight<Item>(items: seq<Item>, capacity: nat, bounds: Item -> Rect, op: Op<Item>, r: Rect)
    requires r in Dirtied(items, capacity, bounds, op)
    ensures var n := |items|;
            || (op.Push? && r == bounds(op.item))
            || (!op.Push? && op.index < n && r == bounds(items[op.index]))
            || (n > 0 && r == bounds(items[n - 1]) && (op.Erase? ==> op.index == n - 1))
            || (n > 1 && op.Erase? && op.index == n - 1 && r == bounds(items[n - 2]))
  {
  }

  /** The window over a pixel, with a focus flag, if it covers the pixel. */
  function At<Item>(item: Item, focused: bool, bounds: Item -> Rect, x: int, y: int): seq<(Item, bool)> {
    if Contains(bounds(item), x, y) then [(item, focused)] else []
  }

  /** The windows over a pixel, back to front, none of them focused. */
  function Under<Item>(items: seq<Item>, bounds: Item -> Rect, x: int, y: int): seq<(Item, bool)> {
    if items == [] then [] else At(items[0], false, bounds, x, y) + Under(items[1..], bounds, x, y)
  }

  /** What the screen shows at a pixel: its covering windows back to front, each with its focus flag.
      Only the top of the stack has the focus. */
  function Appearance<Item>(items: seq<Item>, bounds: Item -> Rect, x: int, y: int): seq<(Item, bool)> {
    if items == [] then []
    else
      var n := |items| - 1;
      Under(items[..n], bounds, x, y) + At(items[n], true, bounds, x, y)
  }

  lemma {:induction false} UnderConcat<Item>(a: seq<Item>, b: seq<Item>, bounds: Item -> Rect, x: int, y: int)
    ensures Under(a + b, bounds, x, y) == Under(a, bounds, x, y) + Under(b, bounds, x, y)
  {
    if a == [] {
      assert a + b == b;
    } else {
      assert (a + b)[1..] == a[1..] + b;
      UnderConcat(a[1..], b, bounds, x, y);
    }
  }

  /** A window away from the pixel can be taken out of the unfocused part unseen. */
  lemma UnderSkips<Item>(a: seq<Item>, s: Item, b: seq<Item>, bounds: Item -> Rect, x: int, y: int)
    requires !Contains(bounds(s), x, y)
    ensures Under(a + [s] + b, bounds, x, y) == Under(a + b, bounds, x, y)
  {
    assert a + [s] + b == a + ([s] + b) && ([s] + b)[1..] == b;
    UnderConcat(a, [s] + b, bounds, x, y);
    UnderConcat(a, b, bounds, x, y);
  }

  lemma AppearanceOnTop<Item>(a: seq<Item>, top: Item, bounds: Item -> Rect, x: int, y: int)
    ensures Appearance(a + [top], bounds, x, y) == Under(a, bounds, x, y) + At(top, true, bounds, x, y)
  {
    assert (a + [top])[..|a|] == a;
  }

  lemma PushChange<Item>(a: seq<Item>, t: Item, item: Item, bounds: Item -> Rect, x: int, y: int)
    requires !Contains(bounds(item), x, y) && !Contains(bounds(t), x, y)
    ensures Appearance(a + [t] + [item], bounds, x, y) == Appearance(a + [t], bounds, x, y)
  {
    AppearanceOnTop(a, t, bounds, x, y);
    AppearanceOnTop(a + [t], item, bounds, x, y);
    UnderSkips(a, t, [], bounds, x, y);
    assert a + [t] + [] == a + [t] && a + [] == a;
  }

  lemma RaiseChange<Item>(a: seq<Item>, s: Item, b: seq<Item>, t: Item, bounds: Item -> Rect, x: int, y: int)
    requires !Contains(bounds(s), x, y) && !Contains(bounds(t), x, y)
    ensures Appearance(a + b + [t] + [s], bounds, x, y) == Appearance(a + [s] + b + [t], bounds, x, y)
  {
    AppearanceOnTop(a + [s] + b, t, bounds, x, y);
    UnderSkips(a, s, b, bounds, x, y);
    AppearanceOnTop(a + b, t, bounds, x, y);
    PushChange(a + b, t, s, bounds, x, y);
  }

  lemma EraseChange<Item>(a: seq<Item>, s: Item, b: seq<Item>, t: Item, bounds: Item -> Rect, x: int, y: int)
    requires !Contains(bounds(s), x, y)
    ensures Appearance(a + b + [t], bounds, x, y) == Appearance(a + [s] + b + [t], bounds, x, y)
  {
    AppearanceOnTop(a + [s] + b, t, bounds, x, y);
    UnderSkips(a, s, b, bounds, x, y);
    AppearanceOnTop(a + b, t, bounds, x, y);
  }

  /** A stack whose window `i` is not on top: what is below it, what is between it and the top. */
  lemma SplitAt<Item>(items: seq<Item>, i: nat) returns (a: seq<Item>, b: seq<Item>)
    requires i + 1 < |items|
    ensures a == items[..i] && b == items[i + 1..|items| - 1]
    ensures items == a + [items[i]] + b + [items[|items| - 1]]
    ensures items[i + 1..] == b + [items[|items| - 1]]
  {
    a, b := items[..i], items[i + 1..|items| - 1];
    assert items[i + 1..] == b + [items[|items| - 1]];
    assert items == a + [items[i]] + items[i + 1..];
    assert a + [items[i]] + (b + [items[|items| - 1]]) == a + [items[i]] + b + [items[|items| - 1]];
  }

  lemma PushIsDirtied<Item>(items: seq<Item>, capacity: nat, bounds: Item -> Rect, item: Item, x: int, y: int)
    ensures || Appearance(Restacked(items, capacity, Op.Push(item)), bounds, x, y) == Appearance(items, bounds, x, y)
            || Covered(Dirtied(items, capacity, bounds, Op.Push(item)), x, y)
  {
    if |items| < capacity {
      var d, n := Dirtied(items, capacity, bounds, Op.Push(item)), |items|;
      if Contains(bounds(item), x, y) {
        CoveredAt(d, |d| - 1, x, y);
      } else if n == 0 {
        AppearanceOnTop([], item, bounds, x, y);
        assert items + [item] == [] + [item];
      } else if Contains(bounds(items[n - 1]), x, y) {
        CoveredAt(d, 0, x, y);
      } else {
        assert items == items[..n - 1] + [items[n - 1]];
        PushChange(items[..n - 1], items[n - 1], item, bounds, x, y);
      }
    }
  }

  lemma RaiseIsDirtied<Item>(items: seq<Item>, capacity: nat, bounds: Item -> Rect, i: nat, x: int, y: int)
    ensures || Appearance(Restacked(items, capacity, Op.Raise(i)), bounds, x, y) == Appearance(items, bounds, x, y)
            || Covered(Dirtied(items, capacity, bounds, Op.Raise(i)), x, y)
  {
    if i + 1 < |items| {
      var d, t := Dirtied(items, capacity, bounds, Op.Raise(i)), items[|items| - 1];
      if Contains(bounds(items[i]), x, y) {
        CoveredAt(d, 1, x, y);
      } else if Contains(bounds(t), x, y) {
        CoveredAt(d, 0, x, y);
      } else {
        var a, b := SplitAt(items, i);
        RaiseChange(a, items[i], b, t, bounds, x, y);
        assert a + (b + [t]) + [items[i]] == a + b + [t] + [items[i]];
      }
    }
  }

  lemma EraseIsDirtied<Item>(items: seq<Item>, capacity: nat, bounds: Item -> Rect, i: nat, x: int, y: int)
    ensures || Appearance(Restacked(items, capacity, Op.Erase(i)), bounds, x, y) == Appearance(items, bounds, x, y)
            || Covered(Dirtied(items, capacity, bounds, Op.Erase(i)), x, y)
  {
    if i < |items| {
      var d, n := Dirtied(items, capacity, bounds, Op.Erase(i)), |items|;
      if Contains(bounds(items[i]), x, y) {
        CoveredAt(d, 0, x, y);
      } else if i + 1 < n {
        var a, b := SplitAt(items, i);
        EraseChange(a, items[i], b, items[n - 1], bounds, x, y);
        assert a + (b + [items[n - 1]]) == a + b + [items[n - 1]];
      } else if n == 1 {
        AppearanceOnTop([], items[0], bounds, x, y);
        assert items == [] + [items[0]] && items[..0] + items[1..] == [];
      } else if Contains(bounds(items[n - 2]), x, y) {
        CoveredAt(d, 1, x, y);
      } else {
        var a := items[..n - 2];
        assert items == a + [items[n - 2]] + [items[n - 1]];
        assert items[..i] + items[i + 1..] == a + [items[n - 2]];
        PushChange(a, items[n - 2], items[n - 1], bounds, x, y);
      }
    }
  }

  /** One operation: a pixel whose appearance changes lies in a rectangle the operation invalidates. */
  lemma ChangeIsDirtied<Item>(items: seq<Item>, capacity: nat, bounds: Item -> Rect, op: Op<Item>, x: int, y: int)
    ensures || Appearance(Restacked(items, capacity, op), bounds, x, y) == Appearance(items, bounds, x, y)
            || Covered(Dirtied(items, capacity, bounds, op), x, y)
  {
    match op {
      case Push(item) => PushIsDirtied(items, capacity, bounds, item, x, y);
      case Raise(i) => RaiseIsDirtied(items, capacity, bounds, i, x, y);
      case Erase(i) => EraseIsDirtied(items, capacity, bounds, i, x, y);
    }
  }

  /** A stack together with the damage region its operations share. */
  datatype Scene<Item> = Scene(items: seq<Item>, damage: seq<Rect>)

  function Step<Item>(
    s: Scene<Item>, capacity: nat, damageCapacity: nat, bounds: Item -> Rect, op: Op<Item>): Scene<Item>
    requires |s.damage| <= damageCapacity && damageCapacity >= 1
    ensures |Step(s, capacity, damageCapacity, bounds, op).damage| <= damageCapacity
  {
    Scene(Restacked(s.items, capacity, op),
          InvalidatedAll(s.damage, damageCapacity, Dirtied(s.items, capacity, bounds, op)))
  }

  function Run<Item>(
    s: Scene<Item>, capacity: nat, damageCapacity: nat, bounds: Item -> Rect, ops: seq<Op<Item>>): Scene<Item>
    requires |s.damage| <= damageCapacity && damageCapacity >= 1
    ensures |Run(s, capacity, damageCapacity, bounds, ops).damage| <= damageCapacity
    decreases |ops|
  {
    if ops == [] then s
    else Run(Step(s, capacity, damageCapacity, bounds, ops[0]), capacity, damageCapacity, bounds, ops[1..])
  }

  lemma {:induction false} DamagePersists<Item>(
    s: Scene<Item>, capacity: nat, damageCapacity: nat, bounds: Item -> Rect, ops: seq<Op<Item>>, x: int, y: int)
    requires |s.damage| <= damageCapacity && damageCapacity >= 1
    requires Covered(s.damage, x, y)
    ensures Covered(Run(s, capacity, damageCapacity, bounds, ops).damage, x, y)
    decreases |ops|
  {
    if ops != [] {
      InvalidatedAllCovers(s.damage, damageCapacity, Dirtied(s.items, capacity, bounds, ops[0]), x, y);
      var next := Step(s, capacity, damageCapacity, bounds, ops[0]);
      DamagePersists(next, capacity, damageCapacity, bounds, ops[1..], x, y);
    }
  }

  /** Damage soundness over whole runs: if the appearance of a pixel changes at step k, the pixel lies
      in a stored rectangle at the end, for a region of any capacity. */
  lemma {:induction false} DamageSound<Item>(
    s: Scene<Item>, capacity: nat, damageCapacity: nat, bounds: Item -> Rect, ops: seq<Op<Item>>, k: nat, x: int,
    y: int)
    requires |s.damage| <= damageCapacity && damageCapacity >= 1
    requires k < |ops|
    ensures var before := Run(s, capacity, damageCapacity, bounds, ops[..k]).items;
            || Appearance(before, bounds, x, y) == Appearance(Restacked(before, capacity, ops[k]), bounds, x, y)
            || Covered(Run(s, capacity, damageCapacity, bounds, ops).damage, x, y)
    decreases k
  {
    hide Appearance, Covered, Dirtied, Restacked, InvalidatedAll;
    var next := Step(s, capacity, damageCapacity, bounds, ops[0]);
    if k == 0 {
      ChangeIsDirtied(s.items, capacity, bounds, ops[0], x, y);
      if Covered(Dirtied(s.items, capacity, bounds, ops[0]), x, y) {
        InvalidatedAllCovers(s.damage, damageCapacity, Dirtied(s.items, capacity, bounds, ops[0]), x, y);
        DamagePersists(next, capacity, damageCapacity, bounds, ops[1..], x, y);
      }
    } else {
      assert ops[..k][0] == ops[0] && ops[..k][1..] == ops[1..][..k - 1];
      DamageSound(next, capacity, damageCapacity, bounds, ops[1..], k - 1, x, y);
    }
  }

  lemma RaiseIsDone<Item>(items: seq<Item>, capacity: nat, bounds: Item -> Rect, i: nat)
    ensures Dirtied(items, capacity, bounds, Op.Raise(i))
            == if i + 1 < |items| then [bounds(items[|items| - 1]), bounds(items[i]), bounds(items[i])] else []
    ensures i + 1 >= |items| ==> Restacked(items, capacity, Op.Raise(i)) == items
  {
  }

  lemma NothingInvalidated(rects: seq<Rect>, capacity: nat)
    requires |rects| <= capacity && capacity >= 1
    ensures InvalidatedAll(rects, capacity, []) == rects
  {
  }

  class WindowStack<Item(0)> {
    const capacity: nat
    const items: array<Item>
    var count: nat

    ghost predicate Valid() reads this {
      items.Length == capacity && count <= capacity
    }

    function Items(): seq<Item>
      requires Valid()
      reads this, items
    {
      items[..count]
    }

    constructor (capacity: nat)
      ensures Valid() && fresh(items) && this.capacity == capacity && Items() == []
    {
      this.capacity := capacity;
      items := new Item[capacity];
      count := 0;
    }

    method Push(item: Item, bounds: Item -> Rect, damage: DamageRegion) returns (ok: bool)
      requires Valid() && damage.Valid() && damage.rects as object != items
      modifies this, items, damage, damage.rects
      ensures Valid() && damage.Valid()
      ensures ok <==> old(count) < capacity
      ensures Items() == Restacked(old(Items()), capacity, Op.Push(item))
      ensures damage.Stored() == InvalidatedAll(old(damage.Stored()), damage.capacity,
                                                Dirtied(old(Items()), capacity, bounds, Op.Push(item)))
    {
      if count == capacity { return false; }
      ghost var was, dirt := Items(), Dirtied(Items(), capacity, bounds, Op.Push(item));
      InvalidatedTwo(damage.Stored(), damage.capacity, dirt[0], bounds(item));
      if count != 0 {
        damage.Invalidate(bounds(items[count - 1]));
      }
      items[count] := item;
      count := count + 1;
      damage.Invalidate(bounds(items[count - 1]));
      assert Items() == was + [item];
      return true;
    }

    /** Shift the items after `index` down by one; the last slot keeps its value. */
    method CloseGap(index: nat)
      requires Valid() && index < count
      modifies items
      ensures forall k :: 0 <= k < index ==> items[k] == old(items[k])
      ensures forall k :: index <= k < count - 1 ==> items[k] == old(items[k + 1])
    {
      var i := index;
      while i + 1 < count
        invariant index <= i < count
        invariant forall k :: 0 <= k < index ==> items[k] == old(items[k])
        invariant forall k :: index <= k < i ==> items[k] == old(items[k + 1])
        invariant forall k :: i <= k < count ==> items[k] == old(items[k])
      {
        items[i] := items[i + 1];
        i := i + 1;
      }
    }

    method MoveToTop(index: nat)
      requires Valid() && index + 1 < count
      modifies items
      ensures Items() == Restacked(old(Items()), capacity, Op.Raise(index))
    {
      ghost var was := Items();
      var selected := items[index];
      CloseGap(index);
      items[count - 1] := selected;
      RestackedAt(was, capacity, index);
      forall k | 0 <= k < count ensures items[k] == Restacked(was, capacity, Op.Raise(index))[k] {
        assert k + 1 < count ==> was[k + 1] == old(items[k + 1]);
        assert was[k] == old(items[k]);
      }
    }

    method RemoveAt(index: nat, blank: Item)
      requires Valid() && index < count
      modifies this, items
      ensures Valid() && count == old(count) - 1
      ensures Items() == Restacked(old(Items()), capacity, Op.Erase(index))
    {
      ghost var was := Items();
      CloseGap(index);
      count := count - 1;
      items[count] := blank;
      RestackedAt(was, capacity, index);
      forall k | 0 <= k < count ensures items[k] == Restacked(was, capacity, Op.Erase(index))[k] {
        assert was[k] == old(items[k]) && was[k + 1] == old(items[k + 1]);
      }
    }

    method Raise(index: nat, bounds: Item -> Rect, damage: DamageRegion) returns (ok: bool)
      requires Valid() && damage.Valid() && damage.rects as object != items
      modifies items, damage, damage.rects
      ensures Valid() && damage.Valid()
      ensures ok <==> index < count
      ensures Items() == Restacked(old(Items()), capacity, Op.Raise(index))
      ensures damage.Stored() == InvalidatedAll(old(damage.Stored()), damage.capacity,
                                                Dirtied(old(Items()), capacity, bounds, Op.Raise(index)))
    {
      hide Restacked, Dirtied, Invalidated, InvalidatedAll;
      RaiseIsDone(Items(), capacity, bounds, index);
      NothingInvalidated(damage.Stored(), damage.capacity);
      if index >= count { return false; }
      if index + 1 == count {
        return true;
      }
      ghost var was, stored := Items(), damage.Stored();
      damage.Invalidate(bounds(items[count - 1]));
      damage.Invalidate(bounds(items[index]));
      assert Items() == was;
      MoveToTop(index);
      ghost var now := Items();
      RestackedAt(was, capacity, index);
      assert items[count - 1] == now[count - 1] == was[index];
      damage.Invalidate(bounds(items[count - 1]));
      assert Items() == now;
      InvalidatedThree(stored, damage.capacity, bounds(was[count - 1]), bounds(was[index]), bounds(was[index]));
      return true;
    }

    method Erase(index: nat, blank: Item, bounds: Item -> Rect, damage: DamageRegion) returns (ok: bool)
      requires Valid() && damage.Valid() && damage.rects as object != items
      modifies this, items, damage, damage.rects
      ensures Valid() && damage.Valid()
      ensures ok <==> index < old(count)
      ensures Items() == Restacked(old(Items()), capacity, Op.Erase(index))
      ensures damage.Stored() == InvalidatedAll(old(damage.Stored()), damage.capacity,
                                                Dirtied(old(Items()), capacity, bounds, Op.Erase(index)))
    {
      if index >= count { return false; }
      var removedFocus := index + 1 == count;
      ghost var was, stored := Items(), damage.Stored();
      damage.Invalidate(bounds(items[index]));
      RemoveAt(index, blank);
      if removedFocus && count != 0 {
        InvalidatedTwo(stored, damage.capacity, bounds(was[index]), bounds(was[index - 1]));
        assert items[count - 1] == Items()[count - 1] == was[index - 1];
        damage.Invalidate(bounds(items[count - 1]));
      } else {
        InvalidatedTwo(stored, damage.capacity, bounds(was[index]), EMPTY);
      }
      return true;
    }
  }
}
