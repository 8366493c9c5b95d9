/** The desktop server: window messages, coalesced damage, and the loop that consumes its pipe. */
module Desktop {
  import opened Basics
  import opened Geometry
  import opened Compositor
  import opened Streams

  const MESSAGE_MAGIC := 0x4E44534D
  const PROTOCOL_VERSION := 1
  const KIND_CREATE := 1
  const KIND_DAMAGE := 2
  const KIND_DESTROY := 3
  const CREATE_SIZE := 144
  const DAMAGE_SIZE := 40
  const DESTROY_SIZE := 24
  const MAX_WINDOWS := 6
  const SCENE_CAPACITY := 12
  const RECEIVE_CAPACITY := 2048
  const MAX_SURFACE_WIDTH := 1920
  const MAX_SURFACE_HEIGHT := 1080
  const TWO_32 := 0x1_0000_0000

  function W32(n: nat): nat { n % TWO_32 }

  datatype Window = Window(
    id: nat, process: nat, token: nat, surfaceWidth: nat, surfaceHeight: nat,
    width: nat, height: nat, x: int, y: int)

  datatype Display = Display(width: nat, height: nat, taskbarHeight: nat)

  /** How the kernel answers the n-th create request: does the reply pipe open, does the surface open. */
  datatype Answer = Answer(replyOpens: bool, surfaceOpens: bool)

  datatype Screen = Screen(windows: seq<Window>, nextId: nat, attempts: nat)

  predicate Fits(s: Screen) { |s.windows| <= MAX_WINDOWS }

  function DamageBounds(w: Window): Rect {
    Chrome(w.x, w.y, w.width, w.height).damage
  }

  function TaskbarRect(d: Display): Rect {
    Rect(0, d.height - d.taskbarHeight, d.width, d.taskbarHeight)
  }

  // ---- scaling surface damage to window pixels ------------------------------

  /** First window pixel of a damaged surface range, in 32-bit arithmetic. */
  function ScaledLow(at: nat, window: nat, surface: nat): nat
    requires surface > 0
  {
    W32(at * window) / surface
  }

  /** One past the last window pixel of a damaged surface range, in 32-bit arithmetic. */
  function ScaledHigh(end: nat, window: nat, surface: nat): nat
    requires surface > 0
  {
    W32(W32(end * window) + surface - 1) / surface
  }

  /** The source pixel that a window pixel shows, in 32-bit arithmetic. */
  function Sampled(p: nat, window: nat, surface: nat): nat
    requires window > 0
  {
    W32(p * surface) / window
  }

  lemma DivBounds(a: nat, d: nat)
    requires d > 0
    ensures (a / d) * d <= a < (a / d) * d + d
  {
  }

  lemma DivBelow(a: nat, d: nat, q: nat)
    requires d > 0
    ensures a / d < q <==> a < q * d
  {
    DivBounds(a, d);
    if a / d < q {
      assert (a / d + 1) * d <= q * d;
    } else {
      assert q * d <= (a / d) * d;
    }
  }

  lemma ProductGrows(a: nat, b: nat, c: nat)
    requires a <= b
    ensures a * c <= b * c
  {
  }

  lemma NextProduct(p: nat, c: nat)
    ensures (p + 1) * c == p * c + c
  {
  }

  lemma LowIsBelow(p: nat, at: nat, window: nat, surface: nat)
    requires window > 0 && surface > 0 && at <= p * surface / window
    ensures at * window / surface <= p
  {
    DivBelow(p * surface, window, at);
    NextProduct(p, surface);
    DivBelow(at * window, surface, p + 1);
  }

  lemma HighIsAbove(p: nat, end: nat, window: nat, surface: nat)
    requires window > 0 && surface > 0 && p * surface / window < end
    ensures p < (end * window + surface - 1) / surface
  {
    DivBelow(p * surface, window, end);
    NextProduct(p, surface);
    DivBelow(end * window + surface - 1, surface, p + 1);
  }

  /** No product wraps when the surface area, plus one row, fits 32 bits. */
  lemma ProductFits(a: nat, limit: nat, c: nat, slack: nat)
    requires a <= limit && limit * c + slack <= TWO_32
    ensures a * c + slack <= TWO_32
  {
    ProductGrows(a, limit, c);
  }

  lemma W32Fits(n: nat)
    requires n < TWO_32
    ensures W32(n) == n
  {
  }

  lemma SampledExact(p: nat, window: nat, surface: nat)
    requires p < window && surface > 0 && window * surface + surface <= TWO_32
    ensures Sampled(p, window, surface) == p * surface / window
  {
    ProductFits(p, window, surface, surface);
    W32Fits(p * surface);
  }

  lemma LowExact(at: nat, window: nat, surface: nat)
    requires at <= surface && surface > 0 && surface * window + surface <= TWO_32
    ensures ScaledLow(at, window, surface) == at * window / surface
  {
    ProductFits(at, surface, window, surface);
    W32Fits(at * window);
  }

  lemma HighExact(end: nat, window: nat, surface: nat)
    requires end <= surface && surface > 0 && surface * window + surface <= TWO_32
    ensures ScaledHigh(end, window, surface) == (end * window + surface - 1) / surface
  {
    ProductFits(end, surface, window, surface);
    W32Fits(end * window);
    W32Fits(end * window + surface - 1);
  }

  lemma SampleInSurface(p: nat, window: nat, surface: nat)
    requires p < window && surface > 0
    ensures p * surface / window < surface
  {
    NextProduct(p, surface);
    ProductGrows(p + 1, window, surface);
    DivBelow(p * surface, window, surface);
  }

  lemma LowCovers(p: nat, at: nat, window: nat, surface: nat)
    requires p < window && surface > 0 && at <= surface && surface * window + surface <= TWO_32
    requires at <= Sampled(p, window, surface)
    ensures ScaledLow(at, window, surface) <= p
  {
    assert window * surface == surface * window;
    SampledExact(p, window, surface);
    LowExact(at, window, surface);
    LowIsBelow(p, at, window, surface);
  }

  lemma HighCovers(p: nat, end: nat, window: nat, surface: nat)
    requires p < window && surface > 0 && end <= surface && surface * window + surface <= TWO_32
    requires Sampled(p, window, surface) < end
    ensures p < ScaledHigh(end, window, surface)
  {
    assert window * surface == surface * window;
    SampledExact(p, window, surface);
    HighExact(end, window, surface);
    HighIsAbove(p, end, window, surface);
  }

  /** A window pixel samples a pixel of the surface, and lies in the scaled range of any damage to that pixel. */
  predicate Conservative(p: nat, at: nat, extent: nat, window: nat, surface: nat)
    requires window > 0 && surface > 0
  {
    var source := Sampled(p, window, surface);
    && source < surface
    && (at <= source < at + extent ==> ScaledLow(at, window, surface) <= p < ScaledHigh(at + extent, window, surface))
  }

  lemma ScalingIsConservative(p: nat, at: nat, extent: nat, window: nat, surface: nat)
    requires p < window && surface > 0 && at + extent <= surface
    requires surface * window + surface <= TWO_32
    ensures Conservative(p, at, extent, window, surface)
  {
    assert window * surface == surface * window;
    SampledExact(p, window, surface);
    SampleInSurface(p, window, surface);
    var source := Sampled(p, window, surface);
    if at <= source < at + extent {
      LowCovers(p, at, window, surface);
      HighCovers(p, at + extent, window, surface);
    }
  }

  lemma LowIsTight(p: nat, at: nat, window: nat, surface: nat)
    requires window > 0 && surface > 0 && at * window / surface < p
    ensures at <= p * surface / window
  {
    DivBelow(at * window, surface, p);
    DivBelow(p * surface, window, at);
  }

  lemma HighIsTight(p: nat, end: nat, window: nat, surface: nat)
    requires window > 0 && surface > 0 && p < (end * window + surface - 1) / surface
    ensures p * surface / window < end
  {
    DivBelow(end * window + surface - 1, surface, p + 1);
    NextProduct(p, surface);
    DivBelow(p * surface, window, end);
  }

  /** Beyond its first pixel a scaled range holds only pixels that sample the damaged range. */
  lemma ScalingIsTight(p: nat, at: nat, extent: nat, window: nat, surface: nat)
    requires p < window && surface > 0 && at + extent <= surface && surface * window + surface <= TWO_32
    ensures ScaledLow(at, window, surface) < p < ScaledHigh(at + extent, window, surface)
            ==> at <= Sampled(p, window, surface) < at + extent
  {
    hide ScaledLow, ScaledHigh, Sampled;
    assert window * surface == surface * window;
    SampledExact(p, window, surface);
    LowExact(at, window, surface);
    HighExact(at + extent, window, surface);
    if ScaledLow(at, window, surface) < p < ScaledHigh(at + extent, window, surface) {
      LowIsTight(p, at, window, surface);
      HighIsTight(p, at + extent, window, surface);
    }
  }

  lemma ExactQuotient(p: nat, size: nat)
    requires size > 0
    ensures p * size / size == p
  {
    DivBelow(p * size, size, p);
    NextProduct(p, size);
    DivBelow(p * size, size, p + 1);
  }

  /** A window of the size of its surface shows it pixel by pixel. */
  lemma UnscaledIsExact(p: nat, size: nat)
    requires p < size <= MAX_SURFACE_WIDTH
    ensures Sampled(p, size, size) == p
  {
    ExactQuotient(p, size);
    ProductGrows(p, MAX_SURFACE_WIDTH, size);
    ProductGrows(size, MAX_SURFACE_WIDTH, MAX_SURFACE_WIDTH);
    W32Fits(p * size);
  }

  lemma W32Loses(n: nat)
    ensures W32(n) < TWO_32 && if n < TWO_32 then W32(n) == n else W32(n) <= n - TWO_32
  {
  }

  lemma EndFallsShort(product: nat, surface: nat)
    requires 0 < surface <= product && product + surface > TWO_32
    ensures W32(W32(product) + surface - 1) < product
  {
    hide W32;
    W32Loses(product);
    W32Loses(W32(product) + surface - 1);
  }

  /** Past the limit, damage to the whole surface misses the last window pixel. */
  lemma ScalingFails(window: nat, surface: nat)
    requires window > 0 && surface > 0 && surface * window + surface > TWO_32
    ensures !Conservative(window - 1, 0, surface, window, surface)
  {
    hide W32;
    ProductGrows(1, window, surface);
    var product := surface * window;
    assert product == window * surface;
    EndFallsShort(product, surface);
    DivBelow(W32(W32(product) + surface - 1), surface, window);
    assert ScaledHigh(surface, window, surface) < window;
  }

  /** Damage scaling in 32-bit arithmetic is conservative for every pixel and every damaged range exactly if the
      product of the sizes, plus one row, fits 32 bits. */
  lemma ScalingIsExact(window: nat, surface: nat)
    requires window > 0 && surface > 0
    ensures (forall p: nat, at: nat, extent: nat :: p < window && at + extent <= surface
                                                    ==> Conservative(p, at, extent, window, surface))
            <==> surface * window + surface <= TWO_32
  {
    hide Conservative;
    if surface * window + surface <= TWO_32 {
      forall p: nat, at: nat, extent: nat | p < window && at + extent <= surface
        ensures Conservative(p, at, extent, window, surface)
      {
        ScalingIsConservative(p, at, extent, window, surface);
      }
    } else {
      ScalingFails(window, surface);
    }
  }

  // ---- messages --------------------------------------------------------------

  predicate KnownMessage(m: seq<byte>)
    requires |m| >= HEADER_SIZE
  {
    Field(m, 0, 4) == MESSAGE_MAGIC && Field(m, 4, 2) == PROTOCOL_VERSION
  }

  function Kind(m: seq<byte>): nat
    requires |m| >= HEADER_SIZE
  {
    Field(m, 6, 2)
  }

  /** The index of the first window with this id, or the number of windows. */
  function FindWindow(windows: seq<Window>, id: nat): (i: nat)
    ensures i <= |windows|
    ensures i < |windows| ==> windows[i].id == id
  {
    if windows == [] || windows[0].id == id then 0 else 1 + FindWindow(windows[1..], id)
  }

  lemma {:induction false} FindWindowIsFirst(windows: seq<Window>, id: nat, i: nat)
    requires i <= |windows|
    requires forall j :: 0 <= j < i ==> windows[j].id != id
    requires i < |windows| ==> windows[i].id == id
    ensures FindWindow(windows, id) == i
  {
    if i > 0 { FindWindowIsFirst(windows[1..], id, i - 1); }
  }

  /** The window a message may act on: the one it names, if the message holds that window's nonzero token. */
  function Target(windows: seq<Window>, m: seq<byte>): (i: nat)
    requires |m| >= HEADER_SIZE
    ensures i <= |windows|
  {
    var i := FindWindow(windows, Field(m, 12, 4));
    var token := Field(m, 16, 8);
    if i < |windows| && token != 0 && token == windows[i].token then i else |windows|
  }

  predicate IsDamage(m: seq<byte>)
    requires |m| >= HEADER_SIZE
  {
    KnownMessage(m) && Kind(m) == KIND_DAMAGE && |m| == DAMAGE_SIZE
  }

  /** The screen rectangle of a damage message on a window; nothing if it starts outside the surface. */
  function DamageRects(w: Window, m: seq<byte>): (r: seq<Rect>)
    requires |m| == DAMAGE_SIZE
    ensures |r| <= 1
  {
    var x, y, width, height := Field(m, 24, 4), Field(m, 28, 4), Field(m, 32, 4), Field(m, 36, 4);
    if x >= w.surfaceWidth || y >= w.surfaceHeight then []
    else
      var width' := if width > w.surfaceWidth - x then w.surfaceWidth - x else width;
      var height' := if height > w.surfaceHeight - y then w.surfaceHeight - y else height;
      var left, top := ScaledLow(x, w.width, w.surfaceWidth), ScaledLow(y, w.height, w.surfaceHeight);
      var right := ScaledHigh(x + width', w.width, w.surfaceWidth);
      var bottom := ScaledHigh(y + height', w.height, w.surfaceHeight);
      [Rect(w.x + left, w.y + TITLE_HEIGHT + top, right - left, bottom - top)]
  }

  /** Every content pixel that shows a damaged surface pixel lies in the rectangle of the message. */
  lemma DamageReachesScreen(w: Window, m: seq<byte>, px: nat, py: nat)
    requires |m| == DAMAGE_SIZE && px < w.width && py < w.height
    requires w.surfaceWidth > 0 && w.surfaceHeight > 0
    requires w.surfaceWidth * w.width + w.surfaceWidth <= TWO_32
    requires w.surfaceHeight * w.height + w.surfaceHeight <= TWO_32
    ensures var sx, sy := Sampled(px, w.width, w.surfaceWidth), Sampled(py, w.height, w.surfaceHeight);
            && sx < w.surfaceWidth && sy < w.surfaceHeight
            && (Field(m, 24, 4) <= sx < Field(m, 24, 4) + Field(m, 32, 4)
                && Field(m, 28, 4) <= sy < Field(m, 28, 4) + Field(m, 36, 4)
                ==> Covered(DamageRects(w, m), w.x + px, w.y + TITLE_HEIGHT + py))
  {
    var x, y, width, height := Field(m, 24, 4), Field(m, 28, 4), Field(m, 32, 4), Field(m, 36, 4);
    ScalingIsConservative(px, 0, 0, w.width, w.surfaceWidth);
    ScalingIsConservative(py, 0, 0, w.height, w.surfaceHeight);
    if x < w.surfaceWidth && y < w.surfaceHeight {
      var width' := if width > w.surfaceWidth - x then w.surfaceWidth - x else width;
      var height' := if height > w.surfaceHeight - y then w.surfaceHeight - y else height;
      ScalingIsConservative(px, x, width', w.width, w.surfaceWidth);
      ScalingIsConservative(py, y, height', w.height, w.surfaceHeight);
      var sx, sy := Sampled(px, w.width, w.surfaceWidth), Sampled(py, w.height, w.surfaceHeight);
      if x <= sx < x + width && y <= sy < y + height {
        assert Contains(DamageRects(w, m)[0], w.x + px, w.y + TITLE_HEIGHT + py);
      }
    }
  }

  /** Beyond its first row and column, the rectangle of a message holds only pixels that show a damaged one. */
  lemma DamageIsTight(w: Window, m: seq<byte>, r: Rect, px: nat, py: nat)
    requires |m| == DAMAGE_SIZE && px < w.width && py < w.height
    requires w.surfaceWidth > 0 && w.surfaceHeight > 0
    requires w.surfaceWidth * w.width + w.surfaceWidth <= TWO_32
    requires w.surfaceHeight * w.height + w.surfaceHeight <= TWO_32
    requires r in DamageRects(w, m)
    requires r.x < w.x + px < r.x + r.width && r.y < w.y + TITLE_HEIGHT + py < r.y + r.height
    ensures Field(m, 24, 4) <= Sampled(px, w.width, w.surfaceWidth) < Field(m, 24, 4) + Field(m, 32, 4)
    ensures Field(m, 28, 4) <= Sampled(py, w.height, w.surfaceHeight) < Field(m, 28, 4) + Field(m, 36, 4)
  {
    hide Field, Sampled, ScaledLow, ScaledHigh;
    var x, y, width, height := Field(m, 24, 4), Field(m, 28, 4), Field(m, 32, 4), Field(m, 36, 4);
    if x < w.surfaceWidth && y < w.surfaceHeight {
      ScalingIsTight(px, x, Min(width, w.surfaceWidth - x), w.width, w.surfaceWidth);
      ScalingIsTight(py, y, Min(height, w.surfaceHeight - y), w.height, w.surfaceHeight);
    }
  }

  function TruncatedHalf(n: int): int { if n >= 0 then n / 2 else -(-n / 2) }

  predicate SafeNameByte(b: byte) {
    97 <= b <= 122 || 65 <= b <= 90 || 48 <= b <= 57 || b == 46 || b == 45 || b == 95
  }

  /** A nonempty run of safe characters that ends in NUL within the field. */
  predicate ValidName(name: seq<byte>, seen: nat)
    decreases |name|
  {
    name != [] && (if name[0] == 0 then seen != 0 else SafeNameByte(name[0]) && ValidName(name[1..], seen + 1))
  }

  /** Safe characters up to the first NUL, of which there is at least one before it. */
  ghost predicate NamedTo(name: seq<byte>, n: nat) {
    n < |name| && name[n] == 0 && forall k :: 0 <= k < n ==> SafeNameByte(name[k])
  }

  lemma {:induction false} ValidNameIsNamed(name: seq<byte>, seen: nat)
    ensures ValidName(name, seen) <==> exists n: nat :: NamedTo(name, n) && seen + n > 0
    decreases |name|
  {
    hide SafeNameByte;
    if name != [] && name[0] == 0 {
      NulIsUnsafe();
      assert NamedTo(name, 0);
    } else if name != [] {
      ValidNameIsNamed(name[1..], seen + 1);
      if n: nat :| NamedTo(name[1..], n) {
        if SafeNameByte(name[0]) { assert NamedTo(name, n + 1); }
      }
      if n: nat :| NamedTo(name, n) && seen + n > 0 {
        assert NamedTo(name[1..], n - 1);
      }
    }
  }

  lemma NulIsUnsafe()
    ensures !SafeNameByte(0)
  {
  }

  predicate ValidCreate(m: seq<byte>)
    requires |m| == CREATE_SIZE
  {
    && Field(m, 24, 4) != 0 && Field(m, 16, 8) != 0
    && 64 <= Field(m, 32, 4) <= MAX_SURFACE_WIDTH && 64 <= Field(m, 36, 4) <= MAX_SURFACE_HEIGHT
    && Field(m, 40, 4) == 1 && ValidName(m[48..96], 0)
  }

  /** The next window id skips zero when the counter wraps. */
  function FreshId(next: nat): (nat, nat) {
    if W32(next) == 0 then (W32(next + 1), W32(next + 2)) else (W32(next), W32(next + 1))
  }

  function NewWindow(d: Display, id: nat, m: seq<byte>): Window
    requires |m| == CREATE_SIZE
  {
    var width, height := Field(m, 32, 4), Field(m, 36, 4);
    var y := TruncatedHalf(d.height - d.taskbarHeight - (height + TITLE_HEIGHT));
    Window(id, Field(m, 24, 4), Field(m, 16, 8), width, height, width, height,
           TruncatedHalf(d.width - width), if y < 0 then 0 else y)
  }

  // ---- what the screen shows -----------------------------------------------------------

  /** One render: its rectangle, the stack that was drawn, and how many messages had been taken up by then. */
  datatype Frame = Frame(windows: seq<Window>, seen: nat, rect: Rect)

  /** One rectangle rendered after another. */
  function Frames(windows: seq<Window>, seen: nat, rects: seq<Rect>): (r: seq<Frame>)
    ensures |r| == |rects|
  {
    if rects == [] then []
    else
      var n := |rects| - 1;
      Frames(windows, seen, rects[..n]) + [Frame(windows, seen, rects[n])]
  }

  /** What the windows of a stack show at a pixel. */
  function Shown(windows: seq<Window>, x: int, y: int): seq<(Window, bool)> {
    Appearance(windows, DamageBounds, x, y)
  }

  /** A pixel of the screen: what it shows, and how many messages had been taken up when it was last drawn. */
  datatype Pixel = Pixel(shown: seq<(Window, bool)>, seen: nat)

  /** A pixel after some renders: each draws the stack of its moment. */
  function Painted(p: Pixel, frames: seq<Frame>, x: int, y: int): Pixel {
    if frames == [] then p
    else
      var n := |frames| - 1;
      if Contains(frames[n].rect, x, y) then Pixel(Shown(frames[n].windows, x, y), frames[n].seen)
      else Painted(p, frames[..n], x, y)
  }

  lemma {:induction false} PaintedConcat(p: Pixel, a: seq<Frame>, b: seq<Frame>, x: int, y: int)
    ensures Painted(p, a + b, x, y) == Painted(Painted(p, a, x, y), b, x, y)
    decreases |b|
  {
    if b == [] {
      assert a + b == a;
    } else {
      var n := |b| - 1;
      assert (a + b)[..|a| + n] == a + b[..n] && (a + b)[|a| + n] == b[n];
      PaintedConcat(p, a, b[..n], x, y);
    }
  }

  lemma {:induction false} PaintedFrames(p: Pixel, windows: seq<Window>, seen: nat, rects: seq<Rect>, x: int, y: int)
    ensures Painted(p, Frames(windows, seen, rects), x, y)
            == if Covered(rects, x, y) then Pixel(Shown(windows, x, y), seen) else p
    decreases |rects|
  {
    if rects != [] {
      var n, frames := |rects| - 1, Frames(windows, seen, rects);
      assert frames[..n] == Frames(windows, seen, rects[..n]);
      assert rects == rects[..n] + [rects[n]];
      CoveredConcat(rects[..n], [rects[n]], x, y);
      assert [rects[n]][0] == rects[n];
      PaintedFrames(p, windows, seen, rects[..n], x, y);
    }
  }

  lemma CoveredConcat(a: seq<Rect>, b: seq<Rect>, x: int, y: int)
    ensures Covered(a + b, x, y) <==> Covered(a, x, y) || Covered(b, x, y)
  {
    if Covered(a, x, y) {
      var k :| 0 <= k < |a| && Contains(a[k], x, y);
      assert Contains((a + b)[k], x, y);
    }
    if Covered(b, x, y) {
      var k :| 0 <= k < |b| && Contains(b[k], x, y);
      assert Contains((a + b)[|a| + k], x, y);
    }
  }

  /** What the server renders after a change of the window stack: the stack's damage and the task bar. */
  function Repaint(d: Display, windows: seq<Window>, op: Op<Window>): seq<Rect> {
    InvalidatedAll([], SCENE_CAPACITY, Dirtied(windows, MAX_WINDOWS, DamageBounds, op) + [TaskbarRect(d)])
  }

  function HandleCreate(d: Display, env: nat -> Answer, s: Screen, m: seq<byte>): (r: (Screen, seq<Rect>))
    requires Fits(s) && |m| == CREATE_SIZE
    ensures Fits(r.0)
  {
    var answer, s1 := env(s.attempts), s.(attempts := s.attempts + 1);
    if !answer.replyOpens || !ValidCreate(m) || |s.windows| == MAX_WINDOWS || !answer.surfaceOpens then (s1, [])
    else
      var (id, next) := FreshId(s.nextId);
      var op := Op.Push(NewWindow(d, id, m));
      (s1.(windows := Restacked(s.windows, MAX_WINDOWS, op), nextId := next), Repaint(d, s.windows, op))
  }

  /** One message handled by itself: the new screen and the rectangles rendered after that. */
  function Handle(d: Display, env: nat -> Answer, s: Screen, m: seq<byte>): (r: (Screen, seq<Rect>))
    requires Fits(s) && |m| >= HEADER_SIZE
    ensures Fits(r.0)
  {
    if !KnownMessage(m) then (s, [])
    else if Kind(m) == KIND_CREATE && |m| == CREATE_SIZE then HandleCreate(d, env, s, m)
    else
      var i := Target(s.windows, m);
      if i == |s.windows| then (s, [])
      else if Kind(m) == KIND_DAMAGE && |m| == DAMAGE_SIZE then (s, DamageRects(s.windows[i], m))
      else if Kind(m) == KIND_DESTROY && |m| == DESTROY_SIZE then
        var op := Op.Erase(i);
        (s.(windows := Restacked(s.windows, MAX_WINDOWS, op)), Repaint(d, s.windows, op))
      else (s, [])
  }

  // ---- what a message does -----------------------------------------------------------------

  predicate Opens(answer: Answer, s: Screen, m: seq<byte>)
    requires |m| == CREATE_SIZE
  {
    answer.replyOpens && answer.surfaceOpens && |s.windows| < MAX_WINDOWS && ValidCreate(m)
  }

  /** As far from one edge as from the other, up to a pixel. */
  predicate Centered(at: int, size: int, room: int) {
    -1 <= (room - size - at) - at <= 1
  }

  /** A window as the create request asks for it: its owner's, of the size of its surface, in the middle of the room
      above the task bar, but not above the screen. */
  predicate AsRequested(d: Display, w: Window, m: seq<byte>)
    requires |m| == CREATE_SIZE
  {
    && w.id != 0 && w.process == Field(m, 24, 4) && w.token == Field(m, 16, 8)
    && w.surfaceWidth == w.width == Field(m, 32, 4) && w.surfaceHeight == w.height == Field(m, 36, 4)
    && Centered(w.x, w.width, d.width)
    && if w.height + TITLE_HEIGHT <= d.height - d.taskbarHeight
       then w.y >= 0 && Centered(w.y, w.height + TITLE_HEIGHT, d.height - d.taskbarHeight)
       else w.y == 0
  }

  lemma NewWindowIsAsRequested(d: Display, id: nat, m: seq<byte>)
    requires |m| == CREATE_SIZE && id != 0
    ensures AsRequested(d, NewWindow(d, id, m), m)
  {
    hide Field;
  }

  /** A create request that is valid, while there is room and its pipe and surface open, puts a window as requested on
      top of the others; any other changes no window and renders nothing. */
  lemma CreateOpens(d: Display, env: nat -> Answer, s: Screen, m: seq<byte>)
    requires Fits(s) && |m| == CREATE_SIZE && KnownMessage(m) && Kind(m) == KIND_CREATE
    ensures var (after, rects) := Handle(d, env, s, m);
            if Opens(env(s.attempts), s, m) then
              && |after.windows| == |s.windows| + 1 && after.windows[..|s.windows|] == s.windows
              && AsRequested(d, after.windows[|s.windows|], m)
            else after.windows == s.windows && rects == []
  {
    hide Field, ValidCreate, NewWindow, AsRequested, Repaint;
    if Opens(env(s.attempts), s, m) { NewWindowIsAsRequested(d, FreshId(s.nextId).0, m); }
  }

  /** A new window shows its surface pixel by pixel. */
  lemma NewWindowIsUnscaled(d: Display, id: nat, m: seq<byte>, px: nat, py: nat)
    requires |m| == CREATE_SIZE && ValidCreate(m)
    ensures var w := NewWindow(d, id, m);
            && (px < w.width ==> Sampled(px, w.width, w.surfaceWidth) == px)
            && (py < w.height ==> Sampled(py, w.height, w.surfaceHeight) == py)
  {
    hide Sampled, Field, ValidName;
    var w := NewWindow(d, id, m);
    if px < w.width { UnscaledIsExact(px, w.width); }
    if py < w.height { UnscaledIsExact(py, w.height); }
  }

  /** No two windows have the same id. */
  ghost predicate DistinctIds(windows: seq<Window>) {
    forall i, j :: 0 <= i < j < |windows| ==> windows[i].id != windows[j].id
  }

  /** The message names this window and holds its token. */
  predicate Owns(m: seq<byte>, w: Window)
    requires |m| >= HEADER_SIZE
  {
    Field(m, 12, 4) == w.id && Field(m, 16, 8) == w.token != 0
  }

  /** A message reaches exactly the window it owns. */
  lemma TargetIsOwned(windows: seq<Window>, m: seq<byte>, k: nat)
    requires DistinctIds(windows) && |m| >= HEADER_SIZE && k < |windows|
    ensures Target(windows, m) == k <==> Owns(m, windows[k])
  {
    hide Field;
    if windows[k].id == Field(m, 12, 4) { FindWindowIsFirst(windows, Field(m, 12, 4), k); }
  }

  /** A message that owns no window and does not ask for one changes nothing and renders nothing. */
  lemma StrangersChangeNothing(d: Display, env: nat -> Answer, s: Screen, m: seq<byte>)
    requires Fits(s) && |m| >= HEADER_SIZE && !(Kind(m) == KIND_CREATE && |m| == CREATE_SIZE)
    requires forall w :: w in s.windows ==> !Owns(m, w)
    ensures Handle(d, env, s, m) == (s, [])
  {
    hide Field;
    var i := FindWindow(s.windows, Field(m, 12, 4));
    if i < |s.windows| { assert s.windows[i] in s.windows; }
  }

  /** A destroy message of its owner takes away that window and no other; a damage message changes no window. */
  lemma OwnersAct(d: Display, env: nat -> Answer, s: Screen, m: seq<byte>, k: nat)
    requires Fits(s) && DistinctIds(s.windows) && |m| >= HEADER_SIZE && KnownMessage(m)
    requires k < |s.windows| && Owns(m, s.windows[k])
    ensures Kind(m) == KIND_DESTROY && |m| == DESTROY_SIZE ==>
              Handle(d, env, s, m).0 == s.(windows := s.windows[..k] + s.windows[k + 1..])
    ensures IsDamage(m) ==> Handle(d, env, s, m) == (s, DamageRects(s.windows[k], m))
  {
    hide Field, DamageRects, Repaint;
    TargetIsOwned(s.windows, m, k);
  }

  /** A create request keeps the ids distinct if and only if no window has the id that is next. */
  lemma CreateKeepsDistinct(d: Display, env: nat -> Answer, s: Screen, m: seq<byte>)
    requires Fits(s) && DistinctIds(s.windows) && |m| == CREATE_SIZE && KnownMessage(m) && Kind(m) == KIND_CREATE
    requires Opens(env(s.attempts), s, m)
    ensures DistinctIds(Handle(d, env, s, m).0.windows)
            <==> forall w :: w in s.windows ==> w.id != FreshId(s.nextId).0
  {
    hide Field, ValidCreate, Repaint, FreshId;
    var windows, id, n := Handle(d, env, s, m).0.windows, FreshId(s.nextId).0, |s.windows|;
    assert windows[n].id == id;
    if DistinctIds(windows) {
      forall w | w in s.windows ensures w.id != id {
        var i :| 0 <= i < n && s.windows[i] == w;
        assert windows[i] == w;
      }
    }
    if forall w :: w in s.windows ==> w.id != id {
      forall i, j | 0 <= i < j < |windows| ensures windows[i].id != windows[j].id {
        assert windows[i] == s.windows[i] && s.windows[i] in s.windows;
        if j < n { assert windows[j] == s.windows[j]; }
      }
    }
  }

  predicate Whole(messages: seq<seq<byte>>) {
    forall i :: 0 <= i < |messages| ==> |messages[i]| >= HEADER_SIZE
  }

  // ---- coalesced damage --------------------------------------------------------

  /** Pending damage after a damage message; it is dropped unless it comes from the window's owner. */
  function Accumulated(windows: seq<Window>, pending: seq<Rect>, m: seq<byte>): (r: seq<Rect>)
    requires |windows| <= |pending| && |m| >= HEADER_SIZE && IsDamage(m)
    ensures |r| == |pending|
  {
    var i := Target(windows, m);
    if i == |windows| || DamageRects(windows[i], m) == [] then pending
    else pending[i := Unite(pending[i], DamageRects(windows[i], m)[0])]
  }

  /** The one rectangle that covers all pending damage. */
  function Combined(pending: seq<Rect>): (c: Rect)
    ensures Nonempty(c) || c == EMPTY
  {
    if pending == [] then EMPTY
    else
      var n := |pending| - 1;
      if Nonempty(pending[n]) then Unite(Combined(pending[..n]), pending[n]) else Combined(pending[..n])
  }

  function Flushed(pending: seq<Rect>): seq<Rect> {
    if Nonempty(Combined(pending)) then [Combined(pending)] else []
  }

  function Cleared(pending: seq<Rect>): (r: seq<Rect>)
    ensures |r| == |pending|
  {
    if pending == [] then []
    else [if Nonempty(pending[0]) then EMPTY else pending[0]] + Cleared(pending[1..])
  }

  lemma {:induction false} ClearedAt(pending: seq<Rect>)
    ensures forall k :: 0 <= k < |pending| ==> Cleared(pending)[k] == if Nonempty(pending[k]) then EMPTY else pending[k]
  {
    if pending != [] {
      ClearedAt(pending[1..]);
      forall k | 0 < k < |pending|
        ensures Cleared(pending)[k] == if Nonempty(pending[k]) then EMPTY else pending[k]
      {
        assert Cleared(pending)[k] == Cleared(pending[1..])[k - 1];
      }
    }
  }

  /** A batch of messages as the server handles it, after `seen` others: damage is gathered and rendered only before a
      message of another kind and at the end. */
  function Batch(
    d: Display, env: nat -> Answer, s: Screen, seen: nat, pending: seq<Rect>, messages: seq<seq<byte>>
  ): (r: (Screen, seq<Frame>))
    requires Fits(s) && Whole(messages) && |pending| == MAX_WINDOWS
    ensures Fits(r.0)
    decreases |messages|
  {
    if messages == [] then (s, Frames(s.windows, seen, Flushed(pending)))
    else if IsDamage(messages[0]) then
      Batch(d, env, s, seen + 1, Accumulated(s.windows, pending, messages[0]), messages[1..])
    else
      var (s1, now) := Handle(d, env, s, messages[0]);
      var (s2, later) := Batch(d, env, s1, seen + 1, Cleared(pending), messages[1..]);
      (s2, Frames(s.windows, seen, Flushed(pending)) + Frames(s1.windows, seen + 1, now) + later)
  }

  const NOTHING_PENDING: seq<Rect> := [EMPTY, EMPTY, EMPTY, EMPTY, EMPTY, EMPTY]

  lemma {:induction false} ParsedAreWhole(s: seq<byte>, capacity: nat)
    ensures Whole(Parse(s, capacity).messages)
    decreases |s|
  {
    if |s| >= HEADER_SIZE {
      var size := SizeField(s);
      if size < HEADER_SIZE || size > capacity {
        ParsedAreWhole(s[1..], capacity);
      } else if |s| >= size {
        ParsedAreWhole(s[size..], capacity);
      }
    }
  }

  // ---- clipping ------------------------------------------------------------------

  /** The part of a rectangle that lies on the screen, as `render` clips it. */
  function Clipped(d: Display, rect: Rect): Rect {
    var r1 := if rect.x < 0 then rect.(width := rect.width + rect.x, x := 0) else rect;
    var r2 := if r1.y < 0 then r1.(height := r1.height + r1.y, y := 0) else r1;
    var r3 := if r2.x + r2.width > d.width then r2.(width := d.width - r2.x) else r2;
    var r4 := if r3.y + r3.height > d.height then r3.(height := d.height - r3.y) else r3;
    Rect(r4.x, r4.y, Max(r4.width, 0), Max(r4.height, 0))
  }

  lemma ClippedIsOnScreen(d: Display, rect: Rect, x: int, y: int)
    ensures Contains(Clipped(d, rect), x, y) <==> Contains(rect, x, y) && 0 <= x < d.width && 0 <= y < d.height
  {
  }

  // ---- the server object -------------------------------------------------------------

  function ResetWhenFull(used: nat): nat { if used == RECEIVE_CAPACITY then 0 else used }

  /** What is left to do for a batch is the batch of the messages still in the buffer. */
  predicate Remaining(d: Display, env: nat -> Answer, goal: (Screen, seq<Frame>), s: Screen, seen: nat,
                      pending: seq<Rect>, messages: seq<seq<byte>>, before: seq<Frame>, sofar: seq<Frame>)
  {
    && Fits(s) && |pending| == MAX_WINDOWS && Whole(messages)
    && goal.0 == Batch(d, env, s, seen, pending, messages).0
    && before + goal.1 == sofar + Batch(d, env, s, seen, pending, messages).1
  }

  lemma WholeTail(m: seq<byte>, rest: seq<seq<byte>>)
    requires Whole([m] + rest)
    ensures |m| >= HEADER_SIZE && Whole(rest) && ([m] + rest)[1..] == rest
  {
    assert ([m] + rest)[0] == m;
    forall i | 0 <= i < |rest| ensures |rest[i]| >= HEADER_SIZE { assert rest[i] == ([m] + rest)[i + 1]; }
  }

  lemma RemainingAfterDamage(
    d: Display, env: nat -> Answer, goal: (Screen, seq<Frame>), s: Screen, seen: nat, pending: seq<Rect>, m: seq<byte>,
    rest: seq<seq<byte>>, before: seq<Frame>, sofar: seq<Frame>)
    requires |m| >= HEADER_SIZE && IsDamage(m)
    requires Remaining(d, env, goal, s, seen, pending, [m] + rest, before, sofar)
    ensures Remaining(d, env, goal, s, seen + 1, Accumulated(s.windows, pending, m), rest, before, sofar)
  {
    WholeTail(m, rest);
  }

  lemma RemainingAfterOther(
    d: Display, env: nat -> Answer, goal: (Screen, seq<Frame>), s: Screen, seen: nat, pending: seq<Rect>, m: seq<byte>,
    rest: seq<seq<byte>>, before: seq<Frame>, sofar: seq<Frame>, h: (Screen, seq<Rect>))
    requires |m| >= HEADER_SIZE && !IsDamage(m) && Fits(s) && h == Handle(d, env, s, m)
    requires Remaining(d, env, goal, s, seen, pending, [m] + rest, before, sofar)
    ensures Remaining(d, env, goal, h.0, seen + 1, Cleared(pending), rest, before,
                      sofar + Frames(s.windows, seen, Flushed(pending)) + Frames(h.0.windows, seen + 1, h.1))
  {
    hide Handle, Flushed, Cleared, IsDamage, Frames;
    WholeTail(m, rest);
    var f, now := Frames(s.windows, seen, Flushed(pending)), Frames(h.0.windows, seen + 1, h.1);
    var later := Batch(d, env, h.0, seen + 1, Cleared(pending), rest).1;
    assert Batch(d, env, s, seen, pending, [m] + rest).1 == f + now + later;
    assert sofar + (f + now + later) == sofar + f + now + later;
  }

  lemma AllRemains(d: Display, env: nat -> Answer, s: Screen, seen: nat, pending: seq<Rect>, messages: seq<seq<byte>>,
                   before: seq<Frame>)
    requires Fits(s) && |pending| == MAX_WINDOWS && Whole(messages)
    ensures Remaining(d, env, Batch(d, env, s, seen, pending, messages), s, seen, pending, messages, before, before)
  {
  }

  lemma NothingRemains(d: Display, env: nat -> Answer, goal: (Screen, seq<Frame>), s: Screen, seen: nat,
                       pending: seq<Rect>, before: seq<Frame>, sofar: seq<Frame>)
    requires Remaining(d, env, goal, s, seen, pending, [], before, sofar)
    ensures Fits(s) && goal.0 == s && before + goal.1 == sofar + Frames(s.windows, seen, Flushed(pending))
  {
  }

  /** One step of the parse loop. */
  lemma ParseStep(s: seq<byte>, capacity: nat)
    requires |s| >= HEADER_SIZE
    ensures var size := SizeField(s);
            Parse(s, capacity) ==
              if size < HEADER_SIZE || size > capacity then Parse(s[1..], capacity)
              else if |s| < size then Parsed([], s)
              else Parsed([s[..size]] + Parse(s[size..], capacity).messages, Parse(s[size..], capacity).rest)
  {
  }

  lemma ParseEnds(s: seq<byte>, capacity: nat)
    requires |s| < HEADER_SIZE
    ensures Parse(s, capacity) == Parsed([], s)
  {
  }

  class Server {
    const display: Display
    const env: nat -> Answer
    const buffer: array<byte>
    var used: nat
    var windows: seq<Window>
    var nextId: nat
    var attempts: nat

    // All that was rendered, and how many messages were taken up.
    ghost var rendered: seq<Frame>
    ghost var seen: nat

    ghost predicate Valid() reads this {
      buffer.Length == RECEIVE_CAPACITY && used < RECEIVE_CAPACITY && |windows| <= MAX_WINDOWS
    }

    ghost function State(): Screen reads this {
      Screen(windows, nextId, attempts)
    }

    constructor (display: Display, env: nat -> Answer)
      ensures Valid() && fresh(buffer) && used == 0 && rendered == [] && seen == 0
      ensures State() == Screen([], 1, 0) && this.display == display && this.env == env
    {
      this.display, this.env := display, env;
      buffer := new byte[RECEIVE_CAPACITY](_ => 0);
      used, windows, nextId, attempts, rendered, seen := 0, [], 1, 0, [], 0;
    }

    /** Draw all windows that lie in a rectangle. */
    method Render(rect: Rect)
      modifies `rendered
      ensures rendered == old(rendered) + Frames(windows, seen, [rect])
    {
      assert Frames(windows, seen, [rect]) == [Frame(windows, seen, rect)];
      rendered := rendered + [Frame(windows, seen, rect)];
    }

    method RenderAll(rects: seq<Rect>)
      modifies `rendered
      ensures rendered == old(rendered) + Frames(windows, seen, rects)
    {
      for i := 0 to |rects|
        invariant rendered == old(rendered) + Frames(windows, seen, rects[..i])
      {
        assert rects[..i + 1][..i] == rects[..i];
        Render(rects[i]);
      }
      assert rects[..|rects|] == rects;
    }

    method Find(id: nat) returns (i: nat)
      ensures i == FindWindow(windows, id)
    {
      i := 0;
      while i < |windows|
        invariant i <= |windows| && forall j :: 0 <= j < i ==> windows[j].id != id
      {
        if windows[i].id == id { break; }
        i := i + 1;
      }
      FindWindowIsFirst(windows, id, i);
    }

    /** Gather a damage message into the pending rectangle of its window; false for any other message. */
    method AccumulateDamage(m: seq<byte>, pending: array<Rect>) returns (taken: bool)
      requires |windows| <= MAX_WINDOWS == pending.Length && |m| >= HEADER_SIZE
      modifies pending
      ensures taken <==> IsDamage(m)
      ensures pending[..] == if taken then Accumulated(windows, old(pending[..]), m) else old(pending[..])
    {
      if !KnownMessage(m) || Kind(m) != KIND_DAMAGE || |m| != DAMAGE_SIZE { return false; }
      var i := Find(Field(m, 12, 4));
      if i == |windows| || Field(m, 16, 8) == 0 || Field(m, 16, 8) != windows[i].token { return true; }
      var damage := DamageRects(windows[i], m);
      if damage == [] { return true; }
      pending[i] := Unite(pending[i], damage[0]);
      return true;
    }

    method FlushDamage(pending: array<Rect>)
      modifies `rendered, pending
      ensures rendered == old(rendered) + Frames(windows, seen, Flushed(old(pending[..])))
      ensures pending[..] == Cleared(old(pending[..]))
    {
      ghost var was := pending[..];
      var combined := EMPTY;
      for i := 0 to pending.Length
        modifies pending
        invariant combined == Combined(was[..i])
        invariant forall k :: 0 <= k < i ==> pending[k] == if Nonempty(was[k]) then EMPTY else was[k]
        invariant forall k :: i <= k < pending.Length ==> pending[k] == was[k]
      {
        assert was[..i + 1][..i] == was[..i];
        if Nonempty(pending[i]) {
          combined := Unite(combined, pending[i]);
          pending[i] := EMPTY;
        }
      }
      assert was[..pending.Length] == was;
      ClearedAt(was);
      if Nonempty(combined) { Render(combined); } else { assert rendered + [] == rendered; }
    }

    method HandleMessage(m: seq<byte>)
      requires |windows| <= MAX_WINDOWS && |m| >= HEADER_SIZE
      modifies `windows, `nextId, `attempts, `rendered
      ensures State() == Handle(display, env, old(State()), m).0
      ensures rendered == old(rendered) + Frames(windows, seen, Handle(display, env, old(State()), m).1)
    {
      ghost var s := State();
      assert rendered + [] == rendered;
      if !KnownMessage(m) { return; }
      if Kind(m) == KIND_CREATE && |m| == CREATE_SIZE {
        CreateWindow(m);
        return;
      }
      var i := Find(Field(m, 12, 4));
      if i == |windows| { return; }
      if Field(m, 16, 8) == 0 || Field(m, 16, 8) != windows[i].token { return; }
      if Kind(m) == KIND_DAMAGE && |m| == DAMAGE_SIZE {
        RenderAll(DamageRects(windows[i], m));
      } else if Kind(m) == KIND_DESTROY && |m| == DESTROY_SIZE {
        var damage := Repaint(display, windows, Op.Erase(i));
        windows := Restacked(windows, MAX_WINDOWS, Op.Erase(i));
        RenderAll(damage);
      }
    }

    method CreateWindow(m: seq<byte>)
      requires |windows| <= MAX_WINDOWS && |m| == CREATE_SIZE
      modifies `windows, `nextId, `attempts, `rendered
      ensures State() == HandleCreate(display, env, old(State()), m).0
      ensures rendered == old(rendered) + Frames(windows, seen, HandleCreate(display, env, old(State()), m).1)
    {
      assert rendered + [] == rendered;
      var answer := env(attempts);
      attempts := attempts + 1;
      if !answer.replyOpens || !ValidCreate(m) { return; }
      if |windows| == MAX_WINDOWS || !answer.surfaceOpens { return; }
      var (id, next) := FreshId(nextId);
      nextId := next;
      var op := Op.Push(NewWindow(display, id, m));
      var damage := Repaint(display, windows, op);
      windows := Restacked(windows, MAX_WINDOWS, op);
      RenderAll(damage);
    }

    /** One read of the server pipe. */
    method ConsumeServerPipe(chunk: seq<byte>)
      requires Valid() && |chunk| <= RECEIVE_CAPACITY - used
      modifies this, buffer
      ensures Valid()
      ensures buffer[..used] == Parse(old(buffer[..used]) + chunk, RECEIVE_CAPACITY).rest
      ensures Whole(Parse(old(buffer[..used]) + chunk, RECEIVE_CAPACITY).messages)
      ensures seen == old(seen) + |Parse(old(buffer[..used]) + chunk, RECEIVE_CAPACITY).messages|
      ensures var b := Batch(display, env, old(State()), old(seen), NOTHING_PENDING,
                             Parse(old(buffer[..used]) + chunk, RECEIVE_CAPACITY).messages);
              State() == b.0 && rendered == old(rendered) + b.1
    {
      ghost var all := buffer[..used] + chunk;
      ghost var p := Parse(all, RECEIVE_CAPACITY);
      ParsedAreWhole(all, RECEIVE_CAPACITY);
      ParseLeavesRoom(all, RECEIVE_CAPACITY);
      Receive(chunk);
      var consumed := HandleBuffer();
      Compact(consumed);
      used := ResetWhenFull(used);
    }

    method Receive(chunk: seq<byte>)
      requires buffer.Length == RECEIVE_CAPACITY && used + |chunk| <= RECEIVE_CAPACITY
      modifies `used, buffer
      ensures used == old(used) + |chunk| && buffer[..used] == old(buffer[..used]) + chunk
    {
      ghost var was := buffer[..used];
      for i := 0 to |chunk|
        modifies buffer
        invariant forall j :: 0 <= j < used ==> buffer[j] == was[j]
        invariant forall j :: 0 <= j < i ==> buffer[used + j] == chunk[j]
      {
        buffer[used + i] := chunk[i];
      }
      used := used + |chunk|;
      assert buffer[..used] == was + chunk;
    }

    /** Move the unconsumed bytes to the front. */
    method Compact(consumed: nat)
      requires buffer.Length == RECEIVE_CAPACITY && consumed <= used <= RECEIVE_CAPACITY
      modifies `used, buffer
      ensures used == old(used) - consumed && buffer[..used] == old(buffer[..used])[consumed..]
    {
      if consumed != 0 {
        ghost var was := buffer[..used];
        for i := consumed to used
          modifies buffer
          invariant forall j :: 0 <= j < i - consumed ==> buffer[j] == was[consumed + j]
          invariant forall j :: i - consumed <= j < used ==> buffer[j] == was[j]
        {
          buffer[i - consumed] := buffer[i];
        }
        used := used - consumed;
      }
    }

    method Dispatch(
      m: seq<byte>, pending: array<Rect>, ghost goal: (Screen, seq<Frame>), ghost before: seq<Frame>,
      ghost rest: seq<seq<byte>>)
      requires pending.Length == MAX_WINDOWS && |m| >= HEADER_SIZE
      requires Remaining(display, env, goal, State(), seen, pending[..], [m] + rest, before, rendered)
      modifies `windows, `nextId, `attempts, `rendered, `seen, pending
      ensures Remaining(display, env, goal, State(), seen, pending[..], rest, before, rendered)
      ensures seen == old(seen) + 1
    {
      hide Handle, Flushed, Frames;
      ghost var s, was, sofar := State(), pending[..], rendered;
      var taken := AccumulateDamage(m, pending);
      if taken {
        RemainingAfterDamage(display, env, goal, s, seen, was, m, rest, before, sofar);
        seen := seen + 1;
      } else {
        RemainingAfterOther(display, env, goal, s, seen, was, m, rest, before, sofar, Handle(display, env, s, m));
        FlushDamage(pending);
        seen := seen + 1;
        HandleMessage(m);
      }
    }

    /** The parse loop over the received bytes. */
    method HandleBuffer() returns (consumed: nat)
      requires buffer.Length == RECEIVE_CAPACITY && used <= RECEIVE_CAPACITY && |windows| <= MAX_WINDOWS
      modifies `windows, `nextId, `attempts, `rendered, `seen
      ensures consumed <= used && |windows| <= MAX_WINDOWS
      ensures buffer[..used][consumed..] == Parse(buffer[..used], RECEIVE_CAPACITY).rest
      ensures Whole(Parse(buffer[..used], RECEIVE_CAPACITY).messages)
      ensures seen == old(seen) + |Parse(buffer[..used], RECEIVE_CAPACITY).messages|
      ensures var b := Batch(display, env, old(State()), old(seen), NOTHING_PENDING,
                             Parse(buffer[..used], RECEIVE_CAPACITY).messages);
              State() == b.0 && rendered == old(rendered) + b.1
    {
      hide Parse, SizeField, Flushed, Handle, Batch, Remaining, Whole, Frames;
      ghost var p := Parse(buffer[..used], RECEIVE_CAPACITY);
      ParsedAreWhole(buffer[..used], RECEIVE_CAPACITY);
      ghost var goal, before := Batch(display, env, State(), seen, NOTHING_PENDING, p.messages), rendered;
      consumed := 0;
      var pending := new Rect[MAX_WINDOWS](_ => EMPTY);
      assert pending[..] == NOTHING_PENDING && buffer[..used][0..] == buffer[..used];
      ghost var left := p.messages;
      AllRemains(display, env, State(), seen, NOTHING_PENDING, left, before);
      while used - consumed >= HEADER_SIZE
        modifies `windows, `nextId, `attempts, `rendered, `seen, pending
        invariant consumed <= used
        invariant Parse(buffer[..used][consumed..], RECEIVE_CAPACITY) == Parsed(left, p.rest)
        invariant seen + |left| == old(seen) + |p.messages|
        invariant Remaining(display, env, goal, State(), seen, pending[..], left, before, rendered)
      {
        ghost var tail := buffer[..used][consumed..];
        ParseStep(tail, RECEIVE_CAPACITY);
        var size := SizeField(buffer[..used][consumed..]);
        if size < HEADER_SIZE || size > RECEIVE_CAPACITY {
          consumed := consumed + 1;
          assert tail[1..] == buffer[..used][consumed..];
          continue;
        }
        if used - consumed < size { break; }
        var m := buffer[..used][consumed..][..size];
        ghost var rest := Parse(tail[size..], RECEIVE_CAPACITY).messages;
        assert left == [m] + rest;
        Dispatch(m, pending, goal, before, rest);
        left := rest;
        consumed := consumed + size;
        assert tail[size..] == buffer[..used][consumed..];
      }
      if used - consumed < HEADER_SIZE { ParseEnds(buffer[..used][consumed..], RECEIVE_CAPACITY); }
      NothingRemains(display, env, goal, State(), seen, pending[..], before, rendered);
      FlushDamage(pending);
    }
  }
}
