/** Whole sessions of the desktop server: the screen is right after every read, and damage reaches it. */
module DesktopSessions {
  import opened Basics
  import opened Geometry
  import opened Compositor
  import opened Streams
  import opened Desktop

  // ---- every change is rendered ------------------------------------------------------------

  lemma RepaintCovers(d: Display, windows: seq<Window>, op: Op<Window>, x: int, y: int)
    ensures || Shown(Restacked(windows, MAX_WINDOWS, op), x, y) == Shown(windows, x, y)
            || Covered(Repaint(d, windows, op), x, y)
  {
    hide Appearance, Restacked, Dirtied, InvalidatedAll, Covered;
    var dirt := Dirtied(windows, MAX_WINDOWS, DamageBounds, op);
    ChangeIsDirtied(windows, MAX_WINDOWS, DamageBounds, op, x, y);
    CoveredConcat(dirt, [TaskbarRect(d)], x, y);
    if Covered(dirt, x, y) { InvalidatedAllCovers([], SCENE_CAPACITY, dirt + [TaskbarRect(d)], x, y); }
  }

  /** A change of the stack also repaints the whole task bar. */
  lemma RepaintCoversTaskbar(d: Display, windows: seq<Window>, op: Op<Window>, x: int, y: int)
    requires 0 <= x < d.width && d.height - d.taskbarHeight <= y < d.height
    ensures Covered(Repaint(d, windows, op), x, y)
  {
    hide Dirtied, InvalidatedAll;
    var dirt := Dirtied(windows, MAX_WINDOWS, DamageBounds, op);
    assert Contains([TaskbarRect(d)][0], x, y);
    CoveredConcat(dirt, [TaskbarRect(d)], x, y);
    InvalidatedAllCovers([], SCENE_CAPACITY, dirt + [TaskbarRect(d)], x, y);
  }

  /** One message: a pixel that shows something else afterwards is rendered. */
  lemma HandleShows(d: Display, env: nat -> Answer, s: Screen, m: seq<byte>, x: int, y: int)
    requires Fits(s) && |m| >= HEADER_SIZE
    ensures var h := Handle(d, env, s, m);
            Shown(h.0.windows, x, y) == Shown(s.windows, x, y) || Covered(h.1, x, y)
  {
    hide Appearance, Restacked, Repaint, Covered, ValidCreate, NewWindow, DamageRects;
    if |m| == CREATE_SIZE { RepaintCovers(d, s.windows, Op.Push(NewWindow(d, FreshId(s.nextId).0, m)), x, y); }
    RepaintCovers(d, s.windows, Op.Erase(Target(s.windows, m)), x, y);
  }

  // ---- the reference: messages handled one at a time -----------------------------------------------

  function Then(first: (Screen, seq<Frame>), second: (Screen, seq<Frame>)): (Screen, seq<Frame>) {
    (second.0, first.1 + second.1)
  }

  lemma ThenIsAssociative(a: (Screen, seq<Frame>), b: (Screen, seq<Frame>), c: (Screen, seq<Frame>))
    ensures Then(Then(a, b), c) == Then(a, Then(b, c))
  {
    assert a.1 + b.1 + c.1 == a.1 + (b.1 + c.1);
  }

  /** The outcome of one message, which is rendered at once. */
  function One(d: Display, env: nat -> Answer, s: Screen, seen: nat, m: seq<byte>): (r: (Screen, seq<Frame>))
    requires Fits(s) && |m| >= HEADER_SIZE
    ensures Fits(r.0)
  {
    var (s1, rects) := Handle(d, env, s, m);
    (s1, Frames(s1.windows, seen + 1, rects))
  }

  /** The messages handled one at a time, after `seen` others. */
  function OneByOne(
    d: Display, env: nat -> Answer, s: Screen, seen: nat, messages: seq<seq<byte>>): (r: (Screen, seq<Frame>))
    requires Fits(s) && Whole(messages)
    ensures Fits(r.0)
    decreases |messages|
  {
    if messages == [] then (s, [])
    else
      var first := One(d, env, s, seen, messages[0]);
      Then(first, OneByOne(d, env, first.0, seen + 1, messages[1..]))
  }

  lemma {:induction false} OneByOneConcat(
    d: Display, env: nat -> Answer, s: Screen, seen: nat, a: seq<seq<byte>>, b: seq<seq<byte>>)
    requires Fits(s) && Whole(a) && Whole(b)
    ensures Whole(a + b)
    ensures var first := OneByOne(d, env, s, seen, a);
            OneByOne(d, env, s, seen, a + b) == Then(first, OneByOne(d, env, first.0, seen + |a|, b))
    decreases |a|
  {
    hide One;
    if a == [] {
      assert a + b == b;
      assert [] + OneByOne(d, env, s, seen, b).1 == OneByOne(d, env, s, seen, b).1;
    } else {
      assert (a + b)[1..] == a[1..] + b && (a + b)[0] == a[0];
      var first := One(d, env, s, seen, a[0]);
      OneByOneConcat(d, env, first.0, seen + 1, a[1..], b);
      var second := OneByOne(d, env, first.0, seen + 1, a[1..]);
      ThenIsAssociative(first, second, OneByOne(d, env, second.0, seen + |a|, b));
    }
  }

  /** The screen after the first `k` messages. */
  function ScreenAfter(d: Display, env: nat -> Answer, s: Screen, messages: seq<seq<byte>>, k: nat): (r: Screen)
    requires Fits(s) && Whole(messages) && k <= |messages|
    ensures Fits(r)
    decreases k
  {
    if k == 0 then s else ScreenAfter(d, env, Handle(d, env, s, messages[0]).0, messages[1..], k - 1)
  }

  lemma {:induction false} ScreenAfterAll(
    d: Display, env: nat -> Answer, s: Screen, seen: nat, messages: seq<seq<byte>>)
    requires Fits(s) && Whole(messages)
    ensures ScreenAfter(d, env, s, messages, |messages|) == OneByOne(d, env, s, seen, messages).0
    decreases |messages|
  {
    if messages != [] { ScreenAfterAll(d, env, Handle(d, env, s, messages[0]).0, seen + 1, messages[1..]); }
  }

  /** A message calls for a pixel: it renders it when handled by itself, or the pixel shows something else after it. */
  predicate Calls(d: Display, env: nat -> Answer, s: Screen, m: seq<byte>, x: int, y: int)
    requires Fits(s) && |m| >= HEADER_SIZE
  {
    var h := Handle(d, env, s, m);
    Covered(h.1, x, y) || Shown(h.0.windows, x, y) != Shown(s.windows, x, y)
  }

  /** One message, handled by itself: a pixel that was right stays right, and was just drawn if it was called for. */
  lemma OneShows(d: Display, env: nat -> Answer, s: Screen, seen: nat, m: seq<byte>, q: Pixel, x: int, y: int)
    requires Fits(s) && |m| >= HEADER_SIZE && q.shown == Shown(s.windows, x, y)
    ensures var h := Handle(d, env, s, m);
            && Painted(q, One(d, env, s, seen, m).1, x, y)
               == (if Covered(h.1, x, y) then Pixel(Shown(h.0.windows, x, y), seen + 1) else q)
            && Painted(q, One(d, env, s, seen, m).1, x, y).shown == Shown(h.0.windows, x, y)
            && (Calls(d, env, s, m, x, y) <==> Covered(h.1, x, y))
  {
    hide Handle, Shown, Frames, Covered, Painted;
    var h := Handle(d, env, s, m);
    PaintedFrames(q, h.0.windows, seen + 1, h.1, x, y);
    HandleShows(d, env, s, m, x, y);
  }

  lemma {:induction false} OneByOneLater(
    d: Display, env: nat -> Answer, s: Screen, seen: nat, messages: seq<seq<byte>>, q: Pixel, x: int, y: int)
    requires Fits(s) && Whole(messages) && q.shown == Shown(s.windows, x, y) && q.seen <= seen
    ensures q.seen <= Painted(q, OneByOne(d, env, s, seen, messages).1, x, y).seen
    decreases |messages|
  {
    hide Handle, Shown, Covered, Painted, One;
    if messages != [] {
      var first := One(d, env, s, seen, messages[0]);
      OneShows(d, env, s, seen, messages[0], q, x, y);
      OneIs(d, env, s, seen, messages[0]);
      OneByOneLater(d, env, first.0, seen + 1, messages[1..], Painted(q, first.1, x, y), x, y);
      PaintedConcat(q, first.1, OneByOne(d, env, first.0, seen + 1, messages[1..]).1, x, y);
    } else {
      NothingPainted(q, x, y);
    }
  }

  lemma OneIs(d: Display, env: nat -> Answer, s: Screen, seen: nat, m: seq<byte>)
    requires Fits(s) && |m| >= HEADER_SIZE
    ensures One(d, env, s, seen, m).0 == Handle(d, env, s, m).0
  {
  }

  lemma NothingPainted(p: Pixel, x: int, y: int)
    ensures Painted(p, [], x, y) == p
  {
  }

  /** Handled one at a time, whatever message calls for a pixel, the pixel is drawn after that message. */
  lemma {:induction false} CallIsPainted(
    d: Display, env: nat -> Answer, s: Screen, seen: nat, messages: seq<seq<byte>>, k: nat, q: Pixel, x: int, y: int)
    requires Fits(s) && Whole(messages) && k < |messages| && q.shown == Shown(s.windows, x, y) && q.seen <= seen
    ensures Calls(d, env, ScreenAfter(d, env, s, messages, k), messages[k], x, y)
            ==> Painted(q, OneByOne(d, env, s, seen, messages).1, x, y).seen > seen + k
    decreases k
  {
    hide Handle, Shown, Covered, Painted, One, Calls;
    var first := One(d, env, s, seen, messages[0]);
    var q1 := Painted(q, first.1, x, y);
    OneShows(d, env, s, seen, messages[0], q, x, y);
    OneIs(d, env, s, seen, messages[0]);
    PaintedConcat(q, first.1, OneByOne(d, env, first.0, seen + 1, messages[1..]).1, x, y);
    if k == 0 {
      OneByOneLater(d, env, first.0, seen + 1, messages[1..], q1, x, y);
    } else {
      CallIsPainted(d, env, first.0, seen + 1, messages[1..], k - 1, q1, x, y);
    }
  }

  // ---- coalesced damage ------------------------------------------------------------

  lemma {:induction false} CombinedCovers(pending: seq<Rect>, x: int, y: int)
    requires Covered(pending, x, y)
    ensures Contains(Combined(pending), x, y) && Covered(Flushed(pending), x, y)
  {
    var n := |pending| - 1;
    var k :| 0 <= k < |pending| && Contains(pending[k], x, y);
    UniteIsHull(Combined(pending[..n]), pending[n]);
    if k < n {
      assert Contains(pending[..n][k], x, y);
      CombinedCovers(pending[..n], x, y);
    }
    assert Contains(Flushed(pending)[0], x, y);
  }

  lemma AccumulatedCovers(d: Display, env: nat -> Answer, s: Screen, pending: seq<Rect>, m: seq<byte>, x: int, y: int)
    requires Fits(s) && |pending| == MAX_WINDOWS && |m| >= HEADER_SIZE && IsDamage(m)
    requires Covered(pending, x, y) || Covered(Handle(d, env, s, m).1, x, y)
    ensures Covered(Accumulated(s.windows, pending, m), x, y)
  {
    var i, r := Target(s.windows, m), Accumulated(s.windows, pending, m);
    if i < |s.windows| && DamageRects(s.windows[i], m) != [] {
      UniteIsHull(pending[i], DamageRects(s.windows[i], m)[0]);
      if Covered(pending, x, y) {
        var k :| 0 <= k < |pending| && Contains(pending[k], x, y);
        assert Contains(r[k], x, y);
      } else {
        assert Contains(r[i], x, y);
      }
    }
  }

  /** A pixel of the coalescing screen and the same pixel of the reference, after the same messages: both show the
      windows as they are, and the first was drawn no earlier than the second, or damage is pending there. */
  ghost predicate InStep(s: Screen, seen: nat, pending: seq<Rect>, p: Pixel, q: Pixel, x: int, y: int) {
    && p.shown == q.shown == Shown(s.windows, x, y) && q.seen <= seen
    && (q.seen <= p.seen || Covered(pending, x, y))
  }

  lemma NothingIsCovered(x: int, y: int)
    ensures !Covered([], x, y) && !Covered(NOTHING_PENDING, x, y)
  {
  }

  /** Rendering what is pending brings the pixel up to date. */
  lemma FlushShows(s: Screen, seen: nat, pending: seq<Rect>, p: Pixel, q: Pixel, x: int, y: int)
    requires InStep(s, seen, pending, p, q, x, y)
    ensures InStep(s, seen, [], Painted(p, Frames(s.windows, seen, Flushed(pending)), x, y), q, x, y)
  {
    hide Flushed, Frames, Painted, Shown;
    PaintedFrames(p, s.windows, seen, Flushed(pending), x, y);
    if Covered(pending, x, y) { CombinedCovers(pending, x, y); }
  }

  /** A damage message: the reference renders it at once, the server takes note. */
  lemma DamageInStep(
    d: Display, env: nat -> Answer, s: Screen, seen: nat, pending: seq<Rect>, m: seq<byte>, p: Pixel, q: Pixel,
    x: int, y: int)
    requires Fits(s) && |pending| == MAX_WINDOWS && |m| >= HEADER_SIZE && IsDamage(m)
    requires InStep(s, seen, pending, p, q, x, y)
    ensures One(d, env, s, seen, m).0 == s
    ensures InStep(s, seen + 1, Accumulated(s.windows, pending, m), p,
                   Painted(q, One(d, env, s, seen, m).1, x, y), x, y)
  {
    hide Accumulated, Painted, Shown, DamageRects;
    OneShows(d, env, s, seen, m, q, x, y);
    if Covered(pending, x, y) || Covered(Handle(d, env, s, m).1, x, y) {
      AccumulatedCovers(d, env, s, pending, m, x, y);
    }
  }

  /** Any other message: what is pending is rendered first, and both render the message alike. */
  lemma OtherInStep(
    d: Display, env: nat -> Answer, s: Screen, seen: nat, pending: seq<Rect>, m: seq<byte>, p: Pixel, q: Pixel,
    x: int, y: int)
    requires Fits(s) && |pending| == MAX_WINDOWS && |m| >= HEADER_SIZE
    requires InStep(s, seen, pending, p, q, x, y)
    ensures var one := One(d, env, s, seen, m);
            InStep(one.0, seen + 1, Cleared(pending),
                   Painted(p, Frames(s.windows, seen, Flushed(pending)) + one.1, x, y), Painted(q, one.1, x, y), x, y)
  {
    hide Handle, Painted, Shown, Frames, Flushed, Cleared, Covered, One;
    var p1 := Painted(p, Frames(s.windows, seen, Flushed(pending)), x, y);
    var one := One(d, env, s, seen, m);
    FlushShows(s, seen, pending, p, q, x, y);
    NothingIsCovered(x, y);
    PaintedConcat(p, Frames(s.windows, seen, Flushed(pending)), one.1, x, y);
    OneIs(d, env, s, seen, m);
    OneShows(d, env, s, seen, m, p1, x, y);
    OneShows(d, env, s, seen, m, q, x, y);
  }

  /** Batch refinement: coalescing leaves the same window stack as handling the messages one at a time, every pixel
      shows the same, and none was last drawn any earlier. */
  lemma {:induction false} BatchRefines(
    d: Display, env: nat -> Answer, s: Screen, seen: nat, pending: seq<Rect>, messages: seq<seq<byte>>,
    p: Pixel, q: Pixel, x: int, y: int)
    requires Fits(s) && Whole(messages) && |pending| == MAX_WINDOWS && InStep(s, seen, pending, p, q, x, y)
    ensures var b, reference := Batch(d, env, s, seen, pending, messages), OneByOne(d, env, s, seen, messages);
            && b.0 == reference.0
            && InStep(b.0, seen + |messages|, [], Painted(p, b.1, x, y), Painted(q, reference.1, x, y), x, y)
    decreases |messages|
  {
    hide IsDamage, Handle, Accumulated, Cleared, Flushed, Frames, Painted, InStep;
    if messages == [] {
      FlushShows(s, seen, pending, p, q, x, y);
      NothingPainted(q, x, y);
    } else {
      var m, rest := messages[0], messages[1..];
      var one := One(d, env, s, seen, m);
      var q1 := Painted(q, one.1, x, y);
      PaintedConcat(q, one.1, OneByOne(d, env, one.0, seen + 1, rest).1, x, y);
      if IsDamage(m) {
        DamageInStep(d, env, s, seen, pending, m, p, q, x, y);
        BatchRefines(d, env, s, seen + 1, Accumulated(s.windows, pending, m), rest, p, q1, x, y);
      } else {
        var now := Frames(s.windows, seen, Flushed(pending)) + one.1;
        OtherInStep(d, env, s, seen, pending, m, p, q, x, y);
        BatchRefines(d, env, one.0, seen + 1, Cleared(pending), rest, Painted(p, now, x, y), q1, x, y);
        PaintedConcat(p, now, Batch(d, env, one.0, seen + 1, Cleared(pending), rest).1, x, y);
      }
    }
  }

  predicate AllInside(rects: seq<Rect>, box: Rect) {
    forall i :: 0 <= i < |rects| && Nonempty(rects[i]) ==> Inside(rects[i], box)
  }

  lemma {:induction false} CombinedInside(pending: seq<Rect>, box: Rect)
    requires AllInside(pending, box)
    ensures Nonempty(Combined(pending)) ==> Inside(Combined(pending), box)
  {
    if pending != [] {
      var n := |pending| - 1;
      CombinedInside(pending[..n], box);
      if Nonempty(pending[n]) && Nonempty(Combined(pending[..n])) { UniteIsHull(Combined(pending[..n]), pending[n]); }
    }
  }

  lemma AccumulatedInside(windows: seq<Window>, pending: seq<Rect>, m: seq<byte>, box: Rect)
    requires |windows| <= |pending| && |m| >= HEADER_SIZE && IsDamage(m)
    requires AllInside(pending, box)
    requires Target(windows, m) < |windows| ==> AllInside(DamageRects(windows[Target(windows, m)], m), box)
    ensures AllInside(Accumulated(windows, pending, m), box)
  {
    var i := Target(windows, m);
    if i < |windows| && DamageRects(windows[i], m) != [] {
      var r := DamageRects(windows[i], m)[0];
      if Nonempty(pending[i]) && Nonempty(r) { UniteIsHull(pending[i], r); }
    }
  }

  /** Nothing was rendered outside a box. */
  ghost predicate DrawnInside(frames: seq<Frame>, box: Rect) {
    forall f :: f in frames && Nonempty(f.rect) ==> Inside(f.rect, box)
  }

  lemma {:induction false} FramesInside(windows: seq<Window>, seen: nat, rects: seq<Rect>, box: Rect)
    ensures DrawnInside(Frames(windows, seen, rects), box) <==> AllInside(rects, box)
    decreases |rects|
  {
    if rects != [] {
      var n := |rects| - 1;
      assert rects == rects[..n] + [rects[n]];
      FramesInside(windows, seen, rects[..n], box);
      InsideConcat(rects[..n], [rects[n]], box);
      assert AllInside([rects[n]], box) <==> (Nonempty(rects[n]) ==> Inside(rects[n], box));
      DrawnConcat(Frames(windows, seen, rects[..n]), [Frame(windows, seen, rects[n])], box);
      assert Frame(windows, seen, rects[n]) in [Frame(windows, seen, rects[n])];
    }
  }

  lemma DrawnConcat(a: seq<Frame>, b: seq<Frame>, box: Rect)
    ensures DrawnInside(a + b, box) <==> DrawnInside(a, box) && DrawnInside(b, box)
  {
    assert forall f :: f in a + b <==> f in a || f in b;
  }

  /** Coalescing renders nothing outside a box around the one-at-a-time renders. */
  lemma {:induction false} BatchStaysInHull(
    d: Display, env: nat -> Answer, s: Screen, seen: nat, pending: seq<Rect>, messages: seq<seq<byte>>, box: Rect)
    requires Fits(s) && Whole(messages) && |pending| == MAX_WINDOWS
    requires AllInside(pending, box)
    ensures DrawnInside(OneByOne(d, env, s, seen, messages).1, box)
            ==> DrawnInside(Batch(d, env, s, seen, pending, messages).1, box)
    decreases |messages|
  {
    hide Frames, AllInside, DrawnInside, Handle, Flushed, Cleared, Accumulated, IsDamage;
    FlushedInside(pending, box);
    FramesInside(s.windows, seen, Flushed(pending), box);
    if messages != [] {
      var m, rest := messages[0], messages[1..];
      var (s1, now) := Handle(d, env, s, m);
      FramesInside(s1.windows, seen + 1, now, box);
      DrawnConcat(Frames(s1.windows, seen + 1, now), OneByOne(d, env, s1, seen + 1, rest).1, box);
      if !DrawnInside(OneByOne(d, env, s, seen, messages).1, box) { return; }
      if IsDamage(m) {
        DamageInside(d, env, s, pending, m, box);
        BatchStaysInHull(d, env, s, seen + 1, Accumulated(s.windows, pending, m), rest, box);
      } else {
        BatchStaysInHull(d, env, s1, seen + 1, Cleared(pending), rest, box);
        var flushed := Frames(s.windows, seen, Flushed(pending));
        DrawnConcat(flushed, Frames(s1.windows, seen + 1, now), box);
        DrawnConcat(flushed + Frames(s1.windows, seen + 1, now),
                    Batch(d, env, s1, seen + 1, Cleared(pending), rest).1, box);
      }
    }
  }

  lemma FlushedInside(pending: seq<Rect>, box: Rect)
    requires AllInside(pending, box)
    ensures AllInside(Flushed(pending), box) && AllInside(Cleared(pending), box)
  {
    CombinedInside(pending, box);
    ClearedAt(pending);
  }

  lemma DamageInside(d: Display, env: nat -> Answer, s: Screen, pending: seq<Rect>, m: seq<byte>, box: Rect)
    requires Fits(s) && |pending| == MAX_WINDOWS && |m| >= HEADER_SIZE && IsDamage(m)
    requires AllInside(pending, box)
    ensures Handle(d, env, s, m).0 == s
    ensures AllInside(Handle(d, env, s, m).1, box) ==> AllInside(Accumulated(s.windows, pending, m), box)
  {
    if AllInside(Handle(d, env, s, m).1, box) { AccumulatedInside(s.windows, pending, m, box); }
  }

  lemma InsideConcat(a: seq<Rect>, b: seq<Rect>, box: Rect)
    ensures AllInside(a + b, box) <==> AllInside(a, box) && AllInside(b, box)
  {
    if AllInside(a + b, box) {
      forall i | 0 <= i < |a| && Nonempty(a[i]) ensures Inside(a[i], box) { assert (a + b)[i] == a[i]; }
      forall i | 0 <= i < |b| && Nonempty(b[i]) ensures Inside(b[i], box) { assert (a + b)[|a| + i] == b[i]; }
    }
  }

  // ---- whole sessions ------------------------------------------------------------

  /** The server fed with one read after another, each batch coalesced. */
  ghost function Session(
    d: Display, env: nat -> Answer, s: Screen, seen: nat, rest: seq<byte>, chunks: seq<seq<byte>>
  ): (r: (Screen, seq<Frame>))
    requires Fits(s)
    ensures Fits(r.0)
    decreases |chunks|
  {
    if chunks == [] then (s, [])
    else
      var p := Parse(rest + chunks[0], RECEIVE_CAPACITY);
      ParsedAreWhole(rest + chunks[0], RECEIVE_CAPACITY);
      var (s1, now) := Batch(d, env, s, seen, NOTHING_PENDING, p.messages);
      Then((s1, now), Session(d, env, s1, seen + |p.messages|, p.rest, chunks[1..]))
  }

  /** However the client's bytes are cut into reads, the server ends with the windows it would have had by handling
      each message of the stream by itself, every pixel shows the same as on a screen that is rendered after each
      message, and none was last drawn any earlier. */
  lemma {:induction false} SessionRefines(
    d: Display, env: nat -> Answer, s: Screen, seen: nat, rest: seq<byte>, chunks: seq<seq<byte>>,
    p: Pixel, q: Pixel, x: int, y: int)
    requires Fits(s) && Parse(rest, RECEIVE_CAPACITY) == Parsed([], rest) && InStep(s, seen, [], p, q, x, y)
    ensures Whole(Parse(rest + Flatten(chunks), RECEIVE_CAPACITY).messages)
    ensures var messages := Parse(rest + Flatten(chunks), RECEIVE_CAPACITY).messages;
            var session, reference := Session(d, env, s, seen, rest, chunks), OneByOne(d, env, s, seen, messages);
            && session.0 == reference.0
            && InStep(session.0, seen + |messages|, [],
                      Painted(p, session.1, x, y), Painted(q, reference.1, x, y), x, y)
    decreases |chunks|
  {
    hide Parse, Batch, OneByOne, Painted, InStep, Whole;
    ParsedAreWhole(rest + Flatten(chunks), RECEIVE_CAPACITY);
    FedIsParse(rest, chunks, RECEIVE_CAPACITY);
    if chunks == [] {
      NoneByNone(d, env, s, seen);
      NothingPainted(p, x, y);
      NothingPainted(q, x, y);
    } else {
      var now := Parse(rest + chunks[0], RECEIVE_CAPACITY);
      var later := Fed(now.rest, chunks[1..], RECEIVE_CAPACITY);
      ParsedAreWhole(rest + chunks[0], RECEIVE_CAPACITY);
      RestIsStuck(rest + chunks[0], RECEIVE_CAPACITY);
      FedIsParse(now.rest, chunks[1..], RECEIVE_CAPACITY);
      ParsedAreWhole(now.rest + Flatten(chunks[1..]), RECEIVE_CAPACITY);
      var b := Batch(d, env, s, seen, NOTHING_PENDING, now.messages);
      var first := OneByOne(d, env, s, seen, now.messages);
      var seen1 := seen + |now.messages|;
      StartInStep(s, seen, p, q, x, y);
      BatchRefines(d, env, s, seen, NOTHING_PENDING, now.messages, p, q, x, y);
      SessionRefines(d, env, b.0, seen1, now.rest, chunks[1..], Painted(p, b.1, x, y), Painted(q, first.1, x, y), x, y);
      OneByOneConcat(d, env, s, seen, now.messages, later.messages);
      PaintedConcat(p, b.1, Session(d, env, b.0, seen1, now.rest, chunks[1..]).1, x, y);
      PaintedConcat(q, first.1, OneByOne(d, env, first.0, seen1, later.messages).1, x, y);
    }
  }

  lemma NoneByNone(d: Display, env: nat -> Answer, s: Screen, seen: nat)
    requires Fits(s)
    ensures OneByOne(d, env, s, seen, []) == (s, [])
  {
  }

  lemma StartInStep(s: Screen, seen: nat, p: Pixel, q: Pixel, x: int, y: int)
    requires InStep(s, seen, [], p, q, x, y)
    ensures InStep(s, seen, NOTHING_PENDING, p, q, x, y)
  {
    NothingIsCovered(x, y);
  }

  /** Over any session, however the bytes are cut into reads and however damage is coalesced: a pixel that was right
      at first shows the windows as they are after the last read, and it was drawn after every message that called for
      it, be it by damage or by changing what the pixel shows. */
  lemma SessionShows(
    d: Display, env: nat -> Answer, s: Screen, rest: seq<byte>, chunks: seq<seq<byte>>, p: Pixel, k: nat,
    x: int, y: int)
    requires Fits(s) && Parse(rest, RECEIVE_CAPACITY) == Parsed([], rest) && p.shown == Shown(s.windows, x, y)
    ensures Whole(Parse(rest + Flatten(chunks), RECEIVE_CAPACITY).messages)
    ensures var messages := Parse(rest + Flatten(chunks), RECEIVE_CAPACITY).messages;
            var (last, frames) := Session(d, env, s, 0, rest, chunks);
            && last == ScreenAfter(d, env, s, messages, |messages|)
            && Painted(p, frames, x, y).shown == Shown(last.windows, x, y)
            && (k < |messages| && Calls(d, env, ScreenAfter(d, env, s, messages, k), messages[k], x, y)
                ==> Painted(p, frames, x, y).seen > k)
  {
    hide Parse, Shown, Session, OneByOne, Calls, Painted, Covered, ScreenAfter;
    ParsedAreWhole(rest + Flatten(chunks), RECEIVE_CAPACITY);
    var messages, q := Parse(rest + Flatten(chunks), RECEIVE_CAPACITY).messages, Pixel(p.shown, 0);
    SessionRefines(d, env, s, 0, rest, chunks, p, q, x, y);
    ScreenAfterAll(d, env, s, 0, messages);
    NothingIsCovered(x, y);
    if k < |messages| && Calls(d, env, ScreenAfter(d, env, s, messages, k), messages[k], x, y) {
      CallIsPainted(d, env, s, 0, messages, k, q, x, y);
    }
  }

  // ---- windows stay small enough to scale ------------------------------------------------------

  /** The widest window for which the product with the widest surface, plus one row, fits 32 bits. */
  const WIDEST := 2_236_961

  /** A display that leaves room for a title bar above the task bar and is no wider than that. */
  predicate Real(d: Display) {
    0 < d.width <= WIDEST && d.taskbarHeight + TITLE_HEIGHT < d.height <= WIDEST - 100
  }

  predicate Scales(d: Display, w: Window) {
    && 0 < w.surfaceWidth <= MAX_SURFACE_WIDTH && 0 < w.surfaceHeight <= MAX_SURFACE_HEIGHT
    && 0 < w.width <= WIDEST && 0 < w.height <= WIDEST
    && -100 <= w.y < d.height - d.taskbarHeight - TITLE_HEIGHT
  }

  predicate AllScale(d: Display, windows: seq<Window>) {
    forall w :: w in windows ==> Scales(d, w)
  }

  function U32(n: int): nat { n % TWO_32 }

  /** Dragging a window keeps part of it on screen. */
  function Dragged(d: Display, w: Window, x: int, y: int): Window {
    var minX, maxX, maxY := 40 - w.width, d.width - 40, d.height - d.taskbarHeight - TITLE_HEIGHT - 100;
    var x1, y1 := if x < minX then minX else x, if y < 0 then 0 else y;
    w.(x := if x1 > maxX then maxX else x1, y := if y1 > maxY then maxY else y1)
  }

  /** Resizing follows the cursor, but not below a least size nor over the edge of the screen. */
  function Resized(d: Display, w: Window, cursorX: int, cursorY: int): Window {
    var width, height := cursorX - w.x + 1, cursorY - w.y - TITLE_HEIGHT + 1;
    var maxWidth, maxHeight := d.width, d.height - d.taskbarHeight - w.y - TITLE_HEIGHT;
    var width1, height1 := if width < 160 then 160 else width, if height < 100 then 100 else height;
    w.(width := U32(if width1 > maxWidth then maxWidth else width1),
       height := U32(if height1 > maxHeight then maxHeight else height1))
  }

  /** Within the limits, a drag puts the window where it is asked for, and a resize its lower right corner under the
      cursor; neither changes anything else. */
  lemma MouseIsFollowed(d: Display, w: Window, x: int, y: int)
    ensures 40 - w.width <= x <= d.width - 40 && 0 <= y <= d.height - d.taskbarHeight - TITLE_HEIGHT - 100
            ==> Dragged(d, w, x, y) == w.(x := x, y := y)
    ensures var r := Resized(d, w, x, y);
            160 <= x - w.x + 1 <= d.width < TWO_32 && 100 <= y - w.y - TITLE_HEIGHT + 1
            && w.y >= 0 && y < d.height - d.taskbarHeight && d.height < TWO_32
            ==> r == w.(width := r.width, height := r.height)
                && r.x + r.width - 1 == x && r.y + TITLE_HEIGHT + r.height - 1 == y
  {
  }

  /** What can happen to the windows: a message, or the mouse on one of them. */
  datatype Action =
    | Message(m: seq<byte>)
    | Focus(i: nat)
    | Drag(i: nat, x: int, y: int)
    | Resize(i: nat, cursorX: int, cursorY: int)

  function Act(d: Display, env: nat -> Answer, s: Screen, a: Action): (r: Screen)
    requires Fits(s)
    ensures Fits(r)
  {
    match a
    case Message(m) => if |m| >= HEADER_SIZE then Handle(d, env, s, m).0 else s
    case Focus(i) => s.(windows := Restacked(s.windows, MAX_WINDOWS, Op.Raise(i)))
    case Drag(i, x, y) =>
      if i >= |s.windows| then s else s.(windows := s.windows[i := Dragged(d, s.windows[i], x, y)])
    case Resize(i, cx, cy) =>
      if i >= |s.windows| then s else s.(windows := s.windows[i := Resized(d, s.windows[i], cx, cy)])
  }

  function Acts(d: Display, env: nat -> Answer, s: Screen, actions: seq<Action>): (r: Screen)
    requires Fits(s)
    ensures Fits(r)
    decreases |actions|
  {
    if actions == [] then s else Acts(d, env, Act(d, env, s, actions[0]), actions[1..])
  }

  // ---- window ids ----------------------------------------------------------------------

  /** Ids are distinct, not zero, and below the next one, which counts the requests that opened a window. */
  ghost predicate Numbered(s: Screen) {
    && DistinctIds(s.windows) && (forall w :: w in s.windows ==> 0 < w.id < s.nextId)
    && 1 <= s.nextId <= s.attempts + 1
  }

  lemma RestackedKeepsIds(windows: seq<Window>, op: Op<Window>)
    requires DistinctIds(windows) && !op.Push?
    ensures DistinctIds(Restacked(windows, MAX_WINDOWS, op))
    ensures forall w :: w in Restacked(windows, MAX_WINDOWS, op) ==> w in windows
  {
    var i := op.index;
    if i < |windows| { RestackedAt(windows, MAX_WINDOWS, i); }
  }

  lemma PushKeepsNumbered(windows: seq<Window>, w: Window, next: nat)
    requires DistinctIds(windows) && (forall v :: v in windows ==> 0 < v.id < next) && w.id == next > 0
    ensures DistinctIds(windows + [w]) && forall v :: v in windows + [w] ==> 0 < v.id < next + 1
  {
    assert forall k :: 0 <= k < |windows| ==> windows[k] in windows;
  }

  lemma FreshIdCounts(next: nat)
    requires 0 < next && next + 1 < TWO_32
    ensures FreshId(next) == (next, next + 1)
  {
  }

  lemma HandleKeepsNumbered(d: Display, env: nat -> Answer, s: Screen, m: seq<byte>)
    requires Fits(s) && Numbered(s) && |m| >= HEADER_SIZE
    requires Handle(d, env, s, m).0.attempts + 1 < TWO_32
    ensures Numbered(Handle(d, env, s, m).0)
  {
    hide Repaint, ValidCreate, DistinctIds, DamageRects, Field, FreshId;
    if |m| == CREATE_SIZE && s.nextId + 1 < TWO_32 {
      FreshIdCounts(s.nextId);
      PushKeepsNumbered(s.windows, NewWindow(d, s.nextId, m), s.nextId);
    }
    RestackedKeepsIds(s.windows, Op.Erase(Target(s.windows, m)));
  }

  lemma UpdateKeepsIds(windows: seq<Window>, i: nat, w: Window)
    requires DistinctIds(windows) && i < |windows| && w.id == windows[i].id
    ensures DistinctIds(windows[i := w])
    ensures forall v :: v in windows[i := w] ==> exists u :: u in windows && u.id == v.id
  {
    forall v | v in windows[i := w] ensures exists u :: u in windows && u.id == v.id {
      assert v in windows || v == w;
      assert windows[i] in windows;
    }
  }

  lemma ActKeepsNumbered(d: Display, env: nat -> Answer, s: Screen, a: Action)
    requires Fits(s) && Numbered(s) && Act(d, env, s, a).attempts + 1 < TWO_32
    ensures Numbered(Act(d, env, s, a))
  {
    hide DistinctIds, Handle, Restacked;
    match a
    case Message(m) => if |m| >= HEADER_SIZE { HandleKeepsNumbered(d, env, s, m); }
    case Focus(i) => RestackedKeepsIds(s.windows, Op.Raise(i));
    case Drag(i, x, y) =>
      if i < |s.windows| { MouseKeepsNumbered(s, i, Dragged(d, s.windows[i], x, y)); }
    case Resize(i, cx, cy) =>
      if i < |s.windows| { MouseKeepsNumbered(s, i, Resized(d, s.windows[i], cx, cy)); }
  }

  lemma MouseKeepsNumbered(s: Screen, i: nat, w: Window)
    requires Numbered(s) && i < |s.windows| && w.id == s.windows[i].id
    ensures Numbered(s.(windows := s.windows[i := w]))
  {
    hide DistinctIds;
    UpdateKeepsIds(s.windows, i, w);
  }

  lemma ActCounts(d: Display, env: nat -> Answer, s: Screen, a: Action)
    requires Fits(s)
    ensures s.attempts <= Act(d, env, s, a).attempts <= s.attempts + 1
  {
    hide Repaint, ValidCreate, NewWindow, Restacked, Dragged, Resized, DamageRects, Field, FreshId;
  }

  lemma {:induction false} ActsCount(d: Display, env: nat -> Answer, s: Screen, actions: seq<Action>)
    requires Fits(s)
    ensures s.attempts <= Acts(d, env, s, actions).attempts <= s.attempts + |actions|
    decreases |actions|
  {
    hide Act;
    if actions != [] {
      ActCounts(d, env, s, actions[0]);
      ActsCount(d, env, Act(d, env, s, actions[0]), actions[1..]);
    }
  }

  lemma {:induction false} ActsKeepNumbered(d: Display, env: nat -> Answer, s: Screen, actions: seq<Action>)
    requires Fits(s) && Numbered(s) && Acts(d, env, s, actions).attempts + 1 < TWO_32
    ensures Numbered(Acts(d, env, s, actions))
    decreases |actions|
  {
    hide Act, Numbered;
    if actions != [] {
      var s1 := Act(d, env, s, actions[0]);
      ActsCount(d, env, s1, actions[1..]);
      ActKeepsNumbered(d, env, s, actions[0]);
      ActsKeepNumbered(d, env, s1, actions[1..]);
    }
  }

  /** Until 2 to the 32nd requests have asked for a window, the ids of the windows are distinct, so a message reaches
      exactly the window whose id it names and whose token it holds. */
  lemma MessagesReachTheirWindow(d: Display, env: nat -> Answer, actions: seq<Action>, m: seq<byte>, k: nat)
    requires Acts(d, env, Screen([], 1, 0), actions).attempts + 1 < TWO_32 && |m| >= HEADER_SIZE
    ensures var windows := Acts(d, env, Screen([], 1, 0), actions).windows;
            && DistinctIds(windows)
            && (k < |windows| ==> (Target(windows, m) == k <==> Owns(m, windows[k])))
  {
    hide Acts, Target, Owns, Field;
    var last := Acts(d, env, Screen([], 1, 0), actions);
    ActsKeepNumbered(d, env, Screen([], 1, 0), actions);
    if k < |last.windows| { TargetIsOwned(last.windows, m, k); }
  }

  // ---- what keeps windows small ------------------------------------------------------

  lemma NewWindowScales(d: Display, id: nat, m: seq<byte>)
    requires Real(d) && |m| == CREATE_SIZE && ValidCreate(m)
    ensures Scales(d, NewWindow(d, id, m))
  {
    hide ValidName;
  }

  lemma RestackedScales(d: Display, windows: seq<Window>, op: Op<Window>)
    requires AllScale(d, windows) && (op.Push? ==> Scales(d, op.item))
    ensures AllScale(d, Restacked(windows, MAX_WINDOWS, op))
  {
    forall w | w in Restacked(windows, MAX_WINDOWS, op) ensures Scales(d, w) {
      assert w in windows || (op.Push? && w == op.item);
    }
  }

  lemma HandleScales(d: Display, env: nat -> Answer, s: Screen, m: seq<byte>)
    requires Real(d) && Fits(s) && AllScale(d, s.windows) && |m| >= HEADER_SIZE
    ensures AllScale(d, Handle(d, env, s, m).0.windows)
  {
    hide AllScale, Scales, Restacked, Repaint, ValidCreate, NewWindow, DamageRects;
    if |m| == CREATE_SIZE && ValidCreate(m) {
      var id := FreshId(s.nextId).0;
      NewWindowScales(d, id, m);
      RestackedScales(d, s.windows, Op.Push(NewWindow(d, id, m)));
    }
    RestackedScales(d, s.windows, Op.Erase(Target(s.windows, m)));
  }

  lemma UpdateScales(d: Display, windows: seq<Window>, i: nat, w: Window)
    requires AllScale(d, windows) && i < |windows| && Scales(d, w)
    ensures AllScale(d, windows[i := w])
  {
  }

  lemma ActScales(d: Display, env: nat -> Answer, s: Screen, a: Action)
    requires Real(d) && Fits(s) && AllScale(d, s.windows)
    ensures AllScale(d, Act(d, env, s, a).windows)
  {
    match a
    case Message(m) => if |m| >= HEADER_SIZE { HandleScales(d, env, s, m); }
    case Focus(i) => RestackedScales(d, s.windows, Op.Raise(i));
    case Drag(i, x, y) =>
      if i < |s.windows| {
        assert Scales(d, s.windows[i]);
        UpdateScales(d, s.windows, i, Dragged(d, s.windows[i], x, y));
      }
    case Resize(i, cx, cy) =>
      if i < |s.windows| {
        assert Scales(d, s.windows[i]);
        UpdateScales(d, s.windows, i, Resized(d, s.windows[i], cx, cy));
      }
  }

  lemma {:induction false} ActsScale(d: Display, env: nat -> Answer, s: Screen, actions: seq<Action>)
    requires Real(d) && Fits(s) && AllScale(d, s.windows)
    ensures AllScale(d, Acts(d, env, s, actions).windows)
    decreases |actions|
  {
    if actions != [] {
      ActScales(d, env, s, actions[0]);
      ActsScale(d, env, Act(d, env, s, actions[0]), actions[1..]);
    }
  }

  lemma ScaledFits(window: nat, surface: nat)
    requires window <= WIDEST && surface <= MAX_SURFACE_WIDTH
    ensures surface * window + surface <= TWO_32
  {
    ProductGrows(surface, MAX_SURFACE_WIDTH, window);
  }

  /** Whatever messages arrive and however the windows are moved and resized, on a real display no product ever wraps,
      and the damage of a window reaches every pixel of it that shows a damaged pixel of its surface. */
  lemma ReachableDamageReachesScreen(
    d: Display, env: nat -> Answer, actions: seq<Action>, i: nat, m: seq<byte>, px: nat, py: nat)
    requires Real(d) && |m| == DAMAGE_SIZE
    requires i < |Acts(d, env, Screen([], 1, 0), actions).windows|
    ensures var w := Acts(d, env, Screen([], 1, 0), actions).windows[i];
            && w.width > 0 && w.height > 0 && w.surfaceWidth > 0 && w.surfaceHeight > 0
            && w.surfaceWidth * w.width + w.surfaceWidth <= TWO_32
            && w.surfaceHeight * w.height + w.surfaceHeight <= TWO_32
    ensures var w := Acts(d, env, Screen([], 1, 0), actions).windows[i];
            px < w.width && py < w.height
            && Field(m, 24, 4) <= Sampled(px, w.width, w.surfaceWidth) < Field(m, 24, 4) + Field(m, 32, 4)
            && Field(m, 28, 4) <= Sampled(py, w.height, w.surfaceHeight) < Field(m, 28, 4) + Field(m, 36, 4)
            ==> Covered(DamageRects(w, m), w.x + px, w.y + TITLE_HEIGHT + py)
  {
    hide Field, Sampled, DamageRects, Covered, Acts;
    ActsScale(d, env, Screen([], 1, 0), actions);
    var w := Acts(d, env, Screen([], 1, 0), actions).windows[i];
    assert Scales(d, w);
    ScaledFits(w.width, w.surfaceWidth);
    ScaledFits(w.height, w.surfaceHeight);
    if px < w.width && py < w.height { DamageReachesScreen(w, m, px, py); }
  }
}
