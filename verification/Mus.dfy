/** The MUS player: when the events of a score take effect, counted in frames mixed. */
module Mus {
  import opened Basics

  const OUTPUT_RATE := 48000
  const TICKS_PER_SECOND := 140
  const MAX_GROUPS: nat := 1024

  // ---- the score ------------------------------------------------------------------------------

  /** What an event does to a channel. */
  datatype Effect =
    | Release(channel: nat, note: nat)
    | NoteOn(channel: nat, note: nat, velocity: Option<nat>)
    | Pitch(channel: nat, value: nat)
    | Silence(channel: nat)
    | Reset(channel: nat)
    | Program(channel: nat, value: nat)
    | Volume(channel: nat, value: nat)
    | Pan(channel: nat, value: nat)

  /** One event of the score: malformed or cut off, the end of the score, or effects and whether its group ends. */
  datatype Event = Bad | EndOfScore | Event(effects: seq<Effect>, last: bool, next: nat)

  function ReadEvent(score: seq<byte>, at: nat): (e: Event)
    ensures e.Event? ==> at < e.next <= |score|
  {
    if at >= |score| then Bad
    else
      var last, channel, kind := score[at] >= 128, score[at] % 16, score[at] / 16 % 8;
      if kind == 6 then EndOfScore
      else if kind == 5 || kind == 7 || at + 1 >= |score| then Bad
      else
        var first := score[at + 1];
        match kind
        case 0 => Event([Release(channel, first % 128)], last, at + 2)
        case 1 =>
          if first < 128 then Event([NoteOn(channel, first, None)], last, at + 2)
          else if at + 2 >= |score| then Bad
          else Event([NoteOn(channel, first % 128, Some(score[at + 2] % 128))], last, at + 3)
        case 2 => Event([Pitch(channel, first)], last, at + 2)
        case 3 =>
          var effects := if first == 10 || first == 11 then [Silence(channel)]
                         else if first == 14 then [Reset(channel), Silence(channel)] else [];
          Event(effects, last, at + 2)
        case _ =>
          if at + 2 >= |score| then Bad
          else
            var second := score[at + 2] % 128;
            var effects := if first == 0 then [Program(channel, second)]
                           else if first == 3 then [Volume(channel, second)]
                           else if first == 4 then [Pan(channel, second)] else [];
            Event(effects, last, at + 3)
  }

  /** The delay after a group, seven bits a byte; too long a number is malformed. */
  function ReadDelay(score: seq<byte>, at: nat, ticks: nat): (r: Option<(nat, nat)>)
    ensures r.Some? ==> at < r.value.1 <= |score| && r.value.0 <= 0xFFFF_FFFF
    decreases |score| - at
  {
    if at >= |score| || ticks > 0x1FF_FFFF then None
    else
      var sum := ticks * 128 + score[at] % 128;
      if score[at] >= 128 then ReadDelay(score, at + 1, sum) else Some((sum, at + 1))
  }

  /** A group of events with the delay after it; or what it did before it went wrong, or before the score ended. */
  datatype Group =
    | Broken(effects: seq<Effect>)
    | Finished(effects: seq<Effect>)
    | Group(effects: seq<Effect>, ticks: nat, next: nat)

  function ReadGroup(score: seq<byte>, at: nat): (g: Group)
    ensures g.Group? ==> at < g.next <= |score|
    decreases |score| - at
  {
    match ReadEvent(score, at)
    case Bad => Broken([])
    case EndOfScore => Finished([])
    case Event(effects, last, next) =>
      if last then EndGroup(effects, ReadDelay(score, next, 0))
      else
        var rest := ReadGroup(score, next);
        rest.(effects := effects + rest.effects)
  }

  function EndGroup(effects: seq<Effect>, delay: Option<(nat, nat)>): Group {
    if delay.None? then Broken(effects) else Group(effects, delay.value.0, delay.value.1)
  }

  // ---- what the bytes mean ----------------------------------------------------------------

  /** The channel, note and value of an effect fit their fields. */
  predicate Legal(e: Effect) {
    e.channel < 16 &&
    match e
    case Release(_, note) => note < 128
    case NoteOn(_, note, velocity) => note < 128 && (velocity.Some? ==> velocity.value < 128)
    case Pitch(_, value) => value < 256
    case Silence(_) => true
    case Reset(_) => true
    case Program(_, value) => value < 128
    case Volume(_, value) => value < 128
    case Pan(_, value) => value < 128
  }

  function Kind(e: Effect): (k: nat)
    ensures k <= 4
  {
    match e
    case Release(_, _) => 0
    case NoteOn(_, _, _) => 1
    case Pitch(_, _) => 2
    case Silence(_) => 3
    case Reset(_) => 3
    case _ => 4
  }

  /** An event of the score. */
  function Written(e: Effect, last: bool): seq<byte>
    requires Legal(e)
  {
    [(if last then 128 else 0) + 16 * Kind(e) + e.channel] +
    match e
    case Release(_, note) => [note]
    case NoteOn(_, note, velocity) => if velocity.Some? then [note + 128, velocity.value] else [note]
    case Pitch(_, value) => [value]
    case Silence(_) => [10]
    case Reset(_) => [14]
    case Program(_, value) => [0, value]
    case Volume(_, value) => [3, value]
    case Pan(_, value) => [4, value]
  }

  /** Every event is read as what was written; a reset also silences its channel. */
  lemma EventRoundTrip(score: seq<byte>, at: nat, e: Effect, last: bool)
    requires Legal(e) && at + |Written(e, last)| <= |score| && score[at..at + |Written(e, last)|] == Written(e, last)
    ensures ReadEvent(score, at)
            == Event(if e.Reset? then [e, Silence(e.channel)] else [e], last, at + |Written(e, last)|)
  {
    var w := Written(e, last);
    assert score[at] == w[0] && score[at + 1] == w[1];
    assert |w| > 2 ==> score[at + 2] == w[2];
  }

  /** Of the system events, 10 and 11 silence the channel, 14 resets and silences it, and the others do nothing. */
  lemma SystemEventIsRead(score: seq<byte>, at: nat, channel: nat, last: bool)
    requires channel < 16 && at + 2 <= |score| && score[at] == (if last then 128 else 0) + 48 + channel
    ensures ReadEvent(score, at)
            == Event(if score[at + 1] == 10 || score[at + 1] == 11 then [Silence(channel)]
                     else if score[at + 1] == 14 then [Reset(channel), Silence(channel)]
                     else [], last, at + 2)
  {
  }

  /** Of the controllers, 0, 3 and 4 set program, volume and pan to seven bits, and the others do nothing. */
  lemma ControllerIsRead(score: seq<byte>, at: nat, channel: nat, last: bool)
    requires channel < 16 && at + 3 <= |score| && score[at] == (if last then 128 else 0) + 64 + channel
    ensures var value: nat := score[at + 2] % 128;
            ReadEvent(score, at)
            == Event(if score[at + 1] == 0 then [Program(channel, value)]
                     else if score[at + 1] == 3 then [Volume(channel, value)]
                     else if score[at + 1] == 4 then [Pan(channel, value)]
                     else [], last, at + 3)
  {
  }

  /** How many bytes follow the first one of an event of a kind; a note with its top bit set brings a velocity. */
  function Operands(kind: nat, first: nat): nat {
    if kind == 4 || (kind == 1 && first >= 128) then 2 else 1
  }

  /** An event is malformed exactly if it is of kind 5 or 7 or cut off by the end of the bytes, and the score ends
      exactly at an event of kind 6. */
  lemma MalformedIsBad(score: seq<byte>, at: nat)
    ensures ReadEvent(score, at).EndOfScore? <==> at < |score| && score[at] / 16 % 8 == 6
    ensures ReadEvent(score, at).Bad? <==>
              || at >= |score|
              || (&& score[at] / 16 % 8 != 6
                  && (|| score[at] / 16 % 8 == 5 || score[at] / 16 % 8 == 7
                      || at + 1 >= |score| || at + Operands(score[at] / 16 % 8, score[at + 1]) >= |score|))
  {
  }

  /** The groups of seven bits of a number, all of them to be continued. */
  function Sevens(n: nat): seq<byte> {
    if n == 0 then [] else Sevens(n / 128) + [128 + n % 128]
  }

  function WrittenDelay(ticks: nat): seq<byte> {
    Sevens(ticks / 128) + [ticks % 128]
  }

  lemma {:induction false} SevensAreRead(score: seq<byte>, at: nat, n: nat)
    requires n <= 0xFFFF_FFFF && at + |Sevens(n)| <= |score| && score[at..at + |Sevens(n)|] == Sevens(n)
    ensures ReadDelay(score, at, 0) == ReadDelay(score, at + |Sevens(n)|, n)
  {
    if n > 0 {
      var before := Sevens(n / 128);
      assert score[at..at + |before|] == Sevens(n)[..|before|] == before;
      SevensAreRead(score, at, n / 128);
      assert score[at + |before|] == Sevens(n)[|before|] == 128 + n % 128;
    }
  }

  /** Every 32-bit delay is read as what was written. */
  lemma DelayRoundTrip(score: seq<byte>, at: nat, ticks: nat)
    requires ticks <= 0xFFFF_FFFF && at + |WrittenDelay(ticks)| <= |score|
    requires score[at..at + |WrittenDelay(ticks)|] == WrittenDelay(ticks)
    ensures ReadDelay(score, at, 0) == Some((ticks, at + |WrittenDelay(ticks)|))
  {
    var before, w := Sevens(ticks / 128), WrittenDelay(ticks);
    assert score[at..at + |before|] == w[..|before|] == before;
    SevensAreRead(score, at, ticks / 128);
    assert score[at + |before|] == w[|before|] == ticks % 128;
  }

  // ---- the timeline -----------------------------------------------------------------------------

  /** An effect and the frame it takes effect before. */
  datatype Cue = Cue(effect: Effect, frame: nat)

  /** The frame at which a number of ticks has passed. */
  function FrameOf(tick: nat): nat {
    OUTPUT_RATE * tick / TICKS_PER_SECOND
  }

  /** 140 ticks are a second, which is 48,000 frames. */
  lemma SecondsAreExact(seconds: nat)
    ensures FrameOf(140 * seconds) == 48000 * seconds
  {
  }

  function Stamped(effects: seq<Effect>, frame: nat): (cues: seq<Cue>)
    ensures |cues| == |effects|
  {
    if effects == [] then [] else [Cue(effects[0], frame)] + Stamped(effects[1..], frame)
  }

  /** What a score does from `at` on, when `tick` ticks have passed and at most `room` groups fit before time must. */
  function Timeline(score: seq<byte>, at: nat, tick: nat, room: nat): seq<Cue>
    decreases |score| - at, 1
  {
    if room == 0 then [] else AfterGroup(score, at, ReadGroup(score, at), tick, room)
  }

  function AfterGroup(score: seq<byte>, at: nat, g: Group, tick: nat, room: nat): seq<Cue>
    requires room > 0 && (g.Group? ==> at < g.next <= |score|)
    decreases |score| - at, 0
  {
    Stamped(g.effects, FrameOf(tick)) +
    if g.Group? then Timeline(score, g.next, tick + g.ticks, if g.ticks == 0 then room - 1 else MAX_GROUPS) else []
  }

  /** The timeline of the whole score. */
  function Whole(score: seq<byte>): seq<Cue> {
    Timeline(score, 0, 0, MAX_GROUPS)
  }

  /** The timeline if any number of groups could fall on one tick. */
  function Unbounded(score: seq<byte>, at: nat, tick: nat): seq<Cue>
    decreases |score| - at
  {
    var g := ReadGroup(score, at);
    Stamped(g.effects, FrameOf(tick)) + if g.Group? then Unbounded(score, g.next, tick + g.ticks) else []
  }

  // ---- scores as they are written ------------------------------------------------------------

  /** Effects at one time, and the ticks until the next ones. */
  datatype Chord = Chord(effects: seq<Effect>, ticks: nat)

  predicate LegalChord(c: Chord) {
    c.effects != [] && c.ticks <= 0xFFFF_FFFF && forall k :: 0 <= k < |c.effects| ==> Legal(c.effects[k])
  }

  function WrittenEvents(effects: seq<Effect>): (w: seq<byte>)
    requires forall k :: 0 <= k < |effects| ==> Legal(effects[k])
    decreases |effects|
  {
    if effects == [] then [] else Written(effects[0], |effects| == 1) + WrittenEvents(effects[1..])
  }

  /** A score of some chords, with its end marker. */
  function WrittenScore(chords: seq<Chord>): seq<byte>
    requires forall k :: 0 <= k < |chords| ==> LegalChord(chords[k])
    decreases |chords|
  {
    if chords == [] then [0x60]
    else
      assert LegalChord(chords[0]);
      WrittenEvents(chords[0].effects) + WrittenDelay(chords[0].ticks) + WrittenScore(chords[1..])
  }

  /** What the effects of a chord do: a reset also silences its channel. */
  function Meant(effects: seq<Effect>): seq<Effect> {
    if effects == [] then []
    else (if effects[0].Reset? then [effects[0], Silence(effects[0].channel)] else [effects[0]]) + Meant(effects[1..])
  }

  /** The chords one after the other, each when the ticks before it have passed. */
  function Cues(chords: seq<Chord>, tick: nat): seq<Cue> {
    if chords == [] then []
    else Stamped(Meant(chords[0].effects), FrameOf(tick)) + Cues(chords[1..], tick + chords[0].ticks)
  }

  /** The bytes `w` are in the score at `at`. */
  predicate Stands(score: seq<byte>, at: nat, w: seq<byte>) {
    at + |w| <= |score| && score[at..at + |w|] == w
  }

  lemma StandsApart(score: seq<byte>, at: nat, a: seq<byte>, b: seq<byte>)
    requires Stands(score, at, a + b)
    ensures Stands(score, at, a) && Stands(score, at + |a|, b)
  {
    assert score[at..at + |a|] == (a + b)[..|a|];
    assert score[at + |a|..at + |a| + |b|] == (a + b)[|a|..];
  }

  lemma GroupStep(score: seq<byte>, at: nat)
    ensures var e := ReadEvent(score, at);
            e.Event? ==>
              if e.last then ReadGroup(score, at) == EndGroup(e.effects, ReadDelay(score, e.next, 0))
              else var rest := ReadGroup(score, e.next);
                   ReadGroup(score, at) == rest.(effects := e.effects + rest.effects)
  {
  }

  /** A chord is read as one group. */
  lemma {:induction false} ChordIsRead(score: seq<byte>, at: nat, c: Chord)
    requires LegalChord(c) && Stands(score, at, WrittenEvents(c.effects) + WrittenDelay(c.ticks))
    ensures ReadGroup(score, at)
            == Group(Meant(c.effects), c.ticks, at + |WrittenEvents(c.effects)| + |WrittenDelay(c.ticks)|)
    decreases |c.effects|
  {
    hide ReadGroup, ReadEvent, ReadDelay, Written, WrittenDelay, Legal;
    var w, rest, delay := Written(c.effects[0], |c.effects| == 1), WrittenEvents(c.effects[1..]), WrittenDelay(c.ticks);
    assert w + rest + delay == w + (rest + delay);
    StandsApart(score, at, w, rest + delay);
    EventRoundTrip(score, at, c.effects[0], |c.effects| == 1);
    GroupStep(score, at);
    if |c.effects| == 1 {
      assert rest + delay == delay;
      DelayRoundTrip(score, at + |w|, c.ticks);
      LastIsMeant(c.effects);
    } else {
      ChordIsRead(score, at + |w|, c.(effects := c.effects[1..]));
    }
  }

  lemma LastIsMeant(effects: seq<Effect>)
    requires |effects| == 1
    ensures Meant(effects) == if effects[0].Reset? then [effects[0], Silence(effects[0].channel)] else [effects[0]]
  {
    assert Meant(effects[1..]) == [];
  }

  lemma {:induction false} PlaysFrom(score: seq<byte>, at: nat, chords: seq<Chord>, tick: nat)
    requires (forall k :: 0 <= k < |chords| ==> LegalChord(chords[k])) && Stands(score, at, WrittenScore(chords))
    ensures Unbounded(score, at, tick) == Cues(chords, tick)
    decreases |chords|
  {
    hide ReadGroup, WrittenEvents, WrittenDelay, Stamped, FrameOf, Unbounded, Stands;
    UnboundedStep(score, at, tick);
    if chords == [] {
      EndIsRead(score, at);
      assert Stamped([], FrameOf(tick)) + [] == [] by { NothingStamped(FrameOf(tick)); }
    } else {
      var c := chords[0];
      assert LegalChord(c);
      StandsApart(score, at, WrittenEvents(c.effects) + WrittenDelay(c.ticks), WrittenScore(chords[1..]));
      ChordIsRead(score, at, c);
      PlaysFrom(score, at + |WrittenEvents(c.effects)| + |WrittenDelay(c.ticks)|, chords[1..], tick + c.ticks);
    }
  }

  lemma UnboundedStep(score: seq<byte>, at: nat, tick: nat)
    ensures var g := ReadGroup(score, at);
            Unbounded(score, at, tick)
            == Stamped(g.effects, FrameOf(tick)) + if g.Group? then Unbounded(score, g.next, tick + g.ticks) else []
  {
  }

  lemma EndIsRead(score: seq<byte>, at: nat)
    requires Stands(score, at, [0x60])
    ensures ReadGroup(score, at) == Finished([])
  {
    assert score[at] == score[at..at + 1][0];
  }

  lemma NothingStamped(frame: nat)
    ensures Stamped([], frame) == []
  {
  }

  /** A score plays as it was written: every effect of every chord, in order, each at the frame of the ticks before
      it. */
  lemma PlaysAsWritten(chords: seq<Chord>)
    requires forall k :: 0 <= k < |chords| ==> LegalChord(chords[k])
    ensures Unbounded(WrittenScore(chords), 0, 0) == Cues(chords, 0)
  {
    var score := WrittenScore(chords);
    assert score[0..|score|] == score;
    PlaysFrom(score, 0, chords, 0);
  }

  /** No more than the allowed number of groups fall on one tick. */
  predicate ShortBursts(score: seq<byte>, at: nat, room: nat)
    decreases |score| - at
  {
    room > 0 &&
    var g := ReadGroup(score, at);
    g.Group? ==> ShortBursts(score, g.next, if g.ticks == 0 then room - 1 else MAX_GROUPS)
  }

  /** The bound on groups never shows in a score without long bursts. */
  lemma {:induction false} ShortBurstsAreWhole(score: seq<byte>, at: nat, tick: nat, room: nat)
    requires ShortBursts(score, at, room)
    ensures Timeline(score, at, tick, room) == Unbounded(score, at, tick)
    decreases |score| - at
  {
    var g := ReadGroup(score, at);
    if g.Group? {
      ShortBurstsAreWhole(score, g.next, tick + g.ticks, if g.ticks == 0 then room - 1 else MAX_GROUPS);
    }
  }

  /** The part of the unbounded timeline that the bound on groups cuts off. */
  function Lost(score: seq<byte>, at: nat, tick: nat, room: nat): seq<Cue>
    decreases |score| - at
  {
    if room == 0 then Unbounded(score, at, tick)
    else
      var g := ReadGroup(score, at);
      if g.Group? then Lost(score, g.next, tick + g.ticks, if g.ticks == 0 then room - 1 else MAX_GROUPS) else []
  }

  lemma {:induction false} LostIsTheRest(score: seq<byte>, at: nat, tick: nat, room: nat)
    ensures Unbounded(score, at, tick) == Timeline(score, at, tick, room) + Lost(score, at, tick, room)
    decreases |score| - at
  {
    hide Stamped, FrameOf, ReadGroup;
    var g := ReadGroup(score, at);
    if room == 0 {
      assert [] + Unbounded(score, at, tick) == Unbounded(score, at, tick);
    } else if g.Group? {
      var tick1, room1 := tick + g.ticks, if g.ticks == 0 then room - 1 else MAX_GROUPS;
      LostIsTheRest(score, g.next, tick1, room1);
      var now, later, lost := Stamped(g.effects, FrameOf(tick)), Timeline(score, g.next, tick1, room1),
                              Lost(score, g.next, tick1, room1);
      assert now + (later + lost) == now + later + lost;
    } else {
      var now := Stamped(g.effects, FrameOf(tick));
      assert now + [] + [] == now + [];
    }
  }

  /** The groups of a score from `at` on; the last one is broken off or ends the score. */
  function Groups(score: seq<byte>, at: nat): (groups: seq<Group>)
    ensures groups != []
    decreases |score| - at
  {
    var g := ReadGroup(score, at);
    if g.Group? then [g] + Groups(score, g.next) else [g]
  }

  predicate NoDelay(g: Group) { g.Group? && g.ticks == 0 }

  /** With room for `room` groups before time must pass, the bound stops the score before its `c`-th group, or did so
      earlier: none of the groups right before it has a delay, as far back as the bound goes. */
  predicate CutAt(groups: seq<Group>, room: nat, c: nat) {
    room <= c <= |groups| && forall j :: 0 <= j < c && c - MAX_GROUPS <= j ==> NoDelay(groups[j])
  }

  ghost predicate CutShort(groups: seq<Group>, room: nat) {
    exists c: nat, m: nat :: CutAt(groups, room, c) && c <= m < |groups| && groups[m].effects != []
  }

  lemma CutLater(g: Group, rest: seq<Group>, room: nat, c: nat)
    requires 0 < room <= MAX_GROUPS && g.Group?
    ensures CutAt([g] + rest, room, c + 1) <==> CutAt(rest, if g.ticks == 0 then room - 1 else MAX_GROUPS, c)
  {
    var groups := [g] + rest;
    if CutAt(groups, room, c + 1) {
      forall j | 0 <= j < c && c - MAX_GROUPS <= j ensures NoDelay(rest[j]) { assert groups[j + 1] == rest[j]; }
      assert c + 1 - MAX_GROUPS <= 0 ==> NoDelay(groups[0]);
    }
  }

  lemma CutShortLater(g: Group, rest: seq<Group>, room: nat)
    requires 0 < room <= MAX_GROUPS && g.Group?
    ensures CutShort([g] + rest, room) <==> CutShort(rest, if g.ticks == 0 then room - 1 else MAX_GROUPS)
  {
    hide CutAt;
    var groups, room1 := [g] + rest, if g.ticks == 0 then room - 1 else MAX_GROUPS;
    if CutShort(groups, room) {
      var c: nat, m: nat :| CutAt(groups, room, c) && c <= m < |groups| && groups[m].effects != [];
      CutIsBeyond(groups, room, c);
      CutLater(g, rest, room, c - 1);
      assert rest[m - 1] == groups[m];
    }
    if CutShort(rest, room1) {
      var c: nat, m: nat :| CutAt(rest, room1, c) && c <= m < |rest| && rest[m].effects != [];
      CutLater(g, rest, room, c);
      assert groups[m + 1] == rest[m];
    }
  }

  lemma CutIsBeyond(groups: seq<Group>, room: nat, c: nat)
    requires CutAt(groups, room, c)
    ensures room <= c
  {
  }

  lemma StampedIsEmpty(effects: seq<Effect>, frame: nat)
    ensures Stamped(effects, frame) == [] <==> effects == []
  {
  }

  predicate Mute(groups: seq<Group>) {
    forall m :: 0 <= m < |groups| ==> groups[m].effects == []
  }

  lemma MuteLater(g: Group, rest: seq<Group>)
    ensures Mute([g] + rest) <==> g.effects == [] && Mute(rest)
  {
    var groups := [g] + rest;
    if Mute(groups) {
      assert groups[0] == g;
      forall m | 0 <= m < |rest| ensures rest[m].effects == [] { assert groups[m + 1] == rest[m]; }
    }
  }

  lemma MuteAlone(g: Group)
    ensures Mute([g]) <==> g.effects == []
  {
    assert [g][0] == g;
  }

  lemma {:induction false} UnboundedIsEmpty(score: seq<byte>, at: nat, tick: nat)
    ensures Unbounded(score, at, tick) == [] <==> Mute(Groups(score, at))
    decreases |score| - at
  {
    hide Mute, Stamped, ReadGroup, FrameOf;
    var g := ReadGroup(score, at);
    StampedIsEmpty(g.effects, FrameOf(tick));
    if g.Group? {
      var later := Unbounded(score, g.next, tick + g.ticks);
      UnboundedIsEmpty(score, g.next, tick + g.ticks);
      MuteLater(g, Groups(score, g.next));
      assert |Unbounded(score, at, tick)| == |Stamped(g.effects, FrameOf(tick))| + |later|;
    } else {
      MuteAlone(g);
      assert |Unbounded(score, at, tick)| == |Stamped(g.effects, FrameOf(tick))|;
    }
  }

  lemma NotMuteIsCut(groups: seq<Group>)
    ensures CutShort(groups, 0) <==> !Mute(groups)
  {
    assert CutAt(groups, 0, 0);
  }

  /** Something is lost exactly if a group with an effect comes after a burst that fills the tick. */
  lemma {:induction false} LostIfCutShort(score: seq<byte>, at: nat, tick: nat, room: nat)
    requires room <= MAX_GROUPS
    ensures Lost(score, at, tick, room) != [] <==> CutShort(Groups(score, at), room)
    decreases |score| - at
  {
    var g, groups := ReadGroup(score, at), Groups(score, at);
    if room == 0 {
      UnboundedIsEmpty(score, at, tick);
      NotMuteIsCut(groups);
    } else if g.Group? {
      CutShortLater(g, Groups(score, g.next), room);
      LostIfCutShort(score, g.next, tick + g.ticks, if g.ticks == 0 then room - 1 else MAX_GROUPS);
    } else {
      assert |groups| == 1;
    }
  }

  /** As many groups in a row as fit on a tick, none of them with a delay. */
  predicate LongBurst(groups: seq<Group>, i: nat) {
    i + MAX_GROUPS <= |groups| && forall j :: i <= j < i + MAX_GROUPS ==> NoDelay(groups[j])
  }

  /** A group with an effect comes after a long burst. */
  ghost predicate HasLateEffect(groups: seq<Group>) {
    exists i: nat, m: nat :: LongBurst(groups, i) && i + MAX_GROUPS <= m < |groups| && groups[m].effects != []
  }

  /** A score plays whole exactly if no group with an effect comes anywhere after 1024 groups in a row without delay. */
  lemma WholeIfNoLongBurst(score: seq<byte>)
    ensures Whole(score) == Unbounded(score, 0, 0) <==> !HasLateEffect(Groups(score, 0))
  {
    hide HasLateEffect, CutShort;
    WholeIfNothingLost(score);
    LostIfCutShort(score, 0, 0, MAX_GROUPS);
    LateIsCut(Groups(score, 0));
  }

  lemma LateIsCut(groups: seq<Group>)
    ensures HasLateEffect(groups) <==> CutShort(groups, MAX_GROUPS)
  {
    hide LongBurst, CutAt;
    if HasLateEffect(groups) {
      var i: nat, m: nat :| LongBurst(groups, i) && i + MAX_GROUPS <= m < |groups| && groups[m].effects != [];
      BurstIsCut(groups, i + MAX_GROUPS);
    }
    if CutShort(groups, MAX_GROUPS) {
      var c: nat, m: nat :| CutAt(groups, MAX_GROUPS, c) && c <= m < |groups| && groups[m].effects != [];
      BurstIsCut(groups, c);
    }
  }

  lemma BurstIsCut(groups: seq<Group>, c: nat)
    ensures CutAt(groups, MAX_GROUPS, c) <==> c >= MAX_GROUPS && LongBurst(groups, c - MAX_GROUPS)
  {
  }

  /** A score plays whole exactly if nothing is due after the last group that fits on a tick. */
  lemma WholeIfNothingLost(score: seq<byte>)
    ensures Whole(score) == Unbounded(score, 0, 0) <==> Lost(score, 0, 0, MAX_GROUPS) == []
  {
    LostIsTheRest(score, 0, 0, MAX_GROUPS);
    assert |Unbounded(score, 0, 0)| == |Whole(score)| + |Lost(score, 0, 0, MAX_GROUPS)|;
  }

  /** A score of `n` groups on one tick, each releasing a note. */
  function Burst(n: nat): (score: seq<byte>)
    ensures |score| == 3 * n
  {
    if n == 0 then [] else Burst(n - 1) + [0x80, 0, 0]
  }

  lemma {:induction false} BurstAt(n: nat, k: nat)
    requires k < n
    ensures Burst(n)[3 * k] == 0x80 && Burst(n)[3 * k + 1] == Burst(n)[3 * k + 2] == 0
  {
    if k < n - 1 { BurstAt(n - 1, k); }
  }

  lemma BurstGroup(n: nat, k: nat)
    requires k < n
    ensures ReadGroup(Burst(n), 3 * k) == Group([Release(0, 0)], 0, 3 * (k + 1))
  {
    hide Burst;
    BurstAt(n, k);
    assert ReadEvent(Burst(n), 3 * k) == Event([Release(0, 0)], true, 3 * k + 2);
    var delay := ReadDelay(Burst(n), 3 * k + 2, 0);
    assert delay.Some? && delay.value.0 == 0 && delay.value.1 == 3 * k + 3;
  }

  lemma {:induction false} BurstLengths(n: nat, k: nat, room: nat)
    requires k <= n
    ensures |Timeline(Burst(n), 3 * k, 0, room)| == Min(room, n - k) && |Unbounded(Burst(n), 3 * k, 0)| == n - k
    decreases n - k
  {
    hide Burst, ReadEvent, ReadDelay, Stamped, FrameOf;
    if k == n {
      BurstEnds(n);
    } else {
      BurstGroup(n, k);
      BurstLengths(n, k + 1, if room == 0 then 0 else room - 1);
    }
  }

  lemma BurstEnds(n: nat)
    ensures ReadGroup(Burst(n), 3 * n) == Broken([])
  {
  }

  /** Of 1025 or more groups on one tick, those after the first 1024 are lost. */
  lemma LongBurstLoses(n: nat)
    ensures |Lost(Burst(n), 0, 0, MAX_GROUPS)| == if n > MAX_GROUPS then n - MAX_GROUPS else 0
  {
    BurstLengths(n, 0, MAX_GROUPS);
    LostIsTheRest(Burst(n), 0, 0, MAX_GROUPS);
  }

  lemma {:induction false} StampedAt(effects: seq<Effect>, frame: nat, k: nat)
    requires k < |effects|
    ensures Stamped(effects, frame)[k] == Cue(effects[k], frame)
  {
    if k > 0 { StampedAt(effects[1..], frame, k - 1); }
  }

  lemma {:induction false} StampedConcat(a: seq<Effect>, b: seq<Effect>, frame: nat)
    ensures Stamped(a + b, frame) == Stamped(a, frame) + Stamped(b, frame)
  {
    if a == [] {
      assert a + b == b;
    } else {
      assert (a + b)[1..] == a[1..] + b;
      StampedConcat(a[1..], b, frame);
    }
  }

  lemma FramesGrow(a: nat, b: nat)
    requires a <= b
    ensures FrameOf(a) <= FrameOf(b)
  {
  }

  /** Nothing in the rest of a timeline happens before its first tick. */
  lemma {:induction false} TimelineNotBefore(score: seq<byte>, at: nat, tick: nat, room: nat, k: nat)
    requires k < |Timeline(score, at, tick, room)|
    ensures Timeline(score, at, tick, room)[k].frame >= FrameOf(tick)
    decreases |score| - at
  {
    hide ReadGroup, Stamped, FrameOf;
    var g := ReadGroup(score, at);
    if k < |g.effects| {
      StampedAt(g.effects, FrameOf(tick), k);
    } else {
      var tick1, room1 := tick + g.ticks, if g.ticks == 0 then room - 1 else MAX_GROUPS;
      assert Timeline(score, at, tick, room)[k] == Timeline(score, g.next, tick1, room1)[k - |g.effects|];
      TimelineNotBefore(score, g.next, tick1, room1, k - |g.effects|);
      FramesGrow(tick, tick1);
    }
  }

  // ---- the player --------------------------------------------------------------------------------

  /** The scheduled frames and the remainder of the last division account for every tick: no drift. */
  predicate OnTime(scheduled: nat, remainder: nat, tick: nat) {
    remainder < TICKS_PER_SECOND && TICKS_PER_SECOND * scheduled + remainder == OUTPUT_RATE * tick
  }

  lemma OnTimeIsFrame(scheduled: nat, remainder: nat, tick: nat)
    requires OnTime(scheduled, remainder, tick)
    ensures scheduled == FrameOf(tick)
  {
  }

  /** Adding a delay as the player does keeps the time, and only a delay of no ticks adds no frames. */
  lemma DelayKeepsTime(scheduled: nat, remainder: nat, tick: nat, ticks: nat)
    requires OnTime(scheduled, remainder, tick)
    ensures var scaled := ticks * OUTPUT_RATE + remainder;
            && OnTime(scheduled + scaled / TICKS_PER_SECOND, scaled % TICKS_PER_SECOND, tick + ticks)
            && (scaled / TICKS_PER_SECOND == 0 <==> ticks == 0)
  {
  }

  /** What has been done and what the rest of the score will do are together the whole timeline. */
  ghost predicate InStep(score: seq<byte>, cursor: nat, tick: nat, room: nat, log: seq<Cue>) {
    log + Timeline(score, cursor, tick, room) == Whole(score)
  }

  ghost predicate AllBefore(log: seq<Cue>, frame: nat) {
    forall k :: 0 <= k < |log| ==> log[k].frame < frame
  }

  /** When `frame` frames have been mixed, exactly the cues of earlier frames have taken effect. */
  lemma DoneAreTheEarlier(
    score: seq<byte>, cursor: nat, tick: nat, room: nat, log: seq<Cue>, frame: nat, wait: nat, remainder: nat, k: nat)
    requires InStep(score, cursor, tick, room, log) && AllBefore(log, frame) && OnTime(frame + wait, remainder, tick)
    requires k < |Whole(score)|
    ensures k < |log| <==> Whole(score)[k].frame < frame
  {
    hide Timeline;
    OnTimeIsFrame(frame + wait, remainder, tick);
    var rest := Timeline(score, cursor, tick, room);
    assert Whole(score) == log + rest;
    if k >= |log| { TimelineNotBefore(score, cursor, tick, room, k - |log|); }
  }

  /** Without any delay, the score runs into its end: looping it would never mix a frame. */
  predicate EndsAtOnce(score: seq<byte>, at: nat, room: nat)
    decreases room
  {
    room > 0 &&
    match ReadGroup(score, at)
    case Broken(_) => false
    case Finished(_) => true
    case Group(_, ticks, next) => ticks == 0 && EndsAtOnce(score, next, room - 1)
  }

  /** A score of nothing but its end marker is one. */
  lemma EmptyScoreEnds()
    ensures EndsAtOnce([0x60], 0, MAX_GROUPS)
  {
    assert ReadGroup([0x60], 0) == Finished([]);
  }

  /** A looping player never comes back from its first frame of that score. */
  method EmptyScoreSpins() returns (p: Player, spins: bool)
    ensures spins && p.score == [0x60] && p.looping
  {
    p := new Player([0x60], true);
    EmptyScoreEnds();
    spins := p.MixMusicFrame();
  }

  lemma GroupInStep(score: seq<byte>, at: nat, tick: nat, room: nat, log: seq<Cue>)
    requires room > 0 && InStep(score, at, tick, room, log)
    ensures var g := ReadGroup(score, at);
            var after := log + Stamped(g.effects, FrameOf(tick));
            if g.Group? then InStep(score, g.next, tick + g.ticks, if g.ticks == 0 then room - 1 else MAX_GROUPS, after)
            else after == Whole(score)
  {
    hide Whole, ReadGroup, Stamped, FrameOf;
    var g := ReadGroup(score, at);
    var now := Stamped(g.effects, FrameOf(tick));
    if g.Group? {
      var rest := Timeline(score, g.next, tick + g.ticks, if g.ticks == 0 then room - 1 else MAX_GROUPS);
      assert Timeline(score, at, tick, room) == now + rest;
      assert log + (now + rest) == log + now + rest;
    } else {
      assert Timeline(score, at, tick, room) == now + [];
      assert log + (now + []) == log + now;
    }
  }

  lemma NoRoomLeft(score: seq<byte>, at: nat, tick: nat, log: seq<Cue>)
    requires InStep(score, at, tick, 0, log)
    ensures log == Whole(score) && !EndsAtOnce(score, at, 0)
  {
  }

  lemma EndsAfterGroup(score: seq<byte>, at: nat, room: nat)
    requires room > 0
    ensures var g := ReadGroup(score, at);
            EndsAtOnce(score, at, room)
            == (g.Finished? || (g.Group? && g.ticks == 0 && EndsAtOnce(score, g.next, room - 1)))
  {
  }

  /** What came of playing one event. */
  datatype Outcome = Failed | AtEnd | Played(last: bool)

  /** What came of playing one group. */
  datatype GroupOutcome = GroupFailed | ScoreEnded | Delayed(ticks: nat)

  class Player {
    const score: seq<byte>
    var cursor: nat
    var samplesUntilEvent: nat
    var tickRemainder: nat
    var playing: bool
    var paused: bool
    var looping: bool
    /** Since the last restart: the frames mixed, the effects applied and, for the proof, the ticks read. */
    var frame: nat
    var log: seq<Cue>
    ghost var tick: nat

    /** On time and in step with the score, with room for `room` more groups on this tick. */
    ghost predicate Following(room: nat, limit: nat) reads this {
      && OnTime(frame + samplesUntilEvent, tickRemainder, tick)
      && InStep(score, cursor, tick, room, log)
      && AllBefore(log, limit)
    }

    ghost predicate Valid() reads this {
      tickRemainder < TICKS_PER_SECOND && (playing ==> Following(MAX_GROUPS, frame))
    }

    constructor (score: seq<byte>, looping: bool)
      ensures Valid() && this.score == score && this.looping == looping && playing && !paused && frame == 0
      ensures cursor == 0 && samplesUntilEvent == 0 && log == []
    {
      this.score, this.looping, playing, paused := score, looping, true, false;
      cursor, samplesUntilEvent, tickRemainder := 0, 0, 0;
      frame, log, tick := 0, [], 0;
    }

    method RestartSong()
      modifies this
      ensures Valid() && playing && cursor == 0 && samplesUntilEvent == 0 && frame == 0 && log == []
      ensures paused == old(paused) && looping == old(looping)
    {
      cursor, samplesUntilEvent, tickRemainder := 0, 0, 0;
      frame, log, tick := 0, [], 0;
      playing := true;
    }

    method StopMusicState()
      requires tickRemainder < TICKS_PER_SECOND
      modifies this`playing, this`paused, this`samplesUntilEvent
      ensures Valid() && !playing && !paused
    {
      playing, paused, samplesUntilEvent := false, false, 0;
    }

    method SongByte() returns (b: Option<byte>)
      modifies this`cursor
      ensures b == if old(cursor) < |score| then Some(score[old(cursor)]) else None
      ensures cursor == old(cursor) + if old(cursor) < |score| then 1 else 0
    {
      if cursor >= |score| { return None; }
      b := Some(score[cursor]);
      cursor := cursor + 1;
    }

    method Play(effects: seq<Effect>)
      modifies this`log
      ensures log == old(log) + Stamped(effects, frame)
    {
      log := log + Stamped(effects, frame);
    }

    /** Read and apply one event. */
    method PlayEvent() returns (r: Outcome)
      modifies this`cursor, this`log
      ensures var e := ReadEvent(score, old(cursor));
              if e.Bad? then r == Failed && log == old(log)
              else if e.EndOfScore? then r == AtEnd && log == old(log)
              else r == Played(e.last) && cursor == e.next && log == old(log) + Stamped(e.effects, frame)
    {
      var descriptor := SongByte();
      if descriptor.None? { return Failed; }
      var last, channel, kind := descriptor.value >= 128, descriptor.value % 16, descriptor.value / 16 % 8;
      if kind == 6 { return AtEnd; }
      if kind == 5 || kind == 7 { return Failed; }
      var first := SongByte();
      if first.None? { return Failed; }
      match kind {
        case 0 => Play([Release(channel, first.value % 128)]);
        case 1 =>
          if first.value >= 128 {
            var second := SongByte();
            if second.None? { return Failed; }
            Play([NoteOn(channel, first.value % 128, Some(second.value % 128))]);
          } else {
            Play([NoteOn(channel, first.value, None)]);
          }
        case 2 => Play([Pitch(channel, first.value)]);
        case 3 =>
          if first.value == 10 || first.value == 11 {
            Play([Silence(channel)]);
          } else if first.value == 14 {
            Play([Reset(channel), Silence(channel)]);
          } else {
            Play([]);
          }
        case _ =>
          var second := SongByte();
          if second.None? { return Failed; }
          var value := second.value % 128;
          if first.value == 0 {
            Play([Program(channel, value)]);
          } else if first.value == 3 {
            Play([Volume(channel, value)]);
          } else if first.value == 4 {
            Play([Pan(channel, value)]);
          } else {
            Play([]);
          }
      }
      return Played(last);
    }

    /** Read the delay after a group. */
    method ReadTicks() returns (r: Option<nat>)
      modifies this`cursor
      ensures var d := ReadDelay(score, old(cursor), 0);
              if d.None? then r == None else r == Some(d.value.0) && cursor == d.value.1
    {
      var ticks: nat := 0;
      while true
        invariant old(cursor) <= cursor
        invariant ReadDelay(score, cursor, ticks) == ReadDelay(score, old(cursor), 0)
        decreases |score| - cursor
      {
        var value := SongByte();
        if value.None? || ticks > 0x1FF_FFFF { return None; }
        ticks := ticks * 128 + value.value % 128;
        if value.value < 128 { return Some(ticks); }
      }
    }

    /** Play the events of one group and read the delay after it. */
    method PlayGroup() returns (r: GroupOutcome)
      modifies this`cursor, this`log
      ensures log == old(log) + Stamped(ReadGroup(score, old(cursor)).effects, frame)
      ensures var g := ReadGroup(score, old(cursor));
              if g.Broken? then r == GroupFailed
              else if g.Finished? then r == ScoreEnded
              else r == Delayed(g.ticks) && cursor == g.next
    {
      hide ReadGroup, ReadEvent, ReadDelay, Stamped;
      ghost var whole := ReadGroup(score, cursor);
      while true
        invariant log + Stamped(ReadGroup(score, cursor).effects, frame) == old(log) + Stamped(whole.effects, frame)
        invariant ReadGroup(score, cursor).(effects := []) == whole.(effects := [])
        decreases |score| - cursor
      {
        ghost var before, at := log, cursor;
        GroupOfEvent(score, at, frame);
        var event := PlayEvent();
        match event {
          case Failed => return GroupFailed;
          case AtEnd => return ScoreEnded;
          case Played(last) =>
            if last {
              var ticks := ReadTicks();
              return if ticks.None? then GroupFailed else Delayed(ticks.value);
            }
            ghost var e := ReadEvent(score, at);
            assert log + Stamped(ReadGroup(score, cursor).effects, frame)
                == before + (Stamped(e.effects, frame) + Stamped(ReadGroup(score, cursor).effects, frame));
        }
      }
    }

    /** Play groups until one is followed by a delay of at least one frame. Whatever the bytes, it comes back: waiting
        for the next group on time, at the start again, or stopped with the whole timeline applied. */
    method ProcessMusicEvents() returns (more: bool)
      requires playing && samplesUntilEvent == 0 && tickRemainder < TICKS_PER_SECOND && !paused
      requires Following(MAX_GROUPS, frame + 1)
      modifies this
      ensures more == playing && looping == old(looping) && !paused && tickRemainder < TICKS_PER_SECOND
      ensures more && old(looping) && EndsAtOnce(score, old(cursor), MAX_GROUPS)
              ==> Valid() && cursor == 0 && samplesUntilEvent == 0 && frame == 0 && log == []
      ensures old(looping) && EndsAtOnce(score, old(cursor), MAX_GROUPS) ==> more
      ensures more && !(old(looping) && EndsAtOnce(score, old(cursor), MAX_GROUPS))
              ==> samplesUntilEvent > 0 && frame == old(frame) && Following(MAX_GROUPS, frame + 1)
      ensures !more ==> log == Whole(score)
    {
      hide ReadGroup, Stamped, FrameOf, OnTime, AllBefore, EndsAtOnce, InStep;
      var groups: nat := 0;
      while groups < MAX_GROUPS
        invariant groups <= MAX_GROUPS && playing && !paused && looping == old(looping) && frame == old(frame)
        invariant samplesUntilEvent == 0 && tickRemainder < TICKS_PER_SECOND
        invariant Following(MAX_GROUPS - groups, frame + 1)
        invariant EndsAtOnce(score, cursor, MAX_GROUPS - groups) == EndsAtOnce(score, old(cursor), MAX_GROUPS)
      {
        OnTimeIsFrame(frame, tickRemainder, tick);
        ghost var g, before := ReadGroup(score, cursor), log;
        GroupInStep(score, cursor, tick, MAX_GROUPS - groups, log);
        EndsAfterGroup(score, cursor, MAX_GROUPS - groups);
        var outcome := PlayGroup();
        StampedBefore(before, g.effects, frame);
        match outcome {
          case GroupFailed =>
            StopMusicState();
            return false;
          case ScoreEnded =>
            if looping {
              RestartSong();
              return true;
            }
            StopMusicState();
            return false;
          case Delayed(ticks) =>
            DelayKeepsTime(frame, tickRemainder, tick, ticks);
            var scaled := ticks * OUTPUT_RATE + tickRemainder;
            samplesUntilEvent := scaled / TICKS_PER_SECOND;
            tickRemainder := scaled % TICKS_PER_SECOND;
            tick := tick + ticks;
            if samplesUntilEvent != 0 { return true; }
        }
        groups := groups + 1;
      }
      NoRoomLeft(score, cursor, tick, log);
      StopMusicState();
      return false;
    }

    /** Mix one frame: apply whatever is due first. A looping score that reaches its end without any delay comes round
        to the very state in which it started over; the code then never returns, which is what `spins` says. */
    method MixMusicFrame() returns (spins: bool)
      requires Valid()
      modifies this
      ensures Valid() && looping == old(looping)
      ensures spins <==>
                && old(playing && !paused && samplesUntilEvent == 0 && looping && EndsAtOnce(score, cursor, MAX_GROUPS))
                && EndsAtOnce(score, 0, MAX_GROUPS)
      ensures spins ==> playing && cursor == 0 && samplesUntilEvent == 0 && frame == 0 && log == []
      ensures old(!playing || paused) ==> log == old(log) && frame == old(frame) && playing == old(playing)
      ensures old(playing && !paused) && playing && !spins ==>
                frame == 1 + if old(samplesUntilEvent == 0 && looping && EndsAtOnce(score, cursor, MAX_GROUPS)) then 0
                             else old(frame)
      ensures old(playing) && !playing ==> log == Whole(score)
    {
      if !playing || paused { return false; }
      var restarted := false;
      ghost var again := samplesUntilEvent == 0 && looping && EndsAtOnce(score, cursor, MAX_GROUPS);
      while samplesUntilEvent == 0 && playing
        invariant playing && looping == old(looping) && !paused && Following(MAX_GROUPS, frame + 1)
        invariant tickRemainder < TICKS_PER_SECOND && frame == if restarted then 0 else old(frame)
        invariant restarted ==> again && looping
        invariant restarted && samplesUntilEvent == 0 ==> cursor == 0 && log == [] && Valid()
        invariant restarted && samplesUntilEvent != 0 ==> !EndsAtOnce(score, 0, MAX_GROUPS)
        invariant !restarted && samplesUntilEvent == 0 ==> cursor == old(cursor) && old(samplesUntilEvent) == 0
        invariant !restarted && samplesUntilEvent != 0 ==> !again
        decreases if samplesUntilEvent == 0 then 1 else 0, !restarted
      {
        var more := ProcessMusicEvents();
        if !more { break; }
        if samplesUntilEvent == 0 {
          if restarted { return true; }
          restarted := true;
        }
      }
      if !playing { return false; }
      samplesUntilEvent := samplesUntilEvent - 1;
      frame := frame + 1;
      return false;
    }
  }

  lemma GroupOfEvent(score: seq<byte>, at: nat, frame: nat)
    ensures var e, g := ReadEvent(score, at), ReadGroup(score, at);
            if e.Bad? then g == Broken([])
            else if e.EndOfScore? then g == Finished([])
            else if e.last then g == EndGroup(e.effects, ReadDelay(score, e.next, 0))
            else g.(effects := []) == ReadGroup(score, e.next).(effects := [])
                 && Stamped(g.effects, frame)
                    == Stamped(e.effects, frame) + Stamped(ReadGroup(score, e.next).effects, frame)
  {
    var e := ReadEvent(score, at);
    if e.Event? && !e.last { StampedConcat(e.effects, ReadGroup(score, e.next).effects, frame); }
  }

  lemma StampedBefore(log: seq<Cue>, effects: seq<Effect>, frame: nat)
    ensures AllBefore(log, frame + 1) ==> AllBefore(log + Stamped(effects, frame), frame + 1)
  {
    forall k | 0 <= k < |effects| ensures Stamped(effects, frame)[k].frame == frame { StampedAt(effects, frame, k); }
  }
}
