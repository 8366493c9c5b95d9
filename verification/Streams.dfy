/** Framing of the desktop protocol: how the server and a client window cut a byte stream into messages. */
module Streams {
  import opened Basics

  const HEADER_SIZE := 24

  /** A little-endian field of `width` bytes. */
  function Field(s: seq<byte>, at: nat, width: nat): nat
    requires at + width <= |s|
    decreases width
  {
    if width == 0 then 0 else s[at] + 256 * Field(s, at + 1, width - 1)
  }

  lemma FieldsAreLittleEndian(s: seq<byte>, at: nat)
    requires at + 4 <= |s|
    ensures var a: nat, b: nat, c: nat, d: nat := s[at], s[at + 1], s[at + 2], s[at + 3];
            Field(s, at, 2) == a + 0x100 * b && Field(s, at, 4) == a + 0x100 * b + 0x1_0000 * c + 0x100_0000 * d
  {
    var a: nat, b: nat, c: nat, d: nat := s[at], s[at + 1], s[at + 2], s[at + 3];
    assert Field(s, at + 2, 2) == c + 0x100 * d;
    assert Field(s, at, 4) == a + 0x100 * (b + 0x100 * Field(s, at + 2, 2));
  }

  /** The length of a message is in the third word of its header. */
  lemma SizeIsThirdWord(s: seq<byte>)
    requires |s| >= HEADER_SIZE
    ensures var a: nat, b: nat, c: nat, d: nat := s[8], s[9], s[10], s[11];
            SizeField(s) == a + 0x100 * b + 0x1_0000 * c + 0x100_0000 * d
  {
    FieldsAreLittleEndian(s, 8);
  }

  function SizeField(s: seq<byte>): nat
    requires |s| >= HEADER_SIZE
  {
    Field(s, 8, 4)
  }

  lemma {:induction false} FieldIsLocal(s: seq<byte>, t: seq<byte>, at: nat, width: nat)
    requires at + width <= |s| && at + width <= |t|
    requires forall i :: at <= i < at + width ==> s[i] == t[i]
    ensures Field(s, at, width) == Field(t, at, width)
    decreases width
  {
    if width > 0 { FieldIsLocal(s, t, at + 1, width - 1); }
  }

  function Flatten(chunks: seq<seq<byte>>): seq<byte> {
    if chunks == [] then [] else chunks[0] + Flatten(chunks[1..])
  }

  lemma {:induction false} FlattenSnoc(chunks: seq<seq<byte>>, last: seq<byte>)
    ensures Flatten(chunks + [last]) == Flatten(chunks) + last
  {
    if chunks == [] {
      assert [last][1..] == [] && [] + last == last;
    } else {
      assert (chunks + [last])[1..] == chunks[1..] + [last];
      FlattenSnoc(chunks[1..], last);
    }
  }

  /** A message whose header announces its own length, within the receiver's buffer. */
  predicate Legal(m: seq<byte>, capacity: nat) {
    HEADER_SIZE <= |m| <= capacity && SizeField(m) == |m|
  }

  // ---- the server's parse loop --------------------------------------------

  datatype Parsed = Parsed(messages: seq<seq<byte>>, rest: seq<byte>)

  /** Take complete messages off the front, skip one byte at an impossible size, stop at an incomplete message. */
  function Parse(s: seq<byte>, capacity: nat): (p: Parsed)
    ensures |p.rest| <= |s|
    decreases |s|
  {
    if |s| < HEADER_SIZE then Parsed([], s)
    else
      var size := SizeField(s);
      if size < HEADER_SIZE || size > capacity then Parse(s[1..], capacity)
      else if |s| < size then Parsed([], s)
      else
        var p := Parse(s[size..], capacity);
        Parsed([s[..size]] + p.messages, p.rest)
  }

  /** A parse that was stopped at the end of its input, taken up again with more bytes. */
  function Resumed(p: Parsed, more: seq<byte>, capacity: nat): Parsed {
    var q := Parse(p.rest + more, capacity);
    Parsed(p.messages + q.messages, q.rest)
  }

  lemma ResumedAfter(m: seq<byte>, p: Parsed, more: seq<byte>, capacity: nat)
    ensures Resumed(Parsed([m] + p.messages, p.rest), more, capacity)
         == Parsed([m] + Resumed(p, more, capacity).messages, Resumed(p, more, capacity).rest)
  {
    var q := Parse(p.rest + more, capacity);
    assert [m] + p.messages + q.messages == [m] + (p.messages + q.messages);
  }

  /** Parsing can be interrupted anywhere, on arbitrary bytes: cutting the input changes nothing. */
  lemma {:induction false} ParseResumes(a: seq<byte>, b: seq<byte>, capacity: nat)
    ensures Parse(a + b, capacity) == Resumed(Parse(a, capacity), b, capacity)
    decreases |a|
  {
    if |a| >= HEADER_SIZE {
      var size := SizeField(a);
      FieldIsLocal(a, a + b, 8, 4);
      if size < HEADER_SIZE || size > capacity {
        assert (a + b)[1..] == a[1..] + b;
        ParseResumes(a[1..], b, capacity);
      } else if |a| >= size {
        assert (a + b)[..size] == a[..size] && (a + b)[size..] == a[size..] + b;
        ParseResumes(a[size..], b, capacity);
        ResumedAfter(a[..size], Parse(a[size..], capacity), b, capacity);
      }
    }
  }

  /** Whatever the bytes, only legal messages are parsed. */
  lemma {:induction false} ParsedAreLegal(s: seq<byte>, capacity: nat, m: seq<byte>)
    requires m in Parse(s, capacity).messages
    ensures Legal(m, capacity)
    decreases |s|
  {
    if |s| >= HEADER_SIZE {
      var size := SizeField(s);
      if size < HEADER_SIZE || size > capacity {
        ParsedAreLegal(s[1..], capacity, m);
      } else if |s| >= size {
        FieldIsLocal(s, s[..size], 8, 4);
        if m != s[..size] { ParsedAreLegal(s[size..], capacity, m); }
      }
    }
  }

  /** The bytes at the front announce no possible message. */
  predicate Impossible(s: seq<byte>, capacity: nat) {
    |s| >= HEADER_SIZE && (SizeField(s) < HEADER_SIZE || SizeField(s) > capacity)
  }

  /** Bytes are lost only where no possible message begins: otherwise messages and remainder are all there was. */
  lemma {:induction false} ParseLosesOnlyImpossible(s: seq<byte>, capacity: nat)
    requires forall i :: 0 <= i <= |s| ==> !Impossible(s[i..], capacity)
    ensures Flatten(Parse(s, capacity).messages) + Parse(s, capacity).rest == s
    decreases |s|
  {
    assert s[0..] == s;
    if |s| >= HEADER_SIZE {
      var size := SizeField(s);
      if |s| >= size {
        var p := Parse(s[size..], capacity);
        forall i | 0 <= i <= |s[size..]| ensures !Impossible(s[size..][i..], capacity) {
          assert s[size..][i..] == s[size + i..];
        }
        ParseLosesOnlyImpossible(s[size..], capacity);
        assert ([s[..size]] + p.messages)[1..] == p.messages;
        assert s == s[..size] + s[size..];
      }
    }
  }

  /** And there a single byte is skipped. */
  lemma ParseSkipsByte(s: seq<byte>, capacity: nat)
    requires Impossible(s, capacity)
    ensures Parse(s, capacity) == Parse(s[1..], capacity)
  {
  }

  /** What stays behind never fills the buffer, so a full buffer always yields progress. */
  lemma {:induction false} ParseLeavesRoom(s: seq<byte>, capacity: nat)
    requires capacity >= HEADER_SIZE
    ensures |Parse(s, capacity).rest| < capacity
    decreases |s|
  {
    if |s| >= HEADER_SIZE {
      var size := SizeField(s);
      if size < HEADER_SIZE || size > capacity {
        ParseLeavesRoom(s[1..], capacity);
      } else if |s| >= size {
        ParseLeavesRoom(s[size..], capacity);
      }
    }
  }

  /** A stream of legal messages parses into exactly those messages, in order and whole. */
  lemma {:induction false} ParseDelivers(messages: seq<seq<byte>>, capacity: nat)
    requires forall m :: m in messages ==> Legal(m, capacity)
    ensures Parse(Flatten(messages), capacity) == Parsed(messages, [])
  {
    if messages != [] {
      var m, s := messages[0], Flatten(messages);
      assert Legal(m, capacity);
      FieldIsLocal(m, s, 8, 4);
      assert s[..|m|] == m && s[|m|..] == Flatten(messages[1..]);
      ParseDelivers(messages[1..], capacity);
      assert [m] + messages[1..] == messages;
    }
  }

  /** The server's buffer after each read in turn, and everything it has parsed. */
  function Fed(rest: seq<byte>, chunks: seq<seq<byte>>, capacity: nat): Parsed
    decreases |chunks|
  {
    if chunks == [] then Parsed([], rest)
    else
      var now := Parse(rest + chunks[0], capacity);
      var later := Fed(now.rest, chunks[1..], capacity);
      Parsed(now.messages + later.messages, later.rest)
  }

  /** Chunking independence: however the bytes are cut into reads, the server parses the same messages. */
  lemma {:induction false} FedIsParse(rest: seq<byte>, chunks: seq<seq<byte>>, capacity: nat)
    requires Parse(rest, capacity) == Parsed([], rest)
    ensures Fed(rest, chunks, capacity) == Parse(rest + Flatten(chunks), capacity)
    decreases |chunks|
  {
    if chunks == [] {
      assert rest + [] == rest;
    } else {
      var now := Parse(rest + chunks[0], capacity);
      assert rest + Flatten(chunks) == (rest + chunks[0]) + Flatten(chunks[1..]);
      ParseResumes(rest + chunks[0], Flatten(chunks[1..]), capacity);
      RestIsStuck(rest + chunks[0], capacity);
      FedIsParse(now.rest, chunks[1..], capacity);
    }
  }

  /** Parsing the remainder again finds nothing more. */
  lemma {:induction false} RestIsStuck(s: seq<byte>, capacity: nat)
    ensures Parse(Parse(s, capacity).rest, capacity) == Parsed([], Parse(s, capacity).rest)
    decreases |s|
  {
    if |s| >= HEADER_SIZE {
      var size := SizeField(s);
      if size < HEADER_SIZE || size > capacity {
        RestIsStuck(s[1..], capacity);
      } else if |s| >= size {
        RestIsStuck(s[size..], capacity);
      }
    }
  }

  /** Any cutting of a stream of legal messages delivers each message once, in order and whole. */
  lemma ServerDelivers(messages: seq<seq<byte>>, chunks: seq<seq<byte>>, capacity: nat)
    requires forall m :: m in messages ==> Legal(m, capacity)
    requires Flatten(chunks) == Flatten(messages)
    ensures Fed([], chunks, capacity) == Parsed(messages, [])
  {
    FedIsParse([], chunks, capacity);
    assert [] + Flatten(chunks) == Flatten(chunks);
    ParseDelivers(messages, capacity);
  }

  // ---- the client's next_event ---------------------------------------------

  const EVENT_CAPACITY := 512

  datatype Event = NotReady | Malformed | TooSmall | Delivered(message: seq<byte>)

  /** The event buffer and the part of the pipe that was not read yet. */
  datatype Client = Client(buffer: seq<byte>, pipe: seq<byte>)

  /** One read: the pipe hands over at most `offer` bytes, and no more than fit. */
  function Filled(c: Client, offer: nat): (r: Client)
    requires |c.buffer| <= EVENT_CAPACITY
    ensures r.buffer + r.pipe == c.buffer + c.pipe && |c.buffer| <= |r.buffer| <= EVENT_CAPACITY
  {
    var room := EVENT_CAPACITY - |c.buffer|;
    var n := if offer > |c.pipe| then |c.pipe| else offer;
    var k := if n > room then room else n;
    assert c.pipe == c.pipe[..k] + c.pipe[k..];
    Client(c.buffer + c.pipe[..k], c.pipe[k..])
  }

  predicate BadSize(buffer: seq<byte>)
    requires |buffer| >= HEADER_SIZE
  {
    SizeField(buffer) < HEADER_SIZE || SizeField(buffer) > EVENT_CAPACITY
  }

  /** The end of a call, once the buffer holds a header of a possible size. */
  function HandOver(c: Client, capacity: nat): (Client, Event)
    requires HEADER_SIZE <= |c.buffer| <= EVENT_CAPACITY && !BadSize(c.buffer)
  {
    var size := SizeField(c.buffer);
    if |c.buffer| < size then (c, NotReady)
    else if capacity < size then (c, TooSmall)
    else (Client(c.buffer[size..], c.pipe), Delivered(c.buffer[..size]))
  }

  function AfterHeader(c: Client, second: nat, capacity: nat): (Client, Event)
    requires HEADER_SIZE <= |c.buffer| <= EVENT_CAPACITY
  {
    if BadSize(c.buffer) then (Client([], c.pipe), Malformed)
    else if |c.buffer| < SizeField(c.buffer) then
      FilledKeepsSize(c, second);
      HandOver(Filled(c, second), capacity)
    else HandOver(c, capacity)
  }

  lemma FilledKeepsSize(c: Client, offer: nat)
    requires HEADER_SIZE <= |c.buffer| <= EVENT_CAPACITY
    ensures SizeField(Filled(c, offer).buffer) == SizeField(c.buffer)
  {
    FieldIsLocal(c.buffer, Filled(c, offer).buffer, 8, 4);
  }

  function NextEvent(c: Client, first: nat, second: nat, capacity: nat): (Client, Event)
    requires |c.buffer| <= EVENT_CAPACITY
  {
    var c1 := if |c.buffer| < HEADER_SIZE then Filled(c, first) else c;
    if |c1.buffer| < HEADER_SIZE then (c1, NotReady) else AfterHeader(c1, second, capacity)
  }

  /** A buffer holding the start of a legal stream shows the length of the stream's first message. */
  lemma HeaderAnnouncesFirst(buffer: seq<byte>, messages: seq<seq<byte>>)
    requires forall m :: m in messages ==> Legal(m, EVENT_CAPACITY)
    requires buffer <= Flatten(messages) && |buffer| >= HEADER_SIZE
    ensures messages != [] && HEADER_SIZE <= SizeField(buffer) == |messages[0]| <= EVENT_CAPACITY
    ensures |buffer| >= |messages[0]| ==> buffer[..|messages[0]|] == messages[0]
  {
    assert Legal(messages[0], EVENT_CAPACITY);
    FieldIsLocal(messages[0], buffer, 8, 4);
  }

  lemma StreamIsLong(messages: seq<seq<byte>>)
    requires forall m :: m in messages ==> Legal(m, EVENT_CAPACITY)
    ensures messages == [] || |Flatten(messages)| >= HEADER_SIZE
  {
    if messages != [] {
      assert Legal(messages[0], EVENT_CAPACITY);
    }
  }

  /** What a call may do to a stream of legal messages: deliver exactly the next message, or lose nothing;
      it delivers nothing only when bytes of that message are still missing or the output is too small. */
  predicate TakesNext(messages: seq<seq<byte>>, capacity: nat, after: Client, e: Event) {
    && |after.buffer| <= EVENT_CAPACITY && !e.Malformed?
    && (if e.Delivered? then messages != [] && e.message == messages[0]
                             && after.buffer + after.pipe == Flatten(messages[1..])
        else after.buffer + after.pipe == Flatten(messages))
    && (e.TooSmall? ==> messages != [] && capacity < |messages[0]|)
    && (e.NotReady? && after.pipe == [] ==> messages == [])
    && (e.NotReady? && messages != [] ==> |after.buffer| < |messages[0]|)
  }

  lemma HandOverTakesNext(c: Client, capacity: nat, messages: seq<seq<byte>>)
    requires HEADER_SIZE <= |c.buffer| <= EVENT_CAPACITY
    requires forall m :: m in messages ==> Legal(m, EVENT_CAPACITY)
    requires c.buffer + c.pipe == Flatten(messages)
    ensures !BadSize(c.buffer)
    ensures TakesNext(messages, capacity, HandOver(c, capacity).0, HandOver(c, capacity).1)
  {
    assert c.buffer <= Flatten(messages);
    HeaderAnnouncesFirst(c.buffer, messages);
    var size := |messages[0]|;
    if |c.buffer| >= size {
      assert c.buffer[size..] + c.pipe == (c.buffer + c.pipe)[size..];
    }
  }

  lemma NextEventTakesNext(c: Client, first: nat, second: nat, capacity: nat, messages: seq<seq<byte>>)
    requires |c.buffer| <= EVENT_CAPACITY
    requires forall m :: m in messages ==> Legal(m, EVENT_CAPACITY)
    requires c.buffer + c.pipe == Flatten(messages)
    ensures var r := NextEvent(c, first, second, capacity); TakesNext(messages, capacity, r.0, r.1)
  {
    var c1 := if |c.buffer| < HEADER_SIZE then Filled(c, first) else c;
    if |c1.buffer| < HEADER_SIZE {
      StreamIsLong(messages);
      assert c1.pipe == [] ==> c1.buffer == Flatten(messages);
      assert messages != [] ==> Legal(messages[0], EVENT_CAPACITY);
    } else {
      HandOverTakesNext(c1, capacity, messages);
      HandOverTakesNext(Filled(c1, second), capacity, messages);
    }
  }

  /** A call that may read at least a byte each time, with room for any message, delivers or takes bytes off the
      pipe for as long as messages are left. */
  lemma NextEventAdvances(c: Client, first: nat, second: nat, capacity: nat, messages: seq<seq<byte>>)
    requires |c.buffer| <= EVENT_CAPACITY && first > 0 && second > 0 && capacity >= EVENT_CAPACITY
    requires forall m :: m in messages ==> Legal(m, EVENT_CAPACITY)
    requires c.buffer + c.pipe == Flatten(messages) && messages != []
    ensures var r := NextEvent(c, first, second, capacity);
            |r.0.pipe| <= |c.pipe| && (r.1.Delivered? || |r.0.pipe| < |c.pipe|)
  {
    var c1 := if |c.buffer| < HEADER_SIZE then Filled(c, first) else c;
    StreamIsLong(messages);
    if |c1.buffer| >= HEADER_SIZE {
      assert c1.buffer <= Flatten(messages);
      HeaderAnnouncesFirst(c1.buffer, messages);
      FilledKeepsSize(c1, second);
    }
  }

  /** Whatever the bytes, a call reports a malformed stream exactly if it finds a header with an impossible size, and
      then it drops what was buffered. */
  lemma MalformedIsDropped(c: Client, first: nat, second: nat, capacity: nat)
    requires |c.buffer| <= EVENT_CAPACITY
    ensures var c1 := if |c.buffer| < 24 then Filled(c, first) else c;
            var (after, e) := NextEvent(c, first, second, capacity);
            && (e.Malformed? <==> |c1.buffer| >= 24 && !(24 <= SizeField(c1.buffer) <= 512))
            && (e.Malformed? ==> after == Client([], c1.pipe))
  {
  }

  /** A whole run of calls, each with its own offers and output size, with the messages it delivered. */
  function EventRun(c: Client, calls: seq<(nat, nat, nat)>): (Client, seq<seq<byte>>)
    requires |c.buffer| <= EVENT_CAPACITY
    decreases |calls|
  {
    if calls == [] then (c, [])
    else
      var (c', e) := NextEvent(c, calls[0].0, calls[0].1, calls[0].2);
      var (last, more) := EventRun(c', calls[1..]);
      (last, (if e.Delivered? then [e.message] else []) + more)
  }

  lemma PrefixGrows(messages: seq<seq<byte>>, more: seq<seq<byte>>)
    requires messages != [] && more <= messages[1..]
    ensures [messages[0]] + more <= messages
    ensures messages[1..][|more|..] == messages[1 + |more|..]
  {
    assert messages == [messages[0]] + messages[1..];
  }

  /** Over any run, what was delivered is exactly a prefix of the messages sent: each once, in order, whole. */
  lemma {:induction false} ClientDelivers(c: Client, calls: seq<(nat, nat, nat)>, messages: seq<seq<byte>>)
    requires |c.buffer| <= EVENT_CAPACITY
    requires forall m :: m in messages ==> Legal(m, EVENT_CAPACITY)
    requires c.buffer + c.pipe == Flatten(messages)
    ensures EventRun(c, calls).1 <= messages
    ensures EventRun(c, calls).0.buffer + EventRun(c, calls).0.pipe == Flatten(messages[|EventRun(c, calls).1|..])
    decreases |calls|
  {
    if calls == [] {
      assert messages[0..] == messages;
    } else {
      NextEventTakesNext(c, calls[0].0, calls[0].1, calls[0].2, messages);
      var (c', e) := NextEvent(c, calls[0].0, calls[0].1, calls[0].2);
      if e.Delivered? {
        ClientDelivers(c', calls[1..], messages[1..]);
        PrefixGrows(messages, EventRun(c', calls[1..]).1);
      } else {
        ClientDelivers(c', calls[1..], messages);
        assert [] + EventRun(c', calls[1..]).1 == EventRun(c', calls[1..]).1;
      }
    }
  }

  predicate Generous(calls: seq<(nat, nat, nat)>) {
    forall i :: 0 <= i < |calls| ==> calls[i].0 > 0 && calls[i].1 > 0 && calls[i].2 >= EVENT_CAPACITY
  }

  /** Calls that may read and have room for any message deliver all of a stream of legal messages, each once, in order
      and whole, in no more calls than there are messages and unread bytes. */
  lemma {:induction false} ClientDeliversAll(c: Client, calls: seq<(nat, nat, nat)>, messages: seq<seq<byte>>)
    requires |c.buffer| <= EVENT_CAPACITY && Generous(calls) && |calls| >= |messages| + |c.pipe|
    requires forall m :: m in messages ==> Legal(m, EVENT_CAPACITY)
    requires c.buffer + c.pipe == Flatten(messages)
    ensures EventRun(c, calls).1 == messages
    decreases |calls|
  {
    hide NextEvent;
    ClientDelivers(c, calls, messages);
    if messages != [] {
      var (first, second, capacity) := calls[0];
      NextEventTakesNext(c, first, second, capacity, messages);
      NextEventAdvances(c, first, second, capacity, messages);
      var (c', e) := NextEvent(c, first, second, capacity);
      ClientDeliversAll(c', calls[1..], if e.Delivered? then messages[1..] else messages);
    }
  }

  class EventStream {
    const bytes: array<byte>
    var used: nat
    var pipe: seq<byte>

    ghost predicate Valid() reads this {
      bytes.Length == EVENT_CAPACITY && used <= EVENT_CAPACITY
    }

    ghost function State(): Client
      requires Valid()
      reads this, bytes
    {
      Client(bytes[..used], pipe)
    }

    constructor ()
      ensures Valid() && fresh(bytes) && State() == Client([], [])
    {
      bytes := new byte[EVENT_CAPACITY](_ => 0);
      used, pipe := 0, [];
    }

    /** A read of the event pipe into the free part of the buffer. */
    method Fill(offer: nat)
      requires Valid()
      modifies this, bytes
      ensures Valid() && State() == Filled(old(State()), offer)
    {
      var room := EVENT_CAPACITY - used;
      var n := if offer > |pipe| then |pipe| else offer;
      var k := if n > room then room else n;
      ghost var was := bytes[..used];
      for i := 0 to k
        modifies bytes
        invariant forall j :: 0 <= j < used ==> bytes[j] == was[j]
        invariant forall j :: 0 <= j < i ==> bytes[used + j] == pipe[j]
      {
        bytes[used + i] := pipe[i];
      }
      assert bytes[..used + k] == was + pipe[..k];
      used := used + k;
      pipe := pipe[k..];
    }

    /** Move the bytes after a delivered message to the front of the buffer. */
    method Discard(size: nat)
      requires Valid() && size <= used
      modifies this, bytes
      ensures Valid() && pipe == old(pipe)
      ensures bytes[..used] == old(bytes[..used])[size..]
    {
      ghost var full := bytes[..used];
      for i := 0 to used - size
        modifies bytes
        invariant forall j :: 0 <= j < i ==> bytes[j] == full[size + j]
        invariant forall j :: i <= j < used ==> bytes[j] == full[j]
      {
        bytes[i] := bytes[i + size];
      }
      used := used - size;
    }

    method Deliver(second: nat, capacity: nat) returns (e: Event)
      requires Valid() && used >= HEADER_SIZE
      modifies this, bytes
      ensures Valid() && (State(), e) == AfterHeader(old(State()), second, capacity)
    {
      ghost var c := State();
      var size := SizeField(bytes[..used]);
      if size < HEADER_SIZE || size > EVENT_CAPACITY {
        used := 0;
        assert bytes[..used] == [];
        return Malformed;
      }
      if used < size {
        Fill(second);
        FilledKeepsSize(c, second);
      }
      if used < size { return NotReady; }
      if capacity < size { return TooSmall; }
      var output := bytes[..size];
      assert output == bytes[..used][..size];
      Discard(size);
      return Delivered(output);
    }

    method Next(first: nat, second: nat, capacity: nat) returns (e: Event)
      requires Valid()
      modifies this, bytes
      ensures Valid() && (State(), e) == NextEvent(old(State()), first, second, capacity)
    {
      if used < HEADER_SIZE { Fill(first); }
      if used < HEADER_SIZE { return NotReady; }
      e := Deliver(second, capacity);
    }
  }
}
