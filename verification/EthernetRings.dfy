/** The receive and transmit descriptor rings shared with an e1000e controller (Intel 82574 datasheet,
    sections 7.1 and 7.2). The controller acts between any two steps of the driver. */
module EthernetRings {
  import opened Basics

  const PACKET_SIZE := 2048
  const MINIMUM_FRAME := 60

  /** The contents of one packet buffer. */
  type Packet = p: seq<byte> | |p| == PACKET_SIZE witness seq(PACKET_SIZE, _ => 0)

  /** The successor of a ring slot, as the driver computes it. */
  function Next(slot: nat, count: nat): nat { if slot + 1 >= count then 0 else slot + 1 }

  // ---- receive ------------------------------------------------------------------

  datatype RxDescriptor = RxDescriptor(length: nat, status: byte, errors: byte)

  const BLANK := RxDescriptor(0, 0, 0)

  predicate Done(status: byte) { status % 2 == 1 }

  predicate EndOfPacket(status: byte) { status / 2 % 2 == 1 }

  /** Any of the error bits of mask 0x97. */
  predicate FrameErrors(errors: byte) { errors % 8 != 0 || errors / 16 % 2 == 1 || errors / 128 % 2 == 1 }

  /** A descriptor the controller has written, with the packet buffer it filled. */
  datatype Arrival = Arrival(desc: RxDescriptor, data: Packet)

  predicate Good(a: Arrival) {
    && EndOfPacket(a.desc.status) && !FrameErrors(a.desc.errors)
    && a.desc.length != 0 && a.desc.length <= PACKET_SIZE
  }

  /** Done is bit 0 of the status and end of packet bit 1; bits 0, 1, 2, 4 and 7 of the errors reject a frame. */
  lemma BitsAreRead(
    a: Arrival, s0: nat, s1: nat, s: nat, e0: nat, e1: nat, e2: nat, e3: nat, e4: nat, e56: nat, e7: nat)
    requires s0 < 2 && s1 < 2 && a.desc.status == 4 * s + 2 * s1 + s0
    requires e0 < 2 && e1 < 2 && e2 < 2 && e3 < 2 && e4 < 2 && e56 < 4 && e7 < 2
    requires a.desc.errors == e0 + 2 * e1 + 4 * e2 + 8 * e3 + 16 * e4 + 32 * e56 + 128 * e7
    ensures Done(a.desc.status) <==> s0 == 1
    ensures Good(a) <==> s1 == 1 && e0 + e1 + e2 + e4 + e7 == 0 && 0 < a.desc.length <= 2048
  {
    assert a.desc.status / 2 == 2 * s + s1;
    assert a.desc.errors / 16 == 2 * (e56 + 4 * e7) + e4;
  }

  /** The frames that a series of arrivals should hand to the network stack. */
  function Frames(arrivals: seq<Arrival>): seq<seq<byte>> {
    if arrivals == [] then []
    else
      var n := |arrivals| - 1;
      Frames(arrivals[..n]) + if Good(arrivals[n]) then [arrivals[n].data[..arrivals[n].desc.length]] else []
  }

  /** A good arrival hands over its buffer up to its length, any other nothing; and so on in order. */
  lemma FramesInOrder(before: seq<Arrival>, a: Arrival)
    ensures Good(a) ==> Frames(before + [a]) == Frames(before) + [a.data[..a.desc.length]]
    ensures !Good(a) ==> Frames(before + [a]) == Frames(before)
  {
    assert (before + [a])[..|before|] == before;
  }

  // ---- frames over several descriptors ----------------------------------------------

  /** A frame as the controller would spread it over descriptors: only the last one has the end of packet. */
  predicate Spread(parts: seq<Arrival>) {
    parts != [] && EndOfPacket(parts[|parts| - 1].desc.status)
    && forall i :: 0 <= i < |parts| - 1 ==> !EndOfPacket(parts[i].desc.status)
  }

  /** The arrivals of a series of frames, one after the other. */
  function Parts(frames: seq<seq<Arrival>>): seq<Arrival> {
    if frames == [] then [] else Parts(frames[..|frames| - 1]) + frames[|frames| - 1]
  }

  /** The good frames of the series that came in one descriptor. */
  function Singles(frames: seq<seq<Arrival>>): seq<seq<byte>> {
    if frames == [] then []
    else
      var n := |frames| - 1;
      var a := frames[n];
      Singles(frames[..n]) + if |a| == 1 && Good(a[0]) then [a[0].data[..a[0].desc.length]] else []
  }

  /** No frame over several descriptors ends in one that looks like a good frame. */
  predicate NoGoodTail(frames: seq<seq<Arrival>>) {
    forall f :: f in frames && |f| > 1 ==> !Good(f[|f| - 1])
  }

  lemma {:induction false} FramesConcat(a: seq<Arrival>, b: seq<Arrival>)
    ensures Frames(a + b) == Frames(a) + Frames(b)
    decreases |b|
  {
    if b == [] {
      assert a + b == a;
    } else {
      var n := |b| - 1;
      assert (a + b)[..|a| + n] == a + b[..n];
      FramesConcat(a, b[..n]);
    }
  }

  lemma {:induction false} NothingWithoutEnd(parts: seq<Arrival>)
    requires forall i :: 0 <= i < |parts| ==> !EndOfPacket(parts[i].desc.status)
    ensures Frames(parts) == []
  {
    if parts != [] { NothingWithoutEnd(parts[..|parts| - 1]); }
  }

  lemma SpreadDelivers(parts: seq<Arrival>)
    requires Spread(parts)
    ensures var a := parts[|parts| - 1]; Frames(parts) == if Good(a) then [a.data[..a.desc.length]] else []
  {
    NothingWithoutEnd(parts[..|parts| - 1]);
  }

  lemma NoGoodTailSplits(before: seq<seq<Arrival>>, f: seq<Arrival>)
    ensures NoGoodTail(before + [f]) <==> NoGoodTail(before) && (|f| > 1 ==> !Good(f[|f| - 1]))
  {
    assert f in before + [f];
  }

  /** What is delivered of a series of frames is exactly the good ones that came in one descriptor, if and only if no
      frame over several descriptors ends in a good one: its last part would be delivered as a frame. */
  lemma {:induction false} SinglesAreDelivered(frames: seq<seq<Arrival>>)
    requires forall f :: f in frames ==> Spread(f)
    ensures |Singles(frames)| <= |Frames(Parts(frames))|
    ensures Frames(Parts(frames)) == Singles(frames) <==> NoGoodTail(frames)
  {
    hide NoGoodTail, Frames, Good, Spread;
    if frames == [] {
      NothingWithoutEnd([]);
      NothingToDeliver();
    } else {
      var n := |frames| - 1;
      var f, before := frames[n], frames[..n];
      assert frames == before + [f] && Spread(f);
      SinglesAreDelivered(before);
      FramesConcat(Parts(before), f);
      SpreadDelivers(f);
      SpreadIsSome(f);
      NoGoodTailSplits(before, f);
      LastDecides(Frames(Parts(before)), Singles(before), Frames(f), |f| == 1);
    }
  }

  lemma SpreadIsSome(parts: seq<Arrival>)
    requires Spread(parts)
    ensures parts != []
  {
  }

  lemma NothingToDeliver()
    ensures NoGoodTail([])
  {
  }

  /** Two lists, the second no longer than the first, to which the same or one thing less is appended. */
  lemma LastDecides(a: seq<seq<byte>>, b: seq<seq<byte>>, last: seq<seq<byte>>, both: bool)
    requires |b| <= |a|
    ensures a + last == b + (if both then last else []) <==> a == b && (both || last == [])
  {
    var r := b + if both then last else [];
    if a + last == r {
      assert |a| == |b|;
      assert a == (a + last)[..|a|] == r[..|b|] == b;
    }
  }

  /** A frame in two descriptors, the last of them good, shows it. */
  lemma TailIsDelivered(a: Arrival, b: Arrival)
    requires !EndOfPacket(a.desc.status) && Good(b)
    ensures Spread([a, b]) && Singles([[a, b]]) == [] && Frames(Parts([[a, b]])) == [b.data[..b.desc.length]]
  {
    assert Parts([[a, b]]) == [] + [a, b] == [a, b];
    FramesConcat([a], [b]);
    assert [a] + [b] == [a, b];
  }

  // ---- the ring shared with the controller --------------------------------------------

  /** The slots from `front` on hold exactly these unread arrivals; every other slot belongs to the controller. */
  ghost predicate Unread(ring: seq<RxDescriptor>, buffers: seq<Packet>, front: nat, items: seq<Arrival>) {
    && |ring| == |buffers| && front < |ring| && |items| <= |ring|
    && forall j :: 0 <= j < |ring| ==>
         if Distance(front, j, |ring|) < |items| then Arrival(ring[j], buffers[j]) == items[Distance(front, j, |ring|)]
         else !Done(ring[j].status)
  }

  lemma UnreadGrows(ring: seq<RxDescriptor>, buffers: seq<Packet>, front: nat, items: seq<Arrival>, a: Arrival)
    requires Unread(ring, buffers, front, items) && |items| < |ring|
    ensures var at := Wrap(front + |items|, |ring|);
            !Done(ring[at].status) && Unread(ring[at := a.desc], buffers[at := a.data], front, items + [a])
  {
    var n := |ring|;
    var at := Wrap(front + |items|, n);
    assert Distance(front, at, n) == |items|;
    forall j | 0 <= j < n && j != at ensures Distance(front, j, n) != |items| {}
  }

  lemma UnreadShrinks(ring: seq<RxDescriptor>, buffers: seq<Packet>, front: nat, items: seq<Arrival>)
    requires Unread(ring, buffers, front, items) && items != []
    ensures Unread(ring[front := BLANK], buffers, Wrap(front + 1, |ring|), items[1..])
  {
    var n := |ring|;
    var front' := Wrap(front + 1, n);
    forall j | 0 <= j < n
      ensures j != front ==> Distance(front, j, n) == Distance(front', j, n) + 1
      ensures j == front ==> Distance(front', j, n) == n - 1
    {
    }
  }

  lemma FrontIsOldest(ring: seq<RxDescriptor>, buffers: seq<Packet>, front: nat, items: seq<Arrival>)
    requires Unread(ring, buffers, front, items)
    ensures if items == [] then !Done(ring[front].status) else Arrival(ring[front], buffers[front]) == items[0]
  {
    assert Distance(front, front, |ring|) == 0;
  }

  /** The status the controller writes back always has the done bit. */
  function WithDone(status: byte): byte { if Done(status) then status else status + 1 }

  class Receiver {
    const count: nat
    const ring: array<RxDescriptor>
    const buffers: array<Packet>
    var index: nat        // rx_index
    var tail: nat         // RDT0
    var delivered: seq<seq<byte>>
    var descriptorsSeen: nat
    var framesPassed: nat

    // The controller: its head register and what the wire still brings.
    var head: nat
    var wire: seq<Arrival>

    // Everything written to descriptors so far, and how much of it the driver has taken.
    ghost var arrivals: seq<Arrival>
    ghost var taken: nat

    /** The ring between two steps: unread slots start at `front`, and the controller may fill the slots before
        the one `limit` further on, which is the tail. */
    ghost predicate Shared(front: nat, limit: nat) reads this, ring, buffers {
      && 2 <= count == ring.Length == buffers.Length && front < count && limit < count
      && tail == Wrap(front + limit, count)
      && taken <= |arrivals| <= taken + limit && head == Wrap(front + |arrivals| - taken, count)
      && Unread(ring[..], buffers[..], front, arrivals[taken..])
      && (forall a :: a in arrivals ==> Done(a.desc.status))
    }

    /** Between calls the tail is the slot before `rx_index`, and exactly the good frames taken so far were
        delivered. */
    ghost predicate Valid() reads this, ring, buffers {
      && 2 <= count && Shared(index, count - 1) && delivered == Frames(arrivals[..taken])
      && descriptorsSeen == taken && framesPassed == |delivered|
    }

    constructor (count: nat, wire: seq<Arrival>)
      requires 2 <= count
      ensures Valid() && fresh(ring) && fresh(buffers) && this.count == count
      ensures arrivals == [] && delivered == [] && index == 0 && tail == count - 1
    {
      this.count, this.wire := count, wire;
      ring := new RxDescriptor[count](_ => BLANK);
      buffers := new Packet[count](_ => seq(PACKET_SIZE, _ => 0));
      index, tail, head := 0, count - 1, 0;
      delivered, descriptorsSeen, framesPassed := [], 0, 0;
      arrivals, taken := [], 0;
    }

    /** The controller takes one arrival off the wire: it fills the slot at its head unless the head has reached
        the tail, and never touches a slot that holds unread data. */
    method Arrive(ghost front: nat, ghost limit: nat)
      requires Shared(front, limit)
      modifies `wire, `head, `arrivals, ring, buffers
      ensures Shared(front, limit) && old(arrivals) <= arrivals
      ensures forall j :: 0 <= j < count && old(Done(ring[j].status)) ==>
                            ring[j] == old(ring[j]) && buffers[j] == old(buffers[j])
    {
      hide Unread;
      if wire == [] { return; }
      var a := wire[0];
      wire := wire[1..];
      if head == tail { return; }
      var written := Arrival(a.desc.(status := WithDone(a.desc.status)), a.data);
      UnreadGrows(ring[..], buffers[..], front, arrivals[taken..], written);
      ring[head] := written.desc;
      buffers[head] := written.data;
      ghost var unread := arrivals[taken..];
      arrivals := arrivals + [written];
      assert arrivals[taken..] == unread + [written];
      head := Next(head, count);
    }

    /** Any number of arrivals. */
    method Traffic(ghost front: nat, ghost limit: nat)
      requires Shared(front, limit)
      modifies `wire, `head, `arrivals, ring, buffers
      ensures Shared(front, limit) && old(arrivals) <= arrivals
      ensures forall j :: 0 <= j < count && old(Done(ring[j].status)) ==>
                            ring[j] == old(ring[j]) && buffers[j] == old(buffers[j])
    {
      var n: nat :| n <= |wire|;
      for i := 0 to n
        invariant Shared(front, limit) && old(arrivals) <= arrivals
        invariant forall j :: 0 <= j < count && old(Done(ring[j].status)) ==>
                                ring[j] == old(ring[j]) && buffers[j] == old(buffers[j])
      {
        Arrive(front, limit);
      }
    }

    /** `recycle_rx_descriptor` and the step of `rx_index`: the slot is blanked before the tail hands it over. */
    method Recycle()
      requires 2 <= count && Shared(index, count - 1) && taken < |arrivals|
      modifies `wire, `head, `arrivals, `index, `tail, `taken, ring, buffers
      ensures 2 <= count && Shared(index, count - 1) && taken == old(taken) + 1
      ensures old(arrivals) <= arrivals && index == Next(old(index), count)
    {
      hide Unread;
      ghost var next := Next(index, count);
      UnreadShrinks(ring[..], buffers[..], index, arrivals[taken..]);
      ring[index] := BLANK;
      taken := taken + 1;
      assert arrivals[taken - 1..][1..] == arrivals[taken..];
      Traffic(next, count - 2);
      tail := index;
      Traffic(next, count - 1);
      index := Next(index, count);
    }

    /** Traffic between two looks at the ring. */
    method Await()
      requires Valid()
      modifies `wire, `head, `arrivals, ring, buffers
      ensures Valid() && old(arrivals) <= arrivals && index < count == ring.Length == buffers.Length
      ensures !Done(ring[index].status) ==> taken == |arrivals|
      ensures Done(ring[index].status) ==> taken < |arrivals| && Arrival(ring[index], buffers[index]) == arrivals[taken]
      ensures old(Valid() && Done(ring[index].status)) ==> ring[index] == old(ring[index])
    {
      hide Unread;
      ghost var was := arrivals;
      Traffic(index, count - 1);
      assert arrivals[..taken] == was[..taken];
      FrontIsOldest(ring[..], buffers[..], index, arrivals[taken..]);
    }

    /** `service_device`: deliver what has arrived, oldest first, but at most one ring's worth. Everything that had
        arrived when the call began is taken, and each good frame is delivered once, in arrival order. */
    method ServiceDevice()
      requires Valid()
      modifies this, ring, buffers
      ensures Valid() && old(arrivals) <= arrivals
      ensures |old(arrivals)| <= taken <= old(taken) + count
      ensures old(delivered) <= delivered && |delivered| <= |old(delivered)| + count
    {
      assert |arrivals| < taken + count;
      hide Shared;
      var serviced := 0;
      while serviced < count
        invariant Valid() && old(arrivals) <= arrivals && taken == old(taken) + serviced && serviced <= count
        invariant old(delivered) <= delivered && |delivered| <= |old(delivered)| + serviced
        decreases count - serviced
      {
        Await();
        var status := ring[index].status;
        if !Done(status) { break; }
        Take(status);
        serviced := serviced + 1;
      }
    }

    /** Look at one finished descriptor, pass its frame on if it is good, and recycle it. */
    method Take(status: byte)
      requires Valid() && ring[index].status == status && Done(status)
      modifies this, ring, buffers
      ensures Valid() && old(arrivals) <= arrivals && taken == old(taken) + 1
      ensures old(delivered) <= delivered && |delivered| <= |old(delivered)| + 1
    {
      hide Unread;
      Await();
      var errors, length := ring[index].errors, ring[index].length;
      descriptorsSeen := descriptorsSeen + 1;
      ghost var seen := arrivals[..taken + 1];
      assert seen[..taken] == arrivals[..taken] && seen[taken] == arrivals[taken];
      if EndOfPacket(status) && !FrameErrors(errors) && length != 0 && length <= PACKET_SIZE {
        framesPassed := framesPassed + 1;
        delivered := delivered + [buffers[index][..length]];
      }
      assert delivered == Frames(seen);
      Recycle();
      assert arrivals[..taken] == seen;
    }
  }

  // ---- transmit -------------------------------------------------------------------

  datatype TxDescriptor = TxDescriptor(length: nat, status: byte)

  /** A frame as it goes on the wire: zero-padded to 60 bytes before the controller appends the check sequence
      (IEEE 802.3, section 4.2.3.3). */
  function Padded(data: seq<byte>): (r: seq<byte>)
    ensures |r| == if |data| < 60 then 60 else |data|
    ensures r[..|data|] == data && forall i :: |data| <= i < |r| ==> r[i] == 0
  {
    if |data| < MINIMUM_FRAME then data + seq(MINIMUM_FRAME - |data|, _ => 0) else data
  }

  /** From `front` on the slots hold frames: the first `sent` of them are marked done, the others are not and
      hold their frame at the start of their buffer. */
  ghost predicate InFlight(
    ring: seq<TxDescriptor>, buffers: seq<Packet>, front: nat, sent: nat, frames: seq<seq<byte>>) {
    && |ring| == |buffers| && front < |ring| && sent <= |frames| <= |ring|
    && forall j :: 0 <= j < |ring| && Distance(front, j, |ring|) < |frames| ==>
         if Distance(front, j, |ring|) < sent then Done(ring[j].status)
         else !Done(ring[j].status) && Carries(ring[j], buffers[j], frames[Distance(front, j, |ring|)])
  }

  predicate Carries(desc: TxDescriptor, buffer: seq<byte>, frame: seq<byte>) {
    desc.length == |frame| <= |buffer| && buffer[..|frame|] == frame
  }

  /** Every slot that is `used` or more past `front` is marked done. */
  ghost predicate IdleDone(ring: seq<TxDescriptor>, front: nat, used: nat) {
    front < |ring| && forall j :: 0 <= j < |ring| && Distance(front, j, |ring|) >= used ==> Done(ring[j].status)
  }

  /** Nothing changed in the slots `used` or more past `front`. */
  ghost predicate SameOutside(before: seq<TxDescriptor>, after: seq<TxDescriptor>, front: nat, used: nat) {
    && |before| == |after| && front < |after|
    && forall j :: 0 <= j < |after| && Distance(front, j, |after|) >= used ==> after[j] == before[j]
  }

  lemma IdleKept(before: seq<TxDescriptor>, after: seq<TxDescriptor>, front: nat, used: nat, k: nat)
    requires SameOutside(before, after, front, used) && IdleDone(before, front, k) && used <= k
    ensures IdleDone(after, front, k)
  {
  }

  lemma IdleLess(ring: seq<TxDescriptor>, front: nat, used: nat)
    requires IdleDone(ring, front, used)
    ensures IdleDone(ring, front, used + 1)
  {
  }

  lemma IdleAt(ring: seq<TxDescriptor>, front: nat, used: nat, j: nat)
    requires IdleDone(ring, front, used) && j < |ring| && Distance(front, j, |ring|) >= used
    ensures Done(ring[j].status)
  {
  }

  lemma FlightSends(
    ring: seq<TxDescriptor>, buffers: seq<Packet>, front: nat, sent: nat, frames: seq<seq<byte>>, desc: TxDescriptor)
    requires InFlight(ring, buffers, front, sent, frames) && sent < |frames| && Done(desc.status)
    ensures var at := Wrap(front + sent, |ring|);
            Carries(ring[at], buffers[at], frames[sent]) && InFlight(ring[at := desc], buffers, front, sent + 1, frames)
  {
    var n, at := |ring|, Wrap(front + sent, |ring|);
    assert Distance(front, at, n) == sent;
    forall j | 0 <= j < n && j != at ensures Distance(front, j, n) != sent {}
  }

  /** The slot after the frames in flight can be rewritten freely. */
  lemma FlightIgnores(ring: seq<TxDescriptor>, buffers: seq<Packet>, front: nat, sent: nat, frames: seq<seq<byte>>,
                      desc: TxDescriptor, buffer: Packet)
    requires InFlight(ring, buffers, front, sent, frames) && |frames| < |ring|
    ensures var at := Wrap(front + |frames|, |ring|);
            && InFlight(ring[at := desc], buffers[at := buffer], front, sent, frames)
            && (IdleDone(ring, front, |frames| + 1) ==> IdleDone(ring[at := desc], front, |frames| + 1))
  {
    var n, at := |ring|, Wrap(front + |frames|, |ring|);
    assert Distance(front, at, n) == |frames|;
    forall j | 0 <= j < n && j != at ensures Distance(front, j, n) != |frames| {}
  }

  /** Once that slot carries a frame, the frame is in flight. */
  lemma FlightGrows(
    ring: seq<TxDescriptor>, buffers: seq<Packet>, front: nat, sent: nat, frames: seq<seq<byte>>, frame: seq<byte>)
    requires InFlight(ring, buffers, front, sent, frames) && |frames| < |ring|
    requires var at := Wrap(front + |frames|, |ring|); !Done(ring[at].status) && Carries(ring[at], buffers[at], frame)
    ensures InFlight(ring, buffers, front, sent, frames + [frame])
  {
    var n, at := |ring|, Wrap(front + |frames|, |ring|);
    forall j | 0 <= j < n && j != at ensures Distance(front, j, n) != |frames| {}
  }

  lemma FlightReaps(ring: seq<TxDescriptor>, buffers: seq<Packet>, front: nat, sent: nat, frames: seq<seq<byte>>)
    requires InFlight(ring, buffers, front, sent, frames) && frames != []
    requires IdleDone(ring, front, |frames|)
    ensures Done(ring[front].status) <==> sent > 0
    ensures sent > 0 ==> InFlight(ring, buffers, Wrap(front + 1, |ring|), sent - 1, frames[1..])
                         && IdleDone(ring, Wrap(front + 1, |ring|), |frames| - 1)
  {
    var n, front' := |ring|, Wrap(front + 1, |ring|);
    assert Distance(front, front, n) == 0;
    forall j | 0 <= j < n
      ensures j != front ==> Distance(front, j, n) == Distance(front', j, n) + 1
      ensures j == front ==> Distance(front', j, n) == n - 1
    {
    }
  }

  class Transmitter {
    const count: nat
    const ring: array<TxDescriptor>
    const buffers: array<Packet>
    var head: nat          // tx_head
    var tail: nat          // tx_tail
    var submitted: nat
    var completed: nat

    // The controller: its head register, the tail register it reads, and what it put on the wire.
    var deviceHead: nat
    var deviceTail: nat
    var sent: seq<seq<byte>>

    // Every frame accepted so far, padded.
    ghost var accepted: seq<seq<byte>>

    ghost function Flight(): seq<seq<byte>> reads this
      requires completed <= |accepted|
    {
      accepted[completed..]
    }

    /** The slots from head to tail carry the accepted frames that were not reaped yet; the controller has sent
        exactly a prefix of the accepted frames, in order. */
    ghost predicate Shared() reads this, ring, buffers {
      && 2 <= count == ring.Length == buffers.Length && head < count
      && completed <= |sent| <= |accepted| == submitted && submitted - completed <= count - 1
      && sent == accepted[..|sent|]
      && deviceHead == Wrap(head + |sent| - completed, count)
      && deviceTail == Wrap(head + submitted - completed, count)
      && InFlight(ring[..], buffers[..], head, |sent| - completed, Flight())
    }

    ghost predicate Valid() reads this, ring, buffers {
      Shared() && tail == deviceTail && IdleDone(ring[..], head, submitted - completed)
    }

    constructor (count: nat)
      requires 2 <= count
      ensures Valid() && fresh(ring) && fresh(buffers) && this.count == count && accepted == sent == []
    {
      this.count := count;
      ring := new TxDescriptor[count](_ => TxDescriptor(0, 1));
      buffers := new Packet[count](_ => seq(PACKET_SIZE, _ => 0));
      head, tail, submitted, completed := 0, 0, 0, 0;
      deviceHead, deviceTail, sent, accepted := 0, 0, [], [];
    }

    /** The controller sends the frame at its head, unless it has caught up with the tail register, and marks the
        descriptor done. It writes no other slot. */
    method Send()
      requires Shared()
      modifies `deviceHead, `sent, ring
      ensures Shared() && old(sent) <= sent
      ensures SameOutside(old(ring[..]), ring[..], head, submitted - completed)
    {
      hide InFlight, Carries;
      if deviceHead == deviceTail { return; }
      ghost var n := |sent| - completed;
      var desc := ring[deviceHead];
      var after := desc.(status := WithDone(desc.status));
      FlightSends(ring[..], buffers[..], head, n, Flight(), after);
      assert Flight()[n] == accepted[|sent|];
      sent := sent + [buffers[deviceHead][..desc.length]];
      ring[deviceHead] := after;
      deviceHead := Next(deviceHead, count);
    }

    /** Any number of sends. */
    method Wire()
      requires Shared()
      modifies `deviceHead, `sent, ring
      ensures Shared() && old(sent) <= sent
      ensures SameOutside(old(ring[..]), ring[..], head, submitted - completed)
    {
      var n: nat :| n <= count;
      for i := 0 to n
        invariant Shared() && old(sent) <= sent
        invariant SameOutside(old(ring[..]), ring[..], head, submitted - completed)
      {
        Send();
      }
    }

    /** Sends between two steps of the driver. */
    method Await()
      requires Valid()
      modifies `deviceHead, `sent, ring
      ensures Valid() && old(sent) <= sent
      ensures ring.Length == count && head < count
      ensures head != tail ==> (Done(ring[head].status) <==> |sent| > completed)
    {
      hide InFlight, IdleDone, SameOutside;
      ghost var was := ring[..];
      Wire();
      IdleKept(was, ring[..], head, submitted - completed, submitted - completed);
      if head != tail { FlightReaps(ring[..], buffers[..], head, |sent| - completed, Flight()); }
    }

    method ReapOne()
      requires Valid() && |sent| > completed
      modifies `completed, `head
      ensures Valid() && completed == old(completed) + 1
    {
      hide InFlight, IdleDone;
      FlightReaps(ring[..], buffers[..], head, |sent| - completed, Flight());
      ghost var left := Flight()[1..];
      completed := completed + 1;
      assert Flight() == left;
      head := Next(head, count);
    }

    /** `reap_tx_locked`: count off the slots at the head that are marked done: at least all that were sent when the
        call began, and never one that was not. */
    method Reap()
      requires Valid()
      modifies `deviceHead, `sent, `completed, `head, ring
      ensures Valid() && old(sent) <= sent && old(completed) <= completed && |old(sent)| <= completed
    {
      hide InFlight, IdleDone;
      while head != tail
        invariant Valid() && old(sent) <= sent && old(completed) <= completed
        decreases submitted - completed
      {
        Await();
        if !Done(ring[head].status) { break; }
        ReapOne();
      }
    }

    /** `transmit`: accept a frame into the slot at the tail unless the ring is full; a legal frame is refused only if
        all but one slot hold frames that were not sent when the call began. The check of that slot's done bit never
        rejects, because every slot outside head..tail is marked done. */
    method Transmit(data: seq<byte>) returns (ok: bool)
      requires Valid()
      modifies this, ring, buffers
      ensures Valid() && old(sent) <= sent
      ensures accepted == old(accepted) + if ok then [Padded(data)] else []
      ensures 0 < |data| <= PACKET_SIZE && !ok ==> submitted - completed == count - 1 && |old(sent)| <= completed
      ensures ok ==> 0 < |data| <= PACKET_SIZE
    {
      hide InFlight, IdleDone;
      assert accepted + [] == accepted;
      if |data| == 0 || |data| > PACKET_SIZE { return false; }
      Reap();
      var nextTail := Next(tail, count);
      if nextTail == head {
        Reap();
        if nextTail == head { return false; }
      }
      assert Distance(head, tail, count) == submitted - completed;
      IdleAt(ring[..], head, submitted - completed, tail);
      if !Done(ring[tail].status) { return false; }
      Stage(data, nextTail);
      return true;
    }

    /** A driver write to the slot at the tail, which the controller does not look at yet. */
    ghost predicate Staging() reads this, ring, buffers {
      && Shared() && submitted - completed < count - 1 && tail == deviceTail
      && IdleDone(ring[..], head, submitted - completed + 1)
    }

    method WriteSlot(desc: TxDescriptor, buffer: Packet)
      requires Staging()
      modifies `deviceHead, `sent, ring, buffers
      ensures Staging() && old(sent) <= sent && tail < count == ring.Length == buffers.Length
      ensures ring[tail] == desc && buffers[tail] == buffer
    {
      hide InFlight, IdleDone, SameOutside;
      FlightIgnores(ring[..], buffers[..], head, |sent| - completed, Flight(), desc, buffer);
      ring[tail] := desc;
      buffers[tail] := buffer;
      assert Shared();
      ghost var was := ring[..];
      Wire();
      IdleKept(was, ring[..], head, submitted - completed, submitted - completed + 1);
      TailUntouched(was, ring[..], head, submitted - completed, tail);
    }

    /** Fill the buffer, then the descriptor at the tail, then hand them over by moving the tail register. */
    method Stage(data: seq<byte>, nextTail: nat)
      requires Valid() && submitted - completed < count - 1 && nextTail == Next(tail, count)
      requires 0 < |data| <= PACKET_SIZE
      modifies this, ring, buffers
      ensures Valid() && old(sent) <= sent && accepted == old(accepted) + [Padded(data)]
    {
      hide InFlight, IdleDone, Wrap, Next;
      NextIsWrap(head, submitted - completed, count);
      IdleLess(ring[..], head, submitted - completed);
      var wireLength := |Padded(data)|;
      WriteSlot(ring[tail], Padded(data) + buffers[tail][wireLength..]);
      WriteSlot(TxDescriptor(wireLength, 0), buffers[tail]);
      FlightGrows(ring[..], buffers[..], head, |sent| - completed, Flight(), Padded(data));
      ghost var flight := Flight() + [Padded(data)];
      submitted := submitted + 1;
      accepted := accepted + [Padded(data)];
      assert Flight() == flight;
      tail := nextTail;
      deviceTail := tail;
    }
  }

  lemma NextIsWrap(front: nat, used: nat, count: nat)
    requires front < count && used < count - 1
    ensures Next(Wrap(front + used, count), count) == Wrap(front + used + 1, count)
  {
  }

  lemma TailUntouched(before: seq<TxDescriptor>, after: seq<TxDescriptor>, front: nat, used: nat, tail: nat)
    requires SameOutside(before, after, front, used) && used < |before| && tail == Wrap(front + used, |before|)
    ensures after[tail] == before[tail]
  {
  }
}
