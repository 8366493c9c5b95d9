/** The cyclic PCM buffer shared with the free-running DMA engine of an HDA controller (Intel High Definition
    Audio Specification rev 1.0a, section 3.3.37, link position in buffer). The engine moves at any point
    between two driver steps; copying a chunk, or clearing one contiguous piece, is one step. Assumed of the
    hardware: the link position stays below the buffer length, moves by whole four-byte frames and by less than
    one buffer length between polls, and stands still while stopped. */
module PcmRing {
  import opened Basics

  const FRAME := 4

  /** How far the engine moved from `last`, as the driver computes it. */
  function Travelled(position: nat, last: nat, size: nat): nat
    requires last < size
  {
    (position + size - last) % size
  }

  lemma TravelledIsAhead(last: nat, ahead: nat, size: nat)
    requires last < size && ahead < size
    ensures Travelled(Wrap(last + ahead, size), last, size) == ahead
  {
    ModIsWrap(Wrap(last + ahead, size) + size - last, size);
  }

  /** The queue still ends at the write position after the engine passed `k` of its slots. */
  lemma StillEnds(write: nat, queued: nat, last: nat, k: nat, size: nat)
    requires write < size && k <= queued <= size && last == Wrap(write + size - queued, size) && last < size
    ensures last + k < 2 * size && Wrap(last + k, size) == Wrap(write + size - (queued - k), size)
  {
  }

  lemma WholeFrames(a: nat, b: nat)
    requires a % FRAME == 0 && b % FRAME == 0
    ensures (a + b) % FRAME == 0 && (b <= a ==> (a - b) % FRAME == 0)
  {
    var k, l := a / FRAME, b / FRAME;
    assert a == FRAME * k && b == FRAME * l;
    assert a + b == FRAME * (k + l) && a - b == FRAME * (k - l);
  }

  /** The link position after the engine moved `n` slots on. */
  lemma LinkMoves(last: nat, ahead: nat, n: nat, size: nat)
    requires last < size && ahead + n < size
    requires last % FRAME == ahead % FRAME == n % FRAME == size % FRAME == 0
    ensures var link := Wrap(last + ahead, size);
            && link + n < 2 * size && Wrap(link + n, size) == Wrap(last + (ahead + n), size)
            && Wrap(link + n, size) % FRAME == 0 && (ahead + n) % FRAME == 0
  {
    WholeFrames(ahead, n);
    WholeFrames(last, ahead + n);
    WholeFrames(last + (ahead + n), size);
  }

  /** Where the driver writes next. */
  function Advanced(write: nat, k: nat, size: nat): nat
    requires size > 0
  {
    (write + k) % size
  }

  lemma AdvancedIsWrap(write: nat, k: nat, size: nat)
    requires write < size && write + k <= size && write % FRAME == k % FRAME == size % FRAME == 0
    ensures Advanced(write, k, size) == Wrap(write + k, size) && Advanced(write, k, size) % FRAME == 0
  {
    ModIsWrap(write + k, size);
    WholeFrames(write, k);
  }

  /** The slot after the queue is the write position, and the queue can grow there by `k`. */
  lemma EndsAtWrite(write: nat, queued: nat, last: nat, k: nat, size: nat)
    requires write < size && queued + k <= size && write + k <= size && last == Wrap(write + size - queued, size)
    ensures last + queued < 2 * size && Wrap(last + queued, size) == write
    ensures last == Wrap(Wrap(write + k, size) + size - (queued + k), size)
  {
  }

  /** The whole frames in a number of bytes. */
  function Whole(bytes: nat): nat { bytes - bytes % FRAME }

  /** The next chunk of a write: what is left, what is free, what is contiguous, in whole frames. */
  function Chunk(left: nat, available: nat, contiguous: nat): nat {
    Whole(Min(Min(left, available), contiguous))
  }

  lemma WholeIsWhole(bytes: nat)
    ensures Whole(bytes) <= bytes < Whole(bytes) + FRAME && Whole(bytes) % FRAME == 0
    ensures bytes % FRAME == 0 ==> Whole(bytes) == bytes
  {
  }

  lemma ChunkMakesProgress(left: nat, available: nat, contiguous: nat)
    requires left % FRAME == available % FRAME == contiguous % FRAME == 0
    requires left > 0 && available > 0 && contiguous > 0
    ensures 0 < Chunk(left, available, contiguous) <= Min(Min(left, available), contiguous)
    ensures Chunk(left, available, contiguous) % FRAME == 0
  {
    WholeIsWhole(Min(Min(left, available), contiguous));
  }

  lemma WrapBelow(offset: nat, size: nat)
    requires offset < size
    ensures Wrap(offset, size) == offset
  {
  }

  /** The bytes the engine reads when it moves `count` slots ahead from `from`. */
  function Reading(dma: seq<byte>, from: nat, count: nat): (r: seq<byte>)
    requires from < |dma| && count <= |dma|
    ensures |r| == count
  {
    if count == 0 then [] else Reading(dma, from, count - 1) + [dma[Wrap(from + count - 1, |dma|)]]
  }

  lemma {:induction false} ReadingAt(dma: seq<byte>, from: nat, count: nat, i: nat)
    requires from < |dma| && i < count <= |dma|
    ensures Reading(dma, from, count)[i] == dma[Wrap(from + i, |dma|)]
  {
    if i < count - 1 { ReadingAt(dma, from, count - 1, i); }
  }

  // ---- ring contents ---------------------------------------------------------

  /** The slots from `from` on hold these bytes. */
  ghost predicate Holds(dma: seq<byte>, from: nat, bytes: seq<byte>) {
    && from < |dma| && |bytes| <= |dma|
    && forall j :: 0 <= j < |dma| && Distance(from, j, |dma|) < |bytes| ==> dma[j] == bytes[Distance(from, j, |dma|)]
  }

  /** The first `count` slots from `from` on are silent. */
  ghost predicate Zeros(dma: seq<byte>, from: nat, count: nat) {
    from < |dma| && forall j :: 0 <= j < |dma| && Distance(from, j, |dma|) < count ==> dma[j] == 0
  }

  /** Nothing changed outside the `count` slots from `from` on. */
  ghost predicate SameBeyond(before: seq<byte>, after: seq<byte>, from: nat, count: nat) {
    && |before| == |after| && from < |after|
    && forall j :: 0 <= j < |after| && Distance(from, j, |after|) >= count ==> after[j] == before[j]
  }

  /** One contiguous run of slots was overwritten. */
  ghost predicate Overwritten(before: seq<byte>, after: seq<byte>, at: nat, bytes: seq<byte>) {
    && |before| == |after| && at + |bytes| <= |after|
    && forall j :: 0 <= j < |after| ==> after[j] == if at <= j < at + |bytes| then bytes[j - at] else before[j]
  }

  lemma NothingHeld(dma: seq<byte>, from: nat)
    requires from < |dma|
    ensures Holds(dma, from, []) && Zeros(dma, from, 0)
  {
  }

  lemma HoldsLess(dma: seq<byte>, from: nat, bytes: seq<byte>, k: nat)
    requires Holds(dma, from, bytes) && k <= |bytes|
    ensures Holds(dma, Wrap(from + k, |dma|), bytes[k..])
  {
    var from' := Wrap(from + k, |dma|);
    forall j | 0 <= j < |dma| && Distance(from', j, |dma|) < |bytes| - k
      ensures dma[j] == bytes[k..][Distance(from', j, |dma|)]
    {
      assert Distance(from, j, |dma|) == Distance(from', j, |dma|) + k;
    }
  }

  lemma HoldsMore(before: seq<byte>, after: seq<byte>, from: nat, bytes: seq<byte>, at: nat, chunk: seq<byte>)
    requires Holds(before, from, bytes) && Overwritten(before, after, at, chunk) && chunk != []
    requires |bytes| + |chunk| <= |before| && at == Wrap(from + |bytes|, |before|)
    ensures Holds(after, from, bytes + chunk)
  {
    forall j | 0 <= j < |after| && Distance(from, j, |after|) < |bytes| + |chunk|
      ensures after[j] == (bytes + chunk)[Distance(from, j, |after|)]
    {
      var d := Distance(from, j, |after|);
      assert at <= j < at + |chunk| <==> |bytes| <= d < |bytes| + |chunk|;
    }
  }

  lemma HoldsFront(dma: seq<byte>, from: nat, bytes: seq<byte>, more: seq<byte>)
    requires Holds(dma, from, bytes + more)
    ensures Holds(dma, from, bytes)
  {
  }

  lemma HoldsKept(before: seq<byte>, after: seq<byte>, from: nat, bytes: seq<byte>, at: nat, count: nat)
    requires Holds(before, from, bytes) && SameBeyond(before, after, at, count)
    requires |bytes| + count <= |before| && at == Wrap(from + |bytes|, |before|)
    ensures Holds(after, from, bytes)
  {
    forall j | 0 <= j < |after| && Distance(from, j, |after|) < |bytes|
      ensures after[j] == bytes[Distance(from, j, |after|)]
    {
      assert Distance(at, j, |after|) >= count;
    }
  }

  lemma ZerosMore(was: seq<byte>, before: seq<byte>, after: seq<byte>, from: nat, count: nat, chunk: nat, limit: nat)
    requires Zeros(before, from, count) && SameBeyond(was, before, from, limit)
    requires count + chunk <= limit <= |before| && count < |before|
    requires Wrap(from + count, |before|) + chunk <= |before|
    requires Overwritten(before, after, Wrap(from + count, |before|), seq(chunk, _ => 0))
    ensures Zeros(after, from, count + chunk) && SameBeyond(was, after, from, limit)
  {
    var at := Wrap(from + count, |before|);
    forall j | 0 <= j < |after|
      ensures Distance(from, j, |after|) < count + chunk ==> after[j] == 0
      ensures Distance(from, j, |after|) >= limit ==> after[j] == was[j]
    {
      var d := Distance(from, j, |after|);
      assert at <= j < at + chunk <==> count <= d < count + chunk;
    }
  }

  /** Writing zeros anywhere leaves silent slots silent. */
  lemma ZerosStay(before: seq<byte>, after: seq<byte>, from: nat, count: nat, at: nat, chunk: nat)
    requires Zeros(before, from, count) && Overwritten(before, after, at, seq(chunk, _ => 0))
    ensures Zeros(after, from, count)
  {
  }

  /** The silent slots behind a chunk that is about to be copied, and after it was. */
  lemma ZerosBehind(before: seq<byte>, after: seq<byte>, at: nat, chunk: seq<byte>, count: nat)
    requires Zeros(before, at, count) && count <= |before| && at + |chunk| <= |before|
    requires Overwritten(before, after, at, chunk)
    ensures Zeros(after, Wrap(at + |chunk|, |after|), if count > |chunk| then count - |chunk| else 0)
  {
    var from := Wrap(at + |chunk|, |after|);
    forall j | 0 <= j < |after| && Distance(from, j, |after|) + |chunk| < count ensures after[j] == 0 {
      assert Distance(at, j, |after|) == Distance(from, j, |after|) + |chunk|;
    }
  }

  // ---- what the engine reads -------------------------------------------------------

  /** Where the silent slots begin, how long the queue was after the last write, and how much was copied since. */
  datatype Quiet = Quiet(from: nat, filled: nat, copied: nat)

  /** How many slots are silent: as many as the guard, or all that were free at the last write, less what was copied
      into them since. */
  function Bound(size: nat, guard: nat, filled: nat, copied: nat): nat {
    var cleared := if filled > size then 0 else Min(size - filled, guard);
    if cleared > copied then cleared - copied else 0
  }

  ghost predicate QuietAt(dma: seq<byte>, guard: nat, q: Quiet) {
    q.from < |dma| && q.filled <= |dma| && Zeros(dma, q.from, Bound(|dma|, guard, q.filled, q.copied))
  }

  /** A byte read outside the queue, how far past the last byte copied, and the state of the silent slots then. */
  datatype Sample = Sample(value: byte, past: nat, filled: nat, copied: nat)

  /** All the engine ever read: the bytes from queued slots, the others, how many queued bytes it had passed before
      they were queued, and the number of reads. */
  datatype Ear = Ear(sounded: seq<byte>, beyond: seq<Sample>, missed: nat, moves: nat)

  /** Every read is accounted for, and every one past the queue and within the silent slots read zero. */
  ghost predicate EarKept(ear: Ear, size: nat, guard: nat) {
    && |ear.sounded| + |ear.beyond| == ear.moves
    && forall s :: s in ear.beyond && s.past < Bound(size, guard, s.filled, s.copied) ==> s.value == 0
  }

  /** Of the first `total` bytes kept, the engine has read all but the missed ones, each once and in order. */
  ghost predicate HeardTo(ear: Ear, kept: seq<byte>, total: nat) {
    total <= |kept| && |ear.sounded| + ear.missed == total && Subsequence(ear.sounded, kept[..total])
  }

  /** What the engine reads in the slots `k` to `n - 1` from `link` on, none of which is queued. */
  function Beyond(dma: seq<byte>, link: nat, k: nat, n: nat, q: Quiet): (r: seq<Sample>)
    requires link < |dma| && k <= n <= |dma| && q.from < |dma|
    ensures |r| == n - k
  {
    if n == k then []
    else
      var slot := Wrap(link + n - 1, |dma|);
      Beyond(dma, link, k, n - 1, q) + [Sample(dma[slot], Distance(q.from, slot, |dma|), q.filled, q.copied)]
  }

  lemma {:induction false} BeyondIsSilent(dma: seq<byte>, link: nat, k: nat, n: nat, guard: nat, q: Quiet, s: Sample)
    requires link < |dma| && k <= n <= |dma| && QuietAt(dma, guard, q) && s in Beyond(dma, link, k, n, q)
    ensures s.past < Bound(|dma|, guard, s.filled, s.copied) ==> s.value == 0
  {
    if s in Beyond(dma, link, k, n - 1, q) { BeyondIsSilent(dma, link, k, n - 1, guard, q, s); }
  }

  /** The engine reads `n` slots from `link` on, the first `k` of them queued. */
  function Listened(ear: Ear, dma: seq<byte>, link: nat, k: nat, n: nat, q: Quiet): Ear
    requires link < |dma| && k <= n <= |dma| && q.from < |dma|
  {
    ear.(sounded := ear.sounded + Reading(dma, link, n)[..k], beyond := ear.beyond + Beyond(dma, link, k, n, q),
         moves := ear.moves + n)
  }

  lemma ListenedIsKept(ear: Ear, dma: seq<byte>, link: nat, k: nat, n: nat, guard: nat, q: Quiet)
    requires link < |dma| && k <= n <= |dma| && QuietAt(dma, guard, q) && EarKept(ear, |dma|, guard)
    ensures EarKept(Listened(ear, dma, link, k, n, q), |dma|, guard)
  {
    hide Bound, Reading, Beyond;
    var after := Listened(ear, dma, link, k, n, q);
    forall s | s in after.beyond && s.past < Bound(|dma|, guard, s.filled, s.copied) ensures s.value == 0 {
      if s in Beyond(dma, link, k, n, q) { BeyondIsSilent(dma, link, k, n, guard, q, s); }
    }
  }

  lemma QuietIsInRing(dma: seq<byte>, guard: nat, q: Quiet)
    requires QuietAt(dma, guard, q)
    ensures q.from < |dma|
  {
  }

  lemma Skips(ahead: nat, queued: nat, n: nat)
    ensures 0 <= Min(ahead, queued) <= Min(ahead, queued + n) <= Min(ahead, queued) + n
    ensures Min(ahead, queued + n) > Min(ahead, queued) ==> Min(ahead, queued) == queued
  {
  }

  lemma EarSame(ear: Ear, after: Ear, size: nat, guard: nat)
    requires EarKept(ear, size, guard)
    requires after.sounded == ear.sounded && after.beyond == ear.beyond && after.moves == ear.moves
    ensures EarKept(after, size, guard)
  {
  }

  lemma HeardSame(ear: Ear, after: Ear, kept: seq<byte>, total: nat)
    requires HeardTo(ear, kept, total) && after.sounded == ear.sounded && after.missed == ear.missed
    ensures HeardTo(after, kept, total)
  {
  }

  lemma QueuePart(kept: seq<byte>, passed: nat, a: nat, b: nat)
    requires passed <= |kept| && a <= b <= |kept| - passed
    ensures kept[passed..][a..b] == kept[passed + a..passed + a + (b - a)]
  {
  }

  lemma HeardMore(ear: Ear, kept: seq<byte>, total: nat, more: nat, after: Ear)
    requires HeardTo(ear, kept, total) && total + more <= |kept| && after.missed == ear.missed
    requires after.sounded == ear.sounded + kept[total..total + more]
    ensures HeardTo(after, kept, total + more)
  {
    SubsequenceExtend(ear.sounded, kept[..total], kept[total..total + more]);
    assert kept[..total + more] == kept[..total] + kept[total..total + more];
  }

  /** Bytes that are queued after the engine passed their slots are missed. */
  lemma HeardAppended(ear: Ear, kept: seq<byte>, total: nat, chunk: seq<byte>, skipped: nat)
    requires HeardTo(ear, kept, total) && skipped <= |chunk| && (skipped > 0 ==> total == |kept|)
    ensures HeardTo(ear.(missed := ear.missed + skipped), kept + chunk, total + skipped)
  {
    SubsequenceExtend(ear.sounded, kept[..total], chunk[..skipped]);
    assert (kept + chunk)[..total + skipped] == kept[..total] + chunk[..skipped];
  }

  lemma HeardCut(ear: Ear, kept: seq<byte>, total: nat)
    requires HeardTo(ear, kept, total)
    ensures HeardTo(ear, kept[..total], total)
  {
    assert kept[..total][..total] == kept[..total];
  }

  /** The engine has read exactly the first `total` bytes kept if and only if none was missed. */
  lemma HeardExactly(ear: Ear, kept: seq<byte>, total: nat)
    requires HeardTo(ear, kept, total)
    ensures total <= |kept| && (ear.missed == 0 <==> ear.sounded == kept[..total])
  {
    SubsequenceIsShorter(ear.sounded, kept[..total]);
  }

  /** The engine read the queue 1, 2, 3, 4 and went four slots further, reading zeros, before 5, 6, 7, 8 were queued
      there: these are passed and were never read. */
  lemma OverrunExample()
    ensures var zero := Sample(0, 0, 4, 0);
            var ear := Ear([1, 2, 3, 4], [zero, zero, zero, zero], 0, 8);
            var after := ear.(missed := 4);
            && HeardTo(ear, [1, 2, 3, 4], Min(8, 4)) && HeardTo(after, [1, 2, 3, 4, 5, 6, 7, 8], Min(8, 8))
            && after.sounded != [1, 2, 3, 4, 5, 6, 7, 8][..Min(8, 8)]
  {
    var zero := Sample(0, 0, 4, 0);
    var kept: seq<byte> := [1, 2, 3, 4];
    var ear := Ear(kept, [zero, zero, zero, zero], 0, 8);
    assert kept[..4] == kept && [] + kept == kept;
    SubsequenceExtend<byte>([], [], kept);
    assert HeardTo(ear, kept, 4);
    HeardAppended(ear, kept, 4, [5, 6, 7, 8], 4);
    assert kept + [5, 6, 7, 8] == [1, 2, 3, 4, 5, 6, 7, 8];
  }

  /** Reading on from `ahead` slots into the queue gives the queued bytes there, as far as the queue goes. */
  lemma ReadsQueue(dma: seq<byte>, from: nat, queue: seq<byte>, ahead: nat, n: nat)
    requires Holds(dma, from, queue) && ahead + n < |dma|
    ensures Reading(dma, Wrap(from + ahead, |dma|), n)[..Min(ahead + n, |queue|) - Min(ahead, |queue|)]
            == queue[Min(ahead, |queue|)..Min(ahead + n, |queue|)]
  {
    hide Reading;
    var at := Wrap(from + ahead, |dma|);
    var l, r := Reading(dma, at, n)[..Min(ahead + n, |queue|) - Min(ahead, |queue|)],
                queue[Min(ahead, |queue|)..Min(ahead + n, |queue|)];
    forall i | 0 <= i < |l| ensures l[i] == r[i] {
      ReadingAt(dma, at, n, i);
      SlotOf(from, ahead, i, |dma|);
    }
  }

  lemma SlotOf(from: nat, ahead: nat, i: nat, size: nat)
    requires from < size && ahead + i < size
    ensures Distance(from, Wrap(Wrap(from + ahead, size) + i, size), size) == ahead + i
  {
  }

  class Stream {
    // Driver state.
    const size: nat
    const page: nat
    const guard: nat
    const dma: array<byte>
    var active: bool
    var writePosition: nat
    var queued: nat
    var lastPosition: nat
    var running: bool
    var paused: bool

    // The controller: its link position, its run bit, and how far it moved since the last poll.
    var link: nat
    var run: bool
    var ahead: nat

    // The queue that the ring stands for: everything ever accepted, the same without what a flush discarded, how much
    // of that the engine has passed, and how much was discarded.
    ghost var accepted: seq<byte>
    ghost var kept: seq<byte>
    ghost var passed: nat
    ghost var dropped: nat

    // The silent slots behind the queue, and all that the engine read.
    ghost var quiet: Quiet
    ghost var ear: Ear

    ghost predicate Sized() reads this {
      && 0 < page <= size && FRAME < size && size % FRAME == 0 && page % FRAME == 0 && guard % FRAME == 0
      && dma.Length == size
    }

    /** The engine stands `ahead` slots past the position last seen. */
    ghost predicate Placed() reads this, dma {
      && Sized() && lastPosition < size && lastPosition % FRAME == 0
      && ahead < size && ahead % FRAME == 0 && link == Wrap(lastPosition + ahead, size) && link % FRAME == 0
      && QuietAt(dma[..], guard, quiet) && EarKept(ear, size, guard)
    }

    /** The position last seen is where the queue begins. */
    ghost predicate Positions() reads this, dma {
      && Placed() && writePosition < size && writePosition % FRAME == 0 && queued <= size && queued % FRAME == 0
      && lastPosition == Wrap(writePosition + size - queued, size)
    }

    /** Every byte is accounted for. */
    ghost predicate Counted() reads this {
      |accepted| == passed + dropped + queued && |kept| == passed + queued
    }

    /** Every queued byte is in its slot, and those before the engine were read unless they were missed. */
    ghost predicate Stored() reads this, dma {
      && Positions() && Counted() && Holds(dma[..], lastPosition, Queue())
      && HeardTo(ear, kept, passed + Min(ahead, queued))
    }

    /** The silent slots begin right behind the queue: as many as the guard, or all that were free at the last write. */
    ghost predicate Silent() reads this {
      quiet.from == writePosition && quiet.copied == 0 && (queued > 0 ==> queued <= quiet.filled)
    }

    ghost predicate Consistent() reads this, dma {
      Stored() && Silent()
    }

    /** The invariant between calls: the stream runs exactly when it has bytes queued and is not paused. */
    ghost predicate Valid() reads this, dma {
      && Consistent() && run == running && (!run ==> ahead == 0)
      && (running <==> queued > 0 && !paused)
    }

    ghost function Queue(): seq<byte> reads this
      requires passed <= |kept|
    {
      kept[passed..]
    }

    constructor (size: nat, page: nat, guard: nat)
      requires 0 < page <= size && FRAME < size && size % FRAME == 0 && page % FRAME == 0 && guard % FRAME == 0
      ensures Valid() && active && !paused && !run && queued == 0
      ensures accepted == kept == [] && passed == dropped == 0 && writePosition == 0 && ear == Ear([], [], 0, 0)
      ensures this.size == size && this.page == page && this.guard == guard && fresh(dma)
    {
      this.size, this.page, this.guard := size, page, guard;
      dma := new byte[size](_ => 0);
      active, running, paused, run := true, false, false, false;
      writePosition, queued, lastPosition, link, ahead := 0, 0, 0, 0, 0;
      accepted, kept, passed, dropped := [], [], 0, 0;
      quiet, ear := Quiet(0, size, 0), Ear([], [], 0, 0);
    }

    /** What the engine would read next, were it to move `count` slots: the queued bytes it has not reached yet, in
        order, and then only zeros for as long as it stays within the silent slots. */
    lemma Sounds(count: nat, i: nat)
      requires Consistent() && ahead + count < size && i < count
      ensures ahead + i < queued ==> Reading(dma[..], link, count)[i] == Queue()[ahead + i]
      ensures queued > 0 && queued <= ahead + i < queued + Min(size - quiet.filled, guard)
              ==> Reading(dma[..], link, count)[i] == 0
    {
      ReadingAt(dma[..], link, count, i);
      var j := Wrap(link + i, size);
      assert Distance(lastPosition, j, size) == ahead + i;
      if ahead + i >= queued {
        assert Distance(writePosition, j, size) == ahead + i - queued;
      }
    }

    // ---- the controller ----------------------------------------------------

    /** The engine moves by any number of frames, if it runs. */
    method Elapse()
      requires Placed()
      modifies `link, `ahead, `ear
      ensures Placed() && old(ahead) <= ahead && (!run ==> ahead == old(ahead)) && ear.missed == old(ear.missed)
      ensures queued == 0 ==> ear.sounded == old(ear.sounded)
      ensures old(Stored()) ==> Stored()
    {
      if run {
        var frames: nat :| frames <= (size - 1 - ahead) / FRAME;
        Advance(frames);
      }
    }

    /** The engine moves on by some frames, and reads every slot on the way. */
    method Advance(frames: nat)
      requires Placed() && ahead + FRAME * frames < size
      modifies `link, `ahead, `ear
      ensures Placed() && ahead == old(ahead) + FRAME * frames
      ensures ear == Listened(old(ear), dma[..], old(link), Min(ahead, queued) - Min(old(ahead), queued),
                              FRAME * frames, quiet)
      ensures ear.missed == old(ear.missed) && (queued == 0 ==> ear.sounded == old(ear.sounded))
      ensures old(Stored()) ==> Stored()
    {
      hide Holds, Reading, HeardTo, EarKept, QuietAt, Wrap, Beyond, Listened;
      ghost var n := FRAME * frames;
      LinkMoves(lastPosition, ahead, n, size);
      ghost var after := Hears(n);
      link := Wrap(link + FRAME * frames, size);
      ahead := ahead + FRAME * frames;
      ear := after;
    }

    /** What the engine has read after `n` more slots. */
    lemma Hears(n: nat) returns (after: Ear)
      requires Placed() && ahead + n < size
      ensures link < |dma[..]| && quiet.from < |dma[..]|
      ensures after == Listened(ear, dma[..], link, Min(ahead + n, queued) - Min(ahead, queued), n, quiet)
      ensures EarKept(after, size, guard) && after.missed == ear.missed
      ensures queued == 0 ==> after.sounded == ear.sounded
      ensures Stored() ==> HeardTo(after, kept, passed + Min(ahead + n, queued))
    {
      hide Holds, Reading, HeardTo, EarKept, QuietAt, Wrap, Beyond;
      QuietIsInRing(dma[..], guard, quiet);
      var k := Min(ahead + n, queued) - Min(ahead, queued);
      after := Listened(ear, dma[..], link, k, n, quiet);
      ListenedIsKept(ear, dma[..], link, k, n, guard, quiet);
      if Stored() {
        ReadsQueue(dma[..], lastPosition, Queue(), ahead, n);
        QueuePart(kept, passed, Min(ahead, queued), Min(ahead + n, queued));
        HeardMore(ear, kept, passed + Min(ahead, queued), k, after);
      }
      assert ear.sounded + [] == ear.sounded;
    }

    /** The engine moves on between calls. */
    method Play(frames: nat)
      requires Valid() && run && ahead + FRAME * frames < size
      modifies `link, `ahead, `ear
      ensures Valid() && ahead == old(ahead) + FRAME * frames && ear.missed == old(ear.missed)
    {
      hide Holds, HeardTo, EarKept, QuietAt, Wrap, Listened;
      Advance(frames);
    }

    /** A running engine eventually moves. */
    method AwaitFrame()
      requires Placed() && run
      modifies `link, `ahead, `ear
      ensures Placed() && old(ahead) <= ahead && 0 < ahead && ear.missed == old(ear.missed)
      ensures old(Stored()) ==> Stored()
    {
      if ahead == 0 { Advance(1); }
      Elapse();
    }

    /** Clear the run bit; the engine may still move before it takes effect. */
    method StopStream()
      requires Placed()
      modifies `link, `ahead, `run, `ear
      ensures Placed() && !run && old(ahead) <= ahead && (!old(run) ==> ahead == old(ahead))
      ensures ear.missed == old(ear.missed) && (queued == 0 ==> ear.sounded == old(ear.sounded))
      ensures old(Stored()) ==> Stored()
    {
      Elapse();
      run := false;
    }

    // ---- the driver ----------------------------------------------------------

    /** Stop at the engine's position and start over there with an empty queue. */
    method Rebase()
      requires Placed() && !run
      modifies `writePosition, `queued, `lastPosition, `ahead, `running, `quiet
      ensures Positions() && Silent() && ahead == 0 && queued == 0 && !running
    {
      hide EarKept;
      var position := InRing(link, size);
      running := false;
      writePosition := position - position % FRAME;
      queued := 0;
      lastPosition, ahead := position, 0;
      quiet := Quiet(writePosition, size, 0);
    }

    /** Take the bytes the engine passed off the queue. */
    method Consume() returns (underrun: bool, ghost moved: nat)
      requires Consistent() && queued > 0
      modifies `link, `ahead, `queued, `passed, `lastPosition, `ear
      ensures Placed() && Counted() && ahead == 0 && old(ahead) <= moved && (!run ==> moved == old(ahead))
      ensures underrun == (moved >= old(queued)) && ear.missed == old(ear.missed)
      ensures queued == old(queued) - Min(moved, old(queued)) && passed == old(passed) + Min(moved, old(queued))
      ensures if underrun then HeardTo(ear, kept, passed) else Consistent()
    {
      hide Holds, Travelled, Wrap, Distance, HeardTo, EarKept, QuietAt;
      Elapse();
      moved := ahead;
      var position := link;
      var consumed := Travelled(position, lastPosition, size);
      TravelledIsAhead(lastPosition, ahead, size);
      underrun := consumed >= queued;
      if consumed > queued { consumed := queued; }
      TakeOff(position, consumed);
    }

    /** Take `k` bytes off the front of the queue and note where the engine was seen. */
    method TakeOff(position: nat, k: nat)
      requires Consistent() && queued > 0 && position == link && k == Min(ahead, queued)
      modifies `queued, `passed, `lastPosition, `ahead
      ensures Placed() && Counted() && ahead == 0 && lastPosition == position
      ensures queued == old(queued) - k && passed == old(passed) + k
      ensures if queued > 0 then Consistent() else HeardTo(ear, kept, passed)
    {
      hide Holds, Wrap, Distance, HeardTo, EarKept, QuietAt;
      ghost var left := Queue()[k..];
      HoldsLess(dma[..], lastPosition, Queue(), k);
      WholeFrames(queued, k);
      WrapBelow(position, size);
      StillEnds(writePosition, queued, lastPosition, k, size);
      queued := queued - k;
      passed := passed + k;
      lastPosition := position;
      ahead := 0;
      assert Queue() == left;
      if queued > 0 { assert Positions(); }
    }

    /** `update_playback_position`: the bytes the engine passed leave the queue, and an empty queue stops the stream. */
    method Poll() returns (ghost moved: nat)
      requires Consistent() && (running ==> queued > 0)
      modifies `writePosition, `queued, `lastPosition, `running, `link, `run, `ahead, `passed, `quiet, `ear
      ensures Consistent() && ear.missed == old(ear.missed)
      ensures !old(running) ==> unchanged(this)
      ensures old(running) ==>
                && old(ahead) <= moved && (!old(run) ==> moved == old(ahead))
                && passed == old(passed) + Min(moved, old(queued)) && ahead == 0
                && (running <==> moved < old(queued)) && run == (running && old(run))
      ensures running ==> queued > 0
      ensures old(running) && !running ==> queued == 0
    {
      hide Holds, HeardTo, EarKept, QuietAt, Wrap, Distance;
      moved := 0;
      if !running { return; }
      var underrun;
      underrun, moved := Consume();
      if !underrun { return; }
      ghost var was := ear;
      StopStream();
      HeardSame(was, ear, kept, passed);
      Settle();
    }

    /** The idle stream, all of whose bytes are accounted for. */
    method Settle()
      requires Placed() && !run && |accepted| == passed + dropped && |kept| == passed && HeardTo(ear, kept, passed)
      modifies `writePosition, `queued, `lastPosition, `ahead, `running, `quiet
      ensures Consistent() && ahead == 0 && queued == 0 && !running
    {
      hide Holds, HeardTo, EarKept, QuietAt;
      Rebase();
      NothingHeld(dma[..], lastPosition);
      assert Queue() == [];
    }

    method Fill(position: nat, bytes: seq<byte>)
      requires position + |bytes| <= dma.Length
      modifies dma
      ensures Overwritten(old(dma[..]), dma[..], position, bytes)
    {
      for k := 0 to |bytes|
        invariant forall j :: 0 <= j < dma.Length ==>
                    dma[j] == if position <= j < position + k then bytes[j - position] else old(dma[j])
      {
        dma[position + k] := bytes[k];
      }
    }

    /** Silence the free slots behind the queue, at most `guard` of them; no queued byte is touched. */
    method ClearSilenceGuard()
      requires Stored() && queued > 0 && quiet.from == writePosition
      modifies dma, `quiet, `link, `ahead, `ear
      ensures Consistent() && quiet == Quiet(writePosition, queued, 0)
      ensures old(ahead) <= ahead && (!run ==> ahead == old(ahead)) && ear.missed == old(ear.missed)
    {
      hide Holds, Zeros, HeardTo, EarKept, Wrap, Distance;
      var free := size - queued;
      var bytes: nat := if free < guard then free else guard;
      Silence(bytes);
      quiet := Quiet(writePosition, queued, 0);
      assert Placed();
    }

    /** Clear the `count` slots behind the queue, in at most two pieces, with the engine moving after each. */
    method Silence(count: nat)
      requires Stored() && queued + count <= size && quiet.from == writePosition
      modifies dma, `link, `ahead, `ear
      ensures Stored() && Zeros(dma[..], writePosition, count)
      ensures old(ahead) <= ahead && (!run ==> ahead == old(ahead)) && ear.missed == old(ear.missed)
    {
      hide Holds, Zeros, SameBeyond, Overwritten, Stored;
      var position: nat, bytes: nat := writePosition, count;
      ghost var was: seq<byte>, cleared: nat := dma[..], 0;
      StoredIs();
      NothingHeld(was, writePosition);
      Unchanged(was, writePosition, count);
      while bytes != 0
        modifies dma, `link, `ahead, `ear
        invariant Stored() && size == dma.Length && writePosition < size && passed <= |kept|
        invariant cleared + bytes == count && Holds(was, lastPosition, Queue())
        invariant bytes != 0 ==> position == Wrap(writePosition + cleared, size)
        invariant Zeros(dma[..], writePosition, cleared) && SameBeyond(was, dma[..], writePosition, count)
        invariant old(ahead) <= ahead && (!run ==> ahead == old(ahead)) && ear.missed == old(ear.missed)
      {
        var chunk := size - position;
        if chunk > bytes { chunk := bytes; }
        ClearPiece(position, chunk, cleared, count, was);
        ModIsWrap(position + chunk, size);
        position := (position + chunk) % size;
        bytes := bytes - chunk;
        cleared := cleared + chunk;
      }
    }

    lemma StoredIs()
      requires Stored()
      ensures size == dma.Length && writePosition < size && queued <= size && passed <= |kept|
      ensures Holds(dma[..], lastPosition, Queue())
    {
    }

    /** Clear one contiguous piece, and let the engine move. */
    method ClearPiece(position: nat, chunk: nat, ghost cleared: nat, ghost count: nat, ghost was: seq<byte>)
      requires Stored() && queued + count <= size && quiet.from == writePosition && |was| == size
      requires Holds(was, lastPosition, Queue()) && cleared + chunk <= count && 0 < chunk
      requires position == Wrap(writePosition + cleared, size) && position + chunk <= size
      requires Zeros(dma[..], writePosition, cleared) && SameBeyond(was, dma[..], writePosition, count)
      modifies dma, `link, `ahead, `ear
      ensures Stored() && Zeros(dma[..], writePosition, cleared + chunk)
      ensures SameBeyond(was, dma[..], writePosition, count)
      ensures old(ahead) <= ahead && (!run ==> ahead == old(ahead)) && ear.missed == old(ear.missed)
    {
      hide Holds, Zeros, SameBeyond, Overwritten, HeardTo, EarKept, Distance;
      ghost var before := dma[..];
      Fill(position, seq(chunk, _ => 0));
      ZerosMore(was, before, dma[..], writePosition, cleared, chunk, count);
      ZerosStay(before, dma[..], quiet.from, Bound(size, guard, quiet.filled, quiet.copied), position, chunk);
      HoldsKept(was, dma[..], lastPosition, Queue(), writePosition, count);
      assert Stored();
      Elapse();
    }

    /** Copy a chunk behind the queue while the engine may be moving. What the engine passed of it before the copy is
        missed, and nothing else. */
    method Append(chunk: seq<byte>)
      requires Consistent() && chunk != [] && |chunk| % FRAME == 0
      requires queued + |chunk| <= size && writePosition + |chunk| <= size
      modifies dma, `writePosition, `queued, `accepted, `kept, `link, `ahead, `quiet, `ear
      ensures Stored() && queued == old(queued) + |chunk|
      ensures accepted == old(accepted) + chunk && kept == old(kept) + chunk
      ensures ear.missed == old(ear.missed) + Min(ahead, queued) - Min(ahead, old(queued))
      ensures writePosition == Wrap(old(writePosition) + |chunk|, size)
      ensures quiet == Quiet(writePosition, old(quiet.filled), |chunk|)
      ensures old(ahead) <= ahead && (!run ==> ahead == old(ahead))
    {
      hide Holds, Wrap, HeardTo, EarKept, QuietAt, Positions, Counted;
      CopyIn(chunk);
      Commit(chunk);
    }

    /** The copied chunk joins the queue. */
    method Commit(chunk: seq<byte>)
      requires Stored() && Holds(dma[..], lastPosition, Queue() + chunk) && chunk != [] && |chunk| % FRAME == 0
      requires queued + |chunk| <= size && writePosition + |chunk| <= size
      modifies `writePosition, `queued, `accepted, `kept, `ear
      ensures Stored() && queued == old(queued) + |chunk| && writePosition == Wrap(old(writePosition) + |chunk|, size)
      ensures accepted == old(accepted) + chunk && kept == old(kept) + chunk
      ensures ear.missed == old(ear.missed) + Min(ahead, queued) - Min(ahead, old(queued))
    {
      hide Holds, Wrap, Distance, Advanced, HeardTo, EarKept, QuietAt, Min;
      Skips(ahead, queued, |chunk|);
      ghost var queue, total := Queue(), passed + Min(ahead, queued);
      ghost var skipped := Min(ahead, queued + |chunk|) - Min(ahead, queued);
      HeardAppended(ear, kept, total, chunk, skipped);
      EndsAtWrite(writePosition, queued, lastPosition, |chunk|, size);
      AdvancedIsWrap(writePosition, |chunk|, size);
      WholeFrames(queued, |chunk|);
      EarSame(ear, ear.(missed := ear.missed + skipped), size, guard);
      writePosition := Advanced(writePosition, |chunk|, size);
      queued := queued + |chunk|;
      accepted, kept := accepted + chunk, kept + chunk;
      ear := ear.(missed := ear.missed + skipped);
      assert Positions();
      assert Queue() == queue + chunk;
    }

    /** Copy a chunk to the write position, with the engine moving before. The engine does not see what counts as
        queued, so it is the copy that decides what it reads: moving between the copy and the count comes to the same
        as moving after the count. */
    method CopyIn(chunk: seq<byte>)
      requires Consistent() && chunk != [] && queued + |chunk| <= size && writePosition + |chunk| <= size
      requires |chunk| % FRAME == 0
      modifies dma, `link, `ahead, `quiet, `ear
      ensures Stored() && Holds(dma[..], lastPosition, Queue() + chunk) && ear.missed == old(ear.missed)
      ensures quiet == Quiet(Wrap(writePosition + |chunk|, size), old(quiet.filled), |chunk|)
      ensures old(ahead) <= ahead && (!run ==> ahead == old(ahead))
    {
      hide Holds, Overwritten, Wrap, Distance, HeardTo, EarKept, Zeros;
      Elapse();
      ghost var before := dma[..];
      Fill(writePosition, chunk);
      EndsAtWrite(writePosition, queued, lastPosition, |chunk|, size);
      HoldsMore(before, dma[..], lastPosition, Queue(), writePosition, chunk);
      HoldsFront(dma[..], lastPosition, Queue(), chunk);
      ZerosBehind(before, dma[..], writePosition, chunk, Bound(size, guard, quiet.filled, 0));
      quiet := Quiet(Wrap(writePosition + |chunk|, size), quiet.filled, |chunk|);
      assert Stored();
    }

    /** Start the engine where it stands. */
    method Start()
      requires Consistent() && !run && ahead == 0
      modifies `lastPosition, `run, `running
      ensures Consistent() && run && running && lastPosition == old(lastPosition)
    {
      hide Holds, HeardTo, EarKept, QuietAt;
      WrapBelow(lastPosition, size);
      lastPosition := link;
      run := true;
      running := true;
    }

    /** `write_pcm`: accept whole frames until the ring has less than a page free. Exactly the accepted prefix of
        the data joins the queue; polls on the way only take bytes off its front. The last piece taken found a page
        free, or the ring empty. */
    method WritePcm(data: seq<byte>) returns (done: nat, ghost last: nat)
      requires Valid()
      modifies this, dma
      ensures Valid() && done <= |data| && done % FRAME == 0
      ensures accepted == old(accepted) + data[..done] && kept == old(kept) + data[..done]
      ensures dropped == old(dropped) && passed >= old(passed) && paused == old(paused) && active == old(active)
      ensures !active || paused ==> done == 0 && unchanged(this) && dma[..] == old(dma[..])
      ensures active && !paused && done != Whole(|data|) ==> running && size - queued < page
      ensures done > 0 ==> 0 < last <= done && (queued <= last || size - queued + last >= page)
    {
      hide Valid, Whole;
      WholeIsWhole(|data|);
      done, last := 0, 0;
      assert accepted + data[..0] == accepted && kept + data[..0] == kept;
      if !active || |data| < FRAME { return; }
      var bytes := Whole(|data|);
      if paused { return; }
      while done < bytes
        invariant Valid() && active && !paused && done <= bytes && done % FRAME == 0
        invariant accepted == old(accepted) + data[..done] && kept == old(kept) + data[..done]
        invariant dropped == old(dropped) && passed >= old(passed)
        invariant done > 0 ==> 0 < last <= done && (queued <= last || size - queued + last >= page)
        decreases bytes - done
      {
        WholeFrames(bytes, done);
        var chunk := WriteSome(data[done..bytes]);
        if chunk == 0 { break; }
        assert data[..done + chunk] == data[..done] + data[done..bytes][..chunk];
        WholeFrames(done, chunk);
        done, last := done + chunk, chunk;
      }
    }

    /** One round of `write_pcm`: poll, then accept one chunk unless less than a page is free. */
    method WriteSome(left: seq<byte>) returns (chunk: nat)
      requires Valid() && active && !paused && left != [] && |left| % FRAME == 0
      modifies this, dma
      ensures Valid() && active && !paused && dropped == old(dropped) && passed >= old(passed)
      ensures chunk <= |left| && chunk % FRAME == 0
      ensures accepted == old(accepted) + left[..chunk] && kept == old(kept) + left[..chunk]
      ensures chunk == 0 ==> running && size - queued < page && queued <= old(queued)
      ensures chunk > 0 ==> queued == chunk || size - queued + chunk >= page
    {
      hide Holds, HeardTo, EarKept, QuietAt, Wrap, Distance, Chunk;
      assert accepted + left[..0] == accepted && kept + left[..0] == kept;
      ghost var moved := Poll();
      var available := size - queued;
      if running && queued != 0 && available < page { return 0; }
      chunk := Chunk(|left|, available, size - writePosition);
      WholeFrames(size, queued);
      WholeFrames(size, writePosition);
      ChunkMakesProgress(|left|, available, size - writePosition);
      if chunk == 0 { return; }
      ghost var reached := AcceptChunk(left[..chunk]);
    }

    /** One chunk joins the queue, the slots behind it fall silent, and an idle stream starts. The engine had `reached`
        this far when the chunk was copied: what it had passed of the chunk's slots is missed. */
    method AcceptChunk(chunk: seq<byte>) returns (ghost reached: nat)
      requires Valid() && !paused && chunk != [] && |chunk| % FRAME == 0
      requires queued + |chunk| <= size && writePosition + |chunk| <= size
      modifies this, dma
      ensures Valid() && accepted == old(accepted) + chunk && kept == old(kept) + chunk
      ensures dropped == old(dropped) && passed == old(passed) && paused == old(paused) && active == old(active)
      ensures queued == old(queued) + |chunk| == quiet.filled
      ensures old(ahead) <= reached <= ahead && (!old(run) ==> reached == old(ahead))
      ensures ear.missed == old(ear.missed) + Min(reached, queued) - Min(reached, old(queued))
      ensures writePosition == Wrap(old(writePosition) + |chunk|, size) && (!old(run) ==> ahead == 0)
    {
      hide Holds, HeardTo, EarKept, QuietAt, Wrap, Distance;
      Append(chunk);
      reached := ahead;
      Elapse();
      ClearSilenceGuard();
      if running { return; }
      Start();
    }

    /** Restart the engine for queued bytes. */
    method Resume()
      requires Consistent() && !run && ahead == 0 && !running
      modifies `lastPosition, `run, `running
      ensures Consistent() && ahead == 0 && lastPosition == old(lastPosition)
      ensures running == run == (queued != 0)
    {
      if queued != 0 { Start(); }
    }

    /** Whatever is still queued is given up, and the stream is idle where the engine stands. */
    method Reset()
      requires Placed() && !run && Counted() && HeardTo(ear, kept, passed)
      modifies `writePosition, `queued, `lastPosition, `ahead, `running, `paused, `kept, `dropped, `quiet
      ensures Valid() && queued == 0 && !paused && kept == old(kept)[..passed] && dropped == old(dropped) + old(queued)
    {
      hide HeardTo, EarKept, QuietAt, Holds;
      HeardCut(ear, kept, passed);
      kept := kept[..passed];
      dropped := dropped + queued;
      Settle();
      paused := false;
    }

    /** `drain`: a paused stream resumes, and every queued byte is passed by the engine before it stops. */
    method Drain()
      requires Valid()
      modifies this
      ensures Valid() && accepted == old(accepted) && kept == old(kept)
      ensures dropped == old(dropped) && active == old(active)
      ensures ear.missed == old(ear.missed)
      ensures active ==> queued == 0 && !paused && passed == old(passed) + old(queued)
      ensures !active ==> unchanged(this)
    {
      hide Holds, HeardTo, EarKept, QuietAt, Wrap, Distance;
      if !active { return; }
      if paused && queued != 0 {
        Start();
        paused := false;
      }
      PlayOut();
      FinishDrain();
    }

    method FinishDrain()
      requires Consistent() && queued == 0 && (!running ==> !run)
      modifies this
      ensures Valid() && queued == 0 && !paused && accepted == old(accepted) && kept == old(kept)
      ensures passed == old(passed)
      ensures dropped == old(dropped) && active == old(active) && ear.missed == old(ear.missed)
    {
      hide Holds, HeardTo, EarKept, QuietAt, Wrap, Distance;
      StopIfRunning();
      assert kept[..passed] == kept;
      Reset();
    }

    /** Poll until the running stream has nothing queued. */
    method PlayOut()
      requires Consistent() && run == running && (!run ==> ahead == 0) && (running <==> queued > 0)
      modifies `writePosition, `queued, `lastPosition, `running, `link, `run, `ahead, `passed, `quiet, `ear
      ensures Consistent() && queued == 0 && !running && !run && ear.missed == old(ear.missed)
      ensures passed == old(passed) + old(queued)
    {
      hide Holds, HeardTo, EarKept, QuietAt, Wrap, Distance;
      while running && queued != 0
        invariant Consistent() && run == running && (!run ==> ahead == 0)
        invariant (running <==> queued > 0) && ear.missed == old(ear.missed)
        invariant passed + queued == old(passed) + old(queued)
        decreases queued
      {
        AwaitFrame();
        ghost var moved := Poll();
      }
    }

    method StopIfRunning()
      requires Placed() && (!running ==> !run)
      modifies `link, `ahead, `run, `ear
      ensures Placed() && !run && (!running ==> ahead == old(ahead)) && ear.missed == old(ear.missed)
      ensures old(Stored()) ==> Stored()
    {
      if running { StopStream(); }
    }

    /** `flush`: what the engine has not passed by the time it stops is discarded. */
    method Flush()
      requires Valid()
      modifies this
      ensures Valid() && accepted == old(accepted) && active == old(active) && ear.missed == old(ear.missed)
      ensures active ==> queued == 0 && !paused && passed >= old(passed) && dropped >= old(dropped)
                         && (passed - old(passed)) + (dropped - old(dropped)) == old(queued)
                         && kept == old(kept)[..passed]
      ensures !active ==> unchanged(this)
    {
      hide Holds, HeardTo, EarKept, QuietAt, Wrap, Distance;
      if !active { return; }
      if running { PollStopPoll(); }
      Reset();
    }

    /** Poll, stop the engine, and account for what it passed before it stood still. */
    method PollStopPoll()
      requires Valid() && running
      modifies `writePosition, `queued, `lastPosition, `running, `link, `run, `ahead, `passed, `quiet, `ear
      ensures Consistent() && !run && ahead == 0 && (running ==> queued > 0) && ear.missed == old(ear.missed)
      ensures passed >= old(passed) && passed + queued == old(passed) + old(queued)
    {
      hide Holds, HeardTo, EarKept, QuietAt, Wrap, Distance;
      ghost var moved := Poll();
      StopStream();
      moved := Poll();
    }

    /** `set_paused`: pausing keeps exactly the bytes the engine has not passed, resuming changes no byte. */
    method SetPaused(pause: bool)
      requires Valid()
      modifies this
      ensures Valid() && accepted == old(accepted) && kept == old(kept)
      ensures dropped == old(dropped) && active == old(active)
      ensures active ==> paused == pause
      ensures ear.missed == old(ear.missed)
      ensures passed >= old(passed) && passed + queued == old(passed) + old(queued)
      ensures !pause || old(paused) ==> passed == old(passed)
      ensures !active || pause == old(paused) ==> unchanged(this)
    {
      hide Holds, HeardTo, EarKept, QuietAt, Wrap, Distance;
      if !active { return; }
      if pause && !paused {
        if running {
          PollStopPoll();
          running := false;
        }
        paused := true;
      } else if !pause && paused {
        paused := false;
        Resume();
      }
    }

    /** `get_status`: a poll, and the state it leaves. */
    method GetStatus() returns (bytes: nat, isRunning: bool, isPaused: bool)
      requires Valid()
      modifies `writePosition, `queued, `lastPosition, `running, `link, `run, `ahead, `passed, `quiet, `ear
      ensures Valid() && ear.missed == old(ear.missed)
      ensures passed >= old(passed) && passed + queued == old(passed) + old(queued)
      ensures bytes == |Queue()| && isPaused == paused && (isRunning <==> bytes > 0 && !isPaused)
    {
      hide Holds, HeardTo, EarKept, QuietAt, Wrap, Distance;
      ghost var moved := Poll();
      return queued, running, paused;
    }

    // ---- whole runs ----------------------------------------------------------

    /** Any calls in any order, with the engine moving anywhere in between: the bytes accepted are those the writes said
        they took, in order; those kept are the same without what the flushes discarded; each of these is passed or in
        its slot, first in first out. The engine has read exactly the kept bytes up to where it stands, once and in
        order, if and only if it missed none; if it missed some, it has read the others once and in order; and
        whatever else it read within the silent slots was zero. */
    method Serve(calls: seq<Call>) returns (done: seq<nat>, ghost lost: seq<nat>)
      requires Valid()
      modifies this, dma
      ensures Valid() && |done| == |lost| == |calls|
      ensures accepted == old(accepted) + Taken(calls, done)
      ensures kept == Kept(old(kept), calls, done, lost)
      ensures forall i :: 0 <= i < |calls| && lost[i] > 0 ==> calls[i].FlushAll?
      ensures passed + dropped + queued == |accepted| && passed + queued == |kept|
      ensures Reading(dma[..], lastPosition, queued) == kept[passed..]
      ensures ear.missed == 0 <==> ear.sounded == kept[..passed + Min(ahead, queued)]
      ensures |ear.sounded| + ear.missed == passed + Min(ahead, queued)
      ensures Subsequence(ear.sounded, kept[..passed + Min(ahead, queued)])
      ensures EarKept(ear, size, guard)
    {
      hide Consistent, Subsequence, Taken, TakenBy, Kept, Cut, Reading, EarKept;
      done, lost := [], [];
      NothingTaken(kept);
      assert accepted + [] == accepted;
      for i := 0 to |calls|
        invariant Valid() && |done| == |lost| == i && accepted == old(accepted) + Taken(calls[..i], done)
        invariant kept == Kept(old(kept), calls[..i], done, lost)
        invariant forall j :: 0 <= j < i && lost[j] > 0 ==> calls[j].FlushAll?
      {
        ghost var l;
        var n;
        n, l := ServeOne(calls[i]);
        TakenMore(calls, i, done + [n], old(accepted));
        KeptMore(old(kept), calls, i, done + [n], lost + [l]);
        done, lost := done + [n], lost + [l];
      }
      assert calls[..|calls|] == calls;
      QueueInSlots();
    }

    /** What holds of any state between calls. */
    lemma QueueInSlots()
      requires Valid()
      ensures lastPosition < dma.Length && passed + dropped + queued == |accepted| && passed + queued == |kept|
      ensures Reading(dma[..], lastPosition, queued) == kept[passed..]
      ensures ear.missed == 0 <==> ear.sounded == kept[..passed + Min(ahead, queued)]
      ensures |ear.sounded| + ear.missed == passed + Min(ahead, queued) && EarKept(ear, size, guard)
      ensures Subsequence(ear.sounded, kept[..passed + Min(ahead, queued)])
    {
      hide EarKept, QuietAt, Subsequence;
      HeardExactly(ear, kept, passed + Min(ahead, queued));
      var r := Reading(dma[..], lastPosition, queued);
      forall i | 0 <= i < queued ensures r[i] == Queue()[i] {
        ReadingAt(dma[..], lastPosition, queued, i);
        assert Distance(lastPosition, Wrap(lastPosition + i, size), size) == i;
      }
    }

    /** When the queue is empty, as after a drain, the engine has read exactly what was kept if and only if it missed
        nothing. */
    lemma AllHeard()
      requires Valid() && queued == 0
      ensures ear.missed == 0 <==> ear.sounded == kept
      ensures Subsequence(ear.sounded, kept) && |ear.sounded| + ear.missed == |kept|
    {
      QueueInSlots();
      assert kept[..|kept|] == kept;
    }

    method ServeOne(call: Call) returns (done: nat, ghost lost: nat)
      requires Valid()
      modifies this, dma
      ensures Valid() && accepted == old(accepted) + TakenBy(call, done)
      ensures kept == Cut(old(kept) + TakenBy(call, done), lost) && (lost > 0 ==> call.FlushAll?)
    {
      hide Consistent;
      done := 0;
      ghost var before, last := dropped, 0;
      assert accepted + [] == accepted && kept + [] == kept;
      Uncut();
      match call {
        case Write(data) => done, last := WritePcm(data);
        case Pause(on) => SetPaused(on);
        case FlushAll => Flush();
        case DrainAll => Drain();
        case Status => var _, _, _ := GetStatus();
      }
      lost := dropped - before;
    }

    lemma Uncut()
      requires Valid()
      ensures |kept| == passed + queued
    {
    }
  }

  datatype Call = Write(data: seq<byte>) | Pause(on: bool) | FlushAll | DrainAll | Status

  /** The bytes a call took, by the count it returned. */
  function TakenBy(call: Call, done: nat): seq<byte> {
    if call.Write? && done <= |call.data| then call.data[..done] else []
  }

  function Taken(calls: seq<Call>, done: seq<nat>): seq<byte>
    requires |calls| == |done|
  {
    if calls == [] then []
    else
      var n := |calls| - 1;
      Taken(calls[..n], done[..n]) + TakenBy(calls[n], done[n])
  }

  /** A run that overruns: the engine goes four slots past the first write before the second one is copied. */
  method Overrun() returns (s: Stream)
    ensures s.Valid() && s.passed + Min(s.ahead, s.queued) <= |s.kept|
    ensures s.ear.sounded != s.kept[..s.passed + Min(s.ahead, s.queued)]
  {
    hide Stream.Consistent;
    s := new Stream(64, 16, 8);
    ghost var reached := s.AcceptChunk([1, 2, 3, 4]);
    s.Play(2);
    reached := s.AcceptChunk([5, 6, 7, 8]);
    s.QueueInSlots();
  }

  function Cut(s: seq<byte>, n: nat): seq<byte> {
    if n <= |s| then s[..|s| - n] else []
  }

  /** What is kept after some calls: each write appends what it took, each flush discards some bytes from the end. */
  function Kept(before: seq<byte>, calls: seq<Call>, done: seq<nat>, lost: seq<nat>): seq<byte>
    requires |calls| == |done| == |lost|
  {
    if calls == [] then before
    else
      var n := |calls| - 1;
      Cut(Kept(before, calls[..n], done[..n], lost[..n]) + TakenBy(calls[n], done[n]), lost[n])
  }

  lemma KeptMore(before: seq<byte>, calls: seq<Call>, i: nat, done: seq<nat>, lost: seq<nat>)
    requires i < |calls| && |done| == |lost| == i + 1
    ensures Kept(before, calls[..i + 1], done, lost)
            == Cut(Kept(before, calls[..i], done[..i], lost[..i]) + TakenBy(calls[i], done[i]), lost[i])
  {
    hide TakenBy, Cut;
    var shown := calls[..i + 1];
    assert shown[..i] == calls[..i] && shown[i] == calls[i];
  }

  lemma NothingTaken(before: seq<byte>)
    ensures Taken([], []) == [] && Kept(before, [], [], []) == before
  {
  }

  lemma TakenMore(calls: seq<Call>, i: nat, done: seq<nat>, before: seq<byte>)
    requires i < |calls| && |done| == i + 1
    ensures before + Taken(calls[..i + 1], done) == before + Taken(calls[..i], done[..i]) + TakenBy(calls[i], done[i])
  {
    hide TakenBy;
    var shown := calls[..i + 1];
    assert shown[..i] == calls[..i] && shown[i] == calls[i];
    Regroup(before, Taken(calls[..i], done[..i]), TakenBy(calls[i], done[i]));
  }

  lemma Regroup(a: seq<byte>, b: seq<byte>, c: seq<byte>)
    ensures a + (b + c) == a + b + c
  {
  }

  lemma Unchanged(dma: seq<byte>, from: nat, count: nat)
    requires from < |dma|
    ensures SameBeyond(dma, dma, from, count)
  {
  }

  function InRing(position: nat, size: nat): nat {
    if position >= size then 0 else position
  }
}
