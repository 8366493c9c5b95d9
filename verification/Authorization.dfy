/** Authorization events of PID 1: each accepted request spends one kernel event with its sender and digest. */
module Authorization {
  import opened Basics

  datatype Event = Event(kind: nat, sender: nat, value: nat)

  const AUTHORIZATION: nat := 0x5356_4301

  predicate Matches(e: Event, client: nat, expected: nat) {
    e.kind == AUTHORIZATION && e.sender == client && e.value == expected
  }

  predicate AnyMatches(s: seq<Event>, client: nat, expected: nat) {
    exists e :: e in s && Matches(e, client, expected)
  }

  // ---- one request ----------------------------------------------------------------------------

  /** What one request does: the event it spends, if any, the authorization events it receives, and those it drops. */
  datatype Answer = Answer(
    spent: seq<Event>, received: seq<Event>, evicted: seq<Event>, pending: seq<Event>, queue: seq<Event>)

  /** The index of the first match, or the length. */
  function FirstMatch(s: seq<Event>, client: nat, expected: nat): (i: nat)
    ensures i <= |s| && (i < |s| ==> Matches(s[i], client, expected))
  {
    if s == [] || Matches(s[0], client, expected) then 0 else 1 + FirstMatch(s[1..], client, expected)
  }

  lemma {:induction false} FirstMatchIsFirst(s: seq<Event>, client: nat, expected: nat, i: nat)
    requires i <= |s| && (i < |s| ==> Matches(s[i], client, expected))
    requires forall j :: 0 <= j < i ==> !Matches(s[j], client, expected)
    ensures FirstMatch(s, client, expected) == i
  {
    if i > 0 { FirstMatchIsFirst(s[1..], client, expected, i - 1); }
  }

  lemma {:induction false} FirstMatchFinds(s: seq<Event>, client: nat, expected: nat)
    ensures FirstMatch(s, client, expected) < |s| <==> AnyMatches(s, client, expected)
  {
    if s != [] {
      FirstMatchFinds(s[1..], client, expected);
      assert s == [s[0]] + s[1..];
    }
  }

  function Without(s: seq<Event>, i: nat): seq<Event>
    requires i < |s|
  {
    s[..i] + s[i + 1..]
  }

  /** The pending events after one more arrives: the oldest goes when there is no room. */
  function Kept(pending: seq<Event>, e: Event, capacity: nat): seq<Event>
    requires capacity > 0
  {
    (if |pending| == capacity then pending[1..] else pending) + [e]
  }

  /** Receive until an event matches or there are no more. */
  function Receive(pending: seq<Event>, queue: seq<Event>, capacity: nat, client: nat, expected: nat): Answer
    requires capacity > 0
    decreases |queue|
  {
    if queue == [] then Answer([], [], [], pending, [])
    else if Matches(queue[0], client, expected) then Answer([queue[0]], [queue[0]], [], pending, queue[1..])
    else if queue[0].kind != AUTHORIZATION then Receive(pending, queue[1..], capacity, client, expected)
    else
      var rest := Receive(Kept(pending, queue[0], capacity), queue[1..], capacity, client, expected);
      rest.(received := [queue[0]] + rest.received,
            evicted := (if |pending| == capacity then [pending[0]] else []) + rest.evicted)
  }

  function Authorize(pending: seq<Event>, queue: seq<Event>, capacity: nat, client: nat, expected: nat): Answer
    requires capacity > 0
  {
    var i := FirstMatch(pending, client, expected);
    if i < |pending| then Answer([pending[i]], [], [], Without(pending, i), queue)
    else Receive(pending, queue, capacity, client, expected)
  }

  /** A request is accepted exactly when a matching event is pending or queued, and then it spends one such event. */
  lemma {:induction false} ReceiveIsExact(
    pending: seq<Event>, queue: seq<Event>, capacity: nat, client: nat, expected: nat)
    requires capacity > 0
    ensures var r := Receive(pending, queue, capacity, client, expected);
            && (AnyMatches(queue, client, expected) ==> |r.spent| == 1 && Matches(r.spent[0], client, expected))
            && (!AnyMatches(queue, client, expected) ==> r.spent == [])
    decreases |queue|
  {
    if queue != [] {
      assert queue == [queue[0]] + queue[1..];
      ReceiveIsExact(pending, queue[1..], capacity, client, expected);
      ReceiveIsExact(Kept(pending, queue[0], capacity), queue[1..], capacity, client, expected);
    }
  }

  lemma AuthorizeIsExact(pending: seq<Event>, queue: seq<Event>, capacity: nat, client: nat, expected: nat)
    requires capacity > 0
    ensures var r := Authorize(pending, queue, capacity, client, expected);
            && (AnyMatches(pending + queue, client, expected)
                ==> |r.spent| == 1 && Matches(r.spent[0], client, expected))
            && (!AnyMatches(pending + queue, client, expected) ==> r.spent == [])
  {
    FirstMatchFinds(pending, client, expected);
    ReceiveIsExact(pending, queue, capacity, client, expected);
    assert AnyMatches(pending + queue, client, expected)
        <==> AnyMatches(pending, client, expected) || AnyMatches(queue, client, expected);
  }

  /** The authorization events of a queue. */
  function Authorizations(queue: seq<Event>): seq<Event> {
    if queue == [] then []
    else (if queue[0].kind == AUTHORIZATION then [queue[0]] else []) + Authorizations(queue[1..])
  }

  /** Receiving is first in, first out: dropped, pending, then spent are what was pending and then what was received. */
  lemma {:induction false} ReceiveIsFifo(
    pending: seq<Event>, queue: seq<Event>, capacity: nat, client: nat, expected: nat)
    requires 0 < capacity && |pending| <= capacity
    ensures var r := Receive(pending, queue, capacity, client, expected);
            && r.evicted + r.pending + r.spent == pending + r.received
            && |r.pending| <= capacity
            && Authorizations(queue) == r.received + Authorizations(r.queue)
    decreases |queue|
  {
    if queue == [] {
    } else if Matches(queue[0], client, expected) {
    } else if queue[0].kind != AUTHORIZATION {
      ReceiveIsFifo(pending, queue[1..], capacity, client, expected);
    } else {
      var next := Kept(pending, queue[0], capacity);
      ReceiveIsFifo(next, queue[1..], capacity, client, expected);
      var rest := Receive(next, queue[1..], capacity, client, expected);
      KeptMoves(pending, queue[0], capacity, rest.evicted + rest.pending + rest.spent, rest.received);
      var out := if |pending| == capacity then [pending[0]] else [];
      assert out + rest.evicted + rest.pending + rest.spent == out + (rest.evicted + rest.pending + rest.spent);
      assert [queue[0]] + (rest.received + Authorizations(rest.queue))
          == [queue[0]] + rest.received + Authorizations(rest.queue);
    }
  }

  /** The oldest events are dropped only as far as there is no room, and no match is passed over. */
  lemma {:induction false} ReceiveEvictsLast(
    pending: seq<Event>, queue: seq<Event>, capacity: nat, client: nat, expected: nat)
    requires 0 < capacity && |pending| <= capacity
    ensures var r := Receive(pending, queue, capacity, client, expected);
            && |r.spent| <= |r.received|
            && |r.evicted| == Max(|pending| + |r.received| - |r.spent| - capacity, 0)
            && (!AnyMatches(pending, client, expected) ==> !AnyMatches(r.pending, client, expected))
            && (r.spent == [] ==> r.queue == [])
    decreases |queue|
  {
    if queue != [] && !Matches(queue[0], client, expected) {
      if queue[0].kind != AUTHORIZATION {
        ReceiveEvictsLast(pending, queue[1..], capacity, client, expected);
      } else {
        var next := Kept(pending, queue[0], capacity);
        ReceiveEvictsLast(next, queue[1..], capacity, client, expected);
        ReceiveIsFifo(next, queue[1..], capacity, client, expected);
      }
    }
  }

  /** A request drops as many events as are held beyond the room for them, and no more. */
  lemma AuthorizeEvictsLast(
    pending: seq<Event>, queue: seq<Event>, capacity: nat, client: nat, expected: nat)
    requires 0 < capacity && |pending| <= capacity
    ensures var r := Authorize(pending, queue, capacity, client, expected);
            |r.evicted| == Max(|pending| + |r.received| - |r.spent| - capacity, 0)
  {
    hide Receive;
    ReceiveEvictsLast(pending, queue, capacity, client, expected);
  }

  lemma KeptMoves(pending: seq<Event>, e: Event, capacity: nat, all: seq<Event>, received: seq<Event>)
    requires 0 < capacity && all == Kept(pending, e, capacity) + received
    ensures (if |pending| == capacity then [pending[0]] else []) + all == pending + ([e] + received)
  {
  }

  // ---- order ------------------------------------------------------------------------------------

  lemma WithoutLast(a: seq<Event>, i: nat)
    requires i < |a|
    ensures var n := |a| - 1;
            Without(a, i) == if i < n then Without(a[..n], i) + [a[n]] else a[..n]
  {
  }

  lemma {:induction false} SubsequenceWithout(a: seq<Event>, b: seq<Event>, i: nat)
    requires Subsequence(a, b) && i < |a|
    ensures Subsequence(Without(a, i), b)
    decreases |b|
  {
    hide Without;
    var n, m := |a| - 1, |b| - 1;
    assert b[..m] + [b[m]] == b;
    if a[n] == b[m] && Subsequence(a[..n], b[..m]) {
      WithoutLast(a, i);
      if i < n {
        SubsequenceWithout(a[..n], b[..m], i);
        SubsequenceAppend(Without(a[..n], i), b[..m], a[n]);
      } else {
        SubsequenceAppend(a[..n], b[..m], b[m]);
      }
    } else {
      SubsequenceWithout(a, b[..m], i);
      SubsequenceAppend(Without(a, i), b[..m], b[m]);
    }
  }

  lemma {:induction false} SubsequenceSlice(a: seq<Event>, b: seq<Event>, i: nat, j: nat)
    requires Subsequence(a, b) && i <= j <= |a|
    ensures Subsequence(a[i..j], b)
    decreases |a|
  {
    hide Subsequence;
    if j < |a| {
      SubsequenceWithout(a, b, |a| - 1);
      assert Without(a, |a| - 1) == a[..|a| - 1];
      SubsequenceSlice(a[..|a| - 1], b, i, j);
      assert a[..|a| - 1][i..j] == a[i..j];
    } else if i > 0 {
      SubsequenceWithout(a, b, 0);
      assert Without(a, 0) == a[1..];
      SubsequenceSlice(a[1..], b, i - 1, j - 1);
      assert a[1..][i - 1..j - 1] == a[i..j];
    } else {
      assert a[i..j] == a;
    }
  }

  // ---- runs ------------------------------------------------------------------------------------

  /** The books kept over a run: what is pending and queued, and all that was ever received, spent and evicted. */
  datatype Ledger = Ledger(
    pending: seq<Event>, queue: seq<Event>, received: seq<Event>, spent: multiset<Event>, evicted: multiset<Event>)

  const OPENING := Ledger([], [], [], multiset{}, multiset{})

  datatype Step = Arrive(event: Event) | Ask(client: nat, expected: nat)

  function Apply(l: Ledger, step: Step, capacity: nat): Ledger
    requires capacity > 0
  {
    match step
    case Arrive(e) => l.(queue := l.queue + [e])
    case Ask(client, expected) =>
      var r := Authorize(l.pending, l.queue, capacity, client, expected);
      Ledger(r.pending, r.queue, l.received + r.received, l.spent + multiset(r.spent), l.evicted + multiset(r.evicted))
  }

  function Run(l: Ledger, steps: seq<Step>, capacity: nat): Ledger
    requires capacity > 0
    decreases |steps|
  {
    if steps == [] then l else Run(Apply(l, steps[0], capacity), steps[1..], capacity)
  }

  /** Every event received is spent, pending or evicted, once; the pending ones are few and in order of arrival. */
  ghost predicate Balanced(l: Ledger, capacity: nat) {
    && multiset(l.received) == l.spent + multiset(l.pending) + l.evicted
    && |l.pending| <= capacity
    && Subsequence(l.pending, l.received)
  }

  lemma MultisetWithout(s: seq<Event>, i: nat)
    requires i < |s|
    ensures multiset(s) == multiset(Without(s, i)) + multiset{s[i]}
  {
    assert s == s[..i] + [s[i]] + s[i + 1..];
  }

  /** One request keeps the order and accounts for every event. */
  lemma AuthorizeBalances(
    pending: seq<Event>, before: seq<Event>, queue: seq<Event>, capacity: nat, client: nat, expected: nat)
    requires 0 < capacity && |pending| <= capacity && Subsequence(pending, before)
    ensures var r := Authorize(pending, queue, capacity, client, expected);
            && multiset(pending) + multiset(r.received) == multiset(r.spent) + multiset(r.pending) + multiset(r.evicted)
            && |r.pending| <= capacity
            && Subsequence(r.pending, before + r.received)
  {
    hide Subsequence, Receive;
    var i := FirstMatch(pending, client, expected);
    var r := Authorize(pending, queue, capacity, client, expected);
    if i < |pending| {
      MultisetWithout(pending, i);
      SubsequenceWithout(pending, before, i);
      assert before + r.received == before;
    } else {
      ReceiveIsFifo(pending, queue, capacity, client, expected);
      var all := r.evicted + r.pending + r.spent;
      assert multiset(all) == multiset(pending + r.received);
      SubsequenceExtend(pending, before, r.received);
      SubsequenceSlice(all, before + r.received, |r.evicted|, |r.evicted| + |r.pending|);
      assert all[|r.evicted|..|r.evicted| + |r.pending|] == r.pending;
    }
  }

  lemma Regroup(
    all: multiset<Event>, s: multiset<Event>, p: multiset<Event>, e: multiset<Event>,
    more: multiset<Event>, s1: multiset<Event>, p1: multiset<Event>, e1: multiset<Event>)
    requires all == s + p + e && p + more == s1 + p1 + e1
    ensures all + more == s + s1 + p1 + (e + e1)
  {
    forall x ensures (all + more)[x] == (s + s1 + p1 + (e + e1))[x] {
      assert (p + more)[x] == (s1 + p1 + e1)[x];
    }
  }

  lemma AskKeepsBalance(l: Ledger, capacity: nat, client: nat, expected: nat)
    requires 0 < capacity && Balanced(l, capacity)
    ensures Balanced(Apply(l, Ask(client, expected), capacity), capacity)
  {
    hide Subsequence, Authorize;
    AuthorizeBalances(l.pending, l.received, l.queue, capacity, client, expected);
    var r := Authorize(l.pending, l.queue, capacity, client, expected);
    assert multiset(l.received + r.received) == multiset(l.received) + multiset(r.received);
    Regroup(multiset(l.received), l.spent, multiset(l.pending), l.evicted,
            multiset(r.received), multiset(r.spent), multiset(r.pending), multiset(r.evicted));
  }

  lemma {:induction false} RunKeepsBalance(l: Ledger, steps: seq<Step>, capacity: nat)
    requires 0 < capacity && Balanced(l, capacity)
    ensures Balanced(Run(l, steps, capacity), capacity)
    decreases |steps|
  {
    if steps != [] {
      match steps[0] {
        case Arrive(e) =>
        case Ask(client, expected) => AskKeepsBalance(l, capacity, client, expected);
      }
      RunKeepsBalance(Apply(l, steps[0], capacity), steps[1..], capacity);
    }
  }

  /** The books balance over any run. */
  lemma RunsBalance(steps: seq<Step>, capacity: nat)
    requires 0 < capacity
    ensures Balanced(Run(OPENING, steps, capacity), capacity)
  {
    RunKeepsBalance(OPENING, steps, capacity);
  }

  /** Received, and neither spent nor evicted, or still queued. */
  ghost predicate Available(l: Ledger, e: Event) {
    multiset(l.received)[e] > l.spent[e] + l.evicted[e] || e in l.queue
  }

  /** After any run, a request is accepted exactly when the event it needs is available: received and neither spent nor
      evicted, or queued. It then spends exactly that event. */
  lemma AskIsExact(steps: seq<Step>, capacity: nat, client: nat, expected: nat)
    requires 0 < capacity
    ensures var l, e := Run(OPENING, steps, capacity), Event(AUTHORIZATION, client, expected);
            Apply(l, Ask(client, expected), capacity).spent
            == if Available(l, e) then l.spent + multiset{e} else l.spent
  {
    hide Authorize;
    var l, e := Run(OPENING, steps, capacity), Event(AUTHORIZATION, client, expected);
    RunsBalance(steps, capacity);
    AuthorizeIsExact(l.pending, l.queue, capacity, client, expected);
    AvailableIsHeld(l, capacity, e);
    MatchIsEvent(l.pending + l.queue, client, expected);
    var r := Authorize(l.pending, l.queue, capacity, client, expected);
    if r.spent != [] { assert r.spent == [e]; }
  }

  lemma MatchIsEvent(s: seq<Event>, client: nat, expected: nat)
    ensures AnyMatches(s, client, expected) <==> Event(AUTHORIZATION, client, expected) in s
  {
    assert forall e :: Matches(e, client, expected) <==> e == Event(AUTHORIZATION, client, expected);
  }

  lemma AvailableIsHeld(l: Ledger, capacity: nat, e: Event)
    requires Balanced(l, capacity)
    ensures Available(l, e) <==> e in l.pending + l.queue
  {
    hide Subsequence;
    assert e in l.pending <==> multiset(l.pending)[e] > 0;
  }

  /** The events received and not spent are no more than there is room for. */
  ghost predicate Roomy(l: Ledger, capacity: nat) {
    |l.received| <= |l.spent| + capacity
  }

  lemma {:induction false} RunSnoc(l: Ledger, steps: seq<Step>, step: Step, capacity: nat)
    requires 0 < capacity
    ensures Run(l, steps + [step], capacity) == Apply(Run(l, steps, capacity), step, capacity)
    decreases |steps|
  {
    hide Apply;
    if steps == [] {
      assert ([] + [step])[1..] == [];
    } else {
      assert (steps + [step])[1..] == steps[1..] + [step];
      RunSnoc(Apply(l, steps[0], capacity), steps[1..], step, capacity);
    }
  }

  /** A step evicts something exactly if more is held afterwards than there is room for. */
  lemma StepEvicts(l: Ledger, step: Step, capacity: nat)
    requires 0 < capacity && Balanced(l, capacity) && l.evicted == multiset{}
    ensures var after := Apply(l, step, capacity); after.evicted == multiset{} <==> Roomy(after, capacity)
  {
    hide Authorize, Subsequence;
    assert |multiset(l.received)| == |l.received| && |multiset(l.pending)| == |l.pending|;
    if step.Ask? {
      AuthorizeEvictsLast(l.pending, l.queue, capacity, step.client, step.expected);
      var r := Authorize(l.pending, l.queue, capacity, step.client, step.expected);
      assert |l.received + r.received| == |l.received| + |r.received|;
      assert |multiset(r.spent)| == |r.spent| && |multiset(r.evicted)| == |r.evicted|;
      assert |l.spent + multiset(r.spent)| == |l.spent| + |r.spent|;
      assert |l.evicted + multiset(r.evicted)| == |r.evicted|;
    }
  }

  lemma StepKeepsEvicted(l: Ledger, step: Step, capacity: nat)
    requires 0 < capacity
    ensures Apply(l, step, capacity).evicted == multiset{} ==> l.evicted == multiset{}
  {
    hide Authorize;
    if l.evicted != multiset{} {
      var e :| e in l.evicted;
      assert e in Apply(l, step, capacity).evicted;
    }
  }

  /** Nothing is evicted over a run if and only if at no point more events were held than there is room for. */
  lemma {:induction false} EvictsOnlyWhenFull(steps: seq<Step>, capacity: nat)
    requires 0 < capacity
    ensures Run(OPENING, steps, capacity).evicted == multiset{}
            <==> forall n :: 0 <= n <= |steps| ==> Roomy(Run(OPENING, steps[..n], capacity), capacity)
    decreases |steps|
  {
    hide Roomy, Apply, Balanced, Run;
    assert steps[..|steps|] == steps;
    if steps == [] {
      OpeningIsRoomy(capacity);
    } else {
      var m := |steps| - 1;
      var before := Run(OPENING, steps[..m], capacity);
      assert steps == steps[..m] + [steps[m]];
      RunSnoc(OPENING, steps[..m], steps[m], capacity);
      RunsBalance(steps[..m], capacity);
      EvictsOnlyWhenFull(steps[..m], capacity);
      forall n | 0 <= n <= m ensures steps[..m][..n] == steps[..n] {}
      StepKeepsEvicted(before, steps[m], capacity);
      if before.evicted == multiset{} { StepEvicts(before, steps[m], capacity); }
    }
  }

  lemma OpeningIsRoomy(capacity: nat)
    requires 0 < capacity
    ensures var l := Run(OPENING, [], capacity); l.evicted == multiset{} && Roomy(l, capacity)
  {
  }

  // ---- the event buffer of PID 1 ------------------------------------------------------------------

  /** The buffer of pending events, shifted in place, and the event queue of the kernel. */
  class Authorizer {
    const events: array<Event>
    var count: nat
    var queue: seq<Event>

    ghost predicate Valid() reads this {
      0 < events.Length && count <= events.Length
    }

    ghost function Pending(): seq<Event>
      reads this, events
      requires Valid()
    {
      events[..count]
    }

    constructor (capacity: nat)
      requires capacity > 0
      ensures Valid() && fresh(events) && events.Length == capacity && Pending() == [] && queue == []
    {
      events := new Event[capacity](_ => Event(0, 0, 0));
      count, queue := 0, [];
    }

    /** Close the gap at index `i`. */
    method Remove(i: nat)
      requires Valid() && i < count
      modifies this`count, events
      ensures Valid() && Pending() == Without(old(Pending()), i)
    {
      ghost var was := events[..count];
      var j := i + 1;
      while j < count
        invariant i < j <= count
        invariant forall k :: 0 <= k < i ==> events[k] == was[k]
        invariant forall k :: i <= k < j - 1 ==> events[k] == was[k + 1]
        invariant forall k :: j <= k < count ==> events[k] == was[k]
        modifies events
      {
        events[j - 1] := events[j];
        j := j + 1;
      }
      count := count - 1;
      assert Pending() == Without(was, i);
    }

    method AuthorizeRequest(client: nat, expected: nat) returns (accepted: bool)
      requires Valid()
      modifies this`count, this`queue, events
      ensures Valid()
      ensures var r := Authorize(old(Pending()), old(queue), events.Length, client, expected);
              Pending() == r.pending && queue == r.queue && accepted == (r.spent != [])
    {
      var i := 0;
      while i < count
        invariant i <= count && forall j :: 0 <= j < i ==> !Matches(events[j], client, expected)
      {
        if Matches(events[i], client, expected) {
          FirstMatchIsFirst(Pending(), client, expected, i);
          Remove(i);
          return true;
        }
        i := i + 1;
      }
      FirstMatchIsFirst(Pending(), client, expected, i);
      accepted := ReceiveEvents(client, expected);
    }

    method ReceiveEvents(client: nat, expected: nat) returns (accepted: bool)
      requires Valid()
      modifies this`count, this`queue, events
      ensures Valid()
      ensures var r := Receive(old(Pending()), old(queue), events.Length, client, expected);
              Pending() == r.pending && queue == r.queue && accepted == (r.spent != [])
    {
      ghost var all := Receive(Pending(), queue, events.Length, client, expected);
      while queue != []
        invariant Valid()
        invariant var r := Receive(Pending(), queue, events.Length, client, expected);
                  r.pending == all.pending && r.queue == all.queue && r.spent == all.spent
        decreases |queue|
      {
        var event := queue[0];
        queue := queue[1..];
        if Matches(event, client, expected) { return true; }
        if event.kind == AUTHORIZATION { Keep(event); }
      }
      return false;
    }

    method Keep(event: Event)
      requires Valid()
      modifies this`count, events
      ensures Valid() && Pending() == Kept(old(Pending()), event, events.Length)
    {
      ghost var was := Pending();
      if count == events.Length {
        Remove(0);
        assert Without(was, 0) == was[1..];
      }
      events[count] := event;
      count := count + 1;
      assert Pending()[..count - 1] + [event] == Pending();
    }
  }
}
