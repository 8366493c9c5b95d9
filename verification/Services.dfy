/** The service manager of PID 1: dependency-chained start, exit handling with restart policy and start limit. */
module Services {
  import opened Basics

  const MAX_SERVICES := 24
  const MAX_AUTOMATIC_STARTS := 8

  datatype RestartPolicy = Never | OnFailure | Always

  datatype ServiceType = Simple | Oneshot

  /** What a service file says; an empty `after` means no dependency. */
  datatype Definition = Definition(
    name: string, after: string, restart: RestartPolicy, kind: ServiceType, enabled: bool)

  /** The part of a service record that changes. A service runs exactly while its pid is not zero. */
  datatype Status = Status(desired: bool, restartRequested: bool, completed: bool, pid: nat, exitCode: nat, starts: nat)

  const IDLE := Status(false, false, false, 0, 0, 0)

  /** What spawning each service would give in the course of one call: a process id, or a failure. */
  type Spawns = nat -> Option<nat>

  /** The index of the first service of this name, or the number of services. */
  function Find(defs: seq<Definition>, name: string): (i: nat)
    ensures i <= |defs| && (i < |defs| ==> defs[i].name == name)
  {
    if defs == [] || defs[0].name == name then 0 else 1 + Find(defs[1..], name)
  }

  lemma {:induction false} FindIsFirst(defs: seq<Definition>, name: string, i: nat)
    requires i <= |defs| && (forall j :: 0 <= j < i ==> defs[j].name != name)
    requires i < |defs| ==> defs[i].name == name
    ensures Find(defs, name) == i
  {
    if i > 0 { FindIsFirst(defs[1..], name, i - 1); }
  }

  // ---- loading -------------------------------------------------------------------

  ghost predicate UniqueNames(defs: seq<Definition>) {
    forall i, j :: 0 <= i < j < |defs| ==> defs[i].name != defs[j].name
  }

  /** The definitions kept from a directory: the first valid one of each name, in order, while there is room. */
  function Loaded(entries: seq<Option<Definition>>): (defs: seq<Definition>)
    ensures |defs| <= MAX_SERVICES
  {
    if entries == [] then []
    else
      var n := |entries| - 1;
      var before := Loaded(entries[..n]);
      if entries[n].Some? && |before| < MAX_SERVICES && Find(before, entries[n].value.name) == |before|
      then before + [entries[n].value] else before
  }

  lemma {:induction false} NameAbsent(defs: seq<Definition>, name: string)
    ensures Find(defs, name) == |defs| <==> forall i :: 0 <= i < |defs| ==> defs[i].name != name
  {
    if defs != [] {
      NameAbsent(defs[1..], name);
      assert defs == [defs[0]] + defs[1..];
    }
  }

  /** No two loaded services have the same name. */
  lemma {:induction false} LoadedIsUnique(entries: seq<Option<Definition>>)
    ensures UniqueNames(Loaded(entries))
  {
    if entries != [] {
      var n := |entries| - 1;
      LoadedIsUnique(entries[..n]);
      if entries[n].Some? { NameAbsent(Loaded(entries[..n]), entries[n].value.name); }
    }
  }

  /** While there is room, every valid definition has its name loaded. */
  lemma {:induction false} LoadedHasName(entries: seq<Option<Definition>>, k: nat)
    requires k < |entries| && entries[k].Some?
    ensures |Loaded(entries)| == MAX_SERVICES || exists d :: d in Loaded(entries) && d.name == entries[k].value.name
    decreases |entries|
  {
    var n := |entries| - 1;
    var before := Loaded(entries[..n]);
    if k < n {
      assert entries[..n][k] == entries[k];
      LoadedHasName(entries[..n], k);
      if |before| < MAX_SERVICES {
        var d :| d in before && d.name == entries[k].value.name;
        assert d in Loaded(entries);
      }
    } else {
      NameAbsent(before, entries[k].value.name);
      assert entries[k].value in before + [entries[k].value];
      if Find(before, entries[k].value.name) < |before| {
        assert before[Find(before, entries[k].value.name)] in Loaded(entries);
      }
    }
  }

  /** The definitions among the entries of a directory. */
  function Definitions(entries: seq<Option<Definition>>): seq<Definition> {
    if entries == [] then []
    else
      var n := |entries| - 1;
      Definitions(entries[..n]) + if entries[n].Some? then [entries[n].value] else []
  }

  /** The loaded services are valid definitions of the directory, in its order. */
  lemma {:induction false} LoadedInOrder(entries: seq<Option<Definition>>)
    ensures Subsequence(Loaded(entries), Definitions(entries))
  {
    hide Subsequence;
    if entries == [] {
      NoneInNone();
    } else {
      var n := |entries| - 1;
      LoadedInOrder(entries[..n]);
      if entries[n].Some? {
        SubsequenceAppend(Loaded(entries[..n]), Definitions(entries[..n]), entries[n].value);
      } else {
        assert Definitions(entries[..n]) + [] == Definitions(entries[..n]);
      }
    }
  }

  lemma NoneInNone()
    ensures Subsequence<Definition>([], [])
  {
  }

  /** Of several definitions of one name the first is loaded. */
  lemma {:induction false} LoadedIsFirst(entries: seq<Option<Definition>>, k: nat)
    requires k < |entries| && entries[k].Some?
    requires forall j :: 0 <= j < k && entries[j].Some? ==> entries[j].value.name != entries[k].value.name
    ensures |Loaded(entries)| == MAX_SERVICES || entries[k].value in Loaded(entries)
    decreases |entries|
  {
    var n := |entries| - 1;
    var before := Loaded(entries[..n]);
    if k < n {
      assert entries[..n][k] == entries[k];
      LoadedIsFirst(entries[..n], k);
    } else {
      NameAbsent(before, entries[k].value.name);
      forall i | 0 <= i < |before| ensures before[i].name != entries[k].value.name {
        LoadedIsEntry(entries[..n], before[i]);
      }
      assert (before + [entries[k].value])[|before|] == entries[k].value;
    }
  }

  lemma {:induction false} LoadedIsEntry(entries: seq<Option<Definition>>, d: Definition)
    requires d in Loaded(entries)
    ensures exists j :: 0 <= j < |entries| && entries[j] == Some(d)
  {
    var n := |entries| - 1;
    if d in Loaded(entries[..n]) {
      LoadedIsEntry(entries[..n], d);
      var j :| 0 <= j < n && entries[..n][j] == Some(d);
      assert entries[j] == Some(d);
    } else {
      assert entries[n] == Some(d);
    }
  }

  method LoadServices(entries: seq<Option<Definition>>) returns (defs: seq<Definition>)
    ensures defs == Loaded(entries)
  {
    defs := [];
    var i := 0;
    while |defs| < MAX_SERVICES && i < |entries|
      invariant i <= |entries| && defs == Loaded(entries[..i])
    {
      assert entries[..i + 1][..i] == entries[..i];
      if entries[i].Some? && Find(defs, entries[i].value.name) == |defs| {
        defs := defs + [entries[i].value];
      }
      i := i + 1;
    }
    FullStaysFull(entries, i);
    assert entries[..|entries|] == entries;
  }

  lemma {:induction false} FullStaysFull(entries: seq<Option<Definition>>, i: nat)
    requires i <= |entries|
    ensures |Loaded(entries[..i])| == MAX_SERVICES ==> Loaded(entries) == Loaded(entries[..i])
    decreases |entries|
  {
    if i < |entries| {
      var n := |entries| - 1;
      FullStaysFull(entries[..n], i);
      assert entries[..n][..i] == entries[..i];
    } else {
      assert entries[..i] == entries;
    }
  }

  // ---- dependency chains -----------------------------------------------------------

  /** Following `after` over stopped services, one that is running or has no dependency is reached in exactly `k`
      hops. */
  predicate Hops(defs: seq<Definition>, t: seq<Status>, i: nat, k: nat)
    requires |t| == |defs|
    decreases k
  {
    i < |defs| &&
    if k == 0 then t[i].pid != 0 || defs[i].after == ""
    else t[i].pid == 0 && defs[i].after != "" && Hops(defs, t, Find(defs, defs[i].after), k - 1)
  }

  ghost predicate Startable(defs: seq<Definition>, t: seq<Status>, i: nat)
    requires |t| == |defs|
  {
    exists k: nat :: Hops(defs, t, i, k)
  }

  /** The table as loaded: nothing has run. */
  function Idle(n: nat): (t: seq<Status>)
    ensures |t| == n
  {
    seq(n, i => IDLE)
  }

  /** The chain of `i` ends at a service without a dependency: it neither dangles nor cycles. */
  ghost predicate Grounded(defs: seq<Definition>, i: nat) {
    Startable(defs, Idle(|defs|), i)
  }

  lemma {:induction false} HopsAreUnique(defs: seq<Definition>, t: seq<Status>, i: nat, k: nat, m: nat)
    requires |t| == |defs| && Hops(defs, t, i, k) && Hops(defs, t, i, m)
    ensures k == m
    decreases k
  {
    if k > 0 && m > 0 { HopsAreUnique(defs, t, Find(defs, defs[i].after), k - 1, m - 1); }
  }

  /** The services of a chain, in order. */
  function Chain(defs: seq<Definition>, t: seq<Status>, i: nat, k: nat): (c: seq<nat>)
    requires |t| == |defs| && Hops(defs, t, i, k)
    ensures |c| == k + 1
    decreases k
  {
    if k == 0 then [i] else [i] + Chain(defs, t, Find(defs, defs[i].after), k - 1)
  }

  lemma {:induction false} ChainAt(defs: seq<Definition>, t: seq<Status>, i: nat, k: nat, j: nat)
    requires |t| == |defs| && Hops(defs, t, i, k) && j <= k
    ensures Hops(defs, t, Chain(defs, t, i, k)[j], k - j)
    decreases k
  {
    if j > 0 { ChainAt(defs, t, Find(defs, defs[i].after), k - 1, j - 1); }
  }

  function Below(n: nat): set<nat> {
    if n == 0 then {} else Below(n - 1) + {n - 1}
  }

  lemma {:induction false} BelowSize(n: nat)
    ensures |Below(n)| == n && forall x: nat :: x in Below(n) <==> x < n
  {
    if n > 0 { BelowSize(n - 1); }
  }

  function Elements(s: seq<nat>): set<nat> {
    if s == [] then {} else {s[0]} + Elements(s[1..])
  }

  lemma {:induction false} DistinctSize(s: seq<nat>, n: nat)
    requires forall j :: 0 <= j < |s| ==> s[j] < n
    requires forall j, k :: 0 <= j < k < |s| ==> s[j] != s[k]
    ensures |Elements(s)| == |s| && (forall x :: x in Elements(s) <==> x in s)
  {
    if s != [] {
      DistinctSize(s[1..], n);
      assert s == [s[0]] + s[1..];
    }
  }

  lemma Pigeonhole(s: seq<nat>, n: nat)
    requires forall j :: 0 <= j < |s| ==> s[j] < n
    requires forall j, k :: 0 <= j < k < |s| ==> s[j] != s[k]
    ensures |s| <= n
  {
    BelowSize(n);
    DistinctSize(s, n);
    assert Elements(s) <= Below(n);
    assert Below(n) == Elements(s) + (Below(n) - Elements(s));
  }

  /** A chain visits no service twice, so it has fewer hops than there are services. */
  lemma ChainIsShort(defs: seq<Definition>, t: seq<Status>, i: nat, k: nat)
    requires |t| == |defs| && Hops(defs, t, i, k)
    ensures k < |defs|
  {
    var c := Chain(defs, t, i, k);
    forall j | 0 <= j < |c| ensures c[j] < |defs| { ChainAt(defs, t, i, k, j); }
    forall j, m | 0 <= j < m < |c| ensures c[j] != c[m] {
      ChainAt(defs, t, i, k, j);
      ChainAt(defs, t, i, k, m);
      if c[j] == c[m] { HopsAreUnique(defs, t, c[j], k - j, k - m); }
    }
    Pigeonhole(c, |defs|);
  }

  // ---- starting -----------------------------------------------------------------------

  function Spawned(s: Status, pid: nat): Status {
    s.(pid := pid, desired := true, restartRequested := false, completed := false, starts := s.starts + 1)
  }

  /** Start the dependency first, then spawn; give up at the first failure, keeping what was started. */
  function Start(defs: seq<Definition>, t: seq<Status>, i: nat, depth: nat, spawns: Spawns): (r: (seq<Status>, bool))
    requires |t| == |defs| && i < |defs|
    ensures |r.0| == |t|
    decreases MAX_SERVICES - depth
  {
    if t[i].pid != 0 then (t[i := t[i].(desired := true)], true)
    else if depth >= MAX_SERVICES then (t, false)
    else
      var (t1, ready) := StartDependency(defs, t, i, depth, spawns);
      if !ready || spawns(i).None? then (t1, false)
      else (t1[i := Spawned(t1[i], spawns(i).value)], true)
  }

  function StartDependency(defs: seq<Definition>, t: seq<Status>, i: nat, depth: nat, spawns: Spawns)
    : (r: (seq<Status>, bool))
    requires |t| == |defs| && i < |defs| && depth < MAX_SERVICES
    ensures |r.0| == |t|
    decreases MAX_SERVICES - depth, 0
  {
    var d := Find(defs, defs[i].after);
    if defs[i].after == "" then (t, true)
    else if d == |defs| then (t, false)
    else Start(defs, t, d, depth + 1, spawns)
  }

  /** A service whose chain dangles or cycles is never started, and trying changes nothing. */
  lemma {:induction false} UnstartableChangesNothing(
    defs: seq<Definition>, t: seq<Status>, i: nat, depth: nat, spawns: Spawns)
    requires |t| == |defs| && i < |defs|
    ensures Startable(defs, t, i) || Start(defs, t, i, depth, spawns) == (t, false)
    decreases MAX_SERVICES - depth
  {
    var d := Find(defs, defs[i].after);
    if t[i].pid != 0 || defs[i].after == "" {
      assert Hops(defs, t, i, 0);
    } else if depth < MAX_SERVICES && d < |defs| {
      UnstartableChangesNothing(defs, t, d, depth + 1, spawns);
      if Startable(defs, t, d) {
        var k: nat :| Hops(defs, t, d, k);
        assert Hops(defs, t, i, k + 1);
      }
    }
  }

  /** Every stopped service of the chain of `k` hops is spawned when it is tried. */
  predicate ChainSpawns(defs: seq<Definition>, t: seq<Status>, i: nat, k: nat, spawns: Spawns)
    requires |t| == |defs| && Hops(defs, t, i, k)
    decreases k
  {
    t[i].pid != 0 ||
    (spawns(i).Some? && (k > 0 ==> ChainSpawns(defs, t, Find(defs, defs[i].after), k - 1, spawns)))
  }

  /** Whatever chain service `i` has, spawning succeeds on all of it. */
  ghost predicate SpawnsOnChain(defs: seq<Definition>, t: seq<Status>, i: nat, spawns: Spawns)
    requires |t| == |defs|
  {
    forall k: nat :: Hops(defs, t, i, k) ==> ChainSpawns(defs, t, i, k, spawns)
  }

  /** A chain that fits the depth left is started exactly if all of it can be spawned. */
  lemma {:induction false} ChainStarts(
    defs: seq<Definition>, t: seq<Status>, i: nat, k: nat, depth: nat, spawns: Spawns)
    requires |t| == |defs| && Hops(defs, t, i, k) && depth + k < MAX_SERVICES
    ensures Start(defs, t, i, depth, spawns).1 <==> ChainSpawns(defs, t, i, k, spawns)
    decreases k
  {
    if k > 0 { ChainStarts(defs, t, Find(defs, defs[i].after), k - 1, depth + 1, spawns); }
  }

  /** Starting succeeds exactly if the chain ends well and spawning succeeds on it: the depth bound never interferes. */
  lemma StartIsExact(defs: seq<Definition>, t: seq<Status>, i: nat, spawns: Spawns)
    requires |t| == |defs| <= MAX_SERVICES && i < |defs|
    ensures Start(defs, t, i, 0, spawns).1 <==> Startable(defs, t, i) && SpawnsOnChain(defs, t, i, spawns)
  {
    hide ChainSpawns, Start;
    UnstartableChangesNothing(defs, t, i, 0, spawns);
    if Startable(defs, t, i) {
      var k: nat :| Hops(defs, t, i, k);
      ChainIsShort(defs, t, i, k);
      ChainStarts(defs, t, i, k, 0, spawns);
      forall m: nat | Hops(defs, t, i, m) ensures m == k { HopsAreUnique(defs, t, i, k, m); }
    }
  }

  /** If spawning never fails, it succeeds on every chain. */
  lemma {:induction false} AllSpawn(defs: seq<Definition>, t: seq<Status>, i: nat, k: nat, spawns: Spawns)
    requires |t| == |defs| && Hops(defs, t, i, k) && forall j :: spawns(j).Some?
    ensures ChainSpawns(defs, t, i, k, spawns)
    decreases k
  {
    if k > 0 { AllSpawn(defs, t, Find(defs, defs[i].after), k - 1, spawns); }
  }

  /** What starting may do to one service: leave it, want it, or spawn it once if it was stopped. */
  predicate Touched(a: Status, b: Status, spawn: Option<nat>) {
    || b == a
    || (a.pid != 0 && b == a.(desired := true))
    || (a.pid == 0 && spawn.Some? && b == Spawned(a, spawn.value))
  }

  /** Service `j` is at most `k` hops from the end of its own chain. */
  ghost predicate Within(defs: seq<Definition>, t: seq<Status>, j: nat, k: nat)
    requires |t| == |defs|
  {
    exists m: nat :: m <= k && Hops(defs, t, j, m)
  }

  lemma HopsIsWithin(defs: seq<Definition>, t: seq<Status>, i: nat, k: nat)
    requires |t| == |defs| && Hops(defs, t, i, k)
    ensures Within(defs, t, i, k)
  {
  }

  /** Starting touches only services on the chain. */
  lemma {:induction false} StartStaysOnChain(
    defs: seq<Definition>, t: seq<Status>, i: nat, k: nat, depth: nat, spawns: Spawns, j: nat)
    requires |t| == |defs| && j < |t| && Hops(defs, t, i, k)
    ensures Start(defs, t, i, depth, spawns).0[j] == t[j] || Within(defs, t, j, k)
    decreases k
  {
    if j == i {
      HopsIsWithin(defs, t, j, k);
    } else if k > 0 && depth < MAX_SERVICES {
      StartStaysOnChain(defs, t, Find(defs, defs[i].after), k - 1, depth + 1, spawns, j);
    }
  }

  /** A stopped service is not touched by starting what it depends on. */
  lemma DependencyLeavesAlone(
    defs: seq<Definition>, t: seq<Status>, i: nat, k: nat, depth: nat, spawns: Spawns)
    requires |t| == |defs| && Hops(defs, t, i, k) && t[i].pid == 0 && depth < MAX_SERVICES
    ensures StartDependency(defs, t, i, depth, spawns).0[i] == t[i]
  {
    if k > 0 {
      StartStaysOnChain(defs, t, Find(defs, defs[i].after), k - 1, depth + 1, spawns, i);
      if m: nat :| m <= k - 1 && Hops(defs, t, i, m) { HopsAreUnique(defs, t, i, k, m); }
    }
  }

  lemma {:induction false} StartTouches(
    defs: seq<Definition>, t: seq<Status>, i: nat, depth: nat, spawns: Spawns, j: nat)
    requires |t| == |defs| && j < |t| && i < |defs|
    ensures Touched(t[j], Start(defs, t, i, depth, spawns).0[j], spawns(j))
    decreases MAX_SERVICES - depth
  {
    UnstartableChangesNothing(defs, t, i, depth, spawns);
    if t[i].pid == 0 && depth < MAX_SERVICES && Startable(defs, t, i) {
      var k: nat :| Hops(defs, t, i, k);
      DependencyLeavesAlone(defs, t, i, k, depth, spawns);
      var d := Find(defs, defs[i].after);
      if defs[i].after != "" && d < |defs| { StartTouches(defs, t, d, depth + 1, spawns, j); }
    }
  }

  /** The chain of a service is on it once, so no later member of it is the service itself. */
  lemma ChainLeavesHead(defs: seq<Definition>, t: seq<Status>, i: nat, k: nat, j: nat)
    requires |t| == |defs| && Hops(defs, t, i, k) && 0 < j <= k
    ensures Chain(defs, t, i, k)[j] != i
  {
    ChainAt(defs, t, i, k, j);
    if Chain(defs, t, i, k)[j] == i { HopsAreUnique(defs, t, i, k, k - j); }
  }

  /** What a start does to a member of the chain: a running one is wanted, a stopped one is spawned once if it and all
      it depends on can be spawned, and otherwise left alone. */
  predicate StartedAs(a: Status, b: Status, all: bool, spawn: Option<nat>) {
    if a.pid != 0 then b == a.(desired := true)
    else if all && spawn.Some? then
      b == Status(true, false, false, spawn.value, a.exitCode, a.starts + 1)
    else b == a
  }

  /** The table after a start, for every member of the chain. */
  lemma {:induction false} StartedChain(
    defs: seq<Definition>, t: seq<Status>, i: nat, k: nat, depth: nat, spawns: Spawns, j: nat)
    requires |t| == |defs| && Hops(defs, t, i, k) && depth + k < MAX_SERVICES && j <= k
    ensures var c := Chain(defs, t, i, k)[j];
            && Hops(defs, t, c, k - j)
            && StartedAs(t[c], Start(defs, t, i, depth, spawns).0[c], ChainSpawns(defs, t, c, k - j, spawns), spawns(c))
    decreases k
  {
    hide StartedAs, ChainSpawns;
    if j == 0 {
      StartedHead(defs, t, i, k, depth, spawns);
    } else {
      ChainLeavesHead(defs, t, i, k, j);
      StartedChain(defs, t, Find(defs, defs[i].after), k - 1, depth + 1, spawns, j - 1);
    }
  }

  lemma StartedHead(defs: seq<Definition>, t: seq<Status>, i: nat, k: nat, depth: nat, spawns: Spawns)
    requires |t| == |defs| && Hops(defs, t, i, k) && depth + k < MAX_SERVICES
    ensures StartedAs(t[i], Start(defs, t, i, depth, spawns).0[i], ChainSpawns(defs, t, i, k, spawns), spawns(i))
  {
    if t[i].pid == 0 {
      DependencyLeavesAlone(defs, t, i, k, depth, spawns);
      ChainStarts(defs, t, i, k, depth, spawns);
    }
  }

  /** Nothing else changes. */
  lemma {:induction false} StartLeavesOthers(
    defs: seq<Definition>, t: seq<Status>, i: nat, k: nat, depth: nat, spawns: Spawns, x: nat)
    requires |t| == |defs| && Hops(defs, t, i, k) && x < |t| && x !in Chain(defs, t, i, k)
    ensures Start(defs, t, i, depth, spawns).0[x] == t[x]
    decreases k
  {
    assert Chain(defs, t, i, k)[0] == i;
    if k > 0 && depth < MAX_SERVICES {
      StartLeavesOthers(defs, t, Find(defs, defs[i].after), k - 1, depth + 1, spawns, x);
    }
  }

  lemma {:induction false} ChainSpawnsOn(defs: seq<Definition>, t: seq<Status>, i: nat, k: nat, spawns: Spawns, j: nat)
    requires |t| == |defs| && Hops(defs, t, i, k) && j <= k && ChainSpawns(defs, t, i, k, spawns)
    ensures var c := Chain(defs, t, i, k)[j]; Hops(defs, t, c, k - j) && ChainSpawns(defs, t, c, k - j, spawns)
    decreases k
  {
    if j > 0 { ChainSpawnsOn(defs, t, Find(defs, defs[i].after), k - 1, spawns, j - 1); }
  }

  /** When a start succeeds, the service and all it depends on run and are wanted. */
  lemma DependenciesRun(defs: seq<Definition>, t: seq<Status>, i: nat, k: nat, spawns: Spawns, j: nat)
    requires |t| == |defs| <= MAX_SERVICES && Hops(defs, t, i, k) && j <= k
    requires forall x :: spawns(x).Some? ==> spawns(x).value != 0
    ensures var r, c := Start(defs, t, i, 0, spawns), Chain(defs, t, i, k)[j];
            c < |t| && (r.1 ==> r.0[c].pid != 0 && r.0[c].desired)
  {
    hide Start;
    ChainIsShort(defs, t, i, k);
    StartedChain(defs, t, i, k, 0, spawns, j);
    ChainStarts(defs, t, i, k, 0, spawns);
    if ChainSpawns(defs, t, i, k, spawns) { ChainSpawnsOn(defs, t, i, k, spawns, j); }
  }

  /** A started service runs. */
  lemma StartedRuns(defs: seq<Definition>, t: seq<Status>, i: nat, depth: nat, spawns: Spawns)
    requires |t| == |defs| && i < |defs| && forall j :: spawns(j).Some? ==> spawns(j).value != 0
    ensures Start(defs, t, i, depth, spawns).1 ==> Start(defs, t, i, depth, spawns).0[i].pid != 0
  {
  }

  // ---- what every table of services keeps -----------------------------------------------

  /** A running service is grounded; a completed one is a oneshot that has exited with success. */
  ghost predicate SoundAt(defs: seq<Definition>, i: nat, s: Status)
    requires i < |defs|
  {
    && (s.pid != 0 ==> Grounded(defs, i))
    && (s.completed ==> s.pid == 0 && defs[i].kind == Oneshot && s.exitCode == 0)
  }

  ghost predicate DistinctPids(t: seq<Status>) {
    forall i, j :: 0 <= i < j < |t| && t[i].pid != 0 ==> t[i].pid != t[j].pid
  }

  ghost predicate Sound(defs: seq<Definition>, t: seq<Status>) {
    && |t| == |defs|
    && (forall i :: 0 <= i < |t| ==> SoundAt(defs, i, t[i]))
    && DistinctPids(t)
  }

  /** The kernel gives out process ids that are not zero, not in use, and different from each other. */
  ghost predicate FreshSpawns(t: seq<Status>, spawns: Spawns) {
    && (forall i :: spawns(i).Some? ==> spawns(i).value != 0)
    && (forall i, j :: spawns(i).Some? && 0 <= j < |t| ==> t[j].pid != spawns(i).value)
    && (forall i, j :: spawns(i).Some? && spawns(j).Some? && i != j ==> spawns(i).value != spawns(j).value)
  }

  lemma IdleIsSound(defs: seq<Definition>)
    ensures Sound(defs, Idle(|defs|))
  {
  }

  /** In a sound table the services that can be started are the grounded ones. */
  lemma {:induction false} GroundedIsStartable(defs: seq<Definition>, t: seq<Status>, i: nat, k: nat)
    requires Sound(defs, t) && Hops(defs, Idle(|defs|), i, k)
    ensures Startable(defs, t, i)
    decreases k
  {
    if t[i].pid != 0 || k == 0 {
      assert Hops(defs, t, i, 0);
    } else {
      var d := Find(defs, defs[i].after);
      GroundedIsStartable(defs, t, d, k - 1);
      var m: nat :| Hops(defs, t, d, m);
      assert Hops(defs, t, i, m + 1);
    }
  }

  lemma {:induction false} StartableIsGrounded(defs: seq<Definition>, t: seq<Status>, i: nat, k: nat)
    requires Sound(defs, t) && Hops(defs, t, i, k)
    ensures Grounded(defs, i)
    decreases k
  {
    if t[i].pid != 0 {
      assert SoundAt(defs, i, t[i]);
    } else if k == 0 {
      assert Hops(defs, Idle(|defs|), i, 0);
    } else {
      var d := Find(defs, defs[i].after);
      StartableIsGrounded(defs, t, d, k - 1);
      var m: nat :| Hops(defs, Idle(|defs|), d, m);
      assert Hops(defs, Idle(|defs|), i, m + 1);
    }
  }

  /** In a sound table starting succeeds exactly for the grounded services on whose chain spawning succeeds. */
  lemma StartsExactlyGrounded(defs: seq<Definition>, t: seq<Status>, i: nat, spawns: Spawns)
    requires Sound(defs, t) && |defs| <= MAX_SERVICES && i < |defs|
    ensures Start(defs, t, i, 0, spawns).1 <==> Grounded(defs, i) && SpawnsOnChain(defs, t, i, spawns)
  {
    hide Start, SpawnsOnChain;
    StartIsExact(defs, t, i, spawns);
    if Grounded(defs, i) {
      var k: nat :| Hops(defs, Idle(|defs|), i, k);
      GroundedIsStartable(defs, t, i, k);
    }
    if Startable(defs, t, i) {
      var k: nat :| Hops(defs, t, i, k);
      StartableIsGrounded(defs, t, i, k);
    }
  }

  /** Whatever starting touches is grounded. */
  lemma StartTouchesGrounded(defs: seq<Definition>, t: seq<Status>, i: nat, spawns: Spawns, j: nat)
    requires Sound(defs, t) && i < |defs| && j < |defs|
    ensures Start(defs, t, i, 0, spawns).0[j] == t[j] || Grounded(defs, j)
  {
    UnstartableChangesNothing(defs, t, i, 0, spawns);
    if Startable(defs, t, i) {
      var k: nat :| Hops(defs, t, i, k);
      StartStaysOnChain(defs, t, i, k, 0, spawns, j);
      if m: nat :| m <= k && Hops(defs, t, j, m) { StartableIsGrounded(defs, t, j, m); }
    }
  }

  lemma StartKeepsDistinct(t: seq<Status>, u: seq<Status>, spawns: Spawns)
    requires DistinctPids(t) && FreshSpawns(t, spawns) && |u| == |t|
    requires forall j :: 0 <= j < |t| ==> Touched(t[j], u[j], spawns(j))
    ensures DistinctPids(u)
  {
    forall i, j | 0 <= i < j < |u| && u[i].pid != 0 ensures u[i].pid != u[j].pid {
      assert Touched(t[i], u[i], spawns(i)) && Touched(t[j], u[j], spawns(j));
    }
  }

  lemma StartKeepsSound(defs: seq<Definition>, t: seq<Status>, i: nat, spawns: Spawns)
    requires Sound(defs, t) && i < |defs| && FreshSpawns(t, spawns)
    ensures Sound(defs, Start(defs, t, i, 0, spawns).0)
  {
    var u := Start(defs, t, i, 0, spawns).0;
    forall j | 0 <= j < |t| ensures Touched(t[j], u[j], spawns(j)) && SoundAt(defs, j, u[j]) {
      StartTouches(defs, t, i, 0, spawns, j);
      StartTouchesGrounded(defs, t, i, spawns, j);
      assert SoundAt(defs, j, t[j]);
    }
    StartKeepsDistinct(t, u, spawns);
  }

  // ---- exits ---------------------------------------------------------------------------------

  /** The kernel reports an exit as one word: the process id above the 16-bit exit code. */
  function ExitPid(result: nat): nat {
    result % 0x1_0000_0000 / 0x1_0000
  }

  function ExitCode(result: nat): nat {
    result % 0x1_0000
  }

  /** Both are read back from the word. */
  lemma ExitRoundTrip(pid: nat, code: nat)
    requires pid < 0x1_0000 && code < 0x1_0000
    ensures ExitPid(0x1_0000 * pid + code) == pid && ExitCode(0x1_0000 * pid + code) == code
  {
  }

  /** The index of the first service with this process id, or the number of services. */
  function FindPid(t: seq<Status>, pid: nat): (i: nat)
    ensures i <= |t| && (i < |t| ==> t[i].pid == pid)
  {
    if t == [] || t[0].pid == pid then 0 else 1 + FindPid(t[1..], pid)
  }

  predicate PolicyRestarts(d: Definition, s: Status, code: nat) {
    s.desired && (d.restart == Always || (d.restart == OnFailure && code != 0))
  }

  predicate ShouldRestart(d: Definition, s: Status, code: nat) {
    s.restartRequested || (PolicyRestarts(d, s, code) && s.starts < MAX_AUTOMATIC_STARTS)
  }

  function Exited(d: Definition, s: Status, code: nat): Status {
    s.(pid := 0, exitCode := code,
       completed := d.kind == Oneshot && s.desired && !s.restartRequested && code == 0,
       desired := s.desired && ShouldRestart(d, s, code),
       restartRequested := false)
  }

  /** The table when the exit has been noted and before any restart. */
  function AfterExit(defs: seq<Definition>, t: seq<Status>, result: nat): (u: seq<Status>)
    requires |t| == |defs|
    ensures |u| == |t|
  {
    var i := FindPid(t, ExitPid(result));
    if i == |t| then t else t[i := Exited(defs[i], t[i], ExitCode(result))]
  }

  function Reap(defs: seq<Definition>, t: seq<Status>, result: nat, spawns: Spawns): (u: seq<Status>)
    requires |t| == |defs|
    ensures |u| == |t|
  {
    var i := FindPid(t, ExitPid(result));
    var t1 := AfterExit(defs, t, result);
    if i < |t| && ShouldRestart(defs[i], t[i], ExitCode(result)) then Start(defs, t1, i, 0, spawns).0 else t1
  }

  /** A service that exits is up again exactly when a restart was asked for, or its policy and start limit allow one,
      and spawning succeeds on its chain. */
  lemma ReapRestartsExactly(defs: seq<Definition>, t: seq<Status>, result: nat, spawns: Spawns)
    requires Sound(defs, t) && |defs| <= MAX_SERVICES && FreshSpawns(AfterExit(defs, t, result), spawns)
    requires ExitPid(result) != 0 && FindPid(t, ExitPid(result)) < |t|
    ensures var i := FindPid(t, ExitPid(result));
            Reap(defs, t, result, spawns)[i].pid != 0
            <==> && (|| t[i].restartRequested
                     || (&& t[i].desired && t[i].starts < 8
                         && (|| defs[i].restart == Always
                             || (defs[i].restart == OnFailure && ExitCode(result) != 0))))
                 && SpawnsOnChain(defs, AfterExit(defs, t, result), i, spawns)
  {
    hide SpawnsOnChain, Start, ExitCode, ExitPid;
    var i := FindPid(t, ExitPid(result));
    var t1 := AfterExit(defs, t, result);
    ExitKeepsSound(defs, t, result);
    assert SoundAt(defs, i, t[i]);
    StartsExactlyGrounded(defs, t1, i, spawns);
    StartedRuns(defs, t1, i, 0, spawns);
    FailedStaysStopped(defs, t1, i, 0, spawns);
  }

  /** An exit that is not followed by a restart: the service is down and not wanted, and completed exactly if it is a
      oneshot that was wanted, was not to be restarted and exited with success. */
  lemma ExitIsNoted(defs: seq<Definition>, t: seq<Status>, result: nat, spawns: Spawns)
    requires |t| == |defs| && FindPid(t, ExitPid(result)) < |t|
    ensures var i := FindPid(t, ExitPid(result));
            var s, u, code := t[i], Reap(defs, t, result, spawns), ExitCode(result);
            !s.restartRequested && !(s.desired && s.starts < 8 && defs[i].restart != Never
                                     && (defs[i].restart == OnFailure ==> code != 0))
            ==> u == t[i := Status(false, false, defs[i].kind == Oneshot && s.desired && code == 0, 0, code, s.starts)]
  {
  }

  /** A start that fails leaves the service stopped. */
  lemma FailedStaysStopped(defs: seq<Definition>, t: seq<Status>, i: nat, depth: nat, spawns: Spawns)
    requires |t| == |defs| && i < |defs| && t[i].pid == 0
    ensures Start(defs, t, i, depth, spawns).1 || Start(defs, t, i, depth, spawns).0[i].pid == 0
  {
    UnstartableChangesNothing(defs, t, i, depth, spawns);
    if Startable(defs, t, i) && depth < MAX_SERVICES {
      var k: nat :| Hops(defs, t, i, k);
      DependencyLeavesAlone(defs, t, i, k, depth, spawns);
    }
  }

  lemma ExitKeepsSound(defs: seq<Definition>, t: seq<Status>, result: nat)
    requires Sound(defs, t)
    ensures Sound(defs, AfterExit(defs, t, result))
  {
    forall j | 0 <= j < |t| ensures SoundAt(defs, j, AfterExit(defs, t, result)[j]) {
      assert SoundAt(defs, j, t[j]);
    }
  }

  // ---- commands --------------------------------------------------------------------------------

  datatype Command = List | Show | StartIt | StopIt | RestartIt | Logs | Unknown

  datatype Outcome = Done | Failed | NotFound | Invalid

  function Told(s: Status, restart: bool): Status {
    s.(desired := restart, restartRequested := restart, completed := restart && s.completed)
  }

  /** Stop a service, or restart it; a running one is killed and `killed` says whether that worked. */
  function Stop(defs: seq<Definition>, t: seq<Status>, i: nat, restart: bool, spawns: Spawns, killed: bool)
    : (r: (seq<Status>, bool))
    requires |t| == |defs| && i < |defs|
    ensures |r.0| == |t|
  {
    var t1 := t[i := Told(t[i], restart)];
    if t[i].pid != 0 then (t1, killed)
    else if restart then Start(defs, t1, i, 0, spawns)
    else (t1, true)
  }

  function Reply(r: (seq<Status>, bool)): (seq<Status>, Outcome) {
    (r.0, if r.1 then Done else Failed)
  }

  function Respond(
    defs: seq<Definition>, t: seq<Status>, command: Command, name: string, spawns: Spawns, killed: bool)
    : (r: (seq<Status>, Outcome))
    requires |t| == |defs|
    ensures |r.0| == |t|
  {
    var i := Find(defs, name);
    if command == List || (command == Show && name == "") then (t, Done)
    else if name == "" || i == |defs| then (t, NotFound)
    else match command
      case StartIt => Reply(Start(defs, if t[i].pid == 0 then t[i := t[i].(starts := 0)] else t, i, 0, spawns))
      case StopIt => Reply(Stop(defs, t, i, false, spawns, killed))
      case RestartIt => Reply(Stop(defs, t[i := t[i].(starts := 0)], i, true, spawns, killed))
      case Unknown => (t, Invalid)
      case _ => (t, Done)
  }

  /** Only a command for a loaded service changes anything, and only starts, stops and restarts do. */
  lemma RespondIsSelective(
    defs: seq<Definition>, t: seq<Status>, command: Command, name: string, spawns: Spawns, killed: bool)
    requires |t| == |defs|
    ensures var (u, o) := Respond(defs, t, command, name, spawns, killed);
            && (o == NotFound
                <==> command != List && (if name == "" then command != Show else Find(defs, name) == |defs|))
            && (o == Invalid <==> command == Unknown && name != "" && Find(defs, name) < |defs|)
            && (o == NotFound || command !in {StartIt, StopIt, RestartIt} ==> u == t)
  {
  }

  /** Starting a service: it succeeds exactly if its chain ends well and can be spawned, and then the service runs and
      is wanted; one that was stopped has all its automatic starts before it again. */
  lemma StartCommand(defs: seq<Definition>, t: seq<Status>, i: nat, spawns: Spawns, killed: bool)
    requires |t| == |defs| <= MAX_SERVICES && UniqueNames(defs) && i < |defs| && defs[i].name != ""
    requires forall x :: spawns(x).Some? ==> spawns(x).value != 0
    ensures var (u, o) := Respond(defs, t, StartIt, defs[i].name, spawns, killed);
            && (o == Done <==> Startable(defs, t, i) && SpawnsOnChain(defs, t, i, spawns))
            && (o == Done || o == Failed)
            && (o == Done ==> u[i].pid != 0 && u[i].desired && u[i].starts == if t[i].pid == 0 then 1 else t[i].starts)
  {
    FindIsFirst(defs, defs[i].name, i);
    var t1 := if t[i].pid == 0 then t[i := t[i].(starts := 0)] else t;
    SamePidsStart(defs, t, t1, i, spawns);
    StartIsExact(defs, t1, i, spawns);
    UnstartableChangesNothing(defs, t1, i, 0, spawns);
    if Start(defs, t1, i, 0, spawns).1 {
      var m: nat :| Hops(defs, t1, i, m);
      ChainIsShort(defs, t1, i, m);
      StartedChain(defs, t1, i, m, 0, spawns, 0);
      ChainStarts(defs, t1, i, m, 0, spawns);
    }
  }

  /** Whether a start succeeds depends on nothing but which services run. */
  lemma SamePidsStart(defs: seq<Definition>, t: seq<Status>, u: seq<Status>, i: nat, spawns: Spawns)
    requires |t| == |u| == |defs| && forall j :: 0 <= j < |t| ==> t[j].pid == u[j].pid
    ensures Startable(defs, t, i) <==> Startable(defs, u, i)
    ensures SpawnsOnChain(defs, t, i, spawns) <==> SpawnsOnChain(defs, u, i, spawns)
  {
    forall k: nat ensures Hops(defs, t, i, k) <==> Hops(defs, u, i, k) { SamePidsHop(defs, t, u, i, k, spawns); }
    forall k: nat | Hops(defs, t, i, k)
      ensures ChainSpawns(defs, t, i, k, spawns) <==> (Hops(defs, u, i, k) && ChainSpawns(defs, u, i, k, spawns))
    {
      SamePidsHop(defs, t, u, i, k, spawns);
    }
  }

  lemma {:induction false} SamePidsHop(
    defs: seq<Definition>, t: seq<Status>, u: seq<Status>, i: nat, k: nat, spawns: Spawns)
    requires |t| == |u| == |defs| && forall j :: 0 <= j < |t| ==> t[j].pid == u[j].pid
    ensures Hops(defs, t, i, k) <==> Hops(defs, u, i, k)
    ensures Hops(defs, t, i, k) ==> (ChainSpawns(defs, t, i, k, spawns) <==> ChainSpawns(defs, u, i, k, spawns))
    decreases k
  {
    if k > 0 && i < |defs| { SamePidsHop(defs, t, u, Find(defs, defs[i].after), k - 1, spawns); }
  }

  /** The exit of service `i` is found to be its own. */
  lemma ExitIsFound(t: seq<Status>, i: nat, result: nat)
    requires DistinctPids(t) && i < |t| && t[i].pid != 0 && ExitPid(result) == t[i].pid
    ensures FindPid(t, ExitPid(result)) == i
  {
    FindPidIsFirst(t, ExitPid(result), i);
  }

  /** A running service that is stopped stays down after its exit, whatever its policy; no other service changes. */
  lemma StoppedStaysDown(
    defs: seq<Definition>, t: seq<Status>, i: nat, spawns: Spawns, killed: bool, result: nat, later: Spawns)
    requires Sound(defs, t) && UniqueNames(defs) && i < |defs| && defs[i].name != "" && t[i].pid != 0
    requires ExitPid(result) == t[i].pid
    ensures var (u, o) := Respond(defs, t, StopIt, defs[i].name, spawns, killed);
            && (o == Done <==> killed) && u == t[i := u[i]] && u[i].pid == t[i].pid
            && Reap(defs, u, result, later) == t[i := Status(false, false, false, 0, ExitCode(result), t[i].starts)]
  {
    hide ExitPid, ExitCode;
    FindIsFirst(defs, defs[i].name, i);
    var u := Respond(defs, t, StopIt, defs[i].name, spawns, killed).0;
    assert u == t[i := Told(t[i], false)];
    ExitIsFound(u, i, result);
    ExitIsNoted(defs, u, result, later);
  }

  /** A running service that is restarted comes back after its exit exactly if its chain can be spawned, whatever its
      policy and however often it was started. */
  lemma RestartedComesBack(
    defs: seq<Definition>, t: seq<Status>, i: nat, spawns: Spawns, killed: bool, result: nat, later: Spawns)
    requires Sound(defs, t) && UniqueNames(defs) && |defs| <= MAX_SERVICES
    requires i < |defs| && defs[i].name != "" && t[i].pid != 0 && ExitPid(result) == t[i].pid
    ensures var (u, o) := Respond(defs, t, RestartIt, defs[i].name, spawns, killed);
            && (o == Done <==> killed) && u == t[i := u[i]] && u[i].pid == t[i].pid
            && (FreshSpawns(AfterExit(defs, u, result), later) ==>
                  (Reap(defs, u, result, later)[i].pid != 0
                   <==> SpawnsOnChain(defs, AfterExit(defs, u, result), i, later)))
  {
    hide ExitPid, ExitCode, SpawnsOnChain, AfterExit, Reap;
    FindIsFirst(defs, defs[i].name, i);
    var u := Respond(defs, t, RestartIt, defs[i].name, spawns, killed).0;
    assert SoundAt(defs, i, t[i]);
    assert u == t[i := Told(t[i].(starts := 0), true)];
    UpdateKeepsSound(defs, t, i, u[i]);
    ExitIsFound(u, i, result);
    if FreshSpawns(AfterExit(defs, u, result), later) { ReapRestartsExactly(defs, u, result, later); }
  }

  /** A stopped service is restarted by starting it; stopping it only makes it unwanted. */
  lemma CommandsWhenStopped(defs: seq<Definition>, t: seq<Status>, i: nat, spawns: Spawns, killed: bool)
    requires |t| == |defs| <= MAX_SERVICES && UniqueNames(defs) && i < |defs| && defs[i].name != "" && t[i].pid == 0
    requires forall x :: spawns(x).Some? ==> spawns(x).value != 0
    ensures Respond(defs, t, StopIt, defs[i].name, spawns, killed)
            == (t[i := Status(false, false, false, 0, t[i].exitCode, t[i].starts)], Done)
    ensures var (u, o) := Respond(defs, t, RestartIt, defs[i].name, spawns, killed);
            && (o == Done <==> Startable(defs, t, i) && SpawnsOnChain(defs, t, i, spawns))
            && (o == Done || o == Failed)
            && (o == Done ==> u[i].pid != 0 && u[i].desired && u[i].starts == 1)
  {
    FindIsFirst(defs, defs[i].name, i);
    var t1 := t[i := t[i].(starts := 0)];
    var t2 := t1[i := Told(t1[i], true)];
    SamePidsStart(defs, t, t2, i, spawns);
    StartIsExact(defs, t2, i, spawns);
    UnstartableChangesNothing(defs, t2, i, 0, spawns);
    if Start(defs, t2, i, 0, spawns).1 {
      var m: nat :| Hops(defs, t2, i, m);
      ChainIsShort(defs, t2, i, m);
      StartedChain(defs, t2, i, m, 0, spawns, 0);
      ChainStarts(defs, t2, i, m, 0, spawns);
    }
  }

  // ---- runs -----------------------------------------------------------------------------------

  datatype Step =
    | Launch(i: nat, spawns: Spawns)
    | Exit(result: nat, spawns: Spawns)
    | Request(command: Command, name: string, spawns: Spawns, killed: bool)

  function Apply(defs: seq<Definition>, t: seq<Status>, step: Step): (u: seq<Status>)
    requires |t| == |defs|
    ensures |u| == |t|
  {
    match step
    case Launch(i, spawns) => if i < |defs| then Start(defs, t, i, 0, spawns).0 else t
    case Exit(result, spawns) => Reap(defs, t, result, spawns)
    case Request(command, name, spawns, killed) => Respond(defs, t, command, name, spawns, killed).0
  }

  function Run(defs: seq<Definition>, t: seq<Status>, steps: seq<Step>): (u: seq<Status>)
    requires |t| == |defs|
    ensures |u| == |t|
    decreases |steps|
  {
    if steps == [] then t else Run(defs, Apply(defs, t, steps[0]), steps[1..])
  }

  /** The kernel keeps its promise about process ids at every step. */
  ghost predicate Possible(defs: seq<Definition>, t: seq<Status>, steps: seq<Step>)
    requires |t| == |defs|
    decreases |steps|
  {
    steps == [] ||
    ( && FreshSpawns(if steps[0].Exit? then AfterExit(defs, t, steps[0].result) else t, steps[0].spawns)
      && Possible(defs, Apply(defs, t, steps[0]), steps[1..]))
  }

  lemma UpdateKeepsSound(defs: seq<Definition>, t: seq<Status>, i: nat, s: Status)
    requires Sound(defs, t) && i < |t| && s.pid == t[i].pid && SoundAt(defs, i, s)
    ensures Sound(defs, t[i := s])
  {
    var u := t[i := s];
    forall j | 0 <= j < |t| ensures SoundAt(defs, j, u[j]) {
      assert SoundAt(defs, j, t[j]);
    }
  }

  lemma RespondKeepsSound(
    defs: seq<Definition>, t: seq<Status>, command: Command, name: string, spawns: Spawns, killed: bool)
    requires Sound(defs, t) && FreshSpawns(t, spawns)
    ensures Sound(defs, Respond(defs, t, command, name, spawns, killed).0)
  {
    var i := Find(defs, name);
    if i < |defs| {
      assert SoundAt(defs, i, t[i]);
      var reset := t[i := t[i].(starts := 0)];
      UpdateKeepsSound(defs, t, i, t[i].(starts := 0));
      UpdateKeepsSound(defs, t, i, Told(t[i], false));
      StartKeepsSound(defs, t, i, spawns);
      StartKeepsSound(defs, reset, i, spawns);
      UpdateKeepsSound(defs, reset, i, Told(reset[i], true));
      StartKeepsSound(defs, reset[i := Told(reset[i], true)], i, spawns);
    }
  }

  lemma ApplyKeepsSound(defs: seq<Definition>, t: seq<Status>, step: Step)
    requires Sound(defs, t)
    requires FreshSpawns(if step.Exit? then AfterExit(defs, t, step.result) else t, step.spawns)
    ensures Sound(defs, Apply(defs, t, step))
  {
    match step
    case Launch(i, spawns) => if i < |defs| { StartKeepsSound(defs, t, i, spawns); }
    case Exit(result, spawns) =>
      ExitKeepsSound(defs, t, result);
      var i := FindPid(t, ExitPid(result));
      if i < |t| { StartKeepsSound(defs, AfterExit(defs, t, result), i, spawns); }
    case Request(command, name, spawns, killed) => RespondKeepsSound(defs, t, command, name, spawns, killed);
  }

  lemma {:induction false} RunKeepsSound(defs: seq<Definition>, t: seq<Status>, steps: seq<Step>)
    requires Sound(defs, t) && Possible(defs, t, steps)
    ensures Sound(defs, Run(defs, t, steps))
    decreases |steps|
  {
    if steps != [] {
      ApplyKeepsSound(defs, t, steps[0]);
      RunKeepsSound(defs, Apply(defs, t, steps[0]), steps[1..]);
    }
  }

  /** Whatever happens after boot, a service whose chain dangles or cycles never runs, and no two services share a
      process id. */
  lemma OnlyGroundedRun(defs: seq<Definition>, steps: seq<Step>)
    requires Possible(defs, Idle(|defs|), steps)
    ensures DistinctPids(Run(defs, Idle(|defs|), steps))
    ensures forall i: nat :: i < |defs| && Run(defs, Idle(|defs|), steps)[i].pid != 0 ==> Grounded(defs, i)
  {
    IdleIsSound(defs);
    RunKeepsSound(defs, Idle(|defs|), steps);
    forall i: nat | i < |defs| && Run(defs, Idle(|defs|), steps)[i].pid != 0 ensures Grounded(defs, i) {
      assert SoundAt(defs, i, Run(defs, Idle(|defs|), steps)[i]);
    }
  }

  // ---- only finitely many exits ------------------------------------------------------------------

  function StartsLeft(s: Status): nat {
    if s.starts < MAX_AUTOMATIC_STARTS then MAX_AUTOMATIC_STARTS - s.starts else 0
  }

  /** Requests, starts left, running with starts left, running: weighed so that one of each outweighs whatever the
      later ones can gain when a whole chain is spawned. */
  function Weight(s: Status): nat {
    (if s.restartRequested then 25 else 0) + 25 * StartsLeft(s)
    + (if s.pid != 0 && StartsLeft(s) > 0 then 24 else 0) + (if s.pid != 0 then 1 else 0)
  }

  function Rank(t: seq<Status>): nat {
    if t == [] then 0 else Weight(t[0]) + Rank(t[1..])
  }

  lemma {:induction false} RankIsBounded(t: seq<Status>)
    ensures Rank(t) <= 250 * |t|
  {
    if t != [] { RankIsBounded(t[1..]); }
  }

  lemma {:induction false} RankUpdate(t: seq<Status>, i: nat, s: Status)
    requires i < |t|
    ensures Rank(t[i := s]) == Rank(t) - Weight(t[i]) + Weight(s)
  {
    if i == 0 {
      assert t[i := s][1..] == t[1..];
    } else {
      RankUpdate(t[1..], i - 1, s);
      assert t[i := s][1..] == t[1..][i - 1 := s];
    }
  }

  lemma {:induction false} RankGrows(t: seq<Status>, u: seq<Status>)
    requires |u| == |t| && forall j :: 0 <= j < |t| ==> Weight(u[j]) <= Weight(t[j]) + 1
    ensures Rank(u) <= Rank(t) + |t|
  {
    if t != [] { RankGrows(t[1..], u[1..]); }
  }

  lemma RestartWeighsLess(d: Definition, s: Status, code: nat, u: Status, spawn: Option<nat>)
    requires s.pid != 0 && ShouldRestart(d, s, code) && Touched(Exited(d, s, code), u, spawn)
    ensures Weight(u) + 25 <= Weight(s)
  {
  }

  lemma RankDrops(t: seq<Status>, u: seq<Status>, i: nat)
    requires i < |t| == |u| <= MAX_SERVICES && Weight(u[i]) + 25 <= Weight(t[i])
    requires forall j :: 0 <= j < |t| && j != i ==> Weight(u[j]) <= Weight(t[j]) + 1
    ensures Rank(u) < Rank(t)
  {
    hide Weight, Rank;
    RankUpdate(u, i, t[i]);
    var v := u[i := t[i]];
    assert v[i] == t[i];
    RankGrows(t, v);
  }

  lemma RestartLowersRank(defs: seq<Definition>, t: seq<Status>, i: nat, code: nat, spawns: Spawns)
    requires |t| == |defs| <= MAX_SERVICES && i < |t| && t[i].pid != 0 && ShouldRestart(defs[i], t[i], code)
    ensures Rank(Start(defs, t[i := Exited(defs[i], t[i], code)], i, 0, spawns).0) < Rank(t)
  {
    hide Start, Rank, Exited, ShouldRestart;
    var t1 := t[i := Exited(defs[i], t[i], code)];
    var u := Start(defs, t1, i, 0, spawns).0;
    forall j | 0 <= j < |t| ensures Touched(t1[j], u[j], spawns(j)) && (j != i ==> Weight(u[j]) <= Weight(t[j]) + 1) {
      StartTouches(defs, t1, i, 0, spawns, j);
    }
    RestartWeighsLess(defs[i], t[i], code, u[i], spawns(i));
    RankDrops(t, u, i);
  }

  /** Every exit of a running service lowers the rank, even when a restart spawns a whole chain or fails half way. */
  lemma ReapLowersRank(defs: seq<Definition>, t: seq<Status>, result: nat, spawns: Spawns)
    requires |t| == |defs| <= MAX_SERVICES && ExitPid(result) != 0 && FindPid(t, ExitPid(result)) < |t|
    ensures Rank(Reap(defs, t, result, spawns)) < Rank(t)
  {
    hide ExitPid, ExitCode, Start, FindPid;
    var i, code := FindPid(t, ExitPid(result)), ExitCode(result);
    RankUpdate(t, i, Exited(defs[i], t[i], code));
    if ShouldRestart(defs[i], t[i], code) { RestartLowersRank(defs, t, i, code, spawns); }
  }

  /** Nothing but exits of running services happens. */
  predicate OnlyExits(defs: seq<Definition>, t: seq<Status>, steps: seq<Step>)
    requires |t| == |defs|
    decreases |steps|
  {
    steps == [] ||
    ( && steps[0].Exit? && ExitPid(steps[0].result) != 0 && FindPid(t, ExitPid(steps[0].result)) < |t|
      && OnlyExits(defs, Apply(defs, t, steps[0]), steps[1..]))
  }

  lemma {:induction false} ExitsLowerRank(defs: seq<Definition>, t: seq<Status>, steps: seq<Step>)
    requires |t| == |defs| <= MAX_SERVICES && OnlyExits(defs, t, steps)
    ensures |steps| + Rank(Run(defs, t, steps)) <= Rank(t)
    decreases |steps|
  {
    if steps != [] {
      ReapLowersRank(defs, t, steps[0].result, steps[0].spawns);
      ExitsLowerRank(defs, Apply(defs, t, steps[0]), steps[1..]);
    }
  }

  /** With no further commands, at most 250 exits per service are ever processed. */
  lemma FiniteExits(defs: seq<Definition>, t: seq<Status>, steps: seq<Step>)
    requires |t| == |defs| <= MAX_SERVICES && OnlyExits(defs, t, steps)
    ensures |steps| <= 250 * |defs|
  {
    ExitsLowerRank(defs, t, steps);
    RankIsBounded(t);
  }

  // ---- the manager -----------------------------------------------------------------------------

  lemma {:induction false} FindPidIsFirst(t: seq<Status>, pid: nat, i: nat)
    requires i <= |t| && (forall j :: 0 <= j < i ==> t[j].pid != pid) && (i < |t| ==> t[i].pid == pid)
    ensures FindPid(t, pid) == i
  {
    if i > 0 { FindPidIsFirst(t[1..], pid, i - 1); }
  }

  lemma {:induction false} RunConcat(defs: seq<Definition>, t: seq<Status>, a: seq<Step>, b: seq<Step>)
    requires |t| == |defs|
    ensures Run(defs, t, a + b) == Run(defs, Run(defs, t, a), b)
    decreases |a|
  {
    hide Apply;
    if a == [] {
      assert a + b == b;
    } else {
      RunConcat(defs, Apply(defs, t, a[0]), a[1..], b);
      assert (a + b)[1..] == a[1..] + b;
    }
  }

  /** Booting launches the enabled ones of the first `n` services, in order. */
  function BootSteps(defs: seq<Definition>, n: nat, env: nat -> Spawns): seq<Step>
    requires n <= |defs|
  {
    if n == 0 then []
    else BootSteps(defs, n - 1, env) + if defs[n - 1].enabled then [Launch(n - 1, env(n - 1))] else []
  }

  /** Every spawn of a boot succeeds. */
  ghost predicate BootSpawns(defs: seq<Definition>, n: nat, env: nat -> Spawns)
    requires n <= |defs|
  {
    forall i: nat :: i < n ==>
      && FreshSpawns(Run(defs, Idle(|defs|), BootSteps(defs, i, env)), env(i))
      && forall x :: env(i)(x).Some?
  }

  /** Service `j` is on the chain of one of the first `n` services that is enabled and whose chain ends well. */
  ghost predicate Needed(defs: seq<Definition>, n: nat, j: nat)
    requires n <= |defs|
  {
    exists i: nat, m: nat :: NeededBy(defs, i, m, j) && i < n
  }

  ghost predicate NeededBy(defs: seq<Definition>, i: nat, m: nat, j: nat) {
    Hops(defs, Idle(|defs|), i, m) && defs[i].enabled && j in Chain(defs, Idle(|defs|), i, m)
  }

  lemma {:induction false} ChainSuffix(defs: seq<Definition>, t: seq<Status>, i: nat, k: nat, q: nat)
    requires |t| == |defs| && Hops(defs, t, i, k) && q <= k
    ensures var c := Chain(defs, t, i, k); Hops(defs, t, c[q], k - q) && c[q..] == Chain(defs, t, c[q], k - q)
    decreases k
  {
    if q > 0 { ChainSuffix(defs, t, Find(defs, defs[i].after), k - 1, q - 1); }
  }

  /** The chain over stopped services is the beginning of the whole chain, and breaks off only at a running service. */
  lemma {:induction false} ChainsAgree(defs: seq<Definition>, t: seq<Status>, i: nat, k: nat, m: nat)
    requires |t| == |defs| && Hops(defs, t, i, k) && Hops(defs, Idle(|defs|), i, m)
    ensures k <= m
    ensures var c := Chain(defs, t, i, k);
            c <= Chain(defs, Idle(|defs|), i, m) && c[k] < |t| && (k < m ==> t[c[k]].pid != 0)
    decreases k
  {
    if k > 0 { ChainsAgree(defs, t, Find(defs, defs[i].after), k - 1, m - 1); }
  }

  /** What a needed service depends on is needed too. */
  lemma NeedsBelow(defs: seq<Definition>, n: nat, e: nat, r: nat, j: nat)
    requires n <= |defs| && Needed(defs, n, e) && Hops(defs, Idle(|defs|), e, r)
    requires j in Chain(defs, Idle(|defs|), e, r)
    ensures Needed(defs, n, j)
  {
    var i: nat, m: nat :| NeededBy(defs, i, m, e) && i < n;
    var c := Chain(defs, Idle(|defs|), i, m);
    var q :| 0 <= q < |c| && c[q] == e;
    ChainSuffix(defs, Idle(|defs|), i, m, q);
    HopsAreUnique(defs, Idle(|defs|), e, r, m - q);
    assert j in c[q..];
    assert NeededBy(defs, i, m, j);
  }

  /** A member of the whole chain is on the chain over stopped services, or needed by a running member. */
  lemma BeyondIsNeeded(defs: seq<Definition>, t: seq<Status>, n: nat, i: nat, k: nat, m: nat, j: nat)
    requires |t| == |defs| && n <= |defs| && Hops(defs, t, i, k) && Hops(defs, Idle(|defs|), i, m)
    requires forall x: nat :: x < |t| && t[x].pid != 0 ==> Needed(defs, n, x)
    requires j in Chain(defs, Idle(|defs|), i, m)
    ensures j in Chain(defs, t, i, k) || Needed(defs, n, j)
  {
    hide Needed;
    var c, whole := Chain(defs, t, i, k), Chain(defs, Idle(|defs|), i, m);
    ChainsAgree(defs, t, i, k, m);
    if j !in c {
      var q :| 0 <= q < |whole| && whole[q] == j;
      assert q > k && whole[k] == c[k];
      ChainSuffix(defs, Idle(|defs|), i, m, k);
      assert whole[k..][q - k] == j;
      NeedsBelow(defs, n, c[k], m - k, j);
    }
  }

  ghost predicate RunsNeeded(defs: seq<Definition>, t: seq<Status>, n: nat)
    requires |t| == |defs| && n <= |defs|
  {
    forall j: nat :: j < |t| ==> (t[j].pid != 0 <==> Needed(defs, n, j))
  }

  /** Launching the next enabled service, whose chain ends well, starts what it needs. */
  lemma LaunchRunsNeeded(defs: seq<Definition>, t: seq<Status>, n: nat, m: nat, spawns: Spawns)
    requires Sound(defs, t) && |t| == |defs| <= MAX_SERVICES && n < |defs| && defs[n].enabled
    requires FreshSpawns(t, spawns) && (forall x :: spawns(x).Some?) && RunsNeeded(defs, t, n)
    requires Hops(defs, Idle(|defs|), n, m)
    ensures RunsNeeded(defs, Start(defs, t, n, 0, spawns).0, n + 1)
  {
    hide Sound, FreshSpawns, Start, Hops, Chain;
    GroundedIsStartable(defs, t, n, m);
    var k: nat :| Hops(defs, t, n, k);
    NonzeroSpawns(t, spawns);
    AllSpawn(defs, t, n, k, spawns);
    ChainIsShort(defs, t, n, k);
    ChainStarts(defs, t, n, k, 0, spawns);
    ChainsAgree(defs, t, n, k, m);
    var c, u := Chain(defs, t, n, k), Start(defs, t, n, 0, spawns).0;
    forall j: nat | j < |t| ensures u[j].pid != 0 <==> Needed(defs, n + 1, j) {
      if j in c {
        var q :| 0 <= q < |c| && c[q] == j;
        DependenciesRun(defs, t, n, k, spawns, q);
        assert NeededBy(defs, n, m, j);
      } else {
        StartLeavesOthers(defs, t, n, k, 0, spawns, j);
        if Needed(defs, n + 1, j) {
          var i: nat, r: nat :| NeededBy(defs, i, r, j) && i < n + 1;
          if i == n {
            HopsAreUnique(defs, Idle(|defs|), n, r, m);
            BeyondIsNeeded(defs, t, n, n, k, m, j);
          }
        }
      }
    }
  }

  lemma NonzeroSpawns(t: seq<Status>, spawns: Spawns)
    requires FreshSpawns(t, spawns)
    ensures forall x :: spawns(x).Some? ==> spawns(x).value != 0
  {
  }

  lemma SkippedNeedsNothing(defs: seq<Definition>, n: nat, j: nat)
    requires n < |defs| && (defs[n].enabled ==> !Grounded(defs, n))
    ensures Needed(defs, n + 1, j) <==> Needed(defs, n, j)
  {
    hide Hops, Chain;
  }

  /** When every spawn succeeds, a boot runs exactly the enabled services whose chains end well and all they depend
      on. */
  lemma {:induction false} BootIsExact(defs: seq<Definition>, n: nat, env: nat -> Spawns)
    requires n <= |defs| <= MAX_SERVICES && BootSpawns(defs, n, env)
    ensures var t := Run(defs, Idle(|defs|), BootSteps(defs, n, env));
            Sound(defs, t) && forall j: nat :: j < |t| ==> (t[j].pid != 0 <==> Needed(defs, n, j))
    decreases n
  {
    hide Sound, FreshSpawns, Start, Grounded, Hops, Needed, Apply;
    var idle := Idle(|defs|);
    if n == 0 {
      IdleIsSound(defs);
      NothingNeeded(defs);
    } else {
      BootIsExact(defs, n - 1, env);
      var t, step := Run(defs, idle, BootSteps(defs, n - 1, env)), Launch(n - 1, env(n - 1));
      forall j: nat | !defs[n - 1].enabled || !Grounded(defs, n - 1)
        ensures Needed(defs, n, j) <==> Needed(defs, n - 1, j)
      {
        SkippedNeedsNothing(defs, n - 1, j);
      }
      if defs[n - 1].enabled {
        RunConcat(defs, idle, BootSteps(defs, n - 1, env), [step]);
        OneLaunch(defs, t, n - 1, env(n - 1));
        StartKeepsSound(defs, t, n - 1, env(n - 1));
        LaunchStep(defs, t, n - 1, env(n - 1));
      } else {
        assert BootSteps(defs, n - 1, env) + [] == BootSteps(defs, n - 1, env);
      }
    }
  }

  lemma NothingNeeded(defs: seq<Definition>)
    ensures forall j: nat :: !Needed(defs, 0, j)
  {
  }

  lemma OneLaunch(defs: seq<Definition>, t: seq<Status>, i: nat, spawns: Spawns)
    requires |t| == |defs| && i < |defs|
    ensures Run(defs, t, [Launch(i, spawns)]) == Start(defs, t, i, 0, spawns).0
  {
    assert [Launch(i, spawns)][1..] == [];
  }

  lemma LaunchStep(defs: seq<Definition>, t: seq<Status>, n: nat, spawns: Spawns)
    requires Sound(defs, t) && |t| == |defs| <= MAX_SERVICES && n < |defs| && defs[n].enabled
    requires FreshSpawns(t, spawns) && (forall x :: spawns(x).Some?) && RunsNeeded(defs, t, n)
    ensures RunsNeeded(defs, Start(defs, t, n, 0, spawns).0, n + 1)
  {
    hide Sound, FreshSpawns, Start, Hops, Needed;
    if Grounded(defs, n) {
      var m: nat :| Hops(defs, Idle(|defs|), n, m);
      LaunchRunsNeeded(defs, t, n, m, spawns);
    } else {
      UnstartableChangesNothing(defs, t, n, 0, spawns);
      if Startable(defs, t, n) {
        var k: nat :| Hops(defs, t, n, k);
        StartableIsGrounded(defs, t, n, k);
      }
      forall j: nat ensures Needed(defs, n + 1, j) <==> Needed(defs, n, j) { SkippedNeedsNothing(defs, n, j); }
    }
  }

  class Manager {
    const defs: seq<Definition>
    var table: seq<Status>

    ghost predicate Valid() reads this {
      |table| == |defs| <= MAX_SERVICES
    }

    constructor (entries: seq<Option<Definition>>)
      ensures Valid() && defs == Loaded(entries) && table == Idle(|defs|)
    {
      var loaded := LoadServices(entries);
      defs := loaded;
      table := Idle(|loaded|);
    }

    method FindService(name: string) returns (i: nat)
      requires Valid()
      ensures i == Find(defs, name)
    {
      i := 0;
      while i < |defs|
        invariant i <= |defs| && forall j :: 0 <= j < i ==> defs[j].name != name
      {
        if defs[i].name == name { break; }
        i := i + 1;
      }
      FindIsFirst(defs, name, i);
    }

    method StartService(i: nat, depth: nat, spawns: Spawns) returns (ok: bool)
      requires Valid() && i < |defs|
      modifies this`table
      ensures Valid() && (table, ok) == Start(defs, old(table), i, depth, spawns)
      decreases MAX_SERVICES - depth
    {
      if table[i].pid != 0 {
        table := table[i := table[i].(desired := true)];
        return true;
      }
      if depth >= MAX_SERVICES { return false; }
      if defs[i].after != "" {
        var d := FindService(defs[i].after);
        if d == |defs| { return false; }
        var ready := StartService(d, depth + 1, spawns);
        if !ready { return false; }
      }
      if spawns(i).None? { return false; }
      var s := table[i];
      s := s.(pid := spawns(i).value);
      s := s.(desired := true, restartRequested := false, completed := false);
      s := s.(starts := s.starts + 1);
      table := table[i := s];
      return true;
    }

    method StopService(i: nat, restart: bool, spawns: Spawns, killed: bool) returns (ok: bool)
      requires Valid() && i < |defs|
      modifies this`table
      ensures Valid() && (table, ok) == Stop(defs, old(table), i, restart, spawns, killed)
    {
      table := table[i := table[i].(desired := restart, restartRequested := restart)];
      if !restart { table := table[i := table[i].(completed := false)]; }
      assert table == old(table)[i := Told(old(table)[i], restart)];
      if table[i].pid != 0 { return killed; }
      if !restart { return true; }
      ok := StartService(i, 0, spawns);
    }

    /** One exit reported by the kernel. */
    method ReapOne(result: nat, spawns: Spawns)
      requires Valid()
      modifies this`table
      ensures Valid() && table == Reap(defs, old(table), result, spawns)
    {
      var pid, code := ExitPid(result), ExitCode(result);
      var i := 0;
      while i < |table|
        invariant i <= |table| && forall j :: 0 <= j < i ==> table[j].pid != pid
      {
        if table[i].pid == pid { break; }
        i := i + 1;
      }
      FindPidIsFirst(table, pid, i);
      if i == |table| { return; }
      var s := table[i];
      s := s.(pid := 0, exitCode := code);
      s := s.(completed := defs[i].kind == Oneshot && s.desired && !s.restartRequested && code == 0);
      var policy := s.desired && (defs[i].restart == Always || (defs[i].restart == OnFailure && code != 0));
      var allowed := s.starts < MAX_AUTOMATIC_STARTS;
      var restart := s.restartRequested || (policy && allowed);
      s := s.(restartRequested := false);
      if !restart { s := s.(desired := false); }
      assert s.desired == (old(table)[i].desired && restart);
      table := table[i := s];
      assert table == AfterExit(defs, old(table), result);
      if restart { var _ := StartService(i, 0, spawns); }
    }

    /** Reap until the kernel has no more exits to report. */
    method ReapAll(exits: seq<(nat, Spawns)>)
      requires Valid()
      modifies this`table
      ensures Valid()
      ensures table == Run(defs, old(table), seq(|exits|, k requires 0 <= k < |exits| => Exit(exits[k].0, exits[k].1)))
    {
      ghost var steps := seq(|exits|, k requires 0 <= k < |exits| => Exit(exits[k].0, exits[k].1));
      var i := 0;
      while i < |exits|
        invariant i <= |exits| && Valid() && table == Run(defs, old(table), steps[..i])
      {
        ghost var before := table;
        ReapOne(exits[i].0, exits[i].1);
        RunConcat(defs, old(table), steps[..i], [steps[i]]);
        assert steps[..i + 1] == steps[..i] + [steps[i]];
        assert Run(defs, before, [steps[i]]) == table;
        i := i + 1;
      }
      assert steps[..i] == steps;
    }

    /** Answer one request. */
    method HandleRequest(command: Command, name: string, spawns: Spawns, killed: bool) returns (outcome: Outcome)
      requires Valid()
      modifies this`table
      ensures Valid() && (table, outcome) == Respond(defs, old(table), command, name, spawns, killed)
    {
      var i := FindService(name);
      var ok := true;
      if command == List || (command == Show && name == "") { return Done; }
      if name == "" || i == |defs| { return NotFound; }
      match command {
        case StartIt =>
          if table[i].pid == 0 { table := table[i := table[i].(starts := 0)]; }
          ok := StartService(i, 0, spawns);
        case StopIt =>
          ok := StopService(i, false, spawns, killed);
        case RestartIt =>
          table := table[i := table[i].(starts := 0)];
          ok := StopService(i, true, spawns, killed);
        case Unknown => return Invalid;
        case _ =>
      }
      outcome := if ok then Done else Failed;
    }

    method Boot(env: nat -> Spawns)
      requires Valid()
      modifies this`table
      ensures Valid() && table == Run(defs, old(table), BootSteps(defs, |defs|, env))
    {
      hide Start;
      var i := 0;
      while i < |defs|
        invariant i <= |defs| && Valid() && table == Run(defs, old(table), BootSteps(defs, i, env))
      {
        if defs[i].enabled {
          ghost var before := table;
          var _ := StartService(i, 0, env(i));
          RunConcat(defs, old(table), BootSteps(defs, i, env), [Launch(i, env(i))]);
          assert BootSteps(defs, i + 1, env) == BootSteps(defs, i, env) + [Launch(i, env(i))];
          assert Run(defs, before, [Launch(i, env(i))]) == table;
        } else {
          assert BootSteps(defs, i, env) + [] == BootSteps(defs, i, env);
        }
        i := i + 1;
      }
    }
  }

  // ---- the log of a service --------------------------------------------------------------------

  /** The last `n` bytes of a stream. */
  function LastBytes(s: seq<int>, n: nat): seq<int> {
    if |s| <= n then s else s[|s| - n..]
  }

  /** The bytes of the log in the order they were written. */
  function Unrolled(log: seq<int>, start: nat, length: nat): (r: seq<int>)
    requires start < |log| && length <= |log|
    ensures |r| == length
  {
    if start + length <= |log| then log[start..start + length]
    else log[start..] + log[..start + length - |log|]
  }

  /** A log index as it is computed. */
  function Slot(x: nat, n: nat): (r: nat)
    requires n > 0
    ensures r < n
  {
    x % n
  }

  lemma SlotIsWrap(x: nat, n: nat)
    requires 0 < n && x < 2 * n
    ensures Slot(x, n) == Wrap(x, n)
  {
    ModIsWrap(x, n);
  }

  lemma UnrolledGrows(log: seq<int>, start: nat, length: nat, b: int)
    requires start < |log| && length < |log|
    ensures Unrolled(log[Wrap(start + length, |log|) := b], start, length + 1)
            == LastBytes(Unrolled(log, start, length) + [b], |log|)
  {
  }

  lemma UnrolledShifts(log: seq<int>, start: nat, b: int)
    requires start < |log|
    ensures Unrolled(log[start := b], Wrap(start + 1, |log|), |log|)
            == LastBytes(Unrolled(log, start, |log|) + [b], |log|)
  {
  }

  /** A service's circular log. */
  class Log {
    const bytes: array<int>
    var start: nat
    var length: nat

    ghost predicate Valid() reads this {
      start < bytes.Length && length <= bytes.Length && (length < bytes.Length ==> start == 0)
    }

    ghost function Contents(): seq<int>
      reads this, bytes
      requires Valid()
    {
      Unrolled(bytes[..], start, length)
    }

    constructor (capacity: nat)
      requires capacity > 0
      ensures Valid() && fresh(bytes) && bytes.Length == capacity && Contents() == []
    {
      bytes := new int[capacity];
      start, length := 0, 0;
    }

    method AppendByte(b: int)
      requires Valid()
      modifies this, bytes
      ensures Valid() && Contents() == LastBytes(old(Contents()) + [b], bytes.Length)
    {
      if length < bytes.Length { Extend(b); } else { Replace(b); }
    }

    /** There is room for one more. */
    method Extend(b: int)
      requires Valid() && length < bytes.Length
      modifies this, bytes
      ensures Valid() && Contents() == LastBytes(old(Contents()) + [b], bytes.Length)
    {
      hide Unrolled, Wrap, LastBytes, Slot;
      ghost var n, was := bytes.Length, bytes[..];
      SlotIsWrap(start + length, n);
      UnrolledGrows(was, start, length, b);
      var index := Slot(start + length, bytes.Length);
      bytes[index] := b;
      length := length + 1;
      assert bytes[..] == was[index := b];
    }

    /** The oldest makes room. */
    method Replace(b: int)
      requires Valid() && length == bytes.Length
      modifies this`start, bytes
      ensures Valid() && Contents() == LastBytes(old(Contents()) + [b], bytes.Length)
    {
      hide Unrolled, Wrap, LastBytes, Slot;
      ghost var was := bytes[..];
      SlotIsWrap(start + 1, bytes.Length);
      UnrolledShifts(was, start, b);
      bytes[start] := b;
      assert bytes[..] == was[start := b];
      start := Slot(start + 1, bytes.Length);
    }

    /** The log always holds the last bytes that were written to it. */
    method Append(data: seq<int>)
      requires Valid()
      modifies this, bytes
      ensures Valid() && Contents() == LastBytes(old(Contents()) + data, bytes.Length)
    {
      hide Unrolled, LastBytes;
      var i := 0;
      ShortIsLast(old(Contents()), bytes.Length);
      assert old(Contents()) + data[..0] == old(Contents());
      while i < |data|
        invariant i <= |data| && Valid() && Contents() == LastBytes(old(Contents()) + data[..i], bytes.Length)
      {
        LastOfLast(old(Contents()) + data[..i], data[i], bytes.Length);
        AppendByte(data[i]);
        assert old(Contents()) + data[..i + 1] == old(Contents()) + data[..i] + [data[i]];
        i := i + 1;
      }
      assert data[..i] == data;
    }
  }

  lemma ShortIsLast(s: seq<int>, n: nat)
    requires |s| <= n
    ensures LastBytes(s, n) == s
  {
  }

  lemma LastOfLast(s: seq<int>, b: int, n: nat)
    requires n > 0
    ensures LastBytes(LastBytes(s, n) + [b], n) == LastBytes(s + [b], n)
  {
    if |s| <= n {
    } else {
      assert LastBytes(s + [b], n) == s[|s| - n + 1..] + [b];
    }
  }
}
