/** Output routing through the widget graph of an HDA codec: the depth-first search for a converter, and
    the walks along the connections it selected (Intel High Definition Audio Specification, section 7.3.3.3). */
module CodecRouting {

  type nid = x: nat | x < 256

  const NODES := 256
  const UNSELECTED := 0xFF

  datatype Widget = Widget(present: bool, caps: nat, pinCaps: nat, defaultConfig: nat, connections: seq<nid>)

  type Graph = g: seq<Widget> | |g| == NODES witness seq(NODES, _ => Widget(false, 0, 0, 0, []))

  predicate IsOutput(w: Widget) { w.caps / 0x100000 % 16 == 0 }

  predicate HasOutputAmp(w: Widget) { w.caps / 4 % 2 == 1 }

  predicate HasInputAmp(w: Widget) { w.caps / 2 % 2 == 1 }

  /** Preference of a pin: speaker, headphone, line out, other; -1 for no output or nothing attached. */
  function PinScore(w: Widget): int {
    if w.pinCaps / 16 % 2 == 0 || w.defaultConfig / 0x40000000 % 4 == 1 then -1
    else
      var device := w.defaultConfig / 0x100000 % 16;
      if device == 1 then 30 else if device == 2 then 20 else if device == 0 then 10 else 0
  }

  /** The type of a widget is in bits 20 to 23 of its capabilities; an output amplifier is bit 2, an input one bit 1. */
  lemma CapsAreRead(w: Widget, high: nat, kind: nat, middle: nat, output: nat, input: nat, low: nat)
    requires kind < 16 && middle < 0x1_0000 && output < 2 && input < 2 && low < 2
    requires w.caps == 0x100_0000 * high + 0x10_0000 * kind + 8 * middle + 4 * output + 2 * input + low
    ensures IsOutput(w) <==> kind == 0
    ensures (HasOutputAmp(w) <==> output == 1) && (HasInputAmp(w) <==> input == 1)
  {
    assert 8 * middle + 4 * output + 2 * input + low < 0x10_0000;
    assert w.caps / 0x10_0000 == 16 * high + kind;
    assert w.caps / 4 == 2 * (0x2_0000 * (16 * high + kind) + middle) + output;
    assert w.caps / 2 == 2 * (2 * (0x2_0000 * (16 * high + kind) + middle) + output) + input;
  }

  /** A pin with an output and something attached is preferred by its device: 1, a speaker, over 2, a headphone, over 0,
      line out, over all others. */
  lemma PinScoreRanks(w: Widget, port: nat, middle: nat, device: nat, low: nat)
    requires port < 4 && middle < 0x40 && device < 16 && low < 0x10_0000
    requires w.defaultConfig == 0x4000_0000 * port + 0x100_0000 * middle + 0x10_0000 * device + low
    ensures PinScore(w) < 0 <==> w.pinCaps / 16 % 2 == 0 || port == 1
    ensures PinScore(w) >= 0 ==>
              && (device == 1 <==> PinScore(w) == 30) && (device == 2 <==> PinScore(w) == 20)
              && (device == 0 <==> PinScore(w) == 10) && (device > 2 <==> PinScore(w) == 0)
  {
    assert w.defaultConfig / 0x10_0000 == 16 * (0x40 * port + middle) + device;
  }

  // ---- reachability ------------------------------------------------------------

  /** A walk through present widgets along their connection lists. */
  predicate Walk(g: Graph, p: seq<nid>) {
    && p != []
    && (forall i :: 0 <= i < |p| ==> g[p[i]].present)
    && forall i :: 0 <= i < |p| - 1 ==> p[i + 1] in g[p[i]].connections
  }

  ghost predicate Routable(g: Graph, from: nid) {
    exists p :: Walk(g, p) && p[0] == from && IsOutput(g[p[|p| - 1]])
  }

  /** A finished node: it is no converter and everything it connects to was visited or is absent. */
  predicate Finished(g: Graph, visited: seq<bool>, n: nid)
    requires |visited| == NODES
  {
    g[n].present && !IsOutput(g[n]) && forall c :: c in g[n].connections ==> visited[c] || !g[c].present
  }

  /** Every node visited since `before`, other than `open`, is finished. */
  ghost predicate FinishedSince(g: Graph, before: seq<bool>, now: seq<bool>, open: int) {
    && |before| == |now| == NODES
    && (forall n: nid :: before[n] ==> now[n])
    && forall n: nid :: now[n] && !before[n] && n != open ==> Finished(g, now, n)
  }

  lemma FinishedCompose(g: Graph, before: seq<bool>, mid: seq<bool>, now: seq<bool>, open: int)
    requires FinishedSince(g, before, mid, open) && FinishedSince(g, mid, now, -1)
    ensures FinishedSince(g, before, now, open)
  {
    forall n: nid | now[n] && !before[n] && n != open ensures Finished(g, now, n) {
      if mid[n] { assert Finished(g, mid, n); }
    }
  }

  /** No walk leaves a set of finished nodes, so none of them reaches a converter. */
  lemma {:induction false} FinishedBlocks(g: Graph, none: seq<bool>, now: seq<bool>, p: seq<nid>)
    requires FinishedSince(g, none, now, -1) && true !in none
    requires Walk(g, p) && now[p[0]]
    ensures !IsOutput(g[p[|p| - 1]])
    decreases |p|
  {
    assert Finished(g, now, p[0]);
    if |p| > 1 {
      assert g[p[1]].present;
      FinishedBlocks(g, none, now, p[1..]);
    }
  }

  function Unvisited(visited: seq<bool>): nat {
    if visited == [] then 0 else (if visited[0] then 0 else 1) + Unvisited(visited[1..])
  }

  lemma {:induction false} UnvisitedShrinks(before: seq<bool>, now: seq<bool>)
    requires |before| == |now| && forall i :: 0 <= i < |before| && before[i] ==> now[i]
    ensures Unvisited(now) <= Unvisited(before)
    ensures before != now ==> Unvisited(now) < Unvisited(before)
  {
    if before != [] {
      UnvisitedShrinks(before[1..], now[1..]);
      assert before == [before[0]] + before[1..] && now == [now[0]] + now[1..];
    }
  }

  // ---- the selected chain ----------------------------------------------------------

  /** The selected connections lead from the first node of the chain, through distinct present widgets that
      are no converters, to the converter `dac`. */
  predicate Selected(g: Graph, selected: seq<nat>, chain: seq<nid>, dac: nid)
    requires |selected| == NODES
  {
    && chain != [] && chain[|chain| - 1] == dac && IsOutput(g[dac])
    && (forall i :: 0 <= i < |chain| ==> g[chain[i]].present)
    && (forall i, j :: 0 <= i < j < |chain| ==> chain[i] != chain[j])
    && forall i :: 0 <= i < |chain| - 1 ==> Hop(g, selected, chain[i], chain[i + 1])
  }

  predicate Hop(g: Graph, selected: seq<nat>, from: nid, to: nid)
    requires |selected| == NODES
  {
    !IsOutput(g[from]) && selected[from] < |g[from].connections| && g[from].connections[selected[from]] == to
  }

  lemma SelectedExtends(g: Graph, selected: seq<nat>, node: nid, i: nat, chain: seq<nid>, dac: nid)
    requires |selected| == NODES && Selected(g, selected, chain, dac)
    requires node !in chain && g[node].present && !IsOutput(g[node])
    requires i < |g[node].connections| && g[node].connections[i] == chain[0]
    ensures Selected(g, selected[node := i], [node] + chain, dac)
  {
    var selected', chain' := selected[node := i], [node] + chain;
    forall k | 0 <= k < |chain'| - 1 ensures Hop(g, selected', chain'[k], chain'[k + 1]) {
      if k > 0 {
        assert chain'[k] == chain[k - 1] && chain'[k + 1] == chain[k];
        assert Hop(g, selected, chain[k - 1], chain[k]);
      }
    }
  }

  lemma SelectedAt(g: Graph, selected: seq<nat>, chain: seq<nid>, dac: nid, k: nat)
    requires |selected| == NODES && Selected(g, selected, chain, dac) && k < |chain|
    ensures g[chain[k]].present && chain[k] !in chain[..k]
    ensures chain[k] == dac <==> k == |chain| - 1
    ensures k + 1 < |chain| ==> Hop(g, selected, chain[k], chain[k + 1])
  {
    if k + 1 < |chain| { assert Hop(g, selected, chain[k], chain[k + 1]); }
  }

  lemma SelectedTail(g: Graph, selected: seq<nat>, chain: seq<nid>, dac: nid)
    requires |selected| == NODES && Selected(g, selected, chain, dac) && |chain| > 1
    ensures Selected(g, selected, chain[1..], dac) && chain[0] !in chain[1..]
  {
    forall i | 0 <= i < |chain| - 2 ensures Hop(g, selected, chain[1..][i], chain[1..][i + 1]) {
      assert Hop(g, selected, chain[i + 1], chain[i + 2]);
    }
  }

  /** A selected chain is a walk to a converter. */
  lemma SelectedIsRoute(g: Graph, selected: seq<nat>, chain: seq<nid>, dac: nid)
    requires |selected| == NODES && Selected(g, selected, chain, dac)
    ensures Routable(g, chain[0])
  {
    forall i | 0 <= i < |chain| - 1 ensures chain[i + 1] in g[chain[i]].connections {
      assert Hop(g, selected, chain[i], chain[i + 1]);
    }
    assert Walk(g, chain);
  }

  // ---- commands to the codec ----------------------------------------------------------

  datatype Verb =
    | Select(node: nid, index: nat)
    | PowerUp(node: nid)
    | OutputGain(node: nid, gain: nat)
    | InputGain(node: nid, index: nat, gain: nat)

  /** Zero-decibel gain steps of the output and input amplifiers, as the codec reports them. */
  datatype Gains = Gains(output: nid -> nat, input: nid -> nat)

  /** The connection selections the search sends on its way back: deepest widget first, none for the converter. */
  function SelectVerbs(selected: seq<nat>, chain: seq<nid>): seq<Verb>
    requires |selected| == NODES
  {
    if |chain| <= 1 then [] else SelectVerbs(selected, chain[1..]) + [Select(chain[0], selected[chain[0]])]
  }

  lemma {:induction false} SelectVerbsFrame(selected: seq<nat>, node: nid, i: nat, chain: seq<nid>)
    requires |selected| == NODES && node !in chain
    ensures SelectVerbs(selected[node := i], chain) == SelectVerbs(selected, chain)
  {
    if |chain| > 1 { SelectVerbsFrame(selected, node, i, chain[1..]); }
  }

  /** What enabling one widget sends; the converter gets no input gain. */
  function NodeVerbs(g: Graph, gains: Gains, selected: seq<nat>, n: nid, dac: nid): seq<Verb>
    requires |selected| == NODES
  {
    [PowerUp(n)]
    + (if HasOutputAmp(g[n]) then [OutputGain(n, gains.output(n))] else [])
    + (if n != dac && HasInputAmp(g[n]) then [InputGain(n, selected[n], gains.input(n))] else [])
  }

  /** What enabling a selected chain sends, node by node. */
  function ChainVerbs(g: Graph, gains: Gains, selected: seq<nat>, chain: seq<nid>, dac: nid): seq<Verb>
    requires |selected| == NODES
  {
    if chain == [] then []
    else NodeVerbs(g, gains, selected, chain[0], dac) + ChainVerbs(g, gains, selected, chain[1..], dac)
  }

  lemma ChainVerbsHead(g: Graph, gains: Gains, selected: seq<nat>, chain: seq<nid>, dac: nid)
    requires |selected| == NODES && chain != []
    ensures ChainVerbs(g, gains, selected, chain, dac)
         == NodeVerbs(g, gains, selected, chain[0], dac) + ChainVerbs(g, gains, selected, chain[1..], dac)
    ensures |chain| == 1 ==> ChainVerbs(g, gains, selected, chain[1..], dac) == []
  {
  }

  /** The widgets powered up are exactly those of the chain, each once and in order. */
  lemma {:induction false} PowersChain(g: Graph, gains: Gains, selected: seq<nat>, chain: seq<nid>, dac: nid)
    requires |selected| == NODES
    ensures Powered(ChainVerbs(g, gains, selected, chain, dac)) == chain
  {
    if chain != [] {
      var head, tail := NodeVerbs(g, gains, selected, chain[0], dac), ChainVerbs(g, gains, selected, chain[1..], dac);
      PowersChain(g, gains, selected, chain[1..], dac);
      assert (head + tail)[1..] == head[1..] + tail;
      PoweredSkips(head[1..], tail);
    }
  }

  /** Enabling sends to every widget of the chain its power, the gain of its output amplifier if it has one and, but
      for the converter, the gain of its input amplifier at the selected connection if it has one; and nothing else. */
  lemma {:induction false} VerbsOfChain(
    g: Graph, gains: Gains, selected: seq<nat>, chain: seq<nid>, dac: nid, v: Verb)
    requires |selected| == NODES
    ensures v in ChainVerbs(g, gains, selected, chain, dac) <==>
              exists n :: n in chain && (|| v == PowerUp(n)
                                         || (HasOutputAmp(g[n]) && v == OutputGain(n, gains.output(n)))
                                         || (n != dac && HasInputAmp(g[n])
                                             && v == InputGain(n, selected[n], gains.input(n))))
    decreases |chain|
  {
    hide HasOutputAmp, HasInputAmp;
    if chain != [] {
      VerbsOfChain(g, gains, selected, chain[1..], dac, v);
      assert chain == [chain[0]] + chain[1..];
    }
  }

  /** The connections are selected from the converter's end of the chain back to the pin. */
  lemma {:induction false} SelectsBackwards(selected: seq<nat>, chain: seq<nid>, k: nat)
    requires |selected| == NODES && k + 1 < |chain|
    ensures |SelectVerbs(selected, chain)| == |chain| - 1
    ensures var n := chain[|chain| - 2 - k]; SelectVerbs(selected, chain)[k] == Select(n, selected[n])
  {
    if |chain| > 2 { SelectsBackwards(selected, chain[1..], if k + 2 < |chain| then k else 0); }
  }

  function Powered(verbs: seq<Verb>): seq<nid> {
    if verbs == [] then []
    else (if verbs[0].PowerUp? then [verbs[0].node] else []) + Powered(verbs[1..])
  }

  lemma {:induction false} PoweredSkips(gains: seq<Verb>, rest: seq<Verb>)
    requires forall v :: v in gains ==> !v.PowerUp?
    ensures Powered(gains + rest) == Powered(rest)
  {
    if gains == [] {
      assert gains + rest == rest;
    } else {
      assert (gains + rest)[1..] == gains[1..] + rest;
      PoweredSkips(gains[1..], rest);
    }
  }

  /** The volume node after looking at some nodes of the chain in order: the first best so far. */
  function BestAmp(g: Graph, gains: Gains, chain: seq<nid>): (nid, nat) {
    if chain == [] then (0, 0)
    else
      var n := |chain| - 1;
      var (best, offset) := BestAmp(g, gains, chain[..n]);
      if HasOutputAmp(g[chain[n]]) && (best == 0 || gains.output(chain[n]) > offset)
      then (chain[n], gains.output(chain[n])) else (best, offset)
  }

  /** Node 0 is the codec's root and no widget: then the volume node is the earliest node of the chain with an
      output amplifier of the highest zero-decibel step, and 0 exactly when the chain has no such amplifier. */
  lemma {:induction false} BestAmpIsBest(g: Graph, gains: Gains, chain: seq<nid>) returns (k: nat)
    requires 0 !in chain
    ensures var (best, offset) := BestAmp(g, gains, chain);
            if best == 0 then forall i :: 0 <= i < |chain| ==> !HasOutputAmp(g[chain[i]])
            else k < |chain| && IsBestAmp(g, gains, chain, k) && best == chain[k] && offset == gains.output(best)
  {
    k := 0;
    if chain != [] {
      var n := |chain| - 1;
      k := BestAmpIsBest(g, gains, chain[..n]);
      var (before, offset) := BestAmp(g, gains, chain[..n]);
      if HasOutputAmp(g[chain[n]]) && (before == 0 || gains.output(chain[n]) > offset) { k := n; }
    }
  }

  predicate IsBestAmp(g: Graph, gains: Gains, chain: seq<nid>, k: nat)
    requires k < |chain|
  {
    && HasOutputAmp(g[chain[k]])
    && (forall i :: 0 <= i < |chain| && HasOutputAmp(g[chain[i]]) ==> gains.output(chain[i]) <= gains.output(chain[k]))
    && forall i :: 0 <= i < k && HasOutputAmp(g[chain[i]]) ==> gains.output(chain[i]) < gains.output(chain[k])
  }

  class Codec {
    const widgets: Graph
    const gains: Gains
    var selected: seq<nat>
    var dac: nid
    var pin: nid
    var volumeNode: nid
    var verbs: seq<Verb>

    constructor (widgets: Graph, gains: Gains)
      ensures this.widgets == widgets && this.gains == gains && |selected| == NODES && verbs == []
      ensures selected == seq(NODES, _ => UNSELECTED)
    {
      this.widgets, this.gains := widgets, gains;
      selected := seq(NODES, _ => UNSELECTED);
      dac, pin, volumeNode, verbs := 0, 0, 0, [];
    }

    /** Depth-first search for a converter. On failure everything visited since is finished and nothing was
        selected; on success the ghost chain shows the selected path through nodes not visited before. */
    method FindDacPath(node: nid, visited: array<bool>) returns (found: bool, ghost chain: seq<nid>)
      requires visited.Length == NODES && |selected| == NODES
      modifies `selected, `dac, `verbs, visited
      ensures |selected| == NODES
      ensures !found ==> selected == old(selected) && FinishedSince(widgets, old(visited[..]), visited[..], -1)
      ensures !found ==> chain == [] && (visited[node] || !widgets[node].present)
      ensures found ==> Selected(widgets, selected, chain, dac) && chain[0] == node
      ensures found ==> forall n :: n in chain ==> !old(visited[n])
      ensures found ==> forall n: nid :: n !in chain ==> selected[n] == old(selected[n])
      ensures verbs == old(verbs) + SelectVerbs(selected, chain)
      decreases Unvisited(visited[..])
    {
      found, chain := false, [];
      assert verbs + [] == verbs;
      if visited[node] || !widgets[node].present { return; }
      ghost var before := visited[..];
      visited[node] := true;
      UnvisitedShrinks(before, visited[..]);
      var w := widgets[node];
      if IsOutput(w) {
        dac := node;
        return true, [node];
      }
      for i := 0 to |w.connections|
        invariant FinishedSince(widgets, before, visited[..], node) && visited[node]
        invariant forall j :: 0 <= j < i ==> visited[w.connections[j]] || !widgets[w.connections[j]].present
        invariant selected == old(selected) && verbs == old(verbs) && chain == []
        invariant Unvisited(visited[..]) < Unvisited(before)
      {
        ghost var mid := visited[..];
        var ok;
        ok, chain := FindDacPath(w.connections[i], visited);
        if ok {
          assert node !in chain;
          SelectedExtends(widgets, selected, node, i, chain, dac);
          SelectVerbsFrame(selected, node, i, chain);
          assert ([node] + chain)[1..] == chain;
          assert old(verbs) + SelectVerbs(selected, chain) + [Select(node, i)]
              == old(verbs) + (SelectVerbs(selected, chain) + [Select(node, i)]);
          verbs := verbs + [Select(node, i)];
          selected := selected[node := i];
          return true, [node] + chain;
        }
        FinishedCompose(widgets, before, mid, visited[..], node);
        UnvisitedShrinks(mid, visited[..]);
      }
    }

    /** Power up and set the gains of every widget on the selected chain, each exactly once and in order. */
    method EnablePath(node: nid, visited: array<bool>, ghost chain: seq<nid>)
      requires visited.Length == NODES && |selected| == NODES
      requires Selected(widgets, selected, chain, dac) && chain[0] == node
      requires forall n :: n in chain ==> !visited[n]
      modifies `verbs, visited
      ensures verbs == old(verbs) + ChainVerbs(widgets, gains, selected, chain, dac)
      decreases |chain|
    {
      hide ChainVerbs;
      SelectedAt(widgets, selected, chain, dac, 0);
      ChainVerbsHead(widgets, gains, selected, chain, dac);
      ghost var sent := verbs;
      if visited[node] || !widgets[node].present { return; }
      visited[node] := true;
      var w := widgets[node];
      verbs := verbs + [PowerUp(node)];
      if HasOutputAmp(w) { verbs := verbs + [OutputGain(node, gains.output(node))]; }
      if node == dac || selected[node] >= |w.connections| {
        assert verbs == sent + NodeVerbs(widgets, gains, selected, node, dac) + [];
        return;
      }
      var index := selected[node];
      if HasInputAmp(w) { verbs := verbs + [InputGain(node, index, gains.input(node))]; }
      assert verbs == sent + NodeVerbs(widgets, gains, selected, node, dac);
      SelectedTail(widgets, selected, chain, dac);
      EnablePath(w.connections[index], visited, chain[1..]);
      ghost var here := NodeVerbs(widgets, gains, selected, node, dac);
      ghost var there := ChainVerbs(widgets, gains, selected, chain[1..], dac);
      assert sent + here + there == sent + (here + there);
    }

    /** Walk the selected chain once and keep the node with the best output amplifier. */
    method SelectVolumeNode(ghost chain: seq<nid>)
      requires |selected| == NODES && Selected(widgets, selected, chain, dac) && chain[0] == pin
      modifies `volumeNode
      ensures volumeNode == BestAmp(widgets, gains, chain).0
    {
      var node, best, offset := pin, 0, 0;
      var visited := new bool[NODES](_ => false);
      ghost var k := 0;
      SelectedAt(widgets, selected, chain, dac, 0);
      while !visited[node] && widgets[node].present
        invariant k < |chain| && node == chain[k] && widgets[node].present && node !in chain[..k]
        invariant (best, offset) == BestAmp(widgets, gains, chain[..k])
        invariant forall n: nid :: visited[n] <==> n in chain[..k]
        decreases |chain| - k
      {
        SelectedAt(widgets, selected, chain, dac, k);
        visited[node] := true;
        var w := widgets[node];
        assert chain[..k + 1][..k] == chain[..k];
        if HasOutputAmp(w) {
          var gain := gains.output(node);
          if best == 0 || gain > offset { best, offset := node, gain; }
        }
        if node == dac || selected[node] >= |w.connections| { break; }
        node := w.connections[selected[node]];
        k := k + 1;
        SelectedAt(widgets, selected, chain, dac, k);
      }
      assert chain[..k + 1] == chain;
      volumeNode := best;
    }

    /** One search from a pin, with nothing visited yet: it succeeds exactly when a converter is reachable. */
    method Search(node: nid) returns (found: bool, ghost chain: seq<nid>)
      requires |selected| == NODES
      modifies `selected, `dac, `pin, `verbs
      ensures |selected| == NODES && pin == node
      ensures found <==> Routable(widgets, node)
      ensures found ==> Selected(widgets, selected, chain, dac) && chain[0] == node
      ensures !found ==> selected == old(selected)
    {
      var visited := new bool[NODES](_ => false);
      ghost var none := visited[..];
      pin := node;
      dac := 0;
      found, chain := FindDacPath(pin, visited);
      if found {
        SelectedIsRoute(widgets, selected, chain, dac);
      } else {
        NotRoutable(widgets, none, visited[..], node);
      }
    }

    /** Try the pins of one score in node order. */
    method TryScore(start: nat, count: nat, score: int) returns (found: bool, ghost chain: seq<nid>, ghost at: nat)
      requires |selected| == NODES
      modifies `selected, `dac, `pin, `verbs
      ensures |selected| == NODES
      ensures found ==> Selected(widgets, selected, chain, dac) && chain[0] == pin == at % NODES
      ensures found ==> start <= at < start + count && PinScore(widgets[at % NODES]) == score
      ensures found ==> NoneAt(widgets, start, at, score)
      ensures !found ==> selected == old(selected) && NoneAt(widgets, start, start + count, score)
    {
      found, chain, at := false, [], start;
      for w := start to start + count
        invariant selected == old(selected) && NoneAt(widgets, start, w, score)
      {
        var node: nid := w % NODES;
        if PinScore(widgets[node]) == score {
          found, chain := Search(node);
          if found {
            at := w;
            return;
          }
        }
      }
    }

    /** The pin choice for one function group whose widgets are numbered from `start`: pins are tried by falling
        score and, within a score, in node order. */
    method ChoosePin(start: nat, count: nat) returns (found: bool, ghost chain: seq<nid>, ghost at: nat)
      requires |selected| == NODES
      modifies `selected, `dac, `pin, `verbs
      ensures |selected| == NODES
      ensures found ==> Selected(widgets, selected, chain, dac) && chain[0] == pin == at % NODES
      ensures found ==> IsFirstBest(widgets, start, count, at)
      ensures !found ==> selected == old(selected) && NoneAbove(widgets, start, start + count, 0)
    {
      var priorities := [30, 20, 10, 0];
      NoneAboveTop(widgets, start, start + count);
      for p := 0 to 4
        invariant selected == old(selected)
        invariant NoneAbove(widgets, start, start + count, if p == 0 then 31 else priorities[p - 1])
      {
        found, chain, at := TryScore(start, count, priorities[p]);
        if found {
          SelectedIsRoute(widgets, selected, chain, dac);
          FirstBest(widgets, start, count, at, if p == 0 then 31 else priorities[p - 1]);
          return;
        }
        StepDown(widgets, start, start + count, if p == 0 then 31 else priorities[p - 1], priorities[p]);
      }
      return false, [], start;
    }
  }

  /** No routable pin numbered from `lo` up to `hi` has exactly this score. */
  ghost predicate NoneAt(g: Graph, lo: nat, hi: nat, score: int) {
    forall w: nat :: lo <= w < hi && PinScore(g[w % NODES]) == score ==> !Routable(g, w % NODES)
  }

  /** No routable pin numbered from `lo` up to `hi` scores `score` or more. */
  ghost predicate NoneAbove(g: Graph, lo: nat, hi: nat, score: int) {
    forall w: nat :: lo <= w < hi && PinScore(g[w % NODES]) >= score ==> !Routable(g, w % NODES)
  }

  /** `w` is routable, no routable pin of the group scores more, and none before it scores as much. */
  ghost predicate IsFirstBest(g: Graph, start: nat, count: nat, w: nat) {
    && start <= w < start + count && Routable(g, w % NODES) && PinScore(g[w % NODES]) >= 0
    && NoneAbove(g, start, start + count, PinScore(g[w % NODES]) + 1)
    && NoneAbove(g, start, w, PinScore(g[w % NODES]))
  }

  lemma ScoreSteps(w: Widget)
    ensures PinScore(w) in {-1, 0, 10, 20, 30}
  {
  }

  lemma NoneAboveTop(g: Graph, lo: nat, hi: nat)
    ensures NoneAbove(g, lo, hi, 31)
  {
    forall w: nat | lo <= w < hi ensures PinScore(g[w % NODES]) < 31 {
      ScoreSteps(g[w % NODES]);
    }
  }

  lemma StepDown(g: Graph, lo: nat, hi: nat, above: int, score: int)
    requires (above, score) in {(31, 30), (30, 20), (20, 10), (10, 0)}
    requires NoneAbove(g, lo, hi, above) && NoneAt(g, lo, hi, score)
    ensures NoneAbove(g, lo, hi, score)
  {
    forall w: nat | lo <= w < hi && PinScore(g[w % NODES]) >= score ensures !Routable(g, w % NODES) {
      ScoreSteps(g[w % NODES]);
    }
  }

  lemma FirstBest(g: Graph, start: nat, count: nat, at: nat, above: int)
    requires start <= at < start + count && Routable(g, at % NODES)
    requires (above, PinScore(g[at % NODES])) in {(31, 30), (30, 20), (20, 10), (10, 0)}
    requires NoneAbove(g, start, start + count, above) && NoneAt(g, start, at, PinScore(g[at % NODES]))
    ensures IsFirstBest(g, start, count, at)
  {
    var score := PinScore(g[at % NODES]);
    forall w: nat | start <= w < start + count && PinScore(g[w % NODES]) >= score + 1 ensures !Routable(g, w % NODES) {
      ScoreSteps(g[w % NODES]);
    }
    assert NoneAbove(g, start, at, above);
    StepDown(g, start, at, above, score);
  }

  /** A failed search from an empty visited set proves that no converter is reachable. */
  lemma NotRoutable(g: Graph, none: seq<bool>, now: seq<bool>, from: nid)
    requires FinishedSince(g, none, now, -1) && true !in none
    requires now[from] || !g[from].present
    ensures !Routable(g, from)
  {
    forall p | Walk(g, p) && p[0] == from ensures !IsOutput(g[p[|p| - 1]]) {
      FinishedBlocks(g, none, now, p);
    }
  }
}
