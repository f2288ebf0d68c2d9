/** Adding enter and exit records to the tree (LogData.cpp, LogData.h). */
module FlowTree {
  import opened LogNodes
  import B = Brackets

  /** The flow nodes of a thread in order of arrival, and the calls they stand for. */
  datatype Thread = Thread(flows: seq<LogNode>, state: B.State)

  /** Flow node number i of thread th is what call number i stands for. */
  ghost predicate FlowAt(th: LogNode, t: Thread, i: nat)
    requires i < |t.flows| == |t.state.calls|
    reads {t.flows[i]}`parent, {t.flows[i]}`peer, {t.flows[i]}`fnLine
  {
    var f, c := t.flows[i], t.state.calls[i];
    && f.kind == FlowNode && f.threadNode == th
    && f.isEnter == c.enter && f.thisFn == c.fn && f.fnLine == c.line
    && (c.peer.Some? ==> c.peer.value < |t.flows|)
    && f.peer == (if c.peer.None? then null else t.flows[c.peer.value])
    && (c.place.Under? ==> c.place.call < |t.flows|)
    && f.parent == match c.place case Detached => null case UnderThread => th case Under(j) => t.flows[j]
  }

  /** The flow nodes of thread th, their parents, peers and line numbers, and its current node
      are the ones the calls of t stand for. */
  ghost predicate ThreadIs(th: LogNode, t: Thread)
    reads th`curentFlow, t.flows`parent, t.flows`peer, t.flows`fnLine
  {
    && th.kind == ThreadNode
    && |t.flows| == |t.state.calls| && B.Sound(t.state)
    && (forall i {:trigger FlowAt(th, t, i)} :: 0 <= i < |t.flows| ==> FlowAt(th, t, i))
    && (forall i, j :: 0 <= i < j < |t.flows| ==> t.flows[i] != t.flows[j])
    && th.curentFlow == if t.state.cur.None? then null else t.flows[t.state.cur.value]
  }

  /** All nodes of the thread are in the archive. */
  ghost predicate Within(s: Shape, th: LogNode, t: Thread) {
    th in s && forall i {:trigger t.flows[i]} :: 0 <= i < |t.flows| ==> t.flows[i] in s
  }

  ghost function ThreadOf(th: LogNode): Thread
    reads th`flows, th`calls
  {
    Thread(th.flows, th.calls)
  }

  /** Thread th holds exactly its calls. */
  ghost predicate ThreadOk(a: Archive, th: LogNode)
    reads a`shape, th`flows, th`calls, th`curentFlow, th.flows`parent, th.flows`peer, th.flows`fnLine
  {
    ThreadIs(th, ThreadOf(th)) && Within(a.shape, th, ThreadOf(th))
  }

  /** Its calls are the ones that its records make. */
  ghost predicate Recorded(th: LogNode)
    reads th`calls, th`records
  {
    th.calls == B.Run(th.records, |th.records|)
  }

  /** Those of the flow nodes that are at a place, in order of arrival. */
  ghost function Pick(flows: seq<LogNode>, calls: seq<B.Call>, place: B.Place): seq<LogNode>
    requires |flows| == |calls|
  {
    if flows == [] then []
    else
      var n := |flows| - 1;
      Pick(flows[..n], calls[..n], place) + if calls[n].place == place then [flows[n]] else []
  }

  /** The children of the thread and of each of its calls are the calls placed there, in order of arrival. */
  ghost predicate InOrder(s: Shape, th: LogNode, t: Thread) {
    && Within(s, th, t) && |t.flows| == |t.state.calls|
    && s[th].kids == Pick(t.flows, t.state.calls, B.UnderThread)
    && forall j: nat {:trigger B.Under(j)} :: j < |t.flows| ==>
      t.flows[j] in s && s[t.flows[j]].kids == Pick(t.flows, t.state.calls, B.Under(j))
  }

  lemma PickMore(flows: seq<LogNode>, calls: seq<B.Call>, place: B.Place, f: LogNode, c: B.Call)
    requires |flows| == |calls|
    ensures Pick(flows + [f], calls + [c], place) == Pick(flows, calls, place) + if c.place == place then [f] else []
  {
    assert (flows + [f])[..|flows|] == flows && (calls + [c])[..|calls|] == calls;
  }

  ghost predicate SamePlaces(a: seq<B.Call>, b: seq<B.Call>) {
    |a| == |b| && forall i :: 0 <= i < |a| ==> a[i].place == b[i].place
  }

  lemma {:induction false} PickSame(flows: seq<LogNode>, a: seq<B.Call>, b: seq<B.Call>, place: B.Place)
    requires |flows| == |a| && SamePlaces(a, b)
    ensures Pick(flows, a, place) == Pick(flows, b, place)
  {
    if flows != [] {
      var n := |flows| - 1;
      PickSame(flows[..n], a[..n], b[..n], place);
    }
  }

  lemma {:induction false} PickNone(flows: seq<LogNode>, calls: seq<B.Call>, place: B.Place)
    requires |flows| == |calls| && forall i :: 0 <= i < |calls| ==> calls[i].place != place
    ensures Pick(flows, calls, place) == []
  {
    if flows != [] {
      var n := |flows| - 1;
      PickNone(flows[..n], calls[..n], place);
    }
  }

  /** Whoever is picked is at the place. */
  lemma {:induction false} PickedIs(flows: seq<LogNode>, calls: seq<B.Call>, place: B.Place, k: nat) returns (i: nat)
    requires |flows| == |calls| && k < |Pick(flows, calls, place)|
    ensures i < |flows| && Pick(flows, calls, place)[k] == flows[i] && calls[i].place == place
  {
    i := |flows| - 1;
    if k < |Pick(flows[..i], calls[..i], place)| {
      i := PickedIs(flows[..i], calls[..i], place, k);
    }
  }

  lemma {:induction false} PickHas(flows: seq<LogNode>, calls: seq<B.Call>, place: B.Place, i: nat) returns (k: nat)
    requires |flows| == |calls| && i < |flows| && calls[i].place == place
    ensures k < |Pick(flows, calls, place)| && Pick(flows, calls, place)[k] == flows[i]
  {
    var n := |flows| - 1;
    k := |Pick(flows[..n], calls[..n], place)|;
    if i < n {
      k := PickHas(flows[..n], calls[..n], place, i);
    }
  }

  /** Earlier ones are picked first. */
  lemma {:induction false} PickInOrder(flows: seq<LogNode>, calls: seq<B.Call>, place: B.Place, i: nat, j: nat)
    returns (k: nat, m: nat)
    requires |flows| == |calls| && i < j < |flows| && calls[i].place == calls[j].place == place
    ensures k < m < |Pick(flows, calls, place)|
    ensures Pick(flows, calls, place)[k] == flows[i] && Pick(flows, calls, place)[m] == flows[j]
  {
    var n := |flows| - 1;
    if j < n {
      k, m := PickInOrder(flows[..n], calls[..n], place, i, j);
    } else {
      k := PickHas(flows[..n], calls[..n], place, i);
      m := |Pick(flows[..n], calls[..n], place)|;
    }
  }

  /** Where the next record's node goes. */
  function PlaceOf(state: B.State, e: B.Event): B.Place
    requires state.cur.Some? ==> state.cur.value < |state.calls|
  {
    B.Step(state, e).calls[|state.calls|].place
  }

  /** The shape of the archive with node c as last child at a place of thread th. */
  ghost function Grown(s: Shape, th: LogNode, t: Thread, c: LogNode, place: B.Place): Shape
    requires Within(s, th, t) && c in s && (place.Under? ==> place.call < |t.flows|)
  {
    match place
    case Detached => s
    case UnderThread => Append(s, th, c)
    case Under(j) => Append(s, t.flows[j], c)
  }

  /** The nodes of the thread are its own. */
  ghost predicate Own(th: LogNode, t: Thread) {
    && th.kind == ThreadNode
    && (forall i {:trigger t.flows[i]} :: 0 <= i < |t.flows| ==>
          t.flows[i].kind == FlowNode && t.flows[i].threadNode == th)
    && forall i, j :: 0 <= i < j < |t.flows| ==> t.flows[i] != t.flows[j]
  }

  lemma StepPlaces(state: B.State, e: B.Event)
    requires B.Sound(state)
    ensures var n := |state.calls|; var state' := B.Step(state, e);
      && |state'.calls| == n + 1 && SamePlaces(state'.calls[..n], state.calls)
      && (PlaceOf(state, e).Under? ==> PlaceOf(state, e).call < n)
  {
  }

  lemma PickStep(t: Thread, c: LogNode, e: B.Event, p: B.Place)
    requires B.Sound(t.state) && |t.flows| == |t.state.calls|
    ensures var calls := B.Step(t.state, e).calls;
      && |calls| == |t.flows| + 1
      && Pick(t.flows + [c], calls, p) == Pick(t.flows, t.state.calls, p) + if PlaceOf(t.state, e) == p then [c] else []
  {
    StepPlaces(t.state, e);
    var n, calls := |t.flows|, B.Step(t.state, e).calls;
    assert calls == calls[..n] + [calls[n]];
    PickMore(t.flows, calls[..n], p, c, calls[n]);
    PickSame(t.flows, calls[..n], t.state.calls, p);
  }

  /** Only the children of the parent at that place change. */
  lemma GrownKids(s: Shape, th: LogNode, t: Thread, c: LogNode, place: B.Place, p: B.Place, n: LogNode)
    requires Within(s, th, t) && Own(th, t) && c in s && c != th && c !in t.flows
    requires (place.Under? ==> place.call < |t.flows|) && (p.Under? ==> p.call < |t.flows|) && !p.Detached?
    requires n == if p.Under? then t.flows[p.call] else th
    ensures n in Grown(s, th, t, c, place)
    ensures Grown(s, th, t, c, place)[n].kids == s[n].kids + if place == p then [c] else []
  {
  }

  lemma NothingUnderLast(t: Thread)
    requires B.Sound(t.state) && |t.flows| == |t.state.calls|
    ensures Pick(t.flows, t.state.calls, B.Under(|t.flows|)) == []
  {
    forall i | 0 <= i < |t.flows|
      ensures t.state.calls[i].place != B.Under(|t.flows|)
    {
      assert B.Placed(t.state, i);
    }
    PickNone(t.flows, t.state.calls, B.Under(|t.flows|));
  }

  /** One more record puts its node last at its place and leaves all other orders as they were. */
  lemma StepInOrder(s: Shape, th: LogNode, t: Thread, c: LogNode, e: B.Event)
    requires B.Sound(t.state) && InOrder(s, th, t) && Own(th, t)
    requires c in s && s[c].kids == [] && c != th && c !in t.flows
    ensures PlaceOf(t.state, e).Under? ==> PlaceOf(t.state, e).call < |t.flows|
    ensures InOrder(Grown(s, th, t, c, PlaceOf(t.state, e)), th, Thread(t.flows + [c], B.Step(t.state, e)))
  {
    var n, place := |t.flows|, PlaceOf(t.state, e);
    StepPlaces(t.state, e);
    NothingUnderLast(t);
    hide B.Step, B.Sound, Pick, Own;
    var s', t' := Grown(s, th, t, c, place), Thread(t.flows + [c], B.Step(t.state, e));
    PickStep(t, c, e, B.UnderThread);
    GrownKids(s, th, t, c, place, B.UnderThread, th);
    forall j: nat {:trigger B.Under(j)} | j < n + 1
      ensures t'.flows[j] in s' && s'[t'.flows[j]].kids == Pick(t'.flows, t'.state.calls, B.Under(j))
    {
      PickStep(t, c, e, B.Under(j));
      if j < n {
        GrownKids(s, th, t, c, place, B.Under(j), t.flows[j]);
      }
    }
    assert Within(s', th, t');
  }

  /** A node added elsewhere leaves the orders of a thread as they were. */
  lemma ElsewhereInOrder(s: Shape, s': Shape, th: LogNode, t: Thread)
    requires InOrder(s, th, t) && s.Keys <= s'.Keys
    requires s'[th].kids == s[th].kids && forall f <- t.flows :: f in s && s'[f].kids == s[f].kids
    ensures InOrder(s', th, t)
  {
    forall j: nat | j < |t.flows|
      ensures s'[t.flows[j]].kids == Pick(t.flows, t.state.calls, B.Under(j))
    {
      assert t.flows[j] in t.flows;
      assert s[t.flows[j]].kids == Pick(t.flows, t.state.calls, B.Under(j));
    }
  }

  /** The record a node was made from, with what the thread node would answer at that time. */
  function EventOf(c: LogNode, threadBit: bool): B.Event
    reads c`fnLine
  {
    B.Event(c.isEnter, c.thisFn, c.fnLine, threadBit)
  }

  /** Make c the last child of the thread or of its current node, and the current node. */
  method AddThreadChild(a: Archive, th: LogNode, c: LogNode, asRoot: bool)
    requires a.Valid() && th in a.shape && Newest(a, c) && c != th
    requires !asRoot ==> th.curentFlow != null && th.curentFlow in a.shape && th.curentFlow != c
    modifies a`shape, th`threadFlags, th`curentFlow
    modifies a.shape.Keys`firstChild, a.shape.Keys`lastChild
    modifies a.shape.Keys`nextChankCounter, a.shape.Keys`nextChankMarker
    modifies c`parent, c`prevSibling, a.shape.Keys`nextSibling, a.shape.Keys`nextChank, a.shape.Keys`childCount
    ensures a.Valid() && a.shape == Append(old(a.shape), if asRoot then th else old(th.curentFlow), c)
    ensures th.curentFlow == c && th.threadFlags == if asRoot then c.logFlags else old(th.threadFlags)
    ensures c.parent == if asRoot then th else old(th.curentFlow)
  {
    var parent: LogNode := th;
    if asRoot {
      th.threadFlags := c.logFlags;
    } else {
      parent := th.curentFlow;
    }
    a.AddChild(parent, c);
    assert a.LinkedAcross(c);
    th.curentFlow := c;
  }

  method AddCall(a: Archive, th: LogNode, c: LogNode, asRoot: bool, ghost t: Thread, ghost e: B.Event)
    requires a.Valid() && ThreadIs(th, t) && Within(a.shape, th, t) && NewFlow(a, th, t, c)
    requires e.enter == c.isEnter && e.fn == c.thisFn && e.line == c.fnLine
    requires !asRoot ==> t.state.cur.Some? && th.curentFlow != null && th.curentFlow in a.shape
    modifies a`shape, th`threadFlags, th`curentFlow
    modifies a.shape.Keys`firstChild, a.shape.Keys`lastChild
    modifies a.shape.Keys`nextChankCounter, a.shape.Keys`nextChankMarker
    modifies c`parent, c`prevSibling, a.shape.Keys`nextSibling, a.shape.Keys`nextChank, a.shape.Keys`childCount
    ensures a.Valid() && a.shape == Append(old(a.shape), if asRoot then th else old(th.curentFlow), c)
    ensures var place := if asRoot then B.UnderThread else B.Under(t.state.cur.value);
      ThreadIs(th, Thread(t.flows + [c], B.AddChild(t.state, e, place)))
    ensures th.threadFlags == if asRoot then c.logFlags else old(th.threadFlags)
  {
    hide Archive.Valid;
    AddThreadChild(a, th, c, asRoot);
    ghost var place := if asRoot then B.UnderThread else B.Under(t.state.cur.value);
    B.AddChildSound(t.state, e, place);
    ghost var t' := Thread(t.flows + [c], B.AddChild(t.state, e, place));
    forall i {:trigger FlowAt(th, t', i)} | 0 <= i < |t'.flows| ensures FlowAt(th, t', i) {
      if i < |t.flows| {
        assert old(FlowAt(th, t, i)) && B.Paired(t.state, i) && B.Placed(t.state, i);
        assert t'.flows[i] == t.flows[i] && t'.state.calls[i] == t.state.calls[i];
      }
    }
  }

  /** c is the newest node of the archive and not in the tree yet. */
  ghost predicate Newest(a: Archive, c: LogNode)
    reads a`shape, a`nodes
  {
    Loose(a.shape, c) && c != a.root && a.shape[c].rank == |a.nodes| - 1
  }

  /** Besides, c is a flow node of thread th that is not in the tree yet. */
  ghost predicate NewFlow(a: Archive, th: LogNode, t: Thread, c: LogNode)
    reads a`shape, a`nodes, c`peer, c`parent
  {
    && Newest(a, c) && c.peer == null && c.parent == null
    && c.kind == FlowNode && c.threadNode == th && c !in t.flows
  }

  /** Put the new flow node c where its record belongs: an enter under the current call or the
      thread; an exit beside the nearest open enter of its function, or under the thread or the
      current node if there is none. threadBit is the answer of the thread node to isEnter(). */
  method AddToTree(a: Archive, th: LogNode, c: LogNode, threadBit: bool, ghost t: Thread, ghost e: B.Event)
    requires a.Valid() && ThreadIs(th, t) && Within(a.shape, th, t) && NewFlow(a, th, t, c)
    requires e == EventOf(c, threadBit)
    modifies a`shape, th`threadFlags, th`curentFlow, c`peer, t.flows`peer, t.flows`fnLine
    modifies a.shape.Keys`firstChild, a.shape.Keys`lastChild
    modifies a.shape.Keys`nextChankCounter, a.shape.Keys`nextChankMarker
    modifies c`parent, c`prevSibling, a.shape.Keys`nextSibling, a.shape.Keys`nextChank, a.shape.Keys`childCount
    ensures a.Valid() && a.shape.Keys == old(a.shape.Keys)
    ensures PlaceOf(t.state, e).Under? ==> PlaceOf(t.state, e).call < |t.flows|
    ensures a.shape == Grown(old(a.shape), th, t, c, PlaceOf(t.state, e))
    ensures ThreadIs(th, Thread(t.flows + [c], B.Step(t.state, e)))
  {
    hide Archive.Valid;
    assert th.curentFlow != null ==> FlowAt(th, t, t.state.cur.value);
    if th.curentFlow == null || c.isEnter {
      var asRoot := th.curentFlow == null || th.curentFlow.peer != null || !th.curentFlow.isEnter;
      AddCall(a, th, c, asRoot, t, e);
    } else {
      AddExit(a, th, c, threadBit, t, e);
    }
  }

  method AddExit(a: Archive, th: LogNode, c: LogNode, threadBit: bool, ghost t: Thread, ghost e: B.Event)
    requires a.Valid() && ThreadIs(th, t) && Within(a.shape, th, t) && NewFlow(a, th, t, c) && !c.isEnter
    requires e == EventOf(c, threadBit)
    requires th.curentFlow != null && th.curentFlow in a.shape
    modifies a`shape, th`threadFlags, th`curentFlow, c`peer, t.flows`peer, t.flows`fnLine
    modifies a.shape.Keys`firstChild, a.shape.Keys`lastChild
    modifies a.shape.Keys`nextChankCounter, a.shape.Keys`nextChankMarker
    modifies c`parent, c`prevSibling, a.shape.Keys`nextSibling, a.shape.Keys`nextChank, a.shape.Keys`childCount
    ensures a.Valid() && a.shape.Keys == old(a.shape.Keys)
    ensures PlaceOf(t.state, e).Under? ==> PlaceOf(t.state, e).call < |t.flows|
    ensures a.shape == Grown(old(a.shape), th, t, c, PlaceOf(t.state, e))
    ensures ThreadIs(th, Thread(t.flows + [c], B.Step(t.state, e)))
  {
    hide Archive.Valid;
    var last := FindOpen(th, c.thisFn, t);
    if last != th {
      PairCall(a, th, last, c, t, e);
    } else {
      AddCall(a, th, c, threadBit, t, e);
    }
  }

  /** The nearest open enter of fn from the current node up, or the thread. */
  method FindOpen(th: LogNode, fn: nat, ghost t: Thread) returns (last: LogNode)
    requires ThreadIs(th, t) && th.curentFlow != null
    ensures match B.Match(t.state, t.state.cur.value, fn)
      case None => last == th
      case Some(i) => last == t.flows[i] && last != th
  {
    last := th.curentFlow;
    ghost var i: nat := t.state.cur.value;
    assert FlowAt(th, t, i);
    while last != th
      invariant last == th ==> B.Match(t.state, t.state.cur.value, fn).None?
      invariant last != th ==> i < |t.flows| && last == t.flows[i] && !t.state.calls[i].place.Detached?
      invariant last != th ==> B.Match(t.state, t.state.cur.value, fn) == B.Match(t.state, i, fn)
      decreases if last == th then 0 else i + 1
    {
      assert FlowAt(th, t, i) && B.Placed(t.state, i);
      if last.peer == null && last.isEnter && last.thisFn == fn {
        return;
      }
      assert B.Match(t.state, i, fn) ==
        if t.state.calls[i].place.Under? then B.Match(t.state, t.state.calls[i].place.call, fn) else B.None;
      last := last.parent;
      i := if t.state.calls[i].place.Under? then t.state.calls[i].place.call else 0;
      assert last != th ==> FlowAt(th, t, i);
    }
  }

  /** Make enter `last` and exit c peers; the parent of the enter becomes current unless it is the thread. */
  method LinkPeers(th: LogNode, last: LogNode, c: LogNode)
    requires last != c
    modifies th`curentFlow, c`peer, last`peer, last`fnLine
    ensures last.peer == c && c.peer == last
    ensures last.fnLine == if old(last.fnLine) == 0 then c.fnLine else old(last.fnLine)
    ensures th.curentFlow == if last.parent != th then last.parent else old(th.curentFlow)
  {
    last.peer := c;
    c.peer := last;
    if last.fnLine == 0 {
      last.fnLine := c.fnLine;
    }
    if last.parent != th {
      th.curentFlow := last.parent;
    }
  }

  method PairCall(ghost a: Archive, th: LogNode, last: LogNode, c: LogNode, ghost t: Thread, ghost e: B.Event)
    requires a.Valid() && ThreadIs(th, t) && Within(a.shape, th, t) && NewFlow(a, th, t, c) && !c.isEnter
    requires e.enter == c.isEnter && e.fn == c.thisFn && e.line == c.fnLine
    requires t.state.cur.Some? && B.Match(t.state, t.state.cur.value, e.fn).Some?
    requires last == t.flows[B.Match(t.state, t.state.cur.value, e.fn).value]
    modifies th`curentFlow, c`peer, last`peer, last`fnLine
    ensures ThreadIs(th, Thread(t.flows + [c], B.Step(t.state, e)))
  {
    hide Archive.Valid;
    ghost var i := B.Match(t.state, t.state.cur.value, e.fn).value;
    assert FlowAt(th, t, i) && B.Placed(t.state, i) && B.Paired(t.state, i);
    assert t.state.calls[i].place.Under? ==> FlowAt(th, t, t.state.calls[i].place.call);
    LinkPeers(th, last, c);
    B.PairSound(t.state, e, i);
    ghost var t' := Thread(t.flows + [c], B.Pair(t.state, e, i));
    assert FlowAt(th, t', i) && FlowAt(th, t', |t.flows|);
    forall k {:trigger FlowAt(th, t', k)} | 0 <= k < |t.flows| && k != i ensures FlowAt(th, t', k) {
      assert old(FlowAt(th, t, k)) && B.Paired(t.state, k) && B.Placed(t.state, k);
      assert t'.flows[k] == t.flows[k] && t'.state.calls[k] == t.state.calls[k];
    }
  }

  /** Thread th holds exactly the calls that its records make, and they hang in order of arrival. */
  ghost predicate Built(a: Archive, th: LogNode)
    reads a`shape, th`flows, th`calls, th`records, th`curentFlow, th.flows`parent, th.flows`peer, th.flows`fnLine
  {
    ThreadOk(a, th) && Recorded(th) && InOrder(a.shape, th, ThreadOf(th))
  }

  lemma ThreadIsOwn(th: LogNode, t: Thread)
    requires ThreadIs(th, t)
    ensures Own(th, t)
  {
    forall i {:trigger t.flows[i]} | 0 <= i < |t.flows|
      ensures t.flows[i].kind == FlowNode && t.flows[i].threadNode == th
    {
      assert FlowAt(th, t, i);
    }
  }

  /** Threads share no nodes. */
  lemma OwnApart(th: LogNode, t: Thread, th': LogNode, t': Thread)
    requires Own(th, t) && Own(th', t') && th != th'
    ensures th' !in t.flows && th !in t'.flows && forall f <- t'.flows :: f !in t.flows
  {
  }

  /** The shape with a new node outside the tree. */
  ghost function Added(s: Shape, c: LogNode, rank: nat): Shape {
    s[c := Spot(rank, null, 0, {}, [])]
  }

  /** A new thread node, the last one under an application node. */
  method AddThread(a: Archive, app: LogNode, flags: nat) returns (th: LogNode)
    requires a.Valid() && app in a.shape && app.kind == AppNode
    modifies a`nodes, a`shape
    modifies a.shape.Keys`firstChild, a.shape.Keys`lastChild
    modifies a.shape.Keys`nextChankCounter, a.shape.Keys`nextChankMarker
    modifies a.shape.Keys`nextSibling, a.shape.Keys`nextChank, a.shape.Keys`childCount
    ensures a.Valid() && fresh(th) && th.records == [] && Built(a, th)
    ensures a.shape == Append(Added(old(a.shape), th, |old(a.nodes)|), app, th)
    ensures a.shape.Keys == old(a.shape.Keys) + {th}
    ensures th.parent == app && app.lastChild == th && th.prevSibling == old(app.lastChild)
    ensures forall o {:trigger Built(a, o)} :: o in old(a.shape) && old(Built(a, o)) ==>
              Built(a, o) && o.records == old(o.records)
  {
    hide *;
    ghost var s := a.shape;
    forall o {:trigger Built(a, o)} | o in s && Built(a, o)
      ensures Own(o, ThreadOf(o)) && ThreadIs(o, ThreadOf(o)) && Recorded(o) && InOrder(s, o, ThreadOf(o))
    {
      BuiltMeans(a, o);
    }
    th := NewThread(a, app, flags);
    forall o {:trigger Built(a, o)} | o in s && old(Built(a, o))
      ensures Built(a, o)
    {
      BuiltMeans(a, o);
      OtherThread(s, app, th, |old(a.nodes)|, o, ThreadOf(o));
      assert ThreadIs(o, ThreadOf(o));
    }
  }

  /** The links of a node that was put under p last. */
  lemma LastChild(a: Archive, s: Shape, p: LogNode, c: LogNode)
    requires a.Valid() && p in s && Loose(s, c) && p != c && a.shape == Append(s, p, c)
    ensures c.parent == p && p.lastChild == c && c.prevSibling == Last(s[p].kids)
    ensures a.shape.Keys == s.Keys && a.shape[c].kids == []
  {
    assert a.LinkedAcross(c) && a.LinkedDown(p);
  }

  /** A node outside the tree comes after all others. */
  lemma NewNodeIsLoose(a: Archive, p: LogNode, c: LogNode)
    requires a.Valid() && p in a.shape && c !in a.shape
    ensures var s := Added(a.shape, c, |a.nodes|);
      && s == a.shape[c := Spot(|a.nodes|, null, 0, {}, [])] && Loose(s, c) && c in s
      && s[p] == a.shape[p] && s[p].rank < s[c].rank && c != a.root && p != c && s[c].kids == []
      && p.lastChild == Last(s[p].kids) && s.Keys == a.shape.Keys + {c}
  {
    assert a.LinkedDown(p);
  }

  lemma NewIsBuilt(a: Archive, th: LogNode)
    requires th.kind == ThreadNode && th.curentFlow == null && th.flows == [] && th.calls == B.START && th.records == []
    requires th in a.shape && a.shape[th].kids == []
    ensures Built(a, th)
  {
  }

  lemma OtherThread(s: Shape, app: LogNode, th: LogNode, rank: nat, o: LogNode, t: Thread)
    requires app in s && app.kind == AppNode && th !in s && Own(o, t) && InOrder(s, o, t)
    ensures InOrder(Append(Added(s, th, rank), app, th), o, t)
  {
    ElsewhereInOrder(s, Append(Added(s, th, rank), app, th), o, t);
  }

  method NewThread(a: Archive, app: LogNode, flags: nat) returns (th: LogNode)
    requires a.Valid() && app in a.shape && app.kind == AppNode
    modifies a`nodes, a`shape
    modifies a.shape.Keys`firstChild, a.shape.Keys`lastChild
    modifies a.shape.Keys`nextChankCounter, a.shape.Keys`nextChankMarker
    modifies a.shape.Keys`nextSibling, a.shape.Keys`nextChank, a.shape.Keys`childCount
    ensures a.Valid() && fresh(th) && th.records == [] && Built(a, th)
    ensures a.shape == Append(Added(old(a.shape), th, |old(a.nodes)|), app, th)
    ensures a.shape.Keys == old(a.shape.Keys) + {th}
    ensures th.parent == app && app.lastChild == th && th.prevSibling == old(app.lastChild)
  {
    hide *;
    th := new LogNode(ThreadNode, null, false, 0, 0, flags);
    NewNodeIsLoose(a, app, th);
    a.Add(th);
    ghost var s := a.shape;
    a.AddChild(app, th);
    LastChild(a, s, app, th);
    NewIsBuilt(a, th);
  }

  /** A node for a record of thread th at the end of the archive, not in the tree yet. */
  method NewNode(a: Archive, th: LogNode, isEnter: bool, thisFn: nat, fnLine: int, flags: nat) returns (c: LogNode)
    requires a.Valid() && ThreadOk(a, th)
    modifies a`nodes, a`shape
    ensures a.Valid() && ThreadOk(a, th) && fresh(c) && NewFlow(a, th, ThreadOf(th), c)
    ensures c.isEnter == isEnter && c.thisFn == thisFn && c.fnLine == fnLine
    ensures a.shape == Added(old(a.shape), c, |old(a.nodes)|)
  {
    c := new LogNode(FlowNode, th, isEnter, thisFn, fnLine, flags);
    a.Add(c);
    assert a.LinkedAcross(c);
  }

  /** Put node c of thread th in the tree. */
  method AddOwn(a: Archive, th: LogNode, c: LogNode, threadBit: bool, ghost e: B.Event)
    requires a.Valid() && ThreadOk(a, th) && NewFlow(a, th, ThreadOf(th), c) && e == EventOf(c, threadBit)
    modifies a`shape, th`threadFlags, th`curentFlow, th`flows, th`calls, c`peer, th.flows`peer, th.flows`fnLine
    modifies a.shape.Keys`firstChild, a.shape.Keys`lastChild
    modifies a.shape.Keys`nextChankCounter, a.shape.Keys`nextChankMarker
    modifies c`parent, c`prevSibling, a.shape.Keys`nextSibling, a.shape.Keys`nextChank, a.shape.Keys`childCount
    ensures a.Valid() && ThreadOk(a, th)
    ensures th.calls == B.Step(old(th.calls), e) && th.flows == old(th.flows) + [c]
    ensures PlaceOf(old(th.calls), e).Under? ==> PlaceOf(old(th.calls), e).call < |old(th.flows)|
    ensures a.shape == Grown(old(a.shape), th, old(ThreadOf(th)), c, PlaceOf(old(th.calls), e))
  {
    hide Archive.Valid, B.Step;
    ghost var t := ThreadOf(th);
    th.flows, th.calls := th.flows + [c], B.Step(th.calls, e);
    AddToTree(a, th, c, threadBit, t, e);
    assert ThreadOf(th) == Thread(t.flows + [c], B.Step(t.state, e));
  }

  /** A new node for a record of thread th, put in the tree. */
  method AddNode(a: Archive, th: LogNode, e: B.Event, flags: nat) returns (c: LogNode)
    requires a.Valid() && ThreadOk(a, th)
    modifies a`nodes, a`shape, th`threadFlags, th`curentFlow, th`flows, th`calls, th.flows`peer, th.flows`fnLine
    modifies a.shape.Keys`firstChild, a.shape.Keys`lastChild
    modifies a.shape.Keys`nextChankCounter, a.shape.Keys`nextChankMarker
    modifies a.shape.Keys`nextSibling, a.shape.Keys`nextChank, a.shape.Keys`childCount
    ensures a.Valid() && ThreadOk(a, th) && fresh(c) && a.shape.Keys == old(a.shape.Keys) + {c}
    ensures th.flows == old(th.flows) + [c] && th.calls == B.Step(old(th.calls), e)
    ensures PlaceOf(old(th.calls), e).Under? ==> PlaceOf(old(th.calls), e).call < |old(th.flows)|
    ensures Within(Added(old(a.shape), c, |old(a.nodes)|), th, old(ThreadOf(th)))
    ensures a.shape ==
              Grown(Added(old(a.shape), c, |old(a.nodes)|), th, old(ThreadOf(th)), c, PlaceOf(old(th.calls), e))
  {
    hide Archive.Valid, B.Step, ThreadIs;
    c := NewNode(a, th, e.enter, e.fn, e.line, flags);
    AddOwn(a, th, c, e.threadBit, e);
  }

  lemma AddedIsLoose(s: Shape, th: LogNode, t: Thread, c: LogNode, rank: nat)
    requires c !in s && Within(s, th, t)
    ensures Loose(Added(s, c, rank), c) && c != th && c !in t.flows
  {
  }

  lemma OwnGrown(s: Shape, th: LogNode, t: Thread, c: LogNode, rank: nat, e: B.Event)
    requires Own(th, t) && B.Sound(t.state) && InOrder(s, th, t) && c !in s
    ensures PlaceOf(t.state, e).Under? ==> PlaceOf(t.state, e).call < |t.flows|
    ensures Within(Added(s, c, rank), th, t)
    ensures var s' := Grown(Added(s, c, rank), th, t, c, PlaceOf(t.state, e));
      InOrder(s', th, Thread(t.flows + [c], B.Step(t.state, e)))
  {
    ElsewhereInOrder(s, Added(s, c, rank), th, t);
    StepInOrder(Added(s, c, rank), th, t, c, e);
  }

  lemma OtherGrown(s: Shape, th: LogNode, t: Thread, c: LogNode, rank: nat, place: B.Place, o: LogNode, t': Thread)
    requires Own(th, t) && Own(o, t') && o != th && Within(s, th, t) && InOrder(s, o, t') && c !in s
    requires place.Under? ==> place.call < |t.flows|
    ensures Within(Added(s, c, rank), th, t)
    ensures InOrder(Grown(Added(s, c, rank), th, t, c, place), o, t')
  {
    OwnApart(th, t, o, t');
    ElsewhereInOrder(s, Grown(Added(s, c, rank), th, t, c, place), o, t');
  }

  /** What Built stands for, and the other way round. */
  lemma BuiltMeans(a: Archive, th: LogNode)
    ensures Built(a, th) <==> ThreadIs(th, ThreadOf(th)) && Recorded(th) && InOrder(a.shape, th, ThreadOf(th))
    ensures Built(a, th) <==> ThreadOk(a, th) && Recorded(th) && InOrder(a.shape, th, ThreadOf(th))
    ensures Recorded(th) <==> th.calls == B.Run(th.records, |th.records|)
    ensures Built(a, th) ==>
              ThreadOk(a, th) && Own(th, ThreadOf(th)) && Within(a.shape, th, ThreadOf(th)) && B.Sound(th.calls)
    ensures ThreadOf(th) == Thread(th.flows, th.calls)
    ensures Built(a, th) ==> (th.calls.cur.Some? ==> th.calls.cur.value < |th.calls.calls|)
  {
    if Built(a, th) {
      ThreadIsOwn(th, ThreadOf(th));
    }
  }

  method AddBuilt(a: Archive, th: LogNode, e: B.Event, flags: nat) returns (c: LogNode)
    requires a.Valid() && Built(a, th)
    modifies a`nodes, a`shape, th`threadFlags, th`curentFlow, th`flows, th`calls, th`records, th.flows`peer
    modifies th.flows`fnLine
    modifies a.shape.Keys`firstChild, a.shape.Keys`lastChild
    modifies a.shape.Keys`nextChankCounter, a.shape.Keys`nextChankMarker
    modifies a.shape.Keys`nextSibling, a.shape.Keys`nextChank, a.shape.Keys`childCount
    ensures a.Valid() && Built(a, th) && fresh(c) && a.shape.Keys == old(a.shape.Keys) + {c}
    ensures th.flows == old(th.flows) + [c] && th.records == old(th.records) + [e]
    ensures th.calls == B.Step(old(th.calls), e)
    ensures PlaceOf(old(th.calls), e).Under? ==> PlaceOf(old(th.calls), e).call < |old(th.flows)|
    ensures c.parent == ParentAt(th, old(ThreadOf(th)), PlaceOf(old(th.calls), e))
    ensures c.parent != null ==> c.parent.lastChild == c
    ensures Within(Added(old(a.shape), c, |old(a.nodes)|), th, old(ThreadOf(th)))
    ensures a.shape ==
              Grown(Added(old(a.shape), c, |old(a.nodes)|), th, old(ThreadOf(th)), c, PlaceOf(old(th.calls), e))
  {
    hide *;
    BuiltMeans(a, th);
    ghost var s, t, rank := a.shape, ThreadOf(th), |a.nodes|;
    B.RunMore(th.records, e);
    c := AddNode(a, th, e, flags);
    AddedIsLoose(s, th, t, c, rank);
    th.records := th.records + [e];
    OwnGrown(s, th, t, c, rank, e);
    PlacedLast(a, Added(s, c, rank), th, t, c, PlaceOf(t.state, e));
    BuiltMeans(a, th);
  }

  /** The node that a place stands for. */
  ghost function ParentAt(th: LogNode, t: Thread, place: B.Place): LogNode?
    requires place.Under? ==> place.call < |t.flows|
  {
    match place
    case Detached => null
    case UnderThread => th
    case Under(j) => t.flows[j]
  }

  /** A node put at a place is linked as the last child there. */
  lemma PlacedLast(a: Archive, s: Shape, th: LogNode, t: Thread, c: LogNode, place: B.Place)
    requires a.Valid() && Within(s, th, t) && Loose(s, c) && c != th && c !in t.flows
    requires place.Under? ==> place.call < |t.flows|
    requires a.shape == Grown(s, th, t, c, place)
    ensures c.parent == ParentAt(th, t, place) && (c.parent != null ==> c.parent.lastChild == c)
    ensures c.parent != null ==> c.prevSibling == Last(s[c.parent].kids)
  {
    if place.Detached? {
      assert a.LinkedAcross(c);
    } else {
      LastChild(a, s, ParentAt(th, t, place), c);
    }
  }

  /** addFlow: a new node for a record of thread th, put in the tree. All other threads stay as they were. */
  method AddFlow(a: Archive, th: LogNode, e: B.Event, flags: nat) returns (c: LogNode)
    requires a.Valid() && Built(a, th)
    modifies a`nodes, a`shape, th`threadFlags, th`curentFlow, th`flows, th`calls, th`records, th.flows`peer
    modifies th.flows`fnLine
    modifies a.shape.Keys`firstChild, a.shape.Keys`lastChild
    modifies a.shape.Keys`nextChankCounter, a.shape.Keys`nextChankMarker
    modifies a.shape.Keys`nextSibling, a.shape.Keys`nextChank, a.shape.Keys`childCount
    ensures a.Valid() && Built(a, th) && fresh(c) && a.shape.Keys == old(a.shape.Keys) + {c}
    ensures th.flows == old(th.flows) + [c] && th.records == old(th.records) + [e]
    ensures th.calls == B.Step(old(th.calls), e)
    ensures PlaceOf(old(th.calls), e).Under? ==> PlaceOf(old(th.calls), e).call < |old(th.flows)|
    ensures c.parent == ParentAt(th, old(ThreadOf(th)), PlaceOf(old(th.calls), e))
    ensures c.parent != null ==> c.parent.lastChild == c
    ensures Within(Added(old(a.shape), c, |old(a.nodes)|), th, old(ThreadOf(th)))
    ensures a.shape ==
              Grown(Added(old(a.shape), c, |old(a.nodes)|), th, old(ThreadOf(th)), c, PlaceOf(old(th.calls), e))
    ensures forall o {:trigger Built(a, o)} :: o in old(a.shape) && o != th && old(Built(a, o)) ==>
              Built(a, o) && o.records == old(o.records)
  {
    hide *;
    BuiltMeans(a, th);
    ghost var s, t, rank, place := a.shape, ThreadOf(th), |a.nodes|, PlaceOf(th.calls, e);
    forall o {:trigger Built(a, o)} | o in s && Built(a, o)
      ensures Own(o, ThreadOf(o)) && ThreadIs(o, ThreadOf(o)) && Recorded(o) && InOrder(s, o, ThreadOf(o))
    {
      BuiltMeans(a, o);
    }
    c := AddBuilt(a, th, e, flags);
    forall o {:trigger Built(a, o)} | o in s && o != th && old(Built(a, o))
      ensures Built(a, o)
    {
      BuiltMeans(a, o);
      OwnApart(th, t, o, ThreadOf(o));
      OtherGrown(s, th, t, c, rank, place, o, ThreadOf(o));
      assert forall f <- o.flows :: f.peer == old(f.peer) && f.fnLine == old(f.fnLine) && f.parent == old(f.parent);
      assert ThreadIs(o, ThreadOf(o));
    }
  }

  /** A record as it arrives: which thread it belongs to, what it says, and its flags. */
  datatype Arrival = Arrival(thread: nat, e: B.Event, flags: nat)

  /** The records of thread number k. */
  function Share(run: seq<Arrival>, k: nat): seq<B.Event> {
    if run == [] then []
    else
      var n := |run| - 1;
      Share(run[..n], k) + if run[n].thread == k then [run[n].e] else []
  }

  ghost function FlowsOf(threads: seq<LogNode>): set<LogNode>
    reads threads`flows
  {
    set th, f | th in threads && f in th.flows :: f
  }

  /** One record for one of the threads. */
  method RecordOne(a: Archive, ghost threads: seq<LogNode>, th: LogNode, r: Arrival)
    requires a.Valid() && r.thread < |threads| && th == threads[r.thread]
    requires forall k :: 0 <= k < |threads| ==> threads[k] in a.shape && Built(a, threads[k])
    requires forall j, k :: 0 <= j < k < |threads| ==> threads[j] != threads[k]
    modifies a`nodes, a`shape, th`threadFlags, th`curentFlow, th`flows, th`calls, th`records, th.flows`peer
    modifies th.flows`fnLine
    modifies a.shape.Keys`firstChild, a.shape.Keys`lastChild
    modifies a.shape.Keys`nextChankCounter, a.shape.Keys`nextChankMarker
    modifies a.shape.Keys`nextSibling, a.shape.Keys`nextChank, a.shape.Keys`childCount
    ensures a.Valid() && fresh(a.shape.Keys - old(a.shape.Keys))
    ensures forall k :: 0 <= k < |threads| ==> threads[k] in a.shape && Built(a, threads[k])
    ensures forall k :: 0 <= k < |threads| ==>
              threads[k].records == old(threads[k].records) + if r.thread == k then [r.e] else []
    ensures forall f {:trigger f in th.flows} :: f in th.flows ==> f in old(th.flows) || fresh(f)
  {
    hide *;
    var c := AddFlow(a, th, r.e, r.flags);
  }

  /** Whatever records arrive for any number of threads, in any order, each thread holds exactly the
      calls that its own records make. */
  method RecordAll(a: Archive, threads: seq<LogNode>, run: seq<Arrival>)
    requires a.Valid() && (forall k :: 0 <= k < |threads| ==> threads[k] in a.shape && Built(a, threads[k]))
    requires forall j, k :: 0 <= j < k < |threads| ==> threads[j] != threads[k]
    requires forall i :: 0 <= i < |run| ==> run[i].thread < |threads|
    modifies a`nodes, a`shape, threads`threadFlags, threads`curentFlow, threads`flows, threads`calls, threads`records
    modifies FlowsOf(threads)`peer, FlowsOf(threads)`fnLine
    modifies a.shape.Keys`firstChild, a.shape.Keys`lastChild
    modifies a.shape.Keys`nextChankCounter, a.shape.Keys`nextChankMarker
    modifies a.shape.Keys`nextSibling, a.shape.Keys`nextChank, a.shape.Keys`childCount
    ensures a.Valid()
    ensures forall k :: 0 <= k < |threads| ==>
              Built(a, threads[k]) && threads[k].records == old(threads[k].records) + Share(run, k)
  {
    hide *;
    FlowsIn(threads);
    ShareNone(run);
    for i := 0 to |run|
      invariant a.Valid() && forall n {:trigger n in a.shape} :: n in a.shape ==> n in old(a.shape) || fresh(n)
      invariant forall th, f {:trigger f in th.flows} :: th in threads && f in th.flows ==>
                f in old(FlowsOf(threads)) || fresh(f)
      invariant forall k :: 0 <= k < |threads| ==> threads[k] in a.shape && Built(a, threads[k])
      invariant forall k :: 0 <= k < |threads| ==> threads[k].records == old(threads[k].records) + Share(run[..i], k)
    {
      ShareStep(run, i);
      var th := threads[run[i].thread];
      assert th in threads;
      assert forall f: LogNode :: f in th.flows ==> f in old(FlowsOf(threads)) || fresh(f);
      assert forall f: LogNode :: f in a.shape.Keys ==> f in old(a.shape.Keys) || fresh(f);
      RecordOne(a, threads, th, run[i]);
    }
    assert run[..|run|] == run;
  }

  lemma FlowsIn(threads: seq<LogNode>)
    ensures forall th, f {:trigger f in th.flows} :: th in threads && f in th.flows ==> f in FlowsOf(threads)
  {
  }

  lemma ShareNone(run: seq<Arrival>)
    ensures forall k: nat :: Share(run[..0], k) == []
  {
  }

  lemma ShareStep(run: seq<Arrival>, i: nat)
    requires i < |run|
    ensures forall k: nat ::
              Share(run[..i + 1], k) == Share(run[..i], k) + if run[i].thread == k then [run[i].e] else []
  {
    assert run[..i + 1][..i] == run[..i];
  }

  /** The parent of a trace that arrives now: for properly nested records it is the innermost open call, or the
      thread if there is none. */
  method TraceParent(ghost a: Archive, th: LogNode) returns (parent: LogNode)
    requires ThreadOk(a, th)
    ensures match B.TracePlace(th.calls)
      case Under(i) => i < |th.flows| && parent == th.flows[i]
      case _ => parent == th
    ensures Recorded(th) && B.WellBracketed(th.records, |th.records|) ==>
              var n := |th.records|;
              && |th.flows| == n
              && if parent == th then forall i :: 0 <= i < n ==> !B.Encloses(th.records, i, n)
                 else exists i :: 0 <= i < n && parent == th.flows[i] && B.Encloses(th.records, i, n)
    ensures Recorded(th) ==>
              forall c: nat :: c < |th.flows| && CurrentAt(th, |th.flows|, c) ==>
                parent == if OpenFor(th, c, |th.flows|, th.flows[c].thisFn) then th.flows[c] else th
  {
    assert th.curentFlow != null ==> FlowAt(th, ThreadOf(th), th.calls.cur.value);
    if th.curentFlow != null && th.curentFlow.peer == null && th.curentFlow.isEnter {
      parent := th.curentFlow;
    } else {
      parent := th;
    }
    TraceHangs(a, th, parent);
    forall c: nat | c < |th.flows| && CurrentAt(th, |th.flows|, c) && Recorded(th)
      ensures parent == if OpenFor(th, c, |th.flows|, th.flows[c].thisFn) then th.flows[c] else th
    {
      AnyTraceHangs(a, th, parent, c);
    }
  }

  lemma TraceHangs(a: Archive, th: LogNode, parent: LogNode)
    requires ThreadOk(a, th)
    requires match B.TracePlace(th.calls)
      case Under(i) => i < |th.flows| && parent == th.flows[i]
      case _ => parent == th
    ensures Recorded(th) && B.WellBracketed(th.records, |th.records|) ==>
              var n := |th.records|;
              && |th.flows| == n
              && if parent == th then forall i :: 0 <= i < n ==> !B.Encloses(th.records, i, n)
                 else exists i :: 0 <= i < n && parent == th.flows[i] && B.Encloses(th.records, i, n)
  {
    var n := |th.records|;
    if Recorded(th) && B.WellBracketed(th.records, n) {
      B.TraceParent(th.records, n);
      var place := B.TracePlace(th.calls);
      if place.Under? {
        assert FlowAt(th, ThreadOf(th), place.call);
        assert parent == th.flows[place.call] && B.Encloses(th.records, place.call, n);
      }
    }
  }

  /** For properly nested records, an enter hangs under the innermost call that was open when it
      arrived, or under the thread if none was. */
  lemma EnterHangs(a: Archive, th: LogNode, k: nat)
    requires ThreadOk(a, th) && Recorded(th) && B.WellBracketed(th.records, |th.records|)
    requires k < |th.records| && th.records[k].enter
    ensures |th.flows| == |th.records|
    ensures if th.flows[k].parent == th then forall i :: 0 <= i < k ==> !B.Encloses(th.records, i, k)
            else exists i :: 0 <= i < k && th.flows[k].parent == th.flows[i] && B.Encloses(th.records, i, k)
  {
    B.EnterParent(th.records, |th.records|, k);
    assert FlowAt(th, ThreadOf(th), k);
    var place := th.calls.calls[k].place;
    if place.Under? {
      assert FlowAt(th, ThreadOf(th), place.call);
      assert th.flows[k].parent == th.flows[place.call] && B.Encloses(th.records, place.call, k);
    }
  }

  /** For properly nested records, an exit and the innermost call that was open when it arrived are
      each other's peer, and the exit is not in the tree. */
  lemma ExitPeers(a: Archive, th: LogNode, j: nat)
    requires ThreadOk(a, th) && Recorded(th) && B.WellBracketed(th.records, |th.records|)
    requires j < |th.records| && !th.records[j].enter
    ensures |th.flows| == |th.records| && th.flows[j].parent == null
    ensures exists i :: 0 <= i < j && B.Encloses(th.records, i, j)
                     && th.flows[j].peer == th.flows[i] && th.flows[i].peer == th.flows[j]
  {
    B.ExitPeer(th.records, |th.records|, j);
    var i := th.calls.calls[j].peer.value;
    assert FlowAt(th, ThreadOf(th), j) && FlowAt(th, ThreadOf(th), i) && B.Paired(th.calls, j);
    assert th.flows[j].peer == th.flows[i] && B.Encloses(th.records, i, j);
  }

  lemma PlaceIs(a: Archive, th: LogNode, i: nat, p: LogNode) returns (place: B.Place)
    requires ThreadOk(a, th) && i < |th.flows| && th.flows[i].parent == p
    ensures place == th.calls.calls[i].place && !place.Detached? && (place.Under? ==> place.call < |th.flows|)
    ensures ParentAt(th, ThreadOf(th), place) == p
  {
    assert FlowAt(th, ThreadOf(th), i);
    place := th.calls.calls[i].place;
  }

  /** The children of the thread and of each of its calls are calls of the thread that have it as parent. */
  lemma ChildrenAreCalls(a: Archive, th: LogNode, p: LogNode, k: nat) returns (i: nat)
    requires Built(a, th) && (p == th || p in th.flows) && p in a.shape && k < |a.shape[p].kids|
    ensures i < |th.flows| && a.shape[p].kids[k] == th.flows[i] && th.flows[i].parent == p
  {
    var place := B.UnderThread;
    if p != th {
      var j :| 0 <= j < |th.flows| && th.flows[j] == p;
      place := B.Under(j);
    }
    i := PickedIs(th.flows, th.calls.calls, place, k);
    assert FlowAt(th, ThreadOf(th), i);
  }

  /** Calls with the same parent hang there in order of arrival. */
  lemma CallsInOrder(a: Archive, th: LogNode, p: LogNode, i: nat, j: nat) returns (k: nat, m: nat)
    requires Built(a, th) && i < j < |th.flows| && th.flows[i].parent == th.flows[j].parent == p
    ensures p in a.shape && k < m < |a.shape[p].kids|
    ensures a.shape[p].kids[k] == th.flows[i] && a.shape[p].kids[m] == th.flows[j]
  {
    var place := PlaceIs(a, th, i, p);
    var same := PlaceIs(a, th, j, p);
    ThreadIsOwn(th, ThreadOf(th));
    k, m := PickInOrder(th.flows, th.calls.calls, place, i, j);
  }

  /** Whatever the records, the parents of the current node lead to the thread. */
  lemma CurrentReachesThread(a: Archive, th: LogNode)
    requires ThreadOk(a, th) && Recorded(th) && th.curentFlow != null
    ensures th.calls.cur.Some? && th.curentFlow == th.flows[th.calls.cur.value]
    ensures B.ReachesThread(th.calls, th.calls.cur.value)
  {
    B.ChainReachesThread(th.records, |th.records|, th.calls.cur.value);
  }

  // What becomes of any record, nested or not, said of the links.

  /** Flow node i is an enter of the function that had no peer yet when record k arrived. */
  ghost predicate OpenFor(th: LogNode, i: nat, k: nat, fn: nat)
    requires i < |th.flows| && k <= |th.flows|
    reads th`flows, th.flows`peer
  {
    var f := th.flows[i];
    f.isEnter && f.thisFn == fn && (f.peer == null || f.peer !in th.flows[..k])
  }

  /** Record j made flow node c current: itself if it is in the tree, or the parent of the enter that it closed. */
  ghost predicate Moves(th: LogNode, j: nat, c: nat)
    requires j < |th.flows|
    reads th`flows, th.flows`parent, th.flows`peer
  {
    var f := th.flows[j];
    if f.parent != null then c == j
    else f.peer != null && f.peer in th.flows && c < |th.flows| && f.peer.parent == th.flows[c]
  }

  /** Record j closed an enter that hangs under the thread. */
  ghost predicate Rests(th: LogNode, j: nat)
    requires j < |th.flows|
    reads th`flows, th.flows`parent, th.flows`peer
  {
    var f := th.flows[j];
    f.parent == null && f.peer != null && f.peer in th.flows && f.peer.parent == th
  }

  /** Flow node c was the current one when record k arrived. */
  ghost predicate CurrentAt(th: LogNode, k: nat, c: nat)
    requires k <= |th.flows|
    reads th`flows, th.flows`parent, th.flows`peer
  {
    exists j {:trigger Moves(th, j, c)} :: 0 <= j < k && Moves(th, j, c) && forall m :: j < m < k ==> Rests(th, m)
  }

  /** The path goes from flow node c along the parents to flow node i. */
  ghost predicate Climbs(th: LogNode, path: seq<nat>, c: nat, i: nat)
    reads th`flows, th.flows`parent
  {
    && path != [] && path[0] == c && path[|path| - 1] == i && (forall m :: 0 <= m < |path| ==> path[m] < |th.flows|)
    && forall m :: 0 <= m < |path| - 1 ==> th.flows[path[m]].parent == th.flows[path[m + 1]]
  }

  ghost predicate Nearest(th: LogNode, k: nat, fn: nat, c: nat, i: nat)
    requires k <= |th.flows|
    reads th`flows, th.flows`parent, th.flows`peer
  {
    exists path {:trigger Climbs(th, path, c, i)} :: Climbs(th, path, c, i)
      && OpenFor(th, i, k, fn) && forall m :: 0 <= m < |path| - 1 ==> !OpenFor(th, path[m], k, fn)
  }

  ghost predicate NothingOpen(th: LogNode, k: nat, fn: nat, c: nat)
    requires k <= |th.flows|
    reads th`flows, th.flows`parent, th.flows`peer
  {
    forall path, i {:trigger Climbs(th, path, c, i)} :: Climbs(th, path, c, i) ==> !OpenFor(th, i, k, fn)
  }

  lemma SameLinks(th: LogNode, i: nat, c: nat)
    requires ThreadIs(th, ThreadOf(th)) && i < |th.flows|
    ensures var f, d := th.flows[i], th.calls.calls[i];
      && (d.place.Detached? <==> f.parent == null) && (d.place.UnderThread? <==> f.parent == th)
      && (c < |th.flows| ==> (d.place == B.Under(c) <==> f.parent == th.flows[c]))
      && (c < |th.flows| ==> (d.peer == B.Some(c) <==> f.peer == th.flows[c]))
      && (d.peer.None? <==> f.peer == null) && (d.peer.Some? ==> d.peer.value < |th.flows|)
      && f.isEnter == d.enter && f.thisFn == d.fn
  {
    assert FlowAt(th, ThreadOf(th), i);
    ThreadIsOwn(th, ThreadOf(th));
  }

  lemma SameOpen(th: LogNode, i: nat, k: nat, fn: nat)
    requires ThreadIs(th, ThreadOf(th)) && i < |th.flows| && k <= |th.flows|
    ensures OpenFor(th, i, k, fn) <==> B.OpenFor(th.calls, i, k, fn)
  {
    SameLinks(th, i, 0);
    var peer := th.calls.calls[i].peer;
    if peer.Some? {
      SameLinks(th, i, peer.value);
      assert peer.value < k ==> th.flows[..k][peer.value] == th.flows[peer.value];
    }
  }

  lemma SameMoves(th: LogNode, j: nat, c: nat)
    requires ThreadIs(th, ThreadOf(th)) && j < |th.flows|
    ensures c < |th.flows| ==> (Moves(th, j, c) <==> B.Moves(th.calls, j, c))
    ensures Rests(th, j) <==> B.Rests(th.calls, j)
    ensures Moves(th, j, c) ==> c < |th.flows|
  {
    SameLinks(th, j, 0);
    var peer := th.calls.calls[j].peer;
    if peer.Some? {
      SameLinks(th, j, peer.value);
      SameLinks(th, peer.value, c);
    }
  }

  lemma SameCurrent(th: LogNode, k: nat, c: nat)
    requires ThreadIs(th, ThreadOf(th)) && k <= |th.flows| && c < |th.flows|
    ensures CurrentAt(th, k, c) <==> B.CurrentAt(th.calls, k, c)
  {
    forall j | 0 <= j < k
      ensures Moves(th, j, c) <==> B.Moves(th.calls, j, c)
      ensures Rests(th, j) <==> B.Rests(th.calls, j)
    {
      SameMoves(th, j, c);
    }
  }

  lemma SameClimbs(th: LogNode, path: seq<nat>, c: nat, i: nat)
    requires ThreadIs(th, ThreadOf(th))
    ensures Climbs(th, path, c, i) <==> B.Climbs(th.calls, path, c, i)
  {
    forall m | 0 <= m < |path| - 1 && path[m] < |th.flows| && path[m + 1] < |th.flows|
      ensures th.flows[path[m]].parent == th.flows[path[m + 1]] <==>
                th.calls.calls[path[m]].place == B.Under(path[m + 1])
    {
      SameLinks(th, path[m], path[m + 1]);
    }
  }

  lemma SameNearest(th: LogNode, k: nat, fn: nat, c: nat, i: nat)
    requires ThreadIs(th, ThreadOf(th)) && k <= |th.flows|
    ensures Nearest(th, k, fn, c, i) <==> B.Nearest(th.calls, k, fn, c, i)
    ensures NothingOpen(th, k, fn, c) ==> B.NothingOpen(th.calls, k, fn, c)
    ensures B.NothingOpen(th.calls, k, fn, c) ==> NothingOpen(th, k, fn, c)
  {
    forall path, i {:trigger Climbs(th, path, c, i)} {:trigger B.Climbs(th.calls, path, c, i)}
      ensures Climbs(th, path, c, i) <==> B.Climbs(th.calls, path, c, i)
    {
      SameClimbs(th, path, c, i);
    }
    forall i {:trigger OpenFor(th, i, k, fn)} {:trigger B.OpenFor(th.calls, i, k, fn)} | 0 <= i < |th.flows|
      ensures i < |th.calls.calls| && (OpenFor(th, i, k, fn) <==> B.OpenFor(th.calls, i, k, fn))
    {
      SameOpen(th, i, k, fn);
    }
    hide ThreadIs, OpenFor, B.OpenFor;
  }

  /** For any records of a thread: the peer of an exit is the nearest open enter of its function, on the way from
      the node that was current up to the thread, past all calls whose exit is missing. If there is none it has no
      peer and hangs under the thread or the current node, as the thread node answers. */
  lemma AnyExitPeers(a: Archive, th: LogNode, k: nat, c: nat)
    requires ThreadOk(a, th) && Recorded(th) && k < |th.flows| && c < |th.flows|
    requires !th.flows[k].isEnter && CurrentAt(th, k, c)
    ensures |th.records| == |th.flows|
    ensures var f := th.flows[k];
      && (forall i: nat :: i < |th.flows| ==> (f.peer == th.flows[i] <==> Nearest(th, k, f.thisFn, c, i)))
      && (f.peer == null <==> NothingOpen(th, k, f.thisFn, c))
      && f.parent == if f.peer != null then null else if th.records[k].threadBit then th else th.flows[c]
  {
    var f, fn := th.flows[k], th.flows[k].thisFn;
    SameLinks(th, k, 0);
    B.RunStands(th.records, |th.records|, k);
    SameCurrent(th, k, c);
    B.AnyExit(th.records, |th.records|, k, c);
    SameLinks(th, k, c);
    forall i: nat | i < |th.flows|
      ensures f.peer == th.flows[i] <==> Nearest(th, k, fn, c, i)
    {
      SameLinks(th, k, i);
      SameNearest(th, k, fn, c, i);
    }
    SameNearest(th, k, fn, c, 0);
  }

  /** For any records of a thread: an enter hangs under the node that was current if that was an enter without a
      peer, or else under the thread. */
  lemma AnyEnterHangs(a: Archive, th: LogNode, k: nat, c: nat)
    requires ThreadOk(a, th) && Recorded(th) && k < |th.flows| && c < |th.flows|
    requires th.flows[k].isEnter && CurrentAt(th, k, c)
    ensures th.flows[k].parent == if OpenFor(th, c, k, th.flows[c].thisFn) then th.flows[c] else th
  {
    SameLinks(th, k, c);
    SameLinks(th, c, 0);
    B.RunStands(th.records, |th.records|, k);
    SameCurrent(th, k, c);
    SameOpen(th, c, k, th.flows[c].thisFn);
    B.AnyEnter(th.records, |th.records|, k, c);
  }

  /** From the second record on there is one current node; the first one hangs under the thread. */
  lemma OneCurrentNode(a: Archive, th: LogNode, k: nat)
    requires ThreadOk(a, th) && Recorded(th) && k <= |th.flows|
    ensures k > 0 ==> exists c :: 0 <= c < |th.flows| && CurrentAt(th, k, c)
    ensures forall c, d :: CurrentAt(th, k, c) && CurrentAt(th, k, d) ==> c == d
    ensures |th.flows| > 0 ==> th.flows[0].parent == th
  {
    B.OneCurrent(th.records, |th.records|, k);
    if k > 0 {
      var c :| B.CurrentAt(th.calls, k, c);
      CurrentIsCall(th, k, c);
      SameCurrent(th, k, c);
    }
    forall c, d | CurrentAt(th, k, c) && CurrentAt(th, k, d)
      ensures c == d
    {
      CurrentIsNode(th, k, c);
      CurrentIsNode(th, k, d);
      SameCurrent(th, k, c);
      SameCurrent(th, k, d);
    }
    if |th.flows| > 0 {
      SameLinks(th, 0, 0);
    }
  }

  lemma CurrentIsNode(th: LogNode, k: nat, c: nat)
    requires ThreadIs(th, ThreadOf(th)) && k <= |th.flows| && CurrentAt(th, k, c)
    ensures c < |th.flows|
  {
    var j :| 0 <= j < k && Moves(th, j, c);
    SameMoves(th, j, c);
  }

  lemma CurrentIsCall(th: LogNode, k: nat, c: nat)
    requires ThreadIs(th, ThreadOf(th)) && k <= |th.flows| && B.CurrentAt(th.calls, k, c)
    ensures c < |th.flows|
  {
    var j :| 0 <= j < k && B.Moves(th.calls, j, c);
    SameLinks(th, j, 0);
    var peer := th.calls.calls[j].peer;
    if peer.Some? {
      assert FlowAt(th, ThreadOf(th), peer.value);
    }
  }

  /** For any records a trace hangs under the current node if that is an open enter, or else under the thread. */
  lemma AnyTraceHangs(a: Archive, th: LogNode, parent: LogNode, c: nat)
    requires ThreadOk(a, th) && Recorded(th) && c < |th.flows| && CurrentAt(th, |th.flows|, c)
    requires match B.TracePlace(th.calls)
      case Under(i) => i < |th.flows| && parent == th.flows[i]
      case _ => parent == th
    ensures parent == if OpenFor(th, c, |th.flows|, th.flows[c].thisFn) then th.flows[c] else th
  {
    SameLinks(th, c, 0);
    SameCurrent(th, |th.flows|, c);
    SameOpen(th, c, |th.flows|, th.flows[c].thisFn);
    B.AnyTrace(th.records, |th.records|, c);
  }
}
