/** Folding the enter and exit records of one thread into calls (FLOW_NODE::addToTree), as values. */
module Brackets {

  datatype Option<+T> = None | Some(value: T)

  /** An enter or exit record. threadBit is what the thread node, read as a flow node, would
      answer to "are you an enter?" when this record is added; it can be anything. */
  datatype Event = Event(enter: bool, fn: nat, line: int, threadBit: bool)

  datatype Place = Detached | UnderThread | Under(call: nat)

  /** A flow node: its record, its parent and its peer; nodes are numbered in order of arrival. */
  datatype Call = Call(enter: bool, fn: nat, line: int, place: Place, peer: Option<nat>)

  /** The flow nodes of one thread and its current one. */
  datatype State = State(calls: seq<Call>, cur: Option<nat>)

  const START := State([], None)

  /** An enter that has not been matched yet. */
  predicate Open(s: State, i: nat)
    requires i < |s.calls|
  {
    s.calls[i].enter && s.calls[i].peer.None?
  }

  /** The nearest open enter of fn from call i up to the thread. */
  function Match(s: State, i: nat, fn: nat): (m: Option<nat>)
    requires i < |s.calls|
    ensures m.Some? ==> m.value <= i && Open(s, m.value) && s.calls[m.value].fn == fn
  {
    if Open(s, i) && s.calls[i].fn == fn then Some(i)
    else match s.calls[i].place
      case Under(j) => if j < i then Match(s, j, fn) else None
      case _ => None
  }

  function AddChild(s: State, e: Event, place: Place): State {
    State(s.calls + [Call(e.enter, e.fn, e.line, place, None)], Some(|s.calls|))
  }

  /** Exit e, the next call, is the peer of enter i. */
  function Pair(s: State, e: Event, i: nat): State
    requires i < |s.calls|
  {
    var c := s.calls[i];
    var line := if c.line == 0 then e.line else c.line;
    State(s.calls[i := c.(line := line, peer := Some(|s.calls|))] + [Call(false, e.fn, e.line, Detached, Some(i))],
          if c.place.Under? then Some(c.place.call) else s.cur)
  }

  /** What addToTree does with one more record. */
  function Step(s: State, e: Event): State
    requires s.cur.Some? ==> s.cur.value < |s.calls|
  {
    if s.cur.None? then AddChild(s, e, UnderThread) else
      var c := s.cur.value;
      if e.enter then AddChild(s, e, if Open(s, c) then Under(c) else UnderThread)
      else match Match(s, c, e.fn)
        case Some(i) => Pair(s, e, i)
        case None => AddChild(s, e, if e.threadBit then UnderThread else Under(c))
  }

  /** The parent given to a trace that arrives now. */
  function TracePlace(s: State): Place
    requires s.cur.Some? ==> s.cur.value < |s.calls|
  {
    if s.cur.Some? && Open(s, s.cur.value) then Under(s.cur.value) else UnderThread
  }

  // ---------- any sequence of records ----------

  /** Every parent is an older node that is itself in the tree. */
  predicate Placed(s: State, i: nat)
    requires i < |s.calls|
  {
    match s.calls[i].place
    case Under(j) => j < i && !s.calls[j].place.Detached?
    case _ => true
  }

  /** A peer is a node of the other kind with the same function; the enter comes first; the
      link goes both ways; and an exit is in the tree exactly when it has no peer. */
  predicate Paired(s: State, i: nat)
    requires i < |s.calls|
  {
    var c := s.calls[i];
    && (c.peer.Some? ==>
      var j := c.peer.value;
      && j < |s.calls| && s.calls[j].peer == Some(i) && s.calls[j].fn == c.fn
      && s.calls[j].enter == !c.enter && (if c.enter then i < j else j < i))
    && (c.place.Detached? <==> !c.enter && c.peer.Some?)
  }

  ghost predicate Sound(s: State) {
    && (forall i {:trigger Placed(s, i)} :: 0 <= i < |s.calls| ==> Placed(s, i))
    && (forall i {:trigger Paired(s, i)} :: 0 <= i < |s.calls| ==> Paired(s, i))
    && (s.cur.None? <==> s.calls == [])
    && (s.cur.Some? ==> s.cur.value < |s.calls| && !s.calls[s.cur.value].place.Detached?)
  }

  lemma AddChildSound(s: State, e: Event, place: Place)
    requires Sound(s) && !place.Detached?
    requires place.Under? ==> place.call < |s.calls| && !s.calls[place.call].place.Detached?
    ensures Sound(AddChild(s, e, place))
  {
    var s' := AddChild(s, e, place);
    forall i | 0 <= i < |s'.calls| ensures Placed(s', i) && Paired(s', i) {
      if i < |s.calls| {
        assert Placed(s, i) && Paired(s, i);
      }
    }
  }

  lemma PairSound(s: State, e: Event, i: nat)
    requires Sound(s) && s.cur.Some? && i < |s.calls| && Open(s, i) && !e.enter && s.calls[i].fn == e.fn
    ensures Sound(Pair(s, e, i))
  {
    var s' := Pair(s, e, i);
    forall k | 0 <= k < |s'.calls| ensures Placed(s', k) && Paired(s', k) {
      if k < |s.calls| {
        assert Placed(s, k) && Paired(s, k);
        if s.calls[k].peer.Some? {
          assert Paired(s, s.calls[k].peer.value);
        }
      }
    }
    assert Placed(s, i);
  }

  lemma StepSound(s: State, e: Event)
    requires Sound(s)
    ensures Sound(Step(s, e))
  {
    if s.cur.Some? && !e.enter && Match(s, s.cur.value, e.fn).Some? {
      PairSound(s, e, Match(s, s.cur.value, e.fn).value);
    } else {
      AddChildSound(s, e, Step(s, e).calls[|s.calls|].place);
    }
  }

  /** The state after the first n records. */
  ghost function Run(es: seq<Event>, n: nat): (s: State)
    requires n <= |es|
    ensures Sound(s) && |s.calls| == n
  {
    if n == 0 then START else
      StepSound(Run(es, n - 1), es[n - 1]);
      Step(Run(es, n - 1), es[n - 1])
  }

  lemma {:induction false} RunAppend(es: seq<Event>, more: seq<Event>, n: nat)
    requires n <= |es|
    ensures Run(es + more, n) == Run(es, n)
  {
    if n > 0 {
      RunAppend(es, more, n - 1);
      assert (es + more)[n - 1] == es[n - 1];
    }
  }

  lemma RunMore(es: seq<Event>, e: Event)
    ensures Run(es + [e], |es| + 1) == Step(Run(es, |es|), e)
  {
    RunAppend(es, [e], |es|);
  }

  /** Nodes stand for their records; an enter without a line number takes the one of its exit. */
  predicate Stands(es: seq<Event>, s: State, i: nat)
    requires i < |s.calls| <= |es|
  {
    var c := s.calls[i];
    && c.enter == es[i].enter && c.fn == es[i].fn
    && (c.peer.Some? ==> c.peer.value < |es|)
    && c.line == if es[i].enter && es[i].line == 0 && c.peer.Some? then es[c.peer.value].line else es[i].line
  }

  lemma PairedAt(es: seq<Event>, n: nat, i: nat)
    requires i < n <= |es|
    ensures Paired(Run(es, n), i) && Placed(Run(es, n), i)
  {
  }

  lemma StandsStep(es: seq<Event>, s: State, n: nat, i: nat)
    requires i <= n == |s.calls| < |es| && (s.cur.Some? ==> s.cur.value < n)
    requires i < n ==> Stands(es, s, i) && Paired(s, i)
    ensures i < |Step(s, es[n]).calls| <= |es| && Stands(es, Step(s, es[n]), i)
  {
  }

  lemma {:induction false} RunStands(es: seq<Event>, n: nat, i: nat)
    requires i < n <= |es|
    ensures Stands(es, Run(es, n), i)
  {
    hide Stands, Step;
    if i < n - 1 {
      RunStands(es, n - 1, i);
      PairedAt(es, n - 1, i);
    }
    StandsStep(es, Run(es, n - 1), n - 1, i);
  }

  /** Following the parents of call i leads to the thread. */
  predicate ReachesThread(s: State, i: nat)
    requires i < |s.calls|
  {
    match s.calls[i].place
    case Detached => false
    case UnderThread => true
    case Under(j) => j < i && ReachesThread(s, j)
  }

  /** From every node in the tree, the current one included, the parents lead to the thread, so
      the search of an exit ends there at the latest. */
  lemma {:induction false} ChainReachesThread(es: seq<Event>, n: nat, i: nat)
    requires i < n <= |es| && !Run(es, n).calls[i].place.Detached?
    ensures ReachesThread(Run(es, n), i)
    decreases i
  {
    var s := Run(es, n);
    assert Placed(s, i);
    if s.calls[i].place.Under? {
      ChainReachesThread(es, n, s.calls[i].place.call);
    }
  }

  // ---------- well-bracketed records ----------

  /** Reading one record against a stack of open functions: an enter pushes, and an exit must name
      the function on top. */
  function After(open: seq<nat>, e: Event): Option<seq<nat>> {
    if e.enter then Some(open + [e.fn])
    else if open != [] && open[|open| - 1] == e.fn then Some(open[..|open| - 1])
    else None
  }

  /** Reading records a up to b against a stack that is empty at first. */
  function Scan(es: seq<Event>, a: nat, b: nat): Option<seq<nat>>
    requires a <= b <= |es|
    decreases b
  {
    if a == b then Some([]) else
      match Scan(es, a, b - 1)
      case None => None
      case Some(open) => After(open, es[b - 1])
  }

  /** The first n records are a prefix of properly nested calls. */
  predicate WellBracketed(es: seq<Event>, n: nat)
    requires n <= |es|
  {
    Scan(es, 0, n).Some?
  }

  /** Records a up to b close everything they open, and nothing else. */
  predicate Balanced(es: seq<Event>, a: nat, b: nat)
    requires a <= b <= |es|
  {
    Scan(es, a, b) == Some([])
  }

  lemma AfterOnTop(below: seq<nat>, open: seq<nat>, e: Event)
    requires After(open, e).Some?
    ensures After(below + open, e) == Some(below + After(open, e).value)
  {
    if e.enter {
      assert below + open + [e.fn] == below + (open + [e.fn]);
    } else {
      assert (below + open)[..|below + open| - 1] == below + open[..|open| - 1];
    }
  }

  /** What records do on their own they also do on top of an open stack. */
  lemma {:induction false} ScanOnTop(es: seq<Event>, c: nat, a: nat, b: nat)
    requires c <= a <= b <= |es|
    requires Scan(es, c, a).Some? && Scan(es, a, b).Some?
    ensures Scan(es, c, b) == Some(Scan(es, c, a).value + Scan(es, a, b).value)
    decreases b
  {
    hide After;
    var below := Scan(es, c, a).value;
    if a == b {
      assert below + [] == below;
    } else {
      ScanOnTop(es, c, a, b - 1);
      AfterOnTop(below, Scan(es, a, b - 1).value, es[b - 1]);
    }
  }

  /** i is the innermost call that is open when record k arrives. */
  predicate Encloses(es: seq<Event>, i: nat, k: nat)
    requires i < k <= |es|
  {
    es[i].enter && Balanced(es, i + 1, k)
  }

  lemma EnclosesUnique(es: seq<Event>, i: nat, j: nat, k: nat)
    requires i < k <= |es| && j < k && Encloses(es, i, k) && Encloses(es, j, k)
    ensures i == j
  {
    if i < j { NotBothEnclose(es, i, j, k); }
    if j < i { NotBothEnclose(es, j, i, k); }
  }

  lemma NotBothEnclose(es: seq<Event>, i: nat, j: nat, k: nat)
    requires i < j < k <= |es| && Encloses(es, j, k)
    ensures !Encloses(es, i, k)
  {
    if Scan(es, i + 1, j).Some? {
      ScanOnTop(es, i + 1, j + 1, k);
    } else {
      ScanStuck(es, i + 1, j, k);
    }
  }

  lemma {:induction false} ScanStuck(es: seq<Event>, a: nat, b: nat, c: nat)
    requires a <= b <= c <= |es| && Scan(es, a, b).None?
    ensures Scan(es, a, c).None?
    decreases c
  {
    if b < c {
      ScanStuck(es, a, b, c - 1);
    }
  }

  /** Up to where everything after open call number p (none: -1) is closed. */
  function Until(stack: seq<nat>, p: int, n: nat): nat
    requires -1 <= p < |stack|
  {
    if p + 1 < |stack| then stack[p + 1] else n
  }

  /** Open call number p is the child of number p - 1, and whatever came between it and the next one is closed. */
  predicate NestedAt(es: seq<Event>, n: nat, s: State, stack: seq<nat>, p: nat)
    requires p < |stack|
  {
    var i, until := stack[p], Until(stack, p, n);
    && i < until <= n <= |es| && n == |s.calls| && Open(s, i)
    && s.calls[i].fn == es[i].fn && s.calls[i].enter == es[i].enter
    && s.calls[i].place == (if p == 0 then UnderThread else Under(stack[p - 1]))
    && Balanced(es, i + 1, until)
  }

  /** stack holds the calls that are open after n records, innermost last. */
  ghost predicate Nested(es: seq<Event>, n: nat, s: State, stack: seq<nat>) {
    && n <= |es| && n == |s.calls|
    && (s.cur.Some? ==> s.cur.value < n) && (forall p :: 0 <= p < |stack| ==> stack[p] < n)
    && (if stack != [] then s.cur == Some(stack[|stack| - 1]) else s.cur.Some? ==> !Open(s, s.cur.value))
    && (forall p, q :: 0 <= p < q < |stack| ==> stack[p] < stack[q])
    && Balanced(es, 0, Until(stack, -1, n))
    && (forall p {:trigger NestedAt(es, n, s, stack, p)} :: 0 <= p < |stack| ==> NestedAt(es, n, s, stack, p))
  }

  lemma NestedEnter(es: seq<Event>, n: nat, s: State, stack: seq<nat>)
    requires n < |es| && Nested(es, n, s, stack) && es[n].enter
    ensures Nested(es, n + 1, Step(s, es[n]), stack + [n])
  {
    var s', stack' := Step(s, es[n]), stack + [n];
    if stack != [] {
      assert NestedAt(es, n, s, stack, |stack| - 1);
    }
    forall p {:trigger NestedAt(es, n + 1, s', stack', p)} | 0 <= p < |stack'|
      ensures NestedAt(es, n + 1, s', stack', p)
    {
      if p < |stack| {
        assert NestedAt(es, n, s, stack, p);
      }
    }
  }

  lemma NestedExit(es: seq<Event>, n: nat, s: State, stack: seq<nat>)
    requires n < |es| && Nested(es, n, s, stack) && !es[n].enter
    requires stack != [] && es[stack[|stack| - 1]].fn == es[n].fn
    ensures Nested(es, n + 1, Step(s, es[n]), stack[..|stack| - 1])
    ensures var i := stack[|stack| - 1]; i < n && Encloses(es, i, n) && Step(s, es[n]) == Pair(s, es[n], i)
  {
    var top := |stack| - 1;
    var i, s', stack' := stack[top], Step(s, es[n]), stack[..top];
    assert NestedAt(es, n, s, stack, top);
    if top > 0 {
      assert NestedAt(es, n, s, stack, top - 1);
    }
    CloseCall(es, if top > 0 then stack[top - 1] + 1 else 0, i, n);
    forall p {:trigger NestedAt(es, n + 1, s', stack', p)} | 0 <= p < top ensures NestedAt(es, n + 1, s', stack', p) {
      assert NestedAt(es, n, s, stack, p);
    }
  }

  /** A balanced stretch, a call and its exit make a longer balanced stretch. */
  lemma CloseCall(es: seq<Event>, a: nat, i: nat, n: nat)
    requires a <= i < n < |es| && Balanced(es, a, i) && Encloses(es, i, n) && !es[n].enter && es[n].fn == es[i].fn
    ensures Balanced(es, a, n + 1)
  {
    assert Scan(es, a, i + 1) == Some([] + [es[i].fn]);
    ScanOnTop(es, a, i + 1, n);
  }

  /** The calls on the stack are calls of the open functions. */
  ghost predicate Tracks(es: seq<Event>, stack: seq<nat>, open: seq<nat>) {
    |stack| == |open| && forall p :: 0 <= p < |stack| ==> stack[p] < |es| && es[stack[p]].fn == open[p]
  }

  lemma NestedStep(es: seq<Event>, n: nat, s: State, stack: seq<nat>, open: seq<nat>) returns (stack': seq<nat>)
    requires n < |es| && Nested(es, n, s, stack) && Tracks(es, stack, open)
    requires es[n].enter || (open != [] && open[|open| - 1] == es[n].fn)
    ensures Nested(es, n + 1, Step(s, es[n]), stack')
    ensures Tracks(es, stack', if es[n].enter then open + [es[n].fn] else open[..|open| - 1])
  {
    if es[n].enter {
      NestedEnter(es, n, s, stack);
      stack' := stack + [n];
    } else {
      NestedExit(es, n, s, stack);
      stack' := stack[..|stack| - 1];
    }
  }

  /** For properly nested records, addToTree keeps the explicit stack of open calls. */
  lemma {:induction false} CallStack(es: seq<Event>, n: nat) returns (stack: seq<nat>)
    requires n <= |es| && WellBracketed(es, n)
    ensures Nested(es, n, Run(es, n), stack)
    ensures Tracks(es, stack, Scan(es, 0, n).value)
  {
    hide Step, Sound;
    if n == 0 {
      stack := [];
    } else {
      LastRecord(es, n);
      stack := CallStack(es, n - 1);
      stack := NestedStep(es, n - 1, Run(es, n - 1), stack, Scan(es, 0, n - 1).value);
    }
  }

  lemma LastRecord(es: seq<Event>, n: nat)
    requires 0 < n <= |es| && WellBracketed(es, n)
    ensures Run(es, n) == Step(Run(es, n - 1), es[n - 1])
    ensures WellBracketed(es, n - 1)
    ensures var open, e := Scan(es, 0, n - 1).value, es[n - 1];
      if e.enter then Scan(es, 0, n).value == open + [e.fn]
      else open != [] && open[|open| - 1] == e.fn && Scan(es, 0, n).value == open[..|open| - 1]
  {
  }

  /** What encloses record k: the call at `place`, or nothing but the thread. */
  predicate IsInnermost(es: seq<Event>, k: nat, place: Place)
    requires k <= |es|
  {
    match place
    case Detached => false
    case UnderThread => forall i :: 0 <= i < k ==> !Encloses(es, i, k)
    case Under(i) => i < k && Encloses(es, i, k)
  }

  lemma NothingEncloses(es: seq<Event>, k: nat)
    requires k <= |es| && Balanced(es, 0, k)
    ensures IsInnermost(es, k, UnderThread)
  {
    forall i | 0 <= i < k ensures !Encloses(es, i, k) {
      if Scan(es, 0, i).None? {
        ScanStuck(es, 0, i, k);
      } else if Encloses(es, i, k) {
        ScanOnTop(es, 0, i + 1, k);
      }
    }
  }

  /** A trace that arrives after n records is put under the innermost open call. */
  lemma TraceParent(es: seq<Event>, n: nat)
    requires n <= |es| && WellBracketed(es, n)
    ensures IsInnermost(es, n, TracePlace(Run(es, n)))
  {
    var stack := CallStack(es, n);
    if stack == [] {
      NothingEncloses(es, n);
    } else {
      assert NestedAt(es, n, Run(es, n), stack, |stack| - 1);
    }
  }

  /** Every enter is put under the call that was innermost when it arrived. */
  lemma {:induction false} EnterParent(es: seq<Event>, n: nat, k: nat)
    requires k < n <= |es| && WellBracketed(es, n) && es[k].enter
    ensures IsInnermost(es, k, Run(es, n).calls[k].place)
    decreases n
  {
    if k < n - 1 {
      EnterParent(es, n - 1, k);
    } else {
      TraceParent(es, k);
      assert Run(es, n).calls[k].place == TracePlace(Run(es, k));
    }
  }

  /** Every exit is paired with the call that was innermost when it arrived, which is one of the
      same function, and is not put in the tree. */
  lemma {:induction false} ExitPeer(es: seq<Event>, n: nat, j: nat)
    requires j < n <= |es| && WellBracketed(es, n) && !es[j].enter
    ensures var c := Run(es, n).calls[j];
      c.place == Detached && c.peer.Some? && c.peer.value < j
      && Encloses(es, c.peer.value, j) && es[c.peer.value].fn == es[j].fn
    decreases n
  {
    hide Run, Sound, Scan;
    LastRecord(es, n);
    if j < n - 1 {
      ExitPeer(es, n - 1, j);
      PairedAt(es, n - 1, j);
    } else {
      var stack := CallStack(es, j);
      NestedExit(es, j, Run(es, j), stack);
    }
  }

  /** An enter is paired with exit j if and only if it was the innermost open call when j arrived. */
  lemma EnterPeer(es: seq<Event>, n: nat, i: nat, j: nat)
    requires i < j < n <= |es| && WellBracketed(es, n) && es[i].enter && !es[j].enter
    ensures Run(es, n).calls[i].peer == Some(j) <==> Encloses(es, i, j)
  {
    var s := Run(es, n);
    ExitPeer(es, n, j);
    assert Paired(s, j) && Paired(s, i);
    if Encloses(es, i, j) {
      EnclosesUnique(es, i, s.calls[j].peer.value, j);
    }
  }

  // ---------- any records, nested or not ----------

  // What becomes of record k is said by the calls alone: their places, and the peers they end up with.

  /** Call i is an enter that had no peer yet when record k arrived. */
  predicate OpenAt(s: State, i: nat, k: nat)
    requires i < |s.calls|
  {
    s.calls[i].enter && (s.calls[i].peer.Some? ==> s.calls[i].peer.value >= k)
  }

  /** Record j made another node current: itself if it went into the tree, or the parent call of the enter
      that it closed. */
  predicate Moves(s: State, j: nat, c: nat)
    requires j < |s.calls|
  {
    if !s.calls[j].place.Detached? then c == j
    else
      && s.calls[j].peer.Some? && s.calls[j].peer.value < |s.calls|
      && s.calls[s.calls[j].peer.value].place == Under(c)
  }

  /** Record j closed an enter that hangs under the thread, which leaves the current node as it is. */
  predicate Rests(s: State, j: nat)
    requires j < |s.calls|
  {
    && s.calls[j].place.Detached? && s.calls[j].peer.Some? && s.calls[j].peer.value < |s.calls|
    && s.calls[s.calls[j].peer.value].place.UnderThread?
  }

  /** c is the current node when record k arrives. */
  ghost predicate CurrentAt(s: State, k: nat, c: nat)
    requires k <= |s.calls|
  {
    exists j {:trigger Moves(s, j, c)} :: 0 <= j < k && Moves(s, j, c) && forall m :: j < m < k ==> Rests(s, m)
  }

  /** The path goes from call c from parent to parent to call i. */
  ghost predicate Climbs(s: State, path: seq<nat>, c: nat, i: nat) {
    && path != [] && path[0] == c && path[|path| - 1] == i && (forall m :: 0 <= m < |path| ==> path[m] < |s.calls|)
    && forall m :: 0 <= m < |path| - 1 ==> s.calls[path[m]].place == Under(path[m + 1])
  }

  predicate OpenFor(s: State, i: nat, k: nat, fn: nat)
    requires i < |s.calls|
  {
    OpenAt(s, i, k) && s.calls[i].fn == fn
  }

  /** From c up, i is the first call that is an open enter of the function. */
  ghost predicate Nearest(s: State, k: nat, fn: nat, c: nat, i: nat) {
    exists path {:trigger Climbs(s, path, c, i)} :: Climbs(s, path, c, i)
      && OpenFor(s, i, k, fn) && forall m :: 0 <= m < |path| - 1 ==> !OpenFor(s, path[m], k, fn)
  }

  /** From c up there is no open enter of the function. */
  ghost predicate NothingOpen(s: State, k: nat, fn: nat, c: nat) {
    forall path, i {:trigger Climbs(s, path, c, i)} :: Climbs(s, path, c, i) ==> !OpenFor(s, i, k, fn)
  }

  /** What later records may change of a call: an enter without a peer may get one. */
  predicate Grew(c: Call, d: Call, k: nat) {
    && d.place == c.place && d.enter == c.enter && d.fn == c.fn
    && (c.peer.Some? ==> d.peer == c.peer) && (c.peer.None? && d.peer.Some? ==> c.enter && d.peer.value >= k)
  }

  lemma StepGrows(s: State, e: Event, i: nat)
    requires Sound(s) && i < |s.calls|
    ensures i < |Step(s, e).calls| && Grew(s.calls[i], Step(s, e).calls[i], |s.calls|)
  {
  }

  lemma {:induction false} CallsStay(es: seq<Event>, k: nat, n: nat, i: nat)
    requires i < k <= n <= |es|
    ensures Grew(Run(es, k).calls[i], Run(es, n).calls[i], k)
    decreases n
  {
    hide Step, Sound;
    if k < n {
      CallsStay(es, k, n - 1, i);
      StepGrows(Run(es, n - 1), es[n - 1], i);
    }
  }

  lemma OpenStays(es: seq<Event>, k: nat, n: nat, i: nat)
    requires i < k <= n <= |es|
    ensures Open(Run(es, k), i) <==> OpenAt(Run(es, n), i, k)
    ensures Run(es, n).calls[i].fn == es[i].fn
  {
    CallsStay(es, k, n, i);
    PairedAt(es, k, i);
    RunStands(es, n, i);
  }

  lemma MovesStay(es: seq<Event>, k: nat, n: nat, j: nat, c: nat)
    requires j < k <= n <= |es|
    ensures Moves(Run(es, k), j, c) <==> Moves(Run(es, n), j, c)
    ensures Rests(Run(es, k), j) <==> Rests(Run(es, n), j)
  {
    hide Run, Sound;
    CallsStay(es, k, n, j);
    PairedAt(es, k, j);
    var peer := Run(es, k).calls[j].peer;
    if peer.Some? {
      CallsStay(es, k, n, peer.value);
    }
  }

  lemma CurrentStays(es: seq<Event>, k: nat, n: nat, c: nat)
    requires k <= n <= |es|
    ensures CurrentAt(Run(es, k), k, c) <==> CurrentAt(Run(es, n), k, c)
  {
    hide Run, Moves, Rests;
    forall j | 0 <= j < k
      ensures Moves(Run(es, k), j, c) <==> Moves(Run(es, n), j, c)
      ensures Rests(Run(es, k), j) <==> Rests(Run(es, n), j)
    {
      MovesStay(es, k, n, j, c);
    }
  }

  lemma StepMoves(s: State, e: Event, c: nat)
    requires Sound(s)
    ensures var s', k := Step(s, e), |s.calls|;
      && |s'.calls| == k + 1
      && (s'.cur == Some(c) <==> Moves(s', k, c) || (Rests(s', k) && s.cur == Some(c)))
      && !(Rests(s', k) && Moves(s', k, c))
  {
    var s' := Step(s, e);
    if s.cur.Some? && !e.enter && Match(s, s.cur.value, e.fn).Some? {
      assert Placed(s, Match(s, s.cur.value, e.fn).value) && Paired(s, Match(s, s.cur.value, e.fn).value);
    }
  }

  /** The current node is the one that the last record but for those that close calls of the thread made so. */
  lemma {:induction false} CurrentIs(es: seq<Event>, k: nat, c: nat)
    requires k <= |es|
    ensures Run(es, k).cur == Some(c) <==> CurrentAt(Run(es, k), k, c)
  {
    if k > 0 {
      CurrentIs(es, k - 1, c);
      CurrentStays(es, k - 1, k, c);
      StepMoves(Run(es, k - 1), es[k - 1], c);
      CurrentStep(Run(es, k), k, c);
    }
  }

  lemma CurrentStep(s: State, k: nat, c: nat)
    requires 0 < k <= |s.calls|
    ensures CurrentAt(s, k, c) <==> Moves(s, k - 1, c) || (Rests(s, k - 1) && CurrentAt(s, k - 1, c))
  {
    if Rests(s, k - 1) && CurrentAt(s, k - 1, c) {
      var j :| 0 <= j < k - 1 && Moves(s, j, c) && forall m :: j < m < k - 1 ==> Rests(s, m);
      assert forall m :: j < m < k ==> Rests(s, m);
    }
  }

  /** One step of the search, said of the calls as they are later. */
  lemma MatchStep(es: seq<Event>, k: nat, n: nat, c: nat, fn: nat)
    requires c < k <= n <= |es|
    ensures var s0, s := Run(es, k), Run(es, n); var place := s.calls[c].place;
      && (place.Under? ==> place.call < c)
      && Match(s0, c, fn) == if OpenFor(s, c, k, fn) then Some(c)
                             else if place.Under? then Match(s0, place.call, fn) else None
  {
    OpenStays(es, k, n, c);
    OpenStays(es, k, k, c);
    CallsStay(es, k, n, c);
    PairedAt(es, k, c);
  }

  lemma {:induction false} NearestIsMatch(es: seq<Event>, k: nat, n: nat, c: nat, fn: nat, path: seq<nat>, i: nat)
    requires c < k <= n <= |es| && Climbs(Run(es, n), path, c, i) && OpenFor(Run(es, n), i, k, fn)
    requires forall m :: 0 <= m < |path| - 1 ==> !OpenFor(Run(es, n), path[m], k, fn)
    ensures Match(Run(es, k), c, fn) == Some(i)
    decreases |path|
  {
    hide Run, Match, OpenFor;
    MatchStep(es, k, n, c, fn);
    if |path| > 1 {
      NearestIsMatch(es, k, n, path[1], fn, path[1..], i);
    }
  }

  lemma {:induction false} NoMatchNoneOpen(es: seq<Event>, k: nat, n: nat, c: nat, fn: nat, path: seq<nat>, i: nat)
    requires c < k <= n <= |es| && Climbs(Run(es, n), path, c, i) && Match(Run(es, k), c, fn).None?
    ensures !OpenFor(Run(es, n), i, k, fn)
    decreases |path|
  {
    hide Run, Match, OpenFor;
    MatchStep(es, k, n, c, fn);
    if |path| > 1 {
      NoMatchNoneOpen(es, k, n, path[1], fn, path[1..], i);
    }
  }

  lemma {:induction false} MatchIsNearest(es: seq<Event>, k: nat, n: nat, c: nat, fn: nat) returns (path: seq<nat>)
    requires c < k <= n <= |es| && Match(Run(es, k), c, fn).Some?
    ensures var s, i := Run(es, n), Match(Run(es, k), c, fn).value;
      i < k && Climbs(s, path, c, i) && OpenFor(s, i, k, fn)
      && forall m :: 0 <= m < |path| - 1 ==> !OpenFor(s, path[m], k, fn)
    decreases c
  {
    hide Run, Match, OpenFor;
    MatchStep(es, k, n, c, fn);
    if OpenFor(Run(es, n), c, k, fn) {
      path := [c];
    } else {
      path := MatchIsNearest(es, k, n, Run(es, n).calls[c].place.call, fn);
      path := [c] + path;
    }
  }

  /** For any records: an exit becomes the peer of the nearest open enter of its function on the way from the
      current node up to the thread, past all calls whose exit is missing. If there is none it has no peer and
      goes under the thread or the current node, as the thread node answers. */
  lemma AnyExit(es: seq<Event>, n: nat, k: nat, c: nat)
    requires k < n <= |es| && !es[k].enter && CurrentAt(Run(es, n), k, c)
    ensures var s := Run(es, n); var d := s.calls[k];
      && (forall i: nat :: d.peer == Some(i) <==> Nearest(s, k, es[k].fn, c, i))
      && (d.peer.None? <==> NothingOpen(s, k, es[k].fn, c))
      && d.place == if d.peer.Some? then Detached else if es[k].threadBit then UnderThread else Under(c)
  {
    var s, fn := Run(es, n), es[k].fn;
    StepAt(es, n, k, c);
    hide Run, Step, Match, OpenFor, Climbs, CurrentAt;
    var m := Match(Run(es, k), c, fn);
    if m.Some? {
      var path := MatchIsNearest(es, k, n, c, fn);
      assert Nearest(s, k, fn, c, m.value);
    }
    forall path, i {:trigger Climbs(s, path, c, i)} | Climbs(s, path, c, i) && m.None?
      ensures !OpenFor(s, i, k, fn)
    {
      NoMatchNoneOpen(es, k, n, c, fn, path, i);
    }
    forall i: nat | Nearest(s, k, fn, c, i)
      ensures m == Some(i)
    {
      var path :| Climbs(s, path, c, i)
        && OpenFor(s, i, k, fn) && forall m :: 0 <= m < |path| - 1 ==> !OpenFor(s, path[m], k, fn);
      NearestIsMatch(es, k, n, c, fn, path, i);
    }
  }

  /** What record k becomes, and stays but for an enter's peer. */
  lemma StepAt(es: seq<Event>, n: nat, k: nat, c: nat)
    requires k < n <= |es| && CurrentAt(Run(es, n), k, c)
    ensures c < k && Run(es, k).cur == Some(c)
    ensures var d := Run(es, n).calls[k];
      if es[k].enter then d.place == if OpenAt(Run(es, n), c, k) then Under(c) else UnderThread
      else
        && d.peer == Match(Run(es, k), c, es[k].fn)
        && d.place == if d.peer.Some? then Detached else if es[k].threadBit then UnderThread else Under(c)
  {
    CurrentStays(es, k, n, c);
    CurrentIs(es, k, c);
    CallsStay(es, k + 1, n, k);
    OpenStays(es, k, n, c);
    assert Run(es, k + 1) == Step(Run(es, k), es[k]);
  }

  /** For any records: an enter goes under the current node if that is an open enter, or under the thread. */
  lemma AnyEnter(es: seq<Event>, n: nat, k: nat, c: nat)
    requires k < n <= |es| && es[k].enter && CurrentAt(Run(es, n), k, c)
    ensures c < k && Run(es, n).calls[k].place == if OpenAt(Run(es, n), c, k) then Under(c) else UnderThread
  {
    StepAt(es, n, k, c);
  }

  /** There is one current node from the first record on, and the first record goes under the thread. */
  lemma OneCurrent(es: seq<Event>, n: nat, k: nat)
    requires k <= n <= |es|
    ensures k > 0 ==> exists c :: CurrentAt(Run(es, n), k, c)
    ensures forall c, d :: CurrentAt(Run(es, n), k, c) && CurrentAt(Run(es, n), k, d) ==> c == d
    ensures 0 < n ==> Run(es, n).calls[0].place == UnderThread
  {
    forall c: nat
      ensures CurrentAt(Run(es, n), k, c) <==> Run(es, k).cur == Some(c)
    {
      CurrentStays(es, k, n, c);
      CurrentIs(es, k, c);
    }
    if k > 0 {
      assert CurrentAt(Run(es, n), k, Run(es, k).cur.value);
    }
    if 0 < n {
      CallsStay(es, 1, n, 0);
      assert Run(es, 1) == Step(START, es[0]);
    }
  }

  /** For any records: a trace goes where an enter would go. */
  lemma AnyTrace(es: seq<Event>, n: nat, c: nat)
    requires n <= |es| && CurrentAt(Run(es, n), n, c)
    ensures c < n && TracePlace(Run(es, n)) == if OpenAt(Run(es, n), c, n) then Under(c) else UnderThread
  {
    CurrentIs(es, n, c);
    OpenStays(es, n, n, c);
  }
}
