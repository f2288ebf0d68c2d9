/** The text of a thread, kept in trace nodes of chained chunks (Archive.cpp, LogData.h, LogData.cpp). */
module Traces {
  import opened Chars

  const MAX_LOG_LEN := 1600
  const MAX_BUF_LEN := 2 * MAX_LOG_LEN - 1

  /** A piece of text without the one line break that may end it. */
  function Body(piece: string): string {
    if piece != [] && IsNewLine(piece[|piece| - 1]) then piece[..|piece| - 1] else piece
  }

  /** Whether a piece ends a line. Of an empty piece the byte before it is looked at. */
  predicate EndsLine(before: char, piece: string) {
    if piece == [] then before == '\r' else IsNewLine(piece[|piece| - 1])
  }

  /** A chunk of text. It is created for a node of its thread, as one of the chunks of the thread,
      and with the text that the thread has before it. */
  class TraceChunk {
    const trace: string
    ghost const node: nat
    ghost const place: nat
    ghost const at: nat
    ghost const thread: ThreadNode
    var next_chank: TraceChunk?

    constructor (trace: string, ghost node: nat, ghost place: nat, ghost at: nat, ghost thread: ThreadNode)
      ensures this.trace == trace && this.node == node && this.place == place && this.at == at
      ensures this.thread == thread && next_chank == null
    {
      this.trace := trace;
      this.node, this.place, this.at, this.thread := node, place, at, thread;
      next_chank := null;
    }
  }

  class TraceNode {
    const first: TraceChunk // part of the node
    var cb_trace: nat       // the length of the chunks after the first
    var hasNewLine: bool
    ghost const thread: ThreadNode

    constructor (first: TraceChunk, endsWithNewLine: bool, ghost thread: ThreadNode)
      ensures this.first == first && cb_trace == 0 && hasNewLine == endsWithNewLine && this.thread == thread
    {
      this.first, this.thread := first, thread;
      cb_trace := 0;
      hasNewLine := endsWithNewLine;
    }
  }

  // The chunks of a thread in order, the place of the first chunk of each node, and the text of all.

  /** Where the chunks of node k end. */
  ghost function LastPlace(all: seq<TraceChunk>, firsts: seq<nat>, k: nat): nat
    requires k < |firsts|
  {
    if k + 1 < |firsts| then firsts[k + 1] else |all|
  }

  ghost function StartOf(all: seq<TraceChunk>, text: string, place: nat): nat {
    if place < |all| then all[place].at else |text|
  }

  /** The chunk is at its place, within its node, and holds its part of the text. */
  ghost predicate ChunkFits(all: seq<TraceChunk>, firsts: seq<nat>, text: string, i: nat)
    requires i < |all|
  {
    && all[i].place == i && all[i].trace != []
    && all[i].node < |firsts| && firsts[all[i].node] <= i < LastPlace(all, firsts, all[i].node)
    && all[i].at + |all[i].trace| == StartOf(all, text, i + 1) <= |text|
    && text[all[i].at..all[i].at + |all[i].trace|] == all[i].trace
  }

  /** The node's chunks are its own, and the lengths of the first and of the others are bounded. */
  ghost predicate NodeFits(all: seq<TraceChunk>, firsts: seq<nat>, text: string, k: nat)
    requires k < |firsts|
  {
    && firsts[k] < LastPlace(all, firsts, k) <= |all| && all[firsts[k]].node == k
    && |all[firsts[k]].trace| <= MAX_LOG_LEN && 0 <= Added(all, firsts, text, k) < MAX_LOG_LEN
    && all[firsts[k]].at <= StartOf(all, text, LastPlace(all, firsts, k)) <= |text|
  }

  /** The length of the node's chunks after the first. */
  ghost function Added(all: seq<TraceChunk>, firsts: seq<nat>, text: string, k: nat): int
    requires k < |firsts| && firsts[k] < |all|
  {
    StartOf(all, text, LastPlace(all, firsts, k)) - all[firsts[k]].at - |all[firsts[k]].trace|
  }

  ghost predicate AllFit(all: seq<TraceChunk>, firsts: seq<nat>, text: string) {
    && (if firsts == [] then all == [] && text == [] else firsts[0] == 0 && all != [] && all[0].at == 0)
    && (forall i: nat {:trigger ChunkFits(all, firsts, text, i)} :: i < |all| ==> ChunkFits(all, firsts, text, i))
    && (forall k: nat {:trigger NodeFits(all, firsts, text, k)} :: k < |firsts| ==> NodeFits(all, firsts, text, k))
  }

  /** The text of a node: its part of the thread's text. */
  ghost function NodeText(all: seq<TraceChunk>, firsts: seq<nat>, text: string, k: nat): string
    requires AllFit(all, firsts, text) && k < |firsts|
  {
    assert NodeFits(all, firsts, text, k);
    text[all[firsts[k]].at..StartOf(all, text, LastPlace(all, firsts, k))]
  }

  /** The chunk that must follow in the same node. */
  ghost function NextOf(all: seq<TraceChunk>, i: nat): TraceChunk?
    requires i < |all|
  {
    if i + 1 < |all| && all[i + 1].node == all[i].node then all[i + 1] else null
  }

  lemma OneMoreChunk(all: seq<TraceChunk>, firsts: seq<nat>, text: string, chunk: TraceChunk)
    requires AllFit(all, firsts, text) && firsts != []
    requires chunk.place == |all| && chunk.at == |text| && chunk.trace != [] && chunk.node == |firsts| - 1
    requires firsts[|firsts| - 1] < |all| && Added(all, firsts, text, |firsts| - 1) + |chunk.trace| < MAX_LOG_LEN
    ensures AllFit(all + [chunk], firsts, text + chunk.trace)
  {
    var all', text' := all + [chunk], text + chunk.trace;
    forall i: nat | i < |all'|
      ensures ChunkFits(all', firsts, text', i)
    {
      if i < |all| {
        assert ChunkFits(all, firsts, text, i);
      } else {
        assert NodeFits(all, firsts, text, |firsts| - 1);
      }
    }
    forall k: nat | k < |firsts|
      ensures NodeFits(all', firsts, text', k)
    {
      assert NodeFits(all, firsts, text, k);
      if k + 1 < |firsts| {
        assert NodeFits(all, firsts, text, k + 1);
      }
    }
  }

  lemma OneMoreNode(all: seq<TraceChunk>, firsts: seq<nat>, text: string, chunk: TraceChunk)
    requires AllFit(all, firsts, text)
    requires chunk.place == |all| && chunk.at == |text| && chunk.trace != [] && chunk.node == |firsts|
    requires |chunk.trace| <= MAX_LOG_LEN
    ensures AllFit(all + [chunk], firsts + [|all|], text + chunk.trace)
  {
    var all', firsts', text' := all + [chunk], firsts + [|all|], text + chunk.trace;
    forall i: nat | i < |all'|
      ensures ChunkFits(all', firsts', text', i)
    {
      if i < |all| {
        assert ChunkFits(all, firsts, text, i);
      }
    }
    forall k: nat | k < |firsts'|
      ensures NodeFits(all', firsts', text', k)
    {
      if k < |firsts| {
        assert NodeFits(all, firsts, text, k);
        if k + 1 < |firsts| {
          assert NodeFits(all, firsts, text, k + 1);
        }
      }
    }
  }

  lemma {:induction false} Ordered(all: seq<TraceChunk>, firsts: seq<nat>, text: string, j: nat, k: nat)
    requires AllFit(all, firsts, text) && j <= k < |firsts|
    ensures firsts[j] <= firsts[k]
    decreases k - j
  {
    if j < k {
      assert NodeFits(all, firsts, text, j);
      Ordered(all, firsts, text, j + 1, k);
    }
  }

  /** The chain of a node ends with its last chunk. */
  lemma ChainEnds(all: seq<TraceChunk>, firsts: seq<nat>, text: string, i: nat)
    requires AllFit(all, firsts, text) && i < |all| && NextOf(all, i) == null
    ensures all[i].node < |firsts| && i + 1 == LastPlace(all, firsts, all[i].node)
  {
    assert ChunkFits(all, firsts, text, i);
    if i + 1 < LastPlace(all, firsts, all[i].node) {
      assert NodeFits(all, firsts, text, all[i].node) && ChunkFits(all, firsts, text, i + 1);
      var k, m := all[i].node, all[i + 1].node;
      if m < k {
        Ordered(all, firsts, text, m + 1, k);
      } else {
        Ordered(all, firsts, text, k + 1, m);
      }
    }
  }

  lemma {:induction false} StartsGrow(all: seq<TraceChunk>, firsts: seq<nat>, text: string, i: nat, j: nat)
    requires AllFit(all, firsts, text) && i <= j <= |all|
    ensures StartOf(all, text, i) <= StartOf(all, text, j)
    decreases j - i
  {
    if i < j {
      assert ChunkFits(all, firsts, text, i);
      StartsGrow(all, firsts, text, i + 1, j);
    }
  }

  lemma PlaceIs(all: seq<TraceChunk>, firsts: seq<nat>, text: string, i: nat)
    requires AllFit(all, firsts, text) && i < |all|
    ensures all[i].place == i && all[i].node < |firsts|
  {
    assert ChunkFits(all, firsts, text, i);
  }

  lemma AddedNothing(all: seq<TraceChunk>, firsts: seq<nat>, text: string, chunk: TraceChunk)
    requires chunk.at == |text|
    ensures Added(all + [chunk], firsts + [|all|], text + chunk.trace, |firsts|) == 0
  {
  }

  /** What follows in the same node after one more chunk. */
  lemma NextAfter(all: seq<TraceChunk>, chunk: TraceChunk, i: nat)
    requires i <= |all|
    ensures NextOf(all + [chunk], i) == if i == |all| then null
                                        else if i < |all| - 1 || chunk.node != all[i].node then NextOf(all, i)
                                        else chunk
  {
  }

  /** A new chunk lengthens no node but the one it belongs to. */
  lemma AddedStays(all: seq<TraceChunk>, firsts: seq<nat>, text: string, chunk: TraceChunk, firsts': seq<nat>, k: nat)
    requires AllFit(all, firsts, text) && chunk.at == |text|
    requires (firsts' == firsts || firsts' == firsts + [|all|]) && k < |firsts|
    ensures firsts[k] < |all|
    ensures Added(all + [chunk], firsts', text + chunk.trace, k)
         == Added(all, firsts, text, k) + if k == |firsts'| - 1 then |chunk.trace| else 0
    ensures AllFit(all + [chunk], firsts', text + chunk.trace) && k < |firsts'| - 1 ==>
              NodeText(all + [chunk], firsts', text + chunk.trace, k) == NodeText(all, firsts, text, k)
  {
    assert NodeFits(all, firsts, text, k);
    if k + 1 < |firsts| {
      assert NodeFits(all, firsts, text, k + 1);
    }
  }

  /** Whether a piece is appended to the last node of its thread. */
  ghost predicate Continues(latest: TraceNode?, apart: bool, piece: string)
    reads latest
  {
    latest != null && !apart && !latest.hasNewLine && latest.cb_trace + |Body(piece)| < MAX_LOG_LEN
  }

  class ThreadNode {
    var latestTrace: TraceNode?

    ghost var nodes: seq<TraceNode>    // in the order of the archive
    ghost var all: seq<TraceChunk>
    ghost var firsts: seq<nat>
    ghost var text: string
    ghost var chunks: set<TraceChunk>  // all of them, as a set

    /** Each node has its first chunk and knows the length of the others, and its chunks are chained. */
    ghost predicate Chained()
      requires AllFit(all, firsts, text)
      reads this, nodes`cb_trace, chunks
    {
      && |nodes| == |firsts|
      && (forall k: nat {:trigger nodes[k]} :: k < |nodes| ==>
            firsts[k] < |all| && nodes[k].first == all[firsts[k]] && nodes[k].first.node == k)
      && (forall k: nat {:trigger nodes[k].cb_trace} :: k < |nodes| ==>
            nodes[k].cb_trace == Added(all, firsts, text, k))
      && (forall i: nat {:trigger all[i]} :: i < |all| ==> all[i] in chunks)
      && (forall i: nat {:trigger all[i].next_chank} :: i < |all| ==> all[i].next_chank == NextOf(all, i))
    }

    /** Nodes and chunks belong to one thread only. */
    ghost predicate Own()
      reads this
    {
      && (forall k: nat {:trigger nodes[k]} :: k < |nodes| ==> nodes[k].thread == this)
      && (forall c {:trigger c in chunks} :: c in chunks ==> c.thread == this)
    }

    ghost predicate Valid()
      reads this, nodes`cb_trace, chunks
    {
      && AllFit(all, firsts, text) && Chained() && Own()
      && latestTrace == if nodes == [] then null else nodes[|nodes| - 1]
    }

    constructor ()
      ensures Valid() && nodes == [] && text == [] && chunks == {} && latestTrace == null
    {
      latestTrace := null;
      nodes, all, firsts, text, chunks := [], [], [], [], {};
    }

    method GetLastChunk() returns (p: TraceChunk)
      requires Valid() && nodes != []
      ensures all != [] && p == all[|all| - 1] && p.node == |nodes| - 1 && p in chunks && p.next_chank == null
    {
      p := latestTrace.first;
      ghost var i := firsts[|firsts| - 1];
      while p.next_chank != null
        invariant 0 <= i < |all| && p == all[i] && p.node == |nodes| - 1
        decreases |all| - i
      {
        assert all[i].next_chank == NextOf(all, i);
        p := p.next_chank;
        i := i + 1;
      }
      ChainEnds(all, firsts, text, i);
    }

    /** Chain one more chunk to the last node, if the memory allows. */
    method AppendChunk(trace: string) returns (ok: bool)
      requires Valid() && nodes != [] && trace != [] && latestTrace.cb_trace + |trace| < MAX_LOG_LEN
      modifies this`all, this`text, this`chunks, latestTrace`cb_trace, chunks
      ensures Valid() && fresh(chunks - old(chunks))
      ensures text == old(text) + if ok then trace else []
      ensures old(all) <= all && (!ok ==> all == old(all))
      ensures firsts == old(firsts) && forall k: nat {:trigger NodeText(all, firsts, text, k)} :: k < |nodes| - 1 ==>
                NodeText(all, firsts, text, k) == old(NodeText(all, firsts, text, k))
    {
      var last := GetLastChunk();
      ok := *;
      if !ok {
        return;
      }
      var chunk := new TraceChunk(trace, |nodes| - 1, |all|, |text|, this);
      Chain(last, chunk);
    }

    method Chain(last: TraceChunk, chunk: TraceChunk)
      requires Valid() && nodes != [] && all != [] && last == all[|all| - 1] && chunk.next_chank == null
      requires chunk !in chunks && chunk.thread == this
      requires chunk.place == |all| && chunk.at == |text| && chunk.trace != [] && chunk.node == |nodes| - 1 == last.node
      requires latestTrace.cb_trace + |chunk.trace| < MAX_LOG_LEN
      modifies this`all, this`text, this`chunks, latestTrace`cb_trace, last
      ensures Valid() && chunks == old(chunks) + {chunk}
      ensures text == old(text) + chunk.trace && all == old(all) + [chunk]
      ensures forall k: nat {:trigger NodeText(all, firsts, text, k)} :: k < |nodes| - 1 ==>
                NodeText(all, firsts, text, k) == old(NodeText(all, firsts, text, k))
    {
      hide *;
      FromValid(this);
      last.next_chank := chunk;
      latestTrace.cb_trace := latestTrace.cb_trace + |chunk.trace|;
      OneMoreChunk(all, firsts, text, chunk);
      all := all + [chunk];
      text := text + chunk.trace;
      chunks := chunks + {chunk};
      forall k: nat | k < |nodes|
        ensures firsts[k] < |all| && nodes[k].first == all[firsts[k]]
        ensures nodes[k].cb_trace == Added(all, firsts, text, k)
        ensures k < |nodes| - 1 ==> NodeText(all, firsts, text, k) == old(NodeText(all, firsts, text, k))
      {
        AddedStays(old(all), firsts, old(text), chunk, firsts, k);
        assert nodes[k].first == old(all)[firsts[k]];
      }
      forall i: nat | i < |all|
        ensures all[i].next_chank == NextOf(all, i)
      {
        NextAfter(old(all), chunk, i);
        if i < |old(all)| {
          assert old(all[i].next_chank == NextOf(all, i)) && all[i] == old(all)[i];
          PlaceIs(old(all), firsts, old(text), i);
          PlaceIs(old(all), firsts, old(text), |old(all)| - 1);
        }
      }
      StillOwn(this, old(nodes), old(chunks), chunk);
      ToValid(this);
    }

    /** Start a new node, if the memory allows. */
    method StartNode(trace: string, endsWithNewLine: bool) returns (ok: bool)
      requires Valid() && trace != [] && |trace| <= MAX_LOG_LEN
      modifies this
      ensures Valid() && fresh(chunks - old(chunks))
      ensures text == old(text) + if ok then trace else []
      ensures old(all) <= all && (!ok ==> all == old(all))
      ensures old(nodes) <= nodes
      ensures forall k: nat {:trigger NodeText(all, firsts, text, k)} :: k < |old(nodes)| ==>
                NodeText(all, firsts, text, k) == old(NodeText(all, firsts, text, k))
      ensures if ok then nodes == old(nodes) + [latestTrace] && fresh(latestTrace) && latestTrace.hasNewLine ==
                endsWithNewLine
              else nodes == old(nodes) && latestTrace == old(latestTrace)
    {
      ok := *;
      if !ok {
        return;
      }
      var chunk := new TraceChunk(trace, |nodes|, |all|, |text|, this);
      var node := new TraceNode(chunk, endsWithNewLine, this);
      Hang(node, chunk);
    }

    method Hang(node: TraceNode, chunk: TraceChunk)
      requires Valid() && node.first == chunk && node.cb_trace == 0 && chunk.next_chank == null && chunk !in chunks
      requires chunk.place == |all| && chunk.at == |text| && chunk.trace != [] && chunk.node == |nodes|
      requires |chunk.trace| <= MAX_LOG_LEN && node.thread == chunk.thread == this
      modifies this
      ensures Valid() && chunks == old(chunks) + {chunk}
      ensures text == old(text) + chunk.trace && all == old(all) + [chunk]
      ensures old(nodes) <= nodes
      ensures forall k: nat {:trigger NodeText(all, firsts, text, k)} :: k < |old(nodes)| ==>
                NodeText(all, firsts, text, k) == old(NodeText(all, firsts, text, k))
      ensures nodes == old(nodes) + [node] && latestTrace == node
    {
      hide *;
      FromValid(this);
      latestTrace := node;
      OneMoreNode(all, firsts, text, chunk);
      AddedNothing(all, firsts, text, chunk);
      nodes := nodes + [node];
      firsts := firsts + [|all|];
      all := all + [chunk];
      text := text + chunk.trace;
      chunks := chunks + {chunk};
      forall k: nat | k < |nodes|
        ensures firsts[k] < |all| && nodes[k].first == all[firsts[k]]
        ensures nodes[k].cb_trace == Added(all, firsts, text, k)
        ensures k < |old(nodes)| ==> NodeText(all, firsts, text, k) == old(NodeText(all, firsts, text, k))
      {
        if k < |old(nodes)| {
          AddedStays(old(all), old(firsts), old(text), chunk, firsts, k);
          assert nodes[k] == old(nodes)[k] && nodes[k].first == old(all)[firsts[k]];
        }
      }
      forall i: nat | i < |all|
        ensures all[i].next_chank == NextOf(all, i)
      {
        NextAfter(old(all), chunk, i);
        if i < |old(all)| {
          assert old(all[i].next_chank == NextOf(all, i)) && all[i] == old(all)[i];
          PlaceIs(old(all), old(firsts), old(text), i);
        }
      }
      StillOwn(this, old(nodes), old(chunks), chunk);
      ToValid(this);
    }

    ghost function Latest(): set<TraceNode>
      reads this
    {
      if latestTrace == null then {} else {latestTrace}
    }

    /** Whether to append to the last node, which is closed when a line or its room ends. */
    method Decide(apart: bool, endsWithNewLine: bool, cb: int) returns (newChunk: bool)
      modifies Latest()`hasNewLine
      ensures newChunk <==>
                && latestTrace != null && !apart && !old(latestTrace.hasNewLine)
                && latestTrace.cb_trace + cb < MAX_LOG_LEN
      ensures latestTrace != null ==>
                (latestTrace.hasNewLine <==>
                   || old(latestTrace.hasNewLine)
                   || (!apart && (endsWithNewLine || latestTrace.cb_trace + cb >= MAX_LOG_LEN)))
    {
      newChunk := false;
      if latestTrace != null && !apart {
        if !latestTrace.hasNewLine {
          if latestTrace.cb_trace + cb < MAX_LOG_LEN {
            newChunk := true;
          } else {
            latestTrace.hasNewLine := true;
          }
          if endsWithNewLine {
            latestTrace.hasNewLine := true;
          }
        }
      }
    }

    /** Add a piece of text. It is appended to the last node, unless that has had its line break, would
        become too long or must be left alone, and otherwise it starts a new node. */
    method AddTrace(apart: bool, before: char, piece: string) returns (ok: bool)
      requires Valid() && |piece| <= MAX_LOG_LEN
      modifies this, latestTrace, chunks
      ensures Valid() && fresh(chunks - old(chunks))
      ensures old(nodes) <= nodes
      ensures forall k: nat {:trigger NodeText(all, firsts, text, k)} ::
                k < |old(nodes)| && (k < |old(nodes)| - 1 || apart || old(nodes[k].hasNewLine)) ==>
                NodeText(all, firsts, text, k) == old(NodeText(all, firsts, text, k))
      ensures text == old(text) + if ok then Body(piece) else []
      ensures text == old(text) + if !ok then []
                                  else if piece != [] && (piece[|piece| - 1] == '\n' || piece[|piece| - 1] == '\r')
                                  then piece[..|piece| - 1] else piece
      ensures ok && |piece| > 1 ==>
                (latestTrace.hasNewLine <==> piece[|piece| - 1] == '\n' || piece[|piece| - 1] == '\r')
      ensures old(all) <= all && (nodes == old(nodes) || (nodes == old(nodes) + [latestTrace] && fresh(latestTrace)))
      ensures ok && Body(piece) != [] ==> (nodes == old(nodes) <==> old(Continues(latestTrace, apart, piece)))
      ensures ok && Body(piece) != [] ==> latestTrace.hasNewLine == EndsLine(before, piece)
      ensures Body(piece) == [] ==> ok && nodes == old(nodes) && all == old(all)
      ensures Body(piece) == [] && EndsLine(before, piece) && !apart && latestTrace != null ==> latestTrace.hasNewLine
      ensures old(latestTrace != null && latestTrace.hasNewLine) ==> old(latestTrace).hasNewLine
    {
      hide AllFit, NodeText, ThreadNode.Chained;
      var endsWithNewLine := EndsLine(before, piece);
      var cb: int := if endsWithNewLine then |piece| - 1 else |piece|;
      var newChunk := Decide(apart, endsWithNewLine, cb);
      if cb <= 0 {
        return true;
      }
      if newChunk {
        ok := AppendChunk(piece[..cb]);
      } else {
        ok := StartNode(piece[..cb], endsWithNewLine);
      }
    }
  }

  /** What Valid stands for, and the other way round. */
  lemma FromValid(t: ThreadNode)
    requires t.Valid()
    ensures
      && AllFit(t.all, t.firsts, t.text) && |t.nodes| == |t.firsts|
      && (forall k: nat {:trigger t.nodes[k]} :: k < |t.nodes| ==>
            t.firsts[k] < |t.all| && t.nodes[k].first == t.all[t.firsts[k]] && t.nodes[k].first.node == k)
      && (forall k: nat {:trigger t.nodes[k].cb_trace} :: k < |t.nodes| ==>
            t.nodes[k].cb_trace == Added(t.all, t.firsts, t.text, k))
      && (forall i: nat {:trigger t.all[i]} :: i < |t.all| ==> t.all[i] in t.chunks)
      && (forall i: nat {:trigger t.all[i].next_chank} :: i < |t.all| ==> t.all[i].next_chank == NextOf(t.all, i))
      && t.latestTrace == (if t.nodes == [] then null else t.nodes[|t.nodes| - 1]) && t.Own()
  {
  }

  lemma ToValid(t: ThreadNode)
    requires
      && AllFit(t.all, t.firsts, t.text) && |t.nodes| == |t.firsts|
      && (forall k: nat {:trigger t.nodes[k]} :: k < |t.nodes| ==>
            t.firsts[k] < |t.all| && t.nodes[k].first == t.all[t.firsts[k]] && t.nodes[k].first.node == k)
      && (forall k: nat {:trigger t.nodes[k].cb_trace} :: k < |t.nodes| ==>
            t.nodes[k].cb_trace == Added(t.all, t.firsts, t.text, k))
      && (forall i: nat {:trigger t.all[i]} :: i < |t.all| ==> t.all[i] in t.chunks)
      && (forall i: nat {:trigger t.all[i].next_chank} :: i < |t.all| ==> t.all[i].next_chank == NextOf(t.all, i))
      && t.latestTrace == (if t.nodes == [] then null else t.nodes[|t.nodes| - 1]) && t.Own()
    ensures t.Valid()
  {
    assert t.Chained();
  }

  lemma StillOwn(t: ThreadNode, nodes: seq<TraceNode>, chunks: set<TraceChunk>, chunk: TraceChunk)
    requires (forall k: nat {:trigger nodes[k]} :: k < |nodes| ==> nodes[k].thread == t)
    requires (forall c {:trigger c in chunks} :: c in chunks ==> c.thread == t)
    requires t.nodes == nodes || exists n: TraceNode :: n.thread == t && t.nodes == nodes + [n]
    requires t.chunks == chunks + {chunk} && chunk.thread == t
    ensures t.Own()
  {
  }

  /** A chunk of a node fits into what its text may take. */
  lemma FitsBuffer(all: seq<TraceChunk>, firsts: seq<nat>, text: string, k: nat, i: nat)
    requires AllFit(all, firsts, text) && k < |firsts| && i < |all| && all[i].node == k
    ensures ChunkFits(all, firsts, text, i) && NodeFits(all, firsts, text, k)
    ensures all[firsts[k]].at <= all[i].at
    ensures all[i].at + |all[i].trace| <= StartOf(all, text, LastPlace(all, firsts, k))
    ensures StartOf(all, text, LastPlace(all, firsts, k)) <= all[firsts[k]].at + MAX_BUF_LEN
  {
    assert ChunkFits(all, firsts, text, i) && NodeFits(all, firsts, text, k);
    StartsGrow(all, firsts, text, firsts[k], i);
    StartsGrow(all, firsts, text, i + 1, LastPlace(all, firsts, k));
  }

  /** The text of a node, collected in a buffer if it has more than one chunk. It always fits: the case of
      a chunk that is too long is dead. */
  method GetListText(ghost t: ThreadNode, ghost k: nat, node: TraceNode, pBuf: array<char>) returns (shown: string)
    requires t.Valid() && k < |t.nodes| && node == t.nodes[k] && pBuf.Length == MAX_BUF_LEN + 1
    modifies pBuf
    ensures shown == NodeText(t.all, t.firsts, t.text, k) && |shown| <= MAX_BUF_LEN
  {
    var chunk: TraceChunk? := node.first;
    ghost var start, i := node.first.at, t.firsts[k];
    FitsBuffer(t.all, t.firsts, t.text, k, i);
    if chunk.next_chank == null {
      ChainEnds(t.all, t.firsts, t.text, i);
      return chunk.trace;
    }
    var cb: nat := 0;
    while chunk != null
      invariant i <= |t.all| && start + cb == StartOf(t.all, t.text, i) && cb <= MAX_BUF_LEN
      invariant start + cb <= |t.text| && pBuf[..cb] == t.text[start..start + cb]
      invariant if chunk != null then i < |t.all| && chunk == t.all[i] && chunk.node == k
                else i == LastPlace(t.all, t.firsts, k)
      decreases |t.all| - i
    {
      FitsBuffer(t.all, t.firsts, t.text, k, i);
      var c := |chunk.trace|;
      if c + cb > MAX_BUF_LEN {
        assert false;
      }
      Copy(pBuf, cb, chunk.trace);
      assert t.text[start..start + cb + c] == t.text[start..start + cb] + t.text[start + cb..start + cb + c];
      assert t.all[i].next_chank == NextOf(t.all, i);
      if chunk.next_chank == null {
        ChainEnds(t.all, t.firsts, t.text, i);
      }
      cb := cb + c;
      chunk := chunk.next_chank;
      i := i + 1;
    }
    pBuf[cb] := '\0';
    shown := pBuf[..cb];
  }

  method Copy(pBuf: array<char>, at: nat, trace: string)
    requires at + |trace| <= pBuf.Length
    modifies pBuf
    ensures pBuf[..at + |trace|] == old(pBuf[..at]) + trace
  {
    forall i | 0 <= i < |trace| {
      pBuf[at + i] := trace[i];
    }
  }

  /** The texts of the first n nodes, one after the other. */
  ghost function TextsOf(all: seq<TraceChunk>, firsts: seq<nat>, text: string, n: nat): string
    requires AllFit(all, firsts, text) && n <= |firsts|
  {
    if n == 0 then [] else TextsOf(all, firsts, text, n - 1) + NodeText(all, firsts, text, n - 1)
  }

  /** The nodes' texts make up the thread's text. */
  lemma {:induction false} NodesTile(all: seq<TraceChunk>, firsts: seq<nat>, text: string, n: nat)
    requires AllFit(all, firsts, text) && n <= |firsts|
    ensures var end := if n == |firsts| then |text| else StartOf(all, text, firsts[n]);
      end <= |text| && TextsOf(all, firsts, text, n) == text[..end]
  {
    if n > 0 {
      NodesTile(all, firsts, text, n - 1);
      assert NodeFits(all, firsts, text, n - 1);
      var from, end := all[firsts[n - 1]].at, StartOf(all, text, LastPlace(all, firsts, n - 1));
      assert text[..from] + text[from..end] == text[..end];
    }
  }
}
