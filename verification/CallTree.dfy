/** The tree of applications, threads and calls (LogData.h). */
module LogNodes {
  import opened Brackets

  datatype Kind = RootNode | AppNode | ThreadNode | FlowNode

  /** A node of any kind with the links and counters all kinds share; the last two
      groups of fields are used by flow nodes and by thread nodes only. */
  class LogNode {
    const kind: Kind
    var parent: LogNode?
    var firstChild: LogNode?
    var lastChild: LogNode?
    var prevSibling: LogNode?
    var nextSibling: LogNode?
    var nextChankCounter: nat
    var nextChankMarker: LogNode?
    var nextChank: LogNode?
    var childCount: nat
    var expanded: bool
    var pathExpanded: bool
    var cExpanded: int
    var posInTree: int

    const threadNode: LogNode?
    const isEnter: bool
    const thisFn: nat
    const logFlags: nat
    var fnLine: int
    var peer: LogNode?

    var curentFlow: LogNode?
    var threadFlags: nat
    ghost var flows: seq<LogNode>   // all flow nodes of a thread in order of arrival,
    ghost var calls: State          // the calls they stand for,
    ghost var records: seq<Event>   // and the records they were made from

    constructor (kind: Kind, thread: LogNode?, isEnter: bool, thisFn: nat, fnLine: int, flags: nat)
      ensures this.kind == kind && threadNode == thread && this.isEnter == isEnter && this.thisFn == thisFn
      ensures this.fnLine == fnLine && logFlags == flags
      ensures Fresh() && peer == null && curentFlow == null && !expanded && flows == [] && calls == START
      ensures records == []
    {
      this.kind, threadNode, this.isEnter, this.thisFn, logFlags := kind, thread, isEnter, thisFn, flags;
      this.fnLine, peer, curentFlow, threadFlags := fnLine, null, null, 0;
      parent, firstChild, lastChild, prevSibling, nextSibling := null, null, null, null, null;
      nextChankCounter, nextChankMarker, nextChank, childCount := 0, null, null, 0;
      expanded, pathExpanded, cExpanded, posInTree := false, false, 0, 0;
      flows, calls, records := [], START, [];
    }

    /** A node that has just been allocated: all its links are clear. */
    ghost predicate Fresh()
      reads this
    {
      && parent == null && firstChild == null && lastChild == null
      && prevSibling == null && nextSibling == null
      && nextChankCounter == 0 && nextChankMarker == null && nextChank == null && childCount == 0
    }
  }

  /** What the links of one node stand for: its position in the archive, its parent and
      its place among the parent's children, all its ancestors, and its children. */
  datatype Spot = Spot(rank: nat, parent: LogNode?, slot: nat, above: set<LogNode>, kids: seq<LogNode>)

  /** The shape of the whole archive. */
  type Shape = map<LogNode, Spot>

  predicate Child(s: Shape, n: LogNode, k: nat)
    requires n in s && k < |s[n].kids|
  {
    var c := s[n].kids[k];
    c in s && s[c].parent == n && s[c].slot == k && s[n].rank < s[c].rank
  }

  predicate Hangs(s: Shape, n: LogNode)
    requires n in s
  {
    var p := s[n].parent;
    if p == null then s[n].above == {} else
      && p in s && s[n].slot < |s[p].kids| && s[p].kids[s[n].slot] == n
      && s[n].above == s[p].above + {p} && n !in s[n].above
  }

  /** A forest in which parents are older than their children. */
  ghost predicate Forest(s: Shape) {
    && (forall n, k {:trigger Child(s, n, k)} :: n in s && 0 <= k < |s[n].kids| ==> Child(s, n, k))
    && (forall n {:trigger Hangs(s, n)} :: n in s ==> Hangs(s, n))
  }

  /** The shape is a forest over the nodes of an archive, oldest first, the first being its root. */
  ghost predicate Shaped(s: Shape, nodes: seq<LogNode>) {
    && Forest(s)
    && |nodes| > 0 && nodes[0] in s && s[nodes[0]].parent == null
    && (forall i :: 0 <= i < |nodes| ==> nodes[i] in s && s[nodes[i]].rank == i)
    && (forall n :: n in s ==> s[n].rank < |nodes| && nodes[s[n].rank] == n)
  }

  function Append(s: Shape, p: LogNode, c: LogNode): Shape
    requires p in s && c in s
  {
    var spot := Spot(s[c].rank, p, |s[p].kids|, s[p].above + {p}, s[c].kids);
    s[p := s[p].(kids := s[p].kids + [c])][c := spot]
  }

  ghost function Below(s: Shape, n: LogNode): set<LogNode> {
    set m | m in s && n in s[m].above
  }

  /** c is in the archive but not in the tree. */
  predicate Loose(s: Shape, c: LogNode) {
    c in s && s[c].parent == null && s[c].kids == []
  }

  lemma AppendKeepsForest(s: Shape, p: LogNode, c: LogNode)
    requires Forest(s) && p in s && Loose(s, c) && s[p].rank < s[c].rank
    ensures Forest(Append(s, p, c))
  {
    var s' := Append(s, p, c);
    LooseIsNobodysAncestor(s, c);
    forall n, k | n in s' && 0 <= k < |s'[n].kids| ensures Child(s', n, k) {
      if n != p || k < |s[p].kids| {
        assert Child(s, n, k);
      }
    }
    forall n | n in s' ensures Hangs(s', n) {
      assert Hangs(s, n);
    }
  }

  lemma AppendKeepsShaped(s: Shape, nodes: seq<LogNode>, p: LogNode, c: LogNode)
    requires Shaped(s, nodes) && p in s && Loose(s, c) && s[p].rank < s[c].rank
    ensures Shaped(Append(s, p, c), nodes)
  {
    AppendKeepsForest(s, p, c);
  }

  lemma AddKeepsShaped(s: Shape, nodes: seq<LogNode>, c: LogNode)
    requires Shaped(s, nodes) && c !in s
    ensures Shaped(s[c := Spot(|nodes|, null, 0, {}, [])], nodes + [c])
  {
    var s' := s[c := Spot(|nodes|, null, 0, {}, [])];
    forall n, k | n in s' && 0 <= k < |s'[n].kids| ensures Child(s', n, k) {
      assert Child(s, n, k);
    }
    forall n | n in s' ensures Hangs(s', n) {
      if n != c { assert Hangs(s, n); }
    }
  }

  lemma AddLinks(s: Shape, nodes: seq<LogNode>, c: LogNode, n: LogNode)
    requires Shaped(s, nodes) && c !in s && n in s
    ensures var s' := s[c := Spot(|nodes|, null, 0, {}, [])];
      Prev(s', n) == Prev(s, n) && Next(s', n) == Next(s, n) && Chank(s', n) == Chank(s, n)
  {
    assert Hangs(s, n);
  }

  lemma BelowAdd(s: Shape, nodes: seq<LogNode>, c: LogNode, n: LogNode)
    requires Shaped(s, nodes) && c !in s
    ensures var s' := s[c := Spot(|nodes|, null, 0, {}, [])];
      Below(s', n) == if n == c then {} else Below(s, n)
  {
    var s' := s[c := Spot(|nodes|, null, 0, {}, [])];
    if n == c {
      forall m | m in s ensures c !in s[m].above {
        AboveInShape(s, m);
      }
    }
  }

  lemma {:induction false} AboveInShape(s: Shape, m: LogNode)
    requires Forest(s) && m in s
    ensures s[m].above <= s.Keys
    decreases s[m].rank
  {
    assert Hangs(s, m);
    if s[m].parent != null {
      assert Child(s, s[m].parent, s[m].slot);
      AboveInShape(s, s[m].parent);
    }
  }

  lemma BelowAppend(s: Shape, p: LogNode, c: LogNode, n: LogNode)
    requires Forest(s) && p in s && Loose(s, c) && n in s && p != c
    ensures |Below(Append(s, p, c), n)| == |Below(s, n)| + if n in Append(s, p, c)[c].above then 1 else 0
  {
    assert Hangs(s, c);
    assert c !in Below(s, n);
    assert Below(Append(s, p, c), n) == Below(s, n) + if n in Append(s, p, c)[c].above then {c} else {};
  }

  lemma LooseIsNobodysAncestor(s: Shape, c: LogNode)
    requires Forest(s) && Loose(s, c)
    ensures forall m :: m in s ==> c !in s[m].above
  {
    forall m | m in s ensures c !in s[m].above {
      NotAbove(s, c, m);
    }
  }

  lemma {:induction false} NotAbove(s: Shape, c: LogNode, m: LogNode)
    requires Forest(s) && Loose(s, c) && m in s
    ensures c !in s[m].above
    decreases s[m].rank
  {
    assert Hangs(s, m);
    var p := s[m].parent;
    if p != null {
      assert Child(s, p, s[m].slot);
      NotAbove(s, c, p);
    }
  }

  /** Wrap-around of an 8-bit and of a 32-bit counter. */
  function Byte(n: nat): nat { n % 256 }

  function Dword(n: nat): nat { n % 0x1_0000_0000 }

  lemma ByteStep(n: nat)
    ensures Byte(Byte(n) + 1) == Byte(n + 1)
  {
  }

  lemma DwordStep(n: nat)
    ensures Dword(Dword(n) + 1) == Dword(n + 1)
  {
  }

  /** Child number k is a stop of the skip chain: 0, 254, 510, ... */
  predicate IsChankStop(k: nat) {
    k == 0 || k % 256 == 254
  }

  /** The stop after stop k, whether or not that child exists yet. */
  function NextChankStop(k: nat): nat {
    if k == 0 then 254 else k + 256
  }

  lemma NextIsStop(k: nat)
    requires IsChankStop(k)
    ensures IsChankStop(NextChankStop(k))
  {
    assert (k + 256) % 256 == k % 256;
  }

  lemma StopsApart(j: nat, k: nat)
    requires 0 < j < k && IsChankStop(j) && IsChankStop(k)
    ensures k >= j + 256
  {
    assert j == j / 256 * 256 + 254 && k == k / 256 * 256 + 254;
  }

  /** The last stop among the first count children. */
  function LastStop(count: nat): (k: nat)
    ensures IsChankStop(k) && NextChankStop(k) >= count
    ensures count > 0 ==> k < count
  {
    if count <= 1 then 0
    else if IsChankStop(count - 1) then count - 1
    else
      var k := LastStop(count - 1);
      NextIsStop(k);
      k
  }

  ghost function ChankAfter(kids: seq<LogNode>, k: nat): LogNode? {
    if IsChankStop(k) && NextChankStop(k) < |kids| then kids[NextChankStop(k)] else null
  }

  /** The last stop, unless it is the first child. */
  ghost function LastChankStop(kids: seq<LogNode>): LogNode? {
    if LastStop(|kids|) == 0 then null else kids[LastStop(|kids|)]
  }

  lemma StopChain(count: nat, k: nat)
    requires k < count && IsChankStop(k)
    ensures NextChankStop(k) == count <==> IsChankStop(count) && k == LastStop(count)
  {
    var last := LastStop(count);
    if NextChankStop(k) == count {
      NextIsStop(k);
      if 0 < k < last { StopsApart(k, last); }
      if k == 0 < last { StopsApart(last, count); }
    }
    if IsChankStop(count) && k == last && 0 < k {
      StopsApart(k, count);
    }
    if IsChankStop(count) && k == last == 0 < count {
      assert count >= 254;
    }
  }

  /** One more child continues the chain at exactly the stop the marker stands for. */
  lemma ChankAppend(kids: seq<LogNode>, c: LogNode)
    ensures Byte(|kids| + 1) == 255 <==> |kids| > 0 && IsChankStop(|kids|)
    ensures forall k {:trigger ChankAfter(kids, k)} {:trigger ChankAfter(kids + [c], k)} :: 0 <= k < |kids| ==>
      ChankAfter(kids + [c], k) == if Byte(|kids| + 1) == 255 && k == LastStop(|kids|) then c else ChankAfter(kids, k)
    ensures ChankAfter(kids + [c], |kids|) == null
    ensures LastChankStop(kids + [c]) == if Byte(|kids| + 1) == 255 then c else LastChankStop(kids)
  {
    forall k | 0 <= k < |kids|
      ensures ChankAfter(kids + [c], k) ==
        if Byte(|kids| + 1) == 255 && k == LastStop(|kids|) then c else ChankAfter(kids, k)
    {
      if IsChankStop(k) {
        StopChain(|kids|, k);
      }
    }
  }

  ghost function At(kids: seq<LogNode>, k: int): LogNode? {
    if 0 <= k < |kids| then kids[k] else null
  }

  ghost function Last(kids: seq<LogNode>): LogNode? { At(kids, |kids| - 1) }

  /** The links that a shape calls for. */
  ghost function Prev(s: Shape, n: LogNode): LogNode? requires n in s {
    var p := s[n].parent;
    if p == null || p !in s then null else At(s[p].kids, s[n].slot - 1)
  }

  ghost function Next(s: Shape, n: LogNode): LogNode? requires n in s {
    var p := s[n].parent;
    if p == null || p !in s then null else At(s[p].kids, s[n].slot + 1)
  }

  ghost function Chank(s: Shape, n: LogNode): LogNode? requires n in s {
    var p := s[n].parent;
    if p == null || p !in s then null else ChankAfter(s[p].kids, s[n].slot)
  }

  /** The node whose skip link a further child of p sets, if it is a stop. */
  ghost function ChankSource(s: Shape, p: LogNode): LogNode? requires p in s {
    var kids := s[p].kids;
    if Byte(|kids| + 1) == 255 then At(kids, LastStop(|kids|)) else null
  }

  /** Adding a child changes the sibling links of its neighbour and itself, and one skip link at most. */
  lemma AppendLinks(s: Shape, p: LogNode, c: LogNode, n: LogNode)
    requires Forest(s) && p in s && Loose(s, c) && c != p && n in s
    ensures var s' := Append(s, p, c);
      && Prev(s', n) == (if n == c then Last(s[p].kids) else Prev(s, n))
      && Next(s', n) == (if n == Last(s[p].kids) then c else Next(s, n))
      && Chank(s', n) == (if n == ChankSource(s, p) then c else Chank(s, n))
  {
    var kids := s[p].kids;
    assert Hangs(s, n);
    if kids != [] {
      assert Child(s, p, |kids| - 1) && Child(s, p, LastStop(|kids|));
    }
    ChankAppend(kids, c);
  }

  /** The links of n to its children are the ones that these call for. */
  ghost predicate LinkedTo(n: LogNode, kids: seq<LogNode>)
    reads n`firstChild, n`lastChild, n`nextChankCounter, n`nextChankMarker
  {
    && n.firstChild == At(kids, 0)
    && n.lastChild == At(kids, |kids| - 1)
    && n.nextChankCounter == Byte(|kids|)
    && n.nextChankMarker == LastChankStop(kids)
  }

  class Archive {
    const root: LogNode
    var nodes: seq<LogNode>
    ghost var shape: Shape

    /** An archive that holds the root alone. */
    constructor ()
      ensures Valid() && fresh(nodes)
      ensures nodes == [root] && root.kind == RootNode && root.expanded && shape[root].kids == []
    {
      var r := new LogNode(RootNode, null, false, 0, 0, 0);
      root, nodes, shape := r, [r], map[r := Spot(0, null, 0, {}, [])];
      new;
      root.expanded := true;
      assert Below(shape, root) == {};
    }

    /** The links to the children, and the counter and marker used to lay the skip chain. */
    ghost predicate LinkedDown(n: LogNode)
      requires n in shape
      reads this`shape, n`firstChild, n`lastChild, n`nextChankCounter, n`nextChankMarker
    {
      LinkedTo(n, shape[n].kids)
    }

    /** The links to the parent, to the siblings and along the skip chain. */
    ghost predicate LinkedAcross(n: LogNode)
      requires n in shape
      reads this`shape, n`parent, n`prevSibling, n`nextSibling, n`nextChank
    {
      && n.parent == shape[n].parent
      && n.prevSibling == Prev(shape, n)
      && n.nextSibling == Next(shape, n)
      && n.nextChank == Chank(shape, n)
    }

    /** Every link of every node is the one the shape calls for. */
    ghost predicate Linked()
      reads this`nodes, this`shape, shape.Keys`firstChild, shape.Keys`lastChild, shape.Keys`nextChankCounter
      reads shape.Keys`nextChankMarker
      reads shape.Keys`parent, shape.Keys`prevSibling, shape.Keys`nextSibling, shape.Keys`nextChank
    {
      && nodes != [] && nodes[0] == root && Shaped(shape, nodes)
      && (forall n {:trigger LinkedDown(n)} :: n in shape ==> LinkedDown(n))
      && (forall n {:trigger LinkedAcross(n)} :: n in shape ==> LinkedAcross(n))
    }

    /** Besides, childCount is the number of nodes below, as a 32-bit number. */
    ghost predicate Valid()
      reads this`nodes, this`shape, shape.Keys`firstChild, shape.Keys`lastChild, shape.Keys`nextChankCounter
      reads shape.Keys`nextChankMarker
      reads shape.Keys`parent, shape.Keys`prevSibling, shape.Keys`nextSibling, shape.Keys`nextChank
      reads shape.Keys`childCount
    {
      Linked() && forall n {:trigger Below(shape, n)} :: n in shape ==> n.childCount == Dword(|Below(shape, n)|)
    }

    /** What every link and counter of a node is, said of the children of the node and of its parent. */
    lemma LinksAre(n: LogNode)
      requires Valid() && n in shape
      ensures var kids := shape[n].kids;
        && n.firstChild == (if kids == [] then null else kids[0])
        && n.lastChild == (if kids == [] then null else kids[|kids| - 1])
      ensures n.childCount == |set m | m in shape && n in shape[m].above| % 0x1_0000_0000
      ensures n.parent == shape[n].parent
      ensures if n.parent == null then n.prevSibling == n.nextSibling == n.nextChank == null
              else
                && n.parent in shape
                && var kids, k := shape[n.parent].kids, shape[n].slot;
                && k < |kids| && kids[k] == n
                && n.prevSibling == (if k == 0 then null else kids[k - 1])
                && n.nextSibling == (if k + 1 == |kids| then null else kids[k + 1])
                && n.nextChank == if k == 0 && 254 < |kids| then kids[254]
                                  else if k % 256 == 254 && k + 256 < |kids| then kids[k + 256] else null
    {
      assert LinkedDown(n) && LinkedAcross(n) && Hangs(shape, n);
      assert Below(shape, n) == set m | m in shape && n in shape[m].above;
    }

    /** Put a newly allocated node at the end of the archive, outside the tree. */
    method Add(c: LogNode)
      requires Valid() && c.Fresh() && c !in shape
      modifies this`nodes, this`shape
      ensures Valid()
      ensures shape == old(shape)[c := Spot(|old(nodes)|, null, 0, {}, [])] && nodes == old(nodes) + [c]
    {
      ghost var s := shape;
      nodes, shape := nodes + [c], shape[c := Spot(|nodes|, null, 0, {}, [])];
      AddKeepsShaped(s, old(nodes), c);
      forall n | n in shape ensures LinkedDown(n) && LinkedAcross(n) {
        if n != c {
          assert old(LinkedDown(n)) && old(LinkedAcross(n));
          AddLinks(s, old(nodes), c, n);
        }
      }
      forall n | n in shape ensures n.childCount == Dword(|Below(shape, n)|) {
        BelowAdd(s, old(nodes), c, n);
      }
    }

    method AddChild(p: LogNode, c: LogNode)
      requires Valid() && p in shape && Loose(shape, c) && c != root && shape[p].rank < shape[c].rank
      modifies this`shape
      modifies p`firstChild, p`lastChild, p`nextChankCounter, p`nextChankMarker
      modifies c`parent, c`prevSibling
      modifies shape.Keys`nextSibling, shape.Keys`nextChank, shape.Keys`childCount
      ensures Valid() && shape == Append(old(shape), p, c)
    {
      ghost var s := shape;
      LinkLast(p, c);
      CountUp(c);
      forall n | n in shape ensures n.childCount == Dword(|Below(shape, n)|) {
        BelowAppend(s, p, c, n);
        DwordStep(|Below(s, n)|);
      }
    }

    method LinkLast(p: LogNode, c: LogNode)
      requires Linked() && p in shape && Loose(shape, c) && c != root && shape[p].rank < shape[c].rank
      modifies this`shape
      modifies p`firstChild, p`lastChild, p`nextChankCounter, p`nextChankMarker
      modifies c`parent, c`prevSibling
      modifies shape.Keys`nextSibling, shape.Keys`nextChank
      ensures Linked() && shape == Append(old(shape), p, c)
    {
      ghost var s := shape;
      hide LinkedTo;
      Rewire(p, c);
      AppendKeepsShaped(s, nodes, p, c);
      shape := Append(s, p, c);
      assert shape[p].kids == s[p].kids + [c];
      assert LinkedDown(p);
      forall n | n in shape && n != p ensures LinkedDown(n) {
        assert shape[n].kids == s[n].kids && old(LinkedDown(n));
      }
      forall n | n in shape ensures LinkedAcross(n) {
        assert old(LinkedAcross(n));
        AppendLinks(s, p, c, n);
      }
    }

    /** Link c behind the last child of p. */
    method Rewire(p: LogNode, c: LogNode)
      requires Shaped(shape, nodes) && p in shape && p != c && LinkedDown(p)
      modifies p`firstChild, p`lastChild, p`nextChankCounter, p`nextChankMarker
      modifies c`parent, c`prevSibling
      modifies shape.Keys`nextSibling, shape.Keys`nextChank
      ensures LinkedTo(p, shape[p].kids + [c])
      ensures c.parent == p && c.prevSibling == Last(shape[p].kids)
      ensures forall n :: n in shape ==> n.nextSibling == if n == Last(shape[p].kids) then c else old(n.nextSibling)
      ensures forall n :: n in shape ==> n.nextChank == if n == ChankSource(shape, p) then c else old(n.nextChank)
    {
      ghost var kids := shape[p].kids;
      assert |kids| > 0 ==> Child(shape, p, 0) && Child(shape, p, LastStop(|kids|)) && Child(shape, p, |kids| - 1);
      if p.firstChild == null {
        p.firstChild := c;
      }
      if p.lastChild != null {
        p.lastChild.nextSibling := c;
      }
      LayChank(p, c);
      c.prevSibling := p.lastChild;
      c.parent := p;
      p.lastChild := c;
    }

    /** Advance the counter; every 256th time, c becomes the next stop of the skip chain. */
    method LayChank(p: LogNode, c: LogNode)
      requires p in shape && |shape[p].kids| > 0 ==>
                shape[p].kids[0] in shape && shape[p].kids[LastStop(|shape[p].kids|)] in shape
      requires p in shape && p.firstChild == At(shape[p].kids + [c], 0)
      requires p.nextChankCounter == Byte(|shape[p].kids|) && p.nextChankMarker == LastChankStop(shape[p].kids)
      modifies p`nextChankCounter, p`nextChankMarker, shape.Keys`nextChank
      ensures p.nextChankCounter == Byte(|shape[p].kids| + 1)
      ensures p.nextChankMarker == LastChankStop(shape[p].kids + [c])
      ensures forall n :: n in shape ==> n.nextChank == if n == ChankSource(shape, p) then c else old(n.nextChank)
    {
      ghost var kids := shape[p].kids;
      ChankAppend(kids, c);
      p.nextChankCounter := Byte(p.nextChankCounter + 1);
      ByteStep(|kids|);
      if p.nextChankCounter == 255 {
        if p.nextChankMarker == null {
          p.firstChild.nextChank := c;
        } else {
          p.nextChankMarker.nextChank := c;
        }
        p.nextChankMarker := c;
      }
    }

    /** The walk up the parents that counts c on each of them. */
    method CountUp(c: LogNode)
      requires Linked() && c in shape
      modifies shape.Keys`childCount
      ensures forall n :: n in shape ==>
        n.childCount == if n in shape[c].above then Dword(old(n.childCount) + 1) else old(n.childCount)
    {
      var q: LogNode? := c.parent;
      ghost var left := shape[c].above;
      assert LinkedAcross(c) && Hangs(shape, c);
      while q != null
        invariant q != null ==> q in shape
        invariant left == if q == null then {} else shape[q].above + {q}
        invariant left <= shape[c].above
        invariant forall n :: n in shape ==>
          n.childCount == if n in shape[c].above - left then Dword(old(n.childCount) + 1) else old(n.childCount)
        decreases if q == null then 0 else shape[q].rank + 1
      {
        assert LinkedAcross(q) && Hangs(shape, q) && (q.parent != null ==> Child(shape, q.parent, shape[q].slot));
        q.childCount := Dword(q.childCount + 1);
        left := shape[q].above;
        q := q.parent;
      }
    }
  }
}
