/** The list of the nodes that the log view shows (Archive.cpp, Archive.h). */
module Listing {
  import opened PtrArrays

  /** What of an archive node decides whether it is listed. */
  datatype Node = Node(ptr: Ptr, threadNode: bool, isInfo: bool, isTrace: bool, threadHidden: bool, lineSearchPos: nat)

  predicate IsVisibleLog(node: Node, flowTraceHidden: bool) {
    node.threadNode && node.isInfo && !node.threadHidden && (node.isTrace || !flowTraceHidden)
  }

  predicate Wanted(node: Node, flowTraceHidden: bool, searchFilterOn: bool) {
    IsVisibleLog(node, flowTraceHidden) && (node.lineSearchPos != 0 || !searchFilterOn)
  }

  /** The archive filtered by visibility and search, in its order. */
  function Filtered(nodes: seq<Node>, flowTraceHidden: bool, searchFilterOn: bool): seq<Ptr> {
    if nodes == [] then []
    else
      var n := |nodes| - 1;
      var last := if Wanted(nodes[n], flowTraceHidden, searchFilterOn) then [nodes[n].ptr] else [];
      Filtered(nodes[..n], flowTraceHidden, searchFilterOn) + last
  }

  // What that is, said of the fields of the nodes.

  function Select(nodes: seq<Node>, p: Node -> bool): seq<Node> {
    if nodes == [] then []
    else
      var n := |nodes| - 1;
      Select(nodes[..n], p) + if p(nodes[n]) then [nodes[n]] else []
  }

  function Pointers(nodes: seq<Node>): seq<Ptr> {
    seq(|nodes|, i requires 0 <= i < |nodes| => nodes[i].ptr)
  }

  function Hidden(nodes: seq<Node>, p: Node -> bool): seq<Node> {
    seq(|nodes|, i requires 0 <= i < |nodes| => if p(nodes[i]) then nodes[i].(threadHidden := true) else nodes[i])
  }

  /** The list has the nodes with information that belong to a thread which is not hidden: only traces if calls are
      hidden, and only what was found if the search filters. */
  lemma {:induction false} FilteredIs(nodes: seq<Node>, flowTraceHidden: bool, searchFilterOn: bool)
    ensures Filtered(nodes, flowTraceHidden, searchFilterOn) ==
              Pointers(Select(nodes, (n: Node) =>
                n.threadNode && n.isInfo && !n.threadHidden
                && (flowTraceHidden ==> n.isTrace) && (searchFilterOn ==> n.lineSearchPos != 0)))
  {
    if nodes != [] {
      FilteredIs(nodes[..|nodes| - 1], flowTraceHidden, searchFilterOn);
    }
  }

  /** Hiding calls leaves exactly the traces of the list. */
  lemma {:induction false} TracesRemain(nodes: seq<Node>, searchFilterOn: bool)
    ensures Filtered(nodes, true, searchFilterOn) ==
              Filtered(Select(nodes, (n: Node) => n.isTrace), false, searchFilterOn)
  {
    if nodes != [] {
      var n := |nodes| - 1;
      TracesRemain(nodes[..n], searchFilterOn);
      OneSelected(nodes[..n], nodes[n], (n: Node) => n.isTrace, false, searchFilterOn);
    }
  }

  /** The search filter leaves exactly those of the list that were found. */
  lemma {:induction false} FoundRemain(nodes: seq<Node>, flowTraceHidden: bool)
    ensures Filtered(nodes, flowTraceHidden, true) ==
              Filtered(Select(nodes, (n: Node) => n.lineSearchPos != 0), flowTraceHidden, false)
  {
    if nodes != [] {
      var n := |nodes| - 1;
      FoundRemain(nodes[..n], flowTraceHidden);
      OneSelected(nodes[..n], nodes[n], (n: Node) => n.lineSearchPos != 0, flowTraceHidden, false);
    }
  }

  /** Hiding threads removes exactly their nodes from the list. */
  lemma {:induction false} HidingRemoves(nodes: seq<Node>, p: Node -> bool, flowTraceHidden: bool, searchFilterOn: bool)
    ensures Filtered(Hidden(nodes, p), flowTraceHidden, searchFilterOn) ==
              Filtered(Select(nodes, (n: Node) => !p(n)), flowTraceHidden, searchFilterOn)
  {
    if nodes != [] {
      var n := |nodes| - 1;
      HidingRemoves(nodes[..n], p, flowTraceHidden, searchFilterOn);
      assert Hidden(nodes, p)[..n] == Hidden(nodes[..n], p);
      OneSelected(nodes[..n], nodes[n], (n: Node) => !p(n), flowTraceHidden, searchFilterOn);
    }
  }

  lemma OneSelected(nodes: seq<Node>, node: Node, p: Node -> bool, flowTraceHidden: bool, searchFilterOn: bool)
    ensures Filtered(Select(nodes + [node], p), flowTraceHidden, searchFilterOn) ==
              Filtered(Select(nodes, p), flowTraceHidden, searchFilterOn)
              + if p(node) then Filtered([node], flowTraceHidden, searchFilterOn) else []
    ensures Filtered([node], flowTraceHidden, searchFilterOn) ==
              if Wanted(node, flowTraceHidden, searchFilterOn) then [node.ptr] else []
  {
    assert (nodes + [node])[..|nodes|] == nodes;
    assert [node][..0] == [];
    FilteredPlus(Select(nodes, p), if p(node) then [node] else [], flowTraceHidden, searchFilterOn);
  }

  lemma {:induction false} FilteredPlus(a: seq<Node>, b: seq<Node>, flowTraceHidden: bool, searchFilterOn: bool)
    ensures Filtered(a + b, flowTraceHidden, searchFilterOn)
         == Filtered(a, flowTraceHidden, searchFilterOn) + Filtered(b, flowTraceHidden, searchFilterOn)
  {
    if b == [] {
      assert a + b == a;
    } else {
      assert (a + b)[..|a + b| - 1] == a + b[..|b| - 1];
      FilteredPlus(a, b[..|b| - 1], flowTraceHidden, searchFilterOn);
    }
  }

  lemma FilterStep(listed: seq<Ptr>, nodes: seq<Node>, from: nat, i: nat, flowTraceHidden: bool, searchFilterOn: bool)
    requires from <= i < |nodes|
    ensures listed + Filtered(nodes[from..i + 1], flowTraceHidden, searchFilterOn)
         == (listed + Filtered(nodes[from..i], flowTraceHidden, searchFilterOn))
          + if Wanted(nodes[i], flowTraceHidden, searchFilterOn) then [nodes[i].ptr] else []
  {
    assert nodes[from..i + 1][..i - from] == nodes[from..i];
  }

  class ListedNodes {
    const unlimited: bool // the memory never runs out
    var archiveCount: nat
    var m_pListNodes: PtrArray? // none before the first reset

    ghost var repr: set<object> // the list and its tables

    ghost predicate Valid()
      reads this`m_pListNodes, this`repr, repr
    {
      && this !in repr
      && (m_pListNodes != null ==>
            && m_pListNodes in repr && m_pListNodes.Repr() <= repr
            && m_pListNodes.Valid() && m_pListNodes.unlimited == unlimited)
    }

    ghost function Listed(): seq<Ptr>
      reads this`m_pListNodes, m_pListNodes
    {
      if m_pListNodes == null then [] else m_pListNodes.Contents
    }

    /** The list takes no more nodes. */
    ghost predicate Full()
      reads this`m_pListNodes, m_pListNodes
    {
      m_pListNodes != null && m_pListNodes.m_full
    }

    /** The list is all of these, or, when it is full, the first ones. */
    ghost predicate Holds(all: seq<Ptr>)
      reads this`m_pListNodes, m_pListNodes
    {
      Listed() <= all && (!Full() ==> Listed() == all)
    }

    constructor (unlimited: bool)
      ensures Valid() && archiveCount == 0 && m_pListNodes == null && repr == {} && this.unlimited == unlimited
    {
      this.unlimited := unlimited;
      archiveCount := 0;
      m_pListNodes, repr := null, {};
    }

    lemma Outside()
      requires Valid()
      ensures this !in repr
    {
    }

    method FreeListedNodes()
      modifies this
      ensures Valid() && archiveCount == 0 && m_pListNodes != null && fresh(repr) && Listed() == []
      ensures unlimited ==> !Full()
    {
      archiveCount := 0;
      m_pListNodes := new PtrArray(unlimited);
      repr := m_pListNodes.Repr();
    }

    /** List a node if it is wanted. A full list stays as it is, unnoticed. */
    method AddNode(node: Node, flowTraceHidden: bool, searchFilterOn: bool)
      requires Valid() && m_pListNodes != null
      modifies this`repr, repr
      ensures Valid() && m_pListNodes != null && fresh(repr - old(repr))
      ensures old(Full()) ==> Full()
      ensures unlimited && !old(Full()) && |old(Listed())| < CAPACITY ==> !Full()
      ensures Listed() ==
                old(Listed()) + if !Full() && Wanted(node, flowTraceHidden, searchFilterOn) then [node.ptr] else []
    {
      if IsVisibleLog(node, flowTraceHidden) && (node.lineSearchPos != 0 || !searchFilterOn) {
        var added := m_pListNodes.AddPtr(node.ptr);
        repr := repr + m_pListNodes.Repr();
      }
    }

    /** The list holds what was listed before and the wanted ones of the nodes since. */
    ghost predicate ListedUpTo(was: seq<Ptr>, nodes: seq<Node>, flowTraceHidden: bool, searchFilterOn: bool)
      reads this`m_pListNodes, m_pListNodes
    {
      Holds(was + Filtered(nodes, flowTraceHidden, searchFilterOn))
    }

    method AddNext(ghost was: seq<Ptr>, nodes: seq<Node>, ghost from: nat, i: nat, flowTraceHidden: bool,
                   searchFilterOn: bool)
      requires Valid() && m_pListNodes != null && from <= i < |nodes|
      requires ListedUpTo(was, nodes[from..i], flowTraceHidden, searchFilterOn)
      modifies this`repr, repr
      ensures Valid() && m_pListNodes != null && fresh(repr - old(repr)) && |Listed()| <= old(|Listed()|) + 1
      ensures unlimited && !old(Full()) && |old(Listed())| < CAPACITY ==> !Full()
      ensures old(Full()) ==> Full() && Listed() == old(Listed())
      ensures ListedUpTo(was, nodes[from..i + 1], flowTraceHidden, searchFilterOn)
    {
      FilterStep(was, nodes, from, i, flowTraceHidden, searchFilterOn);
      hide PtrArray.Valid, Filtered, Wanted;
      AddNode(nodes[i], flowTraceHidden, searchFilterOn);
    }

    /** Filter the nodes from one on into the list. */
    method AddFrom(nodes: seq<Node>, from: nat, flowTraceHidden: bool, searchFilterOn: bool)
      requires Valid() && m_pListNodes != null && from <= |nodes|
      modifies this`repr, repr
      ensures Valid() && m_pListNodes != null && fresh(repr - old(repr))
      ensures unlimited && !old(Full()) && |old(Listed())| + (|nodes| - from) <= CAPACITY ==> !Full()
      ensures old(Full()) ==> Full() && Listed() == old(Listed())
      ensures ListedUpTo(old(Listed()), nodes[from..], flowTraceHidden, searchFilterOn)
    {
      NothingFiltered(flowTraceHidden, searchFilterOn);
      hide PtrArray.Valid, Filtered;
      assert nodes[from..from] == [] && Listed() + [] == Listed();
      for i := from to |nodes|
        invariant fresh(repr - old(repr))
        invariant Valid() && m_pListNodes != null
        invariant |Listed()| <= old(|Listed()|) + i - from
        invariant unlimited && !old(Full()) && |old(Listed())| + (|nodes| - from) <= CAPACITY ==> !Full()
        invariant old(Full()) ==> Full() && Listed() == old(Listed())
        invariant ListedUpTo(old(Listed()), nodes[from..i], flowTraceHidden, searchFilterOn)
      {
        AddNext(old(Listed()), nodes, from, i, flowTraceHidden, searchFilterOn);
      }
      assert nodes[from..|nodes|] == nodes[from..];
    }

    /** Bring the list up to date: from scratch, or by what the archive has gained. Unless it is full it is
        then the filtered archive exactly if it was the filtered archive before as far as it went, by the
        present filter. A full list holds the first ones. */
    method UpdateList(nodes: seq<Node>, reset: bool, flowTraceHidden: bool, searchFilterOn: bool)
      requires Valid() && (!reset ==> m_pListNodes != null)
      modifies this, repr
      ensures Valid() && m_pListNodes != null && archiveCount == |nodes| && fresh(repr - old(repr))
      ensures var u := Update(nodes, reset, flowTraceHidden, searchFilterOn);
        Holds(Updated(old(Listed()), old(archiveCount), u))
      ensures unlimited && reset && |nodes| <= CAPACITY ==> !Full()
      ensures unlimited && !reset && !old(Full()) && old(archiveCount) <= |nodes| ==>
                (|old(Listed())| + |nodes| - old(archiveCount) <= CAPACITY ==> !Full())
      ensures !reset && old(Full()) ==> Full() && Listed() == old(Listed())
      ensures !Full() && reset ==> Listed() == Filtered(nodes, flowTraceHidden, searchFilterOn)
      ensures !Full() && !reset && old(archiveCount) <= |nodes| ==>
                (Listed() == Filtered(nodes, flowTraceHidden, searchFilterOn)
                 <==> old(Listed()) == Filtered(nodes[..old(archiveCount)], flowTraceHidden, searchFilterOn))
    {
      hide PtrArray.Valid, Filtered, ListedNodes.Valid, Wanted;
      if reset {
        FreeListedNodes();
        Outside();
        archiveCount := |nodes|;
        AddFrom(nodes, 0, flowTraceHidden, searchFilterOn);
        assert nodes[0..] == nodes;
      } else {
        if archiveCount <= |nodes| {
          SameFilter(Listed(), nodes, archiveCount, flowTraceHidden, searchFilterOn);
          AddFrom(nodes, archiveCount, flowTraceHidden, searchFilterOn);
        }
        Outside();
        archiveCount := |nodes|;
      }
    }

    method UpdateBy(u: Update, ghost all: seq<Ptr>)
      requires Valid() && (!u.reset ==> m_pListNodes != null && Holds(all))
      modifies this, repr
      ensures Valid() && m_pListNodes != null && archiveCount == |u.nodes| && fresh(repr - old(repr))
      ensures Holds(Updated(all, old(archiveCount), u))
      ensures unlimited && |u.nodes| <= CAPACITY && u.reset ==> !Full()
      ensures unlimited && |u.nodes| <= CAPACITY && !old(Full()) && |all| <= old(archiveCount) <= |u.nodes| ==> !Full()
    {
      hide PtrArray.Valid, Filtered;
      UpdateList(u.nodes, u.reset, u.flowTraceHidden, u.searchFilterOn);
    }

    /** Bring the list up to date any number of times, starting from scratch. Unless it is full then, it is the
        filtered archive, if nothing that the filter looks at changed since the last reset for nodes already
        looked at. If it is full it holds the first ones. */
    method UpdateAll(us: seq<Update>)
      requires Valid() && us != [] && us[0].reset
      modifies this, repr
      ensures Valid() && fresh(repr - old(repr)) && Holds(AfterUpdates(us))
      ensures var u := us[|us| - 1];
        SteadyRun(us) ==> Holds(Filtered(u.nodes, u.flowTraceHidden, u.searchFilterOn))
      ensures var u := us[|us| - 1];
        SteadyRun(us) ==>
          Holds(Pointers(Select(u.nodes, (n: Node) =>
            n.threadNode && n.isInfo && !n.threadHidden
            && (u.flowTraceHidden ==> n.isTrace) && (u.searchFilterOn ==> n.lineSearchPos != 0))))
      ensures unlimited && SteadyRun(us) && (forall u :: u in us ==> |u.nodes| <= CAPACITY) ==> !Full()
    {
      hide *;
      for i := 0 to |us|
        invariant Valid() && fresh(repr - old(repr))
        invariant i > 0 ==> m_pListNodes != null && archiveCount == |us[i - 1].nodes| && Holds(AfterUpdates(us[..i]))
        invariant i > 0 && unlimited && SteadyRun(us) && (forall u :: u in us ==> |u.nodes| <= CAPACITY) ==> !Full()
      {
        OneUpdate(us, i);
        UpdateBy(us[i], AfterUpdates(us[..i]));
      }
      assert us[..|us|] == us;
      if SteadyRun(us) {
        ListIsFilteredArchive(us);
        var u := us[|us| - 1];
        FilteredIs(u.nodes, u.flowTraceHidden, u.searchFilterOn);
      }
    }
  }

  lemma NothingFiltered(flowTraceHidden: bool, searchFilterOn: bool)
    ensures Filtered([], flowTraceHidden, searchFilterOn) == []
  {
  }

  lemma SameFilter(listed: seq<Ptr>, nodes: seq<Node>, n: nat, flowTraceHidden: bool, searchFilterOn: bool)
    requires n <= |nodes|
    ensures listed + Filtered(nodes[n..], flowTraceHidden, searchFilterOn) ==
              Filtered(nodes, flowTraceHidden, searchFilterOn)
       <==> listed == Filtered(nodes[..n], flowTraceHidden, searchFilterOn)
  {
    assert nodes == nodes[..n] + nodes[n..];
    FilteredPlus(nodes[..n], nodes[n..], flowTraceHidden, searchFilterOn);
    var a := Filtered(nodes[..n], flowTraceHidden, searchFilterOn);
    var b := Filtered(nodes[n..], flowTraceHidden, searchFilterOn);
    if listed + b == a + b {
      assert (listed + b)[..|listed|] == listed && (a + b)[..|a|] == a;
    }
  }

  /** One call of UpdateList: the archive at that time and the filter. */
  datatype Update = Update(nodes: seq<Node>, reset: bool, flowTraceHidden: bool, searchFilterOn: bool)

  function Updated(listed: seq<Ptr>, count: nat, u: Update): seq<Ptr> {
    if u.reset then Filtered(u.nodes, u.flowTraceHidden, u.searchFilterOn)
    else if count <= |u.nodes| then listed + Filtered(u.nodes[count..], u.flowTraceHidden, u.searchFilterOn)
    else listed
  }

  function AfterUpdates(us: seq<Update>): seq<Ptr> {
    if us == [] then []
    else
      var n := |us| - 1;
      Updated(AfterUpdates(us[..n]), if n == 0 then 0 else |us[n - 1].nodes|, us[n])
  }

  /** The later update finds the nodes of the earlier one as they were, as far as the filter goes. */
  ghost predicate Steady(u: Update, v: Update) {
    && |u.nodes| <= |v.nodes|
    && forall k :: 0 <= k < |u.nodes| ==>
        && u.nodes[k].ptr == v.nodes[k].ptr
        && (Wanted(u.nodes[k], u.flowTraceHidden, u.searchFilterOn) <==>
              Wanted(v.nodes[k], v.flowTraceHidden, v.searchFilterOn))
  }

  lemma {:induction false} SteadyFilter(u: Update, v: Update, n: nat)
    requires Steady(u, v) && n <= |u.nodes|
    ensures Filtered(u.nodes[..n], u.flowTraceHidden, u.searchFilterOn) ==
              Filtered(v.nodes[..n], v.flowTraceHidden, v.searchFilterOn)
  {
    if n > 0 {
      SteadyFilter(u, v, n - 1);
      assert u.nodes[..n][..n - 1] == u.nodes[..n - 1] && v.nodes[..n][..n - 1] == v.nodes[..n - 1];
    }
  }

  /** Nothing that the filter looks at changes until the next reset for nodes already looked at. */
  ghost predicate SteadyRun(us: seq<Update>) {
    forall i :: 0 < i < |us| && !us[i].reset ==> Steady(us[i - 1], us[i])
  }

  lemma FilteredFits(nodes: seq<Node>, flowTraceHidden: bool, searchFilterOn: bool)
    ensures |Filtered(nodes, flowTraceHidden, searchFilterOn)| <= |nodes|
  {
  }

  lemma OneUpdate(us: seq<Update>, i: nat)
    requires i < |us|
    ensures forall count: nat :: (if i == 0 then us[i].reset else count == |us[i - 1].nodes|) ==>
              AfterUpdates(us[..i + 1]) == Updated(AfterUpdates(us[..i]), count, us[i])
    ensures us[0].reset && SteadyRun(us) && i > 0 ==>
              |AfterUpdates(us[..i])| <= |us[i - 1].nodes| && (!us[i].reset ==> |us[i - 1].nodes| <= |us[i].nodes|)
    ensures us[i] in us
  {
    assert us[..i + 1][..i] == us[..i];
    if us[0].reset && SteadyRun(us) && i > 0 {
      var u := us[i - 1];
      ListIsFilteredArchive(us[..i]);
      FilteredFits(u.nodes, u.flowTraceHidden, u.searchFilterOn);
    }
  }

  /** After any run of updates the list is the filtered archive, if nothing that the filter looks at
      changed since the last reset for nodes already looked at. */
  lemma {:induction false} ListIsFilteredArchive(us: seq<Update>)
    requires us != [] && us[0].reset && SteadyRun(us)
    ensures var u := us[|us| - 1];
      AfterUpdates(us) == Filtered(u.nodes, u.flowTraceHidden, u.searchFilterOn)
  {
    var n := |us| - 1;
    if n > 0 && !us[n].reset {
      var u, v := us[n - 1], us[n];
      ListIsFilteredArchive(us[..n]);
      SteadyFilter(u, v, |u.nodes|);
      assert u.nodes[..|u.nodes|] == u.nodes;
      SameFilter(AfterUpdates(us[..n]), v.nodes, |u.nodes|, v.flowTraceHidden, v.searchFilterOn);
    }
  }
}
