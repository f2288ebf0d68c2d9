/** Collapsing or expanding a whole subtree (LogData.cpp). */
module Collapse {
  import opened LogNodes
  import opened RowTrees
  import opened TreeView

  /** n is the root of the archive or hangs below it. */
  ghost predicate InTree(s: Shape, root: LogNode, n: LogNode) {
    n in s && (n == root || root in s[n].above)
  }

  /** The view with every node expanded shows the whole tree. */
  lemma {:induction false} FullViewShows(s: Shape, nodes: seq<LogNode>, v: View, n: LogNode)
    requires Shaped(s, nodes) && IsView(v, RowsOf(s, nodes, s.Keys)) && InTree(s, nodes[0], n)
    ensures n in v.pos
    decreases s[n].rank
  {
    var rows := RowsOf(s, nodes, s.Keys);
    if n == nodes[0] {
      assert rows[0].tree.node == n;
    } else {
      assert Hangs(s, n);
      var p := s[n].parent;
      assert Child(s, p, s[n].slot);
      FullViewShows(s, nodes, v, p);
      RowIsTree(s, nodes, s.Keys, v.pos[p]);
      ChildRow(TreeOf(s, nodes, s.Keys, nodes[0]), 0, v.pos[p], s[n].slot);
    }
  }

  /** The nodes below x are the ones on the rows its subtree takes. */
  lemma {:induction false} BelowIsInside(s: Shape, nodes: seq<LogNode>, v: View, x: LogNode, n: LogNode)
    requires Shaped(s, nodes) && IsView(v, RowsOf(s, nodes, s.Keys)) && x in v.pos && n in v.pos
    ensures n in s && (x in s[n].above <==> v.pos[x] < v.pos[n] < v.pos[x] + v.width[x])
    decreases v.pos[n]
  {
    ViewNested(s, nodes, s.Keys, v, n);
    ViewApart(s, nodes, s.Keys, v, x, n);
    assert Hangs(s, n);
    var p := s[n].parent;
    if p != null {
      BelowIsInside(s, nodes, v, x, p);
      ViewNested(s, nodes, s.Keys, v, x);
      assert v.at[v.pos[x]] == x && v.at[v.pos[p]] == p;
      ViewApart(s, nodes, s.Keys, v, x, p);
    }
  }

  /** The row after c in the round trip that starts at x, or x itself when its subtree is exhausted. */
  ghost predicate Follows(v: View, x: LogNode, c: LogNode, root: LogNode, next: LogNode)
    requires x in v.pos && c in v.pos && v.width.Keys == v.pos.Keys
  {
    var i := v.pos[c] + 1;
    if v.pos[x] < v.pos[c] && i == v.pos[x] + v.width[x] then next == x
    else if i == |v.pos| then next == root
    else next in v.pos && v.pos[next] == i
  }

  /** The next node: the first child, else the next sibling of the node or of its nearest ancestor
      that has one, unless x or the root comes first. */
  method Advance(ghost s: Shape, ghost v: View, x: LogNode, c: LogNode, ghost root: LogNode) returns (next: LogNode)
    requires Traversable(s, s.Keys, v, root) && x in v.pos && c in v.pos
    ensures Follows(v, x, c, root, next)
  {
    AtNode(s, s.Keys, v, c);
    assert Wired(s, c);
    if c.firstChild != null {
      assert Nested(s, s.Keys, v, c) && Apart(s, v, x, c);
      next := c.firstChild;
    } else if c.nextSibling != null {
      NotLast(s, v, x, c);
      next := c.nextSibling;
    } else {
      next := c;
      AtTop(s, s.Keys, v, next);
      while next.parent != null
        invariant next in v.pos && next.nextSibling == null && next.parent == s[next].parent
        invariant v.pos[next] + v.width[next] == v.pos[c] + 1
        invariant next.parent == null ==> v.pos[next] == 0 && v.width[next] == |v.pos|
        invariant v.pos[x] < v.pos[c] && v.pos[c] + 1 == v.pos[x] + v.width[x] ==> v.pos[x] < v.pos[next]
        decreases v.pos[next]
      {
        AtNode(s, s.Keys, v, next);
        assert Wired(s, next) && Apart(s, v, x, next);
        next := next.parent;
        AtTop(s, s.Keys, v, next);
        assert Wired(s, next);
        if next == x {
          break;
        }
        if next.nextSibling != null {
          NotLast(s, v, x, next);
          next := next.nextSibling;
          break;
        }
      }
    }
  }

  method Deal(ghost s: Shape, ghost v: View, x: LogNode, c: LogNode, ghost root: LogNode, expand: bool)
    returns (next: LogNode)
    requires Traversable(s, s.Keys, v, root) && x in v.pos && c in v.pos && c.lastChild == Last(s[c].kids)
    modifies c`expanded
    ensures c.expanded == (expand && s[c].kids != []) && Follows(v, x, c, root, next)
  {
    c.expanded := c.lastChild != null && expand;
    next := Advance(s, v, x, c, root);
  }

  /** A node with a next sibling does not end the subtree of anything around it. */
  lemma NotLast(s: Shape, v: View, x: LogNode, n: LogNode)
    requires Laid(s, s.Keys, v) && x in v.pos && n in v.pos && Next(s, n) != null
    ensures var i := v.pos[n] + v.width[n]; Next(s, n) in v.pos && v.pos[Next(s, n)] == i && i < |v.pos|
    ensures v.pos[x] < v.pos[n] ==> v.pos[x] + v.width[x] != v.pos[n] + v.width[n]
  {
    assert Nested(s, s.Keys, v, n);
    assert Apart(s, v, x, n) && Apart(s, v, x, s[n].parent);
  }

  /** The nodes that the operation on x sets: x and everything below it; but from a node without
      children the round trip does not stop before it has been through the whole tree. */
  ghost predicate InScope(s: Shape, root: LogNode, x: LogNode, n: LogNode)
    requires x in s
  {
    if s[x].kids != [] || x == root then n == x || (n in s && x in s[n].above) else InTree(s, root, n)
  }

  /** The operation is confined to x and what is below it if and only if x has children or is the root. */
  lemma ScopeIsSubtree(s: Shape, nodes: seq<LogNode>, x: LogNode)
    requires Shaped(s, nodes) && InTree(s, nodes[0], x)
    ensures (forall n :: n in s ==> (InScope(s, nodes[0], x, n) <==> n == x || x in s[n].above))
       <==> s[x].kids != [] || x == nodes[0]
  {
    var root := nodes[0];
    assert Hangs(s, root);
    if s[x].kids == [] && x != root {
      assert InScope(s, root, x, root) && !(root == x || x in s[root].above);
    }
  }

  lemma ShownScope(s: Shape, nodes: seq<LogNode>, v: View, x: LogNode, n: LogNode)
    requires Shaped(s, nodes) && IsView(v, RowsOf(s, nodes, s.Keys)) && x in v.pos && n in v.pos && nodes[0] in v.pos
    ensures v.width.Keys == v.pos.Keys && x in s && n in s
    ensures InScope(s, nodes[0], x, n) <==>
      (s[x].kids != [] || x == nodes[0] ==> v.pos[x] <= v.pos[n] < v.pos[x] + v.width[x])
  {
    var root := nodes[0];
    assert v.at[v.pos[n]] == n && v.at[v.pos[x]] == x;
    assert RowsOf(s, nodes, s.Keys)[0].tree.node == root;
    hide RowsOf;
    BelowIsInside(s, nodes, v, x, n);
    BelowIsInside(s, nodes, v, root, n);
    ViewNested(s, nodes, s.Keys, v, x);
    ViewNested(s, nodes, s.Keys, v, n);
    ViewNested(s, nodes, s.Keys, v, root);
  }

  lemma ScopeIsShown(s: Shape, nodes: seq<LogNode>, v: View, x: LogNode, n: LogNode)
    requires Shaped(s, nodes) && IsView(v, RowsOf(s, nodes, s.Keys)) && InTree(s, nodes[0], x)
    requires InScope(s, nodes[0], x, n)
    ensures n in v.pos
  {
    if n in s && (n == x || x in s[n].above) {
      AboveInTree(s, nodes, x, n);
    }
    FullViewShows(s, nodes, v, n);
  }

  lemma ScopeIsRows(s: Shape, nodes: seq<LogNode>, v: View, x: LogNode, n: LogNode)
    requires Shaped(s, nodes) && IsView(v, RowsOf(s, nodes, s.Keys)) && InTree(s, nodes[0], x)
    ensures x in v.pos
    ensures InScope(s, nodes[0], x, n) <==>
      n in v.pos && (s[x].kids != [] || x == nodes[0] ==> v.pos[x] <= v.pos[n] < v.pos[x] + v.width[x])
  {
    FullViewShows(s, nodes, v, x);
    FullViewShows(s, nodes, v, nodes[0]);
    hide InScope, IsView, Shaped;
    if n in v.pos {
      ShownScope(s, nodes, v, x, n);
    } else if InScope(s, nodes[0], x, n) {
      ScopeIsShown(s, nodes, v, x, n);
    }
  }

  lemma {:induction false} AboveInTree(s: Shape, nodes: seq<LogNode>, x: LogNode, n: LogNode)
    requires Shaped(s, nodes) && InTree(s, nodes[0], x) && n in s && (n == x || x in s[n].above)
    ensures InTree(s, nodes[0], n)
    decreases s[n].rank
  {
    if n != x {
      assert Hangs(s, n);
      assert Child(s, s[n].parent, s[n].slot);
      AboveInTree(s, nodes, x, s[n].parent);
    }
  }

  /** The rows dealt with when the round trip from x is about to deal with row i. */
  ghost predicate Touched(v: View, x: LogNode, wrapped: bool, i: int, n: LogNode)
    requires x in v.pos
  {
    n in v.pos && if wrapped then v.pos[x] <= v.pos[n] || v.pos[n] < i else v.pos[x] <= v.pos[n] < i
  }

  method CollapseExpandAll(a: Archive, x: LogNode, expand: bool)
    requires a.Linked() && InTree(a.shape, a.root, x)
    modifies a.shape.Keys`expanded, a.shape.Keys`cExpanded, a.shape.Keys`pathExpanded, a.shape.Keys`posInTree
    ensures forall n :: n in a.shape ==>
      n.expanded == if InScope(a.shape, a.root, x, n) then expand && a.shape[n].kids != [] else old(n.expanded)
    ensures RowsNumbered(a)
  {
    SetExpanded(a, x, expand);
    CalcLines(a);
  }

  /** The round trip itself. */
  method SetExpanded(a: Archive, x: LogNode, expand: bool)
    requires a.Linked() && InTree(a.shape, a.root, x)
    modifies a.shape.Keys`expanded
    ensures forall n :: n in a.shape ==>
      n.expanded == if InScope(a.shape, a.root, x, n) then expand && a.shape[n].kids != [] else old(n.expanded)
  {
    ghost var s := a.shape;
    ghost var v := ViewExists(s, a.nodes, s.Keys);
    ViewLaid(s, a.nodes, s.Keys, v);
    forall n | n in v.pos ensures Wired(s, n) {
      assert a.LinkedAcross(n) && a.LinkedDown(n);
    }
    assert a.root == RowsOf(s, a.nodes, s.Keys)[0].tree.node;
    ScopeIsRows(s, a.nodes, v, x, x);
    forall n ensures InScope(s, a.root, x, n) <==> InRange(s, v, a.root, x, n) {
      ScopeIsRows(s, a.nodes, v, x, n);
    }
    forall n | n in v.pos ensures n.lastChild == Last(s[n].kids) {
      assert a.LinkedDown(n);
    }
    RoundTrip(s, v, a.root, x, expand);
  }

  /** InScope in terms of rows. */
  ghost predicate InRange(s: Shape, v: View, root: LogNode, x: LogNode, n: LogNode)
    requires x in s && x in v.pos && v.width.Keys == v.pos.Keys
  {
    n in v.pos && (s[x].kids != [] || x == root ==> v.pos[x] <= v.pos[n] < v.pos[x] + v.width[x])
  }

  method RoundTrip(ghost s: Shape, ghost v: View, root: LogNode, x: LogNode, expand: bool)
    requires Traversable(s, s.Keys, v, root) && x in v.pos
    requires forall n :: n in v.pos ==> n.lastChild == Last(s[n].kids)
    modifies v.pos.Keys`expanded
    ensures forall n :: n in v.pos ==>
      n.expanded == if InRange(s, v, root, x, n) then expand && s[n].kids != [] else old(n.expanded)
  {
    hide Wired, Nested, Apart;
    InsideAll(s, v, root, x);
    var c: LogNode := x;
    ghost var wrapped, i := false, v.pos[x];
    while true
      invariant OnTheWay(s, v, root, x, c, wrapped, i)
      invariant forall n {:trigger v.pos[n]} :: n in v.pos ==>
        n.expanded == if Touched(v, x, wrapped, i, n) then expand && s[n].kids != [] else old(n.expanded)
      decreases !wrapped, |v.pos| - i
    {
      ghost var was := c;
      c := Deal(s, v, x, c, root, expand);
      NextOnTheWay(s, v, root, x, was, wrapped, i, c);
      i := i + 1;
      if x == c {
        break;
      }
      if c == root {
        wrapped, i := true, 0;
      }
    }
  }

  /** The round trip from x stands on c, row i; once wrapped, it has come back to the root. */
  ghost predicate OnTheWay(s: Shape, v: View, root: LogNode, x: LogNode, c: LogNode, wrapped: bool, i: int)
    requires x in s && x in v.pos && v.width.Keys == v.pos.Keys
  {
    && c in v.pos && v.pos[c] == i
    && (!wrapped ==> v.pos[x] <= i && ((s[x].kids == [] && x != root) || i < v.pos[x] + v.width[x]))
    && (wrapped ==> s[x].kids == [] && x != root && i < v.pos[x])
  }

  lemma NextOnTheWay(s: Shape, v: View, root: LogNode, x: LogNode, c: LogNode, wrapped: bool, i: int, next: LogNode)
    requires Laid(s, s.Keys, v) && x in v.pos && root in v.pos && v.pos[root] == 0
    requires OnTheWay(s, v, root, x, c, wrapped, i) && Follows(v, x, c, root, next)
    ensures forall n {:trigger v.pos[n]} :: n in v.pos ==>
              (Touched(v, x, wrapped, i + 1, n) <==> n == c || Touched(v, x, wrapped, i, n))
    ensures next == x ==> forall n {:trigger v.pos[n]} :: n in v.pos ==>
              (Touched(v, x, wrapped, i + 1, n) <==> InRange(s, v, root, x, n))
    ensures next != x && next == root ==> !wrapped && OnTheWay(s, v, root, x, next, true, 0)
    ensures next != x && next == root ==> forall n {:trigger v.pos[n]} :: n in v.pos ==>
              (Touched(v, x, wrapped, i + 1, n) <==> Touched(v, x, true, 0, n))
    ensures next != x && next != root ==> OnTheWay(s, v, root, x, next, wrapped, i + 1)
  {
    InsideAll(s, v, root, x);
    InsideAll(s, v, root, c);
  }

  lemma InsideAll(s: Shape, v: View, root: LogNode, x: LogNode)
    requires Laid(s, s.Keys, v) && x in v.pos && root in v.pos && v.pos[root] == 0
    ensures v.pos[x] + v.width[x] <= |v.pos| == v.width[root]
    ensures s[x].kids == [] <==> v.width[x] == 1
  {
    assert Nested(s, s.Keys, v, x) && Nested(s, s.Keys, v, root) && Apart(s, v, root, x);
  }
}
