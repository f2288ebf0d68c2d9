/** Numbering the rows of the tree view and finding a row again (LogData.cpp, LogTreeView.cpp). */
module TreeView {
  import opened LogNodes
  import opened RowTrees

  /** The tree that hangs below node n, given which nodes are expanded. */
  ghost function TreeOf(s: Shape, nodes: seq<LogNode>, open: set<LogNode>, n: LogNode): (t: Tree<LogNode>)
    requires Shaped(s, nodes) && n in s
    ensures t.node == n && |t.kids| == |s[n].kids|
    decreases |nodes| - s[n].rank
  {
    Tree(n, n in open, seq(|s[n].kids|, k requires 0 <= k < |s[n].kids| =>
      assert Child(s, n, k); TreeOf(s, nodes, open, s[n].kids[k])))
  }

  /** The whole view: the visible rows below the root of the archive. */
  ghost function RowsOf(s: Shape, nodes: seq<LogNode>, open: set<LogNode>): seq<Row<LogNode>>
    requires Shaped(s, nodes)
  {
    Rows(TreeOf(s, nodes, open, nodes[0]), 0)
  }

  lemma {:induction false} RowIsTree(s: Shape, nodes: seq<LogNode>, open: set<LogNode>, j: nat)
    requires Shaped(s, nodes) && j < |RowsOf(s, nodes, open)|
    ensures var t := RowsOf(s, nodes, open)[j].tree;
      t.node in s && t == TreeOf(s, nodes, open, t.node)
  {
    var t := TreeOf(s, nodes, open, nodes[0]);
    if j > 0 {
      var p, k := ParentRow(t, 0, j);
      RowIsTree(s, nodes, open, p);
      ChildRow(t, 0, p, k);
      assert Child(s, Rows(t, 0)[p].tree.node, k);
    }
  }

  /** What row j > 0 shows: child number `slot` of its parent, whose row is p. */
  lemma RowParent(s: Shape, nodes: seq<LogNode>, open: set<LogNode>, j: nat) returns (p: nat)
    requires Shaped(s, nodes) && 0 < j < |RowsOf(s, nodes, open)|
    ensures var rows := RowsOf(s, nodes, open); var n := rows[j].tree.node;
      && p < j && n in s && s[n].parent == rows[p].tree.node && rows[p].tree.node in open
      && IsChildRow(rows, p, s[n].slot, j) && rows[j].depth == rows[p].depth + 1
  {
    var t := TreeOf(s, nodes, open, nodes[0]);
    var k;
    p, k := ParentRow(t, 0, j);
    RowIsTree(s, nodes, open, p);
    ChildRow(t, 0, p, k);
    assert Child(s, Rows(t, 0)[p].tree.node, k);
  }

  /** No node is shown twice. */
  lemma {:induction false} RowsDistinct(s: Shape, nodes: seq<LogNode>, open: set<LogNode>, i: nat, j: nat)
    requires Shaped(s, nodes) && i < j < |RowsOf(s, nodes, open)|
    ensures RowsOf(s, nodes, open)[i].tree.node != RowsOf(s, nodes, open)[j].tree.node
    decreases j
  {
    var rows := RowsOf(s, nodes, open);
    var q := RowParent(s, nodes, open, j);
    if i > 0 && rows[i].tree.node == rows[j].tree.node {
      var p := RowParent(s, nodes, open, i);
      if p < q { RowsDistinct(s, nodes, open, p, q); }
      if q < p { RowsDistinct(s, nodes, open, q, p); }
    }
  }

  /** The row of each visible node, the number of rows its subtree takes, and the node on each row. */
  datatype View = View(pos: map<LogNode, int>, width: map<LogNode, int>, at: seq<LogNode>)

  ghost predicate IsView(v: View, rows: seq<Row<LogNode>>) {
    && v.width.Keys == v.pos.Keys && |v.at| == |rows|
    && (forall j :: 0 <= j < |rows| ==>
      var n := rows[j].tree.node; n in v.pos && v.pos[n] == j && v.width[n] == Visible(rows[j].tree) && v.at[j] == n)
    && (forall n :: n in v.pos ==> 0 <= v.pos[n] < |rows| && rows[v.pos[n]].tree.node == n)
  }

  lemma ViewExists(s: Shape, nodes: seq<LogNode>, open: set<LogNode>) returns (v: View)
    requires Shaped(s, nodes)
    ensures IsView(v, RowsOf(s, nodes, open))
  {
    var rows := RowsOf(s, nodes, open);
    var pos: map<LogNode, int>, width: map<LogNode, int> := map[], map[];
    for i := 0 to |rows|
      invariant pos.Keys == width.Keys
      invariant forall j :: 0 <= j < i ==>
        var n := rows[j].tree.node; n in pos && pos[n] == j && width[n] == Visible(rows[j].tree)
      invariant forall n :: n in pos ==> 0 <= pos[n] < i && rows[pos[n]].tree.node == n
    {
      forall j | 0 <= j < i ensures rows[j].tree.node != rows[i].tree.node {
        RowsDistinct(s, nodes, open, j, i);
      }
      pos, width := pos[rows[i].tree.node := i], width[rows[i].tree.node := Visible(rows[i].tree)];
    }
    v := View(pos, width, seq(|rows|, j requires 0 <= j < |rows| => rows[j].tree.node));
  }

  /** How a visible node lies next to its parent, its next sibling and its first child. */
  ghost predicate Nested(s: Shape, open: set<LogNode>, v: View, n: LogNode)
    requires n in v.pos && v.width.Keys == v.pos.Keys
  {
    && n in s && v.width[n] >= 1
    && var p, kids := s[n].parent, s[n].kids;
    && (if n in open && kids != [] then
          kids[0] in v.pos && Child(s, n, 0) && v.pos[kids[0]] == v.pos[n] + 1 && v.width[n] > 1
        else v.width[n] == 1)
    && (if p == null then v.pos[n] == 0 && v.width[n] == |v.pos| else
          && p in s && p in v.pos && p in open && v.pos[p] < v.pos[n]
          && var next := At(s[p].kids, s[n].slot + 1);
          if next == null then v.pos[n] + v.width[n] == v.pos[p] + v.width[p] else
            && next in v.pos && Child(s, p, s[n].slot + 1) && v.pos[next] == v.pos[n] + v.width[n]
            && v.pos[n] + v.width[n] < v.pos[p] + v.width[p])
  }

  lemma ViewNested(s: Shape, nodes: seq<LogNode>, open: set<LogNode>, v: View, n: LogNode)
    requires Shaped(s, nodes) && IsView(v, RowsOf(s, nodes, open)) && n in v.pos
    ensures Nested(s, open, v, n)
  {
    var t := TreeOf(s, nodes, open, nodes[0]);
    var rows, j := Rows(t, 0), v.pos[n];
    RowIsTree(s, nodes, open, j);
    if n in open && s[n].kids != [] {
      ChildRow(t, 0, j, 0);
      assert Child(s, n, 0);
    }
    var tree := TreeOf(s, nodes, open, n);
    assert s[n].kids == [] ==> tree.kids == [];
    assert tree.open <==> n in open;
    assert !tree.open || tree.kids == [] ==> Visible(tree) == 1;
    ViewSize(v, rows);
    if j > 0 {
      ViewBeside(s, nodes, open, v, n);
    }
  }

  lemma ViewBeside(s: Shape, nodes: seq<LogNode>, open: set<LogNode>, v: View, n: LogNode)
    requires Shaped(s, nodes) && IsView(v, RowsOf(s, nodes, open)) && n in v.pos && v.pos[n] > 0
    ensures n in s && s[n].parent != null
    ensures var p := s[n].parent;
      && p in s && p in v.pos && p in open && v.pos[p] < v.pos[n]
      && var next := At(s[p].kids, s[n].slot + 1);
      if next == null then v.pos[n] + v.width[n] == v.pos[p] + v.width[p] else
        && next in v.pos && Child(s, p, s[n].slot + 1) && v.pos[next] == v.pos[n] + v.width[n]
        && v.pos[n] + v.width[n] < v.pos[p] + v.width[p]
  {
    var t := TreeOf(s, nodes, open, nodes[0]);
    var rows, j := Rows(t, 0), v.pos[n];
    var p := RowParent(s, nodes, open, j);
    RowIsTree(s, nodes, open, p);
    var k, kids := s[n].slot, rows[p].tree.kids;
    hide Visible, Rows;
    BeforeStep(kids, k);
    ChildRow(t, 0, p, k);
    if k + 1 < |kids| {
      ChildRow(t, 0, p, k + 1);
    }
  }

  lemma ViewSize(v: View, rows: seq<Row<LogNode>>)
    requires IsView(v, rows)
    ensures |v.pos| == |rows|
  {
    var keys: set<LogNode> := {};
    for i := 0 to |rows|
      invariant |keys| == i
      invariant forall n :: n in keys <==> n in v.pos && v.pos[n] < i
    {
      keys := keys + {rows[i].tree.node};
    }
    assert keys == v.pos.Keys;
  }

  /** Two visible subtrees are disjoint or one lies inside the other. */
  ghost predicate Apart(s: Shape, v: View, a: LogNode, b: LogNode)
    requires a in v.pos && b in v.pos && v.width.Keys == v.pos.Keys
  {
    v.pos[a] < v.pos[b] < v.pos[a] + v.width[a] ==>
      && v.pos[b] + v.width[b] <= v.pos[a] + v.width[a]
      && b in s && s[b].parent != null && s[b].parent in v.pos && v.pos[s[b].parent] >= v.pos[a]
  }

  lemma ViewApart(s: Shape, nodes: seq<LogNode>, open: set<LogNode>, v: View, a: LogNode, b: LogNode)
    requires Shaped(s, nodes) && IsView(v, RowsOf(s, nodes, open)) && a in v.pos && b in v.pos
    ensures Apart(s, v, a, b)
  {
    var t := TreeOf(s, nodes, open, nodes[0]);
    var rows, i, j := Rows(t, 0), v.pos[a], v.pos[b];
    if i < j < i + v.width[a] {
      var p, k := InnerParent(t, 0, i, j);
      RowIsTree(s, nodes, open, p);
      ChildRow(t, 0, p, k);
      assert Child(s, rows[p].tree.node, k);
    }
  }

  /** Everything the walk over the view relies on. */
  ghost predicate Laid(s: Shape, open: set<LogNode>, v: View) {
    && v.width.Keys == v.pos.Keys && v.pos.Keys <= s.Keys
    && (forall n {:trigger v.pos[n]} :: n in v.pos ==> 0 <= v.pos[n] < |v.at| == |v.pos| && v.at[v.pos[n]] == n)
    && (forall n {:trigger v.width[n]} :: n in v.pos ==> v.width[n] >= 1)
    && (forall n {:trigger Nested(s, open, v, n)} :: n in v.pos ==> Nested(s, open, v, n))
    && (forall n, m {:trigger Apart(s, v, n, m)} :: n in v.pos && m in v.pos ==> Apart(s, v, n, m))
  }

  lemma ViewLaid(s: Shape, nodes: seq<LogNode>, open: set<LogNode>, v: View)
    requires Shaped(s, nodes) && IsView(v, RowsOf(s, nodes, open))
    ensures Laid(s, open, v)
  {
    forall n | n in v.pos ensures Nested(s, open, v, n) {
      ViewNested(s, nodes, open, v, n);
    }
    ViewSize(v, RowsOf(s, nodes, open));
    assert forall n {:trigger n in v.pos} {:trigger v.pos[n]} :: n in v.pos ==> Nested(s, open, v, n);
    forall n, m | n in v.pos && m in v.pos ensures Apart(s, v, n, m) {
      ViewApart(s, nodes, open, v, n, m);
    }
  }

  /** The expanded nodes of an archive. */
  ghost function Open(a: Archive): set<LogNode>
    reads a`shape, a.shape.Keys`expanded
  {
    set n | n in a.shape && n.expanded
  }

  /** The rows of the tree view of an archive. */
  ghost function TreeRows(a: Archive): seq<Row<LogNode>>
    requires Shaped(a.shape, a.nodes)
    reads a`nodes, a`shape, a.shape.Keys`expanded
  {
    RowsOf(a.shape, a.nodes, Open(a))
  }

  /** The first i rows carry their number. */
  ghost predicate NumberedTo(v: View, i: int)
    reads v.pos.Keys`posInTree, v.pos.Keys`pathExpanded
  {
    forall n {:trigger v.pos[n]} :: n in v.pos && v.pos[n] < i ==> n.posInTree == v.pos[n] && n.pathExpanded
  }

  /** Subtrees that end before row i, and those from row `from` on that end there, are counted. */
  ghost predicate CountedTo(v: View, from: int, i: int)
    requires v.width.Keys == v.pos.Keys
    reads v.pos.Keys`cExpanded
  {
    forall n {:trigger v.width[n]} ::
      && n in v.pos && (v.pos[n] + v.width[n] < i || (v.pos[n] + v.width[n] == i && v.pos[n] >= from))
      ==> n.cExpanded == v.width[n] - 1
  }

  /** A node with unfinished descendants has counted everything up to the unfinished child. */
  ghost predicate CountedAbove(s: Shape, v: View, k: int, i: int)
    requires v.width.Keys == v.pos.Keys
    reads v.pos.Keys`cExpanded
  {
    forall n {:trigger s[n].parent} :: n in v.pos && n in s && 0 < v.pos[n] < k && i < v.pos[n] + v.width[n] ==>
      var p := s[n].parent;
      p != null && p in v.pos && p.cExpanded == v.pos[n] - v.pos[p]
  }

  /** The parent of n has counted all rows between itself and row i. */
  ghost predicate ParentCounted(s: Shape, v: View, n: LogNode, i: int)
    reads v.pos.Keys`cExpanded
  {
    n in s && var p := s[n].parent;
    p != null ==> p in v.pos && p.cExpanded == i - v.pos[p] - 1
  }

  /** All that is known when the walk is about to visit row i, on which n stands. */
  ghost predicate Reached(s: Shape, v: View, n: LogNode, i: int)
    requires v.width.Keys == v.pos.Keys
    reads v.pos.Keys`cExpanded
  {
    n in v.pos && v.pos[n] == i && CountedTo(v, 0, i) && CountedAbove(s, v, i, i) && ParentCounted(s, v, n, i)
  }

  /** All that is known when the row of n, row i, is done but nothing below it. */
  ghost predicate Visited(s: Shape, v: View, n: LogNode, i: int)
    requires v.width.Keys == v.pos.Keys
    reads n`cExpanded, v.pos.Keys`cExpanded
  {
    && n in v.pos && v.pos[n] == i && n.cExpanded == 0
    && (v.width[n] == 1 ==> Finished(s, v, n, i + 1))
    && CountedTo(v, 0, i) && CountedAbove(s, v, i, i) && ParentCounted(s, v, n, i + 1)
  }

  /** All that is known when the walk has finished the subtree of n, which ends before row i. */
  ghost predicate Finished(s: Shape, v: View, n: LogNode, i: int)
    requires v.width.Keys == v.pos.Keys
    reads v.pos.Keys`cExpanded
  {
    && n in v.pos && v.pos[n] + v.width[n] == i
    && CountedTo(v, v.pos[n], i) && CountedAbove(s, v, v.pos[n], i - 1) && ParentCounted(s, v, n, i)
  }

  /** From a finished subtree to the next sibling. */
  lemma ToSibling(s: Shape, open: set<LogNode>, v: View, n: LogNode, i: int)
    requires Laid(s, open, v) && Finished(s, v, n, i)
    requires Next(s, n) != null
    ensures Reached(s, v, Next(s, n), i)
  {
    assert Nested(s, open, v, n);
    var p := s[n].parent;
    forall m {:trigger v.width[m]} | m in v.pos && v.pos[m] < v.pos[n] ensures v.pos[m] + v.width[m] != i {
      assert Apart(s, v, m, n) && Apart(s, v, m, p);
    }
    forall m {:trigger v.pos[m]} | m in v.pos && v.pos[m] < i < v.pos[m] + v.width[m] ensures v.pos[m] < v.pos[n] {
      assert Apart(s, v, n, m);
    }
  }

  /** From a node whose own row is done to its first child. */
  lemma ToChild(s: Shape, open: set<LogNode>, v: View, n: LogNode, i: int)
    requires Laid(s, open, v) && Visited(s, v, n, i) && n in open && s[n].kids != []
    ensures Reached(s, v, s[n].kids[0], i + 1)
  {
    assert Nested(s, open, v, n);
    forall m {:trigger v.width[m]} | m in v.pos ensures v.pos[m] + v.width[m] != i + 1 {
      assert Apart(s, v, m, n);
      assert Nested(s, open, v, m);
    }
  }

  /** The links of a node are the ones the shape calls for. */
  ghost predicate Wired(s: Shape, n: LogNode)
    requires n in s
    reads n`parent, n`nextSibling, n`firstChild
  {
    n.parent == s[n].parent && n.nextSibling == Next(s, n) && n.firstChild == At(s[n].kids, 0)
  }

  /** The view v is the one of a well-linked tree. */
  ghost predicate Traversable(s: Shape, open: set<LogNode>, v: View, root: LogNode)
    reads v.pos.Keys`parent, v.pos.Keys`nextSibling, v.pos.Keys`firstChild
  {
    && Laid(s, open, v) && v.at != [] && v.at[0] == root && root in v.pos && v.pos[root] == 0
    && (forall n {:trigger Wired(s, n)} :: n in v.pos ==> Wired(s, n))
  }

  /** Besides, it is the one for the nodes that are expanded now. */
  ghost predicate Walkable(s: Shape, open: set<LogNode>, v: View, root: LogNode)
    reads v.pos.Keys`parent, v.pos.Keys`nextSibling, v.pos.Keys`firstChild, v.pos.Keys`expanded
  {
    Traversable(s, open, v, root) && forall n {:trigger n.expanded} :: n in v.pos ==> (n.expanded <==> n in open)
  }

  /** Every row of the view carries its number, as CalcLines leaves it. */
  ghost predicate RowsNumbered(a: Archive)
    requires Shaped(a.shape, a.nodes)
    reads a`nodes, a`shape, a.shape.Keys`expanded, a.shape.Keys`posInTree
  {
    forall j :: 0 <= j < |TreeRows(a)| ==>
      TreeRows(a)[j].tree.node in a.shape && TreeRows(a)[j].tree.node.posInTree == j
  }

  /** No row shows n. */
  ghost predicate Hidden(a: Archive, n: LogNode)
    requires Shaped(a.shape, a.nodes)
    reads a`nodes, a`shape, a.shape.Keys`expanded
  {
    forall j :: 0 <= j < |TreeRows(a)| ==> TreeRows(a)[j].tree.node != n
  }

  /** The view of a well-linked archive is the one the walk goes through. */
  lemma ViewReady(a: Archive) returns (v: View)
    requires a.Linked()
    ensures IsView(v, TreeRows(a)) && Walkable(a.shape, Open(a), v, a.root) && v.pos.Keys <= a.shape.Keys
  {
    v := ViewExists(a.shape, a.nodes, Open(a));
    ViewLaid(a.shape, a.nodes, Open(a), v);
    assert a.root == TreeRows(a)[0].tree.node;
    forall n | n in v.pos ensures Wired(a.shape, n) {
      assert a.LinkedAcross(n) && a.LinkedDown(n);
    }
  }

  lemma HiddenIsOutside(a: Archive, v: View)
    requires a.Linked() && IsView(v, TreeRows(a))
    ensures forall n {:trigger Hidden(a, n)} :: Hidden(a, n) ==> n !in v.pos
  {
  }

  lemma NumberedRows(a: Archive, v: View)
    requires a.Linked() && IsView(v, TreeRows(a)) && v.pos.Keys <= a.shape.Keys
    requires forall n {:trigger v.pos[n]} :: n in v.pos ==>
      n.posInTree == v.pos[n] && n.cExpanded == v.width[n] - 1 && n.pathExpanded
    ensures RowsNumbered(a)
    ensures forall j :: 0 <= j < |TreeRows(a)| ==> var row := TreeRows(a)[j];
      row.tree.node.cExpanded == Visible(row.tree) - 1 && row.tree.node.pathExpanded
  {
    hide TreeRows, Visible;
  }

  /** Give every row its number, and every visible node the number of rows below it. Hidden nodes keep theirs. */
  method CalcLines(a: Archive)
    requires a.Linked()
    modifies a.shape.Keys`cExpanded, a.shape.Keys`pathExpanded, a.shape.Keys`posInTree
    ensures RowsNumbered(a)
    ensures forall j :: 0 <= j < |TreeRows(a)| ==> var row := TreeRows(a)[j];
      row.tree.node.cExpanded == Visible(row.tree) - 1 && row.tree.node.pathExpanded
    ensures forall n :: n in a.shape && Hidden(a, n) ==>
      n.posInTree == old(n.posInTree) && n.cExpanded == old(n.cExpanded) && n.pathExpanded == old(n.pathExpanded)
  {
    hide *;
    ghost var v := ViewReady(a);
    HiddenIsOutside(a, v);
    Number(a.shape, Open(a), v, a.root);
    NumberedRows(a, v);
  }

  method Number(ghost s: Shape, ghost open: set<LogNode>, ghost v: View, root: LogNode)
    requires Walkable(s, open, v, root)
    modifies v.pos.Keys`cExpanded, v.pos.Keys`pathExpanded, v.pos.Keys`posInTree
    ensures forall n {:trigger v.pos[n]} :: n in v.pos ==>
      n.posInTree == v.pos[n] && n.cExpanded == v.width[n] - 1 && n.pathExpanded
  {
    var pNode: LogNode := root;
    var l: int := -1;
    AtRoot(s, open, v, root);
    while true
      invariant NumberedTo(v, l + 1) && Reached(s, v, pNode, l + 1)
      decreases |v.pos| - l
    {
      l := l + 1;
      Visit(s, open, v, pNode, root, l);
      pNode := Advance(s, open, v, pNode, root);
      if root == pNode {
        break;
      }
    }
    AllDone(s, open, v, root);
  }

  lemma AtRoot(s: Shape, open: set<LogNode>, v: View, root: LogNode)
    requires Laid(s, open, v) && root in v.pos && v.pos[root] == 0
    ensures NumberedTo(v, 0) && Reached(s, v, root, 0)
  {
    assert Nested(s, open, v, root);
  }

  lemma AtNode(s: Shape, open: set<LogNode>, v: View, n: LogNode)
    requires Laid(s, open, v) && n in v.pos
    ensures n in s && 0 <= v.pos[n] < |v.pos|
    ensures s[n].parent != null ==> s[n].parent in open && s[n].parent in v.pos
    ensures n !in open || s[n].kids == [] ==> v.width[n] == 1
    ensures var p := s[n].parent; p != null ==>
      && v.pos[p] < v.pos[n] && v.pos[n] + v.width[n] <= v.pos[p] + v.width[p]
      && (Next(s, n) == null ==> v.pos[n] + v.width[n] == v.pos[p] + v.width[p])
  {
    assert Nested(s, open, v, n);
  }

  lemma AtTop(s: Shape, open: set<LogNode>, v: View, n: LogNode)
    requires Laid(s, open, v) && n in v.pos
    ensures s[n].parent == null <==> v.pos[n] == 0
    ensures s[n].parent == null ==> v.width[n] == |v.pos|
  {
    assert Nested(s, open, v, n);
  }

  lemma AllDone(s: Shape, open: set<LogNode>, v: View, root: LogNode)
    requires Laid(s, open, v) && root in v.pos && v.pos[root] == 0
    requires CountedTo(v, 0, |v.pos|) && NumberedTo(v, |v.pos|)
    ensures forall n {:trigger v.pos[n]} :: n in v.pos ==>
      n.posInTree == v.pos[n] && n.cExpanded == v.width[n] - 1 && n.pathExpanded
  {
    assert Nested(s, open, v, root);
    forall n {:trigger v.pos[n]} | n in v.pos
      ensures n.posInTree == v.pos[n] && n.cExpanded == v.width[n] - 1 && n.pathExpanded
    {
      assert Apart(s, v, root, n);
    }
  }

  /** Deal with the node on row l. */
  method Visit(ghost s: Shape, ghost open: set<LogNode>, ghost v: View, pNode: LogNode, ghost root: LogNode, l: int)
    requires Walkable(s, open, v, root)
    requires NumberedTo(v, l) && Reached(s, v, pNode, l)
    modifies v.pos.Keys`cExpanded, v.pos.Keys`pathExpanded, v.pos.Keys`posInTree
    ensures NumberedTo(v, l + 1) && Visited(s, v, pNode, l)
  {
    AtNode(s, open, v, pNode);
    assert Wired(s, pNode);
    NumberRow(s, open, v, pNode, l);
    CountRow(s, open, v, pNode);
  }

  /** The node on the next row, or the root at the end of the walk. */
  method Advance(ghost s: Shape, ghost open: set<LogNode>, ghost v: View, pNode: LogNode, root: LogNode)
    returns (next: LogNode)
    requires Walkable(s, open, v, root) && pNode in v.pos && Visited(s, v, pNode, v.pos[pNode])
    modifies v.pos.Keys`cExpanded
    ensures var l := v.pos[pNode];
      if next == root then CountedTo(v, 0, l + 1) && l + 1 == |v.pos| else Reached(s, v, next, l + 1)
  {
    AtNode(s, open, v, pNode);
    assert Wired(s, pNode);
    if pNode.firstChild != null && pNode.expanded {
      ToChild(s, open, v, pNode, v.pos[pNode]);
      next := pNode.firstChild;
    } else if pNode.nextSibling != null {
      ToSibling(s, open, v, pNode, v.pos[pNode] + 1);
      next := pNode.nextSibling;
    } else {
      next := Climb(s, open, v, pNode, root, v.pos[pNode] + 1);
    }
  }

  method NumberRow(ghost s: Shape, ghost open: set<LogNode>, ghost v: View, pNode: LogNode, l: int)
    requires Laid(s, open, v) && pNode in v.pos && v.pos[pNode] == l && NumberedTo(v, l)
    requires pNode.parent != null ==> pNode.parent in v.pos && v.pos[pNode.parent] < l && pNode.parent.expanded
    modifies pNode`pathExpanded, pNode`posInTree
    ensures NumberedTo(v, l + 1)
  {
    if pNode.parent != null {
      assert pNode.parent.posInTree < l;
    }
    pNode.pathExpanded := pNode.parent == null || (pNode.parent.pathExpanded && pNode.parent.expanded);
    pNode.posInTree := l;
  }

  /** Count one row on its parent. */
  method CountRow(ghost s: Shape, ghost open: set<LogNode>, ghost v: View, pNode: LogNode)
    requires Laid(s, open, v) && pNode in v.pos && pNode.parent == s[pNode].parent
    requires Reached(s, v, pNode, v.pos[pNode])
    modifies v.pos.Keys`cExpanded
    ensures Visited(s, v, pNode, v.pos[pNode])
  {
    AtNode(s, open, v, pNode);
    OutsideCounts(s, open, v, pNode);
    pNode.cExpanded := 0;
    if pNode.parent != null {
      pNode.parent.cExpanded := pNode.parent.cExpanded + 1;
    }
  }

  /** From a finished last child, go up until a node has a next sibling, adding up the counts. */
  method Climb(ghost s: Shape, ghost open: set<LogNode>, ghost v: View, start: LogNode, root: LogNode, ghost i: int)
    returns (pNode: LogNode)
    requires Walkable(s, open, v, root)
    requires Finished(s, v, start, i) && start.nextSibling == null
    modifies v.pos.Keys`cExpanded
    ensures if pNode == root then CountedTo(v, 0, i) && i == |v.pos| else Reached(s, v, pNode, i)
  {
    pNode := start;
    AtTop(s, open, v, pNode);
    assert Wired(s, pNode);
    while pNode.parent != null
      invariant Finished(s, v, pNode, i) && pNode.nextSibling == null && pNode.parent == s[pNode].parent
      invariant pNode.parent == null ==> v.pos[pNode] == 0 && v.width[pNode] == |v.pos|
      decreases v.pos[pNode]
    {
      ghost var k := pNode;
      AtNode(s, open, v, k);
      assert Wired(s, k);
      pNode := pNode.parent;
      AtTop(s, open, v, pNode);
      assert Wired(s, pNode);
      CountOnParent(s, open, v, k, pNode, i);
      if pNode == root {
        break;
      }
      if pNode.nextSibling != null {
        ToSibling(s, open, v, pNode, i);
        pNode := pNode.nextSibling;
        break;
      }
    }
  }

  method CountOnParent(ghost s: Shape, ghost open: set<LogNode>, ghost v: View, ghost k: LogNode, pNode: LogNode,
                       ghost i: int)
    requires Laid(s, open, v) && pNode in v.pos && pNode.parent == s[pNode].parent
    requires Finished(s, v, k, i) && s[k].parent == pNode && Next(s, k) == null
    modifies v.pos.Keys`cExpanded
    ensures Finished(s, v, pNode, i)
  {
    AtNode(s, open, v, k);
    AtNode(s, open, v, pNode);
    OutsideCounts(s, open, v, pNode);
    forall n {:trigger v.width[n]} | n in v.pos && v.pos[pNode] < v.pos[n] < v.pos[k]
      ensures v.pos[n] + v.width[n] != i
    {
      assert Apart(s, v, n, k);
    }
    if pNode.parent != null && pNode.cExpanded != 0 {
      pNode.parent.cExpanded := pNode.parent.cExpanded + pNode.cExpanded;
    }
  }

  /** A node around the subtree of n counts on another parent than n does. */
  lemma OutsideCounts(s: Shape, open: set<LogNode>, v: View, n: LogNode)
    requires Laid(s, open, v) && n in v.pos
    ensures forall m {:trigger s[m].parent} :: m in v.pos && 0 < v.pos[m] < v.pos[n] < v.pos[m] + v.width[m] ==>
      s[m].parent != s[n].parent && s[m].parent != n
  {
    forall m {:trigger s[m].parent} | m in v.pos && 0 < v.pos[m] < v.pos[n] < v.pos[m] + v.width[m]
      ensures s[m].parent != s[n].parent && s[m].parent != n
    {
      assert Apart(s, v, m, n) && Nested(s, open, v, m);
    }
  }

  /** If a child is visible then so are its later siblings, further down and at the same depth. */
  lemma SiblingBelow(s: Shape, nodes: seq<LogNode>, open: set<LogNode>, v: View, n: LogNode, k: nat)
    requires Shaped(s, nodes) && IsView(v, RowsOf(s, nodes, open)) && n in v.pos && n in s
    requires s[n].parent != null && s[n].parent in s && s[n].slot < k < |s[s[n].parent].kids|
    ensures var m := s[s[n].parent].kids[k]; var rows := RowsOf(s, nodes, open);
      m in v.pos && v.pos[m] > v.pos[n] && rows[v.pos[m]].depth == rows[v.pos[n]].depth
  {
    var t := TreeOf(s, nodes, open, nodes[0]);
    var rows, j := Rows(t, 0), v.pos[n];
    assert j > 0;
    var p := RowParent(s, nodes, open, j);
    RowIsTree(s, nodes, open, p);
    ChildRow(t, 0, p, k);
    BeforeStep(rows[p].tree.kids, s[n].slot);
    BeforeMonotone(rows[p].tree.kids, s[n].slot + 1, k);
  }

  lemma ChildDepth(s: Shape, nodes: seq<LogNode>, open: set<LogNode>, v: View, n: LogNode)
    requires Shaped(s, nodes) && IsView(v, RowsOf(s, nodes, open)) && n in v.pos && n in s
    requires s[n].parent != null
    ensures s[n].parent in v.pos
    ensures var rows := RowsOf(s, nodes, open); rows[v.pos[n]].depth == rows[v.pos[s[n].parent]].depth + 1
  {
    assert v.pos[n] > 0;
    var p := RowParent(s, nodes, open, v.pos[n]);
  }

  /** Row t lies at or below n, before the end of the parent's rows. */
  ghost predicate Towards(s: Shape, v: View, n: LogNode, t: int)
    requires v.width.Keys == v.pos.Keys
  {
    && n in v.pos && n in s && v.pos[n] <= t < |v.pos|
    && var p := s[n].parent;
    p != null ==> p in v.pos && t < v.pos[p] + v.width[p]
  }

  lemma GoAcross(s: Shape, nodes: seq<LogNode>, open: set<LogNode>, v: View, n: LogNode, k: nat, t: int)
    requires Shaped(s, nodes) && IsView(v, RowsOf(s, nodes, open)) && Towards(s, v, n, t)
    requires s[n].parent != null && s[n].parent in s && s[n].slot < k < |s[s[n].parent].kids|
    ensures var m := s[s[n].parent].kids[k]; var rows := RowsOf(s, nodes, open);
      && m in v.pos && v.pos[m] > v.pos[n] && rows[v.pos[m]].depth == rows[v.pos[n]].depth
      && (v.pos[m] <= t ==> Towards(s, v, m, t))
  {
    SiblingBelow(s, nodes, open, v, n, k);
    assert Child(s, s[n].parent, k);
  }

  lemma GoDown(s: Shape, nodes: seq<LogNode>, open: set<LogNode>, v: View, n: LogNode, t: int)
    requires Shaped(s, nodes) && IsView(v, RowsOf(s, nodes, open)) && Towards(s, v, n, t)
    requires v.pos[n] != t && (Next(s, n) == null || (Next(s, n) in v.pos ==> v.pos[Next(s, n)] > t))
    ensures n in open && s[n].kids != []
    ensures var m := s[n].kids[0]; var rows := RowsOf(s, nodes, open);
      Towards(s, v, m, t) && rows[v.pos[m]].depth == rows[v.pos[n]].depth + 1
  {
    ViewNested(s, nodes, open, v, n);
    ViewNested(s, nodes, open, v, s[n].kids[0]);
    ChildDepth(s, nodes, open, v, s[n].kids[0]);
  }

  /** There is a row t, and the rows are numbered as they should be. */
  ghost predicate RowFound(a: Archive, t: int)
    requires Shaped(a.shape, a.nodes)
    reads a`nodes, a`shape, a.shape.Keys`expanded, a.shape.Keys`posInTree
  {
    RowsNumbered(a) && 0 <= t < |TreeRows(a)|
  }

  /** What the search keeps: full is the view with every node expanded, which bounds the search even for rows
      that do not exist or are not numbered; v is the view on screen. */
  ghost predicate Searching(a: Archive, full: View, v: View, n: LogNode, t: int, offset: nat)
    requires a.Linked()
    reads a, a.shape.Keys
  {
    var s, nodes := a.shape, a.nodes;
    && IsView(full, RowsOf(s, nodes, s.Keys)) && IsView(v, TreeRows(a))
    && n in s && n in full.pos && offset == |s[n].above|
    && (RowFound(a, t) ==> Towards(s, v, n, t) && offset == TreeRows(a)[v.pos[n]].depth)
  }

  /** The node on row iItem and its indentation. Where the rows are not numbered, or for a row that does not
      exist, the search gives up after a second try and returns a node of that number or without children. */
  method GetTreeNode(a: Archive, iItem: int) returns (pNode: LogNode, offset: nat)
    requires a.Linked()
    ensures pNode in a.shape && (pNode.posInTree == iItem || pNode.firstChild == null)
    ensures offset == |a.shape[pNode].above|
    ensures RowFound(a, iItem) ==>
              TreeRows(a)[iItem] == Row(TreeRows(a)[iItem].tree, offset) && TreeRows(a)[iItem].tree.node == pNode
  {
    ghost var full := ViewExists(a.shape, a.nodes, a.shape.Keys);
    ghost var v := ViewExists(a.shape, a.nodes, Open(a));
    StartSearch(a, full, v, iItem);
    hide TreeRows, IsView, RowFound, Towards, RowsOf;
    var didAgain := false;
    offset, pNode := 0, a.root;
    while iItem != pNode.posInTree
      invariant Searching(a, full, v, pNode, iItem, offset)
      invariant didAgain ==> !RowFound(a, iItem)
      decreases !didAgain, |full.at| - full.pos[pNode]
    {
      if pNode.nextSibling != null && pNode.nextSibling.posInTree <= iItem {
        pNode := SkipSiblings(a, full, v, pNode, iItem, offset);
      } else {
        GoDownIn(a, full, v, pNode, iItem, offset);
        if pNode.firstChild == null {
          if !didAgain {
            didAgain := true;
            StartSearch(a, full, v, iItem);
            offset, pNode := 0, a.root;
            continue;
          } else {
            break;
          }
        }
        offset := offset + 1;
        pNode := pNode.firstChild;
      }
    }
    SearchEnds(a, full, v, pNode, iItem, offset);
  }

  /** A node with the number of an existing row is the one on it. */
  lemma SearchEnds(a: Archive, full: View, v: View, n: LogNode, iItem: int, offset: nat)
    requires a.Linked() && Searching(a, full, v, n, iItem, offset)
    ensures RowFound(a, iItem) && n.posInTree == iItem ==>
              TreeRows(a)[iItem] == Row(TreeRows(a)[iItem].tree, offset) && TreeRows(a)[iItem].tree.node == n
  {
  }

  /** Follow the skip chain and then the siblings as far as row iItem allows. */
  method SkipSiblings(a: Archive, ghost full: View, ghost v: View, start: LogNode, iItem: int, ghost offset: nat)
    returns (pNode: LogNode)
    requires a.Linked() && Searching(a, full, v, start, iItem, offset)
    requires start.nextSibling != null && start.nextSibling.posInTree <= iItem
    ensures Searching(a, full, v, pNode, iItem, offset)
    ensures full.pos[start] < full.pos[pNode]
  {
    hide TreeRows, IsView, RowFound, Towards, RowsOf;
    pNode := SkipChanks(a, full, v, start, iItem, offset);
    while pNode.nextSibling != null && pNode.nextSibling.posInTree <= iItem
      invariant Searching(a, full, v, pNode, iItem, offset)
      invariant full.pos[start] < full.pos[pNode] || pNode == start
      decreases |full.at| - full.pos[pNode]
    {
      assert a.LinkedAcross(pNode);
      GoAcrossIn(a, full, v, pNode, a.shape[pNode].slot + 1, iItem, offset);
      pNode := pNode.nextSibling;
    }
  }

  method SkipChanks(a: Archive, ghost full: View, ghost v: View, start: LogNode, iItem: int, ghost offset: nat)
    returns (pNode: LogNode)
    requires a.Linked() && Searching(a, full, v, start, iItem, offset)
    ensures Searching(a, full, v, pNode, iItem, offset)
    ensures full.pos[start] < full.pos[pNode] || pNode == start
  {
    pNode := start;
    while pNode.nextChank != null && pNode.nextChank.posInTree <= iItem
      invariant Searching(a, full, v, pNode, iItem, offset)
      invariant full.pos[start] < full.pos[pNode] || pNode == start
      decreases |full.at| - full.pos[pNode]
    {
      assert a.LinkedAcross(pNode);
      GoAcrossIn(a, full, v, pNode, NextChankStop(a.shape[pNode].slot), iItem, offset);
      pNode := pNode.nextChank;
    }
  }

  lemma StartSearch(a: Archive, full: View, v: View, iItem: int)
    requires a.Linked()
    requires IsView(full, RowsOf(a.shape, a.nodes, a.shape.Keys)) && IsView(v, TreeRows(a))
    ensures Searching(a, full, v, a.root, iItem, 0)
  {
    ViewSize(v, TreeRows(a));
    assert Hangs(a.shape, a.root);
    assert a.root == TreeRows(a)[0].tree.node == RowsOf(a.shape, a.nodes, a.shape.Keys)[0].tree.node;
  }

  lemma GoAcrossIn(a: Archive, full: View, v: View, n: LogNode, k: nat, iItem: int, offset: nat)
    requires a.Linked() && Searching(a, full, v, n, iItem, offset)
    requires a.shape[n].parent != null && a.shape[n].parent in a.shape
    requires a.shape[n].slot < k < |a.shape[a.shape[n].parent].kids|
    requires a.shape[a.shape[n].parent].kids[k].posInTree <= iItem
    ensures var m := a.shape[a.shape[n].parent].kids[k];
      Searching(a, full, v, m, iItem, offset) && full.pos[n] < full.pos[m] < |full.at|
  {
    SiblingBelow(a.shape, a.nodes, a.shape.Keys, full, n, k);
    if RowFound(a, iItem) {
      GoAcross(a.shape, a.nodes, Open(a), v, n, k, iItem);
    }
    assert Child(a.shape, a.shape[n].parent, k) && Hangs(a.shape, n);
    Depths(a.shape, a.shape[n].parent, k);
    Depths(a.shape, a.shape[n].parent, a.shape[n].slot);
  }

  /** A child has one ancestor more. */
  lemma Depths(s: Shape, p: LogNode, k: nat)
    requires Forest(s) && p in s && k < |s[p].kids|
    ensures s[p].kids[k] in s && |s[s[p].kids[k]].above| == |s[p].above| + 1
  {
    assert Child(s, p, k) && Hangs(s, p) && Hangs(s, s[p].kids[k]);
  }

  lemma GoDownIn(a: Archive, full: View, v: View, n: LogNode, iItem: int, offset: nat)
    requires a.Linked() && Searching(a, full, v, n, iItem, offset)
    requires n.posInTree != iItem && (n.nextSibling == null || n.nextSibling.posInTree > iItem)
    ensures n.firstChild == null ==> !RowFound(a, iItem)
    ensures n.firstChild != null ==> Searching(a, full, v, n.firstChild, iItem, offset + 1)
    ensures n.firstChild != null ==> full.pos[n] < full.pos[n.firstChild] < |full.at|
  {
    assert a.LinkedAcross(n) && a.LinkedDown(n);
    if RowFound(a, iItem) {
      GoDown(a.shape, a.nodes, Open(a), v, n, iItem);
    }
    if n.firstChild != null {
      ViewNested(a.shape, a.nodes, a.shape.Keys, full, n);
      Depths(a.shape, n, 0);
    }
  }
}

