/** The rows of the tree view as a pure value: a tree of nodes, each collapsed or
    expanded, and its visible preorder. */
module RowTrees {

  /** A node of the tree view, whether it is expanded, and all its children. */
  datatype Tree<N> = Tree(node: N, open: bool, kids: seq<Tree<N>>)

  /** One line of the view: the subtree that starts there and its indentation. */
  datatype Row<N> = Row(tree: Tree<N>, depth: nat)

  /** The visible preorder: a node, then the rows of its children if it is expanded. */
  function Rows<N>(t: Tree<N>, depth: nat): (r: seq<Row<N>>)
    ensures |r| == Visible(t) >= 1
    decreases t, 1
  {
    [Row(t, depth)] + if t.open then ForestRows(t.kids, depth + 1) else []
  }

  function ForestRows<N>(ts: seq<Tree<N>>, depth: nat): (r: seq<Row<N>>)
    ensures |r| == ForestVisible(ts)
    decreases ts, 0
  {
    if ts == [] then [] else
      var rest := ts[..|ts| - 1];
      ForestRows(rest, depth) + Rows(ts[|ts| - 1], depth)
  }

  /** How many rows a subtree takes. */
  function Visible<N>(t: Tree<N>): nat
    decreases t, 1
  {
    1 + if t.open then ForestVisible(t.kids) else 0
  }

  function ForestVisible<N>(ts: seq<Tree<N>>): nat
    decreases ts, 0
  {
    if ts == [] then 0 else
      var rest := ts[..|ts| - 1];
      ForestVisible(rest) + Visible(ts[|ts| - 1])
  }

  /** The rows taken by the first k children. */
  function Before<N>(ts: seq<Tree<N>>, k: nat): nat
    requires k <= |ts|
  {
    ForestVisible(ts[..k])
  }

  lemma BeforeStep<N>(ts: seq<Tree<N>>, k: nat)
    requires k < |ts|
    ensures Before(ts, k + 1) == Before(ts, k) + Visible(ts[k])
  {
    assert ts[..k + 1][..k] == ts[..k];
  }

  lemma {:induction false} BeforeMonotone<N>(ts: seq<Tree<N>>, j: nat, k: nat)
    requires j <= k <= |ts|
    ensures Before(ts, j) <= Before(ts, k)
    decreases k
  {
    if j < k {
      BeforeStep(ts, k - 1);
      BeforeMonotone(ts, j, k - 1);
    }
  }

  /** The rows of a visible subtree stand together: row m of the subtree that starts on row j is row j + m. */
  lemma {:induction false} SubtreeTogether<N>(t: Tree<N>, depth: nat, j: nat, m: nat)
    requires j < Visible(t) && m < Visible(Rows(t, depth)[j].tree)
    ensures var row := Rows(t, depth)[j];
      j + Visible(row.tree) <= Visible(t) && Rows(t, depth)[j + m] == Rows(row.tree, row.depth)[m]
    decreases t, 1
  {
    if j > 0 {
      assert Rows(t, depth)[j] == ForestRows(t.kids, depth + 1)[j - 1];
      ForestTogether(t.kids, depth + 1, j - 1, m);
      assert Rows(t, depth)[j + m] == ForestRows(t.kids, depth + 1)[j + m - 1];
    }
  }

  lemma {:induction false} ForestTogether<N>(ts: seq<Tree<N>>, depth: nat, j: nat, m: nat)
    requires j < ForestVisible(ts) && m < Visible(ForestRows(ts, depth)[j].tree)
    ensures var row := ForestRows(ts, depth)[j];
      j + Visible(row.tree) <= ForestVisible(ts) && ForestRows(ts, depth)[j + m] == Rows(row.tree, row.depth)[m]
    decreases ts, 0
  {
    var rest, last := ts[..|ts| - 1], ts[|ts| - 1];
    var front := |ForestRows(rest, depth)|;
    if j < front {
      assert ForestRows(ts, depth)[j] == ForestRows(rest, depth)[j];
      ForestTogether(rest, depth, j, m);
      assert ForestRows(ts, depth)[j + m] == ForestRows(rest, depth)[j + m];
    } else {
      assert ForestRows(ts, depth)[j] == Rows(last, depth)[j - front];
      SubtreeTogether(last, depth, j - front, m);
      assert ForestRows(ts, depth)[j + m] == Rows(last, depth)[j - front + m];
    }
  }

  /** Where a child of a visible expanded node appears. */
  lemma {:induction false} ForestChildRow<N>(ts: seq<Tree<N>>, depth: nat, k: nat)
    requires k < |ts|
    ensures Before(ts, k) < ForestVisible(ts)
    ensures ForestRows(ts, depth)[Before(ts, k)] == Row(ts[k], depth)
    decreases |ts|
  {
    var rest, last := ts[..|ts| - 1], ts[|ts| - 1];
    assert rest[..k] == ts[..k];
    if k < |rest| {
      ForestChildRow(rest, depth, k);
    } else {
      assert ts[..k] == rest;
    }
  }

  /** Row j shows child number k of the node on row p. */
  ghost predicate IsChildRow<N>(rows: seq<Row<N>>, p: nat, k: nat, j: nat) {
    && p < j < |rows|
    && rows[p].tree.open
    && k < |rows[p].tree.kids|
    && j == p + 1 + Before(rows[p].tree.kids, k)
  }

  lemma ChildRow<N>(t: Tree<N>, depth: nat, p: nat, k: nat)
    requires p < Visible(t)
    requires Rows(t, depth)[p].tree.open && k < |Rows(t, depth)[p].tree.kids|
    ensures var rows := Rows(t, depth); var kids := rows[p].tree.kids;
      var j := p + 1 + Before(kids, k);
      && IsChildRow(rows, p, k, j)
      && rows[j] == Row(kids[k], rows[p].depth + 1)
      && j + Visible(kids[k]) <= p + Visible(rows[p].tree)
      && (k + 1 == |kids| ==> j + Visible(kids[k]) == p + Visible(rows[p].tree))
  {
    var rows := Rows(t, depth);
    var row := rows[p];
    var kids := row.tree.kids;
    ChildPosition(row.tree, row.depth, k);
    SubtreeTogether(t, depth, p, 1 + Before(kids, k));
  }

  lemma ChildPosition<N>(t: Tree<N>, depth: nat, k: nat)
    requires t.open && k < |t.kids|
    ensures var at := 1 + Before(t.kids, k);
      && at + Visible(t.kids[k]) <= Visible(t)
      && Rows(t, depth)[at] == Row(t.kids[k], depth + 1)
      && (k + 1 == |t.kids| ==> at + Visible(t.kids[k]) == Visible(t))
  {
    ForestChildRow(t.kids, depth + 1, k);
    BeforeStep(t.kids, k);
    BeforeMonotone(t.kids, k + 1, |t.kids|);
    assert t.kids[..|t.kids|] == t.kids;
  }

  /** Every row but the first shows a child of the node on an earlier row. */
  lemma {:induction false} ParentRow<N>(t: Tree<N>, depth: nat, j: nat) returns (p: nat, k: nat)
    requires 0 < j < Visible(t)
    ensures IsChildRow(Rows(t, depth), p, k, j)
    decreases t, 1
  {
    var q, m := ForestParent(t.kids, depth + 1, j - 1);
    p, k := q + 1, m;
  }

  /** As ParentRow, for a list of siblings; p == -1 says that row j is one of them. */
  lemma {:induction false} ForestParent<N>(ts: seq<Tree<N>>, depth: nat, j: nat) returns (p: int, k: nat)
    requires j < ForestVisible(ts)
    ensures -1 <= p
    ensures p == -1 ==> k < |ts| && j == Before(ts, k)
    ensures p >= 0 ==> IsChildRow(ForestRows(ts, depth), p, k, j)
    decreases ts, 0
  {
    var rest, last := ts[..|ts| - 1], ts[|ts| - 1];
    var front := |ForestRows(rest, depth)|;
    if j < front {
      p, k := ForestParent(rest, depth, j);
      assert p == -1 ==> rest[..k] == ts[..k];
    } else if j == front {
      p, k := -1, |ts| - 1;
    } else {
      p, k := ParentRow(last, depth, j - front);
      p := p + front;
    }
  }

  /** Whatever lies in the rows of a subtree, apart from its first row, hangs inside it. */
  lemma InnerParent<N>(t: Tree<N>, depth: nat, i: nat, j: nat) returns (p: nat, k: nat)
    requires i < Visible(t)
    requires i < j < i + Visible(Rows(t, depth)[i].tree)
    ensures j < Visible(t) && i <= p && IsChildRow(Rows(t, depth), p, k, j)
    ensures var rows := Rows(t, depth);
      j + Visible(rows[j].tree) <= i + Visible(rows[i].tree)
  {
    var row := Rows(t, depth)[i];
    p, k := ParentRow(row.tree, row.depth, j - i);
    SubtreeTogether(t, depth, i, j - i);
    SubtreeTogether(t, depth, i, p);
    SubtreeTogether(row.tree, row.depth, j - i, 0);
    p := i + p;
  }
}
