/** The meaning the comments of `dfs` give to the two table entries: dp[u][0]
    is the size of a largest independent set of u's subtree that leaves u
    out, and dp[u][1] that of a largest one that takes u. Hence the printed
    max(dp[1][0], dp[1][1]) is the size of a largest independent set of the
    whole tree. */
module Optimality {
  import opened Graph
  import opened Adjacency
  import opened RootedTree
  import opened TreeDp

  // ---------------------------------------------------------------------
  // Shape of the subtrees

  lemma {:induction false} BelowGrows(adj: seq<seq<int>>, r: Rooting, u: int, i: nat, k: nat)
    requires IsTreeAdj(adj, r) && 1 <= u < |adj| && i <= k <= |adj[u]|
    ensures Below(adj, r, u, i) <= Below(adj, r, u, k)
    decreases k - i
  {
    if i < k {
      BelowGrows(adj, r, u, i, k - 1);
    }
  }

  /** Each child is in its parent's subtree. */
  lemma ChildInSubtree(adj: seq<seq<int>>, r: Rooting, u: int, v: int)
    requires IsTreeAdj(adj, r) && 1 <= u < |adj| && IsChild(r, v, u)
    ensures v in Subtree(adj, r, u)
  {
    assert multiset(adj[u])[v] == 1;
    var j :| 0 <= j < |adj[u]| && adj[u][j] == v;
    NeighbourIsParentOrChild(adj, r, u, j);
    BelowGrows(adj, r, u, j + 1, |adj[u]|);
  }

  /** The subtree of any node of u's subtree lies inside u's subtree. */
  lemma {:induction false} SubtreeWithin(adj: seq<seq<int>>, r: Rooting, u: int, x: int)
    requires IsTreeAdj(adj, r) && 1 <= u < |adj|
    requires x in Subtree(adj, r, u)
    ensures Subtree(adj, r, x) <= Subtree(adj, r, u)
    decreases r.rank[u], 1, 0
  {
    if x != u {
      BelowWithin(adj, r, u, |adj[u]|, x);
    }
  }

  lemma {:induction false} BelowWithin(adj: seq<seq<int>>, r: Rooting, u: int, i: nat, x: int)
    requires IsTreeAdj(adj, r) && 1 <= u < |adj| && i <= |adj[u]|
    requires x in Below(adj, r, u, i)
    ensures Subtree(adj, r, x) <= Below(adj, r, u, i)
    decreases r.rank[u], 0, i
  {
    var v := adj[u][i - 1];
    if x in Below(adj, r, u, i - 1) {
      BelowWithin(adj, r, u, i - 1, x);
    } else {
      NeighbourIsParentOrChild(adj, r, u, i - 1);
      SubtreeWithin(adj, r, v, x);
    }
  }

  /** The walk from the root reaches every node 1..n. */
  lemma {:induction false} InRootSubtree(adj: seq<seq<int>>, r: Rooting, w: int)
    requires IsTreeAdj(adj, r) && 1 <= w < |adj|
    ensures w in Subtree(adj, r, 1)
    decreases r.rank[1] - r.rank[w]
  {
    if w != 1 {
      var p := r.par[w];
      InRootSubtree(adj, r, p);
      ChildInSubtree(adj, r, p, w);
      SubtreeWithin(adj, r, 1, p);
    }
  }

  lemma RootSubtreeIsAllNodes(adj: seq<seq<int>>, r: Rooting)
    requires IsTreeAdj(adj, r)
    ensures Subtree(adj, r, 1) == NodeSet(1, |adj| - 1)
  {
    var walked, nodes := Subtree(adj, r, 1), NodeSet(1, |adj| - 1);
    forall w | w in nodes
      ensures w in walked
    {
      InRootSubtree(adj, r, w);
    }
    assert walked <= nodes;
  }

  // ---------------------------------------------------------------------
  // Upper bound: no independent set of u's subtree beats dp[u]

  /** An independent set inside u's subtree has at most dp[u][1] nodes if it
      takes u, and at most dp[u][0] if it does not. */
  lemma {:induction false} SubtreeBound(adj: seq<seq<int>>, r: Rooting, u: int, s: set<int>)
    requires IsTreeAdj(adj, r) && 1 <= u < |adj|
    requires s <= Subtree(adj, r, u) && TreeIndependent(s, r)
    ensures |s| <= if u in s then Dp(adj, r, u).incl else Dp(adj, r, u).excl
    decreases r.rank[u], 1, 0, 0
  {
    ScanBound(adj, r, u, |adj[u]|, s);
  }

  lemma {:induction false} ScanBound(adj: seq<seq<int>>, r: Rooting, u: int, i: nat, s: set<int>)
    requires IsTreeAdj(adj, r) && 1 <= u < |adj| && i <= |adj[u]|
    requires s <= {u} + Below(adj, r, u, i) && TreeIndependent(s, r)
    ensures |s| <= if u in s then Scan(adj, r, u, i).incl else Scan(adj, r, u, i).excl
    decreases r.rank[u], 0, i, 1
  {
    if i == 0 {
      if u in s {
        assert s == {u};
      } else {
        assert s == {};
      }
    } else if adj[u][i - 1] == r.par[u] {
      ScanBound(adj, r, u, i - 1, s);
    } else {
      ScanBoundChild(adj, r, u, i, s);
    }
  }

  /** The step of ScanBound for a child v = adj[u][i-1]: split s into its
      part in v's subtree and the rest. */
  lemma {:induction false} ScanBoundChild(adj: seq<seq<int>>, r: Rooting, u: int, i: nat, s: set<int>)
    requires IsTreeAdj(adj, r) && 1 <= u < |adj| && 0 < i <= |adj[u]| && adj[u][i - 1] != r.par[u]
    requires s <= {u} + Below(adj, r, u, i) && TreeIndependent(s, r)
    ensures |s| <= if u in s then Scan(adj, r, u, i).incl else Scan(adj, r, u, i).excl
    decreases r.rank[u], 0, i, 0
  {
    var v := adj[u][i - 1];
    NeighbourIsParentOrChild(adj, r, u, i - 1);
    assert IsChild(r, v, u);
    var sub := Subtree(adj, r, v);
    var prev, c := Scan(adj, r, u, i - 1), Dp(adj, r, v);
    assert Scan(adj, r, u, i) == Entry(prev.excl + Max(c.excl, c.incl), prev.incl + c.excl);
    assert Below(adj, r, u, i) == Below(adj, r, u, i - 1) + sub;
    assert u !in sub;
    var s1, s2 := s - sub, s * sub;
    Split(s, sub, r);
    ScanBound(adj, r, u, i - 1, s1);
    SubtreeBound(adj, r, v, s2);
    if u in s {
      assert u in s1 && v !in s2;
    } else {
      assert u !in s1;
    }
  }

  /** Both parts of an independent set are independent, and their sizes add up. */
  lemma Split(s: set<int>, sub: set<int>, r: Rooting)
    requires TreeIndependent(s, r)
    ensures TreeIndependent(s - sub, r) && TreeIndependent(s * sub, r)
    ensures |s| == |s - sub| + |s * sub|
  {
    assert s == (s - sub) + (s * sub);
  }

  // ---------------------------------------------------------------------
  // Achievability: sets of exactly the sizes in dp[u]

  /** The sets the recurrence describes: a largest independent set of u's
      subtree without u, and a largest one with u. */
  function Chosen(adj: seq<seq<int>>, r: Rooting, u: int): (set<int>, set<int>)
    requires IsTreeAdj(adj, r) && 1 <= u < |adj|
    decreases r.rank[u], 1, 0
  {
    var b := ChosenBelow(adj, r, u, |adj[u]|);
    (b.0, b.1 + {u})
  }

  /** For the children in adj[u][..i]: the union of each child's better set,
      and the union of each child's set without the child. */
  function ChosenBelow(adj: seq<seq<int>>, r: Rooting, u: int, i: nat): (set<int>, set<int>)
    requires IsTreeAdj(adj, r) && 1 <= u < |adj| && i <= |adj[u]|
    decreases r.rank[u], 0, i
  {
    if i == 0 then ({}, {})
    else
      var b, v := ChosenBelow(adj, r, u, i - 1), adj[u][i - 1];
      if v == r.par[u] then b
      else
        NeighbourIsParentOrChild(adj, r, u, i - 1);
        var c, e := Chosen(adj, r, v), Dp(adj, r, v);
        (b.0 + (if e.excl >= e.incl then c.0 else c.1), b.1 + c.0)
  }

  /** Joining an independent set of earlier children's subtrees with one of
      the next child's subtree keeps it independent, and the two share no
      node. */
  lemma JoinChild(adj: seq<seq<int>>, r: Rooting, u: int, i: int, a: set<int>, b: set<int>)
    requires IsTreeAdj(adj, r) && 1 <= u < |adj| && 0 <= i < |adj[u]|
    requires IsChild(r, adj[u][i], u)
    requires a <= Below(adj, r, u, i) && b <= Subtree(adj, r, adj[u][i])
    requires TreeIndependent(a, r) && TreeIndependent(b, r)
    ensures a !! b
    ensures TreeIndependent(a + b, r)
  {
    SubtreeDisjointFromBelow(adj, r, u, i, i);
  }

  /** The sets chosen for u lie in u's subtree, are independent, and
      leave u out or take it as the name says. */
  lemma {:induction false} ChosenShape(adj: seq<seq<int>>, r: Rooting, u: int)
    requires IsTreeAdj(adj, r) && 1 <= u < |adj|
    ensures var (x, y) := Chosen(adj, r, u);
      && x <= Subtree(adj, r, u) && u !in x && TreeIndependent(x, r)
      && y <= Subtree(adj, r, u) && u in y && TreeIndependent(y, r)
    decreases r.rank[u], 1, 0, 0
  {
    ChosenBelowShape(adj, r, u, |adj[u]|);
  }

  lemma {:induction false} ChosenBelowShape(adj: seq<seq<int>>, r: Rooting, u: int, i: nat)
    requires IsTreeAdj(adj, r) && 1 <= u < |adj| && i <= |adj[u]|
    ensures var (x, y) := ChosenBelow(adj, r, u, i);
      && x <= Below(adj, r, u, i) && TreeIndependent(x, r)
      && y <= Below(adj, r, u, i) && TreeIndependent(y, r)
      && (forall w :: w in y ==> r.par[w] != u)
    decreases r.rank[u], 0, i, 1
  {
    if i > 0 {
      if adj[u][i - 1] == r.par[u] {
        ChosenBelowShape(adj, r, u, i - 1);
      } else {
        ChosenBelowShapeChild(adj, r, u, i);
      }
    }
  }

  /** The step of ChosenBelowShape for a child v = adj[u][i-1]. */
  lemma {:induction false} ChosenBelowShapeChild(adj: seq<seq<int>>, r: Rooting, u: int, i: nat)
    requires IsTreeAdj(adj, r) && 1 <= u < |adj| && 0 < i <= |adj[u]| && adj[u][i - 1] != r.par[u]
    ensures var (x, y) := ChosenBelow(adj, r, u, i);
      && x <= Below(adj, r, u, i) && TreeIndependent(x, r)
      && y <= Below(adj, r, u, i) && TreeIndependent(y, r)
      && (forall w :: w in y ==> r.par[w] != u)
    decreases r.rank[u], 0, i, 0
  {
    var v := adj[u][i - 1];
    NeighbourIsParentOrChild(adj, r, u, i - 1);
    ChosenBelowShape(adj, r, u, i - 1);
    ChosenShape(adj, r, v);
    var b, c := ChosenBelow(adj, r, u, i - 1), Chosen(adj, r, v);
    ChosenBelowStep(adj, r, u, i);
    JoinShapes(adj, r, u, i - 1, b.0, b.1, c.0, c.1);
  }

  /** What one child adds to the sets built for the children before it. */
  lemma ChosenBelowStep(adj: seq<seq<int>>, r: Rooting, u: int, i: nat)
    requires IsTreeAdj(adj, r) && 1 <= u < |adj| && 0 < i <= |adj[u]| && adj[u][i - 1] != r.par[u]
    ensures IsChild(r, adj[u][i - 1], u)
    ensures var (b, c, e) := (ChosenBelow(adj, r, u, i - 1), Chosen(adj, r, adj[u][i - 1]), Dp(adj, r, adj[u][i - 1]));
      ChosenBelow(adj, r, u, i) == (b.0 + (if e.excl >= e.incl then c.0 else c.1), b.1 + c.0)
  {
    NeighbourIsParentOrChild(adj, r, u, i - 1);
  }

  /** The set part of ChosenBelowShapeChild: x and y, built for the
      children before v = adj[u][i], joined with c0 (v left out) or c1
      (v taken), built for v. */
  lemma JoinShapes(adj: seq<seq<int>>, r: Rooting, u: int, i: int, x: set<int>, y: set<int>, c0: set<int>, c1: set<int>)
    requires IsTreeAdj(adj, r) && 1 <= u < |adj| && 0 <= i < |adj[u]| && IsChild(r, adj[u][i], u)
    requires x <= Below(adj, r, u, i) && TreeIndependent(x, r)
    requires y <= Below(adj, r, u, i) && TreeIndependent(y, r) && forall w :: w in y ==> r.par[w] != u
    requires c0 <= Subtree(adj, r, adj[u][i]) && TreeIndependent(c0, r) && adj[u][i] !in c0
    requires c1 <= Subtree(adj, r, adj[u][i]) && TreeIndependent(c1, r)
    ensures x + c0 <= Below(adj, r, u, i + 1) && TreeIndependent(x + c0, r)
    ensures x + c1 <= Below(adj, r, u, i + 1) && TreeIndependent(x + c1, r)
    ensures y + c0 <= Below(adj, r, u, i + 1) && TreeIndependent(y + c0, r)
    ensures forall w :: w in y + c0 ==> r.par[w] != u
  {
    var v := adj[u][i];
    BelowStep(adj, r, u, i);
    JoinChild(adj, r, u, i, x, c0);
    JoinChild(adj, r, u, i, x, c1);
    JoinChild(adj, r, u, i, y, c0);
    forall w | w in c0
      ensures r.par[w] != u
    {
      assert w != v;
    }
  }

  /** The sets chosen for the children before adj[u][i] share no node with
      those chosen for the child at adj[u][i]. */
  lemma ChosenDisjoint(adj: seq<seq<int>>, r: Rooting, u: int, i: int)
    requires IsTreeAdj(adj, r) && 1 <= u < |adj| && 0 <= i < |adj[u]| && IsChild(r, adj[u][i], u)
    ensures var (b, c) := (ChosenBelow(adj, r, u, i), Chosen(adj, r, adj[u][i]));
      b.0 !! c.0 && b.0 !! c.1 && b.1 !! c.0
  {
    var v := adj[u][i];
    ChosenBelowShape(adj, r, u, i);
    ChosenShape(adj, r, v);
    SubtreeDisjointFromBelow(adj, r, u, i, i);
  }

  /** The sets chosen for u have the sizes dp[u] holds. */
  lemma {:induction false} ChosenSize(adj: seq<seq<int>>, r: Rooting, u: int)
    requires IsTreeAdj(adj, r) && 1 <= u < |adj|
    ensures |Chosen(adj, r, u).0| == Dp(adj, r, u).excl
    ensures |Chosen(adj, r, u).1| == Dp(adj, r, u).incl
    decreases r.rank[u], 1, 0, 0
  {
    ChosenBelowSize(adj, r, u, |adj[u]|);
    ChosenBelowShape(adj, r, u, |adj[u]|);
    assert u !in ChosenBelow(adj, r, u, |adj[u]|).1;
  }

  lemma {:induction false} ChosenBelowSize(adj: seq<seq<int>>, r: Rooting, u: int, i: nat)
    requires IsTreeAdj(adj, r) && 1 <= u < |adj| && i <= |adj[u]|
    ensures |ChosenBelow(adj, r, u, i).0| == Scan(adj, r, u, i).excl
    ensures |ChosenBelow(adj, r, u, i).1| == Scan(adj, r, u, i).incl - 1
    decreases r.rank[u], 0, i, 1
  {
    if i > 0 {
      if adj[u][i - 1] == r.par[u] {
        ChosenBelowSize(adj, r, u, i - 1);
      } else {
        ChosenBelowSizeChild(adj, r, u, i);
      }
    }
  }

  /** The step of ChosenBelowSize for a child v = adj[u][i-1]. */
  lemma {:induction false} ChosenBelowSizeChild(adj: seq<seq<int>>, r: Rooting, u: int, i: nat)
    requires IsTreeAdj(adj, r) && 1 <= u < |adj| && 0 < i <= |adj[u]| && adj[u][i - 1] != r.par[u]
    ensures |ChosenBelow(adj, r, u, i).0| == Scan(adj, r, u, i).excl
    ensures |ChosenBelow(adj, r, u, i).1| == Scan(adj, r, u, i).incl - 1
    decreases r.rank[u], 0, i, 0
  {
    var v := adj[u][i - 1];
    ChosenBelowStep(adj, r, u, i);
    ScanStep(adj, r, u, i);
    ChosenBelowSize(adj, r, u, i - 1);
    ChosenSize(adj, r, v);
    ChosenDisjoint(adj, r, u, i - 1);
    var b, c, e, w := ChosenBelow(adj, r, u, i - 1), Chosen(adj, r, v), Dp(adj, r, v), Scan(adj, r, u, i - 1);
    JoinSizes(b.0, b.1, c.0, c.1, w.excl, w.incl, e.excl, e.incl);
  }

  /** The size part of ChosenBelowSizeChild: disjoint sets of the sizes
      held in the row and in dp[v] join into sets of the new row's sizes. */
  lemma JoinSizes(x: set<int>, y: set<int>, c0: set<int>, c1: set<int>, excl: int, incl: int, vExcl: int, vIncl: int)
    requires x !! c0 && x !! c1 && y !! c0
    requires |x| == excl && |y| == incl - 1 && |c0| == vExcl && |c1| == vIncl
    ensures |x + (if vExcl >= vIncl then c0 else c1)| == excl + Max(vExcl, vIncl)
    ensures |y + c0| == incl + vExcl - 1
  {
  }

  /** Every entry dfs leaves in dp[u] counts nodes of u's subtree, so it
      is at most the size of that subtree, itself at most n. */
  lemma DpAtMostSubtree(adj: seq<seq<int>>, r: Rooting, u: int)
    requires IsTreeAdj(adj, r) && 1 <= u < |adj|
    ensures 0 <= Dp(adj, r, u).excl < |Subtree(adj, r, u)| <= |adj| - 1
    ensures 1 <= Dp(adj, r, u).incl <= |Subtree(adj, r, u)|
  {
    var sub := Subtree(adj, r, u);
    ChosenShape(adj, r, u);
    ChosenSize(adj, r, u);
    SubsetCard(Chosen(adj, r, u).0, sub - {u});
    SubsetCard(Chosen(adj, r, u).1, sub);
    SubsetCard(sub, NodeSet(1, |adj| - 1));
  }

  // ---------------------------------------------------------------------
  // The answer

  /** max(dp[1][0], dp[1][1]) for the adjacency built from a tree's edges
      is the size of a largest independent set of that tree. */
  lemma RootDpIsMaximum(n: int, edges: seq<Edge>, r: Rooting)
    requires IsTreeEdges(n, edges, r)
    ensures IsTreeAdj(AdjacencyOf(n, edges), r)
    ensures IsMaximumIndependentSize(n, edges,
      Max(Dp(AdjacencyOf(n, edges), r, 1).excl, Dp(AdjacencyOf(n, edges), r, 1).incl))
  {
    var adj := AdjacencyOf(n, edges);
    TreeAdjOfTreeEdges(n, edges, r);
    var e := Dp(adj, r, 1);
    var k := Max(e.excl, e.incl);
    RootSubtreeIsAllNodes(adj, r);
    ChosenShape(adj, r, 1);
    ChosenSize(adj, r, 1);
    var (x, y) := Chosen(adj, r, 1);
    var best := if e.excl >= e.incl then x else y;
    IndependentIffTreeIndependent(n, edges, r, best);
    assert best <= NodeSet(1, n) && IsIndependent(best, edges) && |best| == k;
    forall s | s <= NodeSet(1, n) && IsIndependent(s, edges)
      ensures |s| <= k
    {
      IndependentIffTreeIndependent(n, edges, r, s);
      SubtreeBound(adj, r, 1, s);
    }
  }
}
