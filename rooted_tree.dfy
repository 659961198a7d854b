/** What "the input is a tree" means. The program trusts its input to be a
    tree on nodes 1..n and walks it from node 1 with `dfs(1, 0)`, never
    checking for cycles. Here that trust is a precondition with a witness: a
    parent for every node other than the root, and a rank that strictly
    grows from child to parent (any tree has one: the height of each node's
    subtree). */
module RootedTree {
  import opened Graph
  import opened Adjacency

  /** par[v] is v's parent (par[1] == 0, the sentinel that `dfs(1, 0)`
      passes for the root); rank[v] < rank[par[v]]. */
  datatype Rooting = Rooting(par: seq<int>, rank: seq<nat>)

  /** r roots nodes 1..n at node 1: every other node has a parent among
      1..n of strictly larger rank, and node 1 has the largest rank. */
  ghost predicate IsRooting(n: int, r: Rooting)
  {
    && n >= 1 && |r.par| == n + 1 && |r.rank| == n + 1
    && r.par[1] == 0
    && (forall v {:trigger r.par[v]} :: 2 <= v <= n ==> 1 <= r.par[v] <= n && r.rank[v] < r.rank[r.par[v]])
    && (forall v :: 1 <= v <= n ==> r.rank[v] <= r.rank[1])
  }

  /** v is a child of u in the rooted tree. */
  predicate IsChild(r: Rooting, v: int, u: int)
  {
    2 <= v < |r.par| && r.par[v] == u
  }

  /** u and v are joined by a tree edge. */
  predicate TreeEdge(r: Rooting, u: int, v: int)
  {
    IsChild(r, v, u) || IsChild(r, u, v)
  }

  /** The input edge e joins some node to its parent. */
  predicate IsParentEdge(r: Rooting, e: Edge)
  {
    IsChild(r, e.0, e.1) || IsChild(r, e.1, e.0)
  }

  /** The child end of a parent edge. */
  function ChildEnd(r: Rooting, e: Edge): int
  {
    if IsChild(r, e.0, e.1) then e.0 else e.1
  }

  /** Every edge joins a node to its parent, and no node is the child end
      of two edges. */
  ghost predicate ParentEdges(r: Rooting, es: seq<Edge>)
  {
    && (forall i :: 0 <= i < |es| ==> IsParentEdge(r, es[i]))
    && (forall i, j :: 0 <= i < j < |es| ==> ChildEnd(r, es[i]) != ChildEnd(r, es[j]))
  }

  /** The n-1 input edges form the tree rooted by r. */
  ghost predicate IsTreeEdges(n: int, edges: seq<Edge>, r: Rooting)
  {
    IsRooting(n, r) && |edges| == n - 1 && ParentEdges(r, edges)
  }

  /** adj lists each tree neighbour of every node 1..n exactly once, and
      nothing else. */
  ghost predicate IsTreeAdj(adj: seq<seq<int>>, r: Rooting)
  {
    && IsRooting(|adj| - 1, r)
    && forall u, v {:trigger multiset(adj[u])[v]} :: 1 <= u < |adj| ==>
         multiset(adj[u])[v] == if TreeEdge(r, u, v) then 1 else 0
  }

  /** No set member's parent is in the set. */
  ghost predicate TreeIndependent(s: set<int>, r: Rooting)
  {
    forall v {:trigger r.par[v], v in s} :: v in s && 2 <= v < |r.par| ==> r.par[v] !in s
  }

  lemma NoMutualChildren(n: int, r: Rooting, u: int, v: int)
    requires IsRooting(n, r)
    ensures !(IsChild(r, v, u) && IsChild(r, u, v))
  {
  }

  lemma ParentEdgesPrefix(r: Rooting, es: seq<Edge>)
    requires es != [] && ParentEdges(r, es)
    ensures ParentEdges(r, es[..|es| - 1])
    ensures IsParentEdge(r, es[|es| - 1])
    ensures forall i :: 0 <= i < |es| - 1 ==> ChildEnd(r, es[i]) != ChildEnd(r, es[|es| - 1])
  {
    var init := es[..|es| - 1];
    forall i, j | 0 <= i < j < |init|
      ensures ChildEnd(r, init[i]) != ChildEnd(r, init[j])
    {
      assert init[i] == es[i] && init[j] == es[j];
    }
  }

  /** The edges of a tree rooted by r join nodes of 1..n, so the input
      loop only touches adj[1..n]. */
  lemma TreeEdgesInRange(n: int, edges: seq<Edge>, r: Rooting)
    requires IsTreeEdges(n, edges, r)
    ensures InRange(n, edges)
  {
    forall i | 0 <= i < |edges|
      ensures 1 <= edges[i].0 <= n && 1 <= edges[i].1 <= n
    {
      assert IsParentEdge(r, edges[i]);
    }
  }

  /** The child ends of the edges in es. */
  function ChildSet(r: Rooting, es: seq<Edge>): set<int>
  {
    if es == [] then {} else ChildSet(r, es[..|es| - 1]) + {ChildEnd(r, es[|es| - 1])}
  }

  lemma {:induction false} ChildSetMembers(r: Rooting, es: seq<Edge>, c: int)
    ensures c in ChildSet(r, es) <==> exists i :: 0 <= i < |es| && ChildEnd(r, es[i]) == c
    decreases |es|
  {
    if es != [] {
      var init := es[..|es| - 1];
      ChildSetMembers(r, init, c);
      if exists i :: 0 <= i < |es| && ChildEnd(r, es[i]) == c {
        var i :| 0 <= i < |es| && ChildEnd(r, es[i]) == c;
        if i < |init| {
          assert ChildEnd(r, init[i]) == c;
        }
      }
    }
  }

  /** n-1 parent edges with distinct child ends name n-1 distinct nodes of
      2..n. */
  lemma {:induction false} ChildSetCard(n: int, r: Rooting, es: seq<Edge>)
    requires IsRooting(n, r) && ParentEdges(r, es)
    ensures ChildSet(r, es) <= NodeSet(2, n)
    ensures |ChildSet(r, es)| == |es|
    decreases |es|
  {
    if es != [] {
      var init, e := es[..|es| - 1], es[|es| - 1];
      ParentEdgesPrefix(r, es);
      ChildSetCard(n, r, init);
      ChildSetMembers(r, init, ChildEnd(r, e));
      assert IsParentEdge(r, es[|es| - 1]);
    }
  }

  /** Pigeonhole: the n-1 edges of a tree reach every non-root node. */
  lemma EveryNodeHasParentEdge(n: int, edges: seq<Edge>, r: Rooting)
    requires IsTreeEdges(n, edges, r)
    ensures ChildSet(r, edges) == NodeSet(2, n)
  {
    var c, all := ChildSet(r, edges), NodeSet(2, n);
    ChildSetCard(n, r, edges);
    assert all == c + (all - c);
    assert |all - c| == 0;
  }

  /** For parent edges with distinct child ends, the edges joining u and v
      are the one edge of v if v is u's child, or of u if u is v's child. */
  lemma {:induction false} EdgeCountOfParentEdges(n: int, r: Rooting, es: seq<Edge>, u: int, v: int)
    requires IsRooting(n, r) && ParentEdges(r, es)
    ensures EdgeCount(es, u, v) ==
      if (IsChild(r, v, u) && v in ChildSet(r, es)) || (IsChild(r, u, v) && u in ChildSet(r, es)) then 1 else 0
    decreases |es|
  {
    if es != [] {
      var init, e := es[..|es| - 1], es[|es| - 1];
      ParentEdgesPrefix(r, es);
      EdgeCountOfParentEdges(n, r, init, u, v);
      ChildSetMembers(r, init, ChildEnd(r, e));
      assert IsParentEdge(r, es[|es| - 1]);
      NoMutualChildren(n, r, u, v);
      NoMutualChildren(n, r, e.0, e.1);
    }
  }

  /** The adjacency table the input loop builds from a tree's edges lists
      each node's tree neighbours exactly once. */
  lemma TreeAdjOfTreeEdges(n: int, edges: seq<Edge>, r: Rooting)
    requires IsTreeEdges(n, edges, r)
    ensures IsTreeAdj(AdjacencyOf(n, edges), r)
  {
    var adj := AdjacencyOf(n, edges);
    EveryNodeHasParentEdge(n, edges, r);
    forall u, v | 1 <= u < |adj|
      ensures multiset(adj[u])[v] == if TreeEdge(r, u, v) then 1 else 0
    {
      NeighbourCount(edges, u, v);
      EdgeCountOfParentEdges(n, r, edges, u, v);
      NoMutualChildren(n, r, u, v);
    }
  }

  /** On a tree, "no input edge has both ends in s" is "no member of s has
      its parent in s". */
  lemma IndependentIffTreeIndependent(n: int, edges: seq<Edge>, r: Rooting, s: set<int>)
    requires IsTreeEdges(n, edges, r)
    ensures IsIndependent(s, edges) <==> TreeIndependent(s, r)
  {
    if IsIndependent(s, edges) {
      EveryNodeHasParentEdge(n, edges, r);
      forall v | v in s && 2 <= v < |r.par|
        ensures r.par[v] !in s
      {
        ChildSetMembers(r, edges, v);
        var i :| 0 <= i < |edges| && ChildEnd(r, edges[i]) == v;
        assert IsParentEdge(r, edges[i]);
      }
    }
    if TreeIndependent(s, r) {
      forall i | 0 <= i < |edges|
        ensures !(edges[i].0 in s && edges[i].1 in s)
      {
        assert IsParentEdge(r, edges[i]);
      }
    }
  }
}
