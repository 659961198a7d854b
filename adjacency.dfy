/** The adjacency lists `adj[0..n]` that the input loop of `main` builds from
    the n-1 edges it reads: for every edge (u, v), v is appended to adj[u]
    and then u is appended to adj[v]. */
module Adjacency {
  import opened Graph

  /** What one edge appends to adj[u]. */
  function Incident(e: Edge, u: int): seq<int>
  {
    (if e.0 == u then [e.1] else []) + (if e.1 == u then [e.0] else [])
  }

  /** adj[u] once the loop has read `edges`, in push_back order. */
  function Neighbours(edges: seq<Edge>, u: int): seq<int>
  {
    if edges == [] then []
    else Neighbours(edges[..|edges| - 1], u) + Incident(edges[|edges| - 1], u)
  }

  /** The whole adjacency table for nodes 0..n. */
  function AdjacencyOf(n: nat, edges: seq<Edge>): (adj: seq<seq<int>>)
    ensures |adj| == n + 1
  {
    seq(n + 1, u => Neighbours(edges, u))
  }

  /** Edge e joins u and v (in either direction). */
  predicate Joins(e: Edge, u: int, v: int)
  {
    e == (u, v) || e == (v, u)
  }

  /** The number of input edges joining u and v. */
  function EdgeCount(edges: seq<Edge>, u: int, v: int): nat
  {
    if edges == [] then 0
    else EdgeCount(edges[..|edges| - 1], u, v) + (if Joins(edges[|edges| - 1], u, v) then 1 else 0)
  }

  /** v occurs in adj[u] once per edge joining them, and a self-loop (u, u)
      puts u into adj[u] twice. */
  lemma {:induction false} NeighbourCount(edges: seq<Edge>, u: int, v: int)
    ensures multiset(Neighbours(edges, u))[v] == (if u == v then 2 else 1) * EdgeCount(edges, u, v)
    decreases |edges|
  {
    if edges != [] {
      var init, e := edges[..|edges| - 1], edges[|edges| - 1];
      NeighbourCount(init, u, v);
      assert multiset(Neighbours(edges, u)) == multiset(Neighbours(init, u)) + multiset(Incident(e, u));
    }
  }

  lemma {:induction false} EdgeCountSymmetric(edges: seq<Edge>, u: int, v: int)
    ensures EdgeCount(edges, u, v) == EdgeCount(edges, v, u)
    decreases |edges|
  {
    if edges != [] {
      EdgeCountSymmetric(edges[..|edges| - 1], u, v);
    }
  }

  /** The adjacency is symmetric: v appears in adj[u] exactly as often as u
      appears in adj[v]. */
  lemma NeighboursSymmetric(edges: seq<Edge>, u: int, v: int)
    ensures multiset(Neighbours(edges, u))[v] == multiset(Neighbours(edges, v))[u]
    ensures v in Neighbours(edges, u) <==> u in Neighbours(edges, v)
  {
    NeighbourCount(edges, u, v);
    NeighbourCount(edges, v, u);
    EdgeCountSymmetric(edges, u, v);
  }

  /** v is in adj[u] exactly when some input edge joins u and v. */
  lemma {:induction false} NeighbourIffEdge(edges: seq<Edge>, u: int, v: int)
    ensures v in Neighbours(edges, u) <==> exists i :: 0 <= i < |edges| && Joins(edges[i], u, v)
    decreases |edges|
  {
    if edges != [] {
      var init, e := edges[..|edges| - 1], edges[|edges| - 1];
      NeighbourIffEdge(init, u, v);
      if v in Neighbours(edges, u) && v !in Neighbours(init, u) {
        assert Joins(edges[|edges| - 1], u, v);
      }
      if exists i :: 0 <= i < |edges| && Joins(edges[i], u, v) {
        var i :| 0 <= i < |edges| && Joins(edges[i], u, v);
        if i < |init| {
          assert Joins(init[i], u, v);
        }
      }
    }
  }

  /** The number of ends of the edges read that are u: the length of
      adj[u] (a self-loop counts twice). */
  function Degree(edges: seq<Edge>, u: int): nat
  {
    if edges == [] then 0
    else
      var e := edges[|edges| - 1];
      Degree(edges[..|edges| - 1], u) + (if e.0 == u then 1 else 0) + (if e.1 == u then 1 else 0)
  }

  lemma {:induction false} DegreeIsLength(edges: seq<Edge>, u: int)
    ensures |Neighbours(edges, u)| == Degree(edges, u)
    decreases |edges|
  {
    if edges != [] {
      DegreeIsLength(edges[..|edges| - 1], u);
    }
  }

  /** The degrees of nodes 0..m-1 added up. */
  function DegreeSum(edges: seq<Edge>, m: nat): nat
  {
    if m == 0 then 0 else DegreeSum(edges, m - 1) + Degree(edges, m - 1)
  }

  /** The number of ends of e among nodes 0..m-1. */
  function EndsBelow(e: Edge, m: int): nat
  {
    (if 0 <= e.0 < m then 1 else 0) + (if 0 <= e.1 < m then 1 else 0)
  }

  /** The last edge read adds its ends to the degree sum. */
  lemma {:induction false} DegreeSumLast(edges: seq<Edge>, m: nat)
    requires edges != []
    ensures DegreeSum(edges, m) == DegreeSum(edges[..|edges| - 1], m) + EndsBelow(edges[|edges| - 1], m)
  {
    if m > 0 {
      DegreeSumLast(edges, m - 1);
    }
  }

  lemma {:induction false} DegreeSumNoEdges(m: nat)
    ensures DegreeSum([], m) == 0
  {
    if m > 0 {
      DegreeSumNoEdges(m - 1);
    }
  }

  /** Every edge read with both ends in 0..n adds two to the degrees of
      nodes 0..n. */
  lemma {:induction false} DegreeSumTwiceEdges(n: nat, edges: seq<Edge>)
    requires InRange(n, edges)
    ensures DegreeSum(edges, n + 1) == 2 * |edges|
    decreases |edges|
  {
    if edges == [] {
      DegreeSumNoEdges(n + 1);
    } else {
      var init := edges[..|edges| - 1];
      assert InRange(n, init) by {
        forall i | 0 <= i < |init|
          ensures 1 <= init[i].0 <= n && 1 <= init[i].1 <= n
        {
          assert init[i] == edges[i];
        }
      }
      DegreeSumTwiceEdges(n, init);
      DegreeSumLast(edges, n + 1);
    }
  }

  /** The number of entries in adj[0..m-1]. */
  function EntryCount(adj: seq<seq<int>>, m: nat): nat
    requires m <= |adj|
  {
    if m == 0 then 0 else EntryCount(adj, m - 1) + |adj[m - 1]|
  }

  lemma {:induction false} EntryCountIsDegreeSum(n: nat, edges: seq<Edge>, m: nat)
    requires m <= n + 1
    ensures EntryCount(AdjacencyOf(n, edges), m) == DegreeSum(edges, m)
  {
    if m > 0 {
      EntryCountIsDegreeSum(n, edges, m - 1);
      DegreeIsLength(edges, m - 1);
    }
  }

  /** The lists adj[0..n] hold two entries per edge read, so the n-1 edges
      of a tree give 2(n-1) entries in all. */
  lemma Handshake(n: nat, edges: seq<Edge>)
    requires InRange(n, edges)
    ensures EntryCount(AdjacencyOf(n, edges), n + 1) == 2 * |edges|
  {
    EntryCountIsDegreeSum(n, edges, n + 1);
    DegreeSumTwiceEdges(n, edges);
  }

  /** The input loop of `main`: reads n-1 edges and appends each one to the
      lists of both of its endpoints. */
  method BuildAdj(n: int, edges: seq<Edge>) returns (adj: array<seq<int>>)
    requires n >= 1 && |edges| == n - 1 && InRange(n, edges)
    ensures fresh(adj)
    ensures adj[..] == AdjacencyOf(n, edges)
  {
    adj := new seq<int>[n + 1](_ => []);
    for i := 1 to n
      invariant adj.Length == n + 1
      invariant forall w :: 0 <= w <= n ==> adj[w] == Neighbours(edges[..i - 1], w)
    {
      var (u, v) := edges[i - 1];
      assert edges[..i] == edges[..i - 1] + [(u, v)];
      adj[u] := adj[u] + [v];
      adj[v] := adj[v] + [u];
    }
    assert edges[..n - 1] == edges;
  }
}
