/** The problem being solved: an undirected graph on the nodes 1..n, given as
    the list of edges the program reads, and the size of its largest
    independent set (a set of nodes no two of which are joined by an edge). */
module Graph {

  /** One input line `u v`: an undirected edge between u and v. */
  type Edge = (int, int)

  /** std::max on the program's integers. */
  function Max(a: int, b: int): int
  {
    if a >= b then a else b
  }

  /** The integers lo..hi as a set; NodeSet(1, n) is the node set of the tree. */
  function NodeSet(lo: int, hi: int): (s: set<int>)
    ensures forall x :: x in s <==> lo <= x <= hi
    ensures |s| == if hi < lo then 0 else hi - lo + 1
    decreases hi - lo
  {
    if hi < lo then {} else NodeSet(lo, hi - 1) + {hi}
  }

  lemma SubsetCard(a: set<int>, b: set<int>)
    requires a <= b
    ensures |a| <= |b|
  {
    assert |b| == |a| + |b - a| by { assert b == a + (b - a); }
  }

  /** Every endpoint of every edge is a node id in 1..n. */
  predicate InRange(n: int, edges: seq<Edge>)
  {
    forall i :: 0 <= i < |edges| ==> 1 <= edges[i].0 <= n && 1 <= edges[i].1 <= n
  }

  /** No edge has both of its endpoints in s. */
  predicate IsIndependent(s: set<int>, edges: seq<Edge>)
  {
    forall i :: 0 <= i < |edges| ==> !(edges[i].0 in s && edges[i].1 in s)
  }

  /** k is the size of a largest independent set of nodes 1..n: some
      independent set has k nodes and none has more. */
  ghost predicate IsMaximumIndependentSize(n: int, edges: seq<Edge>, k: int)
  {
    && (exists s :: s <= NodeSet(1, n) && IsIndependent(s, edges) && |s| == k)
    && (forall s :: s <= NodeSet(1, n) && IsIndependent(s, edges) ==> |s| <= k)
  }

  /** The maximum is unique, and it lies between 0 and n. */
  lemma MaximumIsUnique(n: int, edges: seq<Edge>, k1: int, k2: int)
    requires IsMaximumIndependentSize(n, edges, k1)
    requires IsMaximumIndependentSize(n, edges, k2)
    ensures k1 == k2
  {
    var s1 :| s1 <= NodeSet(1, n) && IsIndependent(s1, edges) && |s1| == k1;
    var s2 :| s2 <= NodeSet(1, n) && IsIndependent(s2, edges) && |s2| == k2;
    assert k1 <= k2 && k2 <= k1;
  }

  lemma MaximumAtMostN(n: int, edges: seq<Edge>, k: int)
    requires n >= 0
    requires IsMaximumIndependentSize(n, edges, k)
    ensures 0 <= k <= n
  {
    var s :| s <= NodeSet(1, n) && IsIndependent(s, edges) && |s| == k;
    SubsetCard(s, NodeSet(1, n));
  }
}
