/** `main`: read the tree into adjacency lists, run `dfs(1, 0)` to fill the
    dp table, and report max(dp[1][0], dp[1][1]). Reading from standard
    input and writing to standard output are left out: the number of nodes
    and the edges are parameters, and the printed value is the result. */
module Solution {
  import opened Graph
  import opened Adjacency
  import opened RootedTree
  import opened TreeDp
  import opened Optimality
  import opened BruteForce

  /** The whole program on a tree with nodes 1..n given by its n-1 edges
      (r is a rooting at node 1 that shows the edges form a tree). The
      result is the size of a largest independent set of the tree, the same
      number an exhaustive search over all node subsets finds. */
  method Solve(n: int, edges: seq<Edge>, ghost r: Rooting) returns (answer: int)
    requires IsTreeEdges(n, edges, r)
    ensures IsMaximumIndependentSize(n, edges, answer)
    ensures answer == MaxIndependentSetSize(n, edges)
    ensures 1 <= answer <= n
  {
    TreeEdgesInRange(n, edges, r);
    var adj := BuildAdj(n, edges);
    var dp := new int[n + 1, 2];
    RootDpIsMaximum(n, edges, r);
    Dfs(adj, dp, 1, 0, adj[..], r);
    assert 1 in Subtree(adj[..], r, 1);
    answer := Max(dp[1, 0], dp[1, 1]);
    BruteForceIsMaximum(n, edges);
    MaximumIsUnique(n, edges, answer, MaxIndependentSetSize(n, edges));
    MaximumAtMostN(n, edges, answer);
  }
}
