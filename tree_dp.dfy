/** The include/exclude dynamic programme of `dfs(u, parent)`: a post-order
    walk from the root that, for every node u, stores in dp[u][0] the best
    set size in u's subtree with u left out and in dp[u][1] the best with u
    taken. The functions below say what the walk computes; `Dfs` is the walk
    itself, over the arrays `adj` and `dp`. */
module TreeDp {
  import opened Graph
  import opened RootedTree

  /** One row of the table: dp[u][0] (u excluded) and dp[u][1] (u included). */
  datatype Entry = Entry(excl: int, incl: int)

  /** Every neighbour of u in adj is u's parent or one of u's children. */
  lemma NeighbourIsParentOrChild(adj: seq<seq<int>>, r: Rooting, u: int, i: int)
    requires IsTreeAdj(adj, r) && 1 <= u < |adj| && 0 <= i < |adj[u]|
    ensures adj[u][i] == r.par[u] || IsChild(r, adj[u][i], u)
  {
    assert multiset(adj[u])[adj[u][i]] > 0;
  }

  /** A neighbour is listed once, so it does not occur before its position. */
  lemma NeighbourNotRepeated(adj: seq<seq<int>>, r: Rooting, u: int, i: int)
    requires IsTreeAdj(adj, r) && 1 <= u < |adj| && 0 <= i < |adj[u]|
    ensures adj[u][i] !in adj[u][..i]
  {
    var s, v := adj[u], adj[u][i];
    assert s == s[..i] + [v] + s[i + 1..];
    assert multiset(s)[v] == multiset(s[..i])[v] + 1 + multiset(s[i + 1..])[v];
  }

  /** The row dfs(u, par[u]) leaves in dp[u]. */
  function Dp(adj: seq<seq<int>>, r: Rooting, u: int): (e: Entry)
    requires IsTreeAdj(adj, r) && 1 <= u < |adj|
    ensures 0 <= e.excl && 1 <= e.incl <= e.excl + 1
    decreases r.rank[u], 1, 0
  {
    Scan(adj, r, u, |adj[u]|)
  }

  /** dp[u] after the loop of dfs(u, par[u]) has gone through adj[u][..i]:
      it starts at (0, 1), skips the parent, and for each child v adds
      max(dp[v][0], dp[v][1]) to the first entry and dp[v][0] to the second. */
  function Scan(adj: seq<seq<int>>, r: Rooting, u: int, i: nat): (e: Entry)
    requires IsTreeAdj(adj, r) && 1 <= u < |adj| && i <= |adj[u]|
    ensures 0 <= e.excl && 1 <= e.incl <= e.excl + 1
    decreases r.rank[u], 0, i
  {
    if i == 0 then Entry(0, 1)
    else
      var e, v := Scan(adj, r, u, i - 1), adj[u][i - 1];
      if v == r.par[u] then e
      else
        NeighbourIsParentOrChild(adj, r, u, i - 1);
        var c := Dp(adj, r, v);
        Entry(e.excl + Max(c.excl, c.incl), e.incl + c.excl)
  }

  /** The row after a child v = adj[u][i-1]: the row before it plus
      max(dp[v][0], dp[v][1]) and dp[v][0]. */
  lemma ScanStep(adj: seq<seq<int>>, r: Rooting, u: int, i: nat)
    requires IsTreeAdj(adj, r) && 1 <= u < |adj| && 0 < i <= |adj[u]| && adj[u][i - 1] != r.par[u]
    ensures IsChild(r, adj[u][i - 1], u)
    ensures var (e, c) := (Scan(adj, r, u, i - 1), Dp(adj, r, adj[u][i - 1]));
      Scan(adj, r, u, i) == Entry(e.excl + Max(c.excl, c.incl), e.incl + c.excl)
  {
    NeighbourIsParentOrChild(adj, r, u, i - 1);
  }

  /** The nodes dfs(u, par[u]) visits: u and everything below it. Each of
      them other than u has its parent in the set, and none outranks u. */
  function Subtree(adj: seq<seq<int>>, r: Rooting, u: int): (s: set<int>)
    requires IsTreeAdj(adj, r) && 1 <= u < |adj|
    ensures u in s
    ensures forall w :: w in s ==> 1 <= w < |adj| && r.rank[w] <= r.rank[u]
    ensures forall w {:trigger r.par[w], w in s} :: w in s && w != u ==> 2 <= w < |adj| && r.par[w] in s
    decreases r.rank[u], 1, 0
  {
    {u} + Below(adj, r, u, |adj[u]|)
  }

  /** The subtrees of the children of u listed in adj[u][..i]. */
  function Below(adj: seq<seq<int>>, r: Rooting, u: int, i: nat): (s: set<int>)
    requires IsTreeAdj(adj, r) && 1 <= u < |adj| && i <= |adj[u]|
    ensures forall w :: w in s ==> 2 <= w < |adj| && r.rank[w] < r.rank[u]
    ensures forall w {:trigger r.par[w], w in s} :: w in s ==> r.par[w] == u || r.par[w] in s
    decreases r.rank[u], 0, i
  {
    if i == 0 then {}
    else
      var v := adj[u][i - 1];
      NeighbourIsParentOrChild(adj, r, u, i - 1);
      Below(adj, r, u, i - 1) + (if v == r.par[u] then {} else Subtree(adj, r, v))
  }

  /** The subtrees of two different children of one node share no node. */
  lemma {:induction false} SiblingSubtreesDisjoint(adj: seq<seq<int>>, r: Rooting, u: int, v1: int, v2: int, w: int)
    requires IsTreeAdj(adj, r) && IsChild(r, v1, u) && IsChild(r, v2, u) && v1 != v2
    requires w in Subtree(adj, r, v1)
    ensures w !in Subtree(adj, r, v2)
    decreases r.rank[v1] - r.rank[w]
  {
    if w != v1 && w != v2 {
      SiblingSubtreesDisjoint(adj, r, u, v1, v2, r.par[w]);
    }
  }

  /** The subtree of the child at adj[u][i] shares no node with the subtrees
      of the children listed before it. */
  lemma {:induction false} SubtreeDisjointFromBelow(adj: seq<seq<int>>, r: Rooting, u: int, i: int, j: nat)
    requires IsTreeAdj(adj, r) && 1 <= u < |adj| && j <= i < |adj[u]|
    requires IsChild(r, adj[u][i], u)
    ensures Subtree(adj, r, adj[u][i]) !! Below(adj, r, u, j)
    decreases j
  {
    if j > 0 {
      SubtreeDisjointFromBelow(adj, r, u, i, j - 1);
      var v, v' := adj[u][i], adj[u][j - 1];
      if v' != r.par[u] {
        NeighbourIsParentOrChild(adj, r, u, j - 1);
        NeighbourNotRepeated(adj, r, u, i);
        assert adj[u][..i][j - 1] == v';
        forall w | w in Subtree(adj, r, v)
          ensures w !in Subtree(adj, r, v')
        {
          SiblingSubtreesDisjoint(adj, r, u, v, v', w);
        }
      }
    }
  }

  /** What one more entry of adj[u] adds to Below: nothing for the parent,
      and for a child v its subtree, which holds neither u nor any node of
      the earlier children's subtrees. */
  lemma BelowStep(adj: seq<seq<int>>, r: Rooting, u: int, i: int)
    requires IsTreeAdj(adj, r) && 1 <= u < |adj| && 0 <= i < |adj[u]|
    ensures adj[u][i] == r.par[u] ==> Below(adj, r, u, i + 1) == Below(adj, r, u, i)
    ensures adj[u][i] != r.par[u] ==>
      && IsChild(r, adj[u][i], u)
      && Below(adj, r, u, i + 1) == Below(adj, r, u, i) + Subtree(adj, r, adj[u][i])
      && u !in Subtree(adj, r, adj[u][i])
      && Subtree(adj, r, adj[u][i]) !! Below(adj, r, u, i)
  {
    NeighbourIsParentOrChild(adj, r, u, i);
    if adj[u][i] != r.par[u] {
      SubtreeDisjointFromBelow(adj, r, u, i, i);
    }
  }

  /** `dfs(u, parent)`: fills dp[w] for every node w of u's subtree with the
      row the recurrence gives, children before parents, and leaves every
      other row as it was. `adj` is only read; g names its contents. */
  method Dfs(adj: array<seq<int>>, dp: array2<int>, u: int, parent: int, ghost g: seq<seq<int>>, ghost r: Rooting)
    requires adj[..] == g && IsTreeAdj(g, r)
    requires dp.Length0 == adj.Length && dp.Length1 == 2
    requires 1 <= u < adj.Length && parent == r.par[u]
    modifies dp
    ensures forall w :: w in Subtree(g, r, u) ==>
      dp[w, 0] == Dp(g, r, w).excl && dp[w, 1] == Dp(g, r, w).incl
    ensures forall w, k :: 0 <= w < dp.Length0 && 0 <= k < 2 && w !in Subtree(g, r, u) ==>
      dp[w, k] == old(dp[w, k])
    decreases r.rank[u]
  {
    dp[u, 0] := 0;  // exclude u
    dp[u, 1] := 1;  // include u
    for i := 0 to |adj[u]|
      invariant dp[u, 0] == Scan(g, r, u, i).excl && dp[u, 1] == Scan(g, r, u, i).incl
      invariant forall w :: w in Below(g, r, u, i) ==>
        dp[w, 0] == Dp(g, r, w).excl && dp[w, 1] == Dp(g, r, w).incl
      invariant forall w, k :: 0 <= w < dp.Length0 && 0 <= k < 2 && w != u && w !in Below(g, r, u, i) ==>
        dp[w, k] == old(dp[w, k])
    {
      var v := adj[u][i];
      BelowStep(g, r, u, i);
      if v == parent {
        continue;
      }
      Dfs(adj, dp, v, u, g, r);
      dp[u, 1] := dp[u, 1] + dp[v, 0];
      dp[u, 0] := dp[u, 0] + Max(dp[v, 0], dp[v, 1]);
    }
  }

  // ---------------------------------------------------------------------
  // The recurrence as sums over the children

  /** The children of u among adj[u][..i], in adjacency order: the
      neighbours the loop does not skip. */
  function ChildrenIn(adj: seq<seq<int>>, r: Rooting, u: int, i: nat): (cs: seq<int>)
    requires IsTreeAdj(adj, r) && 1 <= u < |adj| && i <= |adj[u]|
    ensures forall k :: 0 <= k < |cs| ==> IsChild(r, cs[k], u)
  {
    if i == 0 then []
    else
      var cs, v := ChildrenIn(adj, r, u, i - 1), adj[u][i - 1];
      if v == r.par[u] then cs
      else
        NeighbourIsParentOrChild(adj, r, u, i - 1);
        cs + [v]
  }

  /** All the children of u. */
  function Children(adj: seq<seq<int>>, r: Rooting, u: int): seq<int>
    requires IsTreeAdj(adj, r) && 1 <= u < |adj|
  {
    ChildrenIn(adj, r, u, |adj[u]|)
  }

  /** The sum of dp[v][0] over the nodes v of cs. */
  function SumExcl(adj: seq<seq<int>>, r: Rooting, cs: seq<int>): int
    requires IsTreeAdj(adj, r) && forall k :: 0 <= k < |cs| ==> 1 <= cs[k] < |adj|
  {
    if cs == [] then 0
    else SumExcl(adj, r, cs[..|cs| - 1]) + Dp(adj, r, cs[|cs| - 1]).excl
  }

  /** The sum of max(dp[v][0], dp[v][1]) over the nodes v of cs. */
  function SumBest(adj: seq<seq<int>>, r: Rooting, cs: seq<int>): int
    requires IsTreeAdj(adj, r) && forall k :: 0 <= k < |cs| ==> 1 <= cs[k] < |adj|
  {
    if cs == [] then 0
    else
      var e := Dp(adj, r, cs[|cs| - 1]);
      SumBest(adj, r, cs[..|cs| - 1]) + Max(e.excl, e.incl)
  }

  /** The loop over adj[u][..i] sums over the children it has passed. */
  lemma {:induction false} ScanIsChildSums(adj: seq<seq<int>>, r: Rooting, u: int, i: nat)
    requires IsTreeAdj(adj, r) && 1 <= u < |adj| && i <= |adj[u]|
    ensures Scan(adj, r, u, i).excl == SumBest(adj, r, ChildrenIn(adj, r, u, i))
    ensures Scan(adj, r, u, i).incl == 1 + SumExcl(adj, r, ChildrenIn(adj, r, u, i))
  {
    if i > 0 {
      ScanIsChildSums(adj, r, u, i - 1);
      var cs, v := ChildrenIn(adj, r, u, i - 1), adj[u][i - 1];
      if v != r.par[u] {
        assert (cs + [v])[..|cs|] == cs;
      }
    }
  }

  /** A node other than u's parent occurs among the children passed as
      often as among the neighbours passed. */
  lemma {:induction false} ChildrenInCount(adj: seq<seq<int>>, r: Rooting, u: int, i: nat, v: int)
    requires IsTreeAdj(adj, r) && 1 <= u < |adj| && i <= |adj[u]| && v != r.par[u]
    ensures multiset(ChildrenIn(adj, r, u, i))[v] == multiset(adj[u][..i])[v]
  {
    if i > 0 {
      ChildrenInCount(adj, r, u, i - 1, v);
      PrefixCount(adj[u], i, v);
      var cs, w := ChildrenIn(adj, r, u, i - 1), adj[u][i - 1];
      if w != r.par[u] {
        assert multiset(cs + [w]) == multiset(cs) + multiset{w};
      }
    }
  }

  /** Extending a prefix by one element counts that element once more. */
  lemma PrefixCount(s: seq<int>, i: int, v: int)
    requires 0 < i <= |s|
    ensures multiset(s[..i])[v] == multiset(s[..i - 1])[v] + if s[i - 1] == v then 1 else 0
  {
    assert s[..i] == s[..i - 1] + [s[i - 1]];
  }

  /** dp[u][1] is 1 plus the sum of dp[v][0] over the children v of u, and
      dp[u][0] the sum of max(dp[v][0], dp[v][1]); each child of u is
      counted exactly once, and nothing else is. */
  lemma DpIsChildSums(adj: seq<seq<int>>, r: Rooting, u: int)
    requires IsTreeAdj(adj, r) && 1 <= u < |adj|
    ensures Dp(adj, r, u).incl == 1 + SumExcl(adj, r, Children(adj, r, u))
    ensures Dp(adj, r, u).excl == SumBest(adj, r, Children(adj, r, u))
    ensures forall v :: multiset(Children(adj, r, u))[v] == if IsChild(r, v, u) then 1 else 0
  {
    ScanIsChildSums(adj, r, u, |adj[u]|);
    forall v
      ensures multiset(Children(adj, r, u))[v] == if IsChild(r, v, u) then 1 else 0
    {
      if v == r.par[u] {
        assert v !in Children(adj, r, u);
      } else {
        ChildrenInCount(adj, r, u, |adj[u]|, v);
        assert adj[u][..|adj[u]|] == adj[u];
      }
    }
  }
}
