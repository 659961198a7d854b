/** An independent reference for the answer: a largest independent set
    found by trying every subset of 1..n, node by node. It knows nothing
    about trees, roots or the dp table. */
module BruteForce {
  import opened Graph

  /** A largest set among all ways of deciding nodes k..n, given that the
      nodes of 1..k-1 taken so far are `chosen`. A complete choice counts
      when it is independent and is replaced by the empty set otherwise. */
  function BestSet(n: int, edges: seq<Edge>, k: int, chosen: set<int>): set<int>
    decreases n + 1 - k
  {
    if k > n then (if IsIndependent(chosen, edges) then chosen else {})
    else
      var without, with := BestSet(n, edges, k + 1, chosen), BestSet(n, edges, k + 1, chosen + {k});
      if |without| >= |with| then without else with
  }

  /** The size of a largest independent set of nodes 1..n, by search. */
  function MaxIndependentSetSize(n: int, edges: seq<Edge>): int
  {
    |BestSet(n, edges, 1, {})|
  }

  /** The search returns an independent set of nodes 1..n. */
  lemma {:induction false} BestSetIndependent(n: int, edges: seq<Edge>, k: int, chosen: set<int>)
    requires 1 <= k <= n + 1 && chosen <= NodeSet(1, k - 1)
    ensures BestSet(n, edges, k, chosen) <= NodeSet(1, n)
    ensures IsIndependent(BestSet(n, edges, k, chosen), edges)
    decreases n + 1 - k
  {
    if k <= n {
      BestSetIndependent(n, edges, k + 1, chosen);
      BestSetIndependent(n, edges, k + 1, chosen + {k});
    }
  }

  /** Deciding node k keeps the larger of the two completions. */
  lemma BestSetStep(n: int, edges: seq<Edge>, k: int, chosen: set<int>)
    requires k <= n
    ensures |BestSet(n, edges, k, chosen)| >= |BestSet(n, edges, k + 1, chosen)|
    ensures |BestSet(n, edges, k, chosen)| >= |BestSet(n, edges, k + 1, chosen + {k})|
  {
  }

  /** The part of s in 1..k is its part in 1..k-1, plus k when s has it. */
  lemma PrefixStep(s: set<int>, k: int)
    requires 1 <= k
    ensures s * NodeSet(1, k) == if k in s then s * NodeSet(1, k - 1) + {k} else s * NodeSet(1, k - 1)
  {
  }

  /** No independent set that agrees with `chosen` on 1..k-1 is larger than
      what the search returns. */
  lemma {:induction false} BestSetLargest(n: int, edges: seq<Edge>, k: int, chosen: set<int>, s: set<int>)
    requires 1 <= k <= n + 1
    requires s <= NodeSet(1, n) && IsIndependent(s, edges)
    requires chosen == s * NodeSet(1, k - 1)
    ensures |s| <= |BestSet(n, edges, k, chosen)|
    decreases n + 1 - k
  {
    if k > n {
      assert chosen == s;
    } else {
      BestSetStep(n, edges, k, chosen);
      PrefixStep(s, k);
      BestSetLargest(n, edges, k + 1, s * NodeSet(1, k), s);
    }
  }

  /** The search finds the largest independent set size. */
  lemma BruteForceIsMaximum(n: int, edges: seq<Edge>)
    requires n >= 0
    ensures IsMaximumIndependentSize(n, edges, MaxIndependentSetSize(n, edges))
  {
    BestSetIndependent(n, edges, 1, {});
    forall s | s <= NodeSet(1, n) && IsIndependent(s, edges)
      ensures |s| <= MaxIndependentSetSize(n, edges)
    {
      assert s * NodeSet(1, 0) == {};
      BestSetLargest(n, edges, 1, {}, s);
    }
  }
}
