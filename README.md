# Maximum independent set on a tree

This project models `editorials/max-independent-set-on-trees/solution.cpp`. The program:

- reads a tree on nodes `1..n` as `n-1` undirected edges;
- stores the edges as adjacency lists (`adj`);
- runs the include/exclude dynamic programme `dfs(1, 0)`, which fills `dp[u][0]` (best set size in u's subtree with u left out) and `dp[u][1]` (best with u taken);
- prints `max(dp[1][0], dp[1][1])`, the size of a largest set of nodes no two of which are joined by an edge.

The model keeps the program's imperative shape:

- `adj` is an `array<seq<int>>` of size `n+1`, built by a loop that appends to both ends of each edge (`Adjacency.BuildAdj`).
- `dp` is an `array2<int>` of size `(n+1) x 2`, filled in place by the recursive method `TreeDp.Dfs`, whose loop runs over `adj[u]` and skips the parent.
- `Solution.Solve` is `main` without its input and output: it builds `adj`, allocates `dp`, calls `Dfs(1, 0)` and returns the maximum of the root's two entries.

The program does not check that its input is a tree. In the model that trust is a precondition with a ghost witness `Rooting(par, rank)`:

- a parent for every node `2..n`, with `par[1] == 0` (the sentinel that `dfs(1, 0)` passes);
- a rank that strictly grows from child to parent;
- the edges are exactly the `n-1` child/parent pairs.

The witness is also what the recursion of `dfs` decreases on.

The properties proved:

- the adjacency lists are symmetric and hold `2(n-1)` entries;
- on a tree, every list holds exactly the node's tree neighbours, each once;
- `Dfs` leaves in `dp[w]`, for every node w of u's subtree, the row the recurrence defines (`TreeDp.Dp`), and changes no other row;
- that row is `1 + sum of dp[v][0]` and `sum of max(dp[v][0], dp[v][1])` over the children v of w, with `dp[w][0] >= 0` and `dp[w][1] >= 1`;
- the two entries are the sizes of the largest independent sets of the subtree that leave out, respectively take, its root (an upper bound for every independent set and a set that reaches it);
- hence the answer is the maximum independent set size of the tree, lies in `1..n`, and equals the value found by an exhaustive search over all subsets of `1..n` (`BruteForce`).

The program has no node weights: every node taken adds 1 to the count.

## Model

| member | source | states |
|---|---|---|
| Adjacency.BuildAdj | editorials/max-independent-set-on-trees/solution.cpp:26-31 | after reading the n-1 edges, each adj[u] is the list of u's neighbours in reading order, v appended to adj[u] and u to adj[v] for each edge (u, v) |
| Adjacency.NeighbourCount | editorials/max-independent-set-on-trees/solution.cpp:29-30 | v occurs in adj[u] once for every edge joining u and v (twice per self-loop) |
| Adjacency.EdgeCountSymmetric | editorials/max-independent-set-on-trees/solution.cpp:29-30 | the edges joining u and v are the edges joining v and u |
| Adjacency.NeighboursSymmetric | editorials/max-independent-set-on-trees/solution.cpp:29-30 | v occurs in adj[u] exactly as often as u occurs in adj[v]; in particular v is in adj[u] iff u is in adj[v] |
| Adjacency.NeighbourIffEdge | editorials/max-independent-set-on-trees/solution.cpp:26-30 | v is in adj[u] iff some edge read joins u and v |
| Adjacency.DegreeIsLength | editorials/max-independent-set-on-trees/solution.cpp:29-30 | the length of adj[u] is the number of edge ends equal to u, a self-loop counting twice |
| Adjacency.DegreeSumLast | editorials/max-independent-set-on-trees/solution.cpp:29-30 | the last edge read adds to the degrees of nodes 0..m-1 the number of its ends among them |
| Adjacency.DegreeSumTwiceEdges | editorials/max-independent-set-on-trees/solution.cpp:26-30 | when every edge joins nodes of 1..n, the degrees of nodes 0..n add up to twice the number of edges |
| Adjacency.EntryCountIsDegreeSum | editorials/max-independent-set-on-trees/solution.cpp:29-30 | the lengths of adj[0..m-1] add up to the degrees of nodes 0..m-1 |
| Adjacency.Handshake | editorials/max-independent-set-on-trees/solution.cpp:26-30 | the lengths of the lists adj[0..n] add up to twice the number of edges read, 2(n-1) for a tree |
| RootedTree.TreeEdgesInRange | editorials/max-independent-set-on-trees/solution.cpp:28-30 | the edges of a tree on 1..n only name nodes 1..n, so the loop only touches adj[1..n] |
| RootedTree.ChildSetCard | editorials/max-independent-set-on-trees/solution.cpp:26-30 | the child ends of parent edges with distinct child ends are as many nodes of 2..n as there are edges |
| RootedTree.EdgeCountOfParentEdges | editorials/max-independent-set-on-trees/solution.cpp:26-30 | for parent edges with distinct child ends, u and v are joined by one edge if one is the other's child whose edge was read, and by none otherwise |
| RootedTree.EveryNodeHasParentEdge | editorials/max-independent-set-on-trees/solution.cpp:26-30 | the n-1 edges of the tree reach every node 2..n as the child end of an edge (pigeonhole) |
| RootedTree.TreeAdjOfTreeEdges | editorials/max-independent-set-on-trees/solution.cpp:26-30 | on a tree, the lists built list each node's parent and children exactly once and nothing else |
| RootedTree.IndependentIffTreeIndependent | editorials/max-independent-set-on-trees/solution.cpp:26-30 | on a tree, "no edge read has both ends in s" holds iff "no member of s has its parent in s" |
| TreeDp.NeighbourIsParentOrChild | editorials/max-independent-set-on-trees/solution.cpp:14-15 | every neighbour v of u is u's parent or a child of u, so the loop recurses only into children |
| TreeDp.NeighbourNotRepeated | editorials/max-independent-set-on-trees/solution.cpp:14-15 | a neighbour occurs only once in adj[u], so the loop visits each child once |
| TreeDp.Dp | editorials/max-independent-set-on-trees/solution.cpp:10-22 | the row dfs(u, par[u]) leaves in dp[u]: dp[u][0] >= 0 and 1 <= dp[u][1] <= dp[u][0] + 1 |
| TreeDp.Scan | editorials/max-independent-set-on-trees/solution.cpp:11-20 | the row after the loop has passed adj[u][..i]: at every step dp[u][0] >= 0 and 1 <= dp[u][1] <= dp[u][0] + 1 |
| TreeDp.Subtree | editorials/max-independent-set-on-trees/solution.cpp:10-22 | the nodes dfs(u, par[u]) visits: u and nodes 1..n of rank at most u's, each other than u with its parent in the set |
| TreeDp.Below | editorials/max-independent-set-on-trees/solution.cpp:14-17 | the nodes visited by the recursive calls for adj[u][..i]: nodes 2..n below u, each with its parent u or in the set |
| TreeDp.SiblingSubtreesDisjoint | editorials/max-independent-set-on-trees/solution.cpp:14-17 | the walks from two different children of u visit no common node |
| TreeDp.SubtreeDisjointFromBelow | editorials/max-independent-set-on-trees/solution.cpp:14-17 | the walk from the child at adj[u][i] visits no node the walks from earlier children visited |
| TreeDp.BelowStep | editorials/max-independent-set-on-trees/solution.cpp:14-17 | the parent adds nothing to the visited nodes; a child v adds its subtree, which holds neither u nor any node visited before |
| TreeDp.Dfs | editorials/max-independent-set-on-trees/solution.cpp:10-22 | dfs(u, par[u]) sets dp[w][0] and dp[w][1] to the recurrence's row for every node w of u's subtree and leaves every other row of dp unchanged |
| TreeDp.ChildrenIn | editorials/max-independent-set-on-trees/solution.cpp:14-15 | the neighbours in adj[u][..i] the loop does not skip, in order, are all children of u |
| TreeDp.ScanIsChildSums | editorials/max-independent-set-on-trees/solution.cpp:11-20 | after adj[u][..i], dp[u][1] is 1 plus the sum of dp[v][0], and dp[u][0] the sum of max(dp[v][0], dp[v][1]), over the children passed |
| TreeDp.ChildrenInCount | editorials/max-independent-set-on-trees/solution.cpp:14-15 | any node other than the parent occurs among the children passed as often as among the neighbours passed |
| TreeDp.DpIsChildSums | editorials/max-independent-set-on-trees/solution.cpp:11-20 | dp[u][1] = 1 + sum of dp[v][0] and dp[u][0] = sum of max(dp[v][0], dp[v][1]) over the children v of u, each child counted exactly once |
| Optimality.BelowGrows | editorials/max-independent-set-on-trees/solution.cpp:14-17 | the visited nodes only grow as the loop advances |
| Optimality.ChildInSubtree | editorials/max-independent-set-on-trees/solution.cpp:14-17 | every child of u is visited by dfs(u, par[u]) |
| Optimality.SubtreeWithin | editorials/max-independent-set-on-trees/solution.cpp:10-22 | the subtree of any node of u's subtree lies inside u's subtree |
| Optimality.BelowWithin | editorials/max-independent-set-on-trees/solution.cpp:14-17 | the subtree of any node visited for adj[u][..i] lies among the nodes visited for adj[u][..i] |
| Optimality.InRootSubtree | editorials/max-independent-set-on-trees/solution.cpp:33 | dfs(1, 0) visits every node 1..n |
| Optimality.RootSubtreeIsAllNodes | editorials/max-independent-set-on-trees/solution.cpp:33 | the nodes dfs(1, 0) visits are exactly 1..n |
| Optimality.SubtreeBound | editorials/max-independent-set-on-trees/solution.cpp:11-12 | no independent set of u's subtree has more than dp[u][1] nodes if it takes u, or more than dp[u][0] if it leaves u out |
| Optimality.ScanBound | editorials/max-independent-set-on-trees/solution.cpp:11-20 | the same bound for u and the subtrees of the children in adj[u][..i], against the row after that prefix |
| Optimality.ScanBoundChild | editorials/max-independent-set-on-trees/solution.cpp:17-20 | the bound survives adding a child v: its part of the set is bounded by dp[v], the rest by the earlier row |
| Optimality.JoinChild | editorials/max-independent-set-on-trees/solution.cpp:17-20 | an independent set of earlier children's subtrees and one of the next child's subtree are disjoint, and their union is independent |
| Optimality.ChosenShape | editorials/max-independent-set-on-trees/solution.cpp:11-12 | the two sets built for u lie in u's subtree, are independent, and leave u out or take it |
| Optimality.ChosenBelowShape | editorials/max-independent-set-on-trees/solution.cpp:14-20 | the sets built for the children in adj[u][..i] lie in their subtrees, are independent, and the second holds no child of u |
| Optimality.ChosenBelowShapeChild | editorials/max-independent-set-on-trees/solution.cpp:17-20 | adding the next child's sets keeps both properties |
| Optimality.JoinShapes | editorials/max-independent-set-on-trees/solution.cpp:17-20 | joining sets of the earlier children's subtrees with sets of the next child's subtree keeps them in the visited nodes and independent, and adds no child of u to the second |
| Optimality.ChosenDisjoint | editorials/max-independent-set-on-trees/solution.cpp:17-20 | the sets built for earlier children share no node with those built for the next child |
| Optimality.ChosenSize | editorials/max-independent-set-on-trees/solution.cpp:11-12 | the two sets built for u have exactly dp[u][0] and dp[u][1] nodes |
| Optimality.ChosenBelowSize | editorials/max-independent-set-on-trees/solution.cpp:11-20 | the sets built for adj[u][..i] have the sizes of the row after that prefix, less u itself |
| Optimality.ChosenBelowSizeChild | editorials/max-independent-set-on-trees/solution.cpp:19-20 | adding the next child adds max(dp[v][0], dp[v][1]) and dp[v][0] nodes |
| Optimality.DpAtMostSubtree | editorials/max-independent-set-on-trees/solution.cpp:11-20 | the entries dfs leaves in dp[u] count nodes of u's subtree: 0 <= dp[u][0] < size of the subtree, 1 <= dp[u][1] <= size of the subtree, and that size is at most n |
| Optimality.RootDpIsMaximum | editorials/max-independent-set-on-trees/solution.cpp:33-34 | max(dp[1][0], dp[1][1]) for the lists built from a tree's edges is the size of a largest independent set of the tree |
| Graph.MaximumAtMostN | editorials/max-independent-set-on-trees/solution.cpp:34 | the largest independent set size lies between 0 and n |
| BruteForce.BestSetIndependent | editorials/max-independent-set-on-trees/solution.cpp:34 | the exhaustive search returns an independent set of nodes 1..n |
| BruteForce.BestSetLargest | editorials/max-independent-set-on-trees/solution.cpp:34 | no independent set that agrees with the choices made so far is larger than the set the search returns |
| BruteForce.BruteForceIsMaximum | editorials/max-independent-set-on-trees/solution.cpp:34 | the exhaustive search finds the largest independent set size |
| Solution.Solve | editorials/max-independent-set-on-trees/solution.cpp:24-35 | the printed value is the size of a largest independent set of the tree, equals the exhaustive search's value, and lies in 1..n (so it is 1 when n = 1) |

## Left out

- Reading from standard input and printing to standard output (lines 25, 28 and 34): the number of nodes and the edges are parameters of `Solve`, and the printed value is its result.
- The fixed capacity `MAXN` (line 4): `adj` and `dp` are allocated with `n + 1` rows, and node ids are required to lie in `1..n`.
- Overflow of the `long long` entries of `dp`: the model uses unbounded integers; every entry lies between 0 and the size of its node's subtree, at most n (`Optimality.DpAtMostSubtree`).
- The depth of the native recursion (one frame per level of the tree): an operational limit, not behaviour.
- Input that is not a tree (fewer or more than n-1 edges, a cycle, a disconnected graph, ids outside `1..n`, n = 0): the program does not check for these; the model requires a tree on `1..n` with `n >= 1`, given with a rooting witness.
- The global, zero-initialised `dp` array: `Solve` allocates a fresh one. `Dfs` overwrites every row it reads, so the initial contents do not matter.
- The prefix-function substring search (`kmp.cpp`) is not part of this model.
