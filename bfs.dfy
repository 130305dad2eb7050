/** The level-synchronous breadth-first search of the BFS benchmark
    (bfs_sycl/_bfs_kernel.hpp and the host loop of bfs_sycl/_bfs_sycl.cpp):
    a frontier-expansion kernel and a frontier-commit kernel launched in
    turn until a round reaches no new node. The device state is four arrays
    indexed by node: the frontier mask, the updating mask, the visited mask
    and the cost.

    The kernels' work-items are run one after another in increasing global
    id. Within a launch this is faithful: the frontier is part of the
    visited set, the expansion kernel writes costs and updating bits only of
    unvisited nodes and reads the cost only of frontier nodes, so the
    writes of different work-items meet only at an unvisited node's cost,
    where all of them store the same value in a real run (see
    ExpandFrontier). */
module Bfs {

  /** A node's slice of the edge list (lines 7-11). */
  datatype Node = Node(starting: int, noOfEdges: int)

  /** Every edge slot a node names lies in the edge list and every edge
      leads to a node: what the kernel's edge loop (lines 28-32) needs of
      the input graph. */
  predicate ValidGraph(nodes: seq<Node>, edges: seq<int>)
  {
    && (forall u :: 0 <= u < |nodes| && nodes[u].noOfEdges > 0 ==>
          0 <= nodes[u].starting && nodes[u].starting + nodes[u].noOfEdges <= |edges|)
    && (forall u, i :: 0 <= u < |nodes| && nodes[u].starting <= i < nodes[u].starting + nodes[u].noOfEdges ==>
          0 <= edges[i] < |nodes|)
  }

  /** The nodes that the edge slots [starting, hi) of node u lead to, slot
      by slot as the loop of lines 28-32 reads them. */
  function TargetsBelow(nodes: seq<Node>, edges: seq<int>, u: int, hi: int): set<int>
    requires 0 <= u < |nodes|
    decreases hi - nodes[u].starting
  {
    if hi <= nodes[u].starting then {}
    else TargetsBelow(nodes, edges, u, hi - 1) + (if 0 <= hi - 1 < |edges| then {edges[hi - 1]} else {})
  }

  /** The neighbours of node u. */
  function Targets(nodes: seq<Node>, edges: seq<int>, u: int): set<int>
    requires 0 <= u < |nodes|
  {
    TargetsBelow(nodes, edges, u, nodes[u].starting + nodes[u].noOfEdges)
  }

  /** The nodes a mask marks. */
  function Marked(m: seq<bool>): set<int>
  {
    set u | 0 <= u < |m| && m[u]
  }

  /** The neighbours of the nodes of F below t, node by node as the work-items
      of one Kernel launch visit them. */
  function SuccBelow(nodes: seq<Node>, edges: seq<int>, F: set<int>, t: nat): set<int>
    requires t <= |nodes|
  {
    if t == 0 then {}
    else SuccBelow(nodes, edges, F, t - 1) + (if t - 1 in F then Targets(nodes, edges, t - 1) else {})
  }

  /** The neighbours of the nodes of F. */
  function Succ(nodes: seq<Node>, edges: seq<int>, F: set<int>): set<int>
  {
    SuccBelow(nodes, edges, F, |nodes|)
  }

  /** A neighbour of a node of F below t is one of a node u of F below t. */
  lemma {:induction false} SuccBelowMember(nodes: seq<Node>, edges: seq<int>, F: set<int>, t: nat, v: int)
    requires t <= |nodes|
    ensures v in SuccBelow(nodes, edges, F, t) <==> exists u :: 0 <= u < t && u in F && v in Targets(nodes, edges, u)
  {
    if t > 0 {
      SuccBelowMember(nodes, edges, F, t - 1, v);
    }
  }

  /** The neighbours of a node are graph nodes. */
  lemma {:induction false} TargetsInGraph(nodes: seq<Node>, edges: seq<int>, u: int, hi: int)
    requires ValidGraph(nodes, edges) && 0 <= u < |nodes| && hi <= nodes[u].starting + nodes[u].noOfEdges
    ensures forall v :: v in TargetsBelow(nodes, edges, u, hi) ==> 0 <= v < |nodes|
    decreases hi - nodes[u].starting
  {
    if hi > nodes[u].starting {
      TargetsInGraph(nodes, edges, u, hi - 1);
    }
  }

  /** Neighbours are graph nodes. */
  lemma SuccInGraph(nodes: seq<Node>, edges: seq<int>, F: set<int>, v: int)
    requires ValidGraph(nodes, edges) && v in Succ(nodes, edges, F)
    ensures 0 <= v < |nodes|
  {
    SuccBelowMember(nodes, edges, F, |nodes|, v);
    var u :| 0 <= u < |nodes| && u in F && v in Targets(nodes, edges, u);
    TargetsInGraph(nodes, edges, u, nodes[u].starting + nodes[u].noOfEdges);
  }

  /* ---------------------------------------------------------------------
     Breadth-first layering, the reference the device loop is proved to
     compute.
     --------------------------------------------------------------------- */

  /** The search after k rounds: the nodes seen, the frontier (the nodes
      first seen in round k) and the cost of every node, -1 for the unseen. */
  datatype Layer = Layer(seen: set<int>, frontier: set<int>, cost: seq<int>)

  /** Round 0 is the source, node 0, at cost 0 (lines 153-157, 183-186);
      round k adds the unseen neighbours of round k - 1's frontier at cost k. */
  function Round(nodes: seq<Node>, edges: seq<int>, k: nat): (r: Layer)
    ensures |r.cost| == |nodes|
  {
    if k == 0 then Layer({0}, {0}, seq(|nodes|, v => if v == 0 then 0 else -1))
    else
      var prev := Round(nodes, edges, k - 1);
      var next := Succ(nodes, edges, prev.frontier) - prev.seen;
      Layer(prev.seen + next, next, seq(|nodes|, v requires 0 <= v < |nodes| => if v in next then k else prev.cost[v]))
  }

  /** A layer of a search in a graph of n >= 1 nodes: its nodes are graph
      nodes, the frontier is part of the seen set, and the cost of a node is
      -1 exactly when it is unseen, at most k otherwise, and k exactly on the
      frontier. */
  ghost predicate WellLayered(nodes: seq<Node>, L: Layer, k: nat)
  {
    && |L.cost| == |nodes|
    && (forall v :: v in L.seen ==> 0 <= v < |nodes|)
    && L.frontier <= L.seen
    && (forall v :: 0 <= v < |nodes| ==>
          && (v in L.seen <==> L.cost[v] != -1)
          && -1 <= L.cost[v] <= k
          && (v in L.frontier <==> L.cost[v] == k))
  }

  lemma {:induction false} RoundWellLayered(nodes: seq<Node>, edges: seq<int>, k: nat)
    requires ValidGraph(nodes, edges) && |nodes| >= 1
    ensures WellLayered(nodes, Round(nodes, edges, k), k)
  {
    if k > 0 {
      RoundWellLayered(nodes, edges, k - 1);
      var prev := Round(nodes, edges, k - 1);
      var next := Succ(nodes, edges, prev.frontier) - prev.seen;
      forall v | v in next ensures 0 <= v < |nodes|
      {
        SuccInGraph(nodes, edges, prev.frontier, v);
      }
    }
  }

  /** Later rounds keep what earlier rounds saw, at the same cost. */
  lemma {:induction false} RoundsGrow(nodes: seq<Node>, edges: seq<int>, j: nat, k: nat)
    requires ValidGraph(nodes, edges) && |nodes| >= 1 && j <= k
    ensures Round(nodes, edges, j).seen <= Round(nodes, edges, k).seen
    ensures forall v :: 0 <= v < |nodes| && v in Round(nodes, edges, j).seen ==>
      Round(nodes, edges, k).cost[v] == Round(nodes, edges, j).cost[v]
    decreases k - j
  {
    RoundWellLayered(nodes, edges, j);
    if j < k {
      RoundsGrow(nodes, edges, j + 1, k);
      RoundWellLayered(nodes, edges, j + 1);
    }
  }

  /** A seen node is in the frontier of the round its cost names. */
  lemma {:induction false} JoinedAt(nodes: seq<Node>, edges: seq<int>, k: nat, v: int)
    requires ValidGraph(nodes, edges) && |nodes| >= 1
    requires 0 <= v < |nodes| && v in Round(nodes, edges, k).seen
    ensures 0 <= Round(nodes, edges, k).cost[v] <= k
    ensures v in Round(nodes, edges, Round(nodes, edges, k).cost[v]).frontier
  {
    RoundWellLayered(nodes, edges, k);
    if k > 0 {
      var prev := Round(nodes, edges, k - 1);
      if v in prev.seen {
        JoinedAt(nodes, edges, k - 1, v);
        RoundsGrow(nodes, edges, k - 1, k);
      }
    }
  }

  /** Once a round adds nothing, the seen set is closed under edges, and
      every edge between seen nodes raises the cost by at most one. */
  lemma {:induction false} LayeringClosed(nodes: seq<Node>, edges: seq<int>, k: nat)
    requires ValidGraph(nodes, edges) && |nodes| >= 1
    requires Round(nodes, edges, k).frontier == {}
    ensures ClosedUnderEdges(nodes, edges, Round(nodes, edges, k))
  {
    var L := Round(nodes, edges, k);
    forall u, v | 0 <= u < |nodes| && u in L.seen && v in Targets(nodes, edges, u)
      ensures ClosedEdge(nodes, edges, L, u, v)
    {
      ClosedAt(nodes, edges, k, u, v);
    }
  }

  /** The edge u -> v leads to a seen node, at a cost at most one more
      than u's. */
  ghost predicate ClosedEdge(nodes: seq<Node>, edges: seq<int>, L: Layer, u: int, v: int)
    requires |L.cost| == |nodes| && 0 <= u < |nodes|
  {
    0 <= v < |nodes| && v in L.seen && L.cost[v] <= L.cost[u] + 1
  }

  /** The seen nodes of L are closed under edges, and an edge raises the
      cost by at most one. */
  ghost predicate ClosedUnderEdges(nodes: seq<Node>, edges: seq<int>, L: Layer)
    requires |L.cost| == |nodes|
  {
    forall u, v :: 0 <= u < |nodes| && u in L.seen && v in Targets(nodes, edges, u) ==> ClosedEdge(nodes, edges, L, u, v)
  }

  /** LayeringClosed for one edge u -> v: u joined in some round j < k, so v
      is seen by round j + 1. */
  lemma ClosedAt(nodes: seq<Node>, edges: seq<int>, k: nat, u: int, v: int)
    requires ValidGraph(nodes, edges) && |nodes| >= 1
    requires Round(nodes, edges, k).frontier == {}
    requires 0 <= u < |nodes| && u in Round(nodes, edges, k).seen && v in Targets(nodes, edges, u)
    ensures ClosedEdge(nodes, edges, Round(nodes, edges, k), u, v)
  {
    JoinedAt(nodes, edges, k, u);
    var j: nat := Round(nodes, edges, k).cost[u];
    var Lj := Round(nodes, edges, j);
    assert u in Lj.frontier;
    assert j < k;
    SuccBelowMember(nodes, edges, Lj.frontier, |nodes|, v);
    SuccInGraph(nodes, edges, Lj.frontier, v);
    var Lj' := Round(nodes, edges, j + 1);
    assert v in Lj'.seen;
    RoundWellLayered(nodes, edges, j + 1);
    assert Lj'.cost[v] <= j + 1;
    RoundsGrow(nodes, edges, j + 1, k);
  }

  /** Every seen node but the source was reached over an edge from a node
      seen one round earlier. */
  lemma {:induction false} LayeringHasPredecessors(nodes: seq<Node>, edges: seq<int>, k: nat)
    requires ValidGraph(nodes, edges) && |nodes| >= 1
    ensures var L := Round(nodes, edges, k);
      forall v :: 0 <= v < |nodes| && v in L.seen && L.cost[v] >= 1 ==>
        exists u :: 0 <= u < |nodes| && u in L.seen && v in Targets(nodes, edges, u) && L.cost[u] == L.cost[v] - 1
  {
    var L := Round(nodes, edges, k);
    forall v | 0 <= v < |nodes| && v in L.seen && L.cost[v] >= 1
      ensures exists u :: 0 <= u < |nodes| && u in L.seen && v in Targets(nodes, edges, u) && L.cost[u] == L.cost[v] - 1
    {
      var u := PredecessorOf(nodes, edges, k, v);
    }
  }

  /** LayeringHasPredecessors for one node v: v joined in round j >= 1 as a
      neighbour of a node u of round j - 1's frontier. */
  lemma PredecessorOf(nodes: seq<Node>, edges: seq<int>, k: nat, v: int) returns (u: int)
    requires ValidGraph(nodes, edges) && |nodes| >= 1
    requires 0 <= v < |nodes| && v in Round(nodes, edges, k).seen && Round(nodes, edges, k).cost[v] >= 1
    ensures 0 <= u < |nodes| && u in Round(nodes, edges, k).seen && v in Targets(nodes, edges, u)
    ensures Round(nodes, edges, k).cost[u] == Round(nodes, edges, k).cost[v] - 1
  {
    JoinedAt(nodes, edges, k, v);
    var j: nat := Round(nodes, edges, k).cost[v];
    var prev := Round(nodes, edges, j - 1);
    assert v in Succ(nodes, edges, prev.frontier);
    SuccBelowMember(nodes, edges, prev.frontier, |nodes|, v);
    u :| 0 <= u < |nodes| && u in prev.frontier && v in Targets(nodes, edges, u);
    RoundWellLayered(nodes, edges, j - 1);
    assert prev.cost[u] == j - 1;
    RoundsGrow(nodes, edges, j - 1, k);
  }

  /** p is a path of edges from node 0. */
  ghost predicate IsPathFromSource(nodes: seq<Node>, edges: seq<int>, p: seq<int>)
  {
    && |p| >= 1 && p[0] == 0
    && (forall i :: 0 <= i < |p| ==> 0 <= p[i] < |nodes|)
    && (forall i :: 0 <= i < |p| - 1 ==> p[i + 1] in Targets(nodes, edges, p[i]))
  }

  /** No path is shorter than the cost: once a round adds nothing, the end of
      every path from node 0 is seen, at a cost at most the path's number of
      edges. */
  lemma {:induction false} NoShorterPath(nodes: seq<Node>, edges: seq<int>, k: nat, p: seq<int>)
    requires ValidGraph(nodes, edges) && |nodes| >= 1
    requires Round(nodes, edges, k).frontier == {}
    requires IsPathFromSource(nodes, edges, p)
    ensures p[|p| - 1] in Round(nodes, edges, k).seen && Round(nodes, edges, k).cost[p[|p| - 1]] <= |p| - 1
  {
    if |p| == 1 {
      RoundWellLayered(nodes, edges, 0);
      RoundsGrow(nodes, edges, 0, k);
    } else {
      var q := p[..|p| - 1];
      assert IsPathFromSource(nodes, edges, q);
      NoShorterPath(nodes, edges, k, q);
      LayeringClosed(nodes, edges, k);
      assert p[|p| - 1] in Targets(nodes, edges, q[|q| - 1]);
    }
  }

  /** Some path is as short as the cost: every seen node is the end of a path
      from node 0 with as many edges as its cost. */
  lemma {:induction false} PathOfCostLength(nodes: seq<Node>, edges: seq<int>, k: nat, v: int)
    requires ValidGraph(nodes, edges) && |nodes| >= 1
    requires 0 <= v < |nodes| && v in Round(nodes, edges, k).seen
    ensures exists p :: IsPathFromSource(nodes, edges, p) && p[|p| - 1] == v && |p| == Round(nodes, edges, k).cost[v] + 1
    decreases Round(nodes, edges, k).cost[v]
  {
    var L := Round(nodes, edges, k);
    RoundWellLayered(nodes, edges, k);
    if L.cost[v] == 0 {
      JoinedAt(nodes, edges, k, v);
      assert IsPathFromSource(nodes, edges, [v]);
    } else {
      LayeringHasPredecessors(nodes, edges, k);
      var u :| 0 <= u < |nodes| && u in L.seen && v in Targets(nodes, edges, u) && L.cost[u] == L.cost[v] - 1;
      PathOfCostLength(nodes, edges, k, u);
      var q :| IsPathFromSource(nodes, edges, q) && q[|q| - 1] == u && |q| == L.cost[u] + 1;
      PathExtends(nodes, edges, q, v);
    }
  }

  /** A path extended by an edge out of its last node is a path. */
  lemma PathExtends(nodes: seq<Node>, edges: seq<int>, q: seq<int>, v: int)
    requires IsPathFromSource(nodes, edges, q) && 0 <= v < |nodes| && v in Targets(nodes, edges, q[|q| - 1])
    ensures IsPathFromSource(nodes, edges, q + [v]) && (q + [v])[|q|] == v
  {
  }

  /** Once a round adds nothing, the costs are the hop distances from node 0:
      a node is seen exactly when its cost is not -1, the source has cost 0,
      and every seen node ends a path of as many edges as its cost and no
      shorter one; nodes no path reaches are never seen. */
  lemma CostsAreHopDistances(nodes: seq<Node>, edges: seq<int>, k: nat)
    requires ValidGraph(nodes, edges) && |nodes| >= 1
    requires Round(nodes, edges, k).frontier == {}
    ensures var L := Round(nodes, edges, k);
      && L.cost[0] == 0
      && (forall v :: 0 <= v < |nodes| ==> (v in L.seen <==> L.cost[v] != -1))
      && (forall v :: 0 <= v < |nodes| && v in L.seen ==>
            exists p :: IsPathFromSource(nodes, edges, p) && p[|p| - 1] == v && |p| == L.cost[v] + 1)
      && (forall p :: IsPathFromSource(nodes, edges, p) ==> p[|p| - 1] in L.seen && L.cost[p[|p| - 1]] <= |p| - 1)
  {
    RoundWellLayered(nodes, edges, k);
    RoundWellLayered(nodes, edges, 0);
    RoundsGrow(nodes, edges, 0, k);
    var L := Round(nodes, edges, k);
    forall v | 0 <= v < |nodes| && v in L.seen
      ensures exists p :: IsPathFromSource(nodes, edges, p) && p[|p| - 1] == v && |p| == L.cost[v] + 1
    {
      PathOfCostLength(nodes, edges, k, v);
    }
    forall p | IsPathFromSource(nodes, edges, p)
      ensures p[|p| - 1] in L.seen && L.cost[p[|p| - 1]] <= |p| - 1
    {
      NoShorterPath(nodes, edges, k, p);
    }
  }

  /* ---------------------------------------------------------------------
     Counting seen nodes: every round that adds a node grows the seen set,
     which stays inside the n graph nodes, so the loop runs at most n
     rounds.
     --------------------------------------------------------------------- */

  /** A set of graph nodes has at most n elements. */
  lemma {:induction false} NodesAtMostN(s: set<int>, n: nat)
    requires forall v :: v in s ==> 0 <= v < n
    ensures |s| <= n
    decreases n
  {
    if n > 0 {
      var s' := s - {n - 1};
      NodesAtMostN(s', n - 1);
      if n - 1 in s {
        assert s == s' + {n - 1};
      } else {
        assert s == s';
      }
    } else {
      assert forall v :: v !in s;
      assert s == {};
    }
  }

  /** No more nodes are seen than the graph has. */
  lemma SeenBounded(nodes: seq<Node>, edges: seq<int>, k: nat)
    requires ValidGraph(nodes, edges) && |nodes| >= 1
    ensures |Round(nodes, edges, k).seen| <= |nodes|
  {
    RoundWellLayered(nodes, edges, k);
    NodesAtMostN(Round(nodes, edges, k).seen, |nodes|);
  }

  /** A round adds exactly its frontier to the seen nodes. */
  lemma SeenGrows(nodes: seq<Node>, edges: seq<int>, k: nat)
    ensures |Round(nodes, edges, k + 1).seen| == |Round(nodes, edges, k).seen| + |Round(nodes, edges, k + 1).frontier|
  {
    var prev, next := Round(nodes, edges, k), Round(nodes, edges, k + 1);
    assert next.seen == prev.seen + next.frontier && prev.seen !! next.frontier;
  }

  /* ---------------------------------------------------------------------
     The kernels.
     --------------------------------------------------------------------- */

  /** Global id of work-item `lid` of block `group` (lines 24-25, 50-51). */
  function ThreadId(group: int, lid: int, maxThreads: int): int
  {
    group * maxThreads + lid
  }

  /** A launch shape of `numBlocks` blocks of `threadsPerBlock` work-items,
      as lines 121-132 choose it. */
  predicate LaunchShape(n: int, maxThreads: int, numBlocks: int, threadsPerBlock: int)
  {
    && numBlocks >= 1 && 1 <= threadsPerBlock <= maxThreads
    && (threadsPerBlock == maxThreads || numBlocks == 1)
    && numBlocks * threadsPerBlock >= n
  }

  /** Lines 121-132: one block of n work-items when n fits in a block, else
      ceil(n / MAX) blocks of MAX work-items; the floating-point ceiling of
      line 130 is exact for `int` operands. The launch covers every node
      and leaves no block without a node. */
  method ChooseLaunch(n: int, maxThreads: int) returns (numBlocks: int, threadsPerBlock: int)
    requires n >= 1 && maxThreads >= 1
    ensures LaunchShape(n, maxThreads, numBlocks, threadsPerBlock)
    ensures (numBlocks - 1) * threadsPerBlock < n
  {
    numBlocks := 1;
    threadsPerBlock := n;
    if n > maxThreads {
      numBlocks := CeilDiv(n, maxThreads);
      threadsPerBlock := maxThreads;
    }
  }

  /** ceil(n / m) for positive m: the least q with q * m >= n. */
  function CeilDiv(n: int, m: int): (q: int)
    requires n >= 1 && m >= 1
    ensures q >= 1 && q * m >= n && (q - 1) * m < n
  {
    var q := (n + m - 1) / m;
    var r := (n + m - 1) % m;
    assert q * m + r == n + m - 1;
    assert (q - 1) * m == q * m - m;
    q
  }

  /** In lock-step order the launch's t-th work-item is block t / T,
      local id t % T, and its global id is t: the launch visits the ids
      0, 1, ..., blocks * T - 1 once each. */
  lemma LaunchIds(n: int, maxThreads: int, numBlocks: int, threadsPerBlock: int, t: int)
    requires LaunchShape(n, maxThreads, numBlocks, threadsPerBlock)
    requires 0 <= t < numBlocks * threadsPerBlock
    ensures ThreadId(t / threadsPerBlock, t % threadsPerBlock, maxThreads) == t
  {
    var q, r := t / threadsPerBlock, t % threadsPerBlock;
    assert q * threadsPerBlock + r == t && 0 <= r < threadsPerBlock;
    if numBlocks == 1 {
      assert t < threadsPerBlock;
      assert q == 0;
    }
  }

  /** The global id of the launch's t-th work-item in lock-step order. */
  method WorkItemId(n: int, maxThreads: int, numBlocks: int, threadsPerBlock: int, t: int) returns (tid: int)
    requires LaunchShape(n, maxThreads, numBlocks, threadsPerBlock)
    requires 0 <= t < numBlocks * threadsPerBlock
    ensures tid == t
  {
    tid := ThreadId(t / threadsPerBlock, t % threadsPerBlock, maxThreads);
    LaunchIds(n, maxThreads, numBlocks, threadsPerBlock, t);
  }

  /** The device state is four arrays of one entry per node. */
  predicate DeviceShapes(nodes: seq<Node>, mask: array<bool>, updating: array<bool>, visited: array<bool>, cost: array<int>)
  {
    && mask.Length == updating.Length == visited.Length == cost.Length == |nodes|
    && mask != updating && mask != visited && updating != visited
  }

  /** Kernel (lines 13-39) for a frontier node tid: its mask bit is
      cleared, and every unvisited neighbour gets cost[tid] + 1 and its
      updating bit; visited nodes keep their cost and bit. */
  method ExpandNode(nodes: seq<Node>, edges: seq<int>, mask: array<bool>, updating: array<bool>, visited: array<bool>,
                    cost: array<int>, tid: int)
    requires ValidGraph(nodes, edges) && DeviceShapes(nodes, mask, updating, visited, cost)
    requires 0 <= tid < |nodes| && mask[tid] && visited[tid]
    modifies mask, updating, cost
    ensures mask[..] == old(mask[..])[tid := false]
    ensures forall v :: 0 <= v < |nodes| ==>
      && updating[v] == (old(updating[v]) || (!visited[v] && v in Targets(nodes, edges, tid)))
      && cost[v] == if !visited[v] && v in Targets(nodes, edges, tid) then old(cost[tid]) + 1 else old(cost[v])
  {
    mask[tid] := false;
    var lo := nodes[tid].starting;
    var i := lo;
    while i < nodes[tid].noOfEdges + nodes[tid].starting
      invariant lo <= i && (i <= nodes[tid].starting + nodes[tid].noOfEdges || i == lo)
      invariant mask[..] == old(mask[..])[tid := false]
      invariant forall v :: 0 <= v < |nodes| ==>
        && updating[v] == (old(updating[v]) || (!visited[v] && v in TargetsBelow(nodes, edges, tid, i)))
        && cost[v] == if !visited[v] && v in TargetsBelow(nodes, edges, tid, i) then old(cost[tid]) + 1 else old(cost[v])
    {
      var id := edges[i];
      assert TargetsBelow(nodes, edges, tid, i + 1) == TargetsBelow(nodes, edges, tid, i) + {id};
      if !visited[id] {
        cost[id] := cost[tid] + 1;
        updating[id] := true;
      }
      i := i + 1;
    }
    if nodes[tid].noOfEdges <= 0 {
      assert Targets(nodes, edges, tid) == {} == TargetsBelow(nodes, edges, tid, i);
    }
  }

  /** What one launch of Kernel has done once the work-items below t have
      run: those frontier bits are cleared, and every unvisited neighbour of
      a frontier node below t carries its updating bit and the cost of one
      of those frontier nodes plus one; nothing else changed. */
  ghost predicate ExpandedBelow(nodes: seq<Node>, edges: seq<int>, m0: seq<bool>, u0: seq<bool>, c0: seq<int>,
                                visited: seq<bool>, mask: seq<bool>, updating: seq<bool>, cost: seq<int>, t: nat)
    requires t <= |nodes|
    requires |m0| == |u0| == |c0| == |visited| == |mask| == |updating| == |cost| == |nodes|
  {
    && (forall v :: 0 <= v < |nodes| ==> mask[v] == (m0[v] && v >= t))
    && (forall v :: 0 <= v < |nodes| ==>
          updating[v] == (u0[v] || (!visited[v] && v in SuccBelow(nodes, edges, Marked(m0), t))))
    && (forall v :: 0 <= v < |nodes| && (visited[v] || v !in SuccBelow(nodes, edges, Marked(m0), t)) ==> cost[v] == c0[v])
    && (forall v :: 0 <= v < |nodes| && !visited[v] && v in SuccBelow(nodes, edges, Marked(m0), t) ==>
          exists u :: 0 <= u < t && u < |nodes| && m0[u] && v in Targets(nodes, edges, u) && cost[v] == c0[u] + 1)
  }

  /** One launch of Kernel over every global id (lines 248-258). Its
      frontier must lie inside the visited set, as it does throughout the
      host loop. Afterwards no node is in the frontier; a node carries the
      updating bit when it did or is an unvisited neighbour of the
      frontier; such a neighbour's cost is one more than the cost of one of
      its frontier neighbours; every other cost, and the visited mask, are
      unchanged. */
  method ExpandFrontier(nodes: seq<Node>, edges: seq<int>, mask: array<bool>, updating: array<bool>, visited: array<bool>,
                        cost: array<int>, maxThreads: int, numBlocks: int, threadsPerBlock: int)
    requires ValidGraph(nodes, edges) && DeviceShapes(nodes, mask, updating, visited, cost)
    requires LaunchShape(|nodes|, maxThreads, numBlocks, threadsPerBlock)
    requires forall u :: 0 <= u < |nodes| && mask[u] ==> visited[u]
    modifies mask, updating, cost
    ensures ExpandedBelow(nodes, edges, old(mask[..]), old(updating[..]), old(cost[..]), visited[..],
                          mask[..], updating[..], cost[..], |nodes|)
  {
    ghost var m0, u0, c0 := mask[..], updating[..], cost[..];
    var t := 0;
    while t < numBlocks * threadsPerBlock
      invariant 0 <= t && (t <= numBlocks * threadsPerBlock)
      invariant ExpandedBelow(nodes, edges, m0, u0, c0, visited[..], mask[..], updating[..], cost[..], Min(t, |nodes|))
    {
      var tid := WorkItemId(|nodes|, maxThreads, numBlocks, threadsPerBlock, t);
      ExpandWorkItem(nodes, edges, mask, updating, visited, cost, m0, u0, c0, tid);
      t := t + 1;
    }
  }

  /** Kernel's work-item tid: out-of-range ids and nodes outside the
      frontier do nothing (line 26); frontier nodes run ExpandNode. */
  method ExpandWorkItem(nodes: seq<Node>, edges: seq<int>, mask: array<bool>, updating: array<bool>, visited: array<bool>,
                        cost: array<int>, ghost m0: seq<bool>, ghost u0: seq<bool>, ghost c0: seq<int>, tid: int)
    requires ValidGraph(nodes, edges) && DeviceShapes(nodes, mask, updating, visited, cost)
    requires |m0| == |u0| == |c0| == |nodes| && tid >= 0
    requires forall u :: 0 <= u < |nodes| && m0[u] ==> visited[u]
    requires ExpandedBelow(nodes, edges, m0, u0, c0, visited[..], mask[..], updating[..], cost[..], Min(tid, |nodes|))
    modifies mask, updating, cost
    ensures ExpandedBelow(nodes, edges, m0, u0, c0, visited[..], mask[..], updating[..], cost[..], Min(tid + 1, |nodes|))
  {
    if tid < |nodes| && mask[tid] {
      ExpandStep(nodes, edges, mask, updating, visited, cost, m0, u0, c0, tid);
    } else if tid < |nodes| {
      assert tid !in Marked(m0);
    }
  }

  function Min(a: int, b: int): int { if a < b then a else b }

  /** Work-item tid of the launch, for a frontier node: ExpandNode moves
      the launch's progress from the ids below tid to those below tid + 1. */
  method ExpandStep(nodes: seq<Node>, edges: seq<int>, mask: array<bool>, updating: array<bool>, visited: array<bool>,
                    cost: array<int>, ghost m0: seq<bool>, ghost u0: seq<bool>, ghost c0: seq<int>, tid: int)
    requires ValidGraph(nodes, edges) && DeviceShapes(nodes, mask, updating, visited, cost)
    requires |m0| == |u0| == |c0| == |nodes|
    requires 0 <= tid < |nodes| && mask[tid]
    requires forall u :: 0 <= u < |nodes| && m0[u] ==> visited[u]
    requires ExpandedBelow(nodes, edges, m0, u0, c0, visited[..], mask[..], updating[..], cost[..], tid)
    modifies mask, updating, cost
    ensures ExpandedBelow(nodes, edges, m0, u0, c0, visited[..], mask[..], updating[..], cost[..], tid + 1)
  {
    assert m0[tid] && visited[tid];
    assert cost[tid] == c0[tid];
    ExpandNode(nodes, edges, mask, updating, visited, cost, tid);
    assert tid in Marked(m0);
  }

  /** Kernel2 (lines 41-59) over every global id (lines 267-277): every
      node with the updating bit joins the frontier and the visited set and
      loses the bit; nodes without it are untouched. The over flag is
      raised exactly when some node had the bit, and never lowered. */
  method CommitFrontier(nodes: seq<Node>, mask: array<bool>, updating: array<bool>, visited: array<bool>,
                        cost: array<int>, over: bool, maxThreads: int, numBlocks: int, threadsPerBlock: int)
    returns (overOut: bool)
    requires DeviceShapes(nodes, mask, updating, visited, cost)
    requires LaunchShape(|nodes|, maxThreads, numBlocks, threadsPerBlock)
    modifies mask, updating, visited
    ensures forall v :: 0 <= v < |nodes| ==>
      && mask[v] == (old(mask[v]) || old(updating[v]))
      && visited[v] == (old(visited[v]) || old(updating[v]))
      && !updating[v]
    ensures overOut == (over || exists v :: 0 <= v < |nodes| && old(updating[v]))
  {
    overOut := over;
    var t := 0;
    while t < numBlocks * threadsPerBlock
      invariant 0 <= t && (t <= numBlocks * threadsPerBlock)
      invariant forall v :: 0 <= v < |nodes| ==>
        && mask[v] == (old(mask[v]) || (v < t && old(updating[v])))
        && visited[v] == (old(visited[v]) || (v < t && old(updating[v])))
        && updating[v] == (old(updating[v]) && v >= t)
      invariant overOut == (over || exists v :: 0 <= v < t && v < |nodes| && old(updating[v]))
    {
      var tid := WorkItemId(|nodes|, maxThreads, numBlocks, threadsPerBlock, t);
      if tid < |nodes| && updating[tid] {
        mask[tid] := true;
        visited[tid] := true;
        overOut := true;
        updating[tid] := false;
      }
      t := t + 1;
    }
  }

  /* ---------------------------------------------------------------------
     The host.
     --------------------------------------------------------------------- */

  /** The device arrays hold layer L: the frontier in the mask, the seen
      nodes in the visited mask, no updating bit, and the layer's costs. */
  ghost predicate Holds(nodes: seq<Node>, mask: seq<bool>, updating: seq<bool>, visited: seq<bool>, cost: seq<int>, L: Layer)
  {
    && |mask| == |updating| == |visited| == |cost| == |L.cost| == |nodes|
    && (forall v :: 0 <= v < |nodes| ==>
          && mask[v] == (v in L.frontier) && !updating[v] && visited[v] == (v in L.seen) && cost[v] == L.cost[v])
  }

  /** Lines 142-157 and 183-186: every mask false and every cost -1, except
      that the source, node 0 whatever the input names (lines 152-153), is
      in the frontier and visited with cost 0: the arrays hold round 0. */
  method Initialise(nodes: seq<Node>, edges: seq<int>, sourceRead: int)
    returns (mask: array<bool>, updating: array<bool>, visited: array<bool>, cost: array<int>)
    requires |nodes| >= 1
    ensures fresh(mask) && fresh(updating) && fresh(visited) && fresh(cost)
    ensures DeviceShapes(nodes, mask, updating, visited, cost)
    ensures Holds(nodes, mask[..], updating[..], visited[..], cost[..], Round(nodes, edges, 0))
  {
    var n := |nodes|;
    mask := new bool[n];
    updating := new bool[n];
    visited := new bool[n];
    var i := 0;
    while i < n
      invariant 0 <= i <= n
      invariant forall v :: 0 <= v < i ==> !mask[v] && !updating[v] && !visited[v]
    {
      mask[i] := false;
      updating[i] := false;
      visited[i] := false;
      i := i + 1;
    }
    var source := sourceRead;
    source := 0;
    mask[source] := true;
    visited[source] := true;
    cost := new int[n];
    i := 0;
    while i < n
      invariant 0 <= i <= n
      invariant forall v :: 0 <= v < n ==> mask[v] == (v == 0) && !updating[v] && visited[v] == (v == 0)
      invariant forall v :: 0 <= v < i ==> cost[v] == -1
    {
      cost[i] := -1;
      i := i + 1;
    }
    cost[source] := 0;
  }

  /** One round of the do/while loop (lines 240-281) from layer k: the over
      flag is cleared, Kernel and Kernel2 run, and the arrays hold layer
      k + 1; the flag read back says whether that layer has a frontier. */
  method BfsRound(nodes: seq<Node>, edges: seq<int>, mask: array<bool>, updating: array<bool>, visited: array<bool>,
                  cost: array<int>, maxThreads: int, numBlocks: int, threadsPerBlock: int, ghost k: nat)
    returns (stop: bool)
    requires ValidGraph(nodes, edges) && |nodes| >= 1 && DeviceShapes(nodes, mask, updating, visited, cost)
    requires LaunchShape(|nodes|, maxThreads, numBlocks, threadsPerBlock)
    requires Holds(nodes, mask[..], updating[..], visited[..], cost[..], Round(nodes, edges, k))
    requires Progress(nodes, edges, k, true)
    modifies mask, updating, visited, cost
    ensures Holds(nodes, mask[..], updating[..], visited[..], cost[..], Round(nodes, edges, k + 1))
    ensures stop <==> Round(nodes, edges, k + 1).frontier != {}
    ensures Progress(nodes, edges, k + 1, stop)
  {
    ghost var m0, u0, v0, c0 := mask[..], updating[..], visited[..], cost[..];
    RoundWellLayered(nodes, edges, k);
    stop := false;
    ExpandFrontier(nodes, edges, mask, updating, visited, cost, maxThreads, numBlocks, threadsPerBlock);
    ExpandedIsNextLayer(nodes, edges, k, m0, u0, c0, visited[..], mask[..], updating[..], cost[..]);
    ghost var m1, u1 := mask[..], updating[..];
    stop := CommitFrontier(nodes, mask, updating, visited, cost, stop, maxThreads, numBlocks, threadsPerBlock);
    CommittedIsNextLayer(nodes, edges, k, m1, u1, v0, mask[..], updating[..], visited[..], cost[..], stop);
    ProgressStep(nodes, edges, k, stop);
  }

  /** After Kernel from layer k, the updating bits mark layer k + 1's
      frontier and the costs are layer k + 1's. */
  lemma ExpandedIsNextLayer(nodes: seq<Node>, edges: seq<int>, k: nat, m0: seq<bool>, u0: seq<bool>, c0: seq<int>,
                            visited: seq<bool>, mask: seq<bool>, updating: seq<bool>, cost: seq<int>)
    requires ValidGraph(nodes, edges) && |nodes| >= 1
    requires Holds(nodes, m0, u0, visited, c0, Round(nodes, edges, k))
    requires |mask| == |updating| == |cost| == |nodes|
    requires ExpandedBelow(nodes, edges, m0, u0, c0, visited, mask, updating, cost, |nodes|)
    ensures forall v :: 0 <= v < |nodes| ==>
      && !mask[v] && updating[v] == (v in Round(nodes, edges, k + 1).frontier)
      && cost[v] == Round(nodes, edges, k + 1).cost[v]
  {
    var L, L' := Round(nodes, edges, k), Round(nodes, edges, k + 1);
    RoundWellLayered(nodes, edges, k);
    assert Marked(m0) == L.frontier;
    forall v | 0 <= v < |nodes|
      ensures updating[v] == (v in L'.frontier)
      ensures cost[v] == L'.cost[v]
    {
      if !visited[v] && v in Succ(nodes, edges, L.frontier) {
        var u :| 0 <= u < |nodes| && m0[u] && v in Targets(nodes, edges, u) && cost[v] == c0[u] + 1;
        assert c0[u] == k;
      }
    }
  }

  /** After Kernel2, the arrays hold layer k + 1, and the over flag says
      whether its frontier is non-empty. */
  lemma CommittedIsNextLayer(nodes: seq<Node>, edges: seq<int>, k: nat, m1: seq<bool>, u1: seq<bool>, v0: seq<bool>,
                             mask: seq<bool>, updating: seq<bool>, visited: seq<bool>, cost: seq<int>, over: bool)
    requires ValidGraph(nodes, edges) && |nodes| >= 1
    requires |m1| == |u1| == |v0| == |mask| == |updating| == |visited| == |cost| == |nodes|
    requires forall v :: 0 <= v < |nodes| ==> v0[v] == (v in Round(nodes, edges, k).seen)
    requires forall v :: 0 <= v < |nodes| ==>
      && !m1[v] && u1[v] == (v in Round(nodes, edges, k + 1).frontier)
      && cost[v] == Round(nodes, edges, k + 1).cost[v]
    requires forall v :: 0 <= v < |nodes| ==>
      && mask[v] == (m1[v] || u1[v]) && visited[v] == (v0[v] || u1[v]) && !updating[v]
    requires over == exists v :: 0 <= v < |nodes| && u1[v]
    ensures Holds(nodes, mask, updating, visited, cost, Round(nodes, edges, k + 1))
    ensures over <==> Round(nodes, edges, k + 1).frontier != {}
  {
    RoundWellLayered(nodes, edges, k + 1);
    var L' := Round(nodes, edges, k + 1);
    if !over {
      forall v ensures v !in L'.frontier
      {
        if 0 <= v < |nodes| {
          assert !u1[v];
        }
      }
      assert L'.frontier == {};
    }
  }

  /** The host part of BFSGraph (lines 117-282): the arrays are set up for
      round 0 and rounds run while the last one reached a new node. It
      returns the costs read back (line 290) and the number of rounds `k`
      it reports: the first round that adds no node. Every earlier round
      added one, so there are at most as many rounds as nodes, and by
      CostsAreHopDistances the costs are the hop distances from node 0,
      -1 for unreachable nodes. */
  method BfsGraph(nodes: seq<Node>, edges: seq<int>, maxThreads: int, sourceRead: int) returns (cost: array<int>, k: nat)
    requires ValidGraph(nodes, edges) && |nodes| >= 1 && maxThreads >= 1
    ensures fresh(cost)
    ensures 1 <= k <= |nodes|
    ensures FirstIdleRound(nodes, edges, k)
    ensures cost[..] == Round(nodes, edges, k).cost
  {
    var numBlocks, threadsPerBlock := ChooseLaunch(|nodes|, maxThreads);
    var mask, updating, visited;
    mask, updating, visited, cost := Initialise(nodes, edges, sourceRead);
    k := RunRounds(nodes, edges, mask, updating, visited, cost, maxThreads, numBlocks, threadsPerBlock);
  }

  /** The do/while loop of lines 238-282 from round 0: it runs rounds while
      the last one reached a node, and stops after the first idle round,
      with the arrays holding that round's layer. */
  method RunRounds(nodes: seq<Node>, edges: seq<int>, mask: array<bool>, updating: array<bool>, visited: array<bool>,
                   cost: array<int>, maxThreads: int, numBlocks: int, threadsPerBlock: int) returns (k: nat)
    requires ValidGraph(nodes, edges) && |nodes| >= 1 && DeviceShapes(nodes, mask, updating, visited, cost)
    requires LaunchShape(|nodes|, maxThreads, numBlocks, threadsPerBlock)
    requires Holds(nodes, mask[..], updating[..], visited[..], cost[..], Round(nodes, edges, 0))
    modifies mask, updating, visited, cost
    ensures 1 <= k <= |nodes| && FirstIdleRound(nodes, edges, k)
    ensures Holds(nodes, mask[..], updating[..], visited[..], cost[..], Round(nodes, edges, k))
  {
    k := 0;
    var stop := true;
    while stop
      invariant DeviceShapes(nodes, mask, updating, visited, cost)
      invariant Holds(nodes, mask[..], updating[..], visited[..], cost[..], Round(nodes, edges, k))
      invariant Progress(nodes, edges, k, stop)
      decreases |nodes| - k + (if stop then 1 else 0)
    {
      stop := BfsRound(nodes, edges, mask, updating, visited, cost, maxThreads, numBlocks, threadsPerBlock, k);
      k := k + 1;
    }
  }

  /** The loop's bookkeeping after k rounds, `more` being the flag read
      back: while it is set, round k added a node and fewer than n rounds
      have run; once it is clear, round k is the first idle one. */
  ghost predicate Progress(nodes: seq<Node>, edges: seq<int>, k: nat, more: bool)
  {
    && (more ==> k < |nodes| && Round(nodes, edges, k).frontier != {})
    && (!more ==> 1 <= k <= |nodes| && FirstIdleRound(nodes, edges, k))
  }

  lemma ProgressStep(nodes: seq<Node>, edges: seq<int>, k: nat, more: bool)
    requires ValidGraph(nodes, edges) && |nodes| >= 1
    requires Progress(nodes, edges, k, true)
    requires more <==> Round(nodes, edges, k + 1).frontier != {}
    ensures Progress(nodes, edges, k + 1, more)
  {
    if more {
      FrontierBound(nodes, edges, k + 1);
    }
  }

  /** A round with a non-empty frontier comes before round n. */
  lemma FrontierBound(nodes: seq<Node>, edges: seq<int>, k: nat)
    requires ValidGraph(nodes, edges) && |nodes| >= 1
    requires Round(nodes, edges, k).frontier != {}
    ensures k < |nodes|
  {
    SeenOutgrowsRounds(nodes, edges, k);
    SeenBounded(nodes, edges, k);
  }

  /** A round with a non-empty frontier comes after k rounds that each added
      a node, so more than k nodes are seen. */
  lemma {:induction false} SeenOutgrowsRounds(nodes: seq<Node>, edges: seq<int>, k: nat)
    requires Round(nodes, edges, k).frontier != {}
    ensures |Round(nodes, edges, k).seen| >= k + 1
  {
    if k > 0 {
      if Round(nodes, edges, k - 1).frontier == {} {
        IdleStaysIdle(nodes, edges, k - 1, k);
      }
      SeenOutgrowsRounds(nodes, edges, k - 1);
      SeenGrows(nodes, edges, k - 1);
    }
  }

  /** Round k is the first that adds no node: it adds none, and round
      k - 1 (the source's round 0 when k == 1) has a non-empty frontier. */
  ghost predicate FirstIdleRound(nodes: seq<Node>, edges: seq<int>, k: nat)
  {
    k >= 1 && Round(nodes, edges, k).frontier == {} && Round(nodes, edges, k - 1).frontier != {}
  }

  /** Once a round adds no node, no later round does; so the first idle
      round is the only k with FirstIdleRound, and every round before it
      adds a node. */
  lemma {:induction false} IdleStaysIdle(nodes: seq<Node>, edges: seq<int>, j: nat, k: nat)
    requires j <= k && Round(nodes, edges, j).frontier == {}
    ensures Round(nodes, edges, k).frontier == {}
    decreases k - j
  {
    if j < k {
      forall v ensures v !in Succ(nodes, edges, {})
      {
        SuccBelowMember(nodes, edges, {}, |nodes|, v);
      }
      IdleStaysIdle(nodes, edges, j + 1, k);
    }
  }

  lemma FirstIdleRoundIsFirst(nodes: seq<Node>, edges: seq<int>, k: nat)
    requires FirstIdleRound(nodes, edges, k)
    ensures forall j :: 0 <= j < k ==> Round(nodes, edges, j).frontier != {}
    ensures forall j :: j >= k ==> Round(nodes, edges, j).frontier == {}
  {
    forall j: nat | j < k ensures Round(nodes, edges, j).frontier != {}
    {
      if Round(nodes, edges, j).frontier == {} {
        IdleStaysIdle(nodes, edges, j, k - 1);
      }
    }
    forall j: nat | j >= k ensures Round(nodes, edges, j).frontier == {}
    {
      IdleStaysIdle(nodes, edges, k, j);
    }
  }
}
