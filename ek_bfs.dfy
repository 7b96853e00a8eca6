/** The search `bfs` of include/edmonds_karp.hpp:133-158, stated on values:
    parent_ records for every reached node the node it was entered from, and
    the queue carries with each node the smallest capacity on its parent chain. */
module EkBfs {
  import opened EkNetwork
  import opened Counting

  /** parent_ of a node the search has not reached. */
  const Unvisited: int := -1
  /** parent_ of the source. */
  const NoParent: int := -2
  /** flow_infty: numeric_limits<flow_t>::max() for a 32-bit flow_t. */
  const FlowInfinity: int := 0x7fff_ffff

  function Min(a: int, b: int): (m: int)
    ensures m <= a && m <= b && (m == a || m == b)
  {
    if a <= b then a else b
  }

  /** Node y was entered over a residual edge from x = parent[y], which was
      reached earlier (a smaller rank), and the capacity carried to y is the
      smaller of x's and that of the edge. */
  ghost predicate TreeEdge(g: Graph, parent: seq<int>, rank: seq<nat>, carried: seq<int>, y: int)
    requires WellFormed(g) && |parent| == |rank| == |carried| == Size(g) && 0 <= y < Size(g)
  {
    var x := parent[y];
    0 <= x < Size(g) && parent[x] != Unvisited && rank[x] < rank[y] &&
    HasResidualEdge(g, x, y) && carried[y] == Min(carried[x], g.cap[x][y])
  }

  /** parent_ as a search tree rooted at the source s: s is marked noparent
      and carries flow_infty, every other node is unvisited or has a tree
      edge. */
  ghost predicate ParentTree(g: Graph, s: int, parent: seq<int>, rank: seq<nat>, carried: seq<int>)
  {
    WellFormed(g) && 0 <= s < Size(g) && |parent| == |rank| == |carried| == Size(g) &&
    parent[s] == NoParent && carried[s] == FlowInfinity &&
    forall y {:trigger parent[y]} :: 0 <= y < Size(g) && y != s ==>
      parent[y] == Unvisited || TreeEdge(g, parent, rank, carried, y)
  }

  /** Every node of the tree is reachable from s, and the capacity it
      carries is positive and at most flow_infty. */
  lemma {:induction false} TreeReachable(g: Graph, s: int, parent: seq<int>, rank: seq<nat>, carried: seq<int>, y: int)
    requires ParentTree(g, s, parent, rank, carried) && 0 <= y < Size(g) && parent[y] != Unvisited
    requires forall u, v :: 0 <= u < Size(g) && 0 <= v < Size(g) ==> g.cap[u][v] >= 0
    ensures Reachable(g, s, y) && 0 < carried[y] <= FlowInfinity
    decreases rank[y]
  {
    if y == s {
      ReachableSelf(g, s);
    } else {
      assert TreeEdge(g, parent, rank, carried, y);
      var x := parent[y];
      TreeReachable(g, s, parent, rank, carried, x);
      ReachableStep(g, s, x, y);
    }
  }

  /** Every residual edge of v leads to a reached node. */
  ghost predicate Closed(g: Graph, parent: seq<int>, v: int)
    requires WellFormed(g) && |parent| == Size(g) && 0 <= v < Size(g)
  {
    forall k :: 0 <= k < |g.adj[v]| && g.cap[v][g.adj[v][k]] > 0 ==> parent[g.adj[v][k]] != Unvisited
  }

  /** The queue q (everything ever pushed, head at index h) against parent_:
      it holds each reached node exactly once, at the position given by its
      rank, with the capacity the node carries; `seen` is the set of reached
      nodes; the nodes before the head are closed; and the sink has not been
      entered from another node. */
  ghost predicate QueueInv(g: Graph, s: int, sink: int, parent: seq<int>, rank: seq<nat>, carried: seq<int>,
                           q: seq<(int, int)>, h: int, seen: set<int>)
  {
    ParentTree(g, s, parent, rank, carried) && 0 <= h <= |q| &&
    (forall k :: 0 <= k < |q| ==> 0 <= q[k].0 < Size(g) && parent[q[k].0] != Unvisited && q[k].1 == carried[q[k].0]) &&
    (forall v {:trigger rank[v]} :: 0 <= v < Size(g) && parent[v] != Unvisited ==> rank[v] < |q| && q[rank[v]].0 == v) &&
    (forall v :: v in seen <==> 0 <= v < Size(g) && parent[v] != Unvisited) && |seen| == |q| &&
    (forall k :: 0 <= k < h ==> Closed(g, parent, q[k].0)) &&
    !(0 <= sink < Size(g) && sink != s && parent[sink] != Unvisited)
  }

  /** QueueInv while the node `from` at position h - 1 has its first i
      neighbours scanned: those lead to reached nodes if they have capacity. */
  ghost predicate ScanInv(g: Graph, s: int, sink: int, parent: seq<int>, rank: seq<nat>, carried: seq<int>,
                          q: seq<(int, int)>, h: int, seen: set<int>, from: int, i: int)
  {
    QueueInv(g, s, sink, parent, rank, carried, q, h - 1, seen) && 1 <= h <= |q| && q[h - 1].0 == from &&
    0 <= from < Size(g) && 0 <= i <= |g.adj[from]| &&
    forall k :: 0 <= k < i && g.cap[from][g.adj[from][k]] > 0 ==> parent[g.adj[from][k]] != Unvisited
  }

  /** What `bfs` promises: parent_ is a search tree; the result is positive
      exactly when the sink (a node other than the source) was reached, and
      then it is the capacity the sink carries; a zero result means the search
      ran to the end, so the reached nodes are exactly the reachable ones. */
  ghost predicate SearchResult(g: Graph, s: int, sink: int, r: int, parent: seq<int>, rank: seq<nat>, carried: seq<int>)
  {
    ParentTree(g, s, parent, rank, carried) &&
    (r > 0 <==> 0 <= sink < Size(g) && sink != s && parent[sink] != Unvisited) &&
    (r > 0 ==> r == carried[sink]) && r >= 0 &&
    (r == 0 ==> forall v :: 0 <= v < Size(g) ==> (parent[v] != Unvisited <==> Reachable(g, s, v)))
  }

  /** The loop of `bfs`. */
  method Search(g: Graph, source: int, sink: int) returns (r: int, parent: seq<int>, ghost rank: seq<nat>, ghost carried: seq<int>)
    requires WellFormed(g) && NonNegative(g) && 0 <= source < Size(g)
    ensures SearchResult(g, source, sink, r, parent, rank, carried)
  {
    parent := seq(Size(g), _ => Unvisited);
    parent := parent[source := NoParent];
    rank := seq(Size(g), _ => 0);
    carried := seq(Size(g), _ => 0)[source := FlowInfinity];
    var q := [(source, FlowInfinity)];
    var h := 0;
    ghost var seen := {source};
    while h < |q|
      invariant QueueInv(g, source, sink, parent, rank, carried, q, h, seen)
      decreases Size(g) - h
    {
      NodeSetBound(seen, Size(g));
      var from, fromFlow := q[h].0, q[h].1;
      h := h + 1;
      var found;
      found, r, parent, rank, carried, q, seen := Scan(g, source, sink, parent, rank, carried, q, h, seen, from, fromFlow);
      if found {
        return;
      }
    }
    r := 0;
    SearchDone(g, source, sink, parent, rank, carried, q, seen);
  }

  /** The neighbours of `from`, in order: an unreached one with capacity is
      entered from `from` and queued, and reaching the sink ends the search. */
  method Scan(g: Graph, ghost s: int, sink: int, parent: seq<int>, ghost rank: seq<nat>, ghost carried: seq<int>,
              q: seq<(int, int)>, h: int, ghost seen: set<int>, from: int, fromFlow: int)
    returns (found: bool, r: int, parent': seq<int>, ghost rank': seq<nat>, ghost carried': seq<int>,
             q': seq<(int, int)>, ghost seen': set<int>)
    requires WellFormed(g) && NonNegative(g) && ScanInv(g, s, sink, parent, rank, carried, q, h, seen, from, 0) && fromFlow == q[h - 1].1
    ensures found ==> SearchResult(g, s, sink, r, parent', rank', carried')
    ensures !found ==> QueueInv(g, s, sink, parent', rank', carried', q', h, seen')
  {
    parent', rank', carried', q', seen' := parent, rank, carried, q, seen;
    var i := 0;
    while i < |g.adj[from]|
      invariant ScanInv(g, s, sink, parent', rank', carried', q', h, seen', from, i) && q'[h - 1].1 == fromFlow
    {
      var to := g.adj[from][i];
      if parent'[to] == Unvisited && g.cap[from][to] != 0 {
        var toFlow := Min(fromFlow, g.cap[from][to]);
        Enter(g, s, sink, parent', rank', carried', q', h, seen', from, i);
        parent' := parent'[to := from];
        rank' := rank'[to := |q'|];
        carried' := carried'[to := toFlow];
        if to == sink {
          r := toFlow;
          found := true;
          TreeReachable(g, s, parent', rank', carried', sink);
          return;
        }
        q' := q' + [(to, toFlow)];
        seen' := seen' + {to};
      }
      i := i + 1;
    }
    found, r := false, 0;
  }

  /** Entering the unreached neighbour `to` (index i of `from`) keeps the
      tree and, once `to` is queued, the queue invariant. */
  lemma Enter(g: Graph, s: int, sink: int, parent: seq<int>, rank: seq<nat>, carried: seq<int>,
              q: seq<(int, int)>, h: int, seen: set<int>, from: int, i: int)
    requires WellFormed(g) && NonNegative(g) && ScanInv(g, s, sink, parent, rank, carried, q, h, seen, from, i) && i < |g.adj[from]|
    requires parent[g.adj[from][i]] == Unvisited && g.cap[from][g.adj[from][i]] != 0
    ensures var to := g.adj[from][i];
      var parent', rank', carried' := parent[to := from], rank[to := |q|], carried[to := Min(q[h - 1].1, g.cap[from][to])];
      ParentTree(g, s, parent', rank', carried') &&
      (to != sink ==> ScanInv(g, s, sink, parent', rank', carried', q + [(to, carried'[to])], h, seen + {to}, from, i + 1))
  {
    var to := g.adj[from][i];
    var parent', rank', carried' := parent[to := from], rank[to := |q|], carried[to := Min(q[h - 1].1, g.cap[from][to])];
    var q', seen' := q + [(to, carried'[to])], seen + {to};
    assert to != s;
    assert HasResidualEdge(g, from, to);
    assert rank[from] < |q|;
    forall y | 0 <= y < Size(g) && y != s && parent'[y] != Unvisited
      ensures TreeEdge(g, parent', rank', carried', y)
    {
      if y != to {
        assert TreeEdge(g, parent, rank, carried, y);
        assert parent[y] != to;
      }
    }
    if to != sink {
      forall v | 0 <= v < Size(g) && parent'[v] != Unvisited
        ensures rank'[v] < |q'| && q'[rank'[v]].0 == v
      {
        if v != to {
          assert rank[v] < |q| && q[rank[v]].0 == v;
        }
      }
      forall k | 0 <= k < |q'|
        ensures 0 <= q'[k].0 < Size(g) && parent'[q'[k].0] != Unvisited && q'[k].1 == carried'[q'[k].0]
      {
        if k < |q| {
          assert q'[k] == q[k] && q[k].0 != to;
        }
      }
      forall k | 0 <= k < h - 1
        ensures Closed(g, parent', q'[k].0)
      {
        assert q'[k] == q[k] && Closed(g, parent, q[k].0);
      }
      assert to !in seen;
    }
  }

  /** Once the queue is exhausted, the reached nodes are the reachable ones. */
  lemma SearchDone(g: Graph, s: int, sink: int, parent: seq<int>, rank: seq<nat>, carried: seq<int>,
                   q: seq<(int, int)>, seen: set<int>)
    requires WellFormed(g) && NonNegative(g) && QueueInv(g, s, sink, parent, rank, carried, q, |q|, seen)
    ensures SearchResult(g, s, sink, 0, parent, rank, carried)
  {
    var mark := seq(Size(g), v requires 0 <= v < Size(g) => parent[v] != Unvisited);
    forall u, k | 0 <= u < Size(g) && 0 <= k < |g.adj[u]| && mark[u] && g.cap[u][g.adj[u][k]] > 0
      ensures mark[g.adj[u][k]]
    {
      assert rank[u] < |q| && q[rank[u]].0 == u;
      assert Closed(g, parent, u);
    }
    forall v | 0 <= v < Size(g)
      ensures parent[v] != Unvisited <==> Reachable(g, s, v)
    {
      if parent[v] != Unvisited {
        TreeReachable(g, s, parent, rank, carried, v);
      }
      if Reachable(g, s, v) {
        ClosedContainsReachable(g, mark, s, v);
      }
    }
  }
}
