/** The Edmonds-Karp max-flow solver of include/edmonds_karp.hpp: neighbour
    lists and a dense capacity matrix, a breadth-first search that records
    parents and the bottleneck, augmentation along the parent chain, and the
    partition / min-cut read-outs. */
module EdmondsKarpSolver {
  import opened Insertions
  import opened EkNetwork
  import opened EkBfs
  import opened EkAugment
  import opened EkCut

  /** The `sink` argument partition and min_cut pass to bfs so that the
      search never stops early. */
  const NeverReached: int := -3

  class EdmondsKarp {
    const V: int
    var flowCalled: bool
    var adj: seq<seq<int>>
    var capacity: seq<seq<int>>
    var parent: seq<int>

    /** adj_ and capacity_ as one value. */
    function Net(): Graph
      reads this
    {
      Graph(adj, capacity)
    }

    /** capacity_ is V x V, neighbours are nodes, no capacity is negative. */
    ghost predicate Valid()
      reads this
    {
      0 <= V && |adj| == V && |parent| == V && WellFormed(Net()) && NonNegative(Net())
    }

    constructor (V: int)
      requires 0 <= V
      ensures Valid() && this.V == V && !flowCalled
      ensures Net() == Empty(V)
    {
      this.V := V;
      flowCalled := false;
      adj := seq(V, _ => []);
      capacity := seq(V, _ => seq(V, _ => 0));
      parent := seq(V, _ => 0);
    }

    method AddDirectionalEdge(u: int, v: int, cap: int)
      requires Valid() && 0 <= u < V && 0 <= v < V && cap >= 0
      modifies this`adj, this`capacity
      ensures Valid()
      ensures Net() == Insert(old(Net()), DirectionalEdge(u, v, cap))
    {
      if capacity[u][v] != 0 {
        capacity := capacity[u := capacity[u][v := capacity[u][v] + cap]];
        return;
      }
      adj := adj[u := adj[u] + [v]];
      adj := adj[v := adj[v] + [u]];
      capacity := capacity[u := capacity[u][v := cap]];
    }

    method AddBidirectionalEdge(u: int, v: int, cap: int)
      requires Valid() && 0 <= u < V && 0 <= v < V && cap >= 0
      modifies this`adj, this`capacity
      ensures Valid()
      ensures Net() == Insert(old(Net()), BidirectionalEdge(u, v, cap))
    {
      adj := adj[u := adj[u] + [v]];
      adj := adj[v := adj[v] + [u]];
      capacity := capacity[u := capacity[u][v := cap]];
      capacity := capacity[v := capacity[v][u := cap]];
    }

    /** Refills parent_ from the source; the result is the bottleneck of the
      path found to the sink, or 0. */
    method Bfs(source: int, sink: int) returns (r: int, ghost rank: seq<nat>, ghost carried: seq<int>)
      requires Valid() && 0 <= source < V
      modifies this`parent
      ensures Valid()
      ensures SearchResult(Net(), source, sink, r, parent, rank, carried)
    {
      r, parent, rank, carried := Search(Net(), source, sink);
    }

    /** Augments along shortest residual paths until the sink is cut off. */
    method MaxFlow(source: int, sink: int) returns (flow: int)
      requires Valid() && 0 <= source < V && 0 <= sink < V
      modifies this`capacity, this`parent, this`flowCalled
      ensures Valid() && flowCalled && flow >= 0
      ensures Moved(source, sink, old(Net()), Net(), flow)
      ensures source != sink ==> !Reachable(Net(), source, sink)
    {
      flow := 0;
      ghost var g0 := Net();
      MovedStart(source, sink, g0);
      while true
        invariant Valid() && flow >= 0 && Moved(source, sink, g0, Net(), flow)
        decreases OutCapacity(Net(), source)
      {
        SumNonNegative(capacity[source]);
        var augmFlow, rank, carried := Bfs(source, sink);
        if augmFlow == 0 {
          break;
        }
        flow := flow + augmFlow;
        ghost var g1 := Net();
        var g2 := Retrace(Net(), source, sink, parent, rank, carried, augmFlow);
        capacity := g2.cap;
        MovedTrans(source, sink, g0, g1, Net(), flow - augmFlow, augmFlow);
      }
      flowCalled := true;
    }

    /** 255 for the nodes reachable from the source over residual edges, 0 for
        the rest. */
    method Partition(source: int) returns (part: seq<int>)
      requires Valid() && flowCalled && 0 <= source < V
      modifies this`parent
      ensures Valid()
      ensures |part| == V && forall i :: 0 <= i < V ==> part[i] == if Reachable(Net(), source, i) then 255 else 0
    {
      var unused, rank, carried := Bfs(source, NeverReached);
      part := seq(V, _ => 0);
      var i := 0;
      while i != V
        invariant 0 <= i <= V && |part| == V
        invariant forall j :: 0 <= j < i ==> part[j] == if parent[j] == Unvisited then 0 else 255
      {
        if parent[i] == Unvisited {
          part := part[i := 0];
        } else {
          part := part[i := 255];
        }
        i := i + 1;
      }
    }

    /** Every neighbour entry (u, v) with u reachable from the source and v
        not, in list order. */
    method MinCut(source: int) returns (cut: seq<(int, int)>)
      requires Valid() && flowCalled && 0 <= source < V
      modifies this`parent
      ensures Valid()
      ensures cut == CutList(Net(), ReachMarks(Net(), source), V)
    {
      var unused, rank, carried := Bfs(source, NeverReached);
      cut := CutPairs(Net(), parent, ReachMarks(Net(), source));
    }
  }
}
