/** The Dinic max-flow solver of include/dinic.hpp: the adjacency lists with
    mirrored edges, the BFS that levels the residual graph, the DFS that pushes
    blocking flow along level paths, and the partition / min-cut read-outs. */
module DinicSolver {
  import opened Insertions
  import opened FlowNetwork
  import opened LevelGraph
  import opened DinicBfs
  import opened DinicDfs
  import opened DinicCut
  import opened DinicAugment

  /** flow_infty: numeric_limits<flow_t>::max() for a 32-bit flow_t. */
  const FlowInfinity: int := 0x7fff_ffff

  class Dinic {
    const V: int
    var flowCalled: bool
    var adj: Network
    var level: seq<int>
    var edgeId: seq<nat>

    /** Every edge has its mirror, no capacity is negative, and the node count
        stays below id_infty so that a level never reaches it. */
    ghost predicate Valid()
      reads this
    {
      Shaped() && Mirrored(adj) && NonNegative(adj)
    }

    ghost predicate Shaped()
      reads this
    {
      0 <= V < IdInfinity && |adj| == V && |level| == V && TargetsInRange(adj)
    }

    constructor (V: int)
      requires 0 <= V < IdInfinity
      ensures Valid() && this.V == V && !flowCalled
      ensures adj == Empty(V) && level == seq(V, _ => 0) && edgeId == []
    {
      this.V := V;
      flowCalled := false;
      adj := Empty(V);
      level := seq(V, _ => 0);
      edgeId := [];
      new;
      MirroredTargetsInRange(adj);
    }

    method AddDirectionalEdge(u: int, v: int, capacity: int)
      requires Valid() && 0 <= u < V && 0 <= v < V && u != v && capacity >= 0
      modifies this`adj
      ensures Valid()
      ensures adj == Insert(old(adj), DirectionalEdge(u, v, capacity))
      ensures adj[u] == old(adj[u]) + [Edge(v, |old(adj[v])|, capacity, Directional)]
      ensures adj[v] == old(adj[v]) + [Edge(u, |old(adj[u])|, 0, DirectionalReverse)]
      ensures forall w :: 0 <= w < V && w != u && w != v ==> adj[w] == old(adj[w])
    {
      InsertKeepsInvariant(adj, DirectionalEdge(u, v, capacity));
      var uv := Edge(v, |adj[v]|, capacity, Directional);
      var vu := Edge(u, |adj[u]|, 0, DirectionalReverse);
      adj := adj[u := adj[u] + [uv]];
      adj := adj[v := adj[v] + [vu]];
      MirroredTargetsInRange(adj);
    }

    method AddBidirectionalEdge(u: int, v: int, capacity: int)
      requires Valid() && 0 <= u < V && 0 <= v < V && u != v && capacity >= 0
      modifies this`adj
      ensures Valid()
      ensures adj == Insert(old(adj), BidirectionalEdge(u, v, capacity))
      ensures adj[u] == old(adj[u]) + [Edge(v, |old(adj[v])|, capacity, Bidirectional)]
      ensures adj[v] == old(adj[v]) + [Edge(u, |old(adj[u])|, capacity, Bidirectional)]
      ensures forall w :: 0 <= w < V && w != u && w != v ==> adj[w] == old(adj[w])
    {
      InsertKeepsInvariant(adj, BidirectionalEdge(u, v, capacity));
      var uv := Edge(v, |adj[v]|, capacity, Bidirectional);
      var vu := Edge(u, |adj[u]|, capacity, Bidirectional);
      adj := adj[u := adj[u] + [uv]];
      adj := adj[v := adj[v] + [vu]];
      MirroredTargetsInRange(adj);
    }

    /** Levels the residual graph from the source; the result tells whether
        the sink was reached. */
    method Bfs(source: int, sink: int) returns (reached: bool)
      requires Valid() && 0 <= source < V && 0 <= sink < V
      modifies this`level
      ensures Valid()
      ensures IsBfsLevels(adj, level, source)
      ensures reached <==> level[sink] < IdInfinity
    {
      level := BfsLevels(adj, source);
      reached := level[sink] < IdInfinity;
    }
  
    /** dfs: sends at most pathCap units from `node` to the sink along level
        paths, resuming each node's edge list at its cursor edge_id_ and
        updating adj_ and edge_id_ as it goes. */
    method Dfs(node: int, pathCap: int, sink: int) returns (flow: int)
      requires Valid() && |edgeId| == V && 0 <= node < V && 0 <= sink < V && pathCap > 0
      requires CursorsDead(adj, level, edgeId, sink)
      modifies this`adj, this`edgeId
      ensures Valid() && |edgeId| == V
      ensures DfsResult(level, sink, node, old(adj), old(edgeId), adj, edgeId, pathCap, flow)
    {
      adj, edgeId, flow := Augment(level, sink, node, adj, edgeId, pathCap);
    }

    /** Repeats BFS levelling and blocking-flow rounds until the sink is cut
        off or flow_infty units have been sent. */
    method MaxFlow(source: int, sink: int) returns (flow: int)
      requires Valid() && 0 <= source < V && 0 <= sink < V
      modifies this`adj, this`level, this`edgeId, this`flowCalled
      ensures Valid() && flowCalled && 0 <= flow <= FlowInfinity
      ensures Moved(source, sink, old(adj), adj, flow)
      ensures flow < FlowInfinity ==> !Reachable(adj, source, sink)
    {
      flow := 0;
      var flowCap := FlowInfinity;
      ghost var a0 := adj;
      MovedStart(source, sink, adj);
      while flowCap > 0
        invariant Valid() && 0 <= flowCap && flow + flowCap == FlowInfinity
        invariant Moved(source, sink, a0, adj, flow)
        decreases flowCap
      {
        var reached := Bfs(source, sink);
        if !reached {
          BfsLevelIsDistance(adj, level, source, sink);
          break;
        }
        edgeId := seq(V, _ => 0);
        ghost var a1 := adj;
        BfsLevelPath(adj, level, source, sink);
        var increment := Dfs(source, flowCap, sink);
        assert increment > 0;
        MovedRound(level, source, sink, a0, a1, seq(V, _ => 0), adj, edgeId, flow, increment);
        flow := flow + increment;
        flowCap := flowCap - increment;
      }
      flowCalled := true;
    }

    /** The nodes still reachable from the source over edges with capacity
        left. */
    method Partition(source: int) returns (part: seq<bool>)
      requires Valid() && flowCalled && 0 <= source < V
      ensures |part| == V && forall v :: 0 <= v < V ==> (part[v] <==> Reachable(adj, source, v))
    {
      part := ReachableFrom(adj, source);
    }

    /** The original edges from the source side of the partition to the other
        side, node by node in edge order. */
    method MinCut(source: int) returns (cut: seq<(int, int)>)
      requires Valid() && flowCalled && 0 <= source < V
      ensures cut == CutList(adj, ReachMarks(adj, source), V)
    {
      var part := Partition(source);
      assert part == ReachMarks(adj, source);
      cut := CutEdges(adj, part);
    }
  }
}
