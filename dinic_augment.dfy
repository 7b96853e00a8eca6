/** The blocking-flow search `dfs` of include/dinic.hpp:178-205 itself, run on
    the values of adj_ and edge_id_ and proved with the lemmas of DinicDfs. */
module DinicAugment {
  import opened FlowNetwork
  import opened LevelGraph
  import opened DinicDfs

  /** dfs(node, path_cap, sink) on the values of adj_ (g) and edge_id_
      (cursor): the two early returns, then the loop over the edges of
      `node` (AugmentFrom). */
  method Augment(level: seq<int>, sink: int, node: int, g: Network, cursor: seq<nat>, pathCap: int)
    returns (g': Network, cursor': seq<nat>, flow: int)
    requires |level| == |g| && 0 <= sink < |g| && 0 <= node < |g| && Mirrored(g) && NonNegative(g)
    requires |cursor| == |g| && TargetsInRange(g) && CursorsDead(g, level, cursor, sink) && pathCap > 0
    ensures DfsResult(level, sink, node, g, cursor, g', cursor', pathCap, flow)
    ensures node == sink ==> flow == pathCap && g' == g && cursor' == cursor
    ensures node != sink && level[node] >= level[sink] ==> flow == 0 && g' == g && cursor' == cursor
    decreases level[sink] - level[node], 2
  {
    if node == sink {
      DfsAtSink(level, sink, g, cursor, pathCap);
      return g, cursor, pathCap;
    }
    if level[node] >= level[sink] {
      DfsTooDeepStays(level, sink, node, g, cursor, pathCap);
      return g, cursor, 0;
    }
    g', cursor', flow := AugmentFrom(level, sink, node, g, cursor, pathCap);
  }

  /** The loop of dfs: the edges of `node` from its cursor on, each handled
      by AugmentEdge, until pathCap is used up or the edges run out. */
  method AugmentFrom(level: seq<int>, sink: int, node: int, g: Network, cursor: seq<nat>, pathCap: int)
    returns (g': Network, cursor': seq<nat>, flow: int)
    requires |level| == |g| && 0 <= sink < |g| && 0 <= node < |g| && Mirrored(g) && NonNegative(g)
    requires |cursor| == |g| && TargetsInRange(g) && CursorsDead(g, level, cursor, sink) && pathCap > 0
    requires node != sink && level[node] < level[sink]
    ensures DfsResult(level, sink, node, g, cursor, g', cursor', pathCap, flow)
    decreases level[sink] - level[node], 1
  {
    ProgressStay(level, sink, node, g, cursor, 0);
    g', cursor', flow := g, cursor, 0;
    var capLeft := pathCap;
    while cursor'[node] < |g'[node]|
      invariant 0 < capLeft && flow + capLeft == pathCap && 0 <= flow
      invariant Progress(level, sink, node, g, cursor, g', cursor', flow)
      decreases |g[node]| - cursor'[node]
    {
      g', cursor', flow, capLeft := AugmentEdge(level, sink, node, g, cursor, g', cursor', flow, capLeft);
      if capLeft == 0 {
        break;
      }
      cursor' := cursor'[node := cursor'[node] + 1];
    }
    if capLeft > 0 {
      DfsDone(level, sink, node, g, cursor, g', cursor', flow);
    }
  }

  /** One turn of the loop of dfs over the edge under the cursor of `node`:
      when it has capacity left and goes one level up, a recursive call sends
      what it can through it and the edge and its mirror are updated. With
      capacity left afterwards, Progress holds with the cursor moved past it. */
  method AugmentEdge(level: seq<int>, sink: int, node: int, ghost g: Network, ghost cursor: seq<nat>,
                     g1: Network, c1: seq<nat>, flow: int, capLeft: int)
    returns (g2: Network, c2: seq<nat>, flow': int, capLeft': int)
    requires Progress(level, sink, node, g, cursor, g1, c1, flow) && 0 <= flow && 0 < capLeft
    requires node != sink && level[node] < level[sink] && c1[node] < |g1[node]|
    ensures |c2| == |g| && c2[node] == c1[node] && flow' + capLeft' == flow + capLeft && 0 <= flow' && 0 <= capLeft'
    ensures capLeft' == 0 ==> Progress(level, sink, node, g, cursor, g2, c2, flow')
    ensures capLeft' > 0 ==> Progress(level, sink, node, g, cursor, g2, c2[node := c2[node] + 1], flow')
    decreases level[sink] - level[node], 0
  {
    var i := c1[node];
    var e := g1[node][i];
    if e.capacity > 0 && level[node] + 1 == level[e.node] {
      var sub := if capLeft < e.capacity then capLeft else e.capacity;
      var g3, c3, path := Augment(level, sink, e.node, g1, c1, sub);
      EdgeStep(level, sink, node, g, cursor, g1, c1, flow, capLeft, i, sub, g3, c3, path);
      g2, c2, flow', capLeft' := Push(g3, node, i, path), c3, flow + path, capLeft - path;
    } else {
      SkipEdge(level, sink, node, g, cursor, g1, c1, flow);
      g2, c2, flow', capLeft' := g1, c1, flow, capLeft;
    }
  }
}
