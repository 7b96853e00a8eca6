/** The read-outs of the Dinic solver after max_flow: `partition`
    (include/dinic.hpp:129-150), the nodes still reachable from the source over
    edges with capacity left, and `min_cut` (include/dinic.hpp:112-127), the
    original edges that leave that set. */
module DinicCut {
  import opened FlowNetwork
  import Counting

  /** reachable[v] for every node: the source side of the cut. */
  ghost function ReachMarks(g: Network, s: int): (r: seq<bool>)
    ensures |r| == |g| && forall v :: 0 <= v < |g| ==> (r[v] <==> Reachable(g, s, v))
  {
    seq(|g|, v => Reachable(g, s, v))
  }

  /** Every edge of v with capacity left leads to a marked node. */
  ghost predicate Closed(g: Network, part: seq<bool>, v: int)
    requires TargetsInRange(g) && |part| == |g| && 0 <= v < |g|
  {
    forall i :: 0 <= i < |g[v]| && g[v][i].capacity > 0 ==> part[g[v][i].node]
  }

  /** The stack st of `partition` against the marks: it holds marked nodes,
      every marked node is reachable from s, and every marked node off the
      stack has all its residual edges leading to marked nodes. */
  ghost predicate StackInv(g: Network, s: int, part: seq<bool>, st: seq<int>, marked: set<int>)
  {
    TargetsInRange(g) && |part| == |g| && 0 <= s < |g| && part[s] &&
    (forall v :: v in marked <==> 0 <= v < |g| && part[v]) &&
    (forall k :: 0 <= k < |st| ==> 0 <= st[k] < |g| && part[st[k]]) &&
    (forall v :: 0 <= v < |g| && part[v] ==> Reachable(g, s, v)) &&
    (forall v :: 0 <= v < |g| && part[v] && v !in st ==> Closed(g, part, v))
  }

  /** The loop of `partition`: a depth-first search from s over edges with
      capacity left, marking each node when it is pushed. */
  method ReachableFrom(g: Network, s: int) returns (part: seq<bool>)
    requires TargetsInRange(g) && 0 <= s < |g|
    ensures |part| == |g| && forall v :: 0 <= v < |g| ==> (part[v] <==> Reachable(g, s, v))
  {
    part := seq(|g|, _ => false);
    part := part[s := true];
    var st := [s];
    ghost var marked: set<int> := {s};
    ReachableSelf(g, s);
    while |st| > 0
      invariant StackInv(g, s, part, st, marked)
      decreases |g| - |marked|, |st|
    {
      var cur := st[|st| - 1];
      st := st[..|st| - 1];
      ghost var m0, st0 := marked, st;
      Counting.NodeSetBound(marked, |g|);
      var i := 0;
      while i < |g[cur]|
        invariant 0 <= i <= |g[cur]| && PopInv(g, s, part, st, marked, cur)
        invariant forall j :: 0 <= j < i && g[cur][j].capacity > 0 ==> part[g[cur][j].node]
        invariant |m0| <= |marked| <= |g| && (|marked| == |m0| ==> st == st0)
        decreases |g[cur]| - i
      {
        var x := g[cur][i].node;
        if g[cur][i].capacity > 0 && !part[x] {
          Mark(g, s, part, st, marked, cur, x, i);
          part := part[x := true];
          st := st + [x];
          marked := marked + {x};
        }
        i := i + 1;
      }
      PopDone(g, s, part, st, marked, cur);
    }
    forall v | 0 <= v < |g| && Reachable(g, s, v)
      ensures part[v]
    {
      ClosedContainsReachable(g, part, s, v);
    }
  }

  /** StackInv while the edges of the popped node `cur` are being scanned:
      `cur` itself is exempt from the closure requirement. */
  ghost predicate PopInv(g: Network, s: int, part: seq<bool>, st: seq<int>, marked: set<int>, cur: int)
  {
    TargetsInRange(g) && |part| == |g| && 0 <= s < |g| && part[s] && 0 <= cur < |g| && part[cur] &&
    (forall v :: v in marked <==> 0 <= v < |g| && part[v]) &&
    (forall k :: 0 <= k < |st| ==> 0 <= st[k] < |g| && part[st[k]]) &&
    (forall v :: 0 <= v < |g| && part[v] ==> Reachable(g, s, v)) &&
    (forall v :: 0 <= v < |g| && part[v] && v !in st && v != cur ==> Closed(g, part, v))
  }

  /** Marking the target x of a residual edge of `cur` and pushing it. */
  lemma Mark(g: Network, s: int, part: seq<bool>, st: seq<int>, marked: set<int>, cur: int, x: int, i: int)
    requires PopInv(g, s, part, st, marked, cur)
    requires 0 <= i < |g[cur]| && g[cur][i].node == x && g[cur][i].capacity > 0 && !part[x]
    requires forall j :: 0 <= j < i && g[cur][j].capacity > 0 ==> part[g[cur][j].node]
    ensures PopInv(g, s, part[x := true], st + [x], marked + {x}, cur)
    ensures x !in marked && |marked + {x}| <= |g|
    ensures forall j :: 0 <= j <= i && g[cur][j].capacity > 0 ==> part[x := true][g[cur][j].node]
  {
    var part' := part[x := true];
    assert HasResidualEdge(g, cur, x);
    ReachableStep(g, s, cur, x);
    Counting.NodeSetBound(marked + {x}, |g|);
    forall v | 0 <= v < |g| && part'[v] && v !in st + [x] && v != cur
      ensures Closed(g, part', v)
    {
      assert v !in st && part[v];
      assert Closed(g, part, v);
    }
    forall k | 0 <= k < |st + [x]|
      ensures 0 <= (st + [x])[k] < |g| && part'[(st + [x])[k]]
    {
      if k < |st| {
        assert (st + [x])[k] == st[k];
      }
    }
  }

  /** Once `cur` is scanned, it is closed and StackInv holds again. */
  lemma PopDone(g: Network, s: int, part: seq<bool>, st: seq<int>, marked: set<int>, cur: int)
    requires PopInv(g, s, part, st, marked, cur)
    requires forall j :: 0 <= j < |g[cur]| && g[cur][j].capacity > 0 ==> part[g[cur][j].node]
    ensures StackInv(g, s, part, st, marked)
  {
    assert Closed(g, part, cur);
  }

  /** Whether min_cut reports edge e of node u: it leaves the source side and
      is not the reverse half of a directional edge. */
  predicate Crosses(part: seq<bool>, u: int, e: Edge)
    requires 0 <= u < |part| && 0 <= e.node < |part|
  {
    part[u] && !part[e.node] && e.kind != DirectionalReverse
  }

  /** The pairs reported for the first m edges of node u, in edge order. */
  function NodeCut(g: Network, part: seq<bool>, u: int, m: int): seq<(int, int)>
    requires TargetsInRange(g) && |part| == |g| && 0 <= u < |g| && 0 <= m <= |g[u]|
    decreases m
  {
    if m == 0 then []
    else NodeCut(g, part, u, m - 1) + (if Crosses(part, u, g[u][m - 1]) then [(u, g[u][m - 1].node)] else [])
  }

  /** The pairs reported for nodes 0 .. n-1, node by node. */
  function CutList(g: Network, part: seq<bool>, n: int): seq<(int, int)>
    requires TargetsInRange(g) && |part| == |g| && 0 <= n <= |g|
    decreases n
  {
    if n == 0 then [] else CutList(g, part, n - 1) + NodeCut(g, part, n - 1, |g[n - 1]|)
  }

  /** The double loop of `min_cut` over the nodes and their edges. */
  method CutEdges(g: Network, part: seq<bool>) returns (cut: seq<(int, int)>)
    requires TargetsInRange(g) && |part| == |g|
    ensures cut == CutList(g, part, |g|)
  {
    cut := [];
    var node := 0;
    while node < |g|
      invariant 0 <= node <= |g| && cut == CutList(g, part, node)
    {
      var i := 0;
      while i < |g[node]|
        invariant 0 <= i <= |g[node]| && cut == CutList(g, part, node) + NodeCut(g, part, node, i)
      {
        var e := g[node][i];
        if part[node] && !part[e.node] && e.kind != DirectionalReverse {
          cut := cut + [(node, e.node)];
        }
        i := i + 1;
      }
      node := node + 1;
    }
  }

  /** A pair is in NodeCut exactly when one of the first m edges of u reaches
      that node and crosses. */
  lemma {:induction false} NodeCutMembers(g: Network, part: seq<bool>, u: int, m: int, v: int)
    requires TargetsInRange(g) && |part| == |g| && 0 <= u < |g| && 0 <= m <= |g[u]|
    ensures (u, v) in NodeCut(g, part, u, m) <==>
      exists i :: 0 <= i < m && g[u][i].node == v && Crosses(part, u, g[u][i])
    ensures forall p :: p in NodeCut(g, part, u, m) ==> p.0 == u
    decreases m
  {
    if m > 0 {
      NodeCutMembers(g, part, u, m - 1, v);
      if (u, v) in NodeCut(g, part, u, m) && (u, v) !in NodeCut(g, part, u, m - 1) {
        assert g[u][m - 1].node == v && Crosses(part, u, g[u][m - 1]);
      }
    }
  }

  /** min_cut reports (u, v) exactly when some edge of u to v crosses; it
      reports nothing else. */
  lemma {:induction false} CutListMembers(g: Network, part: seq<bool>, n: int, u: int, v: int)
    requires TargetsInRange(g) && |part| == |g| && 0 <= n <= |g|
    ensures (u, v) in CutList(g, part, n) <==>
      0 <= u < n && exists i :: 0 <= i < |g[u]| && g[u][i].node == v && Crosses(part, u, g[u][i])
    decreases n
  {
    if n > 0 {
      CutListMembers(g, part, n - 1, u, v);
      NodeCutMembers(g, part, n - 1, |g[n - 1]|, v);
    }
  }

  /** When the source side is the set reachable over residual edges, every
      reported edge has no capacity left. */
  lemma CutSaturated(g: Network, s: int, part: seq<bool>, u: int, i: int)
    requires TargetsInRange(g) && |part| == |g| && 0 <= s < |g|
    requires forall v :: 0 <= v < |g| ==> (part[v] <==> Reachable(g, s, v))
    requires 0 <= u < |g| && 0 <= i < |g[u]| && Crosses(part, u, g[u][i])
    ensures g[u][i].capacity <= 0
  {
    if g[u][i].capacity > 0 {
      assert HasResidualEdge(g, u, g[u][i].node);
      ReachableStep(g, s, u, g[u][i].node);
    }
  }
}
