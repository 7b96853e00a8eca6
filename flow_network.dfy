/** The residual network of the Dinic solver (include/dinic.hpp): one list of
    edges per node, each edge naming the position of its mirror in the target
    node's list, so that a push along an edge updates the mirror in O(1). */
module FlowNetwork {
  import opened Insertions

  datatype EdgeType = Directional | DirectionalReverse | Bidirectional

  datatype Edge = Edge(node: int, rev: int, capacity: int, kind: EdgeType)

  /** adj_: the edge list of every node */
  type Network = seq<seq<Edge>>

  /** A directional edge is mirrored by its reverse, a bidirectional one by a bidirectional one. */
  predicate Paired(a: EdgeType, b: EdgeType)
  {
    match a
    case Directional => b == DirectionalReverse
    case DirectionalReverse => b == Directional
    case Bidirectional => b == Bidirectional
  }

  /** Edge i of node u points at another node, and the edge at its `rev` position
      points back at u and at position i. */
  predicate MirrorAt(g: Network, u: int, i: int)
    requires 0 <= u < |g| && 0 <= i < |g[u]|
  {
    var e: Edge := g[u][i];
    0 <= e.node < |g| && e.node != u && 0 <= e.rev < |g[e.node]| &&
    g[e.node][e.rev].node == u && g[e.node][e.rev].rev == i &&
    Paired(e.kind, g[e.node][e.rev].kind)
  }

  predicate Mirrored(g: Network)
  {
    forall u, i :: 0 <= u < |g| && 0 <= i < |g[u]| ==> MirrorAt(g, u, i)
  }

  /** Every edge points at a node of the network. */
  predicate TargetsInRange(g: Network)
  {
    forall u, i :: 0 <= u < |g| && 0 <= i < |g[u]| ==> 0 <= g[u][i].node < |g|
  }

  lemma MirroredTargetsInRange(g: Network)
    requires Mirrored(g)
    ensures TargetsInRange(g)
  {
    forall u, i | 0 <= u < |g| && 0 <= i < |g[u]|
      ensures 0 <= g[u][i].node < |g|
    {
      assert MirrorAt(g, u, i);
    }
  }

  predicate NonNegative(g: Network)
  {
    forall u, i :: 0 <= u < |g| && 0 <= i < |g[u]| ==> g[u][i].capacity >= 0
  }

  /** `a` and `b` have the same edges, up to their capacities. */
  predicate SameShape(a: Network, b: Network)
  {
    |a| == |b| &&
    (forall u :: 0 <= u < |a| ==> |a[u]| == |b[u]|) &&
    forall u, i :: 0 <= u < |a| && 0 <= i < |a[u]| && i < |b[u]| ==>
      a[u][i].node == b[u][i].node && a[u][i].rev == b[u][i].rev && a[u][i].kind == b[u][i].kind
  }

  /** A network of n nodes with no edges (the constructor's adj_(V)). */
  function Empty(n: nat): (g: Network)
    ensures |g| == n && Mirrored(g) && NonNegative(g)
    ensures forall u :: 0 <= u < n ==> g[u] == []
  {
    seq(n, _ => [])
  }

  /** The effect of one edge adder: add_directional_edge appends (v, cap, DIRECTIONAL)
      to u's list and (u, 0, DIRECTIONAL_REVERSE) to v's; add_bidirectional_edge gives
      both directions the capacity and type BIDIRECTIONAL.  Each edge's `rev` is the
      length of the other list before the append. */
  function Insert(g: Network, ins: Insertion): (r: Network)
    requires 0 <= ins.u < |g| && 0 <= ins.v < |g| && ins.u != ins.v
  {
    var u, v := ins.u, ins.v;
    var forward := Edge(v, |g[v]|, ins.cap, if ins.DirectionalEdge? then Directional else Bidirectional);
    var backward := Edge(u, |g[u]|, if ins.DirectionalEdge? then 0 else ins.cap,
                         if ins.DirectionalEdge? then DirectionalReverse else Bidirectional);
    g[u := g[u] + [forward]][v := g[v] + [backward]]
  }

  /** The network after the adders are called with `list`, in order. */
  function InsertAll(g: Network, list: seq<Insertion>): (r: Network)
    requires AllFit(list, |g|)
    ensures |r| == |g|
    decreases |list|
  {
    if list == [] then g
    else
      var prefix := list[..|list| - 1];
      assert AllFit(prefix, |g|);
      Insert(InsertAll(g, prefix), list[|list| - 1])
  }

  /** Calling one more adder after `list` inserts into the network `list` built. */
  lemma InsertAllSnoc(g: Network, list: seq<Insertion>, ins: Insertion)
    requires AllFit(list, |g|)
    requires 0 <= ins.u < |g| && 0 <= ins.v < |g| && ins.u != ins.v && ins.cap >= 0
    ensures AllFit(list + [ins], |g|) && InsertAll(g, list + [ins]) == Insert(InsertAll(g, list), ins)
  {
    assert (list + [ins])[..|list|] == list;
  }

  /** Calling the adders with a and then with b builds what calling them
      with a + b does. */
  lemma {:induction false} InsertAllAppend(g: Network, a: seq<Insertion>, b: seq<Insertion>)
    requires AllFit(a, |g|) && AllFit(b, |g|)
    ensures AllFit(a + b, |g|) && InsertAll(g, a + b) == InsertAll(InsertAll(g, a), b)
    decreases |b|
  {
    if b == [] {
      assert a + b == a;
    } else {
      var front := b[..|b| - 1];
      assert AllFit(front, |g|);
      InsertAllAppend(g, a, front);
      assert (a + b)[..|a + b| - 1] == a + front;
      assert (a + b)[|a + b| - 1] == b[|b| - 1];
    }
  }

  /** An insertion appends exactly one edge to each endpoint's list, leaves every
      other list alone, and keeps every edge mirrored and every capacity >= 0. */
  lemma InsertKeepsInvariant(g: Network, ins: Insertion)
    requires Mirrored(g) && NonNegative(g)
    requires 0 <= ins.u < |g| && 0 <= ins.v < |g| && ins.u != ins.v && ins.cap >= 0
    ensures Mirrored(Insert(g, ins)) && NonNegative(Insert(g, ins))
    ensures |Insert(g, ins)[ins.u]| == |g[ins.u]| + 1 && |Insert(g, ins)[ins.v]| == |g[ins.v]| + 1
    ensures forall w :: 0 <= w < |g| && w != ins.u && w != ins.v ==> Insert(g, ins)[w] == g[w]
  {
    var r: Network := Insert(g, ins);
    var u, v := ins.u, ins.v;
    forall w, i | 0 <= w < |r| && 0 <= i < |r[w]|
      ensures MirrorAt(r, w, i)
    {
      if w == u && i == |g[u]| {
      } else if w == v && i == |g[v]| {
      } else {
        assert r[w][i] == g[w][i];
        assert MirrorAt(g, w, i);
        var e := g[w][i];
        assert e.rev < |g[e.node]|;
        assert r[e.node][e.rev] == g[e.node][e.rev];
      }
    }
  }

  lemma InsertAllKeepsInvariant(g: Network, list: seq<Insertion>)
    requires Mirrored(g) && NonNegative(g) && AllFit(list, |g|)
    ensures Mirrored(InsertAll(g, list)) && NonNegative(InsertAll(g, list))
    decreases |list|
  {
    if list != [] {
      var prefix := list[..|list| - 1];
      assert AllFit(prefix, |g|);
      InsertAllKeepsInvariant(g, prefix);
      InsertKeepsInvariant(InsertAll(g, prefix), list[|list| - 1]);
    }
  }

  /** Residual-graph edge: some edge of u leads to v with capacity left. */
  predicate HasResidualEdge(g: Network, u: int, v: int)
    requires 0 <= u < |g|
  {
    exists i :: 0 <= i < |g[u]| && g[u][i].node == v && g[u][i].capacity > 0
  }

  /** p is a walk over edges with capacity > 0. */
  ghost predicate IsResidualPath(g: Network, p: seq<int>)
  {
    |p| > 0 &&
    (forall k :: 0 <= k < |p| ==> 0 <= p[k] < |g|) &&
    forall k :: 0 <= k < |p| - 1 ==> HasResidualEdge(g, p[k], p[k + 1])
  }

  ghost predicate Reachable(g: Network, s: int, t: int)
  {
    exists p :: IsResidualPath(g, p) && p[0] == s && p[|p| - 1] == t
  }

  lemma ReachableSelf(g: Network, s: int)
    requires 0 <= s < |g|
    ensures Reachable(g, s, s)
  {
    assert IsResidualPath(g, [s]);
  }

  lemma ReachableStep(g: Network, s: int, u: int, v: int)
    requires 0 <= u < |g| && 0 <= v < |g|
    requires Reachable(g, s, u) && HasResidualEdge(g, u, v)
    ensures Reachable(g, s, v)
  {
    var p :| IsResidualPath(g, p) && p[0] == s && p[|p| - 1] == u;
    var q := p + [v];
    forall k | 0 <= k < |q| - 1
      ensures HasResidualEdge(g, q[k], q[k + 1])
    {
      if k + 1 < |p| {
        assert q[k] == p[k] && q[k + 1] == p[k + 1];
      }
    }
    assert IsResidualPath(g, q);
  }

  /** A marking that contains s and is closed under residual edges contains every
      node reachable from s. */
  lemma {:induction false} ClosedContainsReachable(g: Network, mark: seq<bool>, s: int, t: int)
    requires |mark| == |g| && 0 <= s < |g| && mark[s]
    requires forall u, i :: 0 <= u < |g| && 0 <= i < |g[u]| && mark[u] && g[u][i].capacity > 0 ==>
               0 <= g[u][i].node < |g| && mark[g[u][i].node]
    requires Reachable(g, s, t)
    ensures 0 <= t < |g| && mark[t]
  {
    var p :| IsResidualPath(g, p) && p[0] == s && p[|p| - 1] == t;
    var k := 0;
    while k < |p| - 1
      invariant 0 <= k < |p| && mark[p[k]]
    {
      assert HasResidualEdge(g, p[k], p[k + 1]);
      var i :| 0 <= i < |g[p[k]]| && g[p[k]][i].node == p[k + 1] && g[p[k]][i].capacity > 0;
      k := k + 1;
    }
  }

  /** Total residual capacity on the out-list of a node. */
  function SumCapacities(es: seq<Edge>): int
  {
    if es == [] then 0 else SumCapacities(es[..|es| - 1]) + es[|es| - 1].capacity
  }

  function OutCapacity(g: Network, w: int): int
    requires 0 <= w < |g|
  {
    SumCapacities(g[w])
  }

  lemma {:induction false} SumCapacitiesUpdate(es: seq<Edge>, i: int, c: int)
    requires 0 <= i < |es|
    ensures SumCapacities(es[i := es[i].(capacity := c)]) == SumCapacities(es) - es[i].capacity + c
    decreases |es|
  {
    var es' := es[i := es[i].(capacity := c)];
    assert es'[..|es'| - 1] == if i < |es| - 1 then es[..|es| - 1][i := es[i].(capacity := c)] else es[..|es| - 1];
    if i < |es| - 1 {
      SumCapacitiesUpdate(es[..|es| - 1], i, c);
    }
  }

  /** Moving `amount` along edge i of u: the edge loses it, its mirror gains it
      (dfs, include/dinic.hpp:192-194). */
  function Push(g: Network, u: int, i: int, amount: int): (r: Network)
    requires Mirrored(g) && 0 <= u < |g| && 0 <= i < |g[u]|
    ensures |r| == |g|
  {
    assert MirrorAt(g, u, i);
    var e: Edge := g[u][i];
    var g1: Network := g[u := g[u][i := e.(capacity := e.capacity - amount)]];
    g1[e.node := g1[e.node][e.rev := g1[e.node][e.rev].(capacity := g1[e.node][e.rev].capacity + amount)]]
  }

  /** The capacity of edge i of u plus that of the edge at its mirror position. */
  function PairSum(g: Network, u: int, i: int): int
    requires 0 <= u < |g| && 0 <= i < |g[u]| && 0 <= g[u][i].node < |g| && 0 <= g[u][i].rev < |g[g[u][i].node]|
  {
    g[u][i].capacity + g[g[u][i].node][g[u][i].rev].capacity
  }

  /** The capacities of e and its mirror always add up to the same value. */
  predicate PairSumsKept(a: Network, b: Network)
    requires Mirrored(a) && SameShape(a, b)
  {
    forall u, i {:trigger PairSum(b, u, i)} :: 0 <= u < |a| && 0 <= i < |a[u]| ==>
      assert MirrorAt(a, u, i);
      PairSum(a, u, i) == PairSum(b, u, i)
  }

  /** A push changes exactly two entries: edge i of u loses `amount` and its mirror
      gains it; every other edge is untouched. */
  lemma PushAt(g: Network, u: int, i: int, amount: int)
    requires Mirrored(g) && 0 <= u < |g| && 0 <= i < |g[u]|
    ensures MirrorAt(g, u, i)
    ensures var r := Push(g, u, i, amount); var e := g[u][i];
      |r| == |g| && (forall w :: 0 <= w < |g| ==> |r[w]| == |g[w]|) &&
      r[u][i] == e.(capacity := e.capacity - amount) &&
      r[e.node][e.rev] == g[e.node][e.rev].(capacity := g[e.node][e.rev].capacity + amount) &&
      (forall w :: 0 <= w < |g| && w != u && w != e.node ==> r[w] == g[w]) &&
      (forall j :: 0 <= j < |g[u]| && j != i ==> r[u][j] == g[u][j]) &&
      (forall j :: 0 <= j < |g[e.node]| && j != e.rev ==> r[e.node][j] == g[e.node][j])
  {
    assert MirrorAt(g, u, i);
  }

  lemma PushShape(g: Network, u: int, i: int, amount: int)
    requires Mirrored(g) && 0 <= u < |g| && 0 <= i < |g[u]|
    ensures SameShape(g, Push(g, u, i, amount)) && Mirrored(Push(g, u, i, amount))
  {
    PushAt(g, u, i, amount);
    var r: Network := Push(g, u, i, amount);
    assert SameShape(g, r);
    SameShapeMirrored(g, r);
  }

  /** A push keeps the capacity sum of every edge and its mirror. */
  lemma PushPairSums(g: Network, u: int, i: int, amount: int)
    requires Mirrored(g) && 0 <= u < |g| && 0 <= i < |g[u]|
    ensures SameShape(g, Push(g, u, i, amount)) && PairSumsKept(g, Push(g, u, i, amount))
  {
    PushAt(g, u, i, amount);
    PushShape(g, u, i, amount);
    var r: Network := Push(g, u, i, amount);
    var e := g[u][i];
    forall w, j | 0 <= w < |g| && 0 <= j < |g[w]| && MirrorAt(g, w, j)
      ensures PairSum(g, w, j) == PairSum(r, w, j)
    {
      var f := g[w][j];
      if w == u && j == i {
      } else if w == e.node && j == e.rev {
      } else {
        assert r[w][j] == g[w][j];
        assert !(f.node == u && f.rev == i);
        assert !(f.node == e.node && f.rev == e.rev);
        assert r[f.node][f.rev] == g[f.node][f.rev];
      }
    }
  }

  /** A push moves `amount` of out-capacity from u to the edge's target. */
  lemma PushOutCapacity(g: Network, u: int, i: int, amount: int)
    requires Mirrored(g) && 0 <= u < |g| && 0 <= i < |g[u]|
    ensures forall w :: 0 <= w < |g| ==>
      OutCapacity(Push(g, u, i, amount), w) ==
      OutCapacity(g, w) - (if w == u then amount else 0) + (if w == g[u][i].node then amount else 0)
  {
    PushAt(g, u, i, amount);
    var r: Network := Push(g, u, i, amount);
    var e := g[u][i];
    SumCapacitiesUpdate(g[u], i, e.capacity - amount);
    assert r[u] == g[u][i := e.(capacity := e.capacity - amount)];
    SumCapacitiesUpdate(g[e.node], e.rev, g[e.node][e.rev].capacity + amount);
    assert r[e.node] == g[e.node][e.rev := g[e.node][e.rev].(capacity := g[e.node][e.rev].capacity + amount)];
  }

  lemma PushZero(g: Network, u: int, i: int)
    requires Mirrored(g) && 0 <= u < |g| && 0 <= i < |g[u]|
    ensures Push(g, u, i, 0) == g
  {
    PushAt(g, u, i, 0);
    var r: Network := Push(g, u, i, 0);
    var e := g[u][i];
    assert r[u] == g[u];
    assert r[e.node] == g[e.node];
  }

  lemma PushNonNegative(g: Network, u: int, i: int, amount: int)
    requires Mirrored(g) && NonNegative(g) && 0 <= u < |g| && 0 <= i < |g[u]|
    requires 0 <= amount <= g[u][i].capacity
    ensures NonNegative(Push(g, u, i, amount))
  {
    PushAt(g, u, i, amount);
  }

  lemma SameShapeMirrored(a: Network, b: Network)
    requires Mirrored(a) && SameShape(a, b)
    ensures Mirrored(b)
  {
    forall u, i | 0 <= u < |b| && 0 <= i < |b[u]|
      ensures MirrorAt(b, u, i)
    {
      assert MirrorAt(a, u, i);
    }
  }

  lemma SameShapeTrans(a: Network, b: Network, c: Network)
    requires SameShape(a, b) && SameShape(b, c)
    ensures SameShape(a, c)
  {
  }

  lemma PairSumsTrans(a: Network, b: Network, c: Network)
    requires Mirrored(a) && SameShape(a, b) && SameShape(b, c)
    requires PairSumsKept(a, b)
    requires Mirrored(b) && PairSumsKept(b, c)
    ensures SameShape(a, c) && PairSumsKept(a, c)
  {
    forall u, i | 0 <= u < |a| && 0 <= i < |a[u]| && MirrorAt(a, u, i)
      ensures PairSum(a, u, i) == PairSum(c, u, i)
    {
      assert PairSum(a, u, i) == PairSum(b, u, i);
      assert MirrorAt(b, u, i);
      assert PairSum(b, u, i) == PairSum(c, u, i);
    }
  }
}
