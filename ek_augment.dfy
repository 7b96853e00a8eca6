/** The augmentation step of max_flow in include/edmonds_karp.hpp:82-91: the
    walk from the sink back to the source along parent_, moving the amount the
    search found across every edge of the path. */
module EkAugment {
  import opened EkNetwork
  import opened EkBfs

  /** `flow` units have gone from s to t between a and b: the neighbour lists
      are the same, no capacity is negative, every pair of opposite entries
      keeps its sum, s's row lost `flow`, t's row gained it and every other
      row is as it was (flow is conserved at every other node). */
  ghost predicate Moved(s: int, t: int, a: Graph, b: Graph, flow: int)
  {
    WellFormed(a) && WellFormed(b) && b.adj == a.adj && 0 <= s < Size(a) && 0 <= t < Size(a) && NonNegative(b) &&
    (forall x, y {:trigger PairSum(b, x, y)} :: 0 <= x < Size(a) && 0 <= y < Size(a) ==> PairSum(b, x, y) == PairSum(a, x, y)) &&
    forall w {:trigger OutCapacity(b, w)} :: 0 <= w < Size(a) ==>
      OutCapacity(b, w) == OutCapacity(a, w) - (if w == s then flow else 0) + (if w == t then flow else 0)
  }

  lemma MovedStart(s: int, t: int, a: Graph)
    requires WellFormed(a) && NonNegative(a) && 0 <= s < Size(a) && 0 <= t < Size(a)
    ensures Moved(s, t, a, a, 0)
  {
  }

  /** Two movements in a row add up. */
  lemma MovedTrans(s: int, t: int, a: Graph, b: Graph, c: Graph, f1: int, f2: int)
    requires Moved(s, t, a, b, f1) && Moved(s, t, b, c, f2)
    ensures Moved(s, t, a, c, f1 + f2)
  {
    forall x, y | 0 <= x < Size(a) && 0 <= y < Size(a)
      ensures PairSum(c, x, y) == PairSum(a, x, y)
    {
      assert PairSum(c, x, y) == PairSum(b, x, y);
    }
    forall w | 0 <= w < Size(a)
      ensures OutCapacity(c, w) == OutCapacity(a, w) - (if w == s then f1 + f2 else 0) + (if w == t then f1 + f2 else 0)
    {
      assert OutCapacity(c, w) == OutCapacity(b, w) - (if w == s then f2 else 0) + (if w == t then f2 else 0);
    }
  }

  /** Moving f from m to t and then from s to m moves f from s to t. */
  lemma MovedChain(s: int, m: int, t: int, a: Graph, b: Graph, c: Graph, f: int)
    requires Moved(m, t, a, b, f) && Moved(s, m, b, c, f)
    ensures Moved(s, t, a, c, f)
  {
    forall x, y | 0 <= x < Size(a) && 0 <= y < Size(a)
      ensures PairSum(c, x, y) == PairSum(a, x, y)
    {
      assert PairSum(c, x, y) == PairSum(b, x, y);
    }
    forall w | 0 <= w < Size(a)
      ensures OutCapacity(c, w) == OutCapacity(a, w) - (if w == s then f else 0) + (if w == t then f else 0)
    {
      assert OutCapacity(c, w) == OutCapacity(b, w) - (if w == s then f else 0) + (if w == m then f else 0);
    }
  }

  /** The walk of max_flow from the sink t back to the source s: every edge
      (parent_[to], to) of the path loses f and its opposite gains f.  The
      amount f is at most what the sink carries, so no capacity goes
      negative, and the result moves f from s to t. */
  method Retrace(g: Graph, s: int, t: int, parent: seq<int>, ghost rank: seq<nat>, ghost carried: seq<int>, f: int)
    returns (g': Graph)
    requires WellFormed(g) && NonNegative(g) && ParentTree(g, s, parent, rank, carried)
    requires 0 <= t < Size(g) && t != s && parent[t] != Unvisited && 0 < f <= carried[t]
    ensures Moved(s, t, g, g', f)
  {
    g' := g;
    var to := t;
    while to != s
      invariant 0 <= to < Size(g) && parent[to] != Unvisited && f <= carried[to]
      invariant Moved(to, t, g, g', f)
      invariant forall y {:trigger rank[y]} :: 0 <= y < Size(g) && y != s && parent[y] != Unvisited && rank[y] <= rank[to] ==>
        0 <= parent[y] < Size(g) && g'.cap[parent[y]][y] >= g.cap[parent[y]][y]
      decreases rank[to]
    {
      var from := parent[to];
      RetraceStep(g, s, t, parent, rank, carried, f, g', to);
      // capacity_[from][to] -= augm_flow; capacity_[to][from] += augm_flow
      g' := Push(g', from, to, f);
      to := from;
    }
  }

  /** One step of the walk keeps its invariant. */
  lemma RetraceStep(g: Graph, s: int, t: int, parent: seq<int>, rank: seq<nat>, carried: seq<int>, f: int, g': Graph, to: int)
    requires WellFormed(g) && ParentTree(g, s, parent, rank, carried) && 0 < f
    requires 0 <= to < Size(g) && to != s && parent[to] != Unvisited && f <= carried[to]
    requires Moved(to, t, g, g', f)
    requires forall y {:trigger rank[y]} :: 0 <= y < Size(g) && y != s && parent[y] != Unvisited && rank[y] <= rank[to] ==>
      0 <= parent[y] < Size(g) && g'.cap[parent[y]][y] >= g.cap[parent[y]][y]
    ensures var from := parent[to]; var r := Push(g', from, to, f);
      0 <= from < Size(g) && parent[from] != Unvisited && f <= carried[from] && rank[from] < rank[to] &&
      Moved(from, t, g, r, f) &&
      (forall y {:trigger rank[y]} :: 0 <= y < Size(g) && y != s && parent[y] != Unvisited && rank[y] <= rank[from] ==>
        0 <= parent[y] < Size(g) && r.cap[parent[y]][y] >= g.cap[parent[y]][y])
  {
    assert TreeEdge(g, parent, rank, carried, to);
    var from := parent[to];
    assert g'.cap[from][to] >= g.cap[from][to] >= carried[to];
    PushAt(g', from, to, f);
    PushOutCapacity(g', from, to, f);
    assert Moved(from, to, g', Push(g', from, to, f), f);
    MovedChain(from, to, t, g, g', Push(g', from, to, f), f);
  }
}
