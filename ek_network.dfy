/** The residual network of the Edmonds-Karp solver
    (include/edmonds_karp.hpp): neighbour lists adj_ and a dense V x V matrix
    capacity_ of residual capacities. */
module EkNetwork {
  import opened Insertions

  /** adj_ and capacity_. */
  datatype Graph = Graph(adj: seq<seq<int>>, cap: seq<seq<int>>)

  function Size(g: Graph): int
  {
    |g.adj|
  }

  /** capacity_ is V x V and every neighbour is a node. */
  predicate WellFormed(g: Graph)
  {
    |g.cap| == |g.adj| &&
    (forall u :: 0 <= u < |g.cap| ==> |g.cap[u]| == |g.adj|) &&
    forall u, k :: 0 <= u < |g.adj| && 0 <= k < |g.adj[u]| ==> 0 <= g.adj[u][k] < |g.adj|
  }

  predicate NonNegative(g: Graph)
    requires WellFormed(g)
  {
    forall u, v :: 0 <= u < |g.adj| && 0 <= v < |g.adj| ==> g.cap[u][v] >= 0
  }

  /** The constructor: no neighbours and an all-zero capacity matrix. */
  function Empty(n: nat): (g: Graph)
    ensures WellFormed(g) && NonNegative(g) && Size(g) == n
    ensures forall u :: 0 <= u < n ==> g.adj[u] == []
    ensures forall u, v :: 0 <= u < n && 0 <= v < n ==> g.cap[u][v] == 0
  {
    Graph(seq(n, _ => []), seq(n, _ => seq(n, _ => 0)))
  }

  /** capacity_[u][v] = x. */
  function SetCap(c: seq<seq<int>>, u: int, v: int, x: int): (r: seq<seq<int>>)
    requires 0 <= u < |c| && 0 <= v < |c[u]|
    ensures |r| == |c| && (forall w :: 0 <= w < |c| ==> |r[w]| == |c[w]|)
    ensures r[u][v] == x
    ensures forall w, y :: 0 <= w < |c| && 0 <= y < |c[w]| && (w, y) != (u, v) ==> r[w][y] == c[w][y]
  {
    c[u := c[u][v := x]]
  }

  /** The effect of one edge adder.  add_directional_edge adds to an existing
      nonzero capacity_[u][v] and leaves adj_ alone; otherwise it appends v to
      adj_[u] and u to adj_[v] and sets capacity_[u][v].  add_bidirectional_edge
      always appends both neighbours and overwrites both directions. */
  function Insert(g: Graph, ins: Insertion): (r: Graph)
    requires WellFormed(g) && 0 <= ins.u < Size(g) && 0 <= ins.v < Size(g)
    ensures WellFormed(r) && Size(r) == Size(g)
  {
    var u, v, c := ins.u, ins.v, ins.cap;
    if ins.DirectionalEdge? && g.cap[u][v] != 0 then
      Graph(g.adj, SetCap(g.cap, u, v, g.cap[u][v] + c))
    else
      var adj1 := g.adj[u := g.adj[u] + [v]];
      var adj2 := adj1[v := adj1[v] + [u]];
      var cap1 := SetCap(g.cap, u, v, c);
      Graph(adj2, if ins.DirectionalEdge? then cap1 else SetCap(cap1, v, u, c))
  }

  /** The graph after the adders are called with `list`, in order. */
  function InsertAll(g: Graph, list: seq<Insertion>): (r: Graph)
    requires WellFormed(g) && AllFit(list, Size(g))
    ensures WellFormed(r) && Size(r) == Size(g)
    decreases |list|
  {
    if list == [] then g
    else
      var prefix := list[..|list| - 1];
      assert AllFit(prefix, Size(g));
      Insert(InsertAll(g, prefix), list[|list| - 1])
  }

  /** Calling one more adder after `list` inserts into the graph `list` built. */
  lemma InsertAllSnoc(g: Graph, list: seq<Insertion>, ins: Insertion)
    requires WellFormed(g) && AllFit(list, Size(g))
    requires 0 <= ins.u < Size(g) && 0 <= ins.v < Size(g) && ins.u != ins.v && ins.cap >= 0
    ensures AllFit(list + [ins], Size(g)) && InsertAll(g, list + [ins]) == Insert(InsertAll(g, list), ins)
  {
    assert (list + [ins])[..|list|] == list;
  }

  /** Calling the adders with a and then with b builds what calling them
      with a + b does. */
  lemma {:induction false} InsertAllAppend(g: Graph, a: seq<Insertion>, b: seq<Insertion>)
    requires WellFormed(g) && AllFit(a, Size(g)) && AllFit(b, Size(g))
    ensures AllFit(a + b, Size(g)) && InsertAll(g, a + b) == InsertAll(InsertAll(g, a), b)
    decreases |b|
  {
    if b == [] {
      assert a + b == a;
    } else {
      var front := b[..|b| - 1];
      assert AllFit(front, Size(g));
      InsertAllAppend(g, a, front);
      assert (a + b)[..|a + b| - 1] == a + front;
      assert (a + b)[|a + b| - 1] == b[|b| - 1];
    }
  }

  /** add_directional_edge on a pair that already has capacity: the capacity
      grows by the new amount, and nothing else changes. */
  lemma InsertDirectionalExisting(g: Graph, u: int, v: int, c: int)
    requires WellFormed(g) && 0 <= u < Size(g) && 0 <= v < Size(g) && g.cap[u][v] != 0
    ensures var r := Insert(g, DirectionalEdge(u, v, c));
      r.adj == g.adj && r.cap[u][v] == g.cap[u][v] + c &&
      forall x, y :: 0 <= x < Size(g) && 0 <= y < Size(g) && (x, y) != (u, v) ==> r.cap[x][y] == g.cap[x][y]
  {
  }

  /** add_directional_edge on a pair with no capacity: v joins adj_[u], u joins
      adj_[v], capacity_[u][v] is set, and capacity_[v][u] is not touched. */
  lemma InsertDirectionalNew(g: Graph, u: int, v: int, c: int)
    requires WellFormed(g) && 0 <= u < Size(g) && 0 <= v < Size(g) && u != v && g.cap[u][v] == 0
    ensures var r := Insert(g, DirectionalEdge(u, v, c));
      r.adj[u] == g.adj[u] + [v] && r.adj[v] == g.adj[v] + [u] &&
      (forall w :: 0 <= w < Size(g) && w != u && w != v ==> r.adj[w] == g.adj[w]) &&
      r.cap[u][v] == c && r.cap[v][u] == g.cap[v][u] &&
      forall x, y :: 0 <= x < Size(g) && 0 <= y < Size(g) && (x, y) != (u, v) ==> r.cap[x][y] == g.cap[x][y]
  {
  }

  /** add_bidirectional_edge overwrites both directions with the new capacity,
      whatever they held before. */
  lemma InsertBidirectional(g: Graph, u: int, v: int, c: int)
    requires WellFormed(g) && 0 <= u < Size(g) && 0 <= v < Size(g) && u != v
    ensures var r := Insert(g, BidirectionalEdge(u, v, c));
      r.adj[u] == g.adj[u] + [v] && r.adj[v] == g.adj[v] + [u] &&
      (forall w :: 0 <= w < Size(g) && w != u && w != v ==> r.adj[w] == g.adj[w]) &&
      r.cap[u][v] == c && r.cap[v][u] == c &&
      forall x, y :: 0 <= x < Size(g) && 0 <= y < Size(g) && (x, y) != (u, v) && (x, y) != (v, u) ==>
        r.cap[x][y] == g.cap[x][y]
  {
  }

  /** Adders with non-negative capacities keep every capacity non-negative. */
  lemma {:induction false} InsertAllNonNegative(g: Graph, list: seq<Insertion>)
    requires WellFormed(g) && NonNegative(g) && AllFit(list, Size(g))
    ensures NonNegative(InsertAll(g, list))
    decreases |list|
  {
    if list != [] {
      var prefix := list[..|list| - 1];
      assert AllFit(prefix, Size(g));
      InsertAllNonNegative(g, prefix);
      var h := InsertAll(g, prefix);
      var ins := list[|list| - 1];
      assert ins.cap >= 0 && h.cap[ins.u][ins.v] >= 0;
    }
  }

  /** Residual edge: v is a neighbour of u and capacity_[u][v] is positive. */
  predicate HasResidualEdge(g: Graph, u: int, v: int)
    requires WellFormed(g) && 0 <= u < Size(g)
  {
    exists k :: 0 <= k < |g.adj[u]| && g.adj[u][k] == v && g.cap[u][v] > 0
  }

  /** p is a walk over residual edges. */
  ghost predicate IsResidualPath(g: Graph, p: seq<int>)
  {
    WellFormed(g) && |p| > 0 &&
    (forall k :: 0 <= k < |p| ==> 0 <= p[k] < Size(g)) &&
    forall k :: 0 <= k < |p| - 1 ==> HasResidualEdge(g, p[k], p[k + 1])
  }

  ghost predicate Reachable(g: Graph, s: int, t: int)
  {
    exists p :: IsResidualPath(g, p) && p[0] == s && p[|p| - 1] == t
  }

  lemma ReachableSelf(g: Graph, s: int)
    requires WellFormed(g) && 0 <= s < Size(g)
    ensures Reachable(g, s, s)
  {
    assert IsResidualPath(g, [s]);
  }

  lemma ReachableStep(g: Graph, s: int, u: int, v: int)
    requires WellFormed(g) && 0 <= u < Size(g) && 0 <= v < Size(g)
    requires Reachable(g, s, u) && HasResidualEdge(g, u, v)
    ensures Reachable(g, s, v)
  {
    var p :| IsResidualPath(g, p) && p[0] == s && p[|p| - 1] == u;
    var q := p + [v];
    forall k | 0 <= k < |q| - 1
      ensures HasResidualEdge(g, q[k], q[k + 1])
    {
      if k + 1 < |p| {
        assert q[k] == p[k] && q[k + 1] == p[k + 1];
      }
    }
    assert IsResidualPath(g, q);
  }

  /** A marking that contains s and is closed under residual edges contains
      every node reachable from s. */
  lemma {:induction false} ClosedContainsReachable(g: Graph, mark: seq<bool>, s: int, t: int)
    requires WellFormed(g) && |mark| == Size(g) && 0 <= s < Size(g) && mark[s]
    requires forall u, k :: 0 <= u < Size(g) && 0 <= k < |g.adj[u]| && mark[u] && g.cap[u][g.adj[u][k]] > 0 ==>
               mark[g.adj[u][k]]
    requires Reachable(g, s, t)
    ensures 0 <= t < Size(g) && mark[t]
  {
    var p :| IsResidualPath(g, p) && p[0] == s && p[|p| - 1] == t;
    var i := 0;
    while i < |p| - 1
      invariant 0 <= i < |p| && mark[p[i]]
    {
      assert HasResidualEdge(g, p[i], p[i + 1]);
      var k :| 0 <= k < |g.adj[p[i]]| && g.adj[p[i]][k] == p[i + 1] && g.cap[p[i]][p[i + 1]] > 0;
      i := i + 1;
    }
  }

  /** Total of a row of capacity_. */
  function Sum(s: seq<int>): int
  {
    if s == [] then 0 else Sum(s[..|s| - 1]) + s[|s| - 1]
  }

  function OutCapacity(g: Graph, w: int): int
    requires 0 <= w < |g.cap|
  {
    Sum(g.cap[w])
  }

  lemma {:induction false} SumUpdate(s: seq<int>, i: int, x: int)
    requires 0 <= i < |s|
    ensures Sum(s[i := x]) == Sum(s) - s[i] + x
    decreases |s|
  {
    var s' := s[i := x];
    assert s'[..|s'| - 1] == if i < |s| - 1 then s[..|s| - 1][i := x] else s[..|s| - 1];
    if i < |s| - 1 {
      SumUpdate(s[..|s| - 1], i, x);
    }
  }

  lemma {:induction false} SumNonNegative(s: seq<int>)
    requires forall i :: 0 <= i < |s| ==> s[i] >= 0
    ensures Sum(s) >= 0
    decreases |s|
  {
    if s != [] {
      SumNonNegative(s[..|s| - 1]);
    }
  }

  /** One step of the augmentation in max_flow: capacity_[from][to] loses
      `amount` and capacity_[to][from] gains it. */
  function Push(g: Graph, from: int, to: int, amount: int): (r: Graph)
    requires WellFormed(g) && 0 <= from < Size(g) && 0 <= to < Size(g)
    ensures WellFormed(r) && r.adj == g.adj
  {
    var c1 := SetCap(g.cap, from, to, g.cap[from][to] - amount);
    Graph(g.adj, SetCap(c1, to, from, c1[to][from] + amount))
  }

  /** capacity_[u][v] + capacity_[v][u]. */
  function PairSum(g: Graph, u: int, v: int): int
    requires WellFormed(g) && 0 <= u < Size(g) && 0 <= v < Size(g)
  {
    g.cap[u][v] + g.cap[v][u]
  }

  /** A push between two distinct nodes changes exactly the two entries, and
      keeps the sum of every pair of opposite entries. */
  lemma PushAt(g: Graph, from: int, to: int, amount: int)
    requires WellFormed(g) && 0 <= from < Size(g) && 0 <= to < Size(g) && from != to
    ensures var r := Push(g, from, to, amount);
      r.cap[from][to] == g.cap[from][to] - amount && r.cap[to][from] == g.cap[to][from] + amount &&
      (forall x, y :: 0 <= x < Size(g) && 0 <= y < Size(g) && (x, y) != (from, to) && (x, y) != (to, from) ==>
         r.cap[x][y] == g.cap[x][y]) &&
      forall x, y {:trigger PairSum(r, x, y)} :: 0 <= x < Size(g) && 0 <= y < Size(g) ==> PairSum(r, x, y) == PairSum(g, x, y)
  {
  }

  /** A push moves `amount` of out-capacity from `from` to `to`. */
  lemma PushOutCapacity(g: Graph, from: int, to: int, amount: int)
    requires WellFormed(g) && 0 <= from < Size(g) && 0 <= to < Size(g) && from != to
    ensures forall w {:trigger OutCapacity(Push(g, from, to, amount), w)} :: 0 <= w < Size(g) ==>
      OutCapacity(Push(g, from, to, amount), w) ==
      OutCapacity(g, w) - (if w == from then amount else 0) + (if w == to then amount else 0)
  {
    var c1 := SetCap(g.cap, from, to, g.cap[from][to] - amount);
    SumUpdate(g.cap[from], to, g.cap[from][to] - amount);
    assert c1[from] == g.cap[from][to := g.cap[from][to] - amount];
    var r := Push(g, from, to, amount);
    SumUpdate(c1[to], from, c1[to][from] + amount);
    assert r.cap[to] == c1[to][from := c1[to][from] + amount];
  }
}
