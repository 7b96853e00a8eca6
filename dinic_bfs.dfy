/** The level search `bfs` of include/dinic.hpp:152-176, stated on values: the
    queue q[0 .. q_end) with its head q_start, `bfs_check` and the invariants
    that make the final levels the BFS levels of the residual graph. */
module DinicBfs {
  import opened FlowNetwork
  import opened LevelGraph
  import opened Counting

  /** The state of `bfs`: the levels, the queue q[0 .. q_end), and, for the
      proof only, the queue position of every reached node and the set of
      reached nodes. */
  datatype BfsState = BfsState(level: seq<int>, queue: seq<int>, pos: seq<int>, seen: set<int>)

  /** bfs_check(x, d) on an unreached x: x gets level d and joins the queue. */
  ghost function Enqueued(r: BfsState, x: int, d: int): (r': BfsState)
    requires 0 <= x < |r.level| && |r.pos| == |r.level|
    ensures r'.level == r.level[x := d] && r'.queue == r.queue + [x] && |r'.pos| == |r.pos|
  {
    BfsState(r.level[x := d], r.queue + [x], r.pos[x := |r.queue|], r.seen + {x})
  }

  /** The queue against the levels: it starts at the source, holds exactly the
      reached nodes (`pos` says where), each at a position no smaller than its
      level, and every reached node other than the source has a predecessor
      one level lower. */
  ghost predicate QueueInv(g: Network, r: BfsState, s: int)
  {
    |r.level| == |g| && 0 < |r.queue| <= |g| < IdInfinity && 0 <= s < |g| && r.level[s] == 0 && |r.pos| == |g| &&
    (forall k :: 0 <= k < |r.queue| ==> 0 <= r.queue[k] < |g| && 0 <= r.level[r.queue[k]] <= k) &&
    (forall v :: v in r.seen <==> 0 <= v < |g| && r.level[v] < IdInfinity) && |r.seen| == |r.queue| &&
    (forall v {:trigger r.pos[v]} :: 0 <= v < |g| ==>
       r.level[v] == IdInfinity || (0 <= r.pos[v] < |r.queue| && r.queue[r.pos[v]] == v)) &&
    (forall v {:trigger HasPredecessor(g, r.level, v)} :: 0 <= v < |g| && v != s && r.level[v] < IdInfinity ==>
       HasPredecessor(g, r.level, v))
  }

  /** The unscanned queue q[from .. q_end) holds level d before index b and
      level d + 1 from b on, and no reached node is beyond level d + 1. */
  ghost predicate Front(r: BfsState, from: int, b: int, d: int)
  {
    0 <= from <= b <= |r.queue| &&
    (forall k :: from <= k < |r.queue| && 0 <= r.queue[k] < |r.level| ==>
       r.level[r.queue[k]] == if k < b then d else d + 1) &&
    (forall v :: 0 <= v < |r.level| && r.level[v] < IdInfinity ==> r.level[v] <= d + 1)
  }

  /** The residual edges of the first n queued nodes lead to reached nodes at
      most one level higher. */
  ghost predicate ClosedUpTo(g: Network, level: seq<int>, order: seq<int>, n: int)
    requires TargetsInRange(g) && |level| == |g| && 0 <= n <= |order|
    requires forall k :: 0 <= k < |order| ==> 0 <= order[k] < |g|
  {
    forall k, i :: 0 <= k < n && 0 <= i < |g[order[k]]| && g[order[k]][i].capacity > 0 ==>
      level[g[order[k]][i].node] < IdInfinity && level[g[order[k]][i].node] <= level[order[k]] + 1
  }

  /** bfs_check on an unreached node x entered from the reached node u keeps
      the queue invariant. */
  lemma Enqueue(g: Network, r: BfsState, s: int, u: int, x: int)
    requires QueueInv(g, r, s) && 0 <= u < |g| && 0 <= r.level[u] < |r.queue|
    requires 0 <= x < |g| && r.level[x] == IdInfinity && HasResidualEdge(g, u, x)
    ensures |r.queue| < |g| && QueueInv(g, Enqueued(r, x, r.level[u] + 1), s)
  {
    var r' := Enqueued(r, x, r.level[u] + 1);
    assert x !in r.seen;
    NodeSetBound(r.seen + {x}, |g|);
    EnqueuePredecessors(g, r.level, r'.level, s, u, x);
    forall k | 0 <= k < |r'.queue|
      ensures 0 <= r'.queue[k] < |g| && 0 <= r'.level[r'.queue[k]] <= k
    {
      if k < |r.queue| {
        assert r'.queue[k] == r.queue[k] && r.queue[k] != x;
        assert r'.level[r.queue[k]] == r.level[r.queue[k]];
      } else {
        assert r'.queue[k] == x && r'.level[x] == r.level[u] + 1;
      }
    }
  }

  lemma EnqueuePredecessors(g: Network, level: seq<int>, level': seq<int>, s: int, u: int, x: int)
    requires |level| == |g| && 0 <= u < |g| && 0 <= x < |g| && x != s
    requires level[x] == IdInfinity && level[u] < IdInfinity && HasResidualEdge(g, u, x)
    requires level' == level[x := level[u] + 1]
    requires forall v {:trigger HasPredecessor(g, level, v)} :: 0 <= v < |g| && v != s && level[v] < IdInfinity ==>
      HasPredecessor(g, level, v)
    ensures forall v {:trigger HasPredecessor(g, level', v)} :: 0 <= v < |g| && v != s && level'[v] < IdInfinity ==>
      HasPredecessor(g, level', v)
  {
    forall v | 0 <= v < |g| && v != s && level'[v] < IdInfinity
      ensures HasPredecessor(g, level', v)
    {
      if v == x {
        assert level'[u] == level[u];
      } else {
        assert HasPredecessor(g, level, v);
        var w :| 0 <= w < |g| && level[w] < IdInfinity && level[w] + 1 == level[v] && HasResidualEdge(g, w, v);
        assert level'[w] == level[w];
      }
    }
  }

  /** Lowering an unreached node keeps the edges already scanned closed. */
  lemma ClosedKept(g: Network, level: seq<int>, order: seq<int>, n: int, x: int, d: int)
    requires TargetsInRange(g) && |level| == |g| && 0 <= n <= |order|
    requires forall k :: 0 <= k < |order| ==> 0 <= order[k] < |g| && level[order[k]] < IdInfinity
    requires 0 <= x < |g| && 0 <= d && level[x] == IdInfinity
    requires ClosedUpTo(g, level, order, n)
    ensures ClosedUpTo(g, level[x := d], order + [x], n)
  {
    var level', order' := level[x := d], order + [x];
    forall k, i | 0 <= k < n && 0 <= i < |g[order'[k]]| && g[order'[k]][i].capacity > 0
      ensures level'[g[order'[k]][i].node] < IdInfinity && level'[g[order'[k]][i].node] <= level'[order'[k]] + 1
    {
      assert order'[k] == order[k];
      assert level[g[order[k]][i].node] < IdInfinity;
    }
  }

  /** While `top` (at q_start - 1, level d) has its first i edges scanned: the
      queue invariant holds, the unscanned queue is level d then d + 1 split at
      b, the nodes before `top` are closed, and the targets of the scanned
      edges with capacity left are reached at level d + 1 or lower. */
  ghost predicate ScanInv(g: Network, r: BfsState, s: int, qStart: int, top: int, d: int, b: int, i: int)
  {
    TargetsInRange(g) && QueueInv(g, r, s) && 1 <= qStart <= |r.queue| && r.queue[qStart - 1] == top &&
    r.level[top] == d && Front(r, qStart, b, d) && ClosedUpTo(g, r.level, r.queue, qStart - 1) &&
    0 <= i <= |g[top]| &&
    forall j :: 0 <= j < i && g[top][j].capacity > 0 ==>
      r.level[g[top][j].node] < IdInfinity && r.level[g[top][j].node] <= d + 1
  }

  /** bfs_check on the target x of edge i of `top` when x gets a lower level:
      x was unreached, and is queued at level d + 1. */
  lemma ScanVisit(g: Network, r: BfsState, s: int, qStart: int, top: int, d: int, b: int, i: int)
    requires ScanInv(g, r, s, qStart, top, d, b, i) && i < |g[top]|
    requires g[top][i].capacity > 0 && r.level[top] + 1 < r.level[g[top][i].node]
    ensures ScanInv(g, Enqueued(r, g[top][i].node, r.level[top] + 1), s, qStart, top, d, b, i + 1)
  {
    var x := g[top][i].node;
    var r' := Enqueued(r, x, d + 1);
    assert Front(r, qStart, b, d);
    var k := r.pos[x];
    assert r.level[x] == IdInfinity;
    assert r.level[top] <= qStart - 1;
    assert HasResidualEdge(g, top, x);
    Enqueue(g, r, s, top, x);
    ClosedKept(g, r.level, r.queue, qStart - 1, x, d + 1);
    assert r'.queue[qStart - 1] == top;
    FrontEnqueue(r, qStart, b, d, x);
    ScannedEnqueue(g, r.level, top, i, x, d);
  }

  /** Queuing an unreached node at level d + 1 keeps the front shape. */
  lemma FrontEnqueue(r: BfsState, qStart: int, b: int, d: int, x: int)
    requires |r.pos| == |r.level| && 0 <= x < |r.level| && r.level[x] == IdInfinity
    requires forall k :: 0 <= k < |r.queue| ==> 0 <= r.queue[k] < |r.level| && r.level[r.queue[k]] < IdInfinity
    requires Front(r, qStart, b, d)
    ensures Front(Enqueued(r, x, d + 1), qStart, b, d)
  {
    var r' := Enqueued(r, x, d + 1);
    forall k | qStart <= k < |r'.queue| && 0 <= r'.queue[k] < |r'.level|
      ensures r'.level[r'.queue[k]] == if k < b then d else d + 1
    {
      if k < |r.queue| {
        assert r'.queue[k] == r.queue[k] && r.queue[k] != x;
      }
    }
  }

  /** Giving the target x of edge i of `top` level d + 1 closes edges 0 .. i. */
  lemma ScannedEnqueue(g: Network, level: seq<int>, top: int, i: int, x: int, d: int)
    requires TargetsInRange(g) && |level| == |g| && 0 <= top < |g| && 0 <= i < |g[top]| && g[top][i].node == x
    requires forall j :: 0 <= j < i && g[top][j].capacity > 0 ==>
      level[g[top][j].node] < IdInfinity && level[g[top][j].node] <= d + 1
    requires level[x] == IdInfinity && d + 1 < IdInfinity
    ensures forall j :: 0 <= j <= i && g[top][j].capacity > 0 ==>
      level[x := d + 1][g[top][j].node] < IdInfinity && level[x := d + 1][g[top][j].node] <= d + 1
  {
    forall j | 0 <= j <= i && g[top][j].capacity > 0
      ensures level[x := d + 1][g[top][j].node] < IdInfinity && level[x := d + 1][g[top][j].node] <= d + 1
    {
      if j < i {
        assert level[g[top][j].node] < IdInfinity;
      }
    }
  }

  /** bfs_check on the target of edge i of `top` when nothing changes. */
  lemma ScanSkip(g: Network, r: BfsState, s: int, qStart: int, top: int, d: int, b: int, i: int)
    requires ScanInv(g, r, s, qStart, top, d, b, i) && i < |g[top]|
    requires !(g[top][i].capacity > 0 && r.level[top] + 1 < r.level[g[top][i].node])
    ensures ScanInv(g, r, s, qStart, top, d, b, i + 1)
  {
  }

  /** Once all edges of `top` are scanned, the first q_start queued nodes are
      closed; if the unscanned queue is all at level d + 1, that becomes the
      new front level. */
  lemma ScanDone(g: Network, r: BfsState, s: int, qStart: int, top: int, d: int, b: int)
    requires 0 <= top < |g| && ScanInv(g, r, s, qStart, top, d, b, |g[top]|)
    ensures QueueInv(g, r, s) && ClosedUpTo(g, r.level, r.queue, qStart)
    ensures qStart == b ==> Front(r, qStart, |r.queue|, d + 1)
  {
  }

  /** Once every queued node is scanned, the levels are the BFS levels. */
  lemma BfsQueueDone(g: Network, r: BfsState, s: int)
    requires TargetsInRange(g) && QueueInv(g, r, s)
    requires ClosedUpTo(g, r.level, r.queue, |r.queue|)
    ensures IsBfsLevels(g, r.level, s)
  {
    forall u, j | 0 <= u < |g| && 0 <= j < |g[u]| && r.level[u] < IdInfinity && g[u][j].capacity > 0
      ensures r.level[g[u][j].node] < IdInfinity && r.level[g[u][j].node] <= r.level[u] + 1
    {
      var k := r.pos[u];
      assert r.queue[k] == u;
    }
    forall v | 0 <= v < |g|
      ensures r.level[v] == IdInfinity || 0 <= r.level[v] < |g|
    {
      if r.level[v] != IdInfinity {
        var k := r.pos[v];
        assert r.queue[k] == v && 0 <= r.level[r.queue[k]] <= k < |g|;
      }
    }
  }

  /** The loop of `bfs`: q[0 .. q_end) is the queue `q`, q_start its head. */
  method BfsLevels(g: Network, source: int) returns (level: seq<int>)
    requires TargetsInRange(g) && |g| < IdInfinity && 0 <= source < |g|
    ensures IsBfsLevels(g, level, source)
  {
    level := seq(|g|, _ => IdInfinity);
    // bfs_check(source, 0)
    level := level[source := 0];
    var q := [source];
    var qStart := 0;
    ghost var st := BfsState(level, q, seq(|g|, _ => 0), {source});
    ghost var d, b := 0, 1;
    BfsStart(g, source, st);
    while qStart < |q|
      invariant st.level == level && st.queue == q
      invariant QueueInv(g, st, source) && Front(st, qStart, b, d) && (qStart < |q| ==> qStart < b)
      invariant ClosedUpTo(g, level, q, qStart)
      decreases |g| - qStart
    {
      var top := q[qStart];
      qStart := qStart + 1;
      level, q, st := BfsScan(g, level, q, st, source, qStart, top, d, b);
      if qStart == b {
        d, b := d + 1, |q|;
      }
    }
    BfsQueueDone(g, st, source);
  }

  lemma BfsStart(g: Network, s: int, st: BfsState)
    requires TargetsInRange(g) && |g| < IdInfinity && 0 <= s < |g|
    requires st == BfsState(seq(|g|, _ => IdInfinity)[s := 0], [s], seq(|g|, _ => 0), {s})
    ensures QueueInv(g, st, s) && Front(st, 0, 1, 0) && ClosedUpTo(g, st.level, st.queue, 0)
  {
    assert forall v :: 0 <= v < |g| && st.level[v] < IdInfinity ==> v == s;
  }

  /** One round of the loop of `bfs`: bfs_check on the target of every edge of
      `top` (the node at q_start - 1) with capacity left. */
  method BfsScan(g: Network, level: seq<int>, q: seq<int>, ghost st: BfsState, ghost s: int,
                 qStart: int, top: int, ghost d: int, ghost b: int)
    returns (level': seq<int>, q': seq<int>, ghost st': BfsState)
    requires st.level == level && st.queue == q
    requires TargetsInRange(g) && 1 <= qStart <= |q| && q[qStart - 1] == top
    requires QueueInv(g, st, s) && ClosedUpTo(g, level, q, qStart - 1)
    requires level[top] == d && Front(st, qStart, b, d)
    ensures st'.level == level' && st'.queue == q' && |q| <= |q'|
    ensures QueueInv(g, st', s) && ClosedUpTo(g, level', q', qStart) && Front(st', qStart, b, d)
    ensures qStart == b ==> Front(st', qStart, |q'|, d + 1)
  {
    level', q', st' := level, q, st;
    var i := 0;
    while i < |g[top]|
      invariant st'.level == level' && st'.queue == q' && |q| <= |q'|
      invariant ScanInv(g, st', s, qStart, top, d, b, i)
    {
      var x := g[top][i].node;
      if g[top][i].capacity > 0 && level'[top] + 1 < level'[x] {
        ScanVisit(g, st', s, qStart, top, d, b, i);
        st' := Enqueued(st', x, st'.level[top] + 1);
        // bfs_check(e.node, level_[top] + 1)
        level' := level'[x := level'[top] + 1];
        q' := q' + [x];
      } else {
        ScanSkip(g, st', s, qStart, top, d, b, i);
      }
      i := i + 1;
    }
    ScanDone(g, st', s, qStart, top, d, b);
  }
}
