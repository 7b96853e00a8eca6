/** Levels of the Dinic solver (include/dinic.hpp:153-205): the BFS assigns
    every node its hop distance from the source over edges with capacity left,
    and the DFS pushes flow only along edges that go one level up. */
module LevelGraph {
  import opened FlowNetwork

  /** id_infty: the level of a node the BFS did not reach (INT_MAX). */
  const IdInfinity: int := 0x7fff_ffff

  /** Some reached node one level lower has a residual edge to v. */
  ghost predicate HasPredecessor(g: Network, level: seq<int>, v: int)
    requires |level| == |g| && 0 <= v < |g|
  {
    exists u :: 0 <= u < |g| && level[u] < IdInfinity && level[u] + 1 == level[v] && HasResidualEdge(g, u, v)
  }

  /** What `bfs` leaves in level_: the source at 0, every reached node at a level
      below the node count, every residual edge out of a reached node leading to a
      reached node at most one level higher, and every reached node other than the
      source entered from a reached node one level lower. */
  ghost predicate IsBfsLevels(g: Network, level: seq<int>, s: int)
  {
    TargetsInRange(g) && |level| == |g| && 0 <= s < |g| && level[s] == 0 &&
    (forall v :: 0 <= v < |g| ==> level[v] == IdInfinity || 0 <= level[v] < |g|) &&
    (forall u, i :: 0 <= u < |g| && 0 <= i < |g[u]| && level[u] < IdInfinity && g[u][i].capacity > 0 ==>
       level[g[u][i].node] < IdInfinity && level[g[u][i].node] <= level[u] + 1) &&
    (forall v {:trigger HasPredecessor(g, level, v)} :: 0 <= v < |g| && v != s && level[v] < IdInfinity ==> HasPredecessor(g, level, v))
  }

  /** No residual path is shorter than the level of its end: a path of n edges
      from the source ends at a reached node of level at most n. */
  lemma {:induction false} BfsLevelIsLowerBound(g: Network, level: seq<int>, s: int, p: seq<int>)
    requires IsBfsLevels(g, level, s)
    requires IsResidualPath(g, p) && p[0] == s
    ensures level[p[|p| - 1]] < IdInfinity && level[p[|p| - 1]] <= |p| - 1
  {
    var k := 0;
    while k < |p| - 1
      invariant 0 <= k < |p| && level[p[k]] < IdInfinity && level[p[k]] <= k
    {
      assert HasResidualEdge(g, p[k], p[k + 1]);
      var i :| 0 <= i < |g[p[k]]| && g[p[k]][i].node == p[k + 1] && g[p[k]][i].capacity > 0;
      k := k + 1;
    }
  }

  /** Every reached node is the end of a residual path from the source with
      exactly as many edges as its level. */
  lemma {:induction false} BfsLevelIsAttained(g: Network, level: seq<int>, s: int, v: int)
    requires IsBfsLevels(g, level, s)
    requires 0 <= v < |g| && level[v] < IdInfinity
    ensures exists p :: IsResidualPath(g, p) && p[0] == s && p[|p| - 1] == v && |p| == level[v] + 1
    decreases level[v]
  {
    if v == s {
      assert IsResidualPath(g, [s]);
    } else {
      assert HasPredecessor(g, level, v);
      var u :| 0 <= u < |g| && level[u] < IdInfinity && level[u] + 1 == level[v] && HasResidualEdge(g, u, v);
      BfsLevelIsAttained(g, level, s, u);
      var p :| IsResidualPath(g, p) && p[0] == s && p[|p| - 1] == u && |p| == level[u] + 1;
      var q := p + [v];
      forall k | 0 <= k < |q| - 1
        ensures HasResidualEdge(g, q[k], q[k + 1])
      {
        if k + 1 < |p| {
          assert q[k] == p[k] && q[k + 1] == p[k + 1];
        }
      }
      assert IsResidualPath(g, q);
    }
  }

  /** The BFS level of a node is its residual distance from the source, and a node
      keeps id_infty exactly when no residual path reaches it. */
  lemma BfsLevelIsDistance(g: Network, level: seq<int>, s: int, v: int)
    requires IsBfsLevels(g, level, s) && 0 <= v < |g|
    ensures level[v] < IdInfinity <==> Reachable(g, s, v)
    ensures level[v] < IdInfinity ==>
      (exists p :: IsResidualPath(g, p) && p[0] == s && p[|p| - 1] == v && |p| == level[v] + 1) &&
      (forall p :: IsResidualPath(g, p) && p[0] == s && p[|p| - 1] == v ==> level[v] <= |p| - 1)
  {
    if level[v] < IdInfinity {
      BfsLevelIsAttained(g, level, s, v);
    }
    if Reachable(g, s, v) {
      var p :| IsResidualPath(g, p) && p[0] == s && p[|p| - 1] == v;
      BfsLevelIsLowerBound(g, level, s, p);
    }
    forall p | IsResidualPath(g, p) && p[0] == s && p[|p| - 1] == v
      ensures level[v] <= |p| - 1
    {
      BfsLevelIsLowerBound(g, level, s, p);
    }
  }

  /** x reaches t along residual edges that each go exactly one level up. */
  ghost predicate LevelPath(g: Network, level: seq<int>, x: int, t: int)
    requires TargetsInRange(g) && |level| == |g| && 0 <= x < |g| && 0 <= t < |g|
    decreases if level[x] < level[t] then level[t] - level[x] else 0
  {
    x == t ||
    (level[x] < level[t] &&
     exists i :: 0 <= i < |g[x]| && g[x][i].capacity > 0 && level[g[x][i].node] == level[x] + 1 &&
       LevelPath(g, level, g[x][i].node, t))
  }

  lemma {:induction false} LevelPathExtend(g: Network, level: seq<int>, x: int, u: int, i: int)
    requires TargetsInRange(g) && |level| == |g| && 0 <= x < |g| && 0 <= u < |g| && 0 <= i < |g[u]|
    requires LevelPath(g, level, x, u)
    requires g[u][i].capacity > 0 && level[g[u][i].node] == level[u] + 1
    ensures LevelPath(g, level, x, g[u][i].node)
    decreases if level[x] < level[u] then level[u] - level[x] else 0
  {
    var t := g[u][i].node;
    if x == u {
      assert LevelPath(g, level, t, t);
    } else {
      var j :| 0 <= j < |g[x]| && g[x][j].capacity > 0 && level[g[x][j].node] == level[x] + 1 &&
               LevelPath(g, level, g[x][j].node, u);
      LevelPathExtend(g, level, g[x][j].node, u, i);
    }
  }

  /** After a successful BFS, the sink is at the end of a level path from the source. */
  lemma {:induction false} BfsLevelPath(g: Network, level: seq<int>, s: int, t: int)
    requires IsBfsLevels(g, level, s) && 0 <= t < |g| && level[t] < IdInfinity
    ensures LevelPath(g, level, s, t)
    decreases level[t]
  {
    if t != s {
      assert HasPredecessor(g, level, t);
      var u :| 0 <= u < |g| && level[u] < IdInfinity && level[u] + 1 == level[t] && HasResidualEdge(g, u, t);
      var i :| 0 <= i < |g[u]| && g[u][i].node == t && g[u][i].capacity > 0;
      BfsLevelPath(g, level, s, u);
      LevelPathExtend(g, level, s, u, i);
    }
  }

  /** From a to b no edge that goes one level up gained capacity. */
  predicate ForwardNonIncreasing(level: seq<int>, a: Network, b: Network)
    requires TargetsInRange(a) && |level| == |a| && SameShape(a, b)
  {
    forall u, i :: 0 <= u < |a| && 0 <= i < |a[u]| && level[a[u][i].node] == level[u] + 1 ==>
      b[u][i].capacity <= a[u][i].capacity
  }

  lemma ForwardNonIncreasingTrans(level: seq<int>, a: Network, b: Network, c: Network)
    requires TargetsInRange(a) && |level| == |a| && SameShape(a, b) && SameShape(b, c)
    requires TargetsInRange(b) && ForwardNonIncreasing(level, a, b) && ForwardNonIncreasing(level, b, c)
    ensures SameShape(a, c) && ForwardNonIncreasing(level, a, c)
  {
  }

  /** A push along an edge that goes one level up only lowers capacities of edges
      that go one level up: the mirror it raises goes one level down. */
  lemma PushForward(g: Network, level: seq<int>, u: int, i: int, amount: int)
    requires Mirrored(g) && TargetsInRange(g) && |level| == |g| && 0 <= u < |g| && 0 <= i < |g[u]|
    requires level[g[u][i].node] == level[u] + 1 && amount >= 0
    ensures SameShape(g, Push(g, u, i, amount))
    ensures ForwardNonIncreasing(level, g, Push(g, u, i, amount))
  {
    PushAt(g, u, i, amount);
    PushShape(g, u, i, amount);
  }

  /** Level paths only disappear when forward capacities only shrink. */
  lemma {:induction false} LevelPathMonotone(level: seq<int>, a: Network, b: Network, x: int, t: int)
    requires TargetsInRange(a) && |level| == |a| && SameShape(a, b) && TargetsInRange(b)
    requires ForwardNonIncreasing(level, a, b)
    requires 0 <= x < |a| && 0 <= t < |a|
    requires LevelPath(b, level, x, t)
    ensures LevelPath(a, level, x, t)
    decreases if level[x] < level[t] then level[t] - level[x] else 0
  {
    if x != t {
      var i :| 0 <= i < |b[x]| && b[x][i].capacity > 0 && level[b[x][i].node] == level[x] + 1 &&
               LevelPath(b, level, b[x][i].node, t);
      LevelPathMonotone(level, a, b, b[x][i].node, t);
      assert a[x][i].node == b[x][i].node;
    }
  }

  /** Edge i of u can carry no more flow to t in this phase. */
  ghost predicate DeadEdge(g: Network, level: seq<int>, t: int, u: int, i: int)
    requires TargetsInRange(g) && |level| == |g| && 0 <= t < |g| && 0 <= u < |g| && 0 <= i < |g[u]|
  {
    !(g[u][i].capacity > 0 && level[g[u][i].node] == level[u] + 1 && LevelPath(g, level, g[u][i].node, t))
  }

  /** Every edge the DFS cursor edge_id_ has moved past is dead. */
  ghost predicate CursorsDead(g: Network, level: seq<int>, cursor: seq<int>, t: int)
    requires TargetsInRange(g) && |level| == |g| && |cursor| == |g| && 0 <= t < |g|
  {
    forall u, i :: 0 <= u < |g| && 0 <= i < |g[u]| && i < cursor[u] ==> DeadEdge(g, level, t, u, i)
  }

  lemma CursorsDeadStable(level: seq<int>, cursor: seq<int>, t: int, a: Network, b: Network)
    requires TargetsInRange(a) && |level| == |a| && |cursor| == |a| && 0 <= t < |a|
    requires SameShape(a, b) && TargetsInRange(b) && ForwardNonIncreasing(level, a, b)
    requires CursorsDead(a, level, cursor, t)
    ensures CursorsDead(b, level, cursor, t)
  {
    forall u, i | 0 <= u < |b| && 0 <= i < |b[u]| && i < cursor[u]
      ensures DeadEdge(b, level, t, u, i)
    {
      assert DeadEdge(a, level, t, u, i);
      if b[u][i].capacity > 0 && level[b[u][i].node] == level[u] + 1 && LevelPath(b, level, b[u][i].node, t) {
        LevelPathMonotone(level, a, b, b[u][i].node, t);
      }
    }
  }

  /** A node other than t whose edges are all dead has no level path to t. */
  lemma AllDeadNoLevelPath(g: Network, level: seq<int>, t: int, x: int)
    requires TargetsInRange(g) && |level| == |g| && 0 <= t < |g| && 0 <= x < |g| && x != t
    requires forall i :: 0 <= i < |g[x]| ==> DeadEdge(g, level, t, x, i)
    ensures !LevelPath(g, level, x, t)
  {
    forall i | 0 <= i < |g[x]|
      ensures !(g[x][i].capacity > 0 && level[g[x][i].node] == level[x] + 1 && LevelPath(g, level, g[x][i].node, t))
    {
      assert DeadEdge(g, level, t, x, i);
    }
  }
}
