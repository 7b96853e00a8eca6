/** The blocking-flow search `dfs` of include/dinic.hpp:178-205, stated on
    values: what one call does to the capacities adj_ and to the cursors
    edge_id_, and the facts each step of its loop needs. */
module DinicDfs {
  import opened FlowNetwork
  import opened LevelGraph

  /** A dfs call from `node` that sent `flow` to the sink took the capacities
      from a to b and the cursors from c to d: every edge keeps its mirror, no
      capacity went negative, every edge and its mirror keep their capacity sum,
      no edge that goes one level up gained capacity, cursors only moved forward
      and every edge a cursor passed is dead, nothing at a level below `node`
      changed, `flow` units of out-capacity moved from `node` to the sink and
      nowhere else, and nothing at all changed when no flow was sent. */
  ghost predicate Progress(level: seq<int>, sink: int, node: int, a: Network, c: seq<nat>, b: Network, d: seq<nat>,
                           flow: int)
  {
    Residual(level, sink, node, a, c, b, d) && CursorsDead(b, level, d, sink) &&
    Untouched(level, node, a, c, b, d) && Delivered(sink, node, a, b, flow) && (flow == 0 ==> b == a)
  }

  /** The shape part of Progress: both networks are well formed, b is a
      residual of a with the same pair sums, and cursors only moved forward. */
  ghost predicate Residual(level: seq<int>, sink: int, node: int, a: Network, c: seq<nat>, b: Network, d: seq<nat>)
  {
    |level| == |a| && 0 <= sink < |a| && 0 <= node < |a| && Mirrored(a) && TargetsInRange(a) &&
    SameShape(a, b) && Mirrored(b) && TargetsInRange(b) && NonNegative(b) && PairSumsKept(a, b) &&
    ForwardNonIncreasing(level, a, b) &&
    |c| == |a| && |d| == |a| && (forall v :: 0 <= v < |a| ==> c[v] <= d[v])
  }

  /** Nothing at a level below `node` changed. */
  ghost predicate Untouched(level: seq<int>, node: int, a: Network, c: seq<nat>, b: Network, d: seq<nat>)
    requires |level| == |a| == |b| == |c| == |d| && 0 <= node < |a|
  {
    forall v :: 0 <= v < |a| && level[v] < level[node] ==> b[v] == a[v] && d[v] == c[v]
  }

  /** `flow` units of out-capacity moved from `node` to the sink and nowhere else. */
  ghost predicate Delivered(sink: int, node: int, a: Network, b: Network, flow: int)
    requires |a| == |b|
  {
    forall v {:trigger OutCapacity(b, v)} :: 0 <= v < |a| ==>
      OutCapacity(b, v) == OutCapacity(a, v) - (if v == node then flow else 0) + (if v == sink then flow else 0)
  }

  /** What dfs(node, cap, sink) promises: Progress, a flow between 0 and cap,
      and, when the flow falls short of cap, no level path from `node` to the
      sink left (the sink itself always receives all of cap). */
  ghost predicate DfsResult(level: seq<int>, sink: int, node: int, a: Network, c: seq<nat>, b: Network, d: seq<nat>,
                            cap: int, flow: int)
  {
    Progress(level, sink, node, a, c, b, d, flow) && 0 <= flow <= cap &&
    (flow < cap ==> !LevelPath(b, level, node, sink))
  }

  /** The state a dfs call starts from: it has changed nothing yet. With
      node == sink any amount may be recorded, as it arrives where it starts. */
  lemma ProgressStay(level: seq<int>, sink: int, node: int, a: Network, c: seq<nat>, flow: int)
    requires |level| == |a| && 0 <= sink < |a| && 0 <= node < |a| && Mirrored(a) && NonNegative(a)
    requires |c| == |a| && TargetsInRange(a) && CursorsDead(a, level, c, sink)
    requires flow == 0 || node == sink
    ensures Progress(level, sink, node, a, c, a, c, flow)
  {
    MirroredTargetsInRange(a);
  }

  /** dfs(sink, cap, sink) returns cap and changes nothing. */
  lemma DfsAtSink(level: seq<int>, sink: int, a: Network, c: seq<nat>, cap: int)
    requires |level| == |a| && 0 <= sink < |a| && Mirrored(a) && NonNegative(a)
    requires |c| == |a| && TargetsInRange(a) && CursorsDead(a, level, c, sink) && cap >= 0
    ensures DfsResult(level, sink, sink, a, c, a, c, cap, cap)
  {
    ProgressStay(level, sink, sink, a, c, cap);
  }

  /** Returning 0 and changing nothing is a correct dfs result at a node at
      or beyond the sink's level: no level path leaves it. */
  lemma DfsTooDeepStays(level: seq<int>, sink: int, node: int, a: Network, c: seq<nat>, cap: int)
    requires |level| == |a| && 0 <= sink < |a| && 0 <= node < |a| && Mirrored(a) && NonNegative(a)
    requires |c| == |a| && TargetsInRange(a) && CursorsDead(a, level, c, sink) && cap >= 0
    requires node != sink && level[node] >= level[sink]
    ensures DfsResult(level, sink, node, a, c, a, c, cap, 0)
  {
    ProgressStay(level, sink, node, a, c, 0);
  }

  /** After the recursive call through edge i of `node` and the push of its
      result along that edge. */
  lemma DfsStep(level: seq<int>, sink: int, node: int, a0: Network, c0: seq<nat>, a1: Network, c1: seq<nat>,
                flow: int, i: int, sub: int, a2: Network, c2: seq<nat>, path: int)
    requires Progress(level, sink, node, a0, c0, a1, c1, flow) && 0 <= flow
    requires 0 <= i < |a1[node]| && a1[node][i].capacity > 0 && level[a1[node][i].node] == level[node] + 1
    requires sub <= a1[node][i].capacity
    requires DfsResult(level, sink, a1[node][i].node, a1, c1, a2, c2, sub, path)
    ensures a2[node] == a1[node] && c2[node] == c1[node]
    ensures Progress(level, sink, node, a0, c0, Push(a2, node, i, path), c2, flow + path)
    ensures path < sub ==> !LevelPath(Push(a2, node, i, path), level, a1[node][i].node, sink)
  {
    var w := a1[node][i].node;
    var a3 := Push(a2, node, i, path);
    assert a2[node] == a1[node];
    StepShape(level, a0, a1, a2, node, i, path);
    StepCursors(level, sink, a2, c2, node, i, path);
    StepFrame(level, a0, c0, a1, c1, a2, c2, node, w, i, path);
    StepOutCapacity(sink, node, a0, a1, a2, i, flow, path);
    if flow + path == 0 {
      PushZero(a2, node, i);
    }
    if path < sub {
      NoLevelPathKept(level, sink, a2, a3, w);
    }
  }

  lemma NoLevelPathKept(level: seq<int>, sink: int, a: Network, b: Network, x: int)
    requires TargetsInRange(a) && |level| == |a| && SameShape(a, b) && TargetsInRange(b)
    requires ForwardNonIncreasing(level, a, b) && 0 <= x < |a| && 0 <= sink < |a|
    requires !LevelPath(a, level, x, sink)
    ensures !LevelPath(b, level, x, sink)
  {
    if LevelPath(b, level, x, sink) {
      LevelPathMonotone(level, a, b, x, sink);
    }
  }

  lemma StepShape(level: seq<int>, a0: Network, a1: Network, a2: Network, node: int, i: int, path: int)
    requires |level| == |a0| && Mirrored(a0) && TargetsInRange(a0) && SameShape(a0, a1) && Mirrored(a1)
    requires TargetsInRange(a1) && PairSumsKept(a0, a1) && ForwardNonIncreasing(level, a0, a1)
    requires SameShape(a1, a2) && Mirrored(a2) && TargetsInRange(a2) && NonNegative(a2) && PairSumsKept(a1, a2)
    requires ForwardNonIncreasing(level, a1, a2)
    requires 0 <= node < |a1| && 0 <= i < |a1[node]| && a2[node] == a1[node]
    requires level[a1[node][i].node] == level[node] + 1 && 0 <= path <= a1[node][i].capacity
    ensures SameShape(a0, Push(a2, node, i, path)) && Mirrored(Push(a2, node, i, path))
    ensures TargetsInRange(Push(a2, node, i, path)) && NonNegative(Push(a2, node, i, path))
    ensures PairSumsKept(a0, Push(a2, node, i, path)) && ForwardNonIncreasing(level, a0, Push(a2, node, i, path))
    ensures SameShape(a2, Push(a2, node, i, path)) && ForwardNonIncreasing(level, a2, Push(a2, node, i, path))
  {
    var a3 := Push(a2, node, i, path);
    PushShape(a2, node, i, path);
    PushPairSums(a2, node, i, path);
    PushNonNegative(a2, node, i, path);
    PushForward(a2, level, node, i, path);
    MirroredTargetsInRange(a3);
    PairSumsTrans(a0, a1, a2);
    PairSumsTrans(a0, a2, a3);
    ForwardNonIncreasingTrans(level, a0, a1, a2);
    SameShapeTrans(a0, a2, a3);
    ForwardNonIncreasingTrans(level, a0, a2, a3);
  }

  lemma StepCursors(level: seq<int>, sink: int, a2: Network, c2: seq<nat>,
                    node: int, i: int, path: int)
    requires |level| == |a2| && 0 <= sink < |a2| && Mirrored(a2)
    requires TargetsInRange(a2) && |c2| == |a2| && CursorsDead(a2, level, c2, sink)
    requires 0 <= node < |a2| && 0 <= i < |a2[node]| && level[a2[node][i].node] == level[node] + 1 && 0 <= path
    ensures TargetsInRange(Push(a2, node, i, path))
    ensures CursorsDead(Push(a2, node, i, path), level, c2, sink)
  {
    var a3 := Push(a2, node, i, path);
    PushShape(a2, node, i, path);
    PushForward(a2, level, node, i, path);
    MirroredTargetsInRange(a3);
    CursorsDeadStable(level, c2, sink, a2, a3);
  }

  lemma StepFrame(level: seq<int>, a0: Network, c0: seq<nat>, a1: Network, c1: seq<nat>, a2: Network, c2: seq<nat>,
                  node: int, w: int, i: int, path: int)
    requires |level| == |a0| == |a1| == |a2| == |c0| == |c1| == |c2| && Mirrored(a2)
    requires 0 <= node < |a2| && 0 <= w < |a2| && 0 <= i < |a2[node]| && a2[node][i].node == w
    requires level[w] == level[node] + 1
    requires forall v :: 0 <= v < |a0| ==> c0[v] <= c1[v]
    requires forall v :: 0 <= v < |a1| ==> c1[v] <= c2[v]
    requires forall v :: 0 <= v < |a0| && level[v] < level[node] ==> a1[v] == a0[v] && c1[v] == c0[v]
    requires forall v :: 0 <= v < |a1| && level[v] < level[w] ==> a2[v] == a1[v] && c2[v] == c1[v]
    ensures forall v :: 0 <= v < |a0| ==> c0[v] <= c2[v]
    ensures forall v :: 0 <= v < |a0| && level[v] < level[node] ==>
      Push(a2, node, i, path)[v] == a0[v] && c2[v] == c0[v]
  {
    PushAt(a2, node, i, path);
  }

  lemma StepOutCapacity(sink: int, node: int, a0: Network, a1: Network, a2: Network, i: int, flow: int, path: int)
    requires |a0| == |a1| == |a2| && Mirrored(a2) && 0 <= sink < |a0| && 0 <= node < |a2| && 0 <= i < |a2[node]|
    requires Delivered(sink, node, a0, a1, flow) && Delivered(sink, a2[node][i].node, a1, a2, path)
    ensures |Push(a2, node, i, path)| == |a0|
    ensures Delivered(sink, node, a0, Push(a2, node, i, path), flow + path)
  {
    PushOutCapacity(a2, node, i, path);
  }

  /** The edge under the cursor of `node` is dead after its turn in the loop:
      it was not usable, or it is now saturated, or the recursive call through
      it fell short and left no level path behind its target. */
  lemma StepDead(level: seq<int>, sink: int, node: int, a1: Network, a3: Network, i: int,
                 capBefore: int, sub: int, path: int)
    requires TargetsInRange(a3) && |level| == |a3| && 0 <= sink < |a3| && 0 <= node < |a3|
    requires |a1| == |a3| && 0 <= i < |a1[node]| && i < |a3[node]| && a3[node][i].node == a1[node][i].node
    requires sub == (if a1[node][i].capacity < capBefore then a1[node][i].capacity else capBefore)
    requires a3[node][i].capacity == a1[node][i].capacity - path && path < capBefore
    requires path < sub ==> !LevelPath(a3, level, a1[node][i].node, sink)
    requires 0 <= path <= sub
    ensures DeadEdge(a3, level, sink, node, i)
  {
  }

  /** Moving the cursor of `node` past a dead edge keeps Progress. */
  lemma Advance(level: seq<int>, sink: int, node: int, a0: Network, c0: seq<nat>, a: Network, c: seq<nat>, flow: int)
    requires Progress(level, sink, node, a0, c0, a, c, flow)
    requires c[node] < |a[node]| && DeadEdge(a, level, sink, node, c[node])
    ensures Progress(level, sink, node, a0, c0, a, c[node := c[node] + 1], flow)
  {
    var d := c[node := c[node] + 1];
    forall u, i | 0 <= u < |a| && 0 <= i < |a[u]| && i < d[u]
      ensures DeadEdge(a, level, sink, u, i)
    {
      if u != node || i < c[node] {
        assert i < c[u];
      }
    }
  }

  /** One turn of the dfs loop over a usable edge i == c1[node]: after the
      recursive call sent `path` of `sub` and the push along edge i, Progress
      holds with the cursor where it is, and, when capacity is left, with the
      cursor moved past edge i. */
  lemma EdgeStep(level: seq<int>, sink: int, node: int, a0: Network, c0: seq<nat>, a1: Network, c1: seq<nat>,
                 flow: int, capLeft: int, i: int, sub: int, a2: Network, c2: seq<nat>, path: int)
    requires Progress(level, sink, node, a0, c0, a1, c1, flow) && 0 <= flow && 0 < capLeft
    requires 0 <= i < |a1[node]| && i == c1[node]
    requires a1[node][i].capacity > 0 && level[a1[node][i].node] == level[node] + 1
    requires sub == (if capLeft < a1[node][i].capacity then capLeft else a1[node][i].capacity)
    requires DfsResult(level, sink, a1[node][i].node, a1, c1, a2, c2, sub, path)
    ensures Mirrored(a2) && |a2| == |a1| && a2[node] == a1[node] && c2[node] == c1[node] && 0 <= path <= sub
    ensures Progress(level, sink, node, a0, c0, Push(a2, node, i, path), c2, flow + path)
    ensures path < capLeft ==>
      Progress(level, sink, node, a0, c0, Push(a2, node, i, path), c2[node := c2[node] + 1], flow + path)
  {
    DfsStep(level, sink, node, a0, c0, a1, c1, flow, i, sub, a2, c2, path);
    var a3 := Push(a2, node, i, path);
    PushAt(a2, node, i, path);
    if path < capLeft {
      StepDead(level, sink, node, a1, a3, i, capLeft, sub, path);
      Advance(level, sink, node, a0, c0, a3, c2, flow + path);
    }
  }

  /** One turn of the dfs loop over an edge that is not usable. */
  lemma SkipEdge(level: seq<int>, sink: int, node: int, a0: Network, c0: seq<nat>, a: Network, c: seq<nat>, flow: int)
    requires Progress(level, sink, node, a0, c0, a, c, flow) && c[node] < |a[node]|
    requires !(a[node][c[node]].capacity > 0 && level[a[node][c[node]].node] == level[node] + 1)
    ensures Progress(level, sink, node, a0, c0, a, c[node := c[node] + 1], flow)
  {
    Advance(level, sink, node, a0, c0, a, c, flow);
  }

  /** When the cursor of `node` has passed all its edges, no level path leaves it. */
  lemma DfsDone(level: seq<int>, sink: int, node: int, a0: Network, c0: seq<nat>, a: Network, c: seq<nat>, flow: int)
    requires Progress(level, sink, node, a0, c0, a, c, flow)
    requires node != sink && c[node] >= |a[node]|
    ensures !LevelPath(a, level, node, sink)
  {
    forall i | 0 <= i < |a[node]|
      ensures DeadEdge(a, level, sink, node, i)
    {
      assert i < c[node];
    }
    AllDeadNoLevelPath(a, level, sink, node);
  }

  /** What the rounds of max_flow add up to: from a to b every edge keeps its
      mirror and its pair sum, no capacity is negative, and `flow` units of
      out-capacity moved from s to t and nowhere else. */
  ghost predicate Moved(s: int, t: int, a: Network, b: Network, flow: int)
  {
    0 <= s < |a| && 0 <= t < |a| && Mirrored(a) && SameShape(a, b) && Mirrored(b) && NonNegative(b) &&
    PairSumsKept(a, b) &&
    forall v :: 0 <= v < |a| ==>
      OutCapacity(b, v) == OutCapacity(a, v) - (if v == s then flow else 0) + (if v == t then flow else 0)
  }

  lemma MovedStart(s: int, t: int, a: Network)
    requires 0 <= s < |a| && 0 <= t < |a| && Mirrored(a) && NonNegative(a)
    ensures Moved(s, t, a, a, 0)
  {
    assert SameShape(a, a);
  }

  /** One round of max_flow: a dfs from s that sent `inc` extends what the
      earlier rounds moved. */
  lemma MovedRound(level: seq<int>, s: int, t: int, a0: Network, a1: Network, c1: seq<nat>, a2: Network, c2: seq<nat>,
                   flow: int, inc: int)
    requires Moved(s, t, a0, a1, flow) && Progress(level, t, s, a1, c1, a2, c2, inc)
    ensures Moved(s, t, a0, a2, flow + inc)
  {
    SameShapeTrans(a0, a1, a2);
    PairSumsTrans(a0, a1, a2);
  }
}
