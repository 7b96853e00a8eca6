/** The read-outs of the Edmonds-Karp solver after max_flow: `partition`
    (include/edmonds_karp.hpp:115-131) and `min_cut`
    (include/edmonds_karp.hpp:97-113), both taken from the parent_ array of a
    search that cannot stop early. */
module EkCut {
  import opened EkNetwork
  import opened EkBfs

  /** reachable[v] for every node: the source side of the cut. */
  ghost function ReachMarks(g: Graph, s: int): (r: seq<bool>)
    ensures |r| == Size(g) && forall v :: 0 <= v < Size(g) ==> (r[v] <==> Reachable(g, s, v))
  {
    seq(Size(g), v => Reachable(g, s, v))
  }

  /** The pairs (u, v) reported for the first m neighbours of u, in order:
      those with u on the source side and v not. */
  function NodeCut(g: Graph, side: seq<bool>, u: int, m: int): seq<(int, int)>
    requires WellFormed(g) && |side| == Size(g) && 0 <= u < Size(g) && 0 <= m <= |g.adj[u]|
    decreases m
  {
    if m == 0 then []
    else
      var v := g.adj[u][m - 1];
      NodeCut(g, side, u, m - 1) + (if side[u] && !side[v] then [(u, v)] else [])
  }

  /** The pairs reported for nodes 0 .. n-1, node by node. */
  function CutList(g: Graph, side: seq<bool>, n: int): seq<(int, int)>
    requires WellFormed(g) && |side| == Size(g) && 0 <= n <= Size(g)
    decreases n
  {
    if n == 0 then [] else CutList(g, side, n - 1) + NodeCut(g, side, n - 1, |g.adj[n - 1]|)
  }

  /** The double loop of `min_cut`: every neighbour entry (u, v) with u
      reached and v unreached, in the order of the lists. */
  method CutPairs(g: Graph, parent: seq<int>, ghost side: seq<bool>) returns (cut: seq<(int, int)>)
    requires WellFormed(g) && |parent| == |side| == Size(g)
    requires forall v :: 0 <= v < Size(g) ==> (side[v] <==> parent[v] != Unvisited)
    ensures cut == CutList(g, side, Size(g))
  {
    cut := [];
    var u := 0;
    while u < Size(g)
      invariant 0 <= u <= Size(g) && cut == CutList(g, side, u)
    {
      var k := 0;
      while k < |g.adj[u]|
        invariant 0 <= k <= |g.adj[u]| && cut == CutList(g, side, u) + NodeCut(g, side, u, k)
      {
        var v := g.adj[u][k];
        if parent[u] != Unvisited && parent[v] == Unvisited {
          cut := cut + [(u, v)];
        }
        k := k + 1;
      }
      u := u + 1;
    }
  }

  /** A pair is in NodeCut exactly when one of the first m neighbours of u is
      that node and the pair straddles the sides. */
  lemma {:induction false} NodeCutMembers(g: Graph, side: seq<bool>, u: int, m: int, x: int, v: int)
    requires WellFormed(g) && |side| == Size(g) && 0 <= u < Size(g) && 0 <= m <= |g.adj[u]|
    ensures (x, v) in NodeCut(g, side, u, m) <==>
      x == u && side[u] && 0 <= v < Size(g) && !side[v] && exists k :: 0 <= k < m && g.adj[u][k] == v
    decreases m
  {
    if m > 0 {
      NodeCutMembers(g, side, u, m - 1, x, v);
      if x == u && g.adj[u][m - 1] == v && side[u] && !side[v] {
        assert (x, v) in NodeCut(g, side, u, m);
      }
    }
  }

  /** min_cut reports (u, v) exactly when u is on the source side, v is not,
      and v is a neighbour of u; reverse entries of directional edges are not
      filtered out. */
  lemma {:induction false} CutListMembers(g: Graph, side: seq<bool>, n: int, u: int, v: int)
    requires WellFormed(g) && |side| == Size(g) && 0 <= n <= Size(g)
    ensures (u, v) in CutList(g, side, n) <==>
      0 <= u < n && 0 <= v < Size(g) && side[u] && !side[v] && v in g.adj[u]
    decreases n
  {
    if n > 0 {
      CutListMembers(g, side, n - 1, u, v);
      NodeCutMembers(g, side, n - 1, |g.adj[n - 1]|, u, v);
      if u == n - 1 && v in g.adj[u] {
        var k :| 0 <= k < |g.adj[u]| && g.adj[u][k] == v;
      }
    }
  }

  /** When the sides are the reachable set, every reported pair has no
      capacity left from u to v. */
  lemma CutSaturated(g: Graph, s: int, u: int, v: int)
    requires WellFormed(g) && NonNegative(g) && 0 <= s < Size(g)
    requires 0 <= u < Size(g) && 0 <= v < Size(g) && v in g.adj[u]
    requires Reachable(g, s, u) && !Reachable(g, s, v)
    ensures g.cap[u][v] == 0
  {
    if g.cap[u][v] != 0 {
      var k :| 0 <= k < |g.adj[u]| && g.adj[u][k] == v;
      assert HasResidualEdge(g, u, v);
      ReachableStep(g, s, u, v);
    }
  }
}
