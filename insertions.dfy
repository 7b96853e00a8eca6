/** One call of a flow graph's edge adder, as the graph builders issue them.
    Both solvers (Dinic and Edmonds-Karp) expose the same two adders, so the
    builders are specified by the list of calls they make. */
module Insertions {

  datatype Insertion =
    | DirectionalEdge(u: int, v: int, cap: int)    // add_directional_edge(u, v, cap)
    | BidirectionalEdge(u: int, v: int, cap: int)  // add_bidirectional_edge(u, v, cap)

  /** Every call names two distinct nodes below `n` and a non-negative capacity. */
  predicate AllFit(list: seq<Insertion>, n: int)
  {
    forall k :: 0 <= k < |list| ==>
      0 <= list[k].u < n && 0 <= list[k].v < n && list[k].u != list[k].v && list[k].cap >= 0
  }

  lemma AllFitPrefix(list: seq<Insertion>, n: int, m: nat)
    requires AllFit(list, n) && m <= |list|
    ensures AllFit(list[..m], n)
  {
  }

  lemma AllFitAppend(a: seq<Insertion>, b: seq<Insertion>, n: int)
    requires AllFit(a, n) && AllFit(b, n)
    ensures AllFit(a + b, n)
  {
    forall k | 0 <= k < |a + b|
      ensures 0 <= (a + b)[k].u < n && 0 <= (a + b)[k].v < n && (a + b)[k].u != (a + b)[k].v && (a + b)[k].cap >= 0
    {
      if k >= |a| {
        assert (a + b)[k] == b[k - |a|];
      }
    }
  }

  /** Concatenation regroups. */
  lemma AppendAssoc<T>(a: seq<T>, b: seq<T>, c: seq<T>)
    ensures a + b + c == a + (b + c)
  {
  }
}
