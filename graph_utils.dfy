/** The graph builders of src/graph_utils.cpp, which fill a Dinic network from
    a grayscale image (grid edges) and an RGBA scribble buffer (terminal
    edges).  Each is specified by the list of adder calls it makes. */
module GraphUtils {
  import opened Insertions
  import opened Matrices
  import opened FlowNetwork
  import opened DinicSolver
  import opened PixelGraph

  /** adj is what calling the adders with `list` makes of a0. */
  ghost predicate Built(adj: Network, a0: Network, list: seq<Insertion>)
  {
    AllFit(list, |a0|) && adj == InsertAll(a0, list)
  }

  /** Calls the adder `ins` names on a network that `done` built from a0. */
  method Apply(graph: Dinic, ghost a0: Network, ghost done: seq<Insertion>, ins: Insertion)
    requires graph.Valid() && Built(graph.adj, a0, done)
    requires 0 <= ins.u < |a0| && 0 <= ins.v < |a0| && ins.u != ins.v && ins.cap >= 0
    modifies graph`adj
    ensures graph.Valid() && Built(graph.adj, a0, done + [ins])
  {
    InsertAllSnoc(a0, done, ins);
    if ins.DirectionalEdge? {
      graph.AddDirectionalEdge(ins.u, ins.v, ins.cap);
    } else {
      graph.AddBidirectionalEdge(ins.u, ins.v, ins.cap);
    }
  }

  /** After a grid loop has handled pixels 0 .. n-1, adj is a0 with the
      grid calls for those pixels that `used` leaves. */
  ghost predicate GridBuilt(adj: Network, a0: Network, pix: seq<Byte>, width: nat, used: seq<bool>, n: int)
  {
    |a0| == |pix| + 2 && |used| == |pix| && width > 0 && 0 <= n <= |pix| &&
    Built(adj, a0, NeighbourEdges(pix, width, used, n))
  }

  /** add_img_edges: pixel i is joined to its left neighbour unless it
      starts a row, and to its upper neighbour unless it is in the first row,
      with capacity max(1, min of the two values). */
  method AddImgEdges(graph: Dinic, img: Matrix<Byte>)
    requires graph.Valid() && img.Valid()
    requires img.Size() != 0 && img.shape.channels == 1 && img.Size() + 2 == graph.V
    modifies graph`adj
    ensures graph.Valid() && img.shape.width > 0
    ensures AllFit(NeighbourEdges(img.data, img.shape.width, NoneUsed(img.Size()), img.Size()), |old(graph.adj)|)
    ensures graph.adj == InsertAll(old(graph.adj), NeighbourEdges(img.data, img.shape.width, NoneUsed(img.Size()), img.Size()))
  {
    ShapeSizeFactors(img.shape);
    var size := img.Size();
    var width := img.shape.width;
    var pix := img.data;
    ghost var a0 := graph.adj;
    var i := 0;
    while i != size
      invariant 0 <= i <= size == |pix| && graph.Valid() && GridBuilt(graph.adj, a0, pix, width, NoneUsed(size), i)
    {
      AddLeft(graph, pix, width, i, a0);
      AddUp(graph, pix, width, i, a0);
      i := i + 1;
    }
    assert img.data == pix && img.shape.width == width && img.Size() == size;
  }

  /** The first branch of the loop of add_img_edges: pixel i is joined to
      its left neighbour unless it starts a row. */
  method AddLeft(graph: Dinic, pix: seq<Byte>, width: nat, i: int, ghost a0: Network)
    requires graph.Valid() && 0 <= i < |pix| && GridBuilt(graph.adj, a0, pix, width, NoneUsed(|pix|), i)
    modifies graph`adj
    ensures graph.Valid() && Built(graph.adj, a0, WithLeft(pix, width, NoneUsed(|pix|), i))
  {
    ghost var used := NoneUsed(|pix|);
    if i % width != 0 {
      var left := BidirectionalEdge(i, i - 1, GridCapacity(pix[i], pix[i - 1]));
      assert left == LeftCall(pix, i) && HasLeft(width, used, i);
      Apply(graph, a0, NeighbourEdges(pix, width, used, i), left);
    }
  }

  /** The second branch: pixel i is joined to its upper neighbour unless it
      is in the first row. */
  method AddUp(graph: Dinic, pix: seq<Byte>, width: nat, i: int, ghost a0: Network)
    requires graph.Valid() && width > 0 && 0 <= i < |pix| && |a0| == |pix| + 2
    requires Built(graph.adj, a0, WithLeft(pix, width, NoneUsed(|pix|), i))
    modifies graph`adj
    ensures graph.Valid() && GridBuilt(graph.adj, a0, pix, width, NoneUsed(|pix|), i + 1)
  {
    ghost var used := NoneUsed(|pix|);
    NeighbourEdgesNext(pix, width, used, i);
    if i >= width {
      var up := BidirectionalEdge(i, i - width, GridCapacity(pix[i], pix[i - width]));
      assert up == UpCall(pix, width, i) && HasUp(width, used, i);
      Apply(graph, a0, WithLeft(pix, width, used, i), up);
    }
  }

  /** After the scribble loop has handled pixels 0 .. p-1, adj is a0 with the
      terminal calls for those pixels; the source is node PixelCount(sc) and
      the sink the next one. */
  ghost predicate TerminalsBuilt(adj: Network, a0: Network, sc: Scribbles, cap: int, p: int)
  {
    |a0| == PixelCount(sc) + 2 && cap >= 0 && 0 <= p <= PixelCount(sc) &&
    Built(adj, a0, TerminalEdges(sc, PixelCount(sc), cap, p))
  }

  /** add_scribble_edges: transparent pixels are skipped, opaque pixels of
      colour sColor get source -> pixel and every other opaque pixel gets
      pixel -> sink, all with capacity sCap; source is V-2 and sink V-1. */
  method AddScribbleEdges(graph: Dinic, scribbles: Matrix<Byte>, sCap: int, sColor: Rgb)
    requires graph.Valid() && scribbles.Valid() && sCap >= 0
    requires scribbles.Size() != 0 && scribbles.shape.channels == 4 && scribbles.Size() / 4 + 2 == graph.V
    modifies graph`adj
    ensures graph.Valid()
    ensures AllFit(TerminalEdges(Rgba(scribbles.data, Matching(sColor)), graph.V - 2, sCap, scribbles.Size() / 4),
      |old(graph.adj)|)
    ensures graph.adj == InsertAll(old(graph.adj),
      TerminalEdges(Rgba(scribbles.data, Matching(sColor)), graph.V - 2, sCap, scribbles.Size() / 4))
  {
    FourChannelSize(scribbles.shape);
    ghost var a0 := graph.adj;
    assert TerminalsBuilt(graph.adj, a0, Rgba(scribbles.data, Matching(sColor)), sCap, 0);
    AddScribblePixels(graph, scribbles.data, 0, sCap, sColor, 0, a0);
  }

  /** The loop of add_scribble_edges from offset i, pixel p, to the end of
      the buffer: every remaining pixel gets its call. */
  method AddScribblePixels(graph: Dinic, pt: seq<Byte>, i: int, sCap: int, sColor: Rgb, ghost p: int, ghost a0: Network)
    requires graph.Valid() && |pt| == 4 * (|pt| / 4) && i == 4 * p && 0 <= p <= |pt| / 4
    requires TerminalsBuilt(graph.adj, a0, Rgba(pt, Matching(sColor)), sCap, p)
    modifies graph`adj
    ensures graph.Valid() && TerminalsBuilt(graph.adj, a0, Rgba(pt, Matching(sColor)), sCap, |pt| / 4)
  {
    var size := |pt|;
    ghost var sc := Rgba(pt, Matching(sColor));
    ghost var pixels := size / 4;
    var id := i;
    ghost var k := p;
    while id < size
      invariant 0 <= k <= pixels == PixelCount(sc) && id == 4 * k && size == |pt|
      invariant graph.Valid() && TerminalsBuilt(graph.adj, a0, sc, sCap, k)
    {
      AddScribblePixel(graph, pt, id, sCap, sColor, k, a0);
      id := id + 4;
      k := k + 1;
    }
    assert |pt| / 4 == PixelCount(sc) == k;
  }

  /** One turn of the loop of add_scribble_edges: the call for the pixel p at
      offset i, if any. */
  method AddScribblePixel(graph: Dinic, pt: seq<Byte>, i: int, sCap: int, sColor: Rgb, ghost p: int, ghost a0: Network)
    requires graph.Valid() && i == 4 * p && 0 <= p < |pt| / 4
    requires TerminalsBuilt(graph.adj, a0, Rgba(pt, Matching(sColor)), sCap, p)
    modifies graph`adj
    ensures graph.Valid() && TerminalsBuilt(graph.adj, a0, Rgba(pt, Matching(sColor)), sCap, p + 1)
  {
    var source := graph.V - 2;
    var sink := source + 1;
    ghost var sc := Rgba(pt, Matching(sColor));
    ghost var prev := TerminalEdges(sc, source, sCap, p);
    ghost var side := SideAt(sc, p);
    assert source == PixelCount(sc);
    var q := i / 4;
    assert q == p;
    SideAtRgba(pt, Matching(sColor), p);
    if pt[i + 3] == 0 {
      assert side == Skip;
      assert TerminalEdges(sc, source, sCap, p + 1) == prev + [] == prev;
    } else if pt[i] == sColor.r && pt[i + 1] == sColor.g && pt[i + 2] == sColor.b {
      assert side == SourceSide;
      assert TerminalEdges(sc, source, sCap, p + 1) == prev + [DirectionalEdge(source, q, sCap)];
      Apply(graph, a0, prev, DirectionalEdge(source, q, sCap));
    } else {
      assert side == SinkSide;
      assert TerminalEdges(sc, source, sCap, p + 1) == prev + [DirectionalEdge(q, sink, sCap)];
      Apply(graph, a0, prev, DirectionalEdge(q, sink, sCap));
    }
  }
}
