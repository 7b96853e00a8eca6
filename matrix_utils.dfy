/** The graph builders of src/matrix_utils.cpp, which fill an Edmonds-Karp
    network from a grayscale image (grid edges) and a scribble buffer
    (terminal edges).  Each is specified by the list of adder calls it makes;
    the image I/O of that file is not part of this model. */
module MatrixUtils {
  import opened Insertions
  import opened Matrices
  import opened EkNetwork
  import opened EdmondsKarpSolver
  import opened PixelGraph

  /** net is what calling the adders with `list` makes of g0. */
  ghost predicate Built(net: Graph, g0: Graph, list: seq<Insertion>)
  {
    WellFormed(g0) && AllFit(list, Size(g0)) && net == InsertAll(g0, list)
  }

  /** After the loop of add_img_edges has handled pixels 0 .. n-1, net is
      g0 with the grid calls for those pixels. */
  ghost predicate GridBuilt(net: Graph, g0: Graph, pix: seq<Byte>, width: nat, n: int)
  {
    Size(g0) == |pix| + 2 && width > 0 && 0 <= n <= |pix| &&
    Built(net, g0, NeighbourEdges(pix, width, NoneUsed(|pix|), n))
  }

  /** add_img_edges: the same grid as the Dinic builder, on an
      Edmonds-Karp network. */
  method AddImgEdges(graph: EdmondsKarp, img: Matrix<Byte>)
    requires graph.Valid() && img.Valid()
    requires img.Size() != 0 && img.shape.channels == 1 && img.Size() + 2 == graph.V
    modifies graph`adj, graph`capacity
    ensures graph.Valid() && img.shape.width > 0
    ensures AllFit(NeighbourEdges(img.data, img.shape.width, NoneUsed(img.Size()), img.Size()), Size(old(graph.Net())))
    ensures graph.Net() == InsertAll(old(graph.Net()), NeighbourEdges(img.data, img.shape.width, NoneUsed(img.Size()), img.Size()))
  {
    ShapeSizeFactors(img.shape);
    var size := img.Size();
    var width := img.shape.width;
    var pix := img.data;
    ghost var g0 := graph.Net();
    var i := 0;
    while i != size
      invariant 0 <= i <= size == |pix| && graph.Valid() && GridBuilt(graph.Net(), g0, pix, width, i)
    {
      AddLeft(graph, pix, width, i, g0);
      AddUp(graph, pix, width, i, g0);
      i := i + 1;
    }
    assert img.data == pix && img.shape.width == width && img.Size() == size;
  }

  /** The first branch of the loop of add_img_edges: pixel i is joined to
      its left neighbour unless it starts a row. */
  method AddLeft(graph: EdmondsKarp, pix: seq<Byte>, width: nat, i: int, ghost g0: Graph)
    requires graph.Valid() && 0 <= i < |pix| && GridBuilt(graph.Net(), g0, pix, width, i)
    modifies graph`adj, graph`capacity
    ensures graph.Valid() && Built(graph.Net(), g0, WithLeft(pix, width, NoneUsed(|pix|), i))
  {
    ghost var used := NoneUsed(|pix|);
    if i % width != 0 {
      var left := BidirectionalEdge(i, i - 1, GridCapacity(pix[i], pix[i - 1]));
      assert left == LeftCall(pix, i) && HasLeft(width, used, i);
      Apply(graph, g0, NeighbourEdges(pix, width, used, i), left);
    }
  }

  /** The second branch: pixel i is joined to its upper neighbour unless it
      is in the first row. */
  method AddUp(graph: EdmondsKarp, pix: seq<Byte>, width: nat, i: int, ghost g0: Graph)
    requires graph.Valid() && width > 0 && 0 <= i < |pix| && Size(g0) == |pix| + 2
    requires Built(graph.Net(), g0, WithLeft(pix, width, NoneUsed(|pix|), i))
    modifies graph`adj, graph`capacity
    ensures graph.Valid() && GridBuilt(graph.Net(), g0, pix, width, i + 1)
  {
    ghost var used := NoneUsed(|pix|);
    NeighbourEdgesNext(pix, width, used, i);
    if i >= width {
      var up := BidirectionalEdge(i, i - width, GridCapacity(pix[i], pix[i - width]));
      assert up == UpCall(pix, width, i) && HasUp(width, used, i);
      Apply(graph, g0, WithLeft(pix, width, used, i), up);
    }
  }

  /** Calls the adder `ins` names on a graph that `done` built from g0. */
  method Apply(graph: EdmondsKarp, ghost g0: Graph, ghost done: seq<Insertion>, ins: Insertion)
    requires graph.Valid() && Built(graph.Net(), g0, done)
    requires 0 <= ins.u < Size(g0) && 0 <= ins.v < Size(g0) && ins.u != ins.v && ins.cap >= 0
    modifies graph`adj, graph`capacity
    ensures graph.Valid() && Built(graph.Net(), g0, done + [ins])
  {
    InsertAllSnoc(g0, done, ins);
    if ins.DirectionalEdge? {
      graph.AddDirectionalEdge(ins.u, ins.v, ins.cap);
    } else {
      graph.AddBidirectionalEdge(ins.u, ins.v, ins.cap);
    }
  }

  /** After a scribble loop has handled pixels 0 .. p-1, net is g0 with the
      terminal calls for those pixels; the source is node PixelCount(sc) and
      the sink the next one. */
  ghost predicate TerminalsBuilt(net: Graph, g0: Graph, sc: Scribbles, cap: int, p: int)
  {
    Size(g0) == PixelCount(sc) + 2 && cap >= 0 && 0 <= p <= PixelCount(sc) &&
    Built(net, g0, TerminalEdges(sc, PixelCount(sc), cap, p))
  }

  /** add_scribble_edges: transparent pixels are skipped, opaque white
      pixels get pixel -> sink and every other opaque pixel gets
      source -> pixel, all with capacity sCap; source is V-2 and sink V-1. */
  method AddScribbleEdges(graph: EdmondsKarp, scribbles: Matrix<Byte>, sCap: int)
    requires graph.Valid() && scribbles.Valid() && sCap >= 0
    requires scribbles.Size() != 0 && scribbles.shape.channels == 4 && scribbles.Size() / 4 + 2 == graph.V
    modifies graph`adj, graph`capacity
    ensures graph.Valid()
    ensures AllFit(TerminalEdges(Rgba(scribbles.data, NotWhite), graph.V - 2, sCap, scribbles.Size() / 4),
      Size(old(graph.Net())))
    ensures graph.Net() == InsertAll(old(graph.Net()),
      TerminalEdges(Rgba(scribbles.data, NotWhite), graph.V - 2, sCap, scribbles.Size() / 4))
  {
    FourChannelSize(scribbles.shape);
    var size := scribbles.Size();
    var pt := scribbles.data;
    ghost var sc := Rgba(pt, NotWhite);
    ghost var g0 := graph.Net();
    ghost var pixels := size / 4;
    var i := 0;
    ghost var p := 0;
    while i < size
      invariant 0 <= p <= pixels == PixelCount(sc) && i == 4 * p && size == |pt|
      invariant graph.Valid() && TerminalsBuilt(graph.Net(), g0, sc, sCap, p)
    {
      AddScribblePixel(graph, pt, i, sCap, p, g0);
      i := i + 4;
      p := p + 1;
    }
    assert scribbles.data == pt && scribbles.Size() / 4 == graph.V - 2 == PixelCount(sc) == p;
  }

  /** One turn of the loop of add_scribble_edges: the call for the pixel p at
      offset i, if any. */
  method AddScribblePixel(graph: EdmondsKarp, pt: seq<Byte>, i: int, sCap: int, ghost p: int, ghost g0: Graph)
    requires graph.Valid() && i == 4 * p && 0 <= p < |pt| / 4
    requires TerminalsBuilt(graph.Net(), g0, Rgba(pt, NotWhite), sCap, p)
    modifies graph`adj, graph`capacity
    ensures graph.Valid() && TerminalsBuilt(graph.Net(), g0, Rgba(pt, NotWhite), sCap, p + 1)
  {
    var source := graph.V - 2;
    var sink := source + 1;
    ghost var sc := Rgba(pt, NotWhite);
    ghost var prev := TerminalEdges(sc, source, sCap, p);
    ghost var side := SideAt(sc, p);
    assert source == PixelCount(sc);
    var q := i / 4;
    assert q == p;
    SideAtRgba(pt, NotWhite, p);
    if pt[i + 3] == 0 {
      assert side == Skip;
      assert TerminalEdges(sc, source, sCap, p + 1) == prev + [] == prev;
    } else if pt[i] == 255 && pt[i + 1] == 255 && pt[i + 2] == 255 {
      assert side == SinkSide;
      assert TerminalEdges(sc, source, sCap, p + 1) == prev + [DirectionalEdge(q, sink, sCap)];
      Apply(graph, g0, prev, DirectionalEdge(q, sink, sCap));
    } else {
      assert side == SourceSide;
      assert TerminalEdges(sc, source, sCap, p + 1) == prev + [DirectionalEdge(source, q, sCap)];
      Apply(graph, g0, prev, DirectionalEdge(source, q, sCap));
    }
  }

  /** add_scribble_edges_old on a one-value-per-pixel buffer: value s gives
      source -> pixel, any other nonzero value pixel -> sink, zero nothing;
      the source is node size and the sink size + 1. */
  method AddScribbleEdgesOld(graph: EdmondsKarp, scribbles: Matrix<Byte>, s: Byte, sCap: int)
    requires graph.Valid() && scribbles.Valid() && sCap >= 0
    requires scribbles.Size() != 0 && scribbles.Size() + 2 == graph.V
    modifies graph`adj, graph`capacity
    ensures graph.Valid()
    ensures AllFit(TerminalEdges(Gray(scribbles.data, s), scribbles.Size(), sCap, scribbles.Size()), Size(old(graph.Net())))
    ensures graph.Net() == InsertAll(old(graph.Net()), TerminalEdges(Gray(scribbles.data, s), scribbles.Size(), sCap, scribbles.Size()))
  {
    var size := scribbles.Size();
    var pt := scribbles.data;
    ghost var sc := Gray(pt, s);
    ghost var g0 := graph.Net();
    var i := 0;
    while i != size
      invariant 0 <= i <= size == |pt| == PixelCount(sc)
      invariant graph.Valid() && TerminalsBuilt(graph.Net(), g0, sc, sCap, i)
    {
      AddGrayPixel(graph, pt, s, i, sCap, g0);
      i := i + 1;
    }
    assert scribbles.data == pt && scribbles.Size() == PixelCount(sc) == i;
  }

  /** One turn of the loop of add_scribble_edges_old: the call for pixel i,
      if any. */
  method AddGrayPixel(graph: EdmondsKarp, pt: seq<Byte>, s: Byte, i: int, sCap: int, ghost g0: Graph)
    requires graph.Valid() && 0 <= i < |pt| && TerminalsBuilt(graph.Net(), g0, Gray(pt, s), sCap, i)
    modifies graph`adj, graph`capacity
    ensures graph.Valid() && TerminalsBuilt(graph.Net(), g0, Gray(pt, s), sCap, i + 1)
  {
    var source := |pt|;
    var sink := |pt| + 1;
    ghost var sc := Gray(pt, s);
    ghost var prev := TerminalEdges(sc, source, sCap, i);
    ghost var side := SideAt(sc, i);
    if pt[i] == s {
      assert side == SourceSide;
      assert TerminalEdges(sc, source, sCap, i + 1) == prev + [DirectionalEdge(source, i, sCap)];
      Apply(graph, g0, prev, DirectionalEdge(source, i, sCap));
    } else if pt[i] != 0 {
      assert side == SinkSide;
      assert TerminalEdges(sc, source, sCap, i + 1) == prev + [DirectionalEdge(i, sink, sCap)];
      Apply(graph, g0, prev, DirectionalEdge(i, sink, sCap));
    } else {
      assert side == Skip;
      assert TerminalEdges(sc, source, sCap, i + 1) == prev + [] == prev;
    }
  }
}
