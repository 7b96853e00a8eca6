/** The first loop of add_scribbles_edges in src/painter.cpp, which sends
    the pixels of used colours to the sink up to the first fresh pixel. */
module ScribbleLoop {
  import opened Insertions
  import opened Matrices
  import opened FlowNetwork
  import opened DinicSolver
  import opened PixelGraph
  import opened GraphUtils
  import opened PainterValues
  import opened ScribbleScan

  /** The body of add_scribbles_edges on the scribble buffer pt: the first
      loop, the check that it found a fresh colour, and the second loop from
      that pixel on.  The calls made are ScribbleCalls. */
  method ScribblesEdges(graph: Dinic, pt: seq<Byte>, usedColors: set<int>, newColor: Rgb, cap: int)
    returns (found: bool, color: Rgb)
    requires graph.Valid() && |pt| == 4 * (|pt| / 4) && |pt| / 4 + 2 == graph.V && cap >= 0
    modifies graph`adj
    ensures graph.Valid()
    ensures found <==> AnyFresh(pt, usedColors)
    ensures found ==> color == ColorAt(pt, FirstFresh(pt, usedColors, 0))
    ensures !found ==> color == newColor
    ensures AllFit(ScribbleCalls(pt, usedColors, cap), |old(graph.adj)|)
    ensures graph.adj == InsertAll(old(graph.adj), ScribbleCalls(pt, usedColors, cap))
  {
    var size := |pt|;
    ghost var a0 := graph.adj;
    assert TerminalsBuilt(graph.adj, a0, Rgba(pt, Nobody), cap, 0);
    var id, p := ScanScribbles(graph, pt, usedColors, cap, a0);
    FirstFreshFound(pt, usedColors);
    if id >= size {
      return false, newColor;
    }
    color := Rgb(pt[id], pt[id + 1], pt[id + 2]);
    assert color == ColorAt(pt, p);
    SinksBeforeFresh(pt, usedColors, color, PixelCount(Rgba(pt, Nobody)), cap, p);
    AddScribblePixels(graph, pt, id, cap, color, p, a0);
    found := true;
  }

  /** The first loop of add_scribbles_edges: pixels of used colours get
      pixel -> sink up to the first fresh pixel p, whose offset is returned
      (the buffer size if there is none). */
  method ScanScribbles(graph: Dinic, pt: seq<Byte>, usedColors: set<int>, cap: int, ghost a0: Network)
    returns (id: int, ghost p: int)
    requires graph.Valid() && |pt| % 4 == 0 && TerminalsBuilt(graph.adj, a0, Rgba(pt, Nobody), cap, 0)
    modifies graph`adj
    ensures graph.Valid() && p == FirstFresh(pt, usedColors, 0) && id == 4 * p
    ensures TerminalsBuilt(graph.adj, a0, Rgba(pt, Nobody), cap, p)
  {
    var size := |pt|;
    ghost var sc := Rgba(pt, Nobody);
    ghost var pixels := size / 4;
    ghost var first := FirstFresh(pt, usedColors, 0);
    id := 0;
    p := 0;
    while id < size
      invariant 0 <= p <= first <= pixels == PixelCount(sc) && id == 4 * p && size == |pt|
      invariant graph.Valid() && TerminalsBuilt(graph.adj, a0, sc, cap, p)
      decreases size - id
    {
      var isFresh := ScanPixel(graph, pt, id, usedColors, cap, p, a0);
      if isFresh {
        break;
      }
      id := id + 4;
      p := p + 1;
    }
    assert TerminalsBuilt(graph.adj, a0, sc, cap, p);
  }

  /** One turn of the first loop of add_scribbles_edges, at pixel p: a
      transparent pixel is skipped, an opaque pixel of a used colour gets
      pixel -> sink, and a fresh one stops the loop with no call. */
  method ScanPixel(graph: Dinic, pt: seq<Byte>, id: int, usedColors: set<int>, cap: int, ghost p: int, ghost a0: Network)
    returns (isFresh: bool)
    requires graph.Valid() && id == 4 * p && 0 <= p < |pt| / 4
    requires TerminalsBuilt(graph.adj, a0, Rgba(pt, Nobody), cap, p)
    modifies graph`adj
    ensures graph.Valid() && (isFresh <==> Fresh(pt, usedColors, p))
    ensures isFresh ==> graph.adj == old(graph.adj)
    ensures !isFresh ==> TerminalsBuilt(graph.adj, a0, Rgba(pt, Nobody), cap, p + 1)
  {
    var source := graph.V - 2;
    var sink := source + 1;
    ghost var sc := Rgba(pt, Nobody);
    ghost var prev := TerminalEdges(sc, source, cap, p);
    ghost var side := SideAt(sc, p);
    assert source == PixelCount(sc);
    var q := id / 4;
    assert q == p;
    SideAtRgba(pt, Nobody, p);
    assert ColorAt(pt, p) == Rgb(pt[id], pt[id + 1], pt[id + 2]);
    isFresh := false;
    if pt[id + 3] == 0 {
      assert side == Skip;
      assert TerminalEdges(sc, source, cap, p + 1) == prev + [] == prev;
    } else {
      var c := ColorToInt(Rgb(pt[id], pt[id + 1], pt[id + 2]));
      if c in usedColors {
        assert side == SinkSide;
        assert TerminalEdges(sc, source, cap, p + 1) == prev + [DirectionalEdge(q, sink, cap)];
        Apply(graph, a0, prev, DirectionalEdge(q, sink, cap));
      } else {
        isFresh := true;
      }
    }
  }
}
