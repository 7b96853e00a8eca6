/** The Painter of src/painter.cpp: the colouring loop `paint`, which
    repeatedly builds a Dinic network from the gray levels of the drawing and
    the colour scribbles, cuts it, and paints the source side of the cut in the
    next scribble colour; with its two builders and blend_color. */
module Painters {
  import opened Insertions
  import opened Matrices
  import opened Counting
  import opened FlowNetwork
  import opened LevelGraph
  import opened DinicSolver
  import opened PixelGraph
  import opened GraphUtils
  import opened PainterValues
  import opened ScribbleScan
  import opened ScribbleLoop
  import opened Blend
  import opened PaintRounds


  /** The loop at the end of a round of paint: a pixel is used once it was
      used or fell on the source side of the cut. */
  method UniteUsed(used: seq<bool>, part: seq<bool>) returns (r: seq<bool>)
    requires |part| >= |used|
    ensures |r| == |used| && forall i :: 0 <= i < |used| ==> r[i] == (used[i] || part[i])
  {
    r := used;
    var i := 0;
    while i != |used|
      invariant 0 <= i <= |used| && |r| == |used|
      invariant forall k :: 0 <= k < i ==> r[k] == (used[k] || part[k])
      invariant forall k :: i <= k < |used| ==> r[k] == used[k]
    {
      r := r[i := r[i] || part[i]];
      i := i + 1;
    }
  }

  class Painter {
    /** drawing_: the loaded image, 3 channels. */
    const drawing: Matrix<Byte>
    /** gray_: its gamma-corrected gray levels, 1 channel. */
    const gray: Matrix<Byte>
    /** drawing_painted_: the painted image, 4 channels. */
    const painted: Matrix<Byte>
    /** terminal_capacity_: the capacity of every terminal edge. */
    const terminalCapacity: int

    /** The three buffers have one pixel each per gray level, and only the
        painted one is written. */
    ghost predicate Valid()
      reads this, drawing, gray, painted
    {
      painted != drawing && painted != gray &&
      drawing.Valid() && gray.Valid() && painted.Valid() &&
      drawing.shape.channels == 3 && gray.shape.channels == 1 && painted.shape.channels == 4 &&
      |drawing.data| == 3 * |gray.data| && |painted.data| == 4 * |gray.data| &&
      (|gray.data| > 0 ==> gray.shape.width > 0) &&
      terminalCapacity >= 0
    }

    /** Painter(filename, terminal_capacity) once imread and init_gray have
        succeeded: `rgb` is the decoded image and `grayValues` its gray
        levels. */
    constructor (height: nat, width: nat, rgb: seq<Byte>, grayValues: seq<Byte>, terminalCapacity: int)
      requires |grayValues| == height * width && |rgb| == 3 * |grayValues| && terminalCapacity >= 0
      ensures Valid() && fresh(drawing) && fresh(gray) && fresh(painted)
      ensures drawing.data == rgb && gray.data == grayValues && AlphaAdded(painted.data, rgb)
      ensures gray.shape == Shape(height, width, 1)
    {
      ShapeSizeFactors(Shape(height, width, 1));
      ShapeSizeFactors(Shape(height, width, 3));
      ShapeSizeFactors(Shape(height, width, 4));
      var withAlpha := AddAlpha(rgb);
      drawing := new Matrix.FromData(height, width, 3, rgb);
      gray := new Matrix.FromData(height, width, 1, grayValues);
      painted := new Matrix.FromData(height, width, 4, withAlpha);
      this.terminalCapacity := terminalCapacity;
    }

    /** blend_color: paints the masked pixels in `color`. */
    method BlendColor(mask: seq<bool>, color: Rgb)
      requires Valid() && |mask| >= |gray.data|
      modifies painted
      ensures Valid() && painted.shape == old(painted.shape)
      ensures BlendedFrom(painted.data, old(painted.data), drawing.data, mask, color)
    {
      var r := BlendPixels(painted.data, drawing.data, mask, color);
      painted.data := r;
    }

    /** add_drawing_edges: the grid edges of the gray levels between unused
        pixels; the result tells whether any edge was added. */
    method AddDrawingEdges(graph: Dinic, used: seq<bool>) returns (added: bool)
      requires Valid() && graph.Valid() && |gray.data| != 0
      requires |used| == |gray.data| && |gray.data| + 2 == graph.V
      modifies graph`adj
      ensures graph.Valid() && gray.shape.width > 0
      ensures AllFit(NeighbourEdges(gray.data, gray.shape.width, used, |used|), |old(graph.adj)|)
      ensures graph.adj == InsertAll(old(graph.adj), NeighbourEdges(gray.data, gray.shape.width, used, |used|))
      ensures added <==> NeighbourEdges(gray.data, gray.shape.width, used, |used|) != []
    {
      var size := |gray.data|;
      var width := gray.shape.width;
      var pix := gray.data;
      ghost var a0 := graph.adj;
      added := false;
      var i := 0;
      while i != size
        invariant 0 <= i <= size == |pix| && graph.Valid() && GridBuilt(graph.adj, a0, pix, width, used, i)
        invariant added <==> NeighbourEdges(pix, width, used, i) != []
      {
        NeighbourEdgesEmptyStep(pix, width, used, i);
        if used[i] {
          NeighbourEdgesNext(pix, width, used, i);
        } else {
          var left := DrawLeft(graph, pix, width, used, i, a0);
          var up := DrawUp(graph, pix, width, used, i, a0);
          added := added || left || up;
        }
        i := i + 1;
      }
    }

    /** The first test of the loop of add_drawing_edges for an unused pixel
        i: joined to its left neighbour unless it starts a row or that
        neighbour is used. */
    method DrawLeft(graph: Dinic, pix: seq<Byte>, width: nat, used: seq<bool>, i: int, ghost a0: Network)
      returns (edge: bool)
      requires graph.Valid() && 0 <= i < |pix| && GridBuilt(graph.adj, a0, pix, width, used, i) && !used[i]
      modifies graph`adj
      ensures graph.Valid() && Built(graph.adj, a0, WithLeft(pix, width, used, i))
      ensures edge <==> HasLeft(width, used, i)
    {
      edge := false;
      if i % width != 0 && !used[i - 1] {
        edge := true;
        var left := BidirectionalEdge(i, i - 1, GridCapacity(pix[i], pix[i - 1]));
        assert left == LeftCall(pix, i);
        Apply(graph, a0, NeighbourEdges(pix, width, used, i), left);
      }
    }

    /** The second test: joined to its upper neighbour unless it is in the
        first row or that neighbour is used. */
    method DrawUp(graph: Dinic, pix: seq<Byte>, width: nat, used: seq<bool>, i: int, ghost a0: Network)
      returns (edge: bool)
      requires graph.Valid() && width > 0 && 0 <= i < |pix| && |used| == |pix| && !used[i] && |a0| == |pix| + 2
      requires Built(graph.adj, a0, WithLeft(pix, width, used, i))
      modifies graph`adj
      ensures graph.Valid() && GridBuilt(graph.adj, a0, pix, width, used, i + 1)
      ensures edge <==> HasUp(width, used, i)
    {
      NeighbourEdgesNext(pix, width, used, i);
      edge := false;
      if i >= width && !used[i - width] {
        edge := true;
        var up := BidirectionalEdge(i, i - width, GridCapacity(pix[i], pix[i - width]));
        assert up == UpCall(pix, width, i);
        Apply(graph, a0, WithLeft(pix, width, used, i), up);
      }
    }

    /** add_scribbles_edges: sends every opaque pixel of a used colour to the
        sink until it meets a pixel of a fresh colour; if there is none it
        reports false, otherwise that colour becomes the new colour and, from
        that pixel on, pixels of the new colour go to the source and other
        opaque pixels to the sink. */
    method AddScribblesEdges(graph: Dinic, usedColors: set<int>, newColor: Rgb, scribbles: Matrix<Byte>)
      returns (found: bool, color: Rgb)
      requires Valid() && graph.Valid() && scribbles.Valid()
      requires scribbles.Size() != 0 && scribbles.shape.channels == 4 && scribbles.Size() / 4 + 2 == graph.V
      modifies graph`adj
      ensures graph.Valid()
      ensures found <==> AnyFresh(scribbles.data, usedColors)
      ensures found ==> color == ColorAt(scribbles.data, FirstFresh(scribbles.data, usedColors, 0))
      ensures !found ==> color == newColor
      ensures AllFit(ScribbleCalls(scribbles.data, usedColors, terminalCapacity), |old(graph.adj)|)
      ensures graph.adj == InsertAll(old(graph.adj), ScribbleCalls(scribbles.data, usedColors, terminalCapacity))
    {
      FourChannelSize(scribbles.shape);
      found, color := ScribblesEdges(graph, scribbles.data, usedColors, newColor, terminalCapacity);
    }

    /** The part of a round of paint that works on the network: a fresh
        Dinic network of pixels + 2 nodes gets the grid of the unused pixels
        and then the scribble edges; the round goes on exactly when both add
        something, and then the network is cut from the source.  `built` is
        the network before max_flow and `final` the one after it.  Nothing
        that existed before is changed. */
    method NextCut(used: seq<bool>, colors: set<int>, newColor: Rgb, scribbles: Matrix<Byte>)
      returns (found: bool, color: Rgb, part: seq<bool>, flow: int, ghost built: Network, ghost final: Network)
      requires Valid() && scribbles.Valid() && |gray.data| != 0 && |gray.data| + 2 < IdInfinity
      requires |used| == |gray.data| && scribbles.Size() != 0 && scribbles.shape.channels == 4
      requires scribbles.Size() / 4 == |gray.data|
      ensures found <==> NeighbourEdges(gray.data, gray.shape.width, used, |used|) != [] &&
                         AnyFresh(scribbles.data, colors)
      ensures found ==> IsCut(gray.data, gray.shape.width, scribbles.data, terminalCapacity,
                              Round(used, colors, color, built, final, flow, part))
      ensures !found ==> color == newColor
    {
      var pixels := |gray.data|;
      var graph := new Dinic(pixels + 2);
      var drawn := AddDrawingEdges(graph, used);
      if !drawn {
        return false, newColor, [], 0, graph.adj, graph.adj;
      }
      found, color := AddScribblesEdges(graph, colors, newColor, scribbles);
      if !found {
        return false, color, [], 0, graph.adj, graph.adj;
      }
      FirstFreshFound(scribbles.data, colors);
      built := graph.adj;
      flow := graph.MaxFlow(pixels, pixels + 1);
      final := graph.adj;
      part := graph.Partition(pixels);
    }

    /** NextCut, with the round it reaches recorded after the rounds before
        it. */
    method CutRound(used: seq<bool>, colors: set<int>, newColor: Rgb, scribbles: Matrix<Byte>,
                    ghost history: seq<Round>)
      returns (found: bool, color: Rgb, part: seq<bool>, ghost round: Round)
      requires Valid() && scribbles.Valid() && |gray.data| != 0 && |gray.data| + 2 < IdInfinity
      requires |used| == |gray.data| && scribbles.Size() != 0 && scribbles.shape.channels == 4
      requires scribbles.Size() / 4 == |gray.data|
      requires Cuts(gray.data, gray.shape.width, scribbles.data, terminalCapacity, history)
      ensures found <==> NeighbourEdges(gray.data, gray.shape.width, used, |used|) != [] &&
                         AnyFresh(scribbles.data, colors)
      ensures found ==> Cuts(gray.data, gray.shape.width, scribbles.data, terminalCapacity, history + [round])
      ensures found ==> round.used == used && round.colors == colors && round.color == color && round.part == part
      ensures found ==> FirstFresh(scribbles.data, colors, 0) < |scribbles.data| / 4 && |part| == |used| + 2
      ensures found ==> color == ColorAt(scribbles.data, FirstFresh(scribbles.data, colors, 0))
      ensures !found ==> color == newColor
    {
      var flow;
      ghost var built, final;
      found, color, part, flow, built, final := NextCut(used, colors, newColor, scribbles);
      round := Round(used, colors, color, built, final, flow, part);
      if found {
        CutsExtend(gray.data, gray.shape.width, scribbles.data, terminalCapacity, history, round);
      }
    }

    /** paint: starting with no used pixel and white as the only used
        colour, each round builds a network of pixels + 2 nodes from the
        grid of unused pixels and the scribbles, takes the next fresh colour,
        cuts the network, paints the source side of the cut in that colour
        and marks it used; it stops as soon as no grid edge or no fresh
        colour is left.  `history` records the rounds and `stages` the
        painted buffer before each round and at the end. */
    method Paint(scribbles: Matrix<Byte>)
      returns (ghost used: seq<bool>, ghost usedColors: set<int>, ghost rounds: nat,
               ghost history: seq<Round>, ghost stages: seq<seq<Byte>>)
      requires Valid() && scribbles.Valid() && scribbles != painted
      requires |gray.data| != 0 && |gray.data| + 2 < IdInfinity
      requires scribbles.Size() != 0 && scribbles.shape.channels == 4 && scribbles.Size() / 4 == |gray.data|
      modifies painted
      ensures Valid() && painted.shape == old(painted.shape) && |used| == |gray.data| && |history| == rounds
      ensures Chain(|gray.data|, history, used, usedColors)
      ensures Cuts(gray.data, gray.shape.width, scribbles.data, terminalCapacity, history)
      ensures Stages(stages, drawing.data, history) && stages[0] == old(painted.data) && stages[rounds] == painted.data
      ensures Taken(history, used) && ShowsRounds(painted.data, drawing.data, history, used)
      ensures forall k :: 0 <= k < rounds ==> ColorToInt(history[k].color) in usedColors
      ensures forall q, ch :: 0 <= q < |used| && 0 <= ch < 4 && !used[q] ==>
        Channel(painted.data, q, ch) == Channel(old(painted.data), q, ch)
      ensures ColorToInt(White) in usedColors && |usedColors| == rounds + 1
      ensures usedColors - {ColorToInt(White)} <= OpaqueColors(scribbles.data)
      ensures rounds <= |OpaqueColors(scribbles.data) - {ColorToInt(White)}|
      ensures NeighbourEdges(gray.data, gray.shape.width, used, |used|) == [] || !AnyFresh(scribbles.data, usedColors)
    {
      var pixels := |gray.data|;
      var usedPixels := NoneUsed(pixels);
      var colors := {ColorToInt(White)};
      var newColor := Rgb(0, 0, 0);
      ghost var p0 := painted.data;
      ghost var candidates := OpaqueColors(scribbles.data) - {ColorToInt(White)};
      rounds := 0;
      history := [];
      stages := [p0];
      while true
        invariant Valid() && painted.shape == old(painted.shape) && |usedPixels| == pixels
        invariant ColorToInt(White) in colors && |colors| == rounds + 1
        invariant colors - {ColorToInt(White)} <= candidates && rounds <= |candidates|
        invariant Run(gray.data, gray.shape.width, scribbles.data, terminalCapacity, drawing.data, history, usedPixels,
                      colors, stages)
        invariant |history| == rounds && stages[0] == p0 && stages[rounds] == painted.data
        decreases |candidates| - rounds
      {
        var found, color, partition, round := CutRound(usedPixels, colors, newColor, scribbles, history);
        if !found {
          used, usedColors := usedPixels, colors;
          RunEnd(gray.data, gray.shape.width, scribbles.data, terminalCapacity, drawing.data, history, used,
                 usedColors, stages);
          return;
        }
        newColor := color;
        ghost var f := FirstFresh(scribbles.data, colors, 0);
        FreshColor(scribbles.data, colors, f);
        NewColorCounts(colors, candidates, ColorToInt(White), ColorToInt(newColor), rounds);
        BlendColor(partition, newColor);
        var next := UniteUsed(usedPixels, partition);
        RunExtend(gray.data, gray.shape.width, scribbles.data, terminalCapacity, drawing.data, history, usedPixels,
                  colors, stages, round, next, painted.data);
        colors := colors + {ColorToInt(newColor)};
        usedPixels := next;
        history := history + [round];
        stages := stages + [painted.data];
        rounds := rounds + 1;
      }
    }
  }

  /** Adding a colour that is a candidate and not yet used adds one used
      colour and keeps the used ones within the candidates. */
  lemma NewColorCounts(colors: set<int>, candidates: set<int>, white: int, c: int, rounds: nat)
    requires white in colors && |colors| == rounds + 1 && colors - {white} <= candidates
    requires c in candidates && c !in colors && white !in candidates
    ensures |colors + {c}| == rounds + 2 && (colors + {c}) - {white} <= candidates
    ensures rounds + 1 <= |candidates|
  {
    assert (colors + {c}) - {white} == (colors - {white}) + {c};
    assert |colors - {white}| == rounds;
    SubsetCard((colors + {c}) - {white}, candidates);
  }
}
