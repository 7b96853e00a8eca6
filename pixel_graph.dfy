/** The edge lists the graph builders issue for an image
    (src/graph_utils.cpp, src/matrix_utils.cpp, and add_drawing_edges /
    add_scribbles_edges in src/painter.cpp): grid edges between 4-neighbour
    pixels, and one terminal edge per scribbled pixel.  Pixels are the nodes
    0 .. pixels-1; the source is node `pixels` and the sink `pixels + 1`. */
module PixelGraph {
  import opened Insertions
  import opened Matrices

  /** zero_cancel: the smallest grid capacity. */
  const ZeroCancel: int := 1

  /** max(zero_cancel, min(a, b)). */
  function GridCapacity(a: Byte, b: Byte): (c: int)
    ensures 1 <= c <= 255 && (c == a || c == b || c == ZeroCancel)
    ensures c >= a || c >= b
    ensures (a >= 1 && b >= 1) ==> c <= a && c <= b
  {
    var m := if a <= b then a else b;
    if m < ZeroCancel then ZeroCancel else m
  }

  /** v is the left or upper neighbour of u in a grid of the given width. */
  predicate Below(width: nat, u: int, v: int)
    requires width > 0
  {
    (v == u - 1 && u % width != 0) || (v == u - width && u >= width)
  }

  /** Pixel i is joined to its left neighbour: neither is used and i does
      not start a row. */
  predicate HasLeft(width: nat, used: seq<bool>, i: int)
    requires width > 0 && 0 <= i < |used|
  {
    !used[i] && i % width != 0 && !used[i - 1]
  }

  /** Pixel i is joined to its upper neighbour: neither is used and i is
      not in the first row. */
  predicate HasUp(width: nat, used: seq<bool>, i: int)
    requires width > 0 && 0 <= i < |used|
  {
    !used[i] && i >= width && !used[i - width]
  }

  /** add_bidirectional_edge(i, i-1, max(zero_cancel, min(pt[i], pt[i-1]))) */
  function LeftCall(pix: seq<Byte>, i: int): Insertion
    requires 0 < i < |pix|
  {
    BidirectionalEdge(i, i - 1, GridCapacity(pix[i], pix[i - 1]))
  }

  /** add_bidirectional_edge(i, i-width, max(zero_cancel, min(pt[i], pt[i-width]))) */
  function UpCall(pix: seq<Byte>, width: nat, i: int): Insertion
    requires width <= i < |pix|
  {
    BidirectionalEdge(i, i - width, GridCapacity(pix[i], pix[i - width]))
  }

  /** The calls made for pixel i: to its left neighbour, then to its upper
      one, each when HasLeft / HasUp holds. */
  function PixelEdges(pix: seq<Byte>, width: nat, used: seq<bool>, i: int): seq<Insertion>
    requires width > 0 && |used| == |pix| && 0 <= i < |pix|
  {
    (if HasLeft(width, used, i) then [LeftCall(pix, i)] else []) +
    (if HasUp(width, used, i) then [UpCall(pix, width, i)] else [])
  }

  /** The calls made for pixels 0 .. n-1, in order. */
  function NeighbourEdges(pix: seq<Byte>, width: nat, used: seq<bool>, n: int): seq<Insertion>
    requires width > 0 && |used| == |pix| && 0 <= n <= |pix|
    decreases n
  {
    if n == 0 then [] else NeighbourEdges(pix, width, used, n - 1) + PixelEdges(pix, width, used, n - 1)
  }

  /** The calls for the first i pixels, then pixel i's call to its left
      neighbour if it gets one. */
  function WithLeft(pix: seq<Byte>, width: nat, used: seq<bool>, i: int): seq<Insertion>
    requires width > 0 && |used| == |pix| && 0 <= i < |pix|
  {
    var prev := NeighbourEdges(pix, width, used, i);
    if HasLeft(width, used, i) then prev + [LeftCall(pix, i)] else prev
  }

  /** The calls for the first i + 1 pixels extend those for the first i by
      those of pixel i, one call at a time. */
  lemma NeighbourEdgesNext(pix: seq<Byte>, width: nat, used: seq<bool>, i: int)
    requires width > 0 && |used| == |pix| && 0 <= i < |pix|
    ensures NeighbourEdges(pix, width, used, i + 1) ==
      if HasUp(width, used, i) then WithLeft(pix, width, used, i) + [UpCall(pix, width, i)] else WithLeft(pix, width, used, i)
  {
    var prev := NeighbourEdges(pix, width, used, i);
    if HasLeft(width, used, i) && HasUp(width, used, i) {
      AppendAssoc(prev, [LeftCall(pix, i)], [UpCall(pix, width, i)]);
    } else {
      assert prev + [] == prev;
    }
  }

  /** The calls for the first i + 1 pixels are empty exactly when those for
      the first i are and pixel i is joined to neither neighbour. */
  lemma NeighbourEdgesEmptyStep(pix: seq<Byte>, width: nat, used: seq<bool>, i: int)
    requires width > 0 && |used| == |pix| && 0 <= i < |pix|
    ensures NeighbourEdges(pix, width, used, i + 1) == [] <==>
      NeighbourEdges(pix, width, used, i) == [] && !HasLeft(width, used, i) && !HasUp(width, used, i)
  {
    assert NeighbourEdges(pix, width, used, i + 1) ==
      NeighbourEdges(pix, width, used, i) + PixelEdges(pix, width, used, i);
  }

  /** No call is made for the first n pixels exactly when none of them can
      be joined to its left or upper neighbour. */
  lemma {:induction false} NeighbourEdgesEmpty(pix: seq<Byte>, width: nat, used: seq<bool>, n: int)
    requires width > 0 && |used| == |pix| && 0 <= n <= |pix|
    ensures NeighbourEdges(pix, width, used, n) == [] <==>
      forall i :: 0 <= i < n ==> !HasLeft(width, used, i) && !HasUp(width, used, i)
    decreases n
  {
    if n > 0 {
      NeighbourEdgesEmpty(pix, width, used, n - 1);
      NeighbourEdgesEmptyStep(pix, width, used, n - 1);
      ghost var last := !HasLeft(width, used, n - 1) && !HasUp(width, used, n - 1);
      assert (forall i :: 0 <= i < n ==> !HasLeft(width, used, i) && !HasUp(width, used, i)) <==>
        (forall i :: 0 <= i < n - 1 ==> !HasLeft(width, used, i) && !HasUp(width, used, i)) && last;
    }
  }

  /** No pixel is used: the grid of add_img_edges. */
  function NoneUsed(pixels: nat): (used: seq<bool>)
    ensures |used| == pixels && forall i :: 0 <= i < pixels ==> !used[i]
  {
    seq(pixels, _ => false)
  }

  /** Every call of the list joins a pixel to a lower-numbered one below n,
      with a capacity in [1, 255]. */
  predicate GridShaped(list: seq<Insertion>, n: int)
  {
    forall e :: e in list ==> e.BidirectionalEdge? && 0 <= e.v < e.u < n && 1 <= e.cap <= 255
  }

  lemma GridShapedAppend(a: seq<Insertion>, b: seq<Insertion>, m: int, n: int)
    requires GridShaped(a, m) && GridShaped(b, n) && m <= n
    ensures GridShaped(a + b, n)
  {
  }

  /** The calls for one pixel i join i to a lower-numbered pixel with a
      capacity in [1, 255]. */
  lemma PixelEdgesShape(pix: seq<Byte>, width: nat, used: seq<bool>, i: int)
    requires width > 0 && |used| == |pix| && 0 <= i < |pix|
    ensures forall e :: e in PixelEdges(pix, width, used, i) ==> e.u == i
    ensures GridShaped(PixelEdges(pix, width, used, i), i + 1)
    ensures AllFit(PixelEdges(pix, width, used, i), |pix| + 2)
  {
  }

  /** Pixel n - 1's calls keep the grid shape of the calls before it. */
  lemma ShapeStep(pix: seq<Byte>, width: nat, used: seq<bool>, n: int)
    requires width > 0 && |used| == |pix| && 0 < n <= |pix|
    requires GridShaped(NeighbourEdges(pix, width, used, n - 1), n - 1)
    ensures GridShaped(NeighbourEdges(pix, width, used, n), n)
  {
    PixelEdgesShape(pix, width, used, n - 1);
    GridShapedAppend(NeighbourEdges(pix, width, used, n - 1), PixelEdges(pix, width, used, n - 1), n - 1, n);
  }

  /** Pixel n - 1's calls fit the graph as the calls before it do. */
  lemma FitStep(pix: seq<Byte>, width: nat, used: seq<bool>, n: int)
    requires width > 0 && |used| == |pix| && 0 < n <= |pix|
    requires AllFit(NeighbourEdges(pix, width, used, n - 1), |pix| + 2)
    ensures AllFit(NeighbourEdges(pix, width, used, n), |pix| + 2)
  {
    PixelEdgesShape(pix, width, used, n - 1);
    AllFitAppend(NeighbourEdges(pix, width, used, n - 1), PixelEdges(pix, width, used, n - 1), |pix| + 2);
  }

  /** Every grid call for the first n pixels joins one of them to a
      lower-numbered pixel with a capacity in [1, 255]. */
  lemma {:induction false} NeighbourEdgesShape(pix: seq<Byte>, width: nat, used: seq<bool>, n: int)
    requires width > 0 && |used| == |pix| && 0 <= n <= |pix|
    ensures GridShaped(NeighbourEdges(pix, width, used, n), n)
    decreases n
  {
    if n > 0 {
      NeighbourEdgesShape(pix, width, used, n - 1);
      ShapeStep(pix, width, used, n);
    }
  }

  /** All grid calls fit a graph of pixels + 2 nodes. */
  lemma {:induction false} NeighbourEdgesFit(pix: seq<Byte>, width: nat, used: seq<bool>, n: int)
    requires width > 0 && |used| == |pix| && 0 <= n <= |pix|
    ensures AllFit(NeighbourEdges(pix, width, used, n), |pix| + 2)
    decreases n
  {
    if n > 0 {
      NeighbourEdgesFit(pix, width, used, n - 1);
      FitStep(pix, width, used, n);
    }
  }

  /** The calls for pixel i: (i, v, c) exactly when v is its left or upper
      neighbour, neither is used, and c is their grid capacity. */
  lemma PixelEdgesMembers(pix: seq<Byte>, width: nat, used: seq<bool>, i: int, u: int, v: int, c: int)
    requires width > 0 && |used| == |pix| && 0 <= i < |pix|
    ensures BidirectionalEdge(u, v, c) in PixelEdges(pix, width, used, i) <==>
      u == i && Below(width, u, v) && 0 <= v && !used[u] && !used[v] && c == GridCapacity(pix[u], pix[v])
  {
  }

  /** Adding pixel n - 1's calls adds exactly its own pairs. */
  lemma MembersStep(pix: seq<Byte>, width: nat, used: seq<bool>, n: int, u: int, v: int, c: int)
    requires width > 0 && |used| == |pix| && 0 < n <= |pix|
    requires BidirectionalEdge(u, v, c) in NeighbourEdges(pix, width, used, n - 1) <==>
      0 <= u < n - 1 && Below(width, u, v) && 0 <= v && !used[u] && !used[v] && c == GridCapacity(pix[u], pix[v])
    ensures BidirectionalEdge(u, v, c) in NeighbourEdges(pix, width, used, n) <==>
      0 <= u < n && Below(width, u, v) && 0 <= v && !used[u] && !used[v] && c == GridCapacity(pix[u], pix[v])
  {
    PixelEdgesMembers(pix, width, used, n - 1, u, v, c);
  }

  /** A grid call (u, v, c) is made exactly when u is one of the first n
      pixels, v is its left or upper neighbour, neither is used, and c is
      their grid capacity. */
  lemma {:induction false} NeighbourEdgesMembers(pix: seq<Byte>, width: nat, used: seq<bool>, n: int, u: int, v: int, c: int)
    requires width > 0 && |used| == |pix| && 0 <= n <= |pix|
    ensures BidirectionalEdge(u, v, c) in NeighbourEdges(pix, width, used, n) <==>
      0 <= u < n && Below(width, u, v) && 0 <= v && !used[u] && !used[v] && c == GridCapacity(pix[u], pix[v])
    decreases n
  {
    if n > 0 {
      NeighbourEdgesMembers(pix, width, used, n - 1, u, v, c);
      MembersStep(pix, width, used, n, u, v, c);
    }
  }

  /** The two calls of one pixel name different neighbours. */
  lemma PixelEdgesDistinct(pix: seq<Byte>, width: nat, used: seq<bool>, i: int)
    requires width > 0 && |used| == |pix| && 0 <= i < |pix|
    ensures var last := PixelEdges(pix, width, used, i);
      |last| <= 2 && (|last| == 2 ==> last[0].v != last[1].v)
  {
  }

  /** No two calls of the list join the same ordered pair. */
  predicate PairsDistinct(list: seq<Insertion>)
  {
    forall j, k :: 0 <= j < k < |list| ==> list[j].u != list[k].u || list[j].v != list[k].v
  }

  /** Appending the calls of a new pixel m, which name distinct neighbours,
      to calls about lower pixels keeps the pairs distinct. */
  lemma PairsDistinctAppend(prev: seq<Insertion>, last: seq<Insertion>, m: int)
    requires PairsDistinct(prev) && (forall e :: e in prev ==> e.u < m) && (forall e :: e in last ==> e.u == m)
    requires |last| <= 2 && (|last| == 2 ==> last[0].v != last[1].v)
    ensures PairsDistinct(prev + last)
  {
    var list := prev + last;
    forall j, k | 0 <= j < k < |list|
      ensures list[j].u != list[k].u || list[j].v != list[k].v
    {
      if k >= |prev| {
        assert list[k] == last[k - |prev|] && list[k] in last;
        if j < |prev| {
          assert list[j] == prev[j] && list[j] in prev;
        } else {
          assert j - |prev| == 0 && k - |prev| == 1;
        }
      } else {
        assert list[j] == prev[j] && list[k] == prev[k];
      }
    }
  }

  /** Pixel n - 1's calls join pairs not joined before. */
  lemma OnceStep(pix: seq<Byte>, width: nat, used: seq<bool>, n: int)
    requires width > 0 && |used| == |pix| && 0 < n <= |pix|
    requires PairsDistinct(NeighbourEdges(pix, width, used, n - 1))
    requires GridShaped(NeighbourEdges(pix, width, used, n - 1), n - 1)
    ensures PairsDistinct(NeighbourEdges(pix, width, used, n))
  {
    PixelEdgesShape(pix, width, used, n - 1);
    PixelEdgesDistinct(pix, width, used, n - 1);
    PairsDistinctAppend(NeighbourEdges(pix, width, used, n - 1), PixelEdges(pix, width, used, n - 1), n - 1);
  }

  /** No pair of pixels is joined twice. */
  lemma {:induction false} NeighbourEdgesOnce(pix: seq<Byte>, width: nat, used: seq<bool>, n: int)
    requires width > 0 && |used| == |pix| && 0 <= n <= |pix|
    ensures PairsDistinct(NeighbourEdges(pix, width, used, n))
    decreases n
  {
    if n > 0 {
      NeighbourEdgesOnce(pix, width, used, n - 1);
      NeighbourEdgesShape(pix, width, used, n - 1);
      OnceStep(pix, width, used, n);
    }
  }

  /** i % width for the pixel in row h, column j. */
  lemma RowColumn(h: nat, width: nat, j: nat)
    requires j < width
    ensures (h * width + j) % width == j
  {
    var a := h * width + j;
    assert a == (a / width) * width + a % width;
    MulAddUnique(h, j, a / width, a % width, width);
  }

  /** Pixels 0 .. n-1 that do not start a row. */
  function NotRowStarts(width: nat, n: nat): nat
    requires width > 0
  {
    if n == 0 then 0 else NotRowStarts(width, n - 1) + (if (n - 1) % width != 0 then 1 else 0)
  }

  lemma MulPred(a: nat, b: int)
    requires a > 0
    ensures a * b == (a - 1) * b + b
  {
  }

  /** In h full rows and j more pixels (base = h * width of them before the
      partial row), all but one pixel per started row are not row starts. */
  lemma {:induction false} NotRowStartsRows(width: nat, h: nat, j: nat, base: nat, count: int)
    requires width > 0 && j <= width && base == h * width && count == h * (width - 1)
    ensures NotRowStarts(width, base + j) == count + (if j == 0 then 0 else j - 1)
    decreases h, j
  {
    if j > 0 {
      NotRowStartsRows(width, h, j - 1, base, count);
      RowColumn(h, width, j - 1);
    } else if h > 0 {
      MulPred(h, width);
      MulPred(h, width - 1);
      NotRowStartsRows(width, h - 1, width, base - width, count - (width - 1));
    }
  }

  /** Without used pixels, n pixels make one left edge per pixel that does
      not start a row and one upper edge per pixel after the first row. */
  lemma {:induction false} GridCount(pix: seq<Byte>, width: nat, n: int)
    requires width > 0 && 0 <= n <= |pix|
    ensures |NeighbourEdges(pix, width, NoneUsed(|pix|), n)| == NotRowStarts(width, n) + (if n >= width then n - width else 0)
    decreases n
  {
    if n > 0 {
      GridCount(pix, width, n - 1);
    }
  }

  /** add_img_edges on a height x width image connects H(W-1) horizontal
      and (H-1)W vertical pairs. */
  lemma GridEdgeCount(pix: seq<Byte>, height: nat, width: nat)
    requires width > 0 && height > 0 && |pix| == height * width
    ensures |NeighbourEdges(pix, width, NoneUsed(|pix|), |pix|)| == height * (width - 1) + (height - 1) * width
  {
    GridCount(pix, width, |pix|);
    NotRowStartsRows(width, height, 0, |pix|, height * (width - 1));
    MulPred(height, width);
  }

  /** std::array<u_char, 3> colour of a scribble pixel. */
  datatype Rgb = Rgb(r: Byte, g: Byte, b: Byte)

  const White: Rgb := Rgb(255, 255, 255)

  /** The RGB of pixel p of a 4-channel scribble buffer. */
  function ColorAt(scr: seq<Byte>, p: int): Rgb
    requires 0 <= p && 4 * p + 3 < |scr|
  {
    Rgb(scr[4 * p], scr[4 * p + 1], scr[4 * p + 2])
  }

  /** Pixel p of a scribble buffer has nonzero alpha. */
  predicate Opaque(scr: seq<Byte>, p: int)
    requires 0 <= p && 4 * p + 3 < |scr|
  {
    scr[4 * p + 3] != 0
  }

  /** Which terminal edge a pixel gets: none, source -> pixel, or pixel -> sink. */
  datatype Side = Skip | SourceSide | SinkSide

  /** Which pixels go to the source in the 4-channel scribble builders: those
      of one given colour, those that are not white, or none. */
  datatype SourceRule = Matching(color: Rgb) | NotWhite | Nobody

  predicate ToSource(rule: SourceRule, c: Rgb)
  {
    match rule
    case Matching(color) => c == color
    case NotWhite => c != White
    case Nobody => false
  }

  /** A scribble buffer with the rule its builder applies: 4 values per
      pixel, transparent pixels skipped and the rest sent to the source or the
      sink by a SourceRule; or one value per pixel, add_scribble_edges_old's
      layout, where value s goes to the source, another nonzero value to the
      sink and zero is skipped. */
  datatype Scribbles = Rgba(data: seq<Byte>, rule: SourceRule) | Gray(data: seq<Byte>, s: Byte)

  function PixelCount(sc: Scribbles): nat
  {
    match sc
    case Rgba(data, _) => |data| / 4
    case Gray(data, _) => |data|
  }

  /** The terminal edge pixel p of the buffer gets. */
  function SideAt(sc: Scribbles, p: int): Side
    requires 0 <= p < PixelCount(sc)
  {
    match sc
    case Rgba(scr, rule) =>
      if !Opaque(scr, p) then Skip else if ToSource(rule, ColorAt(scr, p)) then SourceSide else SinkSide
    case Gray(scr, s) =>
      if scr[p] == s then SourceSide else if scr[p] != 0 then SinkSide else Skip
  }

  /** The side of pixel p of a 4-channel buffer, read off its four values. */
  lemma SideAtRgba(scr: seq<Byte>, rule: SourceRule, p: int)
    requires 0 <= p < |scr| / 4
    ensures 4 * p + 3 < |scr|
    ensures SideAt(Rgba(scr, rule), p) ==
      if scr[4 * p + 3] == 0 then Skip
      else if ToSource(rule, Rgb(scr[4 * p], scr[4 * p + 1], scr[4 * p + 2])) then SourceSide
      else SinkSide
  {
  }

  /** The terminal call for pixel p. */
  function TerminalFor(side: Side, pixels: int, cap: int, p: int): seq<Insertion>
  {
    match side
    case Skip => []
    case SourceSide => [DirectionalEdge(pixels, p, cap)]
    case SinkSide => [DirectionalEdge(p, pixels + 1, cap)]
  }

  /** The terminal calls for pixels 0 .. n-1, in order; the source is node
      `pixels` and the sink `pixels + 1`. */
  function TerminalEdges(sc: Scribbles, pixels: int, cap: int, n: int): seq<Insertion>
    requires 0 <= n <= PixelCount(sc)
    decreases n
  {
    if n == 0 then [] else TerminalEdges(sc, pixels, cap, n - 1) + TerminalFor(SideAt(sc, n - 1), pixels, cap, n - 1)
  }

  /** Two buffers whose first n pixels get the same sides get the same
      terminal calls for them. */
  lemma {:induction false} TerminalEdgesAgree(a: Scribbles, b: Scribbles, pixels: int, cap: int, n: int)
    requires 0 <= n <= PixelCount(a) && n <= PixelCount(b)
    requires forall q :: 0 <= q < n ==> SideAt(a, q) == SideAt(b, q)
    ensures TerminalEdges(a, pixels, cap, n) == TerminalEdges(b, pixels, cap, n)
    decreases n
  {
    if n > 0 {
      TerminalEdgesAgree(a, b, pixels, cap, n - 1);
    }
  }

  /** The pixel a terminal call is about. */
  function TerminalPixel(e: Insertion, pixels: int): int
  {
    if e.u == pixels then e.v else e.u
  }

  /** The call for pixel p is directional, is about p, and fits a graph of
      pixels + 2 nodes. */
  lemma TerminalForShape(side: Side, pixels: int, cap: int, p: int)
    requires 0 <= p < pixels && cap >= 0
    ensures AllFit(TerminalFor(side, pixels, cap, p), pixels + 2)
    ensures forall e :: e in TerminalFor(side, pixels, cap, p) ==> e.DirectionalEdge? && TerminalPixel(e, pixels) == p
  {
  }

  /** Terminal calls are directional, name one of the first n pixels, and fit
      a graph of pixels + 2 nodes. */
  lemma {:induction false} TerminalEdgesFit(sc: Scribbles, pixels: int, cap: int, n: int)
    requires 0 <= n <= PixelCount(sc) <= pixels && cap >= 0
    ensures AllFit(TerminalEdges(sc, pixels, cap, n), pixels + 2)
    ensures forall e :: e in TerminalEdges(sc, pixels, cap, n) ==> e.DirectionalEdge? && 0 <= TerminalPixel(e, pixels) < n
    decreases n
  {
    if n > 0 {
      TerminalEdgesFit(sc, pixels, cap, n - 1);
      TerminalForShape(SideAt(sc, n - 1), pixels, cap, n - 1);
      AllFitAppend(TerminalEdges(sc, pixels, cap, n - 1), TerminalFor(SideAt(sc, n - 1), pixels, cap, n - 1), pixels + 2);
    }
  }

  /** The calls name strictly increasing pixels. */
  predicate Increasing(list: seq<Insertion>, pixels: int)
  {
    forall j, k :: 0 <= j < k < |list| ==> TerminalPixel(list[j], pixels) < TerminalPixel(list[k], pixels)
  }

  /** Appending calls about pixel m to increasing calls about pixels below m
      keeps them increasing. */
  lemma IncreasingAppend(prev: seq<Insertion>, last: seq<Insertion>, pixels: int, m: int)
    requires Increasing(prev, pixels) && |last| <= 1
    requires forall e :: e in prev ==> TerminalPixel(e, pixels) < m
    requires forall e :: e in last ==> TerminalPixel(e, pixels) == m
    ensures Increasing(prev + last, pixels)
  {
    var list := prev + last;
    forall j, k | 0 <= j < k < |list|
      ensures TerminalPixel(list[j], pixels) < TerminalPixel(list[k], pixels)
    {
      if k >= |prev| {
        assert list[k] == last[k - |prev|] && last[k - |prev|] in last;
        assert list[j] == prev[j] && prev[j] in prev;
      } else {
        assert list[j] == prev[j] && list[k] == prev[k];
      }
    }
  }

  /** The pixels of the calls strictly increase, so no pixel gets two
      terminal edges. */
  lemma {:induction false} TerminalEdgesOrdered(sc: Scribbles, pixels: int, cap: int, n: int)
    requires 0 <= n <= PixelCount(sc) <= pixels && cap >= 0
    ensures Increasing(TerminalEdges(sc, pixels, cap, n), pixels)
    decreases n
  {
    if n > 0 {
      TerminalEdgesOrdered(sc, pixels, cap, n - 1);
      TerminalEdgesFit(sc, pixels, cap, n - 1);
      TerminalForShape(SideAt(sc, n - 1), pixels, cap, n - 1);
      IncreasingAppend(TerminalEdges(sc, pixels, cap, n - 1), TerminalFor(SideAt(sc, n - 1), pixels, cap, n - 1), pixels, n - 1);
    }
  }

  /** source -> p is added exactly for the source-side pixels, p -> sink
      exactly for the sink-side ones, always with capacity cap, and nothing
      else is added. */
  lemma {:induction false} TerminalEdgesMembers(sc: Scribbles, pixels: int, cap: int, n: int, p: int, c: int)
    requires 0 <= n <= PixelCount(sc) <= pixels
    ensures DirectionalEdge(pixels, p, c) in TerminalEdges(sc, pixels, cap, n) <==>
      0 <= p < n && SideAt(sc, p) == SourceSide && c == cap
    ensures DirectionalEdge(p, pixels + 1, c) in TerminalEdges(sc, pixels, cap, n) <==>
      0 <= p < n && SideAt(sc, p) == SinkSide && c == cap
    ensures forall e :: e in TerminalEdges(sc, pixels, cap, n) ==>
      e.DirectionalEdge? && e.cap == cap && (e.u == pixels || e.v == pixels + 1)
    decreases n
  {
    if n > 0 {
      TerminalEdgesMembers(sc, pixels, cap, n - 1, p, c);
    }
  }
}
