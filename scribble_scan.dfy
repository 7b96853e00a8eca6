/** The scan of add_scribbles_edges in src/painter.cpp: which scribble pixel
    supplies the next colour, and the terminal calls the two loops make. */
module ScribbleScan {
  import opened Insertions
  import opened Matrices
  import opened FlowNetwork
  import opened DinicSolver
  import opened PixelGraph
  import opened GraphUtils
  import opened PainterValues

  /** Pixel q of the scribbles is opaque and its colour is not used yet. */
  predicate Fresh(scr: seq<Byte>, used: set<int>, q: int)
  {
    0 <= q < |scr| / 4 && Opaque(scr, q) && ColorToInt(ColorAt(scr, q)) !in used
  }

  /** Some pixel of the scribbles is fresh. */
  predicate AnyFresh(scr: seq<Byte>, used: set<int>)
  {
    exists q :: 0 <= q < |scr| / 4 && Fresh(scr, used, q)
  }

  /** Where the first loop of add_scribbles_edges stops when it starts at
      pixel `from`: the first fresh pixel, or the pixel count if none is. */
  function FirstFresh(scr: seq<Byte>, used: set<int>, from: int): (f: int)
    requires 0 <= from <= |scr| / 4
    ensures from <= f <= |scr| / 4
    ensures f < |scr| / 4 ==> Fresh(scr, used, f)
    ensures forall q :: from <= q < f ==> !Fresh(scr, used, q)
    decreases |scr| / 4 - from
  {
    if from == |scr| / 4 then from
    else if Fresh(scr, used, from) then from
    else FirstFresh(scr, used, from + 1)
  }

  /** The scan stops before the end exactly when some pixel is fresh. */
  lemma FirstFreshFound(scr: seq<Byte>, used: set<int>)
    ensures FirstFresh(scr, used, 0) < |scr| / 4 <==> AnyFresh(scr, used)
  {
    var f := FirstFresh(scr, used, 0);
    if f == |scr| / 4 {
      assert forall q :: 0 <= q < |scr| / 4 ==> !Fresh(scr, used, q);
    }
  }

  /** The colours of the opaque scribble pixels. */
  function OpaqueColors(scr: seq<Byte>): set<int>
  {
    set q | 0 <= q < |scr| / 4 && Opaque(scr, q) :: ColorToInt(ColorAt(scr, q))
  }

  /** The colour of a fresh pixel is an opaque colour not yet used. */
  lemma FreshColor(scr: seq<Byte>, used: set<int>, q: int)
    requires 0 <= q < |scr| / 4 && Fresh(scr, used, q)
    ensures ColorToInt(ColorAt(scr, q)) in OpaqueColors(scr) - used
  {
  }

  /** Before the first fresh pixel every opaque pixel has a used colour, so
      it goes to the sink whether no colour or a fresh one goes to the
      source: the edges the first loop added are those the second loop would
      have added. */
  lemma SinksBeforeFresh(scr: seq<Byte>, used: set<int>, color: Rgb, pixels: int, cap: int, p: int)
    requires 0 <= p <= |scr| / 4 && forall q :: 0 <= q < p ==> !Fresh(scr, used, q)
    requires ColorToInt(color) !in used
    ensures TerminalEdges(Rgba(scr, Nobody), pixels, cap, p) == TerminalEdges(Rgba(scr, Matching(color)), pixels, cap, p)
  {
    forall q | 0 <= q < p
      ensures SideAt(Rgba(scr, Nobody), q) == SideAt(Rgba(scr, Matching(color)), q)
    {
      SideAtRgba(scr, Nobody, q);
      SideAtRgba(scr, Matching(color), q);
      assert !Fresh(scr, used, q);
    }
    TerminalEdgesAgree(Rgba(scr, Nobody), Rgba(scr, Matching(color)), pixels, cap, p);
  }

  /** The terminal calls of add_scribbles_edges: with a fresh colour, pixels
      of that colour go to the source and every other opaque pixel to the
      sink; without one, every opaque pixel goes to the sink. */
  function ScribbleCalls(scr: seq<Byte>, used: set<int>, cap: int): seq<Insertion>
  {
    var f := FirstFresh(scr, used, 0);
    var rule := if f < |scr| / 4 then Matching(ColorAt(scr, f)) else Nobody;
    TerminalEdges(Rgba(scr, rule), |scr| / 4, cap, |scr| / 4)
  }
}
