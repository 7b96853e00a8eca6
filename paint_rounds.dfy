/** The rounds of paint (src/painter.cpp) as values: the state each round
    starts from, the network it builds and cuts, the colour it paints, and
    how one round leads to the next. */
module PaintRounds {
  import opened Insertions
  import opened Matrices
  import opened FlowNetwork
  import opened DinicSolver
  import opened DinicDfs
  import opened PixelGraph
  import opened PainterValues
  import opened ScribbleScan
  import opened Blend

  /** One round of paint: the used pixels and colours it starts from, the
      fresh colour it finds, the network add_drawing_edges and
      add_scribbles_edges build, that network after max_flow together with
      the flow sent, and the partition read off it. */
  datatype Round = Round(used: seq<bool>, colors: set<int>, color: Rgb, built: Network, final: Network,
                         flow: int, part: seq<bool>)

  /** r is a round of paint that reaches the cut, on the gray levels `gray`
      of a grid `width` pixels wide and the scribble buffer `scr`:
      - the network of pixels + 2 nodes holds the grid edges of the unused
        pixels and then the scribble edges, and both lists are non-empty
        (a fresh colour exists);
      - the colour is that of the first pixel with a fresh colour;
      - max_flow moved `flow` from the source (node pixels) to the sink
        (node pixels + 1), and the sink is cut off unless flow_infty went
        through;
      - the partition is exactly the set of nodes reachable from the source
        in the final residual network. */
  ghost predicate IsCut(gray: seq<Byte>, width: nat, scr: seq<Byte>, cap: int, r: Round)
  {
    var pixels := |gray|;
    width > 0 && |r.used| == pixels &&
    AllFit(NeighbourEdges(gray, width, r.used, pixels), pixels + 2) &&
    AllFit(ScribbleCalls(scr, r.colors, cap), pixels + 2) &&
    r.built == InsertAll(InsertAll(Empty(pixels + 2), NeighbourEdges(gray, width, r.used, pixels)),
                         ScribbleCalls(scr, r.colors, cap)) &&
    NeighbourEdges(gray, width, r.used, pixels) != [] &&
    AnyFresh(scr, r.colors) && FirstFresh(scr, r.colors, 0) < |scr| / 4 &&
    r.color == ColorAt(scr, FirstFresh(scr, r.colors, 0)) &&
    Moved(pixels, pixels + 1, r.built, r.final, r.flow) && 0 <= r.flow <= FlowInfinity &&
    (r.flow < FlowInfinity ==> !Reachable(r.final, pixels, pixels + 1)) &&
    |r.part| == pixels + 2 &&
    forall v :: 0 <= v < pixels + 2 ==> (r.part[v] <==> Reachable(r.final, pixels, v))
  }

  /** next is `used` after the union loop at the end of a round: a pixel is
      used once it was used or fell on the source side. */
  ghost predicate Unites(used: seq<bool>, part: seq<bool>, next: seq<bool>)
  {
    |next| == |used| <= |part| && forall q :: 0 <= q < |used| ==> next[q] == (used[q] || part[q])
  }

  /** The used pixels before round k; after the last round, `used`. */
  function UsedBefore(history: seq<Round>, k: nat, used: seq<bool>): seq<bool>
    requires k <= |history|
  {
    if k < |history| then history[k].used else used
  }

  /** The used colours before round k; after the last round, `colors`. */
  function ColorsBefore(history: seq<Round>, k: nat, colors: set<int>): set<int>
    requires k <= |history|
  {
    if k < |history| then history[k].colors else colors
  }

  /** `history` records a run of paint on `pixels` pixels that has reached
      `used` and `colors`: it started with no pixel used and white the only
      used colour, and each round adds its source side to the used pixels
      and its colour to the used colours. */
  ghost predicate Chain(pixels: nat, history: seq<Round>, used: seq<bool>, colors: set<int>)
  {
    UsedBefore(history, 0, used) == NoneUsed(pixels) &&
    ColorsBefore(history, 0, colors) == {ColorToInt(White)} &&
    forall k :: 0 <= k < |history| ==>
      Unites(history[k].used, history[k].part, UsedBefore(history, k + 1, used)) &&
      ColorsBefore(history, k + 1, colors) == history[k].colors + {ColorToInt(history[k].color)}
  }

  /** Every round of `history` reaches the cut. */
  ghost predicate Cuts(gray: seq<Byte>, width: nat, scr: seq<Byte>, cap: int, history: seq<Round>)
  {
    forall k {:trigger IsCut(gray, width, scr, cap, history[k])} ::
      0 <= k < |history| ==> IsCut(gray, width, scr, cap, history[k])
  }

  /** stages[k] is the painted buffer before round k, and each round blends
      its colour over the original o under its partition. */
  ghost predicate Stages(stages: seq<seq<Byte>>, o: seq<Byte>, history: seq<Round>)
  {
    |stages| == |history| + 1 &&
    forall k :: 0 <= k < |history| ==>
      BlendedFrom(stages[k + 1], stages[k], o, history[k].part, history[k].color)
  }

  /** A pixel is used exactly when some round put it on the source side. */
  ghost predicate Taken(history: seq<Round>, used: seq<bool>)
  {
    forall q :: 0 <= q < |used| ==>
      (used[q] <==> exists k :: 0 <= k < |history| && q < |history[k].part| && history[k].part[q])
  }

  /** Every used pixel of the 4-channel buffer p shows the original o tinted
      in the colour of a round that put it on the source side, with alpha
      255. */
  ghost predicate ShowsRounds(p: seq<Byte>, o: seq<Byte>, history: seq<Round>, used: seq<bool>)
  {
    |p| == 4 * |used| && |o| == 3 * |used| &&
    forall q :: 0 <= q < |used| && used[q] ==>
      exists k :: 0 <= k < |history| && q < |history[k].part| && history[k].part[q] &&
        (forall ch :: 0 <= ch < 4 ==> Channel(p, q, ch) == BlendValue(o, history[k].color, q, ch))
  }

  /** One more round from the state reached so far extends the record. */
  lemma ChainExtend(pixels: nat, history: seq<Round>, used: seq<bool>, colors: set<int>, r: Round,
                    next: seq<bool>)
    requires Chain(pixels, history, used, colors)
    requires r.used == used && r.colors == colors && Unites(used, r.part, next)
    ensures Chain(pixels, history + [r], next, colors + {ColorToInt(r.color)})
  {
    var h := history + [r];
    var c := colors + {ColorToInt(r.color)};
    forall k | 0 <= k < |h|
      ensures UsedBefore(h, k, next) == UsedBefore(history, k, used)
      ensures ColorsBefore(h, k, c) == ColorsBefore(history, k, colors)
      ensures Unites(h[k].used, h[k].part, UsedBefore(h, k + 1, next))
      ensures ColorsBefore(h, k + 1, c) == h[k].colors + {ColorToInt(h[k].color)}
    {
      if k < |history| {
        assert h[k] == history[k];
      }
    }
  }

  /** A round that reaches the cut extends a record of such rounds. */
  lemma CutsExtend(gray: seq<Byte>, width: nat, scr: seq<Byte>, cap: int, history: seq<Round>, r: Round)
    requires Cuts(gray, width, scr, cap, history) && IsCut(gray, width, scr, cap, r)
    ensures Cuts(gray, width, scr, cap, history + [r])
  {
    var h := history + [r];
    forall k | 0 <= k < |h|
      ensures IsCut(gray, width, scr, cap, h[k])
    {
      if k < |history| {
        assert h[k] == history[k];
      }
    }
  }

  /** Blending one more round onto the last buffer extends the stages. */
  lemma StagesExtend(stages: seq<seq<Byte>>, o: seq<Byte>, history: seq<Round>, next: seq<Byte>, r: Round)
    requires Stages(stages, o, history) && BlendedFrom(next, stages[|history|], o, r.part, r.color)
    ensures Stages(stages + [next], o, history + [r])
  {
    var s := stages + [next];
    var h := history + [r];
    forall k | 0 <= k < |h|
      ensures BlendedFrom(s[k + 1], s[k], o, h[k].part, h[k].color)
    {
      assert s[k] == stages[k];
      if k < |history| {
        assert h[k] == history[k] && s[k + 1] == stages[k + 1];
      }
    }
  }

  /** Dropping the last round drops the last buffer. */
  lemma StagesPrefix(stages: seq<seq<Byte>>, o: seq<Byte>, history: seq<Round>)
    requires Stages(stages, o, history) && |history| > 0
    ensures Stages(stages[..|history|], o, history[..|history| - 1])
  {
    var n := |history| - 1;
    var h := history[..n];
    var s := stages[..n + 1];
    forall k | 0 <= k < n
      ensures BlendedFrom(s[k + 1], s[k], o, h[k].part, h[k].color)
    {
      assert h[k] == history[k] && s[k] == stages[k] && s[k + 1] == stages[k + 1];
    }
  }

  /** Dropping the last round leaves the record of the run up to its start. */
  lemma ChainPrefix(pixels: nat, history: seq<Round>, used: seq<bool>, colors: set<int>)
    requires Chain(pixels, history, used, colors) && |history| > 0
    ensures Chain(pixels, history[..|history| - 1], history[|history| - 1].used, history[|history| - 1].colors)
  {
    var n := |history| - 1;
    var h := history[..n];
    forall k | 0 <= k < n
      ensures h[k] == history[k]
      ensures UsedBefore(h, k + 1, history[n].used) == UsedBefore(history, k + 1, used)
      ensures ColorsBefore(h, k + 1, history[n].colors) == ColorsBefore(history, k + 1, colors)
    {
    }
    assert UsedBefore(h, 0, history[n].used) == UsedBefore(history, 0, used);
    assert ColorsBefore(h, 0, history[n].colors) == ColorsBefore(history, 0, colors);
  }

  /** In a run of paint the used pixels are exactly those some round put on
      the source side, and every round's colour is among the used colours. */
  lemma {:induction false} ChainTaken(pixels: nat, history: seq<Round>, used: seq<bool>, colors: set<int>)
    requires Chain(pixels, history, used, colors)
    ensures |used| == pixels && Taken(history, used)
    ensures forall k :: 0 <= k < |history| ==> ColorToInt(history[k].color) in colors
    decreases |history|
  {
    if |history| != 0 {
      var n := |history| - 1;
      var last := history[n];
      var h := history[..n];
      ChainPrefix(pixels, history, used, colors);
      ChainTaken(pixels, h, last.used, last.colors);
      assert Unites(last.used, last.part, used) && colors == last.colors + {ColorToInt(last.color)};
      forall q | 0 <= q < |used|
        ensures used[q] <==> exists k :: 0 <= k < |history| && q < |history[k].part| && history[k].part[q]
      {
        if used[q] && !last.part[q] {
          assert last.used[q];
          var k :| 0 <= k < |h| && q < |h[k].part| && h[k].part[q];
          assert h[k] == history[k];
        } else if !used[q] {
          forall k | 0 <= k < |history| && q < |history[k].part|
            ensures !history[k].part[q]
          {
            if k < n {
              assert h[k] == history[k];
            }
          }
        }
      }
      forall k | 0 <= k < |history|
        ensures ColorToInt(history[k].color) in colors
      {
        if k < n {
          assert h[k] == history[k];
        }
      }
    }
  }

  /** Blending one more round keeps every used pixel showing the colour of
      a round that took it. */
  lemma ShowsStep(p: seq<Byte>, next: seq<Byte>, o: seq<Byte>, history: seq<Round>, last: Round,
                  used: seq<bool>)
    requires ShowsRounds(p, o, history, last.used)
    requires BlendedFrom(next, p, o, last.part, last.color) && Unites(last.used, last.part, used)
    ensures ShowsRounds(next, o, history + [last], used)
  {
    var h := history + [last];
    forall q | 0 <= q < |used| && used[q]
      ensures exists k :: (0 <= k < |h| && q < |h[k].part| && h[k].part[q] &&
                             forall ch :: 0 <= ch < 4 ==> Channel(next, q, ch) == BlendValue(o, h[k].color, q, ch))
    {
      if last.part[q] {
        assert h[|history|] == last;
        assert forall ch :: 0 <= ch < 4 ==> Channel(next, q, ch) == BlendValue(o, last.color, q, ch);
      } else {
        assert last.used[q];
        var k :| 0 <= k < |history| && q < |history[k].part| && history[k].part[q] &&
          forall ch :: 0 <= ch < 4 ==> Channel(p, q, ch) == BlendValue(o, history[k].color, q, ch);
        assert h[k] == history[k];
        assert forall ch :: 0 <= ch < 4 ==> Channel(next, q, ch) == Channel(p, q, ch);
      }
    }
  }

  /** In a run of paint whose buffers follow the rounds, every used pixel of
      the last buffer shows the colour of a round that took it. */
  lemma {:induction false} StagesShow(pixels: nat, history: seq<Round>, used: seq<bool>, colors: set<int>,
                                      stages: seq<seq<Byte>>, o: seq<Byte>)
    requires Chain(pixels, history, used, colors) && Stages(stages, o, history)
    requires |o| == 3 * pixels && |stages[0]| == 4 * pixels
    ensures ShowsRounds(stages[|history|], o, history, used)
    decreases |history|
  {
    ChainTaken(pixels, history, used, colors);
    if |history| != 0 {
      var n := |history| - 1;
      var last := history[n];
      var h := history[..n];
      var s := stages[..n + 1];
      ChainPrefix(pixels, history, used, colors);
      StagesPrefix(stages, o, history);
      StagesShow(pixels, h, last.used, last.colors, s, o);
      assert s[n] == stages[n] && history == h + [last];
      ShowsStep(stages[n], stages[n + 1], o, h, last, used);
    }
  }

  /** Pixels no round took keep their values through all the stages. */
  lemma {:induction false} StagesKeep(pixels: nat, history: seq<Round>, used: seq<bool>, colors: set<int>,
                                      stages: seq<seq<Byte>>, o: seq<Byte>)
    requires Chain(pixels, history, used, colors) && Stages(stages, o, history)
    requires |o| == 3 * pixels && |stages[0]| == 4 * pixels
    ensures |used| == pixels && |stages[|history|]| == 4 * pixels
    ensures forall q, ch :: 0 <= q < pixels && 0 <= ch < 4 && !used[q] ==>
      Channel(stages[|history|], q, ch) == Channel(stages[0], q, ch)
    decreases |history|
  {
    ChainTaken(pixels, history, used, colors);
    if |history| != 0 {
      var n := |history| - 1;
      var last := history[n];
      var h := history[..n];
      var s := stages[..n + 1];
      ChainPrefix(pixels, history, used, colors);
      StagesPrefix(stages, o, history);
      StagesKeep(pixels, h, last.used, last.colors, s, o);
      assert s[n] == stages[n] && s[0] == stages[0];
      assert Unites(last.used, last.part, used);
      assert BlendedFrom(stages[n + 1], stages[n], o, last.part, last.color);
    }
  }

  /** The whole record of a run of paint over the original o: the rounds
      chain, each reaches the cut, and the buffers follow them. */
  ghost predicate Run(gray: seq<Byte>, width: nat, scr: seq<Byte>, cap: int, o: seq<Byte>, history: seq<Round>,
                      used: seq<bool>, colors: set<int>, stages: seq<seq<Byte>>)
  {
    Chain(|gray|, history, used, colors) && Cuts(gray, width, scr, cap, history) && Stages(stages, o, history)
  }

  /** A round that reaches the cut, followed by its blend and its union,
      extends the record. */
  lemma RunExtend(gray: seq<Byte>, width: nat, scr: seq<Byte>, cap: int, o: seq<Byte>, history: seq<Round>,
                  used: seq<bool>, colors: set<int>, stages: seq<seq<Byte>>, r: Round, next: seq<bool>,
                  painted: seq<Byte>)
    requires Run(gray, width, scr, cap, o, history, used, colors, stages)
    requires r.used == used && r.colors == colors && Cuts(gray, width, scr, cap, history + [r])
    requires Unites(used, r.part, next) && BlendedFrom(painted, stages[|history|], o, r.part, r.color)
    ensures Run(gray, width, scr, cap, o, history + [r], next, colors + {ColorToInt(r.color)}, stages + [painted])
  {
    ChainExtend(|gray|, history, used, colors, r, next);
    StagesExtend(stages, o, history, painted, r);
  }

  /** What a finished record says about the last buffer: the used pixels are
      those some round took, each shows the colour of such a round, the
      others keep their first values, and every round's colour is used. */
  lemma RunEnd(gray: seq<Byte>, width: nat, scr: seq<Byte>, cap: int, o: seq<Byte>, history: seq<Round>,
               used: seq<bool>, colors: set<int>, stages: seq<seq<Byte>>)
    requires Run(gray, width, scr, cap, o, history, used, colors, stages)
    requires |o| == 3 * |gray| && |stages[0]| == 4 * |gray|
    ensures |used| == |gray| && Taken(history, used) && ShowsRounds(stages[|history|], o, history, used)
    ensures forall k :: 0 <= k < |history| ==> ColorToInt(history[k].color) in colors
    ensures forall q, ch :: 0 <= q < |used| && 0 <= ch < 4 && !used[q] ==>
      Channel(stages[|history|], q, ch) == Channel(stages[0], q, ch)
  {
    ChainTaken(|gray|, history, used, colors);
    StagesShow(|gray|, history, used, colors, stages, o);
    StagesKeep(|gray|, history, used, colors, stages, o);
  }
}
