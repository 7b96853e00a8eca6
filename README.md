# line-art-paint: flow network core in Dafny

line-art-paint colours a line drawing from a few colour scribbles. Each
colour becomes one minimum s-t cut on a graph. The graph has one node per
pixel, a source and a sink. Neighbouring pixels are joined by grid edges
weighted by their gray levels. Scribbled pixels are tied to the source or
the sink by terminal edges. This project models and proves the core of that
program:

- the two max-flow solvers, `Dinic` (include/dinic.hpp) and `EdmondsKarp`
  (include/edmonds_karp.hpp), with their edge adders, level or parent
  search, augmentation, `partition` and `min_cut`;
- the graph builders of src/graph_utils.cpp and src/matrix_utils.cpp, and
  `add_drawing_edges` / `add_scribbles_edges` of src/painter.cpp;
- `Painter::paint`, the multi-colour loop; `blend_color`; `color_to_int`;
  `get_image_type_`;
- `Matrix` (include/matrix.hpp), the row-major, channel-interleaved buffer
  every image lives in.

Layout, one module per file:

- `flow_network.dfy` and `ek_network.dfy` hold the two networks as values:
  Dinic's adjacency lists with mirrored edges, and Edmonds-Karp's neighbour
  lists plus a dense capacity matrix. Their lemmas cover insertion, pushes,
  residual reachability and out-capacity sums.
- `level_graph.dfy` proves what BFS levels mean: a level is the residual
  distance from the source.
- The classes `DinicSolver.Dinic` (`dinic.dfy`) and
  `EdmondsKarpSolver.EdmondsKarp` (`edmonds_karp.dfy`) keep the source's
  fields. Their loops run on those values in `dinic_bfs`, `dinic_augment`,
  `dinic_dfs`, `dinic_cut`, `ek_bfs`, `ek_augment` and `ek_cut`, and the
  class methods assign the results back.
- `pixel_graph.dfy` defines, as pure functions, the exact list of adder
  calls each builder makes:
  - `NeighbourEdges` for the grid;
  - `TerminalEdges` for the scribbles;
  - `ScribbleCalls` (in `scribble_scan.dfy`) for `add_scribbles_edges`.

  Each builder method is proved to produce
  `InsertAll(old network, that list)`. The lemmas then say which edges the
  list holds.
- `painter.dfy` holds the `Painter` class. `blend.dfy` and
  `painter_values.dfy` hold its pure parts. `paint_rounds.dfy` records a
  run of `paint` as values: each round's starting state, the network it
  built and cut, its colour and partition, and the painted buffer before
  and after each blend.

Behaviour of the code that the model keeps as written:

- The Edmonds-Karp `min_cut` reports every neighbour entry that leaves the
  source side, including the reverse entry a directional edge puts in the
  target's list (`EkCut.CutListMembers`). Its `partition` returns 255 and 0,
  not booleans.
- `max_flow` never checks whether it was called before. Only `partition`
  and `min_cut` check `flow_called_`.
- The Dinic `max_flow` also stops once `flow_infty` units have been sent,
  not only when the sink is cut off.
- include/painter.hpp declares neither `blend_color` nor
  `drawing_painted_`, but src/painter.cpp defines and uses both. The model
  follows src/painter.cpp.

## Model

| member | source | states |
|---|---|---|
| DinicSolver.Dinic.constructor | include/dinic.hpp:64-70 | V empty adjacency lists and no flow computed yet; the mirror invariant holds |
| DinicSolver.Dinic.AddDirectionalEdge | include/dinic.hpp:72-82 | u gets v with the capacity at the end of its list, v gets the zero-capacity reverse, each names the other's index; every other list is unchanged and every edge keeps its mirror |
| DinicSolver.Dinic.AddBidirectionalEdge | include/dinic.hpp:84-93 | as above with the capacity in both directions |
| DinicSolver.Dinic.Bfs | include/dinic.hpp:152-176 | level_ becomes the BFS levelling of the residual graph from the source, and the result is true exactly when the sink got a level below id_infty |
| DinicSolver.Dinic.Dfs | include/dinic.hpp:178-205 | sends at most path_cap units from node to the sink; capacities stay non-negative and mirrored with their pair sums kept; exactly that flow of out-capacity moves from node to sink; if less than path_cap is sent, no level path from node remains |
| DinicSolver.Dinic.MaxFlow | include/dinic.hpp:95-110 | 0 <= flow <= flow_infty; the final network is the initial one with flow units moved from source to sink (pair sums kept, conservation at every other node); when flow < flow_infty no residual path leads from source to sink |
| DinicSolver.Dinic.Partition | include/dinic.hpp:129-150 | part[v] holds exactly when v is reachable from the source over edges with capacity left |
| DinicSolver.Dinic.MinCut | include/dinic.hpp:112-127 | the pairs are CutList of the reachable set; see DinicCut.CutListMembers and DinicCut.CutSaturated |
| DinicBfs.BfsLevels | include/dinic.hpp:153-173 | the queue loop of bfs yields IsBfsLevels: source at 0, residual edges climb at most one level, every reached node entered from one level lower |
| LevelGraph.BfsLevelIsDistance | include/dinic.hpp:152-176 | a node keeps id_infty exactly when no residual path reaches it, and otherwise its level is the length of its shortest residual path |
| LevelGraph.BfsLevelPath | include/dinic.hpp:175 | after a bfs that reached the sink, a level path leads from the source to the sink, which is why the first dfs increment is positive (the assert at include/dinic.hpp:103) |
| LevelGraph.AllDeadNoLevelPath | include/dinic.hpp:187-202 | a node whose cursor has passed all its edges, each of them dead, has no level path to the sink |
| DinicAugment.Augment | include/dinic.hpp:178-205 | dfs on the values of adj_ and edge_id_: DfsResult, returning path_cap unchanged at the sink and 0 with nothing changed at or beyond the sink's level |
| DinicAugment.AugmentFrom | include/dinic.hpp:187-204 | the cursor loop establishes DfsResult for the edges from the cursor on |
| DinicDfs.DfsStep | include/dinic.hpp:190-196 | one recursive call along an edge one level up, with the edge lowered and its mirror raised, extends Progress |
| DinicDfs.MovedRound | include/dinic.hpp:100-106 | a round's dfs from the source adds its increment to the flow already moved from source to sink |
| DinicCut.ReachableFrom | include/dinic.hpp:133-147 | the stack search marks exactly the nodes reachable from the source over residual edges |
| DinicCut.CutEdges | include/dinic.hpp:118-126 | the double loop returns CutList, node by node in edge order |
| DinicCut.CutListMembers | include/dinic.hpp:120-124 | (u, v) is reported exactly when some edge of u to v leaves the source side and is not a DIRECTIONAL_REVERSE edge |
| DinicCut.CutSaturated | include/dinic.hpp:112-127 | every reported edge has no capacity left when the side is the residual reachable set |
| FlowNetwork.InsertKeepsInvariant | include/dinic.hpp:72-93 | an insertion keeps every edge mirrored and no capacity negative, grows only the two end lists by one and leaves the others alone |
| FlowNetwork.PushPairSums | include/dinic.hpp:193-194 | lowering an edge and raising its mirror by the same amount keeps the shape and every pair sum |
| FlowNetwork.PushOutCapacity | include/dinic.hpp:193-194 | that push moves exactly the amount of out-capacity from the edge's tail to its head |
| FlowNetwork.ClosedContainsReachable | include/dinic.hpp:138-147 | a set holding the source and closed under residual edges contains every reachable node |
| EdmondsKarpSolver.EdmondsKarp.constructor | include/edmonds_karp.hpp:45-52 | V empty neighbour lists, a V x V zero capacity matrix, no flow computed |
| EdmondsKarpSolver.EdmondsKarp.AddDirectionalEdge | include/edmonds_karp.hpp:54-65 | the network becomes Insert(old, directional u v cap); see EkNetwork.InsertDirectionalExisting and EkNetwork.InsertDirectionalNew |
| EdmondsKarpSolver.EdmondsKarp.AddBidirectionalEdge | include/edmonds_karp.hpp:67-75 | the network becomes Insert(old, bidirectional u v cap); see EkNetwork.InsertBidirectional |
| EdmondsKarpSolver.EdmondsKarp.Bfs | include/edmonds_karp.hpp:132-158 | a positive result exactly when the sink (other than the source) was reached, equal to the bottleneck of the parent chain; a zero result leaves parent_ marking exactly the reachable nodes |
| EdmondsKarpSolver.EdmondsKarp.MaxFlow | include/edmonds_karp.hpp:77-95 | flow >= 0; the final capacities are the initial ones with flow units moved from source to sink (pair sums kept, conservation elsewhere); with source != sink no residual path is left to the sink |
| EdmondsKarpSolver.EdmondsKarp.Partition | include/edmonds_karp.hpp:115-131 | 255 for every node reachable from the source over residual capacity, 0 for the rest |
| EdmondsKarpSolver.EdmondsKarp.MinCut | include/edmonds_karp.hpp:97-113 | the pairs are CutList of the reachable set; see EkCut.CutListMembers and EkCut.CutSaturated |
| EkBfs.Search | include/edmonds_karp.hpp:133-157 | the queue loop leaves a parent tree whose chains are residual paths carrying the recorded bottleneck (SearchResult) |
| EkBfs.TreeReachable | include/edmonds_karp.hpp:148-153 | every node the parent tree reached is reachable from the source |
| EkAugment.Retrace | include/edmonds_karp.hpp:84-90 | the walk from the sink back along parent_ moves f units from source to sink, with no capacity going negative |
| EkAugment.MovedTrans | include/edmonds_karp.hpp:82-91 | two augmentations in a row move the sum of their flows |
| EkCut.CutPairs | include/edmonds_karp.hpp:104-110 | the double loop returns CutList in list order |
| EkCut.CutListMembers | include/edmonds_karp.hpp:104-110 | (u, v) is reported exactly when u is on the source side, v is not and v is a neighbour entry of u |
| EkCut.CutSaturated | include/edmonds_karp.hpp:97-113 | every reported pair has zero capacity from u to v |
| EkNetwork.InsertDirectionalExisting | include/edmonds_karp.hpp:58-61 | on a pair with capacity, only capacity_[u][v] grows by the new capacity and the lists stay as they are |
| EkNetwork.InsertDirectionalNew | include/edmonds_karp.hpp:62-64 | on a pair without capacity, each end joins the other's list and only capacity_[u][v] is set |
| EkNetwork.InsertBidirectional | include/edmonds_karp.hpp:67-75 | both lists grow, both directions are overwritten with the capacity, nothing else changes |
| EkNetwork.PushOutCapacity | include/edmonds_karp.hpp:87-88 | one step of the walk moves the amount of out-capacity from `from` to `to` |
| GraphUtils.AddImgEdges | src/graph_utils.cpp:3-32 | the Dinic network becomes InsertAll(old, NeighbourEdges of the image with no pixel used) |
| GraphUtils.AddScribbleEdges | src/graph_utils.cpp:37-65 | the network becomes InsertAll(old, TerminalEdges with the source rule "colour == s_color") |
| GraphUtils.AddScribblePixels | src/graph_utils.cpp:54-64 | the loop from any pixel on completes the terminal calls up to the last pixel |
| MatrixUtils.AddImgEdges | src/matrix_utils.cpp:29-57 | the Edmonds-Karp network becomes InsertAll(old, NeighbourEdges with no pixel used) |
| MatrixUtils.AddScribbleEdges | src/matrix_utils.cpp:62-88 | the network becomes InsertAll(old, TerminalEdges with the rule "not white goes to the source") |
| MatrixUtils.AddScribbleEdgesOld | src/matrix_utils.cpp:95-117 | on a one-value-per-pixel buffer: value s goes to the source, another nonzero value to the sink, zero is skipped |
| PixelGraph.GridCapacity | src/graph_utils.cpp:19-28 | max(zero_cancel, min(a, b)) lies in [1, 255], is a, b or 1, and is at most both when both are nonzero |
| PixelGraph.NeighbourEdgesMembers | src/painter.cpp:112-129 | a grid call (u, v, c) is made exactly when v is u's left or upper neighbour, neither is used and c is their grid capacity |
| PixelGraph.NeighbourEdgesOnce | src/painter.cpp:112-129 | no ordered pair of pixels is joined twice |
| PixelGraph.NeighbourEdgesEmpty | src/painter.cpp:111-131 | no call is made exactly when no pixel can be joined to its left or upper neighbour |
| PixelGraph.GridEdgeCount | src/graph_utils.cpp:18-31 | an H x W image gets H(W-1) + (H-1)W grid edges |
| PixelGraph.NeighbourEdgesFit | src/graph_utils.cpp:18-31 | every grid call names nodes of a graph with pixels + 2 nodes |
| PixelGraph.TerminalEdgesMembers | src/graph_utils.cpp:54-64 | source -> p is added exactly for the source-side pixels and p -> sink exactly for the sink-side ones, always with the terminal capacity, and nothing else |
| PixelGraph.TerminalEdgesOrdered | src/graph_utils.cpp:54-64 | the calls follow the pixels in increasing order, so no pixel gets two terminal edges |
| PixelGraph.SideAtRgba | src/matrix_utils.cpp:77-87 | a pixel's side is read off its four values: alpha 0 skips it, otherwise the rule picks source or sink |
| ScribbleScan.FirstFresh | src/painter.cpp:150-162 | the first loop stops at the first opaque pixel whose colour is not used, or at the end |
| ScribbleScan.FirstFreshFound | src/painter.cpp:164-167 | the loop stops before the end exactly when some scribble pixel is fresh |
| ScribbleScan.FreshColor | src/painter.cpp:154-160 | the colour picked is an opaque colour not yet used |
| ScribbleScan.SinksBeforeFresh | src/painter.cpp:150-179 | the sink edges of the first loop are exactly those the second loop would have added for those pixels |
| ScribbleLoop.ScribblesEdges | src/painter.cpp:134-182 | found exactly when some pixel is fresh; the colour is that of the first fresh pixel; the network becomes InsertAll(old, ScribbleCalls) |
| ScribbleLoop.ScanScribbles | src/painter.cpp:150-162 | the first loop ends at offset 4 * FirstFresh, having sent every opaque pixel before it to the sink |
| ScribbleLoop.ScanPixel | src/painter.cpp:152-161 | one turn stops exactly on a fresh pixel and otherwise adds that pixel's sink call |
| Painters.Painter.constructor | src/painter.cpp:10-17 | the painted copy is the image with alpha 255 added; the gray levels are those given |
| Painters.Painter.BlendColor | src/painter.cpp:31-55 | masked pixels take the tinted original colour and alpha 255, others keep all four values |
| Painters.Painter.AddDrawingEdges | src/painter.cpp:97-132 | the network becomes InsertAll(old, NeighbourEdges of the unused pixels), and the result is true exactly when that list is not empty |
| Painters.Painter.AddScribblesEdges | src/painter.cpp:134-182 | as ScribbleLoop.ScribblesEdges, on the scribble matrix with terminal_capacity_ |
| Painters.Painter.Paint | src/painter.cpp:57-95 | the rounds form a record that starts with no used pixel and white the only used colour (PaintRounds.Chain); each round reaches the cut on the network built from the pixels and colours used before it (PaintRounds.Cuts); the painted buffer goes through one blend per round, in that round's colour under its partition (PaintRounds.Stages); a pixel is used exactly when some round took it, and then it shows the tint of such a round's colour with alpha 255, while the other pixels keep their four values; every round's colour is used; each round adds one opaque non-white colour, so the rounds are at most their number; at the end no grid edge or no fresh colour is left |
| Painters.Painter.NextCut | src/painter.cpp:67-79 | the round goes on exactly when the grid of the unused pixels is not empty and a fresh colour exists; then (PaintRounds.IsCut) the network max_flow ran on is the empty network of pixels + 2 nodes with the grid edges and then the scribble edges inserted, max_flow moved `flow` from the source to the sink with every mirrored pair's capacity sum kept, the sink is cut off unless flow_infty went through, the colour is that of the first fresh pixel, and the partition is exactly the set of nodes reachable from the source in the final network |
| Painters.Painter.CutRound | src/painter.cpp:67-79 | NextCut's round, appended to earlier rounds that all reach the cut, gives rounds that all reach the cut; the round starts from the given used pixels and colours |
| PaintRounds.ChainExtend | src/painter.cpp:75-93 | a round followed by the colour insert and the union loop extends the record of rounds |
| PaintRounds.CutsExtend | src/painter.cpp:67-79 | a round that reaches the cut extends a record of rounds that all do |
| PaintRounds.ChainPrefix | src/painter.cpp:66-93 | the record without its last round ends at that round's starting state |
| PaintRounds.StagesExtend | src/painter.cpp:81 | the blend of one more round extends the sequence of painted buffers |
| PaintRounds.StagesPrefix | src/painter.cpp:81 | dropping the last round drops the last buffer |
| PaintRounds.ChainTaken | src/painter.cpp:57-95 | after any number of rounds a pixel is used exactly when some round put it on the source side, and every round's colour is a used colour |
| PaintRounds.ShowsStep | src/painter.cpp:81-93 | one more blend and union keep every used pixel showing the colour of a round that took it |
| PaintRounds.StagesShow | src/painter.cpp:57-95 | every used pixel of the last buffer shows the original tinted in the colour of a round that took it, with alpha 255 |
| PaintRounds.StagesKeep | src/painter.cpp:57-95 | a pixel no round took keeps its four values through every blend |
| PaintRounds.RunExtend | src/painter.cpp:66-93 | a whole round (cut, blend, colour insert and union) extends the record of a run |
| PaintRounds.RunEnd | src/painter.cpp:57-95 | at the end of a run a pixel is used exactly when some round took it, a used pixel shows such a round's colour, the others keep their first values, and every round's colour is used |
| Painters.UniteUsed | src/painter.cpp:91-93 | each pixel is used afterwards exactly when it was used or is on the source side |
| Painters.NewColorCounts | src/painter.cpp:75 | inserting a fresh candidate colour grows the used set by one and stays within the candidates |
| Blend.BlendPixels | src/painter.cpp:47-54 | the i/j loop over the 3- and 4-channel buffers yields BlendedFrom |
| Blend.BlendIdempotent | src/painter.cpp:31-55 | blending the same colour under the same mask twice changes nothing more |
| Blend.BlendWhiteRestores | src/painter.cpp:31-55 | blending white everywhere gives back the unpainted 4-channel copy |
| Blend.AddAlpha | src/painter.cpp:209-214 | each pixel's three values followed by 255 |
| PainterValues.ColorToInt | src/painter.cpp:23-29 | the packed value is below 2^24 |
| PainterValues.ColorRoundTrip | src/painter.cpp:23-29 | unpacking a packed colour gives the colour back |
| PainterValues.IntRoundTrip | src/painter.cpp:23-29 | packing the unpacked value of any n < 2^24 gives n back |
| PainterValues.ColorToIntInjective | src/painter.cpp:23-29 | different colours pack to different values, so used_colors tells colours apart |
| PainterValues.LastDot | src/painter.cpp:225-227 | the index of the last '.', if any, with no '.' after it |
| PainterValues.ImageTypeOfExtension | src/painter.cpp:224-240 | the type is PNG, BMP, TGA or JPG exactly when the text from the last dot is that extension |
| PainterValues.ImageTypeOfOther | src/painter.cpp:224-240 | without a dot or with any other extension the type is NOT_IMG |
| PainterValues.Tint | src/painter.cpp:50-52 | a colour channel of 255 keeps the value, 0 gives 0, and the tint never exceeds the value |
| PainterValues.TintMonotone | src/painter.cpp:50-52 | a darker value or a darker channel never gives a lighter tint |
| Matrices.OffsetInRange | include/matrix.hpp:127-135 | every (row, col, channel) inside the shape lies inside the buffer of size() |
| Matrices.OffsetInjective | include/matrix.hpp:127-135 | distinct cells have distinct offsets |
| Matrices.Matrix.Default | include/matrix.hpp:30 | shape 0 x 0 x 0 and no data |
| Matrices.Matrix.Filled | include/matrix.hpp:66-71 | the shape given and every one of its size() values equal to val |
| Matrices.Matrix.FromData | include/matrix.hpp:79-88 | the shape and data given |
| Matrices.Matrix.Copy | include/matrix.hpp:73-77 | the same data and shape as b |
| Matrices.Matrix.Assign | include/matrix.hpp:90-95 | data and shape become b's |
| Matrices.Matrix.Clone | include/matrix.hpp:97-100 | a new matrix with the same data and shape |
| Matrices.Matrix.SetAt | include/matrix.hpp:127-130 | the cell written reads back as val and no other value changes |
| Matrices.Matrix.Get3 | include/matrix.hpp:147-152 | the three values starting at the pixel's offset |
| Matrices.Matrix.Set3 | include/matrix.hpp:161-168 | Get3 of the pixel reads back as val and nothing outside its three values changes |
| Matrices.Matrix.Set4 | include/matrix.hpp:170-178 | the four values at the pixel become val and nothing else changes |
| Matrices.Matrix.Equal | include/matrix.hpp:180-185 | true exactly when shapes and data agree |

## Left out

- Integer widths. flow_t is a 32-bit `int` in every call site. The model's capacities and flow sums are unbounded, so the wrap-around of `reverse_edge(e).capacity += path` (include/dinic.hpp:194), `capacity_[u][v] += capacity` (include/edmonds_karp.hpp:59) and `flow += ...` is not modelled. `flow_infty` and `id_infty` keep their INT_MAX values.
- DinicSolver.Dinic.constructor: requires `0 <= V < IdInfinity`. The source accepts any V. The bound keeps every BFS level below id_infty, which `bfs` relies on without saying so.
- DinicSolver.Dinic.AddDirectionalEdge: requires `u != v`. The source accepts a self-loop, but then both halves are pushed onto the same list and the second `rev` index is off by one (include/dinic.hpp:77-81). No builder passes u == v.
- DinicSolver.Dinic.AddBidirectionalEdge: requires `u != v`, for the same reason (include/dinic.hpp:88-92).
- Painters.Painter.Paint: requires `|gray.data| + 2 < IdInfinity`, which the Dinic constructor above needs for the network of pixels + 2 nodes.
- Painters.Painter.NextCut: requires the same `|gray.data| + 2 < IdInfinity` as Paint, for the same Dinic constructor bound.
- Painters.Painter.CutRound: requires the same bound as NextCut, and that the rounds before it reach the cut, which Paint keeps as a loop invariant.
- Painters.Painter.BlendColor: the tint of each channel is the exact integer `o * c / 255` (PainterValues.Tint). The source multiplies by the single-precision float `c / 255.f` and truncates to a byte, and the two can differ by one. Tint's own contract (255 keeps, 0 clears, never above o, monotone) also holds for the float product.
- Blend.BlendPixels: computes the same exact-integer tint as Painters.Painter.BlendColor, so it too can differ by one from the source's float product.
- PainterValues.Tint: is `o * c / 255` on integers; the source's `(u_char)(o * (c / 255.f))` can be one lower when the float quotient rounds down.
- Painters.Painter.Valid: includes `terminal_capacity_ >= 0`. Every adder asserts a non-negative capacity, so a negative terminal capacity would stop paint at its first terminal edge.
- Image files: imread, imwrite (stb_image), the colour-to-gray conversion init_gray with its gamma `pow`, and the Painter constructor's loading. The constructor takes the decoded pixels and the gray levels as parameters.
- The `std::cout` report of each flow in paint, and the `std::cerr` messages of imread.
- Matrix::get4 (include/matrix.hpp:154-159) is declared to return three values but builds four, so it is ill-formed and no caller uses it. Also left out: the accessors height/width/channels/pt, which the model reads as fields. The `reset` that imread and init_gray call on a Matrix is not declared in include/matrix.hpp; both callers are outside the model.
- The stack of `partition`, the queues of both `bfs` and the cursor vector edge_id_ are modelled as sequences on values inside the class methods rather than as vectors updated in place.
- The minimality of the cut (max-flow equals min-cut capacity) is not proved. The model proves that the sink is cut off, that flow is conserved, and that the reported cut edges are saturated.
- The GUI example, src/main.cpp and the test programs are outside the core.
