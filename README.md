# nnVisLib layout, colour and draw order, in Dafny

nnVisLib draws a feed-forward neural network in a pygame window. Its
`ModelDiagram` class takes a list of weight matrices (row = target node,
column = source node), precomputes one `(x, y)` position per node, and on
every frame draws a line for each connection between consecutive layers,
coloured by the connection's weight, then the node circles over the lines.

This project models the logic under those drawing calls:

- `rounding.dfy` (module `Rounding`): Python's `round(x)` on exact reals,
  which rounds to the nearest integer and sends ties to the even neighbour.
- `colour.dfy` (module `Colour`): `getWeightColour`, the clamped linear ramp
  from a weight to an `(r, g, b)` colour.
- `layout.dfy` (module `Layout`): `getLayerCoords` and `getNodeCoords` as
  functions. There is one input layer sized by the first matrix's column
  count and one layer per matrix sized by its row count. Nodes are centred
  in equal-height slots and layers in equal-width columns. The exceptions
  the source raises become a `Result`.
- `render.dfy` (module `Render`): `getConnectionWeight`, and the drawing
  methods as the command lists they issue (`Line` for `aaline`, `Outline`
  for `aacircle`, `Disc` for `filled_circle`), with their order and count.
- `diagram.dfy` (module `Diagram`): the `ModelDiagram` class. Its fields are
  the canvas size, the matrices, the fill flag, the node radius and `coords`;
  the surface and the top-left corner are not carried (see Left out). Its
  constructor precomputes `coords`. Its
  methods are the source's loops, each proved to return the value of the
  matching function above.

The code has no collapsed ("ellipsis") layout for crowded layers. It does
not check that consecutive matrices' dimensions agree. The layout raises no
errors of its own; the only `raise` is the `ValueError` in the `weights`
setter, which is shadowed by the instance attribute. The model follows the
code on all three points.

The code's `draw()` makes two node passes. The first,
`drawNodes(DARK_MODE_COLOUR, True)`, issues a dark outline and then a dark
filled disc for each node. The second issues a white outline for each node.
The model keeps this order: for each node, the outline comes before its
disc.

## Model

| member | source | states |
|---|---|---|
| Rounding.Round | nnVisLib/main.py:48-49 | `round` gives an integer within one half of its argument, and an exact tie goes to the even neighbour |
| Rounding.RoundMonotone | nnVisLib/main.py:48-49 | rounding never reverses the order of two values |
| Rounding.RoundInteger | nnVisLib/main.py:48-49 | an integral value rounds to itself |
| Rounding.RoundWithin | nnVisLib/main.py:48-49 | a value between two integers rounds to an integer between them |
| Rounding.RoundSeparates | nnVisLib/main.py:48-49 | values more than one apart round to different integers |
| Colour.Clamp | nnVisLib/main.py:86-89 | the clamp's result lies in [42, 210]; a value already in range is kept; values above 210 become 210 and values below 42 become 42 |
| Colour.WeightColour | nnVisLib/main.py:80-101 | every channel is in [42, 210]; a weight >= 0 gives blue 210 with red = green; a negative weight gives red 210 with green = blue |
| Colour.WeightColourEnds | nnVisLib/main.py:84-91 | weight 0 gives (210, 210, 210) and weight 1 gives (42, 42, 210) |
| Colour.WeightColourInterpolates | nnVisLib/main.py:84-91 | for 0 <= w <= 1, red and green are exactly 210 - 168 w |
| Colour.WeightColourMonotone | nnVisLib/main.py:84-91 | for non-negative weights, red and green never increase with the weight |
| Colour.WeightColourSaturatesAbove | nnVisLib/main.py:84-91 | every weight >= 1 gets the colour of weight 1 |
| Colour.NegativeWeightsSaturate | nnVisLib/main.py:92-99 | every negative weight gets (210, 42, 42): `42 + 168 w` is below 42, so the negative branch never interpolates |
| Colour.WeightColourClampsRange | nnVisLib/main.py:80-101 | a weight outside [-1, 1] gets the colour of the nearer end of that interval |
| Colour.WeightColourSign | nnVisLib/main.py:84-99 | red below 210 means a positive weight; blue below 210 means a negative one; only weight 0 gives (210, 210, 210) |
| Layout.SlotCentreIsMidpoint | nnVisLib/main.py:44-49 | `offset * (i + 1) - offset / 2` is the midpoint of the i-th of the equal slots, extent * (2i + 1) / (2 slots); for i < slots it lies in [0, extent] |
| Layout.SlotCentreByOffset | nnVisLib/main.py:44-49 | proof helper only: links `GetLayerCoords`, which divides the offset once before its loop, to `SlotCentre` |
| Layout.SlotCentreStep | nnVisLib/main.py:47-48 | consecutive slot centres are one slot height apart |
| Layout.FirstEmptyLayer | nnVisLib/main.py:29-39 | finds the first layer, in the order `getNodeCoords` visits them, whose node count is zero |
| Layout.NodeCoordsOutcome | nnVisLib/main.py:29-44 | building the table fails exactly when there is no first matrix (IndexError) or some layer has no nodes (ZeroDivisionError at the first such layer); otherwise it yields the table |
| Layout.LayoutShape | nnVisLib/main.py:29-39 | the table has one layer per matrix plus one; layer 0 has as many nodes as matrix 0 has columns, and layer i + 1 as many as matrix i has rows |
| Layout.LayoutNodeAt | nnVisLib/main.py:41-52 | node i of layer k is at x = the centre of column k of `len(weights) + 1` equal columns, and y = the centre of slot i of its layer |
| Layout.RowYBoundedAndOrdered | nnVisLib/main.py:44-48 | a layer's y values lie in [0, height] and never decrease with the node index |
| Layout.RowYStrictlyOrdered | nnVisLib/main.py:44-48 | when the canvas is higher than the layer has nodes, different nodes of the layer get strictly increasing y |
| Layout.ColumnXBoundedAndOrdered | nnVisLib/main.py:43-49 | layer x values lie in [0, width], and a later layer is never left of an earlier one |
| Layout.LayoutOnCanvas | nnVisLib/main.py:41-52 | every node of the table lies on the canvas [0, width] x [0, height] |
| Layout.LayoutDependsOnShapeOnly | nnVisLib/main.py:29-39 | matrices with the same shapes give the same table; the weight values do not affect the layout |
| Layout.FiveNodeColumn | nnVisLib/main.py:44-48 | five nodes on a 500-pixel-high canvas get y = 50, 150, 250, 350, 450 |
| Render.ConnectionWeight | nnVisLib/main.py:72-73 | the lookup succeeds exactly when the layer, the row (target node) and the column (source node) are in range, and it then yields `weights[l][t][s]` |
| Render.ConnectionWeightInRange | nnVisLib/main.py:72-73 | for a rectangular matrix, the lookup succeeds exactly when target < rows and source < columns |
| Render.LayerEdgesAt | nnVisLib/main.py:65-70 | one layer issues sources x targets lines; the line for (s, t) is at position s * targets + t and carries the weight colour of (l, s, t) |
| Render.EdgesAt | nnVisLib/main.py:65-77 | all layers issue `EdgeCount` lines, the sum over l of the products of consecutive layer sizes; the line for (l, s, t) is at its index and joins `coords[l][s]` to `coords[l+1][t]` in `getWeightColour(getConnectionWeight(l, s, t))` |
| Render.EdgesAreConnections | nnVisLib/main.py:65-77 | every line issued is the line of some (l, s, t) at that triple's index |
| Render.EdgeIndexOrdered | nnVisLib/main.py:66-67 | lines come ordered by layer, then source node, then target node |
| Render.Flatten | nnVisLib/main.py:55-56 | the nodes, visited layer by layer, number `NodeTotal` |
| Render.FlattenAt | nnVisLib/main.py:55-56 | node i of layer k comes after every node of the earlier layers, at position NodeTotal(coords[..k]) + i |
| Render.MarksAt | nnVisLib/main.py:54-63 | `drawNodes` issues one outline per node, or an outline followed by a disc per node when filling, in node order |
| Render.FrameLayout | nnVisLib/main.py:103-106 | `draw` issues EdgeCount + 3 x (number of nodes) commands: the lines, then the dark pass, then the white pass |
| Render.FrameEdgesFirst | nnVisLib/main.py:103-104 | every command before the end of the lines is a line, so the node glyphs are drawn over the lines |
| Render.FrameDarkPass | nnVisLib/main.py:105 | after the lines, node j gets a dark outline and then a dark disc |
| Render.FrameWhitePass | nnVisLib/main.py:106 | the frame ends with one white outline per node, in node order |
| Render.TableEdgesInBounds | nnVisLib/main.py:65-73 | for a freshly built table, `getConnectionWeight` succeeds for every connection visited exactly when each matrix after the first has at least as many columns as the previous matrix has rows |
| Render.TableLayerInBounds | nnVisLib/main.py:65-73 | for a freshly built table, every lookup of `drawLayerConnections(l)` succeeds exactly when l = 0 or matrix l has at least as many columns as matrix l - 1 has rows |
| Render.MismatchedSecondLayer | nnVisLib/main.py:65-77 | for matrices 10 x 15 then 8 x 4, layer 0's lines are all drawn, while layer 1's lookups fail, so a whole frame cannot be drawn |
| Render.TableEdgeCount | nnVisLib/main.py:29-39 | the number of lines drawn for a built table is the sum, over the matrices, of the node counts of the two layers each one joins |
| Render.DemoNetwork | nnVisLib/main.py:125-126 | the demo network (10 x 15, 5 x 10, 1 x 10) gives layers of 15, 10, 5 and 1 nodes; every lookup succeeds and a frame draws 205 lines |
| Diagram.ModelDiagram.constructor | nnVisLib/main.py:14-27 | stores the size, weights and fill flag, sets the node radius to 10, and precomputes `coords` as the coordinate table |
| Diagram.ModelDiagram.GetLayerCoords | nnVisLib/main.py:41-52 | fails with a division by zero exactly when the layer has no nodes; otherwise returns exactly `numNodes` points, all with the layer's column x, where point i has the y of slot i |
| Diagram.ModelDiagram.GetNodeCoords | nnVisLib/main.py:29-39 | returns exactly `NodeCoords`: the first error raised, or the full table |
| Diagram.ModelDiagram.DrawLayerConnections | nnVisLib/main.py:65-70 | when every lookup of layer l alone succeeds, issues exactly the lines of layer l, source by source and target by target |
| Diagram.ModelDiagram.DrawConnections | nnVisLib/main.py:75-77 | issues exactly the lines of every consecutive layer pair, in layer order |
| Diagram.ModelDiagram.DrawNodes | nnVisLib/main.py:54-63 | issues exactly the node marks of the table for the given colour and fill flag |
| Diagram.ModelDiagram.Draw | nnVisLib/main.py:103-106 | issues exactly the frame (lines, dark pass, white pass) and modifies nothing, so `coords` stays as computed once in the constructor |
| Diagram.ModelDiagram.ReplaceWeights | nnVisLib/main.py:108-111 | refuses a list of a different length (ValueError); otherwise replaces the matrices. `coords` is left unchanged, and one layer per matrix plus one remains |

## Left out

- The pygame surface, the window, `display.flip`, the event loop, the FPS clock and `sys.exit` (nnVisLib/main.py:114-143) are I/O. Drawing calls become `Command` values, and `main` is represented only by the shapes of its demo matrices.
- The random weights from numpy and the `print(weights)` debug output (nnVisLib/main.py:24, 125-126) are a foreign library and a side effect. Only the matrix shapes of the demo are modelled.
- `surface`, `topLeftX` and `topLeftY` are stored but never used in the layout, so the class does not carry them. The `fill` attribute is stored, and `draw` never reads it.
- The unused `default` colour (30, 109, 235) in `getWeightColour` is not modelled.
- Floating-point arithmetic is modelled as exact real arithmetic. `round` is applied to the exact value, so a division result that IEEE doubles would round differently, and NaN weights, are not represented.
- A matrix is a sequence of rows, and a matrix with no rows is taken to have no columns. For a first matrix of shape 0 x k, numpy still reports k columns, so the source raises ZeroDivisionError at layer 1 while the model reports layer 0. Both raise the same exception.
- Diagram.ModelDiagram.constructor: requires that the table can be built. Python's `__init__` raises in that case and no object exists. `GetNodeCoords` models those errors as values.
- Diagram.ModelDiagram.Draw: requires that every visited connection has a weight (`EdgesInBounds`). The source raises IndexError partway through a frame, after some lines have been drawn. `Render.TableEdgesInBounds` states exactly when this precondition holds for a freshly built diagram.
- Diagram.ModelDiagram.DrawConnections: requires the same `EdgesInBounds`. The source draws the lines of every layer before the first failing one and then raises IndexError; `Render.TableLayerInBounds` says which layers succeed, and `DrawLayerConnections` models each of them on its own.
- Diagram.ModelDiagram.ReplaceWeights: the `weights` method of the source cannot be called through an instance, because the list stored as the instance attribute at nnVisLib/main.py:20 shadows it (`diagram.weights(ws)` fails with TypeError). It is still reachable as `ModelDiagram.weights(diagram, ws)`, and is modelled as a separate operation to show that it would not recompute `coords`.
- `__init__` keeps a reference to the caller's list and arrays (nnVisLib/main.py:20). If the caller later changes them in place, the edge colours follow but `coords` is not recomputed. The model copies values, so this aliasing is not represented; `main` never does it.
- Diagram.ModelDiagram.constructor: requires every matrix to be rectangular. Ragged nested lists are outside the source's domain: recent numpy rejects a ragged list at `np.shape` (nnVisLib/main.py:32, 36), and the demo's matrices are arrays.
- The canvas width and height are natural numbers. A negative window size is not modelled.
