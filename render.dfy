/** What one call of `ModelDiagram.draw` puts on the surface, as the list of
    drawing commands it issues, in order. The drawing surface itself is not
    modelled: `aaline`, `aacircle` and `filled_circle` become `Command`
    values. */
module Render {
  import opened Colour
  import opened Layout

  datatype Command =
    | Line(colour: Rgb, start: Point, end: Point)        // pg.draw.aaline
    | Outline(centre: Point, radius: int, colour: Rgb)   // gfxdraw.aacircle
    | Disc(centre: Point, radius: int, colour: Rgb)      // gfxdraw.filled_circle

  datatype Option<T> = None | Some(value: T)

  /** `getConnectionWeight(startLayer, startNode, endNode)`: the entry in
      row `endNode` (the target) and column `startNode` (the source) of
      matrix `startLayer`; None where Python would raise IndexError. */
  function ConnectionWeight(weights: seq<Matrix>, startLayer: nat, startNode: nat, endNode: nat): (w: Option<real>)
    ensures w.Some? <==> startLayer < |weights| && endNode < |weights[startLayer]| && startNode < |weights[startLayer][endNode]|
    ensures w.Some? ==> w.value == weights[startLayer][endNode][startNode]
  {
    if startLayer < |weights| && endNode < |weights[startLayer]| && startNode < |weights[startLayer][endNode]|
    then Some(weights[startLayer][endNode][startNode])
    else None
  }

  /** For a rectangular matrix the lookup succeeds exactly when the target
      is below the row count and the source below the column count. */
  lemma ConnectionWeightInRange(weights: seq<Matrix>, l: nat, s: nat, t: nat)
    requires l < |weights| && Rectangular(weights[l])
    ensures ConnectionWeight(weights, l, s, t).Some? <==> t < Rows(weights[l]) && s < Cols(weights[l])
  {
  }

  /** Every edge `drawLayerConnections(l)` visits finds its weight: layer
      `l` has a next layer, and every node `s` of layer `l` and `t` of layer
      `l + 1` has a weight. */
  predicate LayerInBounds(weights: seq<Matrix>, coords: seq<seq<Point>>, l: nat) {
    l + 1 < |coords| &&
    forall s, t :: 0 <= s < |coords[l]| && 0 <= t < |coords[l + 1]| ==> ConnectionWeight(weights, l, s, t).Some?
  }

  /** Every edge `drawConnections` visits finds its weight: every layer
      below the last is in bounds. */
  predicate EdgesInBounds(weights: seq<Matrix>, coords: seq<seq<Point>>) {
    forall l: nat :: l < |coords| - 1 ==> LayerInBounds(weights, coords, l)
  }

  /** The line from node `s` of layer `l` to node `t` of layer `l + 1`,
      coloured by the weight of that connection. */
  function Edge(weights: seq<Matrix>, coords: seq<seq<Point>>, l: nat, s: nat, t: nat): Command
    requires LayerInBounds(weights, coords, l)
    requires s < |coords[l]| && t < |coords[l + 1]|
  {
    Line(WeightColour(ConnectionWeight(weights, l, s, t).value), coords[l][s], coords[l + 1][t])
  }

  /** The lines from node `s` of layer `l` to every node of layer `l + 1`,
      in target order. */
  function FanOut(weights: seq<Matrix>, coords: seq<seq<Point>>, l: nat, s: nat): seq<Command>
    requires LayerInBounds(weights, coords, l)
    requires s < |coords[l]|
  {
    seq(|coords[l + 1]|, t requires 0 <= t < |coords[l + 1]| => Edge(weights, coords, l, s, t))
  }

  /** The lines from the first `sources` nodes of layer `l`
      (`drawLayerConnections(l)` when `sources` is the whole layer). */
  function LayerEdges(weights: seq<Matrix>, coords: seq<seq<Point>>, l: nat, sources: nat): seq<Command>
    requires LayerInBounds(weights, coords, l)
    requires sources <= |coords[l]|
  {
    if sources == 0 then []
    else LayerEdges(weights, coords, l, sources - 1) + FanOut(weights, coords, l, sources - 1)
  }

  /** The lines between the first `layers + 1` layers (`drawConnections()`
      when `layers` is `|coords| - 1`). */
  function Edges(weights: seq<Matrix>, coords: seq<seq<Point>>, layers: nat): seq<Command>
    requires EdgesInBounds(weights, coords)
    requires layers < |coords|
  {
    if layers == 0 then []
    else Edges(weights, coords, layers - 1) + LayerEdges(weights, coords, layers - 1, |coords[layers - 1]|)
  }

  /** Number of node pairs between consecutive layers among the first
      `layers + 1`. */
  function EdgeCount(coords: seq<seq<Point>>, layers: nat): nat
    requires layers < |coords|
  {
    if layers == 0 then 0
    else EdgeCount(coords, layers - 1) + |coords[layers - 1]| * |coords[layers]|
  }

  /** Position of the line for `(l, s, t)` in the full edge list. */
  function EdgeIndex(coords: seq<seq<Point>>, l: nat, s: nat, t: nat): nat
    requires l + 1 < |coords|
  {
    EdgeCount(coords, l) + s * |coords[l + 1]| + t
  }

  /** Within one layer: `sources * |coords[l + 1]|` lines, the line for
      `(s, t)` at position `s * |coords[l + 1]| + t`. */
  lemma {:induction false} LayerEdgesAt(weights: seq<Matrix>, coords: seq<seq<Point>>, l: nat, sources: nat, s: nat, t: nat)
    requires LayerInBounds(weights, coords, l)
    requires sources <= |coords[l]|
    ensures |LayerEdges(weights, coords, l, sources)| == sources * |coords[l + 1]|
    ensures s < sources && t < |coords[l + 1]| ==>
              s * |coords[l + 1]| + t < sources * |coords[l + 1]| &&
              LayerEdges(weights, coords, l, sources)[s * |coords[l + 1]| + t] == Edge(weights, coords, l, s, t)
  {
    var n := |coords[l + 1]|;
    if sources > 0 {
      LayerEdgesAt(weights, coords, l, sources - 1, s, t);
      var before := LayerEdges(weights, coords, l, sources - 1);
      assert |before| == (sources - 1) * n;
      assert sources * n == (sources - 1) * n + n;
      if s < sources && t < n {
        if s < sources - 1 {
          assert s * n + t < (sources - 1) * n by {
            assert (s + 1) * n <= (sources - 1) * n by { MulMonotone(s + 1, sources - 1, n); }
          }
        } else {
          assert s * n == (sources - 1) * n;
        }
      }
    }
  }

  lemma MulMonotone(a: nat, b: nat, n: nat)
    requires a <= b
    ensures a * n <= b * n
  {
  }

  /** The full edge list: `EdgeCount` lines, and the line for `(l, s, t)`
      at `EdgeIndex(l, s, t)`, coloured by
      `WeightColour(getConnectionWeight(l, s, t))`. */
  lemma {:induction false} EdgesAt(weights: seq<Matrix>, coords: seq<seq<Point>>, layers: nat, l: nat, s: nat, t: nat)
    requires EdgesInBounds(weights, coords)
    requires layers < |coords|
    ensures |Edges(weights, coords, layers)| == EdgeCount(coords, layers)
    ensures l < layers && s < |coords[l]| && t < |coords[l + 1]| ==>
              EdgeIndex(coords, l, s, t) < EdgeCount(coords, layers) &&
              Edges(weights, coords, layers)[EdgeIndex(coords, l, s, t)] == Edge(weights, coords, l, s, t)
  {
    if layers > 0 {
      assert LayerInBounds(weights, coords, layers - 1);
      EdgesAt(weights, coords, layers - 1, l, s, t);
      var m := |coords[layers - 1]|;
      LayerEdgesAt(weights, coords, layers - 1, m, s, t);
      if l < layers && s < |coords[l]| && t < |coords[l + 1]| && l == layers - 1 {
        assert EdgeIndex(coords, l, s, t) == EdgeCount(coords, layers - 1) + (s * |coords[l + 1]| + t);
      }
    }
  }

  /** Every line in the edge list is the line of some `(l, s, t)`. */
  lemma {:induction false} EdgesAreConnections(weights: seq<Matrix>, coords: seq<seq<Point>>, layers: nat, k: nat)
    requires EdgesInBounds(weights, coords)
    requires layers < |coords| && k < |Edges(weights, coords, layers)|
    ensures exists l: nat, s: nat, t: nat :: l < layers && s < |coords[l]| && t < |coords[l + 1]| &&
              k == EdgeIndex(coords, l, s, t) && Edges(weights, coords, layers)[k] == Edge(weights, coords, l, s, t)
  {
    var before := Edges(weights, coords, layers - 1);
    EdgesAt(weights, coords, layers - 1, 0, 0, 0);
    if k < |before| {
      EdgesAreConnections(weights, coords, layers - 1, k);
      var l: nat, s: nat, t: nat :| l < layers - 1 && s < |coords[l]| && t < |coords[l + 1]| &&
        k == EdgeIndex(coords, l, s, t) && before[k] == Edge(weights, coords, l, s, t);
      assert Edges(weights, coords, layers)[k] == before[k];
    } else {
      var l: nat := layers - 1;
      var n := |coords[l + 1]|;
      var j := k - |before|;
      LayerEdgesAt(weights, coords, l, |coords[l]|, 0, 0);
      var s, t := SplitIndex(j, |coords[l]|, n);
      LayerEdgesAt(weights, coords, l, |coords[l]|, s, t);
      assert k == EdgeIndex(coords, l, s, t);
    }
  }

  /** An index below `m * n` is a (row, column) pair of an `m` by `n` grid. */
  lemma SplitIndex(j: nat, m: nat, n: nat) returns (s: nat, t: nat)
    requires j < m * n
    ensures s < m && t < n && j == s * n + t
  {
    s, t := j / n, j % n;
    if s >= m {
      MulMonotone(m, s, n);
    }
  }

  /** Cell `(s, t)` of an `m` by `n` grid comes before every cell of a later
      row, and before the end of the grid. */
  lemma RowMajorBefore(s: nat, t: nat, s': nat, n: nat)
    requires s < s' && t < n
    ensures s * n + t < s' * n
  {
    MulMonotone(s + 1, s', n);
  }

  /** Lines come in the order of their `(l, s, t)` triples: by layer, then
      source node, then target node. */
  lemma EdgeIndexOrdered(coords: seq<seq<Point>>, l: nat, s: nat, t: nat, l': nat, s': nat, t': nat)
    requires l + 1 < |coords| && s < |coords[l]| && t < |coords[l + 1]|
    requires l' + 1 < |coords| && s' < |coords[l']| && t' < |coords[l' + 1]|
    requires l < l' || (l == l' && s < s') || (l == l' && s == s' && t < t')
    ensures EdgeIndex(coords, l, s, t) < EdgeIndex(coords, l', s', t')
  {
    var n := |coords[l + 1]|;
    if l < l' {
      RowMajorBefore(s, t, |coords[l]|, n);
      assert EdgeCount(coords, l + 1) == EdgeCount(coords, l) + |coords[l]| * n;
      EdgeCountGrows(coords, l + 1, l');
    } else if s < s' {
      RowMajorBefore(s, t, s', n);
    }
  }

  lemma {:induction false} EdgeCountGrows(coords: seq<seq<Point>>, a: nat, b: nat)
    requires a <= b < |coords|
    ensures EdgeCount(coords, a) <= EdgeCount(coords, b)
    decreases b - a
  {
    if a < b {
      EdgeCountGrows(coords, a, b - 1);
    }
  }

  /** What `drawNodes(colour, fill)` issues for one node: its outline, then,
      when filling, the filled disc over it. */
  function NodeMark(p: Point, radius: int, colour: Rgb, fill: bool): seq<Command>
  {
    if fill then [Outline(p, radius, colour), Disc(p, radius, colour)] else [Outline(p, radius, colour)]
  }

  /** The nodes of the table, layer by layer, in order. */
  function Flatten(coords: seq<seq<Point>>): (nodes: seq<Point>)
    ensures |nodes| == NodeTotal(coords)
  {
    if |coords| == 0 then [] else Flatten(coords[..|coords| - 1]) + coords[|coords| - 1]
  }

  /** Total number of nodes in the table. */
  function NodeTotal(coords: seq<seq<Point>>): nat
  {
    if |coords| == 0 then 0 else NodeTotal(coords[..|coords| - 1]) + |coords[|coords| - 1]|
  }

  /** The marks of the given nodes, in order. */
  function Marks(nodes: seq<Point>, radius: int, colour: Rgb, fill: bool): seq<Command>
  {
    if |nodes| == 0 then []
    else Marks(nodes[..|nodes| - 1], radius, colour, fill) + NodeMark(nodes[|nodes| - 1], radius, colour, fill)
  }

  /** `drawNodes(colour, fill)`. */
  function NodeMarks(coords: seq<seq<Point>>, radius: int, colour: Rgb, fill: bool): seq<Command>
  {
    Marks(Flatten(coords), radius, colour, fill)
  }

  /** The flattened table has `NodeTotal` nodes, and node `i` of layer `k`
      comes after all nodes of the layers before it. */
  lemma {:induction false} FlattenAt(coords: seq<seq<Point>>, k: nat, i: nat)
    ensures |Flatten(coords)| == NodeTotal(coords)
    ensures k < |coords| && i < |coords[k]| ==>
              NodeTotal(coords[..k]) + i < NodeTotal(coords) &&
              Flatten(coords)[NodeTotal(coords[..k]) + i] == coords[k][i]
    decreases |coords|
  {
    if |coords| > 0 {
      var front := coords[..|coords| - 1];
      FlattenAt(front, k, i);
      if k < |coords| - 1 && i < |coords[k]| {
        assert front[..k] == coords[..k];
        assert front[k] == coords[k];
      } else if k == |coords| - 1 {
        assert coords[..k] == front;
      }
    }
  }

  /** Each node gives one command, or two when filling: node `j` of the
      list gives the command(s) at `j` (or `2j` and `2j + 1`). */
  lemma {:induction false} MarksAt(nodes: seq<Point>, radius: int, colour: Rgb, fill: bool, j: nat)
    ensures |Marks(nodes, radius, colour, fill)| == (if fill then 2 else 1) * |nodes|
    ensures j < |nodes| && !fill ==> Marks(nodes, radius, colour, fill)[j] == Outline(nodes[j], radius, colour)
    ensures j < |nodes| && fill ==> Marks(nodes, radius, colour, fill)[2 * j] == Outline(nodes[j], radius, colour)
    ensures j < |nodes| && fill ==> Marks(nodes, radius, colour, fill)[2 * j + 1] == Disc(nodes[j], radius, colour)
    decreases |nodes|
  {
    if |nodes| > 0 {
      var front := nodes[..|nodes| - 1];
      MarksAt(front, radius, colour, fill, j);
      if j < |front| {
        assert front[j] == nodes[j];
      }
    }
  }

  /** Everything `draw()` issues: all lines, then for every node a dark
      outline and a dark disc, then for every node a white outline. */
  function Frame(weights: seq<Matrix>, coords: seq<seq<Point>>, radius: int): seq<Command>
    requires EdgesInBounds(weights, coords) && |coords| > 0
  {
    Edges(weights, coords, |coords| - 1)
      + NodeMarks(coords, radius, DarkMode, true)
      + NodeMarks(coords, radius, White, false)
  }

  /** The order `draw()` paints in: `EdgeCount` lines first, so that the
      node glyphs cover their ends; then the dark pass, an outline and a
      disc per node; then the white pass, one outline per node. */
  lemma FrameLayout(weights: seq<Matrix>, coords: seq<seq<Point>>, radius: int)
    requires EdgesInBounds(weights, coords) && |coords| > 0
    ensures var e, n := EdgeCount(coords, |coords| - 1), NodeTotal(coords);
            |Frame(weights, coords, radius)| == e + 3 * n &&
            Frame(weights, coords, radius)[..e] == Edges(weights, coords, |coords| - 1) &&
            Frame(weights, coords, radius)[e..e + 2 * n] == NodeMarks(coords, radius, DarkMode, true) &&
            Frame(weights, coords, radius)[e + 2 * n..] == NodeMarks(coords, radius, White, false)
  {
    var lines := Edges(weights, coords, |coords| - 1);
    var dark := NodeMarks(coords, radius, DarkMode, true);
    var white := NodeMarks(coords, radius, White, false);
    EdgesAt(weights, coords, |coords| - 1, 0, 0, 0);
    MarksAt(Flatten(coords), radius, DarkMode, true, 0);
    MarksAt(Flatten(coords), radius, White, false, 0);
    var frame := lines + dark + white;
    assert frame[..|lines|] == lines;
    assert frame[|lines|..|lines| + |dark|] == dark;
    assert frame[|lines| + |dark|..] == white;
  }

  /** The first `EdgeCount` commands of a frame are the lines. */
  lemma FrameEdgesFirst(weights: seq<Matrix>, coords: seq<seq<Point>>, radius: int, k: nat)
    requires EdgesInBounds(weights, coords) && |coords| > 0
    requires k < EdgeCount(coords, |coords| - 1)
    ensures k < |Frame(weights, coords, radius)| && Frame(weights, coords, radius)[k].Line?
  {
    var e := EdgeCount(coords, |coords| - 1);
    FrameLayout(weights, coords, radius);
    EdgesAreConnections(weights, coords, |coords| - 1, k);
    assert Frame(weights, coords, radius)[k] == Frame(weights, coords, radius)[..e][k];
  }

  /** After the lines come two dark circles per node: its outline, then
      its disc. */
  lemma FrameDarkPass(weights: seq<Matrix>, coords: seq<seq<Point>>, radius: int, j: nat)
    requires EdgesInBounds(weights, coords) && |coords| > 0
    requires j < NodeTotal(coords)
    ensures var e := EdgeCount(coords, |coords| - 1);
            e + 2 * j + 1 < |Frame(weights, coords, radius)| &&
            Frame(weights, coords, radius)[e + 2 * j] == Outline(Flatten(coords)[j], radius, DarkMode) &&
            Frame(weights, coords, radius)[e + 2 * j + 1] == Disc(Flatten(coords)[j], radius, DarkMode)
  {
    var e, n := EdgeCount(coords, |coords| - 1), NodeTotal(coords);
    var frame := Frame(weights, coords, radius);
    var dark := NodeMarks(coords, radius, DarkMode, true);
    FrameLayout(weights, coords, radius);
    MarksAt(Flatten(coords), radius, DarkMode, true, j);
    assert frame[e..e + 2 * n] == dark;
    assert frame[e + 2 * j] == frame[e..e + 2 * n][2 * j];
    assert frame[e + 2 * j + 1] == frame[e..e + 2 * n][2 * j + 1];
  }

  /** The frame ends with one white outline per node. */
  lemma FrameWhitePass(weights: seq<Matrix>, coords: seq<seq<Point>>, radius: int, j: nat)
    requires EdgesInBounds(weights, coords) && |coords| > 0
    requires j < NodeTotal(coords)
    ensures var e := EdgeCount(coords, |coords| - 1);
            e + 2 * NodeTotal(coords) + j < |Frame(weights, coords, radius)| &&
            Frame(weights, coords, radius)[e + 2 * NodeTotal(coords) + j] == Outline(Flatten(coords)[j], radius, White)
  {
    var e, n := EdgeCount(coords, |coords| - 1), NodeTotal(coords);
    var frame := Frame(weights, coords, radius);
    var white := NodeMarks(coords, radius, White, false);
    FrameLayout(weights, coords, radius);
    MarksAt(Flatten(coords), radius, White, false, j);
    assert frame[e + 2 * n..] == white;
    assert frame[e + 2 * n + j] == white[j];
  }

  /** For the table the constructor builds from rectangular matrices,
      `drawLayerConnections(l)` finds every weight it looks up exactly when
      `l` is the first matrix, or matrix `l` has at least as many columns
      as matrix `l - 1` has rows (the node count of layer `l`). */
  lemma TableLayerInBounds(weights: seq<Matrix>, width: nat, height: nat, l: nat)
    requires LayoutDefined(weights) && l < |weights|
    requires forall i :: 0 <= i < |weights| ==> Rectangular(weights[i])
    ensures LayerInBounds(weights, CoordTable(weights, width, height), l) <==>
            (l == 0 || Rows(weights[l - 1]) <= Cols(weights[l]))
  {
    var coords := CoordTable(weights, width, height);
    LayoutShape(weights, width, height);
    assert |coords[l + 1]| == Rows(weights[l]);
    if l == 0 || Rows(weights[l - 1]) <= Cols(weights[l]) {
      forall s, t | 0 <= s < |coords[l]| && 0 <= t < |coords[l + 1]|
        ensures ConnectionWeight(weights, l, s, t).Some?
      {
        assert |weights[l][t]| == Cols(weights[l]);
      }
    } else {
      assert NodeCount(weights, l) > 0 && NodeCount(weights, l + 1) > 0;
      assert |coords[l]| == Rows(weights[l - 1]);
      assert ConnectionWeight(weights, l, Cols(weights[l]), 0).None?;
    }
  }

  /** For the table the constructor builds from rectangular matrices, every
      connection `drawConnections` visits has a weight exactly when each
      matrix after the first has at least as many columns as the one before
      it has rows. Nothing checks this; the demo network in `main` has more
      columns than needed in its last matrix. */
  lemma TableEdgesInBounds(weights: seq<Matrix>, width: nat, height: nat)
    requires LayoutDefined(weights)
    requires forall i :: 0 <= i < |weights| ==> Rectangular(weights[i])
    ensures EdgesInBounds(weights, CoordTable(weights, width, height)) <==>
            forall i :: 1 <= i < |weights| ==> Rows(weights[i - 1]) <= Cols(weights[i])
  {
    var coords := CoordTable(weights, width, height);
    LayoutShape(weights, width, height);
    forall l | 0 <= l < |weights|
      ensures LayerInBounds(weights, coords, l) <==> (l == 0 || Rows(weights[l - 1]) <= Cols(weights[l]))
    {
      TableLayerInBounds(weights, width, height, l);
    }
  }

  /** Two matrices whose shapes do not chain, 10 x 15 then 8 x 4: the first
      layer's connections are all drawn, and the second layer's lookups run
      off the second matrix's columns. */
  lemma MismatchedSecondLayer(w0: Matrix, w1: Matrix, width: nat, height: nat)
    requires Rows(w0) == 10 && Cols(w0) == 15 && Rectangular(w0)
    requires Rows(w1) == 8 && Cols(w1) == 4 && Rectangular(w1)
    ensures LayoutDefined([w0, w1])
    ensures LayerInBounds([w0, w1], CoordTable([w0, w1], width, height), 0)
    ensures !LayerInBounds([w0, w1], CoordTable([w0, w1], width, height), 1)
    ensures !EdgesInBounds([w0, w1], CoordTable([w0, w1], width, height))
  {
    var weights := [w0, w1];
    assert NodeCount(weights, 0) == 15 && NodeCount(weights, 1) == 10 && NodeCount(weights, 2) == 8;
    TableLayerInBounds(weights, width, height, 0);
    TableLayerInBounds(weights, width, height, 1);
  }

  /** Number of weights the matrices connect: for each matrix, the node
      count of the layer before it times the node count of the layer it
      feeds. */
  function ShapeEdgeCount(weights: seq<Matrix>, layers: nat): nat
    requires 0 < |weights| && layers <= |weights|
  {
    if layers == 0 then 0
    else ShapeEdgeCount(weights, layers - 1) + NodeCount(weights, layers - 1) * NodeCount(weights, layers)
  }

  /** One frame of the built diagram draws one line per pair of nodes in
      consecutive layers. */
  lemma {:induction false} TableEdgeCount(weights: seq<Matrix>, width: nat, height: nat, layers: nat)
    requires LayoutDefined(weights) && layers <= |weights|
    ensures EdgeCount(CoordTable(weights, width, height), layers) == ShapeEdgeCount(weights, layers)
  {
    if layers > 0 {
      TableEdgeCount(weights, width, height, layers - 1);
    }
  }

  /** The network `main` builds: matrices of shapes 10 x 15, 5 x 10 and
      1 x 10 give layers of 15, 10, 5 and 1 nodes, every connection has a
      weight, and a frame draws 15 * 10 + 10 * 5 + 5 * 1 = 205 lines. */
  lemma DemoNetwork(w0: Matrix, w1: Matrix, w2: Matrix)
    requires Rows(w0) == 10 && Cols(w0) == 15 && Rectangular(w0)
    requires Rows(w1) == 5 && Cols(w1) == 10 && Rectangular(w1)
    requires Rows(w2) == 1 && Cols(w2) == 10 && Rectangular(w2)
    ensures LayoutDefined([w0, w1, w2])
    ensures var coords := CoordTable([w0, w1, w2], 500, 500);
            |coords| == 4 && |coords[0]| == 15 && |coords[1]| == 10 && |coords[2]| == 5 && |coords[3]| == 1 &&
            EdgesInBounds([w0, w1, w2], coords) &&
            |Edges([w0, w1, w2], coords, 3)| == 205
  {
    var weights := [w0, w1, w2];
    assert NodeCount(weights, 0) == 15 && NodeCount(weights, 1) == 10;
    assert NodeCount(weights, 2) == 5 && NodeCount(weights, 3) == 1;
    var coords := CoordTable(weights, 500, 500);
    LayoutShape(weights, 500, 500);
    TableEdgesInBounds(weights, 500, 500);
    TableEdgeCount(weights, 500, 500, 3);
    assert ShapeEdgeCount(weights, 1) == 150;
    assert ShapeEdgeCount(weights, 2) == 200;
    assert ShapeEdgeCount(weights, 3) == 205;
    EdgesAt(weights, coords, 3, 0, 0, 0);
  }
}
