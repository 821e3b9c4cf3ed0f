/** Where the diagram's nodes go (`ModelDiagram.getLayerCoords` and
    `ModelDiagram.getNodeCoords`), as functions of the weight matrices and
    the canvas size. The loops that build these lists are in module Diagram
    and are proved to produce exactly these values. */
module Layout {
  import opened Rounding

  /** A pixel position, as the pair `(xCoord, yCoord)` of rounded values. */
  datatype Point = Point(x: int, y: int)

  /** A weight matrix: one row per node of the layer it feeds (the target),
      one column per node of the layer before it (the source). */
  type Matrix = seq<seq<real>>

  function Rows(m: Matrix): nat {
    |m|
  }

  /** The column count; a matrix without rows is taken to have none. */
  function Cols(m: Matrix): nat {
    if |m| == 0 then 0 else |m[0]|
  }

  predicate Rectangular(m: Matrix) {
    forall i :: 0 <= i < |m| ==> |m[i]| == Cols(m)
  }

  /** What building the coordinate table can raise: indexing the first
      matrix of an empty list (IndexError), or dividing the height by a
      layer's node count of zero (ZeroDivisionError). */
  datatype LayoutError = MissingFirstMatrix | DivisionByZero(layer: nat)

  datatype Result<T> = Success(value: T) | Failure(error: LayoutError)

  /** Number of layers drawn: the input layer and one per matrix. */
  function LayerCount(weights: seq<Matrix>): (n: nat)
    ensures n > 0
  {
    |weights| + 1
  }

  /** Node count of layer `k`: the input layer has one node per column of
      the first matrix, layer `k + 1` one per row of matrix `k`. */
  function NodeCount(weights: seq<Matrix>, k: nat): nat
    requires 0 < |weights| && k <= |weights|
  {
    if k == 0 then Cols(weights[0]) else Rows(weights[k - 1])
  }

  /** Coordinates can be computed: there is a first matrix and no layer is
      empty. */
  predicate LayoutDefined(weights: seq<Matrix>) {
    0 < |weights| && forall k :: 0 <= k <= |weights| ==> NodeCount(weights, k) > 0
  }

  /** The source's expression `offset * (i + 1) - offset / 2` with
      `offset = extent / slots`. */
  function SlotCentre(extent: nat, slots: nat, i: nat): real
    requires slots > 0
  {
    var offset := extent as real / slots as real;
    offset * (i + 1) as real - offset / 2.0
  }

  /** `SlotCentre` is the midpoint of the `i`-th of `slots` equal slots of
      `[0, extent]`; for `i < slots` it lies inside that slot. */
  lemma SlotCentreIsMidpoint(extent: nat, slots: nat, i: nat)
    requires slots > 0
    ensures SlotCentre(extent, slots, i) == extent as real * (2 * i + 1) as real / (2 * slots) as real
    ensures SlotCentre(extent, slots, i) ==
            (i as real * (extent as real / slots as real) + (i + 1) as real * (extent as real / slots as real)) / 2.0
    ensures i < slots ==> 0.0 <= SlotCentre(extent, slots, i) <= extent as real
  {
    var offset := extent as real / slots as real;
    assert offset * slots as real == extent as real;
    if i < slots {
      assert (i + 1) as real <= slots as real;
      assert offset * (i + 1) as real <= offset * slots as real;
    }
  }

  /** Proof helper: `SlotCentre` computed from an already divided offset, as
      `ModelDiagram.GetLayerCoords` computes it once before its loop. */
  lemma SlotCentreByOffset(extent: nat, slots: nat, i: nat, offset: real)
    requires slots > 0 && offset == extent as real / slots as real
    ensures SlotCentre(extent, slots, i) == offset * (i + 1) as real - offset / 2.0
  {
  }

  /** Slot centres move down (or right) by one slot per index. */
  lemma SlotCentreStep(extent: nat, slots: nat, i: nat, j: nat)
    requires slots > 0 && i <= j
    ensures SlotCentre(extent, slots, j) - SlotCentre(extent, slots, i)
            == (j - i) as real * (extent as real / slots as real)
  {
  }

  /** The x shared by every node of layer `layer`. */
  function ColumnX(width: nat, layers: nat, layer: nat): int
    requires layers > 0
  {
    Round(SlotCentre(width, layers, layer))
  }

  /** The y of node `i` of a layer with `n` nodes. */
  function RowY(height: nat, n: nat, i: nat): int
    requires n > 0
  {
    Round(SlotCentre(height, n, i))
  }

  /** `getLayerCoords(numNodes, layer)` for a layer of `n > 0` nodes. */
  function LayerCoords(n: nat, layer: nat, layers: nat, width: nat, height: nat): seq<Point>
    requires n > 0 && layers > 0
  {
    seq(n, i requires 0 <= i < n => Point(ColumnX(width, layers, layer), RowY(height, n, i)))
  }

  /** The coordinate table `getNodeCoords` returns when nothing is raised. */
  function CoordTable(weights: seq<Matrix>, width: nat, height: nat): (coords: seq<seq<Point>>)
    requires LayoutDefined(weights)
  {
    seq(LayerCount(weights), k requires 0 <= k < LayerCount(weights) =>
      LayerCoords(NodeCount(weights, k), k, LayerCount(weights), width, height))
  }

  /** Index of the first layer with no nodes, if there is one. */
  function FirstEmptyLayer(weights: seq<Matrix>, from: nat): (k: nat)
    requires 0 < |weights| && from <= |weights| + 1
    ensures from <= k <= |weights| + 1
    ensures forall j :: from <= j < k ==> NodeCount(weights, j) > 0
    ensures k <= |weights| ==> NodeCount(weights, k) == 0
    decreases |weights| + 1 - from
  {
    if from == |weights| + 1 then from
    else if NodeCount(weights, from) == 0 then from
    else FirstEmptyLayer(weights, from + 1)
  }

  /** `getNodeCoords` with its exceptions as values: the error raised first
      in the source's evaluation order, or the table. */
  function NodeCoords(weights: seq<Matrix>, width: nat, height: nat): Result<seq<seq<Point>>>
  {
    if |weights| == 0 then Failure(MissingFirstMatrix)
    else if FirstEmptyLayer(weights, 0) <= |weights| then Failure(DivisionByZero(FirstEmptyLayer(weights, 0)))
    else Success(CoordTable(weights, width, height))
  }

  /** Building the table fails exactly when there is no first matrix or some
      layer is empty, and then names the first empty layer. */
  lemma NodeCoordsOutcome(weights: seq<Matrix>, width: nat, height: nat)
    ensures NodeCoords(weights, width, height).Success? <==> LayoutDefined(weights)
    ensures |weights| == 0 ==> NodeCoords(weights, width, height) == Failure(MissingFirstMatrix)
    ensures 0 < |weights| && !LayoutDefined(weights) ==>
              exists k :: 0 <= k <= |weights| && NodeCount(weights, k) == 0 &&
                (forall j :: 0 <= j < k ==> NodeCount(weights, j) > 0) &&
                NodeCoords(weights, width, height) == Failure(DivisionByZero(k))
  {
  }

  /** Shape of the table: one layer per matrix plus the input layer; the
      input layer has as many nodes as the first matrix has columns, layer
      `i + 1` as many as matrix `i` has rows. */
  lemma LayoutShape(weights: seq<Matrix>, width: nat, height: nat)
    requires LayoutDefined(weights)
    ensures |CoordTable(weights, width, height)| == |weights| + 1
    ensures |CoordTable(weights, width, height)[0]| == Cols(weights[0])
    ensures forall i :: 0 <= i < |weights| ==> |CoordTable(weights, width, height)[i + 1]| == Rows(weights[i])
  {
  }

  /** All nodes of a layer share the layer's x, the centre of the layer's
      column among `|weights| + 1` equal columns; node `i` sits at the
      centre of the `i`-th of the layer's equal slots. */
  lemma LayoutNodeAt(weights: seq<Matrix>, width: nat, height: nat, k: nat, i: nat)
    requires LayoutDefined(weights)
    requires k <= |weights| && i < NodeCount(weights, k)
    ensures CoordTable(weights, width, height)[k][i]
            == Point(ColumnX(width, |weights| + 1, k), RowY(height, NodeCount(weights, k), i))
  {
  }

  /** Every y of a layer lies within `[0, height]`, and y never decreases
      with the node index. */
  lemma {:induction false} RowYBoundedAndOrdered(height: nat, n: nat, i: nat, j: nat)
    requires 0 < n && i <= j < n
    ensures 0 <= RowY(height, n, i) <= RowY(height, n, j) <= height
  {
    SlotCentreIsMidpoint(height, n, i);
    SlotCentreIsMidpoint(height, n, j);
    SlotCentreStep(height, n, i, j);
    var offset := height as real / n as real;
    assert 0.0 <= (j - i) as real * offset by {
      assert 0.0 <= offset && 0.0 <= (j - i) as real;
    }
    RoundWithin(SlotCentre(height, n, i), 0, height);
    RoundWithin(SlotCentre(height, n, j), 0, height);
    RoundMonotone(SlotCentre(height, n, i), SlotCentre(height, n, j));
  }

  /** When the slots are more than a pixel high, distinct nodes of a layer
      get distinct, strictly increasing y. */
  lemma RowYStrictlyOrdered(height: nat, n: nat, i: nat, j: nat)
    requires 0 < n < height && i < j < n
    ensures RowY(height, n, i) < RowY(height, n, j)
  {
    var offset := height as real / n as real;
    assert offset * n as real == height as real;
    assert offset > 1.0;
    SlotCentreStep(height, n, i, j);
    assert (j - i) as real * offset >= offset;
    RoundSeparates(SlotCentre(height, n, i), SlotCentre(height, n, j));
  }

  /** Every x lies within `[0, width]`, and a later layer is never left of
      an earlier one. */
  lemma ColumnXBoundedAndOrdered(width: nat, layers: nat, k: nat, l: nat)
    requires 0 < layers && k <= l < layers
    ensures 0 <= ColumnX(width, layers, k) <= ColumnX(width, layers, l) <= width
  {
    RowYBoundedAndOrdered(width, layers, k, l);
  }

  /** The whole table lies on the canvas `[0, width] x [0, height]`. */
  lemma LayoutOnCanvas(weights: seq<Matrix>, width: nat, height: nat, k: nat, i: nat)
    requires LayoutDefined(weights)
    requires k <= |weights| && i < NodeCount(weights, k)
    ensures 0 <= CoordTable(weights, width, height)[k][i].x <= width
    ensures 0 <= CoordTable(weights, width, height)[k][i].y <= height
  {
    ColumnXBoundedAndOrdered(width, |weights| + 1, k, k);
    RowYBoundedAndOrdered(height, NodeCount(weights, k), i, i);
  }

  /** The layout depends on nothing but the matrices' shapes and the
      canvas size: matrices of equal shapes give the same table. */
  lemma LayoutDependsOnShapeOnly(weights: seq<Matrix>, others: seq<Matrix>, width: nat, height: nat)
    requires LayoutDefined(weights)
    requires |others| == |weights|
    requires forall k :: 0 <= k <= |weights| ==> NodeCount(others, k) == NodeCount(weights, k)
    ensures LayoutDefined(others)
    ensures CoordTable(others, width, height) == CoordTable(weights, width, height)
  {
  }

  /** Five nodes on a 500-pixel-high canvas sit at the centres of five
      100-pixel slots: y = 50, 150, 250, 350, 450. */
  lemma FiveNodeColumn(i: nat)
    requires i < 5
    ensures RowY(500, 5, i) == 100 * i + 50
  {
  }
}
