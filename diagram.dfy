/** The `ModelDiagram` object: the canvas size and weight matrices it is
    built from, the coordinate table it precomputes once, and the drawing
    methods, each of which returns the commands it would issue instead of
    calling the drawing surface. */
module Diagram {
  import opened Rounding
  import opened Colour
  import opened Layout
  import opened Render

  class ModelDiagram {
    const width: nat
    const height: nat
    const fill: bool
    const nodeRadius: int
    var weights: seq<Matrix>
    var coords: seq<seq<Point>>

    /** One coordinate layer per layer of the network. The weights setter
        only accepts a list of the same length, so this survives it. */
    ghost predicate Valid()
      reads this
    {
      0 < |weights| && |coords| == |weights| + 1
    }

    /** `ModelDiagram(surface, topLeftX, topLeftY, width, height, weights,
        fill)`: stores its arguments, sets the node radius to 10 and
        precomputes the coordinate table. The Python constructor raises when
        the table cannot be built, so no object exists then. The matrices
        are rectangular, as numpy arrays always are. */
    constructor (width: nat, height: nat, weights: seq<Matrix>, fill: bool)
      requires LayoutDefined(weights)
      requires forall i :: 0 <= i < |weights| ==> Rectangular(weights[i])
      ensures Valid()
      ensures this.width == width && this.height == height && this.fill == fill
      ensures this.weights == weights && nodeRadius == 10
      ensures coords == CoordTable(weights, width, height)
    {
      this.width := width;
      this.height := height;
      this.weights := weights;
      this.fill := fill;
      this.nodeRadius := 10;
      new;
      NodeCoordsOutcome(weights, width, height);
      var table := GetNodeCoords();
      coords := table.value;
    }

    /** `getLayerCoords(numNodes, layer)`: the `numNodes` node positions of
        layer `layer`, or the division by zero an empty layer causes. */
    method GetLayerCoords(numNodes: nat, layer: nat) returns (r: Result<seq<Point>>)
      ensures r.Failure? <==> numNodes == 0
      ensures r.Failure? ==> r.error == DivisionByZero(layer)
      ensures r.Success? ==> r.value == LayerCoords(numNodes, layer, |weights| + 1, width, height)
      ensures r.Success? ==> |r.value| == numNodes
      ensures r.Success? ==> forall i :: 0 <= i < numNodes ==>
                r.value[i] == Point(ColumnX(width, |weights| + 1, layer), RowY(height, numNodes, i))
    {
      var numLayers := |weights| + 1;
      if numNodes == 0 {
        return Failure(DivisionByZero(layer));
      }
      var yOffset := height as real / numNodes as real;
      var xOffset := width as real / numLayers as real;
      var layerCoords: seq<Point> := [];
      ghost var spec := LayerCoords(numNodes, layer, numLayers, width, height);
      for i := 0 to numNodes
        invariant layerCoords == spec[..i]
      {
        var yCoord := Round(yOffset * (i + 1) as real - yOffset / 2.0);
        var xCoord := Round(xOffset * (layer + 1) as real - xOffset / 2.0);
        SlotCentreByOffset(height, numNodes, i, yOffset);
        SlotCentreByOffset(width, numLayers, layer, xOffset);
        assert Point(xCoord, yCoord) == spec[i];
        layerCoords := layerCoords + [Point(xCoord, yCoord)];
        assert spec[..i + 1] == spec[..i] + [spec[i]];
      }
      assert spec[..numNodes] == spec;
      return Success(layerCoords);
    }

    /** `getNodeCoords()`: the input layer from the first matrix's column
        count, then one layer per matrix from its row count; or the first
        error the source raises on the way. */
    method GetNodeCoords() returns (r: Result<seq<seq<Point>>>)
      ensures r == NodeCoords(weights, width, height)
    {
      if |weights| == 0 {
        return Failure(MissingFirstMatrix);
      }
      var first := GetLayerCoords(Cols(weights[0]), 0);
      if first.Failure? {
        assert FirstEmptyLayer(weights, 0) == 0;
        return Failure(first.error);
      }
      var nodeCoords := [first.value];
      for i := 0 to |weights|
        invariant |nodeCoords| == i + 1
        invariant forall k :: 0 <= k <= i ==> NodeCount(weights, k) > 0
        invariant forall k :: 0 <= k <= i ==>
                    nodeCoords[k] == LayerCoords(NodeCount(weights, k), k, |weights| + 1, width, height)
      {
        var numNodes := Rows(weights[i]);
        var layerCoords := GetLayerCoords(numNodes, i + 1);
        if layerCoords.Failure? {
          FirstEmptyLayerIs(weights, i + 1);
          return Failure(layerCoords.error);
        }
        nodeCoords := nodeCoords + [layerCoords.value];
      }
      FirstEmptyLayerIs(weights, |weights| + 1);
      assert nodeCoords == CoordTable(weights, width, height);
      return Success(nodeCoords);
    }

    /** `drawLayerConnections(layerNum)`: a line from every node of layer
        `layerNum` to every node of the next layer, source by source. */
    method DrawLayerConnections(layerNum: nat) returns (cmds: seq<Command>)
      requires LayerInBounds(weights, coords, layerNum)
      ensures cmds == LayerEdges(weights, coords, layerNum, |coords[layerNum]|)
    {
      cmds := [];
      for nodeIndex := 0 to |coords[layerNum]|
        invariant cmds == LayerEdges(weights, coords, layerNum, nodeIndex)
      {
        ghost var fan := FanOut(weights, coords, layerNum, nodeIndex);
        for targetIndex := 0 to |coords[layerNum + 1]|
          invariant cmds == LayerEdges(weights, coords, layerNum, nodeIndex) + fan[..targetIndex]
        {
          var weight := ConnectionWeight(weights, layerNum, nodeIndex, targetIndex).value;
          cmds := cmds + [Line(WeightColour(weight), coords[layerNum][nodeIndex], coords[layerNum + 1][targetIndex])];
          assert fan[..targetIndex + 1] == fan[..targetIndex] + [fan[targetIndex]];
        }
        assert fan[..|coords[layerNum + 1]|] == fan;
      }
    }

    /** `drawConnections()`: the lines of every pair of consecutive layers,
        in layer order. */
    method DrawConnections() returns (cmds: seq<Command>)
      requires Valid() && EdgesInBounds(weights, coords)
      ensures cmds == Edges(weights, coords, |coords| - 1)
    {
      cmds := [];
      for layerNum := 0 to |coords| - 1
        invariant cmds == Edges(weights, coords, layerNum)
      {
        var layerCmds := DrawLayerConnections(layerNum);
        cmds := cmds + layerCmds;
      }
    }

    /** `drawNodes(colour, fill)`: for every node of every layer, in order,
        an outline and, when `fill` is set, a filled disc. */
    method DrawNodes(colour: Rgb, fill: bool) returns (cmds: seq<Command>)
      ensures cmds == NodeMarks(coords, nodeRadius, colour, fill)
    {
      cmds := [];
      for layer := 0 to |coords|
        invariant cmds == Marks(Flatten(coords[..layer]), nodeRadius, colour, fill)
      {
        ghost var done := Flatten(coords[..layer]);
        assert done + coords[layer][..0] == done;
        for i := 0 to |coords[layer]|
          invariant cmds == Marks(done + coords[layer][..i], nodeRadius, colour, fill)
        {
          var node := coords[layer][i];
          cmds := cmds + [Outline(node, nodeRadius, colour)];
          if fill {
            cmds := cmds + [Disc(node, nodeRadius, colour)];
          }
          assert (done + coords[layer][..i + 1])[..|done| + i] == done + coords[layer][..i];
        }
        assert coords[..layer + 1][..layer] == coords[..layer];
        assert coords[layer][..|coords[layer]|] == coords[layer];
      }
      assert coords[..|coords|] == coords;
    }

    /** `draw()`: the edges, then the nodes filled with the background
        colour, then the white outlines. Nothing is modified. */
    method Draw() returns (cmds: seq<Command>)
      requires Valid() && EdgesInBounds(weights, coords)
      ensures cmds == Frame(weights, coords, nodeRadius)
    {
      var edges := DrawConnections();
      var filled := DrawNodes(DarkMode, true);
      var outlines := DrawNodes(White, false);
      cmds := edges + filled + outlines;
    }

    /** The `weights(self, weights)` setter: refuses (ValueError) a list of
        another length, otherwise replaces the matrices; the coordinate
        table is not recomputed. */
    method ReplaceWeights(newWeights: seq<Matrix>) returns (accepted: bool)
      requires Valid()
      modifies this
      ensures Valid()
      ensures accepted <==> |newWeights| == |old(weights)|
      ensures weights == if accepted then newWeights else old(weights)
      ensures coords == old(coords)
    {
      if |newWeights| != |weights| {
        return false;
      }
      weights := newWeights;
      return true;
    }
  }

  /** The first empty layer is the one the loop stops at. */
  lemma FirstEmptyLayerIs(weights: seq<Matrix>, k: nat)
    requires 0 < |weights| && k <= |weights| + 1
    requires forall j :: 0 <= j < k ==> NodeCount(weights, j) > 0
    requires k <= |weights| ==> NodeCount(weights, k) == 0
    ensures FirstEmptyLayer(weights, 0) == k
  {
  }
}
