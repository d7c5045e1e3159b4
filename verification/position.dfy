/** `Graph.calculatePosition` of index.js (lines 164-199): turns grid
    positions into coordinates. A row is as tall as its tallest node and a
    column as wide as its widest; rows start at `marginY` and are `rankSep`
    apart, columns start at `marginX` from column `lb` and are `nodeSep`
    apart; every node is centred in its row and its column. */
module Position {
  import opened Base
  import opened Graph
  import opened Coords
  import opened Layout

  /** The coordinates the source stores as `node.x` and `node.y`. */
  datatype Point = Point(x: real, y: real)

  function Row(g: Graph, x: NodeId): int
    requires HasPos(g, x)
  {
    g.nodes[x].pos.value.0
  }

  function Col(g: Graph, x: NodeId): int
    requires HasPos(g, x)
  {
    g.nodes[x].pos.value.1
  }

  /** Every node has a position and `nodeOrder` lists exactly the nodes. */
  ghost predicate Positioned(g: Graph) {
    && (forall k :: k in g.nodeOrder <==> k in g.nodes)
    && (forall x :: x in g.nodes ==> HasPos(g, x))
  }

  ghost predicate RowOccupied(g: Graph, r: int) {
    exists x :: x in g.nodes && HasPos(g, x) && Row(g, x) == r
  }

  ghost predicate ColOccupied(g: Graph, c: int) {
    exists x :: x in g.nodes && HasPos(g, x) && Col(g, x) == c
  }

  /** Rows start at 0 and no row above a node is empty: otherwise the
      source's `offsetY[i]` is undefined and the coordinate is `NaN`. */
  ghost predicate RowsFromZero(g: Graph) {
    forall x :: x in g.nodes && HasPos(g, x) ==>
      0 <= Row(g, x) && forall r :: 0 <= r < Row(g, x) ==> RowOccupied(g, r)
  }

  /** Columns start at `lb` and no column left of a node is empty. */
  ghost predicate ColsFrom(g: Graph, lb: int) {
    forall x :: x in g.nodes && HasPos(g, x) ==>
      lb <= Col(g, x) && forall c :: lb <= c < Col(g, x) ==> ColOccupied(g, c)
  }

  /** `(row, height)` of every node of `ids`, in order. */
  function RowEntries(g: Graph, ids: seq<NodeId>): (e: seq<(int, real)>)
    requires AllHavePos(g, ids)
    ensures |e| == |ids|
    ensures forall k :: 0 <= k < |ids| ==> e[k] == (Row(g, ids[k]), g.nodes[ids[k]].height)
  {
    if ids == [] then [] else [(Row(g, ids[0]), g.nodes[ids[0]].height)] + RowEntries(g, ids[1..])
  }

  /** `(column, width)` of every node of `ids`, in order. */
  function ColEntries(g: Graph, ids: seq<NodeId>): (e: seq<(int, real)>)
    requires AllHavePos(g, ids)
    ensures |e| == |ids|
    ensures forall k :: 0 <= k < |ids| ==> e[k] == (Col(g, ids[k]), g.nodes[ids[k]].width)
  {
    if ids == [] then [] else [(Col(g, ids[0]), g.nodes[ids[0]].width)] + ColEntries(g, ids[1..])
  }

  lemma OrderPlaced(g: Graph)
    requires Positioned(g)
    ensures AllHavePos(g, g.nodeOrder)
  {
    forall k | 0 <= k < |g.nodeOrder|
      ensures HasPos(g, g.nodeOrder[k])
    {
      assert g.nodeOrder[k] in g.nodeOrder;
    }
  }

  /** `offsetY` of the source: the height of every row. */
  function RowDims(g: Graph): map<int, real>
    requires Positioned(g)
  {
    OrderPlaced(g);
    MaxByKey(RowEntries(g, g.nodeOrder))
  }

  /** `offsetX` of the source: the width of every column. */
  function ColDims(g: Graph): map<int, real>
    requires Positioned(g)
  {
    OrderPlaced(g);
    MaxByKey(ColEntries(g, g.nodeOrder))
  }

  /** Node `x` fits its row and its column. */
  lemma NodeFits(g: Graph, x: NodeId)
    requires Positioned(g) && x in g.nodes
    ensures HasPos(g, x)
    ensures Row(g, x) in RowDims(g) && g.nodes[x].height <= RowDims(g)[Row(g, x)]
    ensures Col(g, x) in ColDims(g) && g.nodes[x].width <= ColDims(g)[Col(g, x)]
  {
    OrderPlaced(g);
    var k :| 0 <= k < |g.nodeOrder| && g.nodeOrder[k] == x;
    assert RowEntries(g, g.nodeOrder)[k] == (Row(g, x), g.nodes[x].height);
    assert ColEntries(g, g.nodeOrder)[k] == (Col(g, x), g.nodes[x].width);
  }

  /** Every node fits its row: the row is at least as tall as the node. */
  lemma RowDimsFit(g: Graph)
    requires Positioned(g)
    ensures forall x :: x in g.nodes ==> Row(g, x) in RowDims(g) && g.nodes[x].height <= RowDims(g)[Row(g, x)]
  {
    forall x | x in g.nodes
      ensures Row(g, x) in RowDims(g) && g.nodes[x].height <= RowDims(g)[Row(g, x)]
    {
      NodeFits(g, x);
    }
  }

  /** A row is no taller than needed: some node of the row is exactly as
      tall as the row. */
  lemma RowDimsAttained(g: Graph)
    requires Positioned(g)
    ensures forall r :: r in RowDims(g) ==>
      exists x :: x in g.nodes && Row(g, x) == r && g.nodes[x].height == RowDims(g)[r]
  {
    OrderPlaced(g);
    var e := RowEntries(g, g.nodeOrder);
    forall r | r in RowDims(g)
      ensures exists x :: x in g.nodes && Row(g, x) == r && g.nodes[x].height == RowDims(g)[r]
    {
      var k :| 0 <= k < |e| && e[k].0 == r && e[k].1 == RowDims(g)[r];
      var x := g.nodeOrder[k];
      assert x in g.nodeOrder;
      assert e[k] == (Row(g, x), g.nodes[x].height);
    }
  }

  /** Every node fits its column: the column is at least as wide as the node. */
  lemma ColDimsFit(g: Graph)
    requires Positioned(g)
    ensures forall x :: x in g.nodes ==> Col(g, x) in ColDims(g) && g.nodes[x].width <= ColDims(g)[Col(g, x)]
  {
    forall x | x in g.nodes
      ensures Col(g, x) in ColDims(g) && g.nodes[x].width <= ColDims(g)[Col(g, x)]
    {
      NodeFits(g, x);
    }
  }

  /** A column is no wider than needed: some node of the column is exactly as
      wide as the column. */
  lemma ColDimsAttained(g: Graph)
    requires Positioned(g)
    ensures forall c :: c in ColDims(g) ==>
      exists x :: x in g.nodes && Col(g, x) == c && g.nodes[x].width == ColDims(g)[c]
  {
    OrderPlaced(g);
    var e := ColEntries(g, g.nodeOrder);
    forall c | c in ColDims(g)
      ensures exists x :: x in g.nodes && Col(g, x) == c && g.nodes[x].width == ColDims(g)[c]
    {
      var k :| 0 <= k < |e| && e[k].0 == c && e[k].1 == ColDims(g)[c];
      var x := g.nodeOrder[k];
      assert x in g.nodeOrder;
      assert e[k] == (Col(g, x), g.nodes[x].width);
    }
  }

  /** Every row from 0 to a node's row has a height, the node's own row
      being tall enough for it. */
  lemma RowsDefined(g: Graph, x: NodeId)
    requires Positioned(g) && RowsFromZero(g) && x in g.nodes
    ensures HasPos(g, x) && g.nodes[x].height <= RowDims(g)[Row(g, x)]
    ensures 0 <= Row(g, x) && forall r :: 0 <= r <= Row(g, x) ==> r in RowDims(g)
  {
    RowDimsFit(g);
    forall r | 0 <= r <= Row(g, x)
      ensures r in RowDims(g)
    {
      if r < Row(g, x) {
        assert RowOccupied(g, r);
      }
    }
  }

  /** Every column from `lb` to a node's column has a width, the node's own
      column being wide enough for it. */
  lemma ColsDefined(g: Graph, lb: int, x: NodeId)
    requires Positioned(g) && ColsFrom(g, lb) && x in g.nodes
    ensures HasPos(g, x) && g.nodes[x].width <= ColDims(g)[Col(g, x)]
    ensures lb <= Col(g, x) && forall c :: lb <= c <= Col(g, x) ==> c in ColDims(g)
  {
    ColDimsFit(g);
    forall c | lb <= c <= Col(g, x)
      ensures c in ColDims(g)
    {
      if c < Col(g, x) {
        assert ColOccupied(g, c);
      }
    }
  }

  /** `node.y`: the top of the node's row is `marginY` plus the heights of
      rows `0 .. row - 1`, each followed by `rankSep`; the node is centred in
      its row. */
  function NodeY(g: Graph, opts: Options, x: NodeId): (y: real)
    requires Positioned(g) && RowsFromZero(g) && x in g.nodes
    ensures InBand(RowDims(g), opts.rankSep, opts.marginY, 0, Row(g, x), y, g.nodes[x].height)
  {
    RowsDefined(g, x);
    CenterInBand(RowDims(g), opts.rankSep, opts.marginY, 0, Row(g, x), g.nodes[x].height);
    Center(RowDims(g), opts.rankSep, opts.marginY, 0, Row(g, x), g.nodes[x].height)
  }

  /** `node.x`: the left of the node's column is `marginX` plus the widths of
      columns `lb .. col - 1`, each followed by `nodeSep`; the node is centred
      in its column. */
  function NodeX(g: Graph, lb: int, opts: Options, x: NodeId): (r: real)
    requires Positioned(g) && ColsFrom(g, lb) && x in g.nodes
    ensures InBand(ColDims(g), opts.nodeSep, opts.marginX, lb, Col(g, x), r, g.nodes[x].width)
  {
    ColsDefined(g, lb, x);
    CenterInBand(ColDims(g), opts.nodeSep, opts.marginX, lb, Col(g, x), g.nodes[x].width);
    Center(ColDims(g), opts.nodeSep, opts.marginX, lb, Col(g, x), g.nodes[x].width)
  }

  /** `Graph.calculatePosition(grid, options)`, with `lb` the grid's left bound. */
  function CalculatePosition(g: Graph, lb: int, opts: Options): (r: map<NodeId, Point>)
    requires Positioned(g) && RowsFromZero(g) && ColsFrom(g, lb)
    ensures r.Keys == g.nodes.Keys
    ensures forall x :: x in r ==>
      && InBand(RowDims(g), opts.rankSep, opts.marginY, 0, Row(g, x), r[x].y, g.nodes[x].height)
      && InBand(ColDims(g), opts.nodeSep, opts.marginX, lb, Col(g, x), r[x].x, g.nodes[x].width)
  {
    map x | x in g.nodes :: Point(NodeX(g, lb, opts, x), NodeY(g, opts, x))
  }

  ghost predicate NonNegativeSizes(g: Graph) {
    forall x :: x in g.nodes ==> g.nodes[x].width >= 0.0 && g.nodes[x].height >= 0.0
  }

  /** With non-negative sizes every row height is non-negative. */
  lemma RowDimsNonNegative(g: Graph)
    requires Positioned(g) && NonNegativeSizes(g)
    ensures forall r :: r in RowDims(g) ==> RowDims(g)[r] >= 0.0
  {
    RowDimsAttained(g);
  }

  /** With non-negative sizes every column width is non-negative. */
  lemma ColDimsNonNegative(g: Graph)
    requires Positioned(g) && NonNegativeSizes(g)
    ensures forall c :: c in ColDims(g) ==> ColDims(g)[c] >= 0.0
  {
    ColDimsAttained(g);
  }

  /** Nodes on different rows do not overlap vertically: the upper one ends
      at least `rankSep` above the lower one. */
  lemma RowsApart(g: Graph, lb: int, opts: Options, a: NodeId, b: NodeId)
    requires Positioned(g) && RowsFromZero(g) && ColsFrom(g, lb)
    requires opts.rankSep >= 0.0 && NonNegativeSizes(g)
    requires a in g.nodes && b in g.nodes && Row(g, a) < Row(g, b)
    ensures var r := CalculatePosition(g, lb, opts);
      r[a].y + g.nodes[a].height + opts.rankSep <= r[b].y
  {
    var r := CalculatePosition(g, lb, opts);
    RowDimsNonNegative(g);
    InBandsApart(RowDims(g), opts.rankSep, opts.marginY, 0,
                 Row(g, a), r[a].y, g.nodes[a].height, Row(g, b), r[b].y, g.nodes[b].height);
  }

  /** Nodes in different columns do not overlap horizontally: the left one
      ends at least `nodeSep` before the right one. */
  lemma ColumnsApart(g: Graph, lb: int, opts: Options, a: NodeId, b: NodeId)
    requires Positioned(g) && RowsFromZero(g) && ColsFrom(g, lb)
    requires opts.nodeSep >= 0.0 && NonNegativeSizes(g)
    requires a in g.nodes && b in g.nodes && Col(g, a) < Col(g, b)
    ensures var r := CalculatePosition(g, lb, opts);
      r[a].x + g.nodes[a].width + opts.nodeSep <= r[b].x
  {
    var r := CalculatePosition(g, lb, opts);
    ColDimsNonNegative(g);
    InBandsApart(ColDims(g), opts.nodeSep, opts.marginX, lb,
                 Col(g, a), r[a].x, g.nodes[a].width, Col(g, b), r[b].x, g.nodes[b].width);
  }

  /** Nodes of one row share a vertical centre line, and nodes of one column
      a horizontal one. */
  lemma CentresAligned(g: Graph, lb: int, opts: Options, a: NodeId, b: NodeId)
    requires Positioned(g) && RowsFromZero(g) && ColsFrom(g, lb)
    requires a in g.nodes && b in g.nodes
    ensures var r := CalculatePosition(g, lb, opts);
      Row(g, a) == Row(g, b) ==> r[a].y + g.nodes[a].height / 2.0 == r[b].y + g.nodes[b].height / 2.0
    ensures var r := CalculatePosition(g, lb, opts);
      Col(g, a) == Col(g, b) ==> r[a].x + g.nodes[a].width / 2.0 == r[b].x + g.nodes[b].width / 2.0
  {
    var r := CalculatePosition(g, lb, opts);
    assert InBand(RowDims(g), opts.rankSep, opts.marginY, 0, Row(g, a), r[a].y, g.nodes[a].height);
    assert InBand(RowDims(g), opts.rankSep, opts.marginY, 0, Row(g, b), r[b].y, g.nodes[b].height);
    assert InBand(ColDims(g), opts.nodeSep, opts.marginX, lb, Col(g, a), r[a].x, g.nodes[a].width);
    assert InBand(ColDims(g), opts.nodeSep, opts.marginX, lb, Col(g, b), r[b].x, g.nodes[b].width);
  }
}
