/** `Graph.layout(options)` of index.js (lines 75-117) end to end: defaults,
    ranks, placement, coordinates. */
module Engine {
  import opened Base
  import opened Graph
  import opened Ranks
  import opened OccupancyGrid
  import opened Coords
  import opened Layout
  import opened Position

  /** Some height map ranks every key above its referrers, which are keys
      themselves: the referrer relation has no cycle and no dangling referrer. */
  ghost predicate Acyclic(g: Graph) {
    exists h :: Layered(g.order, RefSets(g), h)
  }

  /** What `Place` leaves behind for an acyclic graph. */
  ghost predicate Placement(g: Graph, levels: seq<seq<NodeId>>, placed: Graph, grid: Grid, done: set<NodeId>) {
    && RankShape(g, levels) && AllRanked(levels, g.order)
    && SameShape(g, placed)
    && PlacedBefore(levels, placed, done, |levels|) && DoneFrom(levels, done, |levels|, [])
    && BoundsInv(placed, grid, done)
  }

  /** Every node is ranked, hence placed on its level's row. */
  lemma NodesPlaced(g: Graph, levels: seq<seq<NodeId>>, placed: Graph, grid: Grid, done: set<NodeId>, x: NodeId)
    requires Valid(g) && Placement(g, levels, placed, grid, done) && x in g.nodes
    ensures x in done && HasPos(placed, x)
    ensures exists i :: 0 <= i < |levels| && x in levels[i] && PlacedOn(placed, x, i)
  {
    assert x in g.referrers;
    var i :| 0 <= i < |levels| && x in levels[i];
    assert x in done && PlacedOn(placed, x, i);
  }

  lemma PlacedPositioned(g: Graph, levels: seq<seq<NodeId>>, placed: Graph, grid: Grid, done: set<NodeId>)
    requires Valid(g) && Placement(g, levels, placed, grid, done)
    ensures Positioned(placed)
  {
    forall x | x in placed.nodes
      ensures HasPos(placed, x)
    {
      NodesPlaced(g, levels, placed, grid, done, x);
    }
  }

  /** Rows 0 .. |levels| - 1 each hold the nodes of one non-empty level. */
  lemma PlacedRowsFromZero(g: Graph, levels: seq<seq<NodeId>>, placed: Graph, grid: Grid, done: set<NodeId>)
    requires Valid(g) && Placement(g, levels, placed, grid, done)
    ensures RowsFromZero(placed)
  {
    forall x | x in placed.nodes && HasPos(placed, x)
      ensures 0 <= Row(placed, x) && forall r :: 0 <= r < Row(placed, x) ==> RowOccupied(placed, r)
    {
      NodesPlaced(g, levels, placed, grid, done, x);
      var i :| 0 <= i < |levels| && x in levels[i] && PlacedOn(placed, x, i);
      forall r | 0 <= r < Row(placed, x)
        ensures RowOccupied(placed, r)
      {
        var y := levels[r][0];
        assert y in levels[r];
        assert PlacedOn(placed, y, r);
      }
    }
  }

  /** Columns `grid.lb .. grid.rb` each hold a node, and every node lies
      between them. */
  lemma PlacedColsFrom(g: Graph, levels: seq<seq<NodeId>>, placed: Graph, grid: Grid, done: set<NodeId>)
    requires Valid(g) && Placement(g, levels, placed, grid, done)
    ensures ColsFrom(placed, grid.lb)
  {
    forall x | x in placed.nodes && HasPos(placed, x)
      ensures grid.lb <= Col(placed, x) && forall c :: grid.lb <= c < Col(placed, x) ==> ColOccupied(placed, c)
    {
      NodesPlaced(g, levels, placed, grid, done, x);
      forall c | grid.lb <= c < Col(placed, x)
        ensures ColOccupied(placed, c)
      {
        assert ColumnHeld(placed, done, c);
        var y :| y in done && HasPos(placed, y) && placed.nodes[y].pos.value.1 == c;
        assert Col(placed, y) == c;
      }
    }
  }

  /** `Graph.layout(options)`. The source needs the graph acyclic and every
      referrer key registered as a node: otherwise a node is never ranked and
      `calculatePosition` reads its missing position, or `setNodeData`
      writes to a missing node. The model states both as preconditions.
      `cols[i][k]` is the column the scan picked for `levels[i][k]`. */
  method LayoutGraph(g: Graph, given: Given)
    returns (placed: Graph, levels: seq<seq<NodeId>>, cols: seq<seq<int>>, grid: Grid, points: map<NodeId, Point>)
    requires Valid(g) && (forall k :: k in g.referrers ==> k in g.nodes) && Acyclic(g)
    ensures levels == AssignRanks(g) && SameShape(g, placed)
    ensures LevelsReplayed(g, EmptyGrid, levels, 0, cols, placed, grid)
    ensures forall x :: x in g.nodes ==> exists i :: 0 <= i < |levels| && x in levels[i] && PlacedOn(placed, x, i)
    ensures Positioned(placed) && RowsFromZero(placed) && ColsFrom(placed, grid.lb)
    ensures points == CalculatePosition(placed, grid.lb, WithDefaults(given))
    ensures points.Keys == g.nodes.Keys
  {
    var opts := WithDefaults(given);
    levels := AssignRanks(g);
    AssignRanksShape(g);
    ghost var h :| Layered(g.order, RefSets(g), h);
    PeelComplete(g.order, RefSets(g), h);
    ghost var done;
    placed, grid, cols, done := PlaceAll(g, levels);
    assert Placement(g, levels, placed, grid, done);
    forall x | x in g.nodes
      ensures exists i :: 0 <= i < |levels| && x in levels[i] && PlacedOn(placed, x, i)
    {
      NodesPlaced(g, levels, placed, grid, done, x);
    }
    PlacedPositioned(g, levels, placed, grid, done);
    PlacedRowsFromZero(g, levels, placed, grid, done);
    PlacedColsFrom(g, levels, placed, grid, done);
    points := CalculatePosition(placed, grid.lb, opts);
  }
}
