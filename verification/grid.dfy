/** The sparse occupancy grid of index.js (class `Grid`): a map from (row,
    column) to a marker, with the leftmost and rightmost column bounds `lb` and
    `rb` that node placements have reached. The source keeps a map of row maps;
    an empty row map is not observable through `get`, so the model flattens it
    into one map keyed by position. */
module OccupancyGrid {
  import opened Base
  import opened Paths

  /** A node body (`{node: true}`) or an edge passage (`{}`). */
  datatype Marker = NodeBody | Passage

  datatype Grid = Grid(cells: map<Pos, Marker>, lb: int, rb: int)

  /** A fresh grid: no cells, both bounds at column 0. */
  const EmptyGrid: Grid := Grid(map[], 0, 0)

  /** `Grid.add`: stores the marker at `pos`, overwriting what was there, and
      widens the column bounds just enough to include `pos.1`. */
  function Add(g: Grid, pos: Pos, m: Marker): (r: Grid)
    ensures pos in r.cells && r.cells[pos] == m
    ensures forall p :: p != pos ==> (p in r.cells <==> p in g.cells)
    ensures forall p :: p != pos && p in g.cells ==> r.cells[p] == g.cells[p]
    ensures r.lb <= g.lb && g.rb <= r.rb
    ensures g.lb <= g.rb ==> r.lb == Min(g.lb, pos.1) && r.rb == Max(g.rb, pos.1)
  {
    var cells := g.cells[pos := m];
    if pos.1 < g.lb then Grid(cells, pos.1, g.rb)
    else if pos.1 > g.rb then Grid(cells, g.lb, pos.1)
    else Grid(cells, g.lb, g.rb)
  }

  /** `Grid.get`: the marker at `pos`, if any. */
  function Get(g: Grid, pos: Pos): Option<Marker> {
    if pos in g.cells then Some(g.cells[pos]) else None
  }

  /** How `crossing` reads a cell of the grid. */
  function GridLook(g: Grid): Pos -> Look {
    p => match Get(g, p)
         case None => Clear
         case Some(Passage) => Crossed
         case Some(NodeBody) => Occupied
  }

  /** Marks every cell of `ps` as an edge passage unless it already holds a
      marker: the repeated `setDefault(row, col, {})` of `Grid.fill`. */
  function MarkAbsent(cells: map<Pos, Marker>, ps: seq<Pos>): (r: map<Pos, Marker>)
    ensures forall p :: p in r <==> p in cells || p in ps
    ensures forall p :: p in cells ==> r[p] == cells[p]
    ensures forall p :: p in r && p !in cells ==> r[p] == Passage
    decreases |ps|
  {
    if ps == [] then cells
    else MarkAbsent(SetDefault(cells, ps[0], Passage).0, ps[1..])
  }

  /** `Grid.fill(from, to)`: marks the L-shaped path from `from` to `to` as an
      edge passage, set-if-absent, leaving the bounds alone. */
  function Fill(g: Grid, from: Pos, to: Pos): (r: Grid)
    ensures r.lb == g.lb && r.rb == g.rb
    ensures forall p :: p in r.cells <==> p in g.cells || OnFillPath(to, from, p)
    ensures forall p :: p in g.cells ==> r.cells[p] == g.cells[p]
    ensures forall p :: p in r.cells && p !in g.cells ==> r.cells[p] == Passage
  {
    Grid(MarkAbsent(g.cells, FillCells(to, from)), g.lb, g.rb)
  }

  /** Filling the same path twice leaves the grid as one fill does. */
  lemma FillIdempotent(g: Grid, from: Pos, to: Pos)
    ensures Fill(Fill(g, from, to), from, to) == Fill(g, from, to)
  {
    var once := Fill(g, from, to);
    var twice := Fill(once, from, to);
    assert twice.cells.Keys == once.cells.Keys;
    assert forall p :: p in once.cells ==> twice.cells[p] == once.cells[p];
    assert twice.cells == once.cells;
  }

  /** Filling from a position to itself changes nothing. */
  lemma FillSelf(g: Grid, pos: Pos)
    ensures Fill(g, pos, pos) == g
  {
    var r := Fill(g, pos, pos);
    assert r.cells.Keys == g.cells.Keys;
    assert r.cells == g.cells;
  }
}
