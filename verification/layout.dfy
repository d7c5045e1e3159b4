/** The placement and coordinate passes of index.js (`Graph.layout`,
    `Graph.crossing`, `Graph.calculatePosition`). */
module Layout {
  import opened Base
  import opened Paths
  import opened OccupancyGrid
  import opened ColumnScan
  import opened Graph
  import opened Ranks
  import opened Coords

  predicate HasPos(g: Graph, x: NodeId) {
    x in g.nodes && g.nodes[x].pos.Some?
  }

  /** The positions of `ids`, in order (`this.getNode(referrer).pos`). */
  function Positions(g: Graph, ids: seq<NodeId>): (r: seq<Pos>)
    requires AllHavePos(g, ids)
    ensures |r| == |ids|
    ensures forall k :: 0 <= k < |ids| ==> r[k] == g.nodes[ids[k]].pos.value
  {
    if ids == [] then [] else [g.nodes[ids[0]].pos.value] + Positions(g, ids[1..])
  }

  ghost predicate AllHavePos(g: Graph, ids: seq<NodeId>) {
    forall k :: 0 <= k < |ids| ==> HasPos(g, ids[k])
  }

  /** Every referrer of `id` already has a position; reading the position of
      one that has none makes the source fail. */
  ghost predicate ReferrersPlaced(g: Graph, id: NodeId) {
    AllHavePos(g, NodeReferrers(g, id))
  }

  /** `Graph.crossing(id, pos, grid)`. */
  function Crossing(g: Graph, grid: Grid, id: NodeId, pos: Pos): Cost
    requires ReferrersPlaced(g, id)
  {
    TotalCost(GridLook(grid), pos, Positions(g, NodeReferrers(g, id)))
  }

  /** A node without referrers costs nothing at any candidate cell. */
  lemma CrossingWithoutReferrers(g: Graph, grid: Grid, id: NodeId, pos: Pos)
    requires NodeReferrers(g, id) == []
    ensures Crossing(g, grid, id, pos) == Finite(0)
  {
  }

  /** `grid.fill(pos_k, to)` for every referrer position, in order. */
  function FillAll(grid: Grid, froms: seq<Pos>, to: Pos): (r: Grid)
    ensures r.lb == grid.lb && r.rb == grid.rb
    ensures forall p :: p in r.cells <==> p in grid.cells || OnAnyFillPath(to, froms, p)
    ensures forall p :: p in grid.cells ==> r.cells[p] == grid.cells[p]
    ensures forall p :: p in r.cells && p !in grid.cells ==> r.cells[p] == Passage
    decreases |froms|
  {
    if froms == [] then grid
    else
      var r := FillAll(Fill(grid, froms[0], to), froms[1..], to);
      assert forall p :: OnAnyFillPath(to, froms, p) <==> OnFillPath(to, froms[0], p) || OnAnyFillPath(to, froms[1..], p) by {
        forall p ensures OnAnyFillPath(to, froms, p) <==> OnFillPath(to, froms[0], p) || OnAnyFillPath(to, froms[1..], p) {
          OnAnyFillPathCons(to, froms, p);
        }
      }
      r
  }

  /** The column scan of `Graph.layout` (lines 84-105) for node `id` on row
      `row`: the candidates are `lb - 1 .. rb + 1`, the chosen one is cheapest,
      ties go to 0, then 1, 2, .., then -1, -2, .. */
  method ChooseColumn(g: Graph, grid: Grid, id: NodeId, row: int) returns (col: int)
    requires ReferrersPlaced(g, id)
    requires grid.lb <= 0 <= grid.rb
    ensures grid.lb - 1 <= col <= grid.rb + 1
    ensures forall j :: grid.lb - 1 <= j <= grid.rb + 1 ==>
      Le(Crossing(g, grid, id, (row, col)), Crossing(g, grid, id, (row, j)))
    ensures forall j ::
      (grid.lb - 1 <= j <= grid.rb + 1 && j != col && Crossing(g, grid, id, (row, j)) == Crossing(g, grid, id, (row, col)))
      ==> Prefers(col, j)
    ensures Le(Crossing(g, grid, id, (row, 0)), Crossing(g, grid, id, (row, col))) ==> col == 0
  {
    var score := j => Crossing(g, grid, id, (row, j));
    col := ScanColumns(score, grid.lb - 1, grid.rb + 1);
    assert score(col) == Crossing(g, grid, id, (row, col));
    assert score(0) == Crossing(g, grid, id, (row, 0));
    forall j | grid.lb - 1 <= j <= grid.rb + 1
      ensures Le(Crossing(g, grid, id, (row, col)), Crossing(g, grid, id, (row, j)))
      ensures j != col && Crossing(g, grid, id, (row, j)) == Crossing(g, grid, id, (row, col)) ==> Prefers(col, j)
    {
      assert score(j) == Crossing(g, grid, id, (row, j));
    }
  }

  /** The commit of `Graph.layout` (lines 107-112): record the position, mark
      the cell as a node, then fill the path from every referrer, reading the
      referrers' positions after the update. The node cell survives the fills,
      the bounds grow just enough to include `col`, and every other existing
      marker is kept. */
  function Commit(g: Graph, grid: Grid, id: NodeId, pos: Pos): (r: (Graph, Grid))
    requires id in g.nodes && ReferrersPlaced(g, id)
    ensures r.0 == SetPos(g, id, pos)
    ensures ReferrersPlaced(r.0, id)
    ensures grid.lb <= grid.rb ==> r.1.lb == Min(grid.lb, pos.1) && r.1.rb == Max(grid.rb, pos.1)
    ensures pos in r.1.cells && r.1.cells[pos] == NodeBody
    ensures forall p :: p in grid.cells && p != pos ==> p in r.1.cells && r.1.cells[p] == grid.cells[p]
    ensures forall p :: p in r.1.cells <==>
      p in grid.cells || p == pos || OnAnyFillPath(pos, Positions(r.0, NodeReferrers(g, id)), p)
    ensures forall p :: p in r.1.cells && p !in grid.cells && p != pos ==> r.1.cells[p] == Passage
  {
    var g' := SetPos(g, id, pos);
    assert NodeReferrers(g', id) == NodeReferrers(g, id);
    var placed := Add(grid, pos, NodeBody);
    (g', FillAll(placed, Positions(g', NodeReferrers(g, id)), pos))
  }

  // -----------------------------------------------------------------------
  // The placement run: which column each node gets, and the resulting grid
  // -----------------------------------------------------------------------

  /** `col` is the column the scan of lines 84-105 picks for `id` on row
      `row`: a candidate of `lb - 1 .. rb + 1`, cheapest, winning every tie,
      and 0 whenever 0 is cheapest. */
  ghost predicate ColumnChosen(g: Graph, grid: Grid, id: NodeId, row: int, col: int) {
    && ReferrersPlaced(g, id)
    && grid.lb - 1 <= col <= grid.rb + 1
    && (forall j :: grid.lb - 1 <= j <= grid.rb + 1 ==>
          Le(Crossing(g, grid, id, (row, col)), Crossing(g, grid, id, (row, j))))
    && (forall j ::
          (grid.lb - 1 <= j <= grid.rb + 1 && j != col && Crossing(g, grid, id, (row, j)) == Crossing(g, grid, id, (row, col)))
          ==> Prefers(col, j))
    && (Le(Crossing(g, grid, id, (row, 0)), Crossing(g, grid, id, (row, col))) ==> col == 0)
  }

  /** The scan's choice is determined by the graph, the grid and the row. */
  lemma ColumnChosenUnique(g: Graph, grid: Grid, id: NodeId, row: int, c1: int, c2: int)
    requires ColumnChosen(g, grid, id, row, c1) && ColumnChosen(g, grid, id, row, c2)
    ensures c1 == c2
  {
    if c1 != c2 {
      var s1, s2 := Crossing(g, grid, id, (row, c1)), Crossing(g, grid, id, (row, c2));
      LeTotalPreorder(s1, s2, s1);
      assert Le(s1, s2) && Le(s2, s1);
      PrefersAsymmetric(c1, c2);
      assert false;
    }
  }

  /** Placing `id` on row `row` takes `(g, grid)` to `(g', grid')`: the node
      goes to the chosen column `col` and is committed there. */
  ghost predicate PlacedAt(g: Graph, grid: Grid, id: NodeId, row: int, col: int, g': Graph, grid': Grid) {
    id in g.nodes && ColumnChosen(g, grid, id, row, col) && (g', grid') == Commit(g, grid, id, (row, col))
  }

  /** Placing `ids` one after the other on row `row` picks column `cols[k]`
      for `ids[k]` and takes `(g, grid)` to `(g', grid')`: the inner loop of
      lines 83-113. */
  ghost predicate Replayed(g: Graph, grid: Grid, ids: seq<NodeId>, row: int, cols: seq<int>, g': Graph, grid': Grid)
    decreases |ids|, 1
  {
    && |cols| == |ids|
    && (ids == [] ==> g' == g && grid' == grid)
    && (ids != [] ==> FirstPlaced(g, grid, ids, row, cols, g', grid'))
  }

  /** The first node of `ids` goes to column `cols[0]`, and the rest of the
      run continues from there. */
  ghost predicate FirstPlaced(g: Graph, grid: Grid, ids: seq<NodeId>, row: int, cols: seq<int>, g': Graph, grid': Grid)
    requires ids != [] && |cols| == |ids|
    decreases |ids|, 0
  {
    && ids[0] in g.nodes && ColumnChosen(g, grid, ids[0], row, cols[0])
    && var next := Commit(g, grid, ids[0], (row, cols[0]));
       Replayed(next.0, next.1, ids[1..], row, cols[1..], g', grid')
  }

  /** Placing the levels of `L` one after the other, the first on row `row`
      and each next one a row lower, picks the columns `C[j]` for level
      `L[j]` and takes `(g, grid)` to `(g', grid')`: the outer loop of lines
      81-114. */
  ghost predicate LevelsReplayed(g: Graph, grid: Grid, L: seq<seq<NodeId>>, row: int, C: seq<seq<int>>, g': Graph, grid': Grid)
    decreases |L|, 1
  {
    && |C| == |L|
    && (L == [] ==> g' == g && grid' == grid)
    && (L != [] ==> FirstLevelPlaced(g, grid, L, row, C, g', grid'))
  }

  /** The first level of `L` is placed with columns `C[0]`, and the rest of
      the levels continue from there. */
  ghost predicate FirstLevelPlaced(g: Graph, grid: Grid, L: seq<seq<NodeId>>, row: int, C: seq<seq<int>>, g': Graph, grid': Grid)
    requires L != [] && |C| == |L|
    decreases |L|, 0
  {
    exists gm, gridm :: Replayed(g, grid, L[0], row, C[0], gm, gridm) && LevelsReplayed(gm, gridm, L[1..], row + 1, C[1..], g', grid')
  }

  /** A single placement is a run of one. */
  lemma ReplayedOne(g: Graph, grid: Grid, x: NodeId, row: int, col: int, g': Graph, grid': Grid)
    requires PlacedAt(g, grid, x, row, col, g', grid')
    ensures Replayed(g, grid, [x], row, [col], g', grid')
  {
    assert Replayed(g', grid', ([x])[1..], row, ([col])[1..], g', grid');
    assert FirstPlaced(g, grid, [x], row, [col], g', grid');
  }

  /** A run of placements followed by one more placement is a run. */
  lemma {:induction false} ReplayedSnoc(g: Graph, grid: Grid, ids: seq<NodeId>, row: int, cols: seq<int>,
                                        gm: Graph, gridm: Grid, x: NodeId, col: int, g': Graph, grid': Grid)
    requires Replayed(g, grid, ids, row, cols, gm, gridm) && PlacedAt(gm, gridm, x, row, col, g', grid')
    ensures Replayed(g, grid, ids + [x], row, cols + [col], g', grid')
    decreases |ids|
  {
    if ids == [] {
      assert ids + [x] == [x] && cols + [col] == [col];
      ReplayedOne(g, grid, x, row, col, g', grid');
    } else {
      var next := Commit(g, grid, ids[0], (row, cols[0]));
      ReplayedSnoc(next.0, next.1, ids[1..], row, cols[1..], gm, gridm, x, col, g', grid');
      SnocTail(ids, x);
      SnocTail(cols, col);
      assert FirstPlaced(g, grid, ids + [x], row, cols + [col], g', grid');
    }
  }

  /** A run of levels followed by one more level is a run. */
  lemma {:induction false} LevelsReplayedSnoc(g: Graph, grid: Grid, L: seq<seq<NodeId>>, row: int, C: seq<seq<int>>,
                                              gm: Graph, gridm: Grid, level: seq<NodeId>, cols: seq<int>, g': Graph, grid': Grid)
    requires LevelsReplayed(g, grid, L, row, C, gm, gridm) && Replayed(gm, gridm, level, row + |L|, cols, g', grid')
    ensures LevelsReplayed(g, grid, L + [level], row, C + [cols], g', grid')
    decreases |L|
  {
    if L == [] {
      assert L + [level] == [level] && C + [cols] == [cols];
      assert LevelsReplayed(g', grid', ([level])[1..], row + 1, ([cols])[1..], g', grid');
      assert Replayed(g, grid, ([level])[0], row, ([cols])[0], g', grid');
      assert FirstLevelPlaced(g, grid, [level], row, [cols], g', grid');
    } else {
      var g1, grid1 :| Replayed(g, grid, L[0], row, C[0], g1, grid1) && LevelsReplayed(g1, grid1, L[1..], row + 1, C[1..], gm, gridm);
      LevelsReplayedSnoc(g1, grid1, L[1..], row + 1, C[1..], gm, gridm, level, cols, g', grid');
      SnocTail(L, level);
      SnocTail(C, cols);
      assert Replayed(g, grid, (L + [level])[0], row, (C + [cols])[0], g1, grid1);
      assert FirstLevelPlaced(g, grid, L + [level], row, C + [cols], g', grid');
    }
  }

  /** Placing a row of nodes has one outcome: the columns and the final
      graph and grid are determined by the start and the nodes. */
  lemma {:induction false} ReplayedUnique(g: Graph, grid: Grid, ids: seq<NodeId>, row: int,
                                          cols1: seq<int>, g1: Graph, grid1: Grid, cols2: seq<int>, g2: Graph, grid2: Grid)
    requires Replayed(g, grid, ids, row, cols1, g1, grid1) && Replayed(g, grid, ids, row, cols2, g2, grid2)
    ensures cols1 == cols2 && g1 == g2 && grid1 == grid2
    decreases |ids|
  {
    if ids != [] {
      assert FirstPlaced(g, grid, ids, row, cols1, g1, grid1) && FirstPlaced(g, grid, ids, row, cols2, g2, grid2);
      ColumnChosenUnique(g, grid, ids[0], row, cols1[0], cols2[0]);
      var next := Commit(g, grid, ids[0], (row, cols1[0]));
      ReplayedUnique(next.0, next.1, ids[1..], row, cols1[1..], g1, grid1, cols2[1..], g2, grid2);
      assert cols1 == [cols1[0]] + cols1[1..] && cols2 == [cols2[0]] + cols2[1..];
    }
  }

  /** The whole placement has one outcome: the columns and the layout are a
      function of the graph and its levels. */
  lemma {:induction false} LevelsReplayedUnique(g: Graph, grid: Grid, L: seq<seq<NodeId>>, row: int,
                                                C1: seq<seq<int>>, g1: Graph, grid1: Grid, C2: seq<seq<int>>, g2: Graph, grid2: Grid)
    requires LevelsReplayed(g, grid, L, row, C1, g1, grid1) && LevelsReplayed(g, grid, L, row, C2, g2, grid2)
    ensures C1 == C2 && g1 == g2 && grid1 == grid2
    decreases |L|
  {
    if L != [] {
      assert FirstLevelPlaced(g, grid, L, row, C1, g1, grid1) && FirstLevelPlaced(g, grid, L, row, C2, g2, grid2);
      var m1, n1 :| Replayed(g, grid, L[0], row, C1[0], m1, n1) && LevelsReplayed(m1, n1, L[1..], row + 1, C1[1..], g1, grid1);
      var m2, n2 :| Replayed(g, grid, L[0], row, C2[0], m2, n2) && LevelsReplayed(m2, n2, L[1..], row + 1, C2[1..], g2, grid2);
      ReplayedUnique(g, grid, L[0], row, C1[0], m1, n1, C2[0], m2, n2);
      LevelsReplayedUnique(m1, n1, L[1..], row + 1, C1[1..], g1, grid1, C2[1..], g2, grid2);
      assert C1 == [C1[0]] + C1[1..] && C2 == [C2[0]] + C2[1..];
    }
  }

  /** `x` has been placed on row `row`. */
  predicate PlacedOn(g: Graph, x: NodeId, row: int) {
    HasPos(g, x) && g.nodes[x].pos.value.0 == row
  }

  /** Placement changes positions only. */
  ghost predicate SameShape(g: Graph, g': Graph) {
    && g'.order == g.order && g'.referrers == g.referrers && g'.nodeOrder == g.nodeOrder
    && g'.nodes.Keys == g.nodes.Keys
    && forall x :: x in g.nodes ==> g'.nodes[x].width == g.nodes[x].width && g'.nodes[x].height == g.nodes[x].height
  }

  /** Every node of levels `0 .. i - 1` is done and placed on its level's row. */
  ghost predicate PlacedBefore(levels: seq<seq<NodeId>>, g: Graph, done: set<NodeId>, i: int) {
    forall j, x :: 0 <= j < i && j < |levels| && x in levels[j] ==> x in done && PlacedOn(g, x, j)
  }

  /** Every done node comes from `extra` or from a level before `i`. */
  ghost predicate DoneFrom(levels: seq<seq<NodeId>>, done: set<NodeId>, i: int, extra: seq<NodeId>) {
    forall x :: x in done ==> x in extra || exists j :: 0 <= j < i && j < |levels| && x in levels[j]
  }

  /** Some done node sits in column `c`. */
  ghost predicate ColumnHeld(g: Graph, done: set<NodeId>, c: int) {
    exists x :: x in done && HasPos(g, x) && g.nodes[x].pos.value.1 == c
  }

  /** Every column of `lb .. rb` holds a done node. */
  ghost predicate ColumnsCovered(g: Graph, grid: Grid, done: set<NodeId>) {
    forall c :: grid.lb <= c <= grid.rb ==> ColumnHeld(g, done, c)
  }

  /** The grid bounds and the done nodes agree: every done node sits between
      the bounds, and once a node is placed no column between them is empty. */
  ghost predicate BoundsInv(g: Graph, grid: Grid, done: set<NodeId>) {
    && grid.lb <= 0 <= grid.rb
    && (done == {} ==> grid.lb == 0 && grid.rb == 0)
    && (forall x :: x in done ==> HasPos(g, x) && grid.lb <= g.nodes[x].pos.value.1 <= grid.rb)
    && (done != {} ==> ColumnsCovered(g, grid, done))
  }

  /** The shape of the ranking of `g0`: what placement relies on, and each
      level listed in the graph's insertion order. */
  ghost predicate RankShape(g0: Graph, levels: seq<seq<NodeId>>) {
    && NonEmptyLevels(levels) && LevelsIn(levels, g0.order) && DisjointLevels(levels) && LevelsDistinct(levels) && LevelsOrdered(levels, g0.order)
    && ReferrersEarlier(levels, RefSets(g0)) && FirstLevelRoots(levels, RefSets(g0))
  }

  /** The first half of `LevelsTight`: the nodes of level 0 have no referrers. */
  ghost predicate FirstLevelRoots(L: seq<seq<NodeId>>, refs: Refs) {
    forall n :: |L| > 0 && n in L[0] ==> n in refs && refs[n] == {}
  }

  lemma AssignRanksShape(g0: Graph)
    requires Valid(g0)
    ensures RankShape(g0, AssignRanks(g0))
  {
    PeelLevels(g0.order, RefSets(g0));
    PeelOrder(g0.order, RefSets(g0));
    PeelReferrersEarlier(g0.order, RefSets(g0));
    PeelTight(g0.order, RefSets(g0));
  }

  /** The referrers of a ranked node are ranked before it. */
  lemma RankedReferrersPlaced(g0: Graph, levels: seq<seq<NodeId>>, g: Graph, done: set<NodeId>, i: int, n: NodeId)
    requires Valid(g0) && RankShape(g0, levels)
    requires 0 <= i < |levels| && n in levels[i]
    requires SameShape(g0, g) && PlacedBefore(levels, g, done, i)
    ensures ReferrersPlaced(g, n)
  {
    var refs := NodeReferrers(g, n);
    assert n in g0.referrers;
    forall k | 0 <= k < |refs|
      ensures HasPos(g, refs[k])
    {
      var p := refs[k];
      assert p in RefSets(g0)[n];
      var j :| 0 <= j < i && p in levels[j];
      assert PlacedOn(g, p, j);
    }
  }

  /** A non-empty sequence contributes its head to any superset. */
  lemma HeadIn(s: seq<NodeId>, S: set<NodeId>)
    requires forall x :: x in s ==> x in S
    ensures s == [] || s[0] in S
  {
  }

  /** A node of level 0 has no referrers. */
  lemma FirstLevelHasNoReferrers(g0: Graph, levels: seq<seq<NodeId>>, g: Graph, n: NodeId)
    requires Valid(g0) && RankShape(g0, levels)
    requires |levels| > 0 && n in levels[0]
    requires SameShape(g0, g)
    ensures NodeReferrers(g, n) == []
  {
    assert n in g0.referrers;
    assert RefSets(g0)[n] == {};
    HeadIn(g0.referrers[n], RefSets(g0)[n]);
  }

  /** Committing a node in a column next to or between the bounds keeps the
      bounds tight around the placed nodes. */
  lemma CommitBounds(g: Graph, grid: Grid, done: set<NodeId>, n: NodeId, pos: Pos)
    requires n in g.nodes && ReferrersPlaced(g, n) && n !in done
    requires BoundsInv(g, grid, done)
    requires grid.lb - 1 <= pos.1 <= grid.rb + 1
    requires done == {} ==> pos.1 == 0
    ensures BoundsInv(Commit(g, grid, n, pos).0, Commit(g, grid, n, pos).1, done + {n})
  {
    var r := Commit(g, grid, n, pos);
    var done' := done + {n};
    forall x | x in done
      ensures HasPos(r.0, x) && r.0.nodes[x] == g.nodes[x]
    {
    }
    forall c | r.1.lb <= c <= r.1.rb
      ensures ColumnHeld(r.0, done', c)
    {
      if c == pos.1 {
        assert n in done' && HasPos(r.0, n) && r.0.nodes[n].pos.value.1 == c;
      } else {
        assert ColumnHeld(g, done, c);
        var x :| x in done && HasPos(g, x) && g.nodes[x].pos.value.1 == c;
        assert x in done' && HasPos(r.0, x) && r.0.nodes[x].pos.value.1 == c;
      }
    }
  }

  /** Facts of the inner placement loop after the first `k` nodes of level `i`. */
  ghost predicate LevelProgress(g0: Graph, levels: seq<seq<NodeId>>, i: int, k: int, g: Graph, grid: Grid, done: set<NodeId>)
    requires 0 <= i < |levels| && 0 <= k <= |levels[i]|
  {
    && SameShape(g0, g) && PlacedBefore(levels, g, done, i) && DoneFrom(levels, done, i, levels[i][..k])
    && (forall m :: 0 <= m < k ==> levels[i][m] in done && PlacedOn(g, levels[i][m], i))
    && BoundsInv(g, grid, done) && (done == {} <==> i == 0 && k == 0)
  }

  /** Committing the `k`-th node of level `i` on row `i` extends the facts of
      the inner placement loop by that node, bounds aside. */
  lemma CommitProgress(g0: Graph, levels: seq<seq<NodeId>>, i: int, k: int, g: Graph, grid: Grid, done: set<NodeId>, col: int)
    requires 0 <= i < |levels| && 0 <= k < |levels[i]|
    requires LevelProgress(g0, levels, i, k, g, grid, done)
    requires levels[i][k] in g.nodes && levels[i][k] !in done && ReferrersPlaced(g, levels[i][k])
    ensures var r := Commit(g, grid, levels[i][k], (i, col));
      && SameShape(g0, r.0) && PlacedBefore(levels, r.0, done + {levels[i][k]}, i)
      && DoneFrom(levels, done + {levels[i][k]}, i, levels[i][..k + 1])
      && (forall m :: 0 <= m < k + 1 ==> levels[i][m] in done + {levels[i][k]} && PlacedOn(r.0, levels[i][m], i))
  {
    var n := levels[i][k];
    var r := Commit(g, grid, n, (i, col));
    var done' := done + {n};
    assert forall x :: x in g.nodes && x != n ==> r.0.nodes[x] == g.nodes[x];
    assert levels[i][..k + 1] == levels[i][..k] + [n];
    forall j, x | 0 <= j < i && j < |levels| && x in levels[j]
      ensures x in done' && PlacedOn(r.0, x, j)
    {
      assert x in done && PlacedOn(g, x, j);
    }
    forall m | 0 <= m < k + 1
      ensures levels[i][m] in done' && PlacedOn(r.0, levels[i][m], i)
    {
      if m < k {
        assert levels[i][m] in done && PlacedOn(g, levels[i][m], i);
      }
    }
  }

  /** One iteration of the inner placement loop: choose the column of the
      `k`-th node of level `i`, then commit it. */
  method PlaceNode(g0: Graph, levels: seq<seq<NodeId>>, i: int, k: int, g: Graph, grid: Grid, ghost done: set<NodeId>)
    returns (g': Graph, grid': Grid, col: int, ghost done': set<NodeId>)
    requires Valid(g0) && (forall x :: x in g0.referrers ==> x in g0.nodes)
    requires RankShape(g0, levels) && 0 <= i < |levels| && 0 <= k < |levels[i]|
    requires LevelProgress(g0, levels, i, k, g, grid, done)
    ensures LevelProgress(g0, levels, i, k + 1, g', grid', done')
    ensures SameShape(g0, g') && forall m :: 0 <= m <= k ==> PlacedOn(g', levels[i][m], i)
    ensures PlacedAt(g, grid, levels[i][k], i, col, g', grid')
  {
    var level := levels[i];
    var n := level[k];
    assert n in g0.referrers;
    RankedReferrersPlaced(g0, levels, g, done, i, n);
    assert n !in done;
    col := ChooseColumn(g, grid, n, i);
    if done == {} {
      FirstLevelHasNoReferrers(g0, levels, g, n);
      assert col == 0;
    }
    CommitBounds(g, grid, done, n, (i, col));
    CommitProgress(g0, levels, i, k, g, grid, done, col);
    var next := Commit(g, grid, n, (i, col));
    g', grid' := next.0, next.1;
    done' := done + {n};
  }

  /** `PlaceNode`, extending the run of the first `k` nodes of level `i`,
      started at `(gs, grids)`, by node `k`. */
  method PlaceNext(g0: Graph, levels: seq<seq<NodeId>>, i: int, k: int, g: Graph, grid: Grid, ghost done: set<NodeId>,
                   ghost gs: Graph, ghost grids: Grid, ghost cols: seq<int>)
    returns (g': Graph, grid': Grid, col: int, ghost done': set<NodeId>)
    requires Valid(g0) && (forall x :: x in g0.referrers ==> x in g0.nodes)
    requires RankShape(g0, levels) && 0 <= i < |levels| && 0 <= k < |levels[i]|
    requires LevelProgress(g0, levels, i, k, g, grid, done)
    requires Replayed(gs, grids, levels[i][..k], i, cols, g, grid)
    ensures LevelProgress(g0, levels, i, k + 1, g', grid', done')
    ensures Replayed(gs, grids, levels[i][..k + 1], i, cols + [col], g', grid')
  {
    g', grid', col, done' := PlaceNode(g0, levels, i, k, g, grid, done);
    ReplayedSnoc(gs, grids, levels[i][..k], i, cols, g, grid, levels[i][k], col, g', grid');
    TakeSnoc(levels[i], k);
  }

  /** A finished level extends the placed prefix by one level. */
  lemma LevelFinished(g0: Graph, levels: seq<seq<NodeId>>, i: int, g: Graph, grid: Grid, done: set<NodeId>)
    requires NonEmptyLevels(levels) && 0 <= i < |levels|
    requires LevelProgress(g0, levels, i, |levels[i]|, g, grid, done)
    ensures PlacedBefore(levels, g, done, i + 1) && DoneFrom(levels, done, i + 1, []) && done != {}
  {
    assert levels[i][..|levels[i]|] == levels[i];
    assert levels[i][0] in done;
    forall j, x | 0 <= j < i + 1 && j < |levels| && x in levels[j]
      ensures x in done && PlacedOn(g, x, j)
    {
      if j == i {
        var m :| 0 <= m < |levels[i]| && levels[i][m] == x;
      }
    }
  }

  /** Facts of the outer placement loop after the first `i` levels. */
  ghost predicate PlacedLevels(g0: Graph, levels: seq<seq<NodeId>>, i: int, g: Graph, grid: Grid, done: set<NodeId>) {
    && SameShape(g0, g) && PlacedBefore(levels, g, done, i) && DoneFrom(levels, done, i, [])
    && BoundsInv(g, grid, done) && (done == {} <==> i == 0)
  }

  lemma NothingPlaced(g0: Graph, levels: seq<seq<NodeId>>)
    ensures PlacedLevels(g0, levels, 0, g0, EmptyGrid, {})
  {
  }

  /** The inner loop of `Graph.layout` from node `k` of level `i` on: places
      `levels[i][k..]`, continuing the run of level `i` started at
      `(gs, grids)`. It is written as tail recursion. */
  method PlaceRest(g0: Graph, levels: seq<seq<NodeId>>, i: int, k: int, g: Graph, grid: Grid, ghost done: set<NodeId>,
                   ghost gs: Graph, ghost grids: Grid, cols: seq<int>)
    returns (g': Graph, grid': Grid, cols': seq<int>, ghost done': set<NodeId>)
    requires Valid(g0) && (forall x :: x in g0.referrers ==> x in g0.nodes)
    requires RankShape(g0, levels) && 0 <= i < |levels| && 0 <= k <= |levels[i]|
    requires LevelProgress(g0, levels, i, k, g, grid, done)
    requires Replayed(gs, grids, levels[i][..k], i, cols, g, grid)
    ensures LevelProgress(g0, levels, i, |levels[i]|, g', grid', done')
    ensures Replayed(gs, grids, levels[i][..|levels[i]|], i, cols', g', grid')
    decreases |levels[i]| - k
  {
    if k == |levels[i]| {
      g', grid', cols', done' := g, grid, cols, done;
    } else {
      var g1, grid1, col, done1 := PlaceNext(g0, levels, i, k, g, grid, done, gs, grids, cols);
      g', grid', cols', done' := PlaceRest(g0, levels, i, k + 1, g1, grid1, done1, gs, grids, cols + [col]);
    }
  }

  /** The inner loop of `Graph.layout` (lines 83-113) over level `i`:
      every node of the level is placed on row `i`, `cols[k]` is the column
      the scan picks for `levels[i][k]`, and the graph and grid end as the
      run of those placements says. */
  method PlaceLevel(g0: Graph, levels: seq<seq<NodeId>>, i: int, g: Graph, grid: Grid, ghost done: set<NodeId>)
    returns (g': Graph, grid': Grid, cols: seq<int>, ghost done': set<NodeId>)
    requires Valid(g0) && (forall k :: k in g0.referrers ==> k in g0.nodes)
    requires RankShape(g0, levels) && 0 <= i < |levels|
    requires PlacedLevels(g0, levels, i, g, grid, done)
    ensures PlacedLevels(g0, levels, i + 1, g', grid', done')
    ensures SameShape(g0, g') && forall x :: x in levels[i] ==> PlacedOn(g', x, i)
    ensures Replayed(g, grid, levels[i], i, cols, g', grid')
  {
    assert levels[i][..0] == [];
    g', grid', cols, done' := PlaceRest(g0, levels, i, 0, g, grid, done, g, grid, []);
    LevelFinished(g0, levels, i, g', grid', done');
    assert levels[i][..|levels[i]|] == levels[i];
  }

  /** Extending the run of the first `i` levels by level `i` gives the run
      of the first `i + 1` levels. */
  lemma LevelsReplayedStep(g: Graph, levels: seq<seq<NodeId>>, i: int, cols: seq<seq<int>>, placed: Graph, grid: Grid,
                           level: seq<int>, placed': Graph, grid': Grid)
    requires 0 <= i < |levels|
    requires LevelsReplayed(g, EmptyGrid, levels[..i], 0, cols, placed, grid)
    requires Replayed(placed, grid, levels[i], i, level, placed', grid')
    ensures LevelsReplayed(g, EmptyGrid, levels[..i + 1], 0, cols + [level], placed', grid')
  {
    LevelsReplayedSnoc(g, EmptyGrid, levels[..i], 0, cols, placed, grid, levels[i], level, placed', grid');
    TakeSnoc(levels, i);
  }

  /** `PlaceLevel`, extending the run of the levels before `i`. */
  method PlaceNextLevel(g: Graph, levels: seq<seq<NodeId>>, i: int, placed: Graph, grid: Grid, ghost done: set<NodeId>,
                        ghost cols: seq<seq<int>>)
    returns (placed': Graph, grid': Grid, level: seq<int>, ghost done': set<NodeId>)
    requires Valid(g) && (forall k :: k in g.referrers ==> k in g.nodes)
    requires RankShape(g, levels) && 0 <= i < |levels|
    requires PlacedLevels(g, levels, i, placed, grid, done)
    requires LevelsReplayed(g, EmptyGrid, levels[..i], 0, cols, placed, grid)
    ensures PlacedLevels(g, levels, i + 1, placed', grid', done')
    ensures LevelsReplayed(g, EmptyGrid, levels[..i + 1], 0, cols + [level], placed', grid')
  {
    placed', grid', level, done' := PlaceLevel(g, levels, i, placed, grid, done);
    LevelsReplayedStep(g, levels, i, cols, placed, grid, level, placed', grid');
  }

  /** The placement loops of `Graph.layout` (lines 80-114): the levels go
      to rows 0, 1, ... in order, and `cols[j]` holds the columns given to
      the nodes of level `j`. On return every ranked node (the set `done`)
      sits on its level's row between the grid bounds, and no column between
      the bounds is empty. */
  method PlaceAll(g: Graph, levels: seq<seq<NodeId>>) returns (placed: Graph, grid: Grid, cols: seq<seq<int>>, ghost done: set<NodeId>)
    requires Valid(g) && (forall k :: k in g.referrers ==> k in g.nodes)
    requires RankShape(g, levels)
    ensures SameShape(g, placed)
    ensures PlacedBefore(levels, placed, done, |levels|) && DoneFrom(levels, done, |levels|, [])
    ensures BoundsInv(placed, grid, done)
    ensures LevelsReplayed(g, EmptyGrid, levels, 0, cols, placed, grid)
  {
    NothingPlaced(g, levels);
    placed, grid, cols, done := g, EmptyGrid, [], {};
    var i := 0;
    assert levels[..0] == [];
    while i < |levels|
      invariant 0 <= i <= |levels|
      invariant PlacedLevels(g, levels, i, placed, grid, done)
      invariant LevelsReplayed(g, EmptyGrid, levels[..i], 0, cols, placed, grid)
    {
      var level;
      placed, grid, level, done := PlaceNextLevel(g, levels, i, placed, grid, done, cols);
      cols := cols + [level];
      i := i + 1;
    }
    assert levels[..i] == levels;
  }
}
