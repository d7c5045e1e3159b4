/** legacy.js: the earlier, record-based variant of the placement pass.

    The grid maps a row to the set of columns marked on it; a row may exist
    with no column. Entries of `assignedRanks` carry a size and, once placed,
    a rank (row, column); a grid cell holds a node exactly when some entry's
    rank equals it. Pages are placed one per row, then the screen-out sink
    goes below its lowest referrer. */
module Legacy {
  import opened Base
  import opened Paths
  import opened ColumnScan
  import opened Coords

  type LGrid = map<int, set<int>>

  /** An entry of `assignedRanks`: the caller's size and, once placed, its rank. */
  datatype Entry = Entry(width: real, height: real, rank: Option<Pos>)

  /** `assignedRanks`: `names` lists the own property names in order. */
  datatype Assigned = Assigned(names: seq<NodeId>, entries: map<NodeId, Entry>)

  ghost predicate ValidAssigned(a: Assigned) {
    && Distinct(a.names)
    && forall k :: k in a.names <==> k in a.entries
  }

  /** The `SCREEN_OUT` entry. */
  const ScreenOut: NodeId := Sink

  // -----------------------------------------------------------------------
  // fillPath (lines 6-31)
  // -----------------------------------------------------------------------

  /** The columns of `row`, empty when the row is absent. */
  function RowOf(grid: LGrid, row: int): set<int> {
    if row in grid then grid[row] else {}
  }

  /** `setDefault(grid, i, new Set()).add(c)` for every `i` of `rows`. */
  function AddToRows(grid: LGrid, rows: seq<int>, c: int): (r: LGrid)
    ensures forall row :: row in r <==> row in grid || row in rows
    ensures forall row :: row in r ==> r[row] == RowOf(grid, row) + (if row in rows then {c} else {})
    decreases |rows|
  {
    if rows == [] then grid
    else AddToRows(grid[rows[0] := RowOf(grid, rows[0]) + {c}], rows[1..], c)
  }

  /** `v.add(i)` for every `i` of `cols`, `v` being row `row`'s set. */
  function AddToRow(grid: LGrid, row: int, cols: seq<int>): (r: LGrid)
    requires row in grid
    ensures r.Keys == grid.Keys
    ensures r[row] == grid[row] + set c | c in cols
    ensures forall k :: k in grid && k != row ==> r[k] == grid[k]
  {
    grid[row := grid[row] + set c | c in cols]
  }

  /** A row `fillPath(grid, from, to)` creates: the rows of the vertical run
      and, always, the row of `from`. */
  predicate OnFillRow(to: Pos, from: Pos, row: int) {
    row == from.0 || (to.0 != from.0 && Between(row, to.0, from.0))
  }

  /** `fillPath(grid, from, to)`: adds the cells of the L-shaped path to the
      grid. The row of `from` is created even when nothing is added to it. */
  function FillPath(grid: LGrid, from: Pos, to: Pos): (r: LGrid)
    ensures forall row :: row in r <==> row in grid || OnFillRow(to, from, row)
    ensures forall row, c :: row in r ==> (c in r[row] <==> c in RowOf(grid, row) || OnFillPath(to, from, (row, c)))
  {
    var g1 := if to.0 != from.0 then AddToRows(grid, Span(to.0, from.0), to.1) else grid;
    var g2 := g1[from.0 := RowOf(g1, from.0)];
    assert forall row, c :: row in g2 ==>
      (c in g2[row] <==> c in RowOf(grid, row) || (to.0 != from.0 && c == to.1 && Between(row, to.0, from.0)));
    if to.1 != from.1 then AddToRow(g2, from.0, Span(to.1, from.1)) else g2
  }

  /** `fillPath` only adds marks: running it twice adds nothing more. */
  lemma FillPathIdempotent(grid: LGrid, from: Pos, to: Pos)
    ensures FillPath(FillPath(grid, from, to), from, to) == FillPath(grid, from, to)
  {
    var once := FillPath(grid, from, to);
    var twice := FillPath(once, from, to);
    assert twice.Keys == once.Keys;
    forall row | row in once
      ensures twice[row] == once[row]
    {
      assert forall c :: c in twice[row] <==> c in once[row];
    }
    assert twice == once;
  }

  /** Rows created by the fills from each of `froms` to `to`. */
  ghost predicate OnAnyFillRow(to: Pos, froms: seq<Pos>, row: int) {
    exists k :: 0 <= k < |froms| && OnFillRow(to, froms[k], row)
  }

  lemma OnAnyFillRowCons(to: Pos, froms: seq<Pos>, row: int)
    requires froms != []
    ensures OnAnyFillRow(to, froms, row) <==> OnFillRow(to, froms[0], row) || OnAnyFillRow(to, froms[1..], row)
  {
    if OnAnyFillRow(to, froms[1..], row) {
      var k :| 0 <= k < |froms[1..]| && OnFillRow(to, froms[1..][k], row);
      assert froms[k + 1] == froms[1..][k];
    }
    if OnAnyFillRow(to, froms, row) {
      var k :| 0 <= k < |froms| && OnFillRow(to, froms[k], row);
      if k > 0 {
        assert froms[1..][k - 1] == froms[k];
      }
    }
  }

  /** `fillPath(grid, from, to)` for every `from` of `froms`, in order. */
  function FillPaths(grid: LGrid, froms: seq<Pos>, to: Pos): (r: LGrid)
    ensures forall row :: row in r <==> row in grid || OnAnyFillRow(to, froms, row)
    ensures forall row, c :: row in r ==> (c in r[row] <==> c in RowOf(grid, row) || OnAnyFillPath(to, froms, (row, c)))
    decreases |froms|
  {
    if froms == [] then grid
    else
      var r := FillPaths(FillPath(grid, froms[0], to), froms[1..], to);
      assert forall p :: OnAnyFillPath(to, froms, p) <==> OnFillPath(to, froms[0], p) || OnAnyFillPath(to, froms[1..], p) by {
        forall p ensures OnAnyFillPath(to, froms, p) <==> OnFillPath(to, froms[0], p) || OnAnyFillPath(to, froms[1..], p) {
          OnAnyFillPathCons(to, froms, p);
        }
      }
      assert forall row :: OnAnyFillRow(to, froms, row) <==> OnFillRow(to, froms[0], row) || OnAnyFillRow(to, froms[1..], row) by {
        forall row ensures OnAnyFillRow(to, froms, row) <==> OnFillRow(to, froms[0], row) || OnAnyFillRow(to, froms[1..], row) {
          OnAnyFillRowCons(to, froms, row);
        }
      }
      r
  }

  // -----------------------------------------------------------------------
  // isRankSet, isRankAssigned, crossing (lines 33-100)
  // -----------------------------------------------------------------------

  /** `isRankSet(grid, p)`: the row exists and holds the column. */
  predicate IsRankSet(grid: LGrid, p: Pos) {
    p.0 in grid && p.1 in grid[p.0]
  }

  /** The loop of `isRankAssigned` over `names`: true at the first entry
      whose rank equals `p`. */
  function RankAssignedIn(names: seq<NodeId>, entries: map<NodeId, Entry>, p: Pos): (b: bool)
    ensures b <==> exists i :: 0 <= i < |names| && names[i] in entries && entries[names[i]].rank == Some(p)
  {
    if names == [] then false
    else if names[0] in entries && entries[names[0]].rank == Some(p) then true
    else
      var b := RankAssignedIn(names[1..], entries, p);
      assert b ==> exists i :: 0 <= i < |names| && names[i] in entries && entries[names[i]].rank == Some(p) by {
        if b {
          var i :| 0 <= i < |names[1..]| && names[1..][i] in entries && entries[names[1..][i]].rank == Some(p);
          assert names[i + 1] == names[1..][i];
        }
      }
      assert (exists i :: 0 <= i < |names| && names[i] in entries && entries[names[i]].rank == Some(p)) ==> b by {
        if exists i :: 0 <= i < |names| && names[i] in entries && entries[names[i]].rank == Some(p) {
          var i :| 0 <= i < |names| && names[i] in entries && entries[names[i]].rank == Some(p);
          assert i != 0;
          assert names[1..][i - 1] == names[i];
        }
      }
      b
  }

  /** `isRankAssigned(assignedRanks, p)`. */
  function IsRankAssigned(a: Assigned, p: Pos): bool {
    RankAssignedIn(a.names, a.entries, p)
  }

  /** Some entry holds rank `p`, whatever the order of the names. */
  lemma IsRankAssignedSpec(a: Assigned, p: Pos)
    requires ValidAssigned(a)
    ensures IsRankAssigned(a, p) <==> exists k :: k in a.entries && a.entries[k].rank == Some(p)
  {
    if exists k :: k in a.entries && a.entries[k].rank == Some(p) {
      var k :| k in a.entries && a.entries[k].rank == Some(p);
      assert k in a.names;
      var i :| 0 <= i < |a.names| && a.names[i] == k;
    }
  }

  /** What the legacy `crossing` sees at a cell: a set cell that some entry
      ranks at is a node, any other set cell an edge passage. */
  function LegacyLook(grid: LGrid, a: Assigned): Pos -> Look {
    p => if !IsRankSet(grid, p) then Clear else if IsRankAssigned(a, p) then Occupied else Crossed
  }

  /** Every referrer has an entry with a rank (`assignedRanks[referrer].rank`). */
  ghost predicate Ranked(a: Assigned, refs: seq<NodeId>) {
    forall k :: 0 <= k < |refs| ==> refs[k] in a.entries && a.entries[refs[k]].rank.Some?
  }

  /** The ranks of `refs`, in order. */
  function RankPositions(a: Assigned, refs: seq<NodeId>): (r: seq<Pos>)
    requires Ranked(a, refs)
    ensures |r| == |refs|
    ensures forall k :: 0 <= k < |refs| ==> r[k] == a.entries[refs[k]].rank.value
  {
    if refs == [] then [] else [a.entries[refs[0]].rank.value] + RankPositions(a, refs[1..])
  }

  /** `crossing(grid, pos, referrers, assignedRanks)`: the cells it inspects
      are those of index.js, so the shared `TotalCost` is its definition. */
  function LegacyCrossing(grid: LGrid, a: Assigned, pos: Pos, refs: seq<NodeId>): Cost
    requires Ranked(a, refs)
  {
    TotalCost(LegacyLook(grid, a), pos, RankPositions(a, refs))
  }

  /** The legacy `crossing` is blocked exactly when a path meets a set cell
      that is some entry's rank; it is 0 without referrers. */
  lemma LegacyCrossingSpec(grid: LGrid, a: Assigned, pos: Pos, refs: seq<NodeId>)
    requires Ranked(a, refs)
    ensures LegacyCrossing(grid, a, pos, refs) == Blocked <==>
      exists k, p :: 0 <= k < |refs| && OnCrossPath(pos, a.entries[refs[k]].rank.value, p)
        && IsRankSet(grid, p) && IsRankAssigned(a, p)
    ensures refs == [] ==> LegacyCrossing(grid, a, pos, refs) == Finite(0)
  {
    var look := LegacyLook(grid, a);
    var froms := RankPositions(a, refs);
    TotalCostSpec(look, pos, froms);
    if AnyBlocked(look, pos, froms) {
      var k :| 0 <= k < |froms| && PathBlocked(look, pos, froms[k]);
      var p :| OnCrossPath(pos, froms[k], p) && look(p) == Occupied;
      assert OnCrossPath(pos, a.entries[refs[k]].rank.value, p) && IsRankSet(grid, p) && IsRankAssigned(a, p);
    }
    if exists k, p :: 0 <= k < |refs| && OnCrossPath(pos, a.entries[refs[k]].rank.value, p)
        && IsRankSet(grid, p) && IsRankAssigned(a, p) {
      var k, p :| 0 <= k < |refs| && OnCrossPath(pos, a.entries[refs[k]].rank.value, p)
        && IsRankSet(grid, p) && IsRankAssigned(a, p);
      assert look(p) == Occupied;
      assert PathBlocked(look, pos, froms[k]);
    }
  }

  // -----------------------------------------------------------------------
  // Placement (lines 133-215)
  // -----------------------------------------------------------------------

  /** The column scan over `lo .. hi` for a node on row `row` with referrers
      `refs` (lines 137-159 and 190-212): the chosen column is cheapest, ties
      go to 0, then 1, 2, .., then -1, -2, .. */
  method LegacyChoose(grid: LGrid, a: Assigned, row: int, refs: seq<NodeId>, lo: int, hi: int) returns (best: int)
    requires Ranked(a, refs) && lo <= 0 <= hi
    ensures lo <= best <= hi
    ensures forall j :: lo <= j <= hi ==>
      Le(LegacyCrossing(grid, a, (row, best), refs), LegacyCrossing(grid, a, (row, j), refs))
    ensures forall j ::
      (lo <= j <= hi && j != best && LegacyCrossing(grid, a, (row, j), refs) == LegacyCrossing(grid, a, (row, best), refs))
      ==> Prefers(best, j)
    ensures Le(LegacyCrossing(grid, a, (row, 0), refs), LegacyCrossing(grid, a, (row, best), refs)) ==> best == 0
  {
    var score := j => LegacyCrossing(grid, a, (row, j), refs);
    best := ScanColumns(score, lo, hi);
    assert score(best) == LegacyCrossing(grid, a, (row, best), refs);
    assert score(0) == LegacyCrossing(grid, a, (row, 0), refs);
    forall j | lo <= j <= hi
      ensures Le(LegacyCrossing(grid, a, (row, best), refs), LegacyCrossing(grid, a, (row, j), refs))
      ensures j != best && LegacyCrossing(grid, a, (row, j), refs) == LegacyCrossing(grid, a, (row, best), refs) ==> Prefers(best, j)
    {
      assert score(j) == LegacyCrossing(grid, a, (row, j), refs);
    }
  }

  /** `assignedRanks[id].rank = pos`. */
  function SetRank(a: Assigned, id: NodeId, pos: Pos): (r: Assigned)
    requires id in a.entries
    ensures r.names == a.names && r.entries.Keys == a.entries.Keys
    ensures r.entries[id] == a.entries[id].(rank := Some(pos))
    ensures forall k :: k in a.entries && k != id ==> r.entries[k] == a.entries[k]
  {
    a.(entries := a.entries[id := a.entries[id].(rank := Some(pos))])
  }

  /** The grid update for page `i` placed at column `best` (lines 169-178):
      row `i` is replaced by `{best}`, dropping what was marked there, then
      the path from every position of `froms` is filled. */
  function CommitRow(grid: LGrid, i: int, best: int, froms: seq<Pos>): (r: LGrid)
    ensures i in r && best in r[i]
    ensures forall row :: row in r <==> row in grid || row == i || OnAnyFillRow((i, best), froms, row)
    ensures forall row, c :: row in r ==>
      (c in r[row] <==>
        (row != i && c in RowOf(grid, row)) || (row == i && c == best) || OnAnyFillPath((i, best), froms, (row, c)))
  {
    var placed := grid[i := {best}];
    assert forall row :: RowOf(placed, row) == if row == i then {best} else RowOf(grid, row);
    FillPaths(placed, froms, (i, best))
  }

  /** The referrers of a page (`pageToReferrers.get(pageId) || new Set()`). */
  function RefsOf(referrers: map<NodeId, seq<NodeId>>, id: NodeId): seq<NodeId> {
    if id in referrers then referrers[id] else []
  }

  /** The fill sources of page `i`: every referrer's rank, then, below the
      first page, the cell under the previous page. */
  function Froms(a: Assigned, pages: seq<NodeId>, i: int, refs: seq<NodeId>): seq<Pos>
    requires Ranked(a, refs) && 0 <= i < |pages|
    requires i > 0 ==> pages[i - 1] in a.entries && a.entries[pages[i - 1]].rank.Some?
  {
    RankPositions(a, refs) +
      (if i > 0 then [(a.entries[pages[i - 1]].rank.value.0 + 1, a.entries[pages[i - 1]].rank.value.1)] else [])
  }

  /** The referrers of page `i` are ranked by the time it is placed: each is
      an earlier page or was given a rank by the caller. */
  ghost predicate ReferrersReady(a: Assigned, pages: seq<NodeId>, referrers: map<NodeId, seq<NodeId>>) {
    && (forall i :: 0 <= i < |pages| ==> pages[i] in a.entries)
    && forall i, k :: 0 <= i < |pages| && 0 <= k < |RefsOf(referrers, pages[i])| ==>
         var r := RefsOf(referrers, pages[i])[k];
         r in a.entries && (r in pages[..i] || a.entries[r].rank.Some?)
  }

  /** Page `j` is the last occurrence of its id among the first `i` pages. */
  predicate LastBefore(pages: seq<NodeId>, j: int, i: int)
    requires 0 <= j < i <= |pages|
  {
    pages[j] !in pages[j + 1..i]
  }

  /** After `i` pages only pages have changed, and only in their rank; every
      placed page, and every entry the caller ranked, has a rank. */
  ghost predicate Framed(a0: Assigned, pages: seq<NodeId>, i: int, a: Assigned)
    requires 0 <= i <= |pages|
  {
    && a.names == a0.names && a.entries.Keys == a0.entries.Keys
    && (forall k :: k in a0.entries ==>
          a.entries[k].width == a0.entries[k].width && a.entries[k].height == a0.entries[k].height)
    && (forall k :: k in a0.entries && k !in pages[..i] ==> a.entries[k] == a0.entries[k])
    && (forall k :: k in a0.entries && a0.entries[k].rank.Some? ==> a.entries[k].rank.Some?)
    && (forall j :: 0 <= j < i ==> pages[j] in a.entries && a.entries[pages[j]].rank.Some?)
  }

  /** The rank facts of the page loop after `i` pages: the frame, and the
      last occurrence of every page on its row, strictly inside the
      boundaries. */
  ghost predicate RanksPlaced(a0: Assigned, pages: seq<NodeId>, i: int, a: Assigned, lb: int, rb: int)
    requires 0 <= i <= |pages|
  {
    && lb <= -1 && 1 <= rb
    && Framed(a0, pages, i, a)
    && LastRows(pages, i, a, lb, rb)
  }

  /** The last occurrence of each of the first `i` pages holds its row, at a
      column strictly inside the boundaries. */
  ghost predicate LastRows(pages: seq<NodeId>, i: int, a: Assigned, lb: int, rb: int)
    requires 0 <= i <= |pages|
  {
    forall j :: 0 <= j < i && LastBefore(pages, j, i) ==>
      && pages[j] in a.entries && a.entries[pages[j]].rank.Some?
      && a.entries[pages[j]].rank.value.0 == j && lb < a.entries[pages[j]].rank.value.1 < rb
  }

  /** Page `i` placed at `(i, best)` becomes the last occurrence of its id;
      earlier pages keep theirs, inside the widened boundaries. */
  lemma LastRowsCommitted(pages: seq<NodeId>, i: int, a: Assigned, lb: int, rb: int, best: int)
    requires 0 <= i < |pages| && pages[i] in a.entries
    requires LastRows(pages, i, a, lb, rb) && lb <= best <= rb
    ensures var b := WidenBounds(lb, rb, best);
      LastRows(pages, i + 1, SetRank(a, pages[i], (i, best)), b.0, b.1)
  {
    var page := pages[i];
    var b := WidenBounds(lb, rb, best);
    var a' := SetRank(a, page, (i, best));
    forall j | 0 <= j < i + 1 && LastBefore(pages, j, i + 1)
      ensures pages[j] in a'.entries && a'.entries[pages[j]].rank.Some?
      ensures a'.entries[pages[j]].rank.value.0 == j && b.0 < a'.entries[pages[j]].rank.value.1 < b.1
    {
      if j < i {
        assert pages[j + 1..i + 1] == pages[j + 1..i] + [page];
        assert LastBefore(pages, j, i);
      }
    }
  }

  /** The facts of the page loop after `i` pages: the rank facts, and every
      page row exists in the grid. */
  ghost predicate PagesPlaced(a0: Assigned, pages: seq<NodeId>, i: int, a: Assigned, grid: LGrid, lb: int, rb: int)
    requires 0 <= i <= |pages|
  {
    && RanksPlaced(a0, pages, i, a, lb, rb)
    && (forall j :: 0 <= j < i ==> j in grid)
  }

  /** The referrers of page `i` are ranked when its turn comes. */
  lemma PageRefsRanked(a0: Assigned, pages: seq<NodeId>, referrers: map<NodeId, seq<NodeId>>, i: int, a: Assigned)
    requires ReferrersReady(a0, pages, referrers) && 0 <= i < |pages|
    requires Framed(a0, pages, i, a)
    ensures Ranked(a, RefsOf(referrers, pages[i]))
  {
    var refs := RefsOf(referrers, pages[i]);
    forall k | 0 <= k < |refs|
      ensures refs[k] in a.entries && a.entries[refs[k]].rank.Some?
    {
      var r := refs[k];
      if r in pages[..i] {
        var j :| 0 <= j < i && pages[j] == r;
      }
    }
  }

  /** The boundary update of lines 161-166 as written: the boundary on the
      chosen side moves to one past `best`, even when that is inside the old
      boundary. The chosen column ends strictly inside the new boundaries,
      and the scans of the next page still terminate. */
  function NextBounds(lb: int, rb: int, best: int): (r: (int, int))
    requires lb <= best <= rb
    ensures lb <= -1 && 1 <= rb ==> r.0 <= -1 && 1 <= r.1 && r.0 < best < r.1
    ensures r.0 == lb || r.0 == best - 1
    ensures r.1 == rb || r.1 == best + 1
  {
    if best < 0 then (best - 1, rb)
    else if best > 0 then (lb, best + 1)
    else (lb, rb)
  }

  /** As written, the left boundary can move right: after pages at -1 and
      -2 the boundary is -3, and a page placed at -1 moves it back to -2, so
      the page at -2 is no longer strictly inside. */
  lemma NextBoundsMovesInward(lb: int, rb: int, best: int)
    requires lb < best - 1 && best < 0 && best <= rb
    ensures NextBounds(lb, rb, best).0 > lb
  {
  }

  /** The boundary update as `Grid.add` of index.js does it: a boundary only
      moves outward, and only as far as one past `best`. */
  function WidenBounds(lb: int, rb: int, best: int): (r: (int, int))
    requires lb <= best <= rb
    ensures r.0 <= lb && rb <= r.1
    ensures r.0 < best < r.1
    ensures r.0 == lb || r.0 == best - 1
    ensures r.1 == rb || r.1 == best + 1
  {
    (Min(lb, best - 1), Max(rb, best + 1))
  }

  /** Recording page `i` keeps the frame, now over `i + 1` pages. */
  lemma FramedCommitted(a0: Assigned, pages: seq<NodeId>, i: int, a: Assigned, best: int)
    requires 0 <= i < |pages| && pages[i] in a0.entries
    requires Framed(a0, pages, i, a)
    ensures Framed(a0, pages, i + 1, SetRank(a, pages[i], (i, best)))
  {
    var page := pages[i];
    var a' := SetRank(a, page, (i, best));
    assert pages[..i + 1] == pages[..i] + [page];
    forall k | k in a0.entries && k !in pages[..i + 1]
      ensures a'.entries[k] == a0.entries[k]
    {
      assert k != page && k !in pages[..i];
    }
  }

  /** Recording page `i` at `(i, best)` extends the rank facts by one page. */
  lemma RanksCommitted(a0: Assigned, pages: seq<NodeId>, i: int, a: Assigned, lb: int, rb: int, best: int)
    requires 0 <= i < |pages| && pages[i] in a0.entries
    requires RanksPlaced(a0, pages, i, a, lb, rb)
    requires lb <= best <= rb
    ensures var b := WidenBounds(lb, rb, best);
      RanksPlaced(a0, pages, i + 1, SetRank(a, pages[i], (i, best)), b.0, b.1)
  {
    FramedCommitted(a0, pages, i, a, best);
    LastRowsCommitted(pages, i, a, lb, rb, best);
  }

  /** Recording page `i` at `(i, best)` and committing its row extends the
      loop facts by one page. */
  lemma PageCommitted(a0: Assigned, pages: seq<NodeId>, i: int, a: Assigned, grid: LGrid, lb: int, rb: int,
                      best: int, froms: seq<Pos>)
    requires 0 <= i < |pages| && pages[i] in a0.entries
    requires PagesPlaced(a0, pages, i, a, grid, lb, rb)
    requires lb <= best <= rb
    ensures var b := WidenBounds(lb, rb, best);
      PagesPlaced(a0, pages, i + 1, SetRank(a, pages[i], (i, best)), CommitRow(grid, i, best, froms), b.0, b.1)
  {
    RanksCommitted(a0, pages, i, a, lb, rb, best);
  }

  /** The last occurrence of each of the first `i` pages holds its own row. */
  ghost predicate OwnRows(pages: seq<NodeId>, i: int, a: Assigned)
    requires 0 <= i <= |pages|
  {
    forall j :: 0 <= j < i && LastBefore(pages, j, i) ==>
      pages[j] in a.entries && a.entries[pages[j]].rank.Some? && a.entries[pages[j]].rank.value.0 == j
  }

  /** Page `i` placed on row `i` becomes the last occurrence of its id;
      earlier pages keep their rows. */
  lemma OwnRowsCommitted(pages: seq<NodeId>, i: int, a: Assigned, best: int)
    requires 0 <= i < |pages| && pages[i] in a.entries
    requires OwnRows(pages, i, a)
    ensures OwnRows(pages, i + 1, SetRank(a, pages[i], (i, best)))
  {
    var a' := SetRank(a, pages[i], (i, best));
    forall j | 0 <= j < i + 1 && LastBefore(pages, j, i + 1)
      ensures pages[j] in a'.entries && a'.entries[pages[j]].rank.Some? && a'.entries[pages[j]].rank.value.0 == j
    {
      if j < i {
        assert pages[j + 1..i + 1] == pages[j + 1..i] + [pages[i]];
        assert LastBefore(pages, j, i);
      }
    }
  }

  /** The facts of the page loop as written after `i` pages: the boundaries
      still enclose column 0, only page ranks have changed, the last
      occurrence of every page holds its own row, and every page row exists
      in the grid. Unlike `PagesPlaced`, nothing keeps a page strictly inside
      the boundaries. */
  ghost predicate AsWrittenPlaced(a0: Assigned, pages: seq<NodeId>, i: int, a: Assigned, grid: LGrid, lb: int, rb: int)
    requires 0 <= i <= |pages|
  {
    && lb <= -1 && 1 <= rb
    && Framed(a0, pages, i, a)
    && OwnRows(pages, i, a)
    && (forall j :: 0 <= j < i ==> j in grid)
  }

  // -----------------------------------------------------------------------
  // The page loop as a run of steps
  // -----------------------------------------------------------------------

  /** Which boundary update the loop applies: lines 161-166 as written, or
      the corrected one that only widens. */
  datatype BoundsUpdate = AsWritten | Widening

  function UpdateBounds(u: BoundsUpdate, lb: int, rb: int, best: int): (int, int)
    requires lb <= best <= rb
  {
    match u
    case AsWritten => NextBounds(lb, rb, best)
    case Widening => WidenBounds(lb, rb, best)
  }

  /** The state of the page loop between two pages. */
  datatype PageState = PageState(a: Assigned, grid: LGrid, lb: int, rb: int)

  /** `best` is the column the scan of lines 137-159 picks on row `row` over
      `lo .. hi`: cheapest, winning every tie, and 0 whenever 0 is cheapest. */
  ghost predicate LegacyChosen(grid: LGrid, a: Assigned, row: int, refs: seq<NodeId>, lo: int, hi: int, best: int) {
    && Ranked(a, refs)
    && lo <= best <= hi
    && (forall j :: lo <= j <= hi ==>
          Le(LegacyCrossing(grid, a, (row, best), refs), LegacyCrossing(grid, a, (row, j), refs)))
    && (forall j ::
          (lo <= j <= hi && j != best && LegacyCrossing(grid, a, (row, j), refs) == LegacyCrossing(grid, a, (row, best), refs))
          ==> Prefers(best, j))
    && (Le(LegacyCrossing(grid, a, (row, 0), refs), LegacyCrossing(grid, a, (row, best), refs)) ==> best == 0)
  }

  /** The legacy scan's choice is determined by the grid, the ranks and the range. */
  lemma LegacyChosenUnique(grid: LGrid, a: Assigned, row: int, refs: seq<NodeId>, lo: int, hi: int, b1: int, b2: int)
    requires LegacyChosen(grid, a, row, refs, lo, hi, b1) && LegacyChosen(grid, a, row, refs, lo, hi, b2)
    ensures b1 == b2
  {
    if b1 != b2 {
      var c1, c2 := LegacyCrossing(grid, a, (row, b1), refs), LegacyCrossing(grid, a, (row, b2), refs);
      LeTotalPreorder(c1, c2, c1);
      assert Le(c1, c2) && Le(c2, c1);
      PrefersAsymmetric(b1, b2);
      assert false;
    }
  }

  /** Page `i` can be placed from `s`: it has an entry, and its referrers and
      the page before it are ranked. */
  ghost predicate PageReady(pages: seq<NodeId>, referrers: map<NodeId, seq<NodeId>>, i: int, s: PageState)
    requires 0 <= i < |pages|
  {
    && pages[i] in s.a.entries
    && Ranked(s.a, RefsOf(referrers, pages[i]))
    && (i > 0 ==> pages[i - 1] in s.a.entries && s.a.entries[pages[i - 1]].rank.Some?)
  }

  /** The state after page `i` goes to column `best` of row `i` (lines
      161-178): the page is ranked `[i, best]`, its row is replaced and the
      paths into it are filled, and the boundaries follow `u`. */
  function PageNext(u: BoundsUpdate, pages: seq<NodeId>, referrers: map<NodeId, seq<NodeId>>, i: int,
                    s: PageState, best: int): PageState
    requires 0 <= i < |pages| && PageReady(pages, referrers, i, s) && s.lb <= best <= s.rb
  {
    var refs := RefsOf(referrers, pages[i]);
    var a' := SetRank(s.a, pages[i], (i, best));
    assert Ranked(a', refs);
    var b := UpdateBounds(u, s.lb, s.rb, best);
    PageState(a', CommitRow(s.grid, i, best, Froms(a', pages, i, refs)), b.0, b.1)
  }

  /** Placing pages `i .. n - 1` one per row from `s`, with boundary update
      `u`, picks the columns `cols` and ends in `s'`. */
  ghost predicate PagesRun(u: BoundsUpdate, pages: seq<NodeId>, referrers: map<NodeId, seq<NodeId>>, i: int, n: int,
                           s: PageState, cols: seq<int>, s': PageState)
    requires 0 <= i <= n <= |pages|
    decreases n - i, 1
  {
    && |cols| == n - i
    && (i == n ==> s' == s)
    && (i < n ==> PageThenRun(u, pages, referrers, i, n, s, cols, s'))
  }

  /** Page `i` goes to the column the scan picks, `cols[0]`, and the rest of
      the run continues from there. */
  ghost predicate PageThenRun(u: BoundsUpdate, pages: seq<NodeId>, referrers: map<NodeId, seq<NodeId>>, i: int, n: int,
                              s: PageState, cols: seq<int>, s': PageState)
    requires 0 <= i < n <= |pages| && |cols| == n - i
    decreases n - i, 0
  {
    && PageReady(pages, referrers, i, s)
    && LegacyChosen(s.grid, s.a, i, RefsOf(referrers, pages[i]), s.lb, s.rb, cols[0])
    && PagesRun(u, pages, referrers, i + 1, n, PageNext(u, pages, referrers, i, s, cols[0]), cols[1..], s')
  }

  /** A single page is a run of one. */
  lemma PagesRunOne(u: BoundsUpdate, pages: seq<NodeId>, referrers: map<NodeId, seq<NodeId>>, n: int, s: PageState, best: int)
    requires 0 <= n < |pages|
    requires PageReady(pages, referrers, n, s)
    requires LegacyChosen(s.grid, s.a, n, RefsOf(referrers, pages[n]), s.lb, s.rb, best)
    ensures PagesRun(u, pages, referrers, n, n + 1, s, [best], PageNext(u, pages, referrers, n, s, best))
  {
    var last := PageNext(u, pages, referrers, n, s, best);
    assert PagesRun(u, pages, referrers, n + 1, n + 1, last, ([best])[1..], last);
    assert PageThenRun(u, pages, referrers, n, n + 1, s, [best], last);
  }

  /** A run of pages followed by the next page is a run. */
  lemma {:induction false} PagesRunSnoc(u: BoundsUpdate, pages: seq<NodeId>, referrers: map<NodeId, seq<NodeId>>,
                                        i: int, n: int, s: PageState, cols: seq<int>, sm: PageState, best: int)
    requires 0 <= i <= n < |pages|
    requires PagesRun(u, pages, referrers, i, n, s, cols, sm)
    requires PageReady(pages, referrers, n, sm)
    requires LegacyChosen(sm.grid, sm.a, n, RefsOf(referrers, pages[n]), sm.lb, sm.rb, best)
    ensures PagesRun(u, pages, referrers, i, n + 1, s, cols + [best], PageNext(u, pages, referrers, n, sm, best))
    decreases n - i
  {
    if i == n {
      assert cols + [best] == [best];
      PagesRunOne(u, pages, referrers, n, s, best);
    } else {
      assert PageThenRun(u, pages, referrers, i, n, s, cols, sm);
      var next := PageNext(u, pages, referrers, i, s, cols[0]);
      PagesRunSnoc(u, pages, referrers, i + 1, n, next, cols[1..], sm, best);
      SnocTail(cols, best);
      assert PageThenRun(u, pages, referrers, i, n + 1, s, cols + [best], PageNext(u, pages, referrers, n, sm, best));
    }
  }

  /** The page loop has one outcome: the columns and the final state are
      determined by the start. */
  lemma {:induction false} PagesRunUnique(u: BoundsUpdate, pages: seq<NodeId>, referrers: map<NodeId, seq<NodeId>>,
                                          i: int, n: int, s: PageState, c1: seq<int>, s1: PageState, c2: seq<int>, s2: PageState)
    requires 0 <= i <= n <= |pages|
    requires PagesRun(u, pages, referrers, i, n, s, c1, s1) && PagesRun(u, pages, referrers, i, n, s, c2, s2)
    ensures c1 == c2 && s1 == s2
    decreases n - i
  {
    if i < n {
      assert PageThenRun(u, pages, referrers, i, n, s, c1, s1) && PageThenRun(u, pages, referrers, i, n, s, c2, s2);
      LegacyChosenUnique(s.grid, s.a, i, RefsOf(referrers, pages[i]), s.lb, s.rb, c1[0], c2[0]);
      PagesRunUnique(u, pages, referrers, i + 1, n, PageNext(u, pages, referrers, i, s, c1[0]), c1[1..], s1, c2[1..], s2);
      assert c1 == [c1[0]] + c1[1..] && c2 == [c2[0]] + c2[1..];
    }
  }

  // -----------------------------------------------------------------------
  // The page loop (lines 130-179)
  // -----------------------------------------------------------------------

  /** One iteration of the page loop (lines 134-178), with the corrected
      boundary update: page `i` goes to the column the scan picks, and the
      state moves on as `PageNext` says. */
  method PlacePage(a0: Assigned, pages: seq<NodeId>, referrers: map<NodeId, seq<NodeId>>, i: int,
                   a: Assigned, grid: LGrid, lb: int, rb: int)
    returns (a': Assigned, grid': LGrid, lb': int, rb': int, best: int)
    requires ReferrersReady(a0, pages, referrers) && 0 <= i < |pages|
    requires PagesPlaced(a0, pages, i, a, grid, lb, rb)
    ensures PagesPlaced(a0, pages, i + 1, a', grid', lb', rb')
    ensures PageReady(pages, referrers, i, PageState(a, grid, lb, rb))
    ensures LegacyChosen(grid, a, i, RefsOf(referrers, pages[i]), lb, rb, best)
    ensures PageState(a', grid', lb', rb') == PageNext(Widening, pages, referrers, i, PageState(a, grid, lb, rb), best)
  {
    var page := pages[i];
    var refs := RefsOf(referrers, page);
    PageRefsRanked(a0, pages, referrers, i, a);
    best := LegacyChoose(grid, a, i, refs, lb, rb);
    var b := WidenBounds(lb, rb, best);
    lb', rb' := b.0, b.1;
    a' := SetRank(a, page, (i, best));
    assert Ranked(a', refs);
    var froms := Froms(a', pages, i, refs);
    grid' := CommitRow(grid, i, best, froms);
    PageCommitted(a0, pages, i, a, grid, lb, rb, best, froms);
  }

  /** `PlacePage`, extending the run of the pages before `i`. */
  method PlaceNextPage(a0: Assigned, pages: seq<NodeId>, referrers: map<NodeId, seq<NodeId>>, i: int,
                       a: Assigned, grid: LGrid, lb: int, rb: int, ghost cols: seq<int>)
    returns (a': Assigned, grid': LGrid, lb': int, rb': int, best: int)
    requires ReferrersReady(a0, pages, referrers) && 0 <= i < |pages|
    requires PagesPlaced(a0, pages, i, a, grid, lb, rb)
    requires PagesRun(Widening, pages, referrers, 0, i, PageState(a0, map[], -1, 1), cols, PageState(a, grid, lb, rb))
    ensures PagesPlaced(a0, pages, i + 1, a', grid', lb', rb')
    ensures PagesRun(Widening, pages, referrers, 0, i + 1, PageState(a0, map[], -1, 1), cols + [best], PageState(a', grid', lb', rb'))
  {
    a', grid', lb', rb', best := PlacePage(a0, pages, referrers, i, a, grid, lb, rb);
    PagesRunSnoc(Widening, pages, referrers, 0, i, PageState(a0, map[], -1, 1), cols, PageState(a, grid, lb, rb), best);
  }

  /** Before the first page nothing has changed. */
  lemma NoPagesPlaced(a0: Assigned, pages: seq<NodeId>)
    requires forall i :: 0 <= i < |pages| ==> pages[i] in a0.entries
    ensures PagesPlaced(a0, pages, 0, a0, map[], -1, 1)
    ensures AsWrittenPlaced(a0, pages, 0, a0, map[], -1, 1)
  {
    assert pages[..0] == [];
  }

  /** Places pages `i ..` with the corrected boundary update, continuing
      the run from the start of the loop. */
  method PlacePagesFrom(a0: Assigned, pages: seq<NodeId>, referrers: map<NodeId, seq<NodeId>>, i: int,
                        a: Assigned, grid: LGrid, lb: int, rb: int, cols: seq<int>)
    returns (a': Assigned, grid': LGrid, lb': int, rb': int, cols': seq<int>)
    requires ReferrersReady(a0, pages, referrers) && 0 <= i <= |pages|
    requires PagesPlaced(a0, pages, i, a, grid, lb, rb)
    requires PagesRun(Widening, pages, referrers, 0, i, PageState(a0, map[], -1, 1), cols, PageState(a, grid, lb, rb))
    ensures PagesPlaced(a0, pages, |pages|, a', grid', lb', rb')
    ensures PagesRun(Widening, pages, referrers, 0, |pages|, PageState(a0, map[], -1, 1), cols', PageState(a', grid', lb', rb'))
    decreases |pages| - i
  {
    if i == |pages| {
      a', grid', lb', rb', cols' := a, grid, lb, rb, cols;
    } else {
      var a1, grid1, lb1, rb1, best := PlaceNextPage(a0, pages, referrers, i, a, grid, lb, rb, cols);
      a', grid', lb', rb', cols' := PlacePagesFrom(a0, pages, referrers, i + 1, a1, grid1, lb1, rb1, cols + [best]);
    }
  }

  /** The page loop of `layout` (lines 130-179) with the corrected boundary
      update: page `i` goes on row `i`, at column `cols[i]`, the column the
      scan picks. On return both boundaries sit strictly outside every page's
      column, and every page's rank is on the row of its last occurrence. */
  method PlacePages(a0: Assigned, pages: seq<NodeId>, referrers: map<NodeId, seq<NodeId>>)
    returns (a: Assigned, grid: LGrid, nextLB: int, nextRB: int, cols: seq<int>)
    requires ReferrersReady(a0, pages, referrers)
    ensures PagesPlaced(a0, pages, |pages|, a, grid, nextLB, nextRB)
    ensures PagesRun(Widening, pages, referrers, 0, |pages|, PageState(a0, map[], -1, 1), cols, PageState(a, grid, nextLB, nextRB))
  {
    NoPagesPlaced(a0, pages);
    a, grid, nextLB, nextRB, cols := PlacePagesFrom(a0, pages, referrers, 0, a0, map[], -1, 1, []);
  }


  /** One iteration of the page loop exactly as written (lines 134-178):
      the boundary update is `NextBounds`. The boundaries keep enclosing
      column 0 and every page keeps its own row, but a page may end on or
      outside a boundary (`NextBoundsMovesInward`). */
  method PlacePageAsWritten(a0: Assigned, pages: seq<NodeId>, referrers: map<NodeId, seq<NodeId>>, i: int,
                            a: Assigned, grid: LGrid, lb: int, rb: int)
    returns (a': Assigned, grid': LGrid, lb': int, rb': int, best: int)
    requires ReferrersReady(a0, pages, referrers) && 0 <= i < |pages|
    requires AsWrittenPlaced(a0, pages, i, a, grid, lb, rb)
    ensures AsWrittenPlaced(a0, pages, i + 1, a', grid', lb', rb')
    ensures PageReady(pages, referrers, i, PageState(a, grid, lb, rb))
    ensures LegacyChosen(grid, a, i, RefsOf(referrers, pages[i]), lb, rb, best)
    ensures PageState(a', grid', lb', rb') == PageNext(AsWritten, pages, referrers, i, PageState(a, grid, lb, rb), best)
  {
    var page := pages[i];
    var refs := RefsOf(referrers, page);
    PageRefsRanked(a0, pages, referrers, i, a);
    best := LegacyChoose(grid, a, i, refs, lb, rb);
    var b := NextBounds(lb, rb, best);
    lb', rb' := b.0, b.1;
    a' := SetRank(a, page, (i, best));
    assert Ranked(a', refs);
    var froms := Froms(a', pages, i, refs);
    grid' := CommitRow(grid, i, best, froms);
    FramedCommitted(a0, pages, i, a, best);
    OwnRowsCommitted(pages, i, a, best);
  }

  /** `PlacePageAsWritten`, extending the run of the pages before `i`. */
  method PlaceNextPageAsWritten(a0: Assigned, pages: seq<NodeId>, referrers: map<NodeId, seq<NodeId>>, i: int,
                                a: Assigned, grid: LGrid, lb: int, rb: int, ghost cols: seq<int>)
    returns (a': Assigned, grid': LGrid, lb': int, rb': int, best: int)
    requires ReferrersReady(a0, pages, referrers) && 0 <= i < |pages|
    requires AsWrittenPlaced(a0, pages, i, a, grid, lb, rb)
    requires PagesRun(AsWritten, pages, referrers, 0, i, PageState(a0, map[], -1, 1), cols, PageState(a, grid, lb, rb))
    ensures AsWrittenPlaced(a0, pages, i + 1, a', grid', lb', rb')
    ensures PagesRun(AsWritten, pages, referrers, 0, i + 1, PageState(a0, map[], -1, 1), cols + [best], PageState(a', grid', lb', rb'))
  {
    a', grid', lb', rb', best := PlacePageAsWritten(a0, pages, referrers, i, a, grid, lb, rb);
    PagesRunSnoc(AsWritten, pages, referrers, 0, i, PageState(a0, map[], -1, 1), cols, PageState(a, grid, lb, rb), best);
  }

  /** Places pages `i ..` exactly as written, continuing the run from the
      start of the loop. */
  method PlacePagesFromAsWritten(a0: Assigned, pages: seq<NodeId>, referrers: map<NodeId, seq<NodeId>>, i: int,
                                 a: Assigned, grid: LGrid, lb: int, rb: int, cols: seq<int>)
    returns (a': Assigned, grid': LGrid, lb': int, rb': int, cols': seq<int>)
    requires ReferrersReady(a0, pages, referrers) && 0 <= i <= |pages|
    requires AsWrittenPlaced(a0, pages, i, a, grid, lb, rb)
    requires PagesRun(AsWritten, pages, referrers, 0, i, PageState(a0, map[], -1, 1), cols, PageState(a, grid, lb, rb))
    ensures AsWrittenPlaced(a0, pages, |pages|, a', grid', lb', rb')
    ensures PagesRun(AsWritten, pages, referrers, 0, |pages|, PageState(a0, map[], -1, 1), cols', PageState(a', grid', lb', rb'))
    decreases |pages| - i
  {
    if i == |pages| {
      a', grid', lb', rb', cols' := a, grid, lb, rb, cols;
    } else {
      var a1, grid1, lb1, rb1, best := PlaceNextPageAsWritten(a0, pages, referrers, i, a, grid, lb, rb, cols);
      a', grid', lb', rb', cols' := PlacePagesFromAsWritten(a0, pages, referrers, i + 1, a1, grid1, lb1, rb1, cols + [best]);
    }
  }

  /** The page loop of `layout` (lines 130-179) exactly as written: page `i`
      goes on row `i`, at column `cols[i]`, the column the scan picks, and
      the boundaries still enclose column 0 on return. */
  method PlacePagesAsWritten(a0: Assigned, pages: seq<NodeId>, referrers: map<NodeId, seq<NodeId>>)
    returns (a: Assigned, grid: LGrid, nextLB: int, nextRB: int, cols: seq<int>)
    requires ReferrersReady(a0, pages, referrers)
    ensures AsWrittenPlaced(a0, pages, |pages|, a, grid, nextLB, nextRB)
    ensures PagesRun(AsWritten, pages, referrers, 0, |pages|, PageState(a0, map[], -1, 1), cols, PageState(a, grid, nextLB, nextRB))
  {
    NoPagesPlaced(a0, pages);
    a, grid, nextLB, nextRB, cols := PlacePagesFromAsWritten(a0, pages, referrers, 0, a0, map[], -1, 1, []);
  }

  // -----------------------------------------------------------------------
  // The screen-out sink (lines 181-215)
  // -----------------------------------------------------------------------

  /** `pageIndexes.indexOf(p)`: the first index of `p`, or -1. */
  function IndexOf(pages: seq<NodeId>, p: NodeId): (r: int)
    ensures -1 <= r < |pages|
    ensures r == -1 <==> p !in pages
    ensures r >= 0 ==> pages[r] == p && p !in pages[..r]
  {
    if pages == [] then -1
    else if pages[0] == p then 0
    else
      var k := IndexOf(pages[1..], p);
      if k == -1 then -1
      else
        assert pages[..k + 1] == [pages[0]] + pages[1..][..k];
        k + 1
  }

  /** `max(referrers.map(p => pageIndexes.indexOf(p)))`: the largest page
      index among the referrers, -1 when none of them is a page. */
  function MaxIndex(pages: seq<NodeId>, refs: seq<NodeId>): (r: int)
    requires refs != []
    ensures exists k :: 0 <= k < |refs| && r == IndexOf(pages, refs[k])
    ensures forall k :: 0 <= k < |refs| ==> IndexOf(pages, refs[k]) <= r
    decreases |refs|
  {
    if |refs| == 1 then IndexOf(pages, refs[0])
    else
      var m := MaxIndex(pages, refs[1..]);
      assert forall k :: 1 <= k < |refs| ==> refs[k] == refs[1..][k - 1];
      Max(IndexOf(pages, refs[0]), m)
  }

  /** The screen-out goes on row 0 exactly when none of its referrers is a
      page, and otherwise right below the last page that refers to it. */
  lemma ScreenOutRow(pages: seq<NodeId>, refs: seq<NodeId>)
    requires refs != []
    ensures MaxIndex(pages, refs) + 1 == 0 <==> forall k :: 0 <= k < |refs| ==> refs[k] !in pages
    ensures MaxIndex(pages, refs) >= 0 ==> pages[MaxIndex(pages, refs)] in refs
  {
    var m := MaxIndex(pages, refs);
    var k :| 0 <= k < |refs| && m == IndexOf(pages, refs[k]);
    if m >= 0 {
      assert pages[m] == refs[k];
    }
  }

  lemma HasMember(s: set<int>)
    requires s != {}
    ensures exists x :: x in s
  {
    assert (forall x :: x !in s) ==> s == {};
  }

  /** `min(r)` of a non-empty set of columns. */
  method SetMin(s: set<int>) returns (m: int)
    requires s != {}
    ensures m in s && forall x :: x in s ==> m <= x
  {
    HasMember(s);
    m :| m in s;
    var rest := s - {m};
    while rest != {}
      invariant m in s && rest <= s
      invariant forall x :: x in s && x !in rest ==> m <= x
      decreases |rest|
    {
      HasMember(rest);
      var x :| x in rest;
      if x < m {
        m := x;
      }
      rest := rest - {x};
    }
  }

  /** `max(r)` of a non-empty set of columns. */
  method SetMax(s: set<int>) returns (m: int)
    requires s != {}
    ensures m in s && forall x :: x in s ==> x <= m
  {
    HasMember(s);
    m :| m in s;
    var rest := s - {m};
    while rest != {}
      invariant m in s && rest <= s
      invariant forall x :: x in s && x !in rest ==> x <= m
      decreases |rest|
    {
      HasMember(rest);
      var x :| x in rest;
      if x > m {
        m := x;
      }
      rest := rest - {x};
    }
  }

  /** The scans of lines 193-208 start at `min(row) - 1` counting up and at
      `max(row) + 1` counting down, and stop only on reaching 0: the row
      needs a column at most 1 and one at least -1. */
  ghost predicate ScanReachesZero(row: set<int>) {
    && (exists c :: c in row && c <= 1)
    && (exists c :: c in row && -1 <= c)
  }

  /** The placement of the screen-out sink (lines 181-215): it goes on the
      row below its last referring page, at the cheapest column one beyond
      the columns already marked on that row, with the page loop's
      tie-break. Only its rank changes; the grid is not updated. */
  method PlaceScreenOut(a: Assigned, grid: LGrid, pages: seq<NodeId>, refs: seq<NodeId>)
    returns (a': Assigned, index: int, lo: int, hi: int, best: int)
    requires refs != [] && Ranked(a, refs) && ScreenOut in a.entries
    requires MaxIndex(pages, refs) + 1 in grid && ScanReachesZero(grid[MaxIndex(pages, refs) + 1])
    ensures index == MaxIndex(pages, refs) + 1
    ensures lo + 1 in grid[index] && hi - 1 in grid[index]
    ensures forall c :: c in grid[index] ==> lo + 1 <= c <= hi - 1
    ensures lo <= best <= hi
    ensures forall j :: lo <= j <= hi ==>
      Le(LegacyCrossing(grid, a, (index, best), refs), LegacyCrossing(grid, a, (index, j), refs))
    ensures forall j ::
      (lo <= j <= hi && j != best && LegacyCrossing(grid, a, (index, j), refs) == LegacyCrossing(grid, a, (index, best), refs))
      ==> Prefers(best, j)
    ensures a'.names == a.names && a'.entries.Keys == a.entries.Keys
    ensures a'.entries[ScreenOut] == a.entries[ScreenOut].(rank := Some((index, best)))
    ensures forall k :: k in a.entries && k != ScreenOut ==> a'.entries[k] == a.entries[k]
  {
    index := MaxIndex(pages, refs) + 1;
    var row := grid[index];
    var least := SetMin(row);
    var most := SetMax(row);
    lo, hi := least - 1, most + 1;
    best := LegacyChoose(grid, a, index, refs, lo, hi);
    a' := SetRank(a, ScreenOut, (index, best));
  }

  // -----------------------------------------------------------------------
  // rowDim, colDim and y (lines 217-247)
  // -----------------------------------------------------------------------

  /** `(row, height)` of every entry of `ids`, in order. */
  function HeightEntries(a: Assigned, ids: seq<NodeId>): (e: seq<(int, real)>)
    requires Ranked(a, ids)
    ensures |e| == |ids|
    ensures forall k :: 0 <= k < |ids| ==> e[k] == (a.entries[ids[k]].rank.value.0, a.entries[ids[k]].height)
  {
    if ids == [] then [] else [(a.entries[ids[0]].rank.value.0, a.entries[ids[0]].height)] + HeightEntries(a, ids[1..])
  }

  /** `(column, width)` of every entry of `ids`, in order. */
  function WidthEntries(a: Assigned, ids: seq<NodeId>): (e: seq<(int, real)>)
    requires Ranked(a, ids)
    ensures |e| == |ids|
    ensures forall k :: 0 <= k < |ids| ==> e[k] == (a.entries[ids[k]].rank.value.1, a.entries[ids[k]].width)
  {
    if ids == [] then [] else [(a.entries[ids[0]].rank.value.1, a.entries[ids[0]].width)] + WidthEntries(a, ids[1..])
  }

  /** `rowDim`: the height of every row. */
  function LegacyRowDims(a: Assigned): map<int, real>
    requires Ranked(a, a.names)
  {
    MaxByKey(HeightEntries(a, a.names))
  }

  /** `colDim`: the width of every column. */
  function LegacyColDims(a: Assigned): map<int, real>
    requires Ranked(a, a.names)
  {
    MaxByKey(WidthEntries(a, a.names))
  }

  function EntryRow(a: Assigned, k: NodeId): int
    requires k in a.entries && a.entries[k].rank.Some?
  {
    a.entries[k].rank.value.0
  }

  function EntryCol(a: Assigned, k: NodeId): int
    requires k in a.entries && a.entries[k].rank.Some?
  {
    a.entries[k].rank.value.1
  }

  /** Entry `k` fits its row and its column. */
  lemma LegacyEntryFits(a: Assigned, k: NodeId)
    requires ValidAssigned(a) && Ranked(a, a.names) && k in a.entries
    ensures a.entries[k].rank.Some?
    ensures EntryRow(a, k) in LegacyRowDims(a) && a.entries[k].height <= LegacyRowDims(a)[EntryRow(a, k)]
    ensures EntryCol(a, k) in LegacyColDims(a) && a.entries[k].width <= LegacyColDims(a)[EntryCol(a, k)]
  {
    var i :| 0 <= i < |a.names| && a.names[i] == k;
    assert HeightEntries(a, a.names)[i] == (EntryRow(a, k), a.entries[k].height);
    assert WidthEntries(a, a.names)[i] == (EntryCol(a, k), a.entries[k].width);
  }

  /** Every entry fits its row and its column. */
  lemma LegacyDimsFit(a: Assigned)
    requires ValidAssigned(a) && Ranked(a, a.names)
    ensures forall k :: k in a.entries ==> a.entries[k].rank.Some?
    ensures forall k :: k in a.entries ==>
      EntryRow(a, k) in LegacyRowDims(a) && a.entries[k].height <= LegacyRowDims(a)[EntryRow(a, k)]
    ensures forall k :: k in a.entries ==>
      EntryCol(a, k) in LegacyColDims(a) && a.entries[k].width <= LegacyColDims(a)[EntryCol(a, k)]
  {
    forall k | k in a.entries
      ensures a.entries[k].rank.Some?
      ensures EntryRow(a, k) in LegacyRowDims(a) && a.entries[k].height <= LegacyRowDims(a)[EntryRow(a, k)]
      ensures EntryCol(a, k) in LegacyColDims(a) && a.entries[k].width <= LegacyColDims(a)[EntryCol(a, k)]
    {
      LegacyEntryFits(a, k);
    }
  }

  /** No row is taller, and no column wider, than its largest entry. */
  lemma LegacyDimsAttained(a: Assigned)
    requires ValidAssigned(a) && Ranked(a, a.names)
    ensures forall r :: r in LegacyRowDims(a) ==>
      exists k :: k in a.entries && a.entries[k].rank.Some? && EntryRow(a, k) == r && a.entries[k].height == LegacyRowDims(a)[r]
    ensures forall c :: c in LegacyColDims(a) ==>
      exists k :: k in a.entries && a.entries[k].rank.Some? && EntryCol(a, k) == c && a.entries[k].width == LegacyColDims(a)[c]
  {
    var h := HeightEntries(a, a.names);
    var w := WidthEntries(a, a.names);
    forall r | r in LegacyRowDims(a)
      ensures exists k :: k in a.entries && a.entries[k].rank.Some? && EntryRow(a, k) == r && a.entries[k].height == LegacyRowDims(a)[r]
    {
      var i :| 0 <= i < |h| && h[i].0 == r && h[i].1 == LegacyRowDims(a)[r];
      assert a.names[i] in a.entries;
    }
    forall c | c in LegacyColDims(a)
      ensures exists k :: k in a.entries && a.entries[k].rank.Some? && EntryCol(a, k) == c && a.entries[k].width == LegacyColDims(a)[c]
    {
      var i :| 0 <= i < |w| && w[i].0 == c && w[i].1 == LegacyColDims(a)[c];
      assert a.names[i] in a.entries;
    }
  }

  ghost predicate LegacyRowHeld(a: Assigned, r: int) {
    exists k :: k in a.entries && a.entries[k].rank.Some? && EntryRow(a, k) == r
  }

  /** No row between 0 and an entry's row is empty: otherwise `rowDim[i]`
      is undefined and the source's `y` is `NaN`. */
  ghost predicate LegacyRowsFilled(a: Assigned) {
    forall k, r {:trigger LegacyRowHeld(a, r), a.entries[k]} ::
      k in a.entries && a.entries[k].rank.Some? && 0 <= r < EntryRow(a, k) ==> LegacyRowHeld(a, r)
  }

  /** Every row from 0 up to an entry's row has a height. */
  lemma LegacyRowsDefined(a: Assigned, k: NodeId)
    requires ValidAssigned(a) && Ranked(a, a.names) && LegacyRowsFilled(a) && k in a.entries
    ensures a.entries[k].rank.Some?
    ensures EntryRow(a, k) in LegacyRowDims(a) && a.entries[k].height <= LegacyRowDims(a)[EntryRow(a, k)]
    ensures forall r :: 0 <= r <= EntryRow(a, k) ==> r in LegacyRowDims(a)
  {
    LegacyEntryFits(a, k);
    forall r | 0 <= r <= EntryRow(a, k)
      ensures r in LegacyRowDims(a)
    {
      if r < EntryRow(a, k) {
        assert LegacyRowHeld(a, r);
        var k' :| k' in a.entries && a.entries[k'].rank.Some? && EntryRow(a, k') == r;
        LegacyEntryFits(a, k');
      }
    }
  }

  /** The `y` of a node of height `h` on row `row`: the row starts after the
      heights of rows `0 .. row - 1`, each followed by `rankSep`, and the node
      is centred in it. A row above 0 has no rows before it. */
  function BandY(dims: map<int, real>, rankSep: real, row: int, h: real): (y: real)
    requires row in dims && forall i :: 0 <= i < row ==> i in dims
    ensures row >= 0 && h <= dims[row] ==> InBand(dims, rankSep, 0.0, 0, row, y, h)
    ensures row < 0 ==> y - 0.0 == dims[row] - (y + h)
  {
    if row >= 0 then
      assert forall i :: 0 <= i <= row ==> i in dims;
      0.0 + Offset(dims, rankSep, 0, row) + (dims[row] - h) / 2.0
    else (dims[row] - h) / 2.0
  }

  /** `props.y` (lines 236-244): the entry is centred in its row. */
  function LegacyY(a: Assigned, rankSep: real, k: NodeId): (y: real)
    requires ValidAssigned(a) && Ranked(a, a.names) && LegacyRowsFilled(a) && k in a.entries
    ensures a.entries[k].rank.Some?
    ensures EntryRow(a, k) >= 0 ==>
      InBand(LegacyRowDims(a), rankSep, 0.0, 0, EntryRow(a, k), y, a.entries[k].height)
    ensures EntryRow(a, k) < 0 ==>
      EntryRow(a, k) in LegacyRowDims(a) && y - 0.0 == LegacyRowDims(a)[EntryRow(a, k)] - (y + a.entries[k].height)
  {
    LegacyRowsDefined(a, k);
    BandY(LegacyRowDims(a), rankSep, EntryRow(a, k), a.entries[k].height)
  }

  /** The `y` of every entry. */
  function LegacyYs(a: Assigned, rankSep: real): (r: map<NodeId, real>)
    requires ValidAssigned(a) && Ranked(a, a.names) && LegacyRowsFilled(a)
    ensures r.Keys == a.entries.Keys
    ensures forall k :: k in r ==> a.entries[k].rank.Some? && (EntryRow(a, k) >= 0 ==>
      InBand(LegacyRowDims(a), rankSep, 0.0, 0, EntryRow(a, k), r[k], a.entries[k].height))
    ensures forall k :: k in r && EntryRow(a, k) < 0 ==>
      EntryRow(a, k) in LegacyRowDims(a) && r[k] - 0.0 == LegacyRowDims(a)[EntryRow(a, k)] - (r[k] + a.entries[k].height)
  {
    map k | k in a.entries :: LegacyY(a, rankSep, k)
  }

  /** Entries on different rows do not overlap vertically: the upper one
      ends at least `rankSep` above the lower one. */
  lemma LegacyRowsApart(a: Assigned, rankSep: real, p: NodeId, q: NodeId)
    requires ValidAssigned(a) && Ranked(a, a.names) && LegacyRowsFilled(a)
    requires rankSep >= 0.0 && forall k :: k in a.entries ==> a.entries[k].height >= 0.0
    requires p in a.entries && q in a.entries
    requires a.entries[p].rank.Some? && a.entries[q].rank.Some? && 0 <= EntryRow(a, p) < EntryRow(a, q)
    ensures var ys := LegacyYs(a, rankSep);
      ys[p] + a.entries[p].height + rankSep <= ys[q]
  {
    var ys := LegacyYs(a, rankSep);
    LegacyDimsAttained(a);
    InBandsApart(LegacyRowDims(a), rankSep, 0.0, 0,
                 EntryRow(a, p), ys[p], a.entries[p].height, EntryRow(a, q), ys[q], a.entries[q].height);
  }
}
