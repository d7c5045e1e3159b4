# Grid layout of directed graphs — a Dafny model

The library lays out a directed graph on a grid of rows (ranks) and columns,
the way a page-flow diagram is drawn. There are two implementations.

`index.js` holds the `Graph` class and its sparse occupancy `Grid`:

- `assignRanks` splits the nodes into levels. Level 0 holds the nodes
  without referrers. Each later level holds the nodes whose referrers have
  all been ranked.
- `layout` places the nodes level by level. Every column from `grid.lb - 1`
  to `grid.rb + 1` is scored with `crossing`, which counts how many path
  cells a referrer edge would cross and treats a cell holding a node as
  blocking. The lowest score wins. Ties go to the columns scanned last, and
  column 0 wins every tie. The node is then committed to the grid, and the
  paths from its referrers are filled in.
- `calculatePosition` turns each (row, column) into coordinates. Every row
  and column becomes a band as large as its largest node, and each node is
  centred in its band.

`legacy.js` is the older page-flow version of the same algorithm:

- The grid is a map from a row to its set of columns.
- Each page gets row `i`, where `i` is its position in the page list.
- Two boundaries, `nextLeftBoundary` and `nextRightBoundary`, limit the
  column scan.
- A special `screen-out` node is placed below its deepest referrer.
- Only the y coordinate is computed soundly.

The model is made of pure functions on immutable datatypes, plus methods for
the scanning loops. The inner placement loop of `layout` and the legacy page
loop are written as tail recursion (`Layout.PlaceRest`,
`Legacy.PlacePagesFrom`). Each placement method returns the columns it
picked, and a ghost run relation ties the result to them. The relation is
`Layout.LevelsReplayed` for `layout` and `Legacy.PagesRun` for the legacy
loop. It says that each node got the column the scan picks on the grid left
by the nodes before it, and that the final state is what committing them in
order gives. Its modules are:

| module | contents |
|---|---|
| `Base` | shared types and `setDefault` |
| `Paths` | the fill path and the crossing path of an edge, and what crossing them costs |
| `OccupancyGrid` | the `Grid` class |
| `Graph` | the graph and its mutators |
| `Ranks` | `assignRanks` |
| `ColumnScan` | the three-part column scan |
| `Layout` | the placement loop of `layout` |
| `Coords` | the band arithmetic |
| `Position` | `calculatePosition` |
| `Engine` | `layout` as a whole |
| `Legacy` | `legacy.js` |

Crossing costs are `Finite(n)` or `Blocked`, where `Blocked` stands for the
source's `Infinity`. Coordinates are exact reals. The `screen-out` page is
the node id `Sink`.

## Model

| member | source | states |
|---|---|---|
| Base.SetDefault | index.js:4-11 | The returned value is the one stored under the key afterwards. An existing key keeps its value and the map is unchanged. A new key gets the default. No other key is added, removed or changed. |
| OccupancyGrid.Add | index.js:21-29 | The marker is stored at the position. Every other cell keeps its content. The column bounds only widen, to the min and max of the old bounds and the new column. |
| OccupancyGrid.Fill | index.js:40-65 | The new cells are exactly the cells on the path's vertical leg (the target column, at every row from the target row to the source row, both included) or its horizontal leg (the source row, at every column from the target column to the source column, both included). New cells are passages. Existing cells and the bounds are untouched. |
| OccupancyGrid.FillIdempotent | index.js:40-65 | Filling the same path twice gives the same grid as filling it once. |
| OccupancyGrid.FillSelf | index.js:40-65 | Filling a path from a cell to itself leaves the grid unchanged. |
| Graph.Register | index.js:155-157 | An unknown id is appended to the insertion order with no referrers. A known id leaves the graph unchanged. Registration keeps the graph well formed. |
| Graph.AddNode | index.js:140-144 | The node is stored with the given size. A re-added node keeps its position. Other nodes are untouched. The id is registered in the referrer map and the graph stays well formed. |
| Graph.AddEdge | index.js:155-157 | The source becomes a referrer of the target. A repeated edge changes nothing. A new one is appended after the earlier referrers, as the source's `Set` keeps insertion order. Other nodes' referrers and all node data are untouched. |
| Graph.SetPos | index.js:146-149 | Only the position of the one node changes. Its size, the other nodes and the referrer map are kept. |
| Ranks.Select | index.js:123-128 | Filtering keeps exactly the keys in the kept set and stays duplicate-free. It shrinks strictly when some key is dropped. |
| Ranks.PeelLevels | index.js:119-138 | Every level is non-empty. Levels hold only registered keys, and no key appears in two levels. |
| Ranks.PeelOrder | index.js:119-138 | Each level is duplicate-free and lists its keys in registration order. |
| Ranks.PeelReferrersEarlier | index.js:119-138 | Every referrer of a ranked node is ranked in a strictly earlier level. |
| Ranks.PeelTight | index.js:119-138 | Level 0 holds only nodes without referrers. A node in level i > 0 has a referrer in level i - 1, so a node's level is exactly one more than its deepest referrer's. |
| Ranks.PeelRootsFirst | index.js:126-130 | A node without referrers is ranked in level 0. |
| Ranks.PeelComplete | index.js:119-138 | When some height function decreases along every edge (the graph is acyclic), every node is ranked. |
| Ranks.PeelSkipsCycle | index.js:131-137 | Nodes on a cycle are in no level, and no error is raised. |
| Ranks.PeelSkipsDownstream | index.js:131-137 | A node that has an unranked referrer is itself unranked. |
| Paths.Span | legacy.js:10-18 | The inclusive range between the two ends, starting at the first end, in either direction. |
| Paths.FillCells | index.js:40-65 | The cells listed are exactly those on the fill path. A path from a cell to itself lists none. |
| Paths.CrossCells | index.js:201-254 | The cells listed are exactly the crossing path, without duplicates. That is the candidate's column from the candidate row toward the referrer's row, that row excluded, plus the referrer's row from just past its column through the candidate column. |
| Paths.CountCellsSpec | index.js:201-254 | Counting cells is `Blocked` iff some listed cell holds a node. Otherwise it is the number of listed passage cells. |
| Paths.PathCostSpec | index.js:201-254 | One referrer's cost is `Blocked` iff a node lies on its crossing path. Otherwise it is the number of passages on that path. |
| Paths.TotalCostSpec | index.js:201-254 | The summed cost is `Blocked` iff some referrer's path is blocked. Otherwise it is the sum of the per-referrer passage counts. |
| Paths.OccupiedCandidateBlocks | index.js:201-254 | A candidate cell already holding a node gets a `Blocked` score whenever the node has a referrer placed at a cell other than the candidate. |
| Paths.LeTotalPreorder | index.js:88 | The cost order used by `c <= minCrossing` is reflexive, total, transitive and antisymmetric, with `Infinity` above every count and below nothing else. |
| Paths.TotalCost | index.js:201-254 | A node without referrers scores zero. |
| ColumnScan.ScanColumns | index.js:84-105 | The chosen column lies in the scanned range and has a minimal score. On a tie, the column scanned later wins: 0 beats every column, a right column beats every left one, and on either side the column nearer 0 wins. Column 0 wins whenever its score is minimal. |
| Layout.CrossingWithoutReferrers | index.js:201-254 | A node without referrers scores zero at every cell. |
| Layout.FillAll | index.js:110-112 | Filling all referrer paths adds exactly the cells on some referrer's fill path, as passages, and keeps the bounds. |
| Layout.ChooseColumn | index.js:84-105 | The column scan of `layout`: the result is in `grid.lb - 1 .. grid.rb + 1`, optimal for `crossing`, and respects the tie-break order. |
| Layout.Commit | index.js:107-112 | Placing a node records its position, marks the cell as a node, widens the bounds to include the column, and adds exactly the referrers' fill paths. The node's referrers are all positioned. |
| Layout.AssignRanksShape | index.js:119-138 | The ranking of a well-formed graph has non-empty, disjoint, ordered levels, with referrers earlier and level 0 free of referrers. |
| Layout.FirstLevelHasNoReferrers | index.js:126-130 | A node in level 0 has no referrers in the graph. |
| Layout.ColumnChosenUnique | index.js:84-105 | At most one column is the scan's choice: cheapest over `grid.lb - 1 .. grid.rb + 1`, winning every tie, and 0 whenever 0 is cheapest. The choice is a function of the graph, the grid and the row. |
| Layout.ReplayedUnique | index.js:83-113 | A level has one outcome: two runs over the same nodes from the same graph and grid pick the same columns and end in the same graph and grid. |
| Layout.LevelsReplayedUnique | index.js:81-114 | The whole placement has one outcome: the columns and the final graph and grid are determined by the graph and its levels. |
| Layout.PlaceNode | index.js:83-113 | The node goes to the column the scan picks (cheapest over `grid.lb - 1 .. grid.rb + 1`, winning every tie, 0 whenever 0 is cheapest). The new graph and grid are exactly those of committing it there. The level invariant is kept: earlier nodes stay placed, the new node sits on row i, and the bounds cover every used column. |
| Layout.PlaceRest | index.js:83-113 | Placing the rest of a level extends the run: each node gets the column the scan picks on the grid left by the nodes before it. The level invariant holds at the end. |
| Layout.PlaceLevel | index.js:81-114 | Each node of level i, in order, gets the column the scan picks on the grid left by the nodes before it, and is committed there. The returned columns, graph and grid are exactly that run's. After level i, every node of levels 0..i is on its own level's row. Node sizes and the referrer map are unchanged. |
| Layout.PlaceAll | index.js:81-114 | Starting from the empty grid, the levels are placed in order on rows 0, 1, ..., each node at the column the scan picks at its turn. The returned columns, graph and grid are exactly that run's. Every ranked node is on the row of its level, and the grid bounds cover every used column. |
| Coords.WithDefaults | index.js:76 | Given options win. Missing ones default to rankSep 100, nodeSep 30 and margins 0. |
| Coords.MaxByKey | index.js:168-182 | Each row (column) dimension is at least every node's height (width) in it, and is attained by some node. |
| Coords.Center | index.js:196-197 | The node is centred in its band: the gap before it equals the gap after it, and it lies inside the band when it fits. |
| Coords.BandsSeparate | index.js:188-197 | Nodes centred in bands i < j are at least the separation apart. |
| Coords.InBandsApart | index.js:188-197 | Two nodes inside bands i < j are at least the separation apart. |
| Position.NodeFits | index.js:168-182 | Every positioned node fits the height of its row and the width of its column. |
| Position.RowDimsFit | index.js:168-182 | Every node is no taller than its row's dimension. |
| Position.RowDimsAttained | index.js:168-182 | Every row dimension is the height of some node on that row. |
| Position.ColDimsFit | index.js:168-182 | Every node is no wider than its column's dimension. |
| Position.ColDimsAttained | index.js:168-182 | Every column dimension is the width of some node in that column. |
| Position.NodeY | index.js:186-190 | The y coordinate lies inside the node's row band, starting at `marginY`, and is vertically centred in it. |
| Position.NodeX | index.js:186-196 | The x coordinate lies inside the node's column band, counting from `grid.lb` after `marginX`, and is centred in it. |
| Position.CalculatePosition | index.js:164-199 | Every node gets a point that is centred inside its row and column bands. |
| Position.RowsApart | index.js:184-198 | A node on an upper row ends at least `rankSep` above any node on a lower row. |
| Position.ColumnsApart | index.js:184-198 | A node in a left column ends at least `nodeSep` before any node in a right column. |
| Position.CentresAligned | index.js:184-198 | Nodes on one row share a centre line, and so do nodes in one column. |
| Engine.NodesPlaced | index.js:75-117 | After the placement loop, each node of the graph is placed on the row of its level. |
| Engine.LayoutGraph | index.js:75-117 | On an acyclic graph, every node is placed on the row of its rank, at the column the scan picks at its turn, and the grid is the one those commits build. Rows fill from 0, columns fill from `grid.lb`, and every node gets a centred point. |
| Legacy.FillPath | legacy.js:6-31 | The columns added on each row are exactly the cells of the fill path, and a row is created exactly when the path touches it. Existing entries stay. |
| Legacy.FillPathIdempotent | legacy.js:6-31 | Filling the same path twice equals filling it once. |
| Legacy.FillPaths | legacy.js:171-173 | Filling every referrer path adds exactly the cells on some referrer's fill path. |
| Legacy.RankAssignedIn | legacy.js:41-48 | True iff some node's rank equals the position. |
| Legacy.IsRankAssignedSpec | legacy.js:41-48 | On a well-formed assignment, a position is assigned iff some node holds that rank. |
| Legacy.LegacyCrossingSpec | legacy.js:50-100 | The legacy crossing is `Blocked` iff some referrer's crossing path passes a cell that is both set in the grid and ranked. A page without referrers scores zero. |
| Legacy.LegacyChoose | legacy.js:137-159 | The chosen column is in the scanned range, optimal for the legacy crossing, and respects the tie-break order with column 0 preferred. |
| Legacy.SetRank | legacy.js:168 | Only the page's rank changes. |
| Legacy.CommitRow | legacy.js:169-178 | After the commit, the page's row holds its column, plus exactly the cells of the referrer fill paths and of the path from the previous page. |
| Legacy.NextBounds | legacy.js:161-166 | As written, the new left boundary is the old one or `bestCol - 1`, and the new right boundary is the old one or `bestCol + 1`. |
| Legacy.NextBoundsMovesInward | legacy.js:161-166 | As written, a page placed left of 0 but strictly inside the left boundary moves that boundary inward. |
| Legacy.WidenBounds | legacy.js:161-166 | The corrected update: the boundaries only widen and end up strictly around the chosen column. |
| Legacy.RanksCommitted | legacy.js:161-178 | After page i is committed, pages 0..i are ranked on their own rows, strictly inside the boundaries, and other nodes are untouched. |
| Legacy.PageCommitted | legacy.js:168-178 | The per-page invariant carries over to page i + 1, with the row of every placed page present in the grid. |
| Legacy.LegacyChosenUnique | legacy.js:137-159 | At most one column is the legacy scan's choice over the boundaries: cheapest, winning every tie, and 0 whenever 0 is cheapest. |
| Legacy.PagesRunUnique | legacy.js:130-179 | The page loop has one outcome: two runs from the same state pick the same columns and end in the same ranks, grid and boundaries. |
| Legacy.PlacePage | legacy.js:133-178 | Page i goes to the column the scan picks over `nextLeftBoundary .. nextRightBoundary`. Its rank becomes `[i, bestCol]`, its row is replaced and the paths into it are filled, and the boundaries widen around it. The invariant is kept: every earlier page is ranked on its own row, inside the boundaries. |
| Legacy.PlacePagesFrom | legacy.js:130-179 | Placing the pages from i on extends the run: each page gets the column the scan picks on the state left by the pages before it. |
| Legacy.PlacePages | legacy.js:130-179 | With the corrected boundary update, each page in turn gets the column the scan picks and is committed. The returned columns, ranks, grid and boundaries are exactly that run's. After the loop, every page is ranked `[i, col]` on its own row, strictly between the final boundaries. Preset ranks of non-pages are kept. |
| Legacy.PlacePageAsWritten | legacy.js:133-178 | With the boundary update as written, page i goes to the column the scan picks and is committed. The boundaries still enclose column 0, every placed page keeps its own row, and only page ranks change. |
| Legacy.PlacePagesAsWritten | legacy.js:130-179 | The page loop exactly as written: the returned columns, ranks, grid and boundaries are the run of `NextBounds` steps. Every page is ranked on its own row and the boundaries still enclose column 0, but nothing keeps a page inside them. |
| Legacy.IndexOf | legacy.js:183-184 | `indexOf` returns -1 iff the page is absent. Otherwise it returns the first index holding it. |
| Legacy.MaxIndex | legacy.js:184 | The maximum of the referrers' page indexes is attained by some referrer. |
| Legacy.ScreenOutRow | legacy.js:184 | The screen-out row is 0 iff no referrer is a page. Otherwise the row above it belongs to a referrer. |
| Legacy.SetMin | legacy.js:187 | Returns the least member of a non-empty set. |
| Legacy.SetMax | legacy.js:188 | Returns the greatest member of a non-empty set. |
| Legacy.PlaceScreenOut | legacy.js:181-215 | The screen-out node goes one row below its deepest referring page. It scans from one left of that row's leftmost column to one right of its rightmost, picks an optimal column with the same tie-break, and changes only its own rank. |
| Legacy.LegacyEntryFits | legacy.js:217-234 | Every ranked node fits its row's height and its column's width. |
| Legacy.LegacyDimsFit | legacy.js:217-234 | Every ranked node fits the dimensions of its row and column. |
| Legacy.LegacyDimsAttained | legacy.js:217-234 | Every row (column) dimension is the height (width) of some node placed there. |
| Legacy.BandY | legacy.js:238-246 | For rows from 0 down, y lies inside and centred in the row band, with no margin. For a negative row, the empty sum leaves the node centred in a band starting at 0. |
| Legacy.LegacyY | legacy.js:236-246 | A node on a non-negative row, with no empty row above it, is centred inside its row band. |
| Legacy.LegacyYs | legacy.js:236-246 | Every node gets a y when no row above it is empty. On a row from 0 down it is centred inside its row band. On a negative row the empty sum leaves the node centred in a band of that row's height starting at 0. |
| Legacy.LegacyRowsApart | legacy.js:236-246 | A node on an upper row ends at least `rankSep` above any node on a lower row. |

## Left out

- Legacy.LegacyYs / Legacy.LegacyY: both require `LegacyRowsFilled`, that every row from 0 down to an entry's row holds some entry. The page loop can leave a row empty: for pages `[A, B, A]` the second placement of A moves it to row 2, so row 0 is empty. The source then reads an undefined `rowDim` and yields `NaN` for every entry below the gap, which the model's real arithmetic cannot express.
- Graph.AddNode: takes exactly a width and a height. The source's `data` argument is optional and may carry any other key. `addNode(id)` without `data` leaves the size undefined, which leads to `NaN` coordinates. A `data` carrying `pos` would overwrite the position, so a re-added node keeps its position only when `data` has no `pos`.
- Console output, demos and the module wiring are not modelled. The lodash helpers are modelled only through their effect: `defaults` as `Coords.WithDefaults`, `isEqual` on two-element ranks, and `min`/`max` as `Legacy.SetMin`, `Legacy.SetMax` and `Legacy.MaxIndex`.
- The legacy adapter (legacy.js:102-128) builds the page list and the referrer map from form elements and routes. It is not modelled: `Legacy.PlacePages` takes the pages and the referrer map as parameters.
- The legacy x coordinate (legacy.js:242-245) is not modelled. It sums `colDim[i]` from `nextLeftBoundary`, a column that usually holds no page, so it usually yields `NaN`. A page can sit on that column once the as-written boundary update has moved it inward. The model has no floating point to reproduce that.
- Floating point is not modelled: sizes and coordinates are exact reals, so `/ 2` is exact.
- `clone` in `assignRanks` is value semantics here: the ranking never mutates the graph.
- A JavaScript crash becomes a precondition. This covers `getNode` on an unregistered referrer, `pos` of an unplaced referrer, `grid.get(index)` of a missing screen-out row, and `assignedRanks[referrer].rank` of an unranked referrer (`Legacy.ReferrersReady`, `Legacy.Ranked`).
- Legacy.PlaceScreenOut: requires that the screen-out row spans column 0 or is adjacent to it (`ScanReachesZero`). Otherwise a scan loop of legacy.js:193-207 starts on the wrong side of 0 and never terminates.
- Engine.LayoutGraph: requires an acyclic graph. On a cycle, `Ranks.PeelSkipsCycle` shows that those nodes are never ranked and `layout` never places them. `calculatePosition` would then read `pos` of an unplaced node, which the model does not follow.
- Layout.PlaceAll: proves rows and columns are occupied from 0 and from `grid.lb`, and that each node lands on its level's row. It does not prove that two nodes never share a cell. They can: the score of a cell holding a node is `Blocked` only when the node has referrers, so all referrer-free nodes of level 0 tie at column 0.
- Legacy.PlacePages: uses the corrected boundary update `Legacy.WidenBounds`, not the as-written `Legacy.NextBounds` (see Findings). The loop as written is `Legacy.PlacePagesAsWritten`. It does not promise that pages stay strictly inside the boundaries, because they need not.
- `layout` in legacy.js:113-250 chains the page loop, the screen-out placement and the y pass. The model does not compose them: each part is modelled and proved on its own.
- The default arguments of the legacy `layout` (legacy.js:113: `rankSep` 100, `nodeSep` 30) are not modelled: `Legacy.LegacyYs` takes `rankSep` as a parameter, and `nodeSep` only feeds the x coordinate, which is left out.

## Findings

| source | as written | input that shows it | evidently intended | confidence | as-written member | corrected member |
|---|---|---|---|---|---|---|
| legacy.js:161-166 | `nextLeftBoundary = bestCol - 1` whenever `bestCol < 0`, even when the boundary is already further left | boundaries `-3` and `1` after pages at columns -1 and -2, and the next page picks column -1: the left boundary moves in to -2, so column -3 drops out of later scans and a page already at -2 sits on the boundary | the boundaries only widen, as `Grid.add` in index.js:21-29 does with `min`/`max` | not executed; medium | Legacy.NextBounds, Legacy.NextBoundsMovesInward, Legacy.PlacePagesAsWritten | Legacy.WidenBounds, Legacy.PlacePages |
