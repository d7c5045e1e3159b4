/** The axis-aligned edge paths of the layout and their crossing cost.

    Both engines (index.js and legacy.js) route an edge from a referrer at
    (r2, c2) to a node at (r1, c1) as an L: a vertical run in the node's column
    c1, then a horizontal run in the referrer's row r2. Filling a path and
    scoring a path visit slightly different cell ranges; both are built here
    from `Span`, in the order the source loops visit them. */
module Paths {
  import opened Base

  /** The integers from `a` to `b` inclusive, stepping from `a` toward `b`. */
  function Span(a: int, b: int): (s: seq<int>)
    ensures |s| > 0 && s[0] == a
    ensures forall x :: x in s <==> Min(a, b) <= x <= Max(a, b)
    decreases if a <= b then b - a else a - b
  {
    if a == b then [a]
    else if a < b then [a] + Span(a + 1, b)
    else [a] + Span(a - 1, b)
  }

  lemma {:induction false} SpanDistinct(a: int, b: int)
    ensures Distinct(Span(a, b))
    decreases if a <= b then b - a else a - b
  {
    if a < b {
      SpanDistinct(a + 1, b);
      DistinctCons(a, Span(a + 1, b));
    } else if a > b {
      SpanDistinct(a - 1, b);
      DistinctCons(a, Span(a - 1, b));
    }
  }

  /** The cells of column `c` at the given rows, in the given order. */
  function ColumnCells(rows: seq<int>, c: int): (s: seq<Pos>)
    ensures |s| == |rows|
    ensures forall p :: p in s <==> p.1 == c && p.0 in rows
    ensures Distinct(rows) ==> Distinct(s)
  {
    if rows == [] then [] else [(rows[0], c)] + ColumnCells(rows[1..], c)
  }

  /** The cells of row `r` at the given columns, in the given order. */
  function RowCells(r: int, cols: seq<int>): (s: seq<Pos>)
    ensures |s| == |cols|
    ensures forall p :: p in s <==> p.0 == r && p.1 in cols
    ensures Distinct(cols) ==> Distinct(s)
  {
    if cols == [] then [] else [(r, cols[0])] + RowCells(r, cols[1..])
  }

  predicate Between(x: int, a: int, b: int) {
    Min(a, b) <= x <= Max(a, b)
  }

  // ---------------------------------------------------------------------
  // Filling a path (Grid.fill in index.js, fillPath in legacy.js)
  // ---------------------------------------------------------------------

  /** Reference description of the cells a fill from `from` to `to` marks:
      when the rows differ, column `to.1` at every row between the two rows
      inclusive; when the columns differ, row `from.0` at every column between
      the two columns inclusive. */
  predicate OnFillPath(to: Pos, from: Pos, p: Pos) {
    || (to.0 != from.0 && p.1 == to.1 && Between(p.0, to.0, from.0))
    || (to.1 != from.1 && p.0 == from.0 && Between(p.1, to.1, from.1))
  }

  /** The cells a fill visits, in the order of the source loops. */
  function FillCells(to: Pos, from: Pos): (s: seq<Pos>)
    ensures forall p :: p in s <==> OnFillPath(to, from, p)
    ensures to == from ==> s == []
  {
    var vertical := if to.0 != from.0 then ColumnCells(Span(to.0, from.0), to.1) else [];
    var horizontal := if to.1 != from.1 then RowCells(from.0, Span(to.1, from.1)) else [];
    vertical + horizontal
  }

  /** `p` lies on the fill path from one of `froms` to `to`. */
  ghost predicate OnAnyFillPath(to: Pos, froms: seq<Pos>, p: Pos) {
    exists k :: 0 <= k < |froms| && OnFillPath(to, froms[k], p)
  }

  lemma OnAnyFillPathCons(to: Pos, froms: seq<Pos>, p: Pos)
    requires froms != []
    ensures OnAnyFillPath(to, froms, p) <==> OnFillPath(to, froms[0], p) || OnAnyFillPath(to, froms[1..], p)
  {
    if OnAnyFillPath(to, froms[1..], p) {
      var k :| 0 <= k < |froms[1..]| && OnFillPath(to, froms[1..][k], p);
      assert froms[k + 1] == froms[1..][k];
    }
    if OnAnyFillPath(to, froms, p) {
      var k :| 0 <= k < |froms| && OnFillPath(to, froms[k], p);
      if k > 0 {
        assert froms[1..][k - 1] == froms[k];
      }
    }
  }

  // ---------------------------------------------------------------------
  // Scoring a path (crossing in index.js and legacy.js)
  // ---------------------------------------------------------------------

  /** Reference description of the cells `crossing` inspects for a candidate
      cell `to` and a referrer at `from`: column `to.1` at the rows from `to.0`
      toward `from.0`, the referrer's row excluded; and row `from.0` at the
      columns from just past `from.1` through `to.1`. The candidate cell itself
      is on the path whenever `to != from`. */
  predicate OnCrossPath(to: Pos, from: Pos, p: Pos) {
    || (p.1 == to.1 && p.0 != from.0 && Between(p.0, to.0, from.0))
    || (p.0 == from.0 && p.1 != from.1 && Between(p.1, to.1, from.1))
  }

  /** The vertical run `crossing` inspects: column `to.1`, from row `to.0`
      toward the referrer's row, which is excluded. */
  function CrossColumn(to: Pos, from: Pos): (s: seq<Pos>)
    ensures forall p :: p in s <==> p.1 == to.1 && p.0 != from.0 && Between(p.0, to.0, from.0)
    ensures Distinct(s)
  {
    if to.0 > from.0 then
      SpanDistinct(to.0, from.0 + 1);
      ColumnCells(Span(to.0, from.0 + 1), to.1)
    else if to.0 < from.0 then
      SpanDistinct(to.0, from.0 - 1);
      ColumnCells(Span(to.0, from.0 - 1), to.1)
    else []
  }

  /** The horizontal run `crossing` inspects: row `from.0`, from just past the
      referrer's column through `to.1`. */
  function CrossRow(to: Pos, from: Pos): (s: seq<Pos>)
    ensures forall p :: p in s <==> p.0 == from.0 && p.1 != from.1 && Between(p.1, to.1, from.1)
    ensures Distinct(s)
  {
    if to.1 > from.1 then
      SpanDistinct(from.1 + 1, to.1);
      RowCells(from.0, Span(from.1 + 1, to.1))
    else if to.1 < from.1 then
      SpanDistinct(from.1 - 1, to.1);
      RowCells(from.0, Span(from.1 - 1, to.1))
    else []
  }

  /** The cells `crossing` inspects for one referrer, in source loop order. */
  function CrossCells(to: Pos, from: Pos): (s: seq<Pos>)
    ensures forall p :: p in s <==> OnCrossPath(to, from, p)
    ensures Distinct(s)
  {
    DistinctConcat(CrossColumn(to, from), CrossRow(to, from));
    CrossColumn(to, from) + CrossRow(to, from)
  }

  /** What a grid cell holds, as the crossing count sees it. */
  datatype Look = Clear | Crossed | Occupied

  /** A crossing cost; `Blocked` stands for the source's `Infinity`. */
  datatype Cost = Finite(n: nat) | Blocked

  /** The source's `<=` on costs, where `Infinity <= Infinity` holds. */
  predicate Le(a: Cost, b: Cost) {
    match (a, b)
    case (Finite(x), Finite(y)) => x <= y
    case (Finite(_), Blocked) => true
    case (Blocked, Finite(_)) => false
    case (Blocked, Blocked) => true
  }

  /** Addition of costs; a blocked cost absorbs everything else. */
  function Plus(a: Cost, b: Cost): Cost {
    if a.Blocked? || b.Blocked? then Blocked else Finite(a.n + b.n)
  }

  lemma LeTotalPreorder(a: Cost, b: Cost, c: Cost)
    ensures Le(a, a)
    ensures Le(a, b) || Le(b, a)
    ensures Le(a, b) && Le(b, c) ==> Le(a, c)
    ensures Le(a, b) && Le(b, a) ==> a == b
    ensures Le(a, Blocked) && (Le(Blocked, a) ==> a == Blocked)
  {
  }

  /** The inner loops of `crossing`: stop with `Blocked` at a node cell, add one
      for every edge-passage cell. */
  function CountCells(look: Pos -> Look, cells: seq<Pos>): Cost {
    if cells == [] then Finite(0)
    else match look(cells[0])
      case Occupied => Blocked
      case Crossed => Plus(Finite(1), CountCells(look, cells[1..]))
      case Clear => CountCells(look, cells[1..])
  }

  /** The edge-passage cells among `cells`. */
  ghost function CrossedIn(look: Pos -> Look, cells: seq<Pos>): set<Pos> {
    set p | p in cells && look(p) == Crossed
  }

  /** The count stops with `Blocked` exactly when some cell holds a node. */
  lemma {:induction false} CountCellsBlocked(look: Pos -> Look, cells: seq<Pos>)
    ensures CountCells(look, cells) == Blocked <==> exists p :: p in cells && look(p) == Occupied
  {
    if cells != [] {
      var h, t := cells[0], cells[1..];
      assert cells == [h] + t;
      CountCellsBlocked(look, t);
      if look(h) != Occupied && exists p :: p in cells && look(p) == Occupied {
        var p :| p in cells && look(p) == Occupied;
        assert p in t;
      }
    }
  }

  /** `Distinct` passes to the tail, which does not hold the head. */
  lemma DistinctTail(cells: seq<Pos>)
    requires cells != [] && Distinct(cells)
    ensures Distinct(cells[1..]) && cells[0] !in cells[1..]
  {
    var t := cells[1..];
    forall i, j | 0 <= i < j < |t| ensures t[i] != t[j] {
      assert t[i] == cells[i + 1] && t[j] == cells[j + 1];
    }
    forall i | 0 <= i < |t| ensures t[i] != cells[0] {
      assert t[i] == cells[i + 1];
    }
  }

  /** A count that is not blocked is the number of edge-passage cells. */
  lemma {:induction false} CountCellsCount(look: Pos -> Look, cells: seq<Pos>)
    requires Distinct(cells)
    ensures CountCells(look, cells) != Blocked ==> CountCells(look, cells) == Finite(|CrossedIn(look, cells)|)
  {
    if cells != [] {
      var h, t := cells[0], cells[1..];
      assert cells == [h] + t;
      DistinctTail(cells);
      CountCellsCount(look, t);
      var rest := CountCells(look, t);
      match look(h)
      case Occupied =>
      case Crossed =>
        assert CountCells(look, cells) == Plus(Finite(1), rest);
        var s := CrossedIn(look, t);
        assert CrossedIn(look, cells) == {h} + s;
        assert h !in s;
        assert |{h} + s| == 1 + |s|;
      case Clear =>
        assert CountCells(look, cells) == rest;
        assert CrossedIn(look, cells) == CrossedIn(look, t);
    }
  }

  /** The inner loops of `crossing` block exactly at a node cell and
      otherwise count the edge-passage cells. */
  lemma CountCellsSpec(look: Pos -> Look, cells: seq<Pos>)
    requires Distinct(cells)
    ensures CountCells(look, cells) == Blocked <==> exists p :: p in cells && look(p) == Occupied
    ensures CountCells(look, cells) != Blocked ==> CountCells(look, cells) == Finite(|CrossedIn(look, cells)|)
  {
    CountCellsBlocked(look, cells);
    CountCellsCount(look, cells);
  }

  /** The cost of routing an edge from a referrer at `from` to a candidate cell `to`. */
  function PathCost(look: Pos -> Look, to: Pos, from: Pos): Cost {
    CountCells(look, CrossCells(to, from))
  }

  /** `crossing`: the costs of the paths from every referrer position, summed. */
  function TotalCost(look: Pos -> Look, to: Pos, froms: seq<Pos>): (r: Cost)
    ensures froms == [] ==> r == Finite(0)
  {
    if froms == [] then Finite(0)
    else Plus(PathCost(look, to, froms[0]), TotalCost(look, to, froms[1..]))
  }

  /** Reference: a node cell lies on the path. */
  ghost predicate PathBlocked(look: Pos -> Look, to: Pos, from: Pos) {
    exists p :: OnCrossPath(to, from, p) && look(p) == Occupied
  }

  /** Reference: the number of edge-passage cells on the path. */
  ghost function PassageCount(look: Pos -> Look, to: Pos, from: Pos): nat {
    |set p | p in Box(to, from) && OnCrossPath(to, from, p) && look(p) == Crossed|
  }

  /** The rectangle spanned by two cells. */
  ghost function Box(a: Pos, b: Pos): set<Pos> {
    set r, c | Min(a.0, b.0) <= r <= Max(a.0, b.0) && Min(a.1, b.1) <= c <= Max(a.1, b.1) :: (r, c)
  }

  lemma InBox(a: Pos, b: Pos, p: Pos)
    requires Between(p.0, a.0, b.0) && Between(p.1, a.1, b.1)
    ensures p in Box(a, b)
  {
    assert p == (p.0, p.1);
  }

  /** Reference: the passage counts of all referrers' paths, summed. */
  ghost function Crossings(look: Pos -> Look, to: Pos, froms: seq<Pos>): nat {
    if froms == [] then 0 else PassageCount(look, to, froms[0]) + Crossings(look, to, froms[1..])
  }

  lemma PathCostSpec(look: Pos -> Look, to: Pos, from: Pos)
    ensures PathCost(look, to, from) == Blocked <==> PathBlocked(look, to, from)
    ensures !PathBlocked(look, to, from) ==> PathCost(look, to, from) == Finite(PassageCount(look, to, from))
  {
    var cells := CrossCells(to, from);
    CountCellsSpec(look, cells);
    var b := set p | p in Box(to, from) && OnCrossPath(to, from, p) && look(p) == Crossed;
    forall p | p in CrossedIn(look, cells) ensures p in b {
      InBox(to, from, p);
    }
    assert CrossedIn(look, cells) == b;
    if PathBlocked(look, to, from) {
      var p :| OnCrossPath(to, from, p) && look(p) == Occupied;
      assert p in cells;
    }
  }

  /** Some referrer's path meets a node cell. */
  ghost predicate AnyBlocked(look: Pos -> Look, to: Pos, froms: seq<Pos>) {
    exists k :: 0 <= k < |froms| && PathBlocked(look, to, froms[k])
  }

  lemma AnyBlockedCons(look: Pos -> Look, to: Pos, froms: seq<Pos>)
    requires froms != []
    ensures AnyBlocked(look, to, froms) <==>
      PathBlocked(look, to, froms[0]) || AnyBlocked(look, to, froms[1..])
  {
    if AnyBlocked(look, to, froms[1..]) {
      var k :| 0 <= k < |froms[1..]| && PathBlocked(look, to, froms[1..][k]);
      assert froms[k + 1] == froms[1..][k];
    }
    if AnyBlocked(look, to, froms) {
      var k :| 0 <= k < |froms| && PathBlocked(look, to, froms[k]);
      if k > 0 {
        assert froms[1..][k - 1] == froms[k];
      }
    }
  }

  /** `crossing` is blocked exactly when some referrer's path meets a node
      cell, and otherwise counts every edge-passage cell on every path. */
  lemma {:induction false} TotalCostSpec(look: Pos -> Look, to: Pos, froms: seq<Pos>)
    ensures TotalCost(look, to, froms) == Blocked <==> AnyBlocked(look, to, froms)
    ensures TotalCost(look, to, froms) != Blocked ==>
      TotalCost(look, to, froms) == Finite(Crossings(look, to, froms))
  {
    if froms != [] {
      PathCostSpec(look, to, froms[0]);
      TotalCostSpec(look, to, froms[1..]);
      AnyBlockedCons(look, to, froms);
    }
  }

  /** A node already sitting at the candidate cell blocks the column as soon
      as one referrer sits elsewhere. */
  lemma OccupiedCandidateBlocks(look: Pos -> Look, to: Pos, froms: seq<Pos>, k: int)
    requires 0 <= k < |froms| && froms[k] != to
    requires look(to) == Occupied
    ensures TotalCost(look, to, froms) == Blocked
  {
    assert OnCrossPath(to, froms[k], to);
    TotalCostSpec(look, to, froms);
  }
}
