/** Coordinate arithmetic shared by index.js (`calculatePosition`, lines
    164-199, and the option defaults of line 76) and legacy.js (lines 217-247).

    Along one axis, every row (or column) is a band as tall (or wide) as its
    largest node; bands follow each other separated by the configured gap, and
    a node is centred inside its band. Sizes, gaps and coordinates are exact
    reals, so the source's `/ 2` is exact here. */
module Coords {
  import opened Base

  /** The layout options after defaults are applied. */
  datatype Options = Options(rankSep: real, nodeSep: real, marginX: real, marginY: real)

  /** The options a caller passes; a missing key is `None`. */
  datatype Given = Given(rankSep: Option<real>, nodeSep: Option<real>, marginX: Option<real>, marginY: Option<real>)

  const DefaultRankSep: real := 100.0
  const DefaultNodeSep: real := 30.0

  function OrDefault(o: Option<real>, d: real): real {
    if o.Some? then o.value else d
  }

  /** `defaults(options, {rankSep: 100, nodeSep: 30, marginX: 0, marginY: 0})`:
      a given key wins, a missing key takes its default. */
  function WithDefaults(o: Given): (r: Options)
    ensures o.rankSep.Some? ==> r.rankSep == o.rankSep.value
    ensures o.nodeSep.Some? ==> r.nodeSep == o.nodeSep.value
    ensures o.marginX.Some? ==> r.marginX == o.marginX.value
    ensures o.marginY.Some? ==> r.marginY == o.marginY.value
    ensures o == Given(None, None, None, None) ==> r == Options(100.0, 30.0, 0.0, 0.0)
  {
    Options(OrDefault(o.rankSep, DefaultRankSep), OrDefault(o.nodeSep, DefaultNodeSep),
            OrDefault(o.marginX, 0.0), OrDefault(o.marginY, 0.0))
  }

  /** The per-key maximum of `entries`, built as the source's first loop does:
      the first entry of a key sets its value, a larger one replaces it. */
  function MaxByKey(entries: seq<(int, real)>): (m: map<int, real>)
    ensures forall i :: 0 <= i < |entries| ==> entries[i].0 in m && entries[i].1 <= m[entries[i].0]
    ensures forall k :: k in m ==> exists i :: 0 <= i < |entries| && entries[i].0 == k && entries[i].1 == m[k]
  {
    if entries == [] then map[]
    else
      var prefix := entries[..|entries| - 1];
      var m := MaxByKey(prefix);
      var (k, v) := entries[|entries| - 1];
      var m1 := if k !in m then m[k := v] else m;
      var r := if v > m1[k] then m1[k := v] else m1;
      assert forall i :: 0 <= i < |prefix| ==> entries[i] == prefix[i];
      r
  }

  /** The total extent of the bands `lo .. hi - 1`, each followed by `sep`:
      the `for (let i = lo; i < hi; ++i) acc += dims[i] + sep` of the source. */
  function Offset(dims: map<int, real>, sep: real, lo: int, hi: int): real
    requires forall i :: lo <= i < hi ==> i in dims
    decreases hi - lo
  {
    if hi <= lo then 0.0 else Offset(dims, sep, lo, hi - 1) + dims[hi - 1] + sep
  }

  /** The coordinate of a node of extent `size` in band `idx`: the band starts
      at `margin + Offset(..)`, and the node sits in its middle. */
  function Center(dims: map<int, real>, sep: real, margin: real, lo: int, idx: int, size: real): (c: real)
    requires lo <= idx && forall i :: lo <= i <= idx ==> i in dims
    ensures c - (margin + Offset(dims, sep, lo, idx)) == (margin + Offset(dims, sep, lo, idx) + dims[idx]) - (c + size)
    ensures size <= dims[idx] ==>
      margin + Offset(dims, sep, lo, idx) <= c && c + size <= margin + Offset(dims, sep, lo, idx) + dims[idx]
    ensures size == dims[idx] ==> c == margin + Offset(dims, sep, lo, idx)
  {
    margin + Offset(dims, sep, lo, idx) + (dims[idx] - size) / 2.0
  }

  /** With non-negative gaps and band sizes, band `i` ends at least `sep`
      before band `j > i` starts. */
  lemma {:induction false} BandsOrdered(dims: map<int, real>, sep: real, lo: int, i: int, j: int)
    requires lo <= i < j
    requires forall k :: lo <= k < j ==> k in dims
    requires sep >= 0.0
    requires forall k :: i < k < j ==> dims[k] >= 0.0
    ensures Offset(dims, sep, lo, i) + dims[i] + sep <= Offset(dims, sep, lo, j)
    decreases j - i
  {
    if j > i + 1 {
      BandsOrdered(dims, sep, lo, i, j - 1);
    }
  }

  /** Two nodes that fit their bands `i < j` do not overlap: the first ends
      at least `sep` before the second starts. */
  lemma BandsSeparate(dims: map<int, real>, sep: real, margin: real, lo: int, i: int, si: real, j: int, sj: real)
    requires lo <= i < j
    requires forall k :: lo <= k <= j ==> k in dims
    requires sep >= 0.0
    requires forall k :: i < k < j ==> dims[k] >= 0.0
    requires si <= dims[i] && sj <= dims[j]
    ensures Center(dims, sep, margin, lo, i, si) + si + sep <= Center(dims, sep, margin, lo, j, sj)
  {
    BandsOrdered(dims, sep, lo, i, j);
  }

  /** `c` is the coordinate of a node of extent `size` centred in band `idx`
      of `dims`, and the node lies inside the band. */
  ghost predicate InBand(dims: map<int, real>, sep: real, margin: real, lo: int, idx: int, c: real, size: real) {
    && lo <= idx && (forall i :: lo <= i <= idx ==> i in dims)
    && var start := margin + Offset(dims, sep, lo, idx);
       start <= c && c + size <= start + dims[idx] && c - start == (start + dims[idx]) - (c + size)
  }

  /** A node no larger than its band, centred by `Center`, is in the band. */
  lemma CenterInBand(dims: map<int, real>, sep: real, margin: real, lo: int, idx: int, size: real)
    requires lo <= idx && forall i :: lo <= i <= idx ==> i in dims
    requires size <= dims[idx]
    ensures InBand(dims, sep, margin, lo, idx, Center(dims, sep, margin, lo, idx, size), size)
  {
  }

  /** Two nodes inside bands `i < j` are at least `sep` apart when the bands
      in between have non-negative extents. */
  lemma InBandsApart(dims: map<int, real>, sep: real, margin: real, lo: int, i: int, ci: real, si: real, j: int, cj: real, sj: real)
    requires InBand(dims, sep, margin, lo, i, ci, si) && InBand(dims, sep, margin, lo, j, cj, sj)
    requires i < j && sep >= 0.0
    requires forall k :: i < k < j && k in dims ==> dims[k] >= 0.0
    ensures ci + si + sep <= cj
  {
    BandsOrdered(dims, sep, lo, i, j);
  }
}
