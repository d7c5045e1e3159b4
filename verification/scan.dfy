/** The greedy column choice shared by both engines (index.js lines 84-105,
    legacy.js lines 137-159 and 190-212).

    The source scans the columns from `lo` up to -1, then from `hi` down to 1,
    then column 0, keeping a candidate whenever its cost is `<=` the best so
    far. Because later candidates win ties, the preference among equally
    cheap columns is: 0, then 1, 2, ..., `hi`, then -1, -2, ..., `lo`. */
module ColumnScan {
  import opened Base
  import opened Paths

  /** Column `a` wins a tie against column `b`. */
  predicate Prefers(a: int, b: int) {
    if a == 0 then b != 0
    else if a > 0 then b < 0 || (b > 0 && a < b)
    else b < 0 && a > b
  }

  /** Of two distinct columns at most one wins the tie against the other, so
      a scan's choice among equally cheap columns is unique. */
  lemma PrefersAsymmetric(a: int, b: int)
    ensures !(Prefers(a, b) && Prefers(b, a))
  {
  }

  /** The scan over the candidates `lo..hi` (0 included). It terminates only
      when `lo <= 0 <= hi`: the source loops run until they reach 0. */
  method ScanColumns(score: int -> Cost, lo: int, hi: int) returns (best: int)
    requires lo <= 0 <= hi
    ensures lo <= best <= hi
    ensures forall j :: lo <= j <= hi ==> Le(score(best), score(j))
    ensures forall j :: lo <= j <= hi && j != best && score(j) == score(best) ==> Prefers(best, j)
    ensures Le(score(0), score(best)) ==> best == 0
  {
    var minCost: Option<Cost> := None;
    best := 0;
    var j := lo;
    while j != 0
      invariant lo <= j <= 0
      invariant minCost.None? <==> j == lo
      invariant minCost.Some? ==> lo <= best < j && minCost.value == score(best)
      invariant minCost.Some? ==> forall k :: lo <= k < j ==> Le(score(best), score(k))
      invariant minCost.Some? ==> forall k :: lo <= k < j && k != best && score(k) == score(best) ==> best > k
      decreases -j
    {
      var c := score(j);
      if minCost.None? || Le(c, minCost.value) {
        minCost := Some(c);
        best := j;
      }
      j := j + 1;
    }
    j := hi;
    while j != 0
      invariant 0 <= j <= hi
      invariant minCost.None? <==> lo == 0 && j == hi
      invariant minCost.Some? ==> minCost.value == score(best)
      invariant minCost.Some? ==> lo <= best < 0 || j < best <= hi
      invariant minCost.Some? ==> forall k :: (lo <= k < 0 || j < k <= hi) ==> Le(score(best), score(k))
      invariant minCost.Some? ==> forall k :: (lo <= k < 0 || j < k <= hi) && k != best && score(k) == score(best) ==> Prefers(best, k)
      decreases j
    {
      var c := score(j);
      if minCost.None? || Le(c, minCost.value) {
        minCost := Some(c);
        best := j;
      }
      j := j - 1;
    }
    var c := score(0);
    if minCost.None? || Le(c, minCost.value) {
      best := 0;
    }
  }
}
