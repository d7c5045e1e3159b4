/** Rank assignment of index.js (`Graph.assignRanks`, lines 119-138).

    On a copy of the referrer map, each round takes the keys whose remaining
    referrer set is empty (the roots, in key insertion order), deletes them
    from the map and from every remaining set, and emits them as the next
    level; a round without roots ends the loop. Every round that does not end
    it removes at least one key, so the loop always terminates: on a cycle it
    simply stops, leaving the nodes on or below the cycle unranked. */
module Ranks {
  import opened Base
  import opened Graph

  /** Remaining referrer sets, keyed by the remaining keys. */
  type Refs = map<NodeId, set<NodeId>>

  /** `x` occurs before `y` in `s`. */
  ghost predicate Before(s: seq<NodeId>, x: NodeId, y: NodeId) {
    exists a, b :: 0 <= a < b < |s| && s[a] == x && s[b] == y
  }

  /** The elements of `s` that are in `keep`, in the order of `s`. */
  function Select(s: seq<NodeId>, keep: set<NodeId>): (r: seq<NodeId>)
    ensures forall x :: x in r <==> x in s && x in keep
    ensures Distinct(s) ==> Distinct(r)
    ensures |r| <= |s|
    ensures (exists x :: x in s && x !in keep) ==> |r| < |s|
  {
    if s == [] then []
    else
      var t := Select(s[1..], keep);
      assert s == [s[0]] + s[1..];
      assert Distinct(s) ==> Distinct(s[1..]) && s[0] !in s[1..];
      if s[0] in keep then
        assert Distinct(s) ==> Distinct([s[0]] + t) by {
          if Distinct(s) {
            DistinctCons(s[0], t);
          }
        }
        [s[0]] + t
      else t
  }

  lemma BeforeTail(s: seq<NodeId>, x: NodeId, y: NodeId)
    requires s != [] && Before(s[1..], x, y)
    ensures Before(s, x, y)
  {
    var a, b :| 0 <= a < b < |s[1..]| && s[1..][a] == x && s[1..][b] == y;
    assert s[a + 1] == x && s[b + 1] == y;
  }

  lemma BeforeSelect(s: seq<NodeId>, keep: set<NodeId>, x: NodeId, y: NodeId)
    requires Before(Select(s, keep), x, y)
    ensures Before(s, x, y)
  {
    var r := Select(s, keep);
    SelectOrder(s, keep);
    var a, b :| 0 <= a < b < |r| && r[a] == x && r[b] == y;
  }

  /** `Select` keeps the order of `s`. */
  lemma {:induction false} SelectOrder(s: seq<NodeId>, keep: set<NodeId>)
    ensures forall i, j :: 0 <= i < j < |Select(s, keep)| ==> Before(s, Select(s, keep)[i], Select(s, keep)[j])
  {
    if s != [] {
      var r := Select(s, keep);
      var t := Select(s[1..], keep);
      SelectOrder(s[1..], keep);
      forall i, j | 0 <= i < j < |r|
        ensures Before(s, r[i], r[j])
      {
        if s[0] in keep {
          assert r == [s[0]] + t;
          if i == 0 {
            assert r[j] == t[j - 1] && t[j - 1] in t;
            var b :| 0 <= b < |s[1..]| && s[1..][b] == r[j];
            assert s[0] == r[0] && s[b + 1] == r[j];
          } else {
            assert r[i] == t[i - 1] && r[j] == t[j - 1];
            BeforeTail(s, r[i], r[j]);
          }
        } else {
          BeforeTail(s, r[i], r[j]);
        }
      }
    }
  }

  ghost predicate Covers(keys: seq<NodeId>, refs: Refs) {
    forall k :: k in keys ==> k in refs
  }

  /** The keys whose remaining referrer set is empty. */
  function RootSet(keys: seq<NodeId>, refs: Refs): set<NodeId>
    requires Covers(keys, refs)
  {
    set k | k in keys && refs[k] == {}
  }

  /** The keys that still have a remaining referrer. */
  function Waiting(keys: seq<NodeId>, refs: Refs): set<NodeId>
    requires Covers(keys, refs)
  {
    set k | k in keys && refs[k] != {}
  }

  /** The referrer sets of the waiting keys, with the roots removed. */
  function Prune(rest: seq<NodeId>, refs: Refs, roots: set<NodeId>): (r: Refs)
    requires Covers(rest, refs)
    ensures Covers(rest, r)
  {
    map k | k in rest :: refs[k] - roots
  }

  /** The rounds of `assignRanks` from the remaining `keys` and `refs`. */
  function Peel(keys: seq<NodeId>, refs: Refs): seq<seq<NodeId>>
    requires Covers(keys, refs)
    decreases |keys|
  {
    var roots := Select(keys, RootSet(keys, refs));
    if roots == [] then []
    else
      var rest := Select(keys, Waiting(keys, refs));
      assert roots[0] in keys && roots[0] !in Waiting(keys, refs);
      [roots] + Peel(rest, Prune(rest, refs, RootSet(keys, refs)))
  }

  /** One round of `Peel` when it finds roots. */
  lemma PeelUnfold(keys: seq<NodeId>, refs: Refs)
    requires Covers(keys, refs)
    requires Select(keys, RootSet(keys, refs)) != []
    ensures |Select(keys, Waiting(keys, refs))| < |keys|
    ensures Peel(keys, refs) ==
      [Select(keys, RootSet(keys, refs))] +
      Peel(Select(keys, Waiting(keys, refs)), Prune(Select(keys, Waiting(keys, refs)), refs, RootSet(keys, refs)))
  {
    var roots := Select(keys, RootSet(keys, refs));
    assert roots[0] in keys && roots[0] !in Waiting(keys, refs);
  }

  /** The referrer map of `g` with each insertion-ordered set as a set: the
      copy `assignRanks` works on, so the graph keeps its referrers. */
  function RefSets(g: Graph): Refs {
    map k | k in g.referrers :: set x | x in g.referrers[k]
  }

  /** `Graph.assignRanks`. */
  function AssignRanks(g: Graph): seq<seq<NodeId>>
    requires Valid(g)
  {
    Peel(g.order, RefSets(g))
  }

  // -----------------------------------------------------------------------
  // Shape of the levels
  // -----------------------------------------------------------------------

  ghost predicate NonEmptyLevels(L: seq<seq<NodeId>>) {
    forall i :: 0 <= i < |L| ==> L[i] != []
  }

  ghost predicate LevelsIn(L: seq<seq<NodeId>>, keys: seq<NodeId>) {
    forall i, x :: 0 <= i < |L| && x in L[i] ==> x in keys
  }

  ghost predicate DisjointLevels(L: seq<seq<NodeId>>) {
    forall i, j, x :: 0 <= i < j < |L| && x in L[i] ==> x !in L[j]
  }

  lemma ConsLevels(roots: seq<NodeId>, T: seq<seq<NodeId>>, keys: seq<NodeId>, rest: seq<NodeId>)
    requires roots != [] && NonEmptyLevels(T) && LevelsIn(T, rest) && DisjointLevels(T)
    requires forall x :: x in roots ==> x in keys && x !in rest
    requires forall x :: x in rest ==> x in keys
    ensures NonEmptyLevels([roots] + T) && LevelsIn([roots] + T, keys) && DisjointLevels([roots] + T)
  {
    var L := [roots] + T;
    forall i, j, x | 0 <= i < j < |L| && x in L[i]
      ensures x !in L[j]
    {
      assert L[j] == T[j - 1];
      if i > 0 {
        assert L[i] == T[i - 1];
      }
    }
    forall i, x | 0 <= i < |L| && x in L[i]
      ensures x in keys
    {
      if i > 0 {
        assert L[i] == T[i - 1];
      }
    }
    forall i | 0 <= i < |L|
      ensures L[i] != []
    {
      if i > 0 {
        assert L[i] == T[i - 1];
      }
    }
  }

  /** Every level is non-empty and drawn from the keys, and no key is emitted
      in two levels. */
  lemma {:induction false} PeelLevels(keys: seq<NodeId>, refs: Refs)
    requires Covers(keys, refs)
    ensures NonEmptyLevels(Peel(keys, refs))
    ensures LevelsIn(Peel(keys, refs), keys)
    ensures DisjointLevels(Peel(keys, refs))
    decreases |keys|
  {
    var R := RootSet(keys, refs);
    var roots := Select(keys, R);
    if roots != [] {
      PeelUnfold(keys, refs);
      var rest := Select(keys, Waiting(keys, refs));
      var refs' := Prune(rest, refs, R);
      PeelLevels(rest, refs');
      ConsLevels(roots, Peel(rest, refs'), keys, rest);
    }
  }

  ghost predicate LevelsOrdered(L: seq<seq<NodeId>>, keys: seq<NodeId>) {
    forall i, a, b :: 0 <= i < |L| && 0 <= a < b < |L[i]| ==> Before(keys, L[i][a], L[i][b])
  }

  ghost predicate LevelsDistinct(L: seq<seq<NodeId>>) {
    forall i :: 0 <= i < |L| ==> Distinct(L[i])
  }

  /** Prepending the roots, taken from `keys` in order, to levels that are
      distinct and ordered by the waiting keys keeps both properties. */
  lemma ConsOrder(keys: seq<NodeId>, R: set<NodeId>, W: set<NodeId>, T: seq<seq<NodeId>>)
    requires Distinct(keys)
    requires LevelsDistinct(T) && LevelsOrdered(T, Select(keys, W))
    ensures LevelsDistinct([Select(keys, R)] + T)
    ensures LevelsOrdered([Select(keys, R)] + T, keys)
  {
    var L := [Select(keys, R)] + T;
    SelectOrder(keys, R);
    forall i, a, b | 0 <= i < |L| && 0 <= a < b < |L[i]|
      ensures Before(keys, L[i][a], L[i][b])
    {
      if i > 0 {
        assert L[i] == T[i - 1];
        BeforeSelect(keys, W, L[i][a], L[i][b]);
      }
    }
    forall i | 0 <= i < |L|
      ensures Distinct(L[i])
    {
      if i > 0 {
        assert L[i] == T[i - 1];
      }
    }
  }

  /** Within a level the nodes are distinct and follow key insertion order. */
  lemma {:induction false} PeelOrder(keys: seq<NodeId>, refs: Refs)
    requires Covers(keys, refs) && Distinct(keys)
    ensures LevelsDistinct(Peel(keys, refs))
    ensures LevelsOrdered(Peel(keys, refs), keys)
    decreases |keys|
  {
    var R := RootSet(keys, refs);
    if Select(keys, R) != [] {
      PeelUnfold(keys, refs);
      var W := Waiting(keys, refs);
      var rest := Select(keys, W);
      var refs' := Prune(rest, refs, R);
      PeelOrder(rest, refs');
      ConsOrder(keys, R, W, Peel(rest, refs'));
    }
  }

  // -----------------------------------------------------------------------
  // Rank correctness
  // -----------------------------------------------------------------------

  /** Every referrer of a node in level i lies in a level before i. */
  ghost predicate ReferrersEarlier(L: seq<seq<NodeId>>, refs: Refs) {
    forall i, n, p :: 0 <= i < |L| && n in L[i] && n in refs && p in refs[n] ==>
      exists j :: 0 <= j < i && p in L[j]
  }

  lemma ConsReferrersEarlier(roots: seq<NodeId>, T: seq<seq<NodeId>>, refs: Refs, refs': Refs, R: set<NodeId>, rest: seq<NodeId>)
    requires ReferrersEarlier(T, refs') && LevelsIn(T, rest)
    requires forall n :: n in roots ==> n in refs && refs[n] == {}
    requires forall p :: p in R ==> p in roots
    requires forall n :: n in rest ==> n in refs && n in refs' && refs'[n] == refs[n] - R
    ensures ReferrersEarlier([roots] + T, refs)
  {
    var L := [roots] + T;
    forall i, n, p | 0 <= i < |L| && n in L[i] && n in refs && p in refs[n]
      ensures exists j :: 0 <= j < i && p in L[j]
    {
      if i > 0 {
        assert L[i] == T[i - 1];
        if p in R {
          assert p in L[0];
        } else {
          assert p in refs'[n];
          var j :| 0 <= j < i - 1 && p in T[j];
          assert p in L[j + 1];
        }
      }
    }
  }

  /** Every referrer of a ranked node is ranked in a strictly earlier level. */
  lemma {:induction false} PeelReferrersEarlier(keys: seq<NodeId>, refs: Refs)
    requires Covers(keys, refs)
    ensures ReferrersEarlier(Peel(keys, refs), refs)
    decreases |keys|
  {
    var R := RootSet(keys, refs);
    var roots := Select(keys, R);
    if roots != [] {
      PeelUnfold(keys, refs);
      var rest := Select(keys, Waiting(keys, refs));
      var refs' := Prune(rest, refs, R);
      PeelReferrersEarlier(rest, refs');
      PeelLevels(rest, refs');
      ConsReferrersEarlier(roots, Peel(rest, refs'), refs, refs', R, rest);
    }
  }

  /** Level 0 holds nodes without referrers; a node in level i > 0 has a
      referrer in level i - 1. */
  ghost predicate LevelsTight(L: seq<seq<NodeId>>, refs: Refs) {
    && (forall n :: |L| > 0 && n in L[0] ==> n in refs && refs[n] == {})
    && (forall i, n {:trigger n in L[i]} :: 0 < i < |L| && n in L[i] ==>
          n in refs && exists p :: p in refs[n] && p in L[i - 1])
  }

  lemma ConsTight(roots: seq<NodeId>, T: seq<seq<NodeId>>, refs: Refs, refs': Refs, R: set<NodeId>, rest: seq<NodeId>)
    requires LevelsTight(T, refs') && LevelsIn(T, rest)
    requires forall n :: n in roots ==> n in refs && refs[n] == {}
    requires forall p :: p in R ==> p in roots
    requires forall n :: n in rest ==> n in refs && refs[n] != {} && n in refs' && refs'[n] == refs[n] - R
    ensures LevelsTight([roots] + T, refs)
  {
    var L := [roots] + T;
    forall i, n {:trigger n in L[i]} | 0 < i < |L| && n in L[i]
      ensures n in refs && exists p :: p in refs[n] && p in L[i - 1]
    {
      assert L[i] == T[i - 1];
      if i == 1 {
        assert n in T[0] && n in rest;
        assert refs'[n] == {};
        var p :| p in refs[n];
        assert p !in refs'[n];
        assert p in R;
        assert p in L[0];
      } else {
        var p :| p in refs'[n] && p in T[i - 2];
        assert p in L[i - 1];
      }
    }
  }

  /** A node in level 0 has no referrers, and a node in level i > 0 has a
      referrer in level i - 1: with `PeelReferrersEarlier`, a node's level is
      one more than the greatest level of its referrers. */
  lemma {:induction false} PeelTight(keys: seq<NodeId>, refs: Refs)
    requires Covers(keys, refs)
    ensures LevelsTight(Peel(keys, refs), refs)
    decreases |keys|
  {
    var R := RootSet(keys, refs);
    var roots := Select(keys, R);
    if roots != [] {
      PeelUnfold(keys, refs);
      var rest := Select(keys, Waiting(keys, refs));
      var refs' := Prune(rest, refs, R);
      PeelTight(rest, refs');
      PeelLevels(rest, refs');
      ConsTight(roots, Peel(rest, refs'), refs, refs', R, rest);
    }
  }

  /** A key without referrers is ranked in level 0. */
  lemma PeelRootsFirst(keys: seq<NodeId>, refs: Refs, n: NodeId)
    requires Covers(keys, refs)
    requires n in keys && refs[n] == {}
    ensures |Peel(keys, refs)| > 0 && n in Peel(keys, refs)[0]
  {
    assert n in Select(keys, RootSet(keys, refs));
    PeelUnfold(keys, refs);
  }

  /** `h` ranks every key strictly above each of its referrers, which are keys
      themselves: such an `h` exists exactly when the graph is acyclic. */
  ghost predicate Layered(keys: seq<NodeId>, refs: Refs, h: map<NodeId, nat>) {
    forall k :: k in keys ==>
      && k in refs && k in h
      && forall p :: p in refs[k] ==> p in keys && p in h && h[p] < h[k]
  }

  lemma {:induction false} FindRoot(keys: seq<NodeId>, refs: Refs, h: map<NodeId, nat>, k: NodeId)
    requires Layered(keys, refs, h) && k in keys
    ensures exists r :: r in keys && refs[r] == {}
    decreases h[k]
  {
    if refs[k] != {} {
      var p :| p in refs[k];
      FindRoot(keys, refs, h, p);
    }
  }

  /** Every key of `keys` is in some level of `L`. */
  ghost predicate AllRanked(L: seq<seq<NodeId>>, keys: seq<NodeId>) {
    forall n :: n in keys ==> exists i :: 0 <= i < |L| && n in L[i]
  }

  lemma ConsAllRanked(roots: seq<NodeId>, T: seq<seq<NodeId>>, keys: seq<NodeId>, rest: seq<NodeId>)
    requires AllRanked(T, rest)
    requires forall n :: n in keys ==> n in roots || n in rest
    ensures AllRanked([roots] + T, keys)
  {
    var L := [roots] + T;
    forall n | n in keys
      ensures exists i :: 0 <= i < |L| && n in L[i]
    {
      if n in roots {
        assert n in L[0];
      } else {
        var i :| 0 <= i < |T| && n in T[i];
        assert n in L[i + 1];
      }
    }
  }

  /** On an acyclic graph every key is ranked. */
  lemma {:induction false} PeelComplete(keys: seq<NodeId>, refs: Refs, h: map<NodeId, nat>)
    requires Layered(keys, refs, h)
    ensures Covers(keys, refs)
    ensures AllRanked(Peel(keys, refs), keys)
    decreases |keys|
  {
    if keys != [] {
      var R := RootSet(keys, refs);
      var roots := Select(keys, R);
      FindRoot(keys, refs, h, keys[0]);
      var r0 :| r0 in keys && refs[r0] == {};
      assert r0 in roots;
      PeelUnfold(keys, refs);
      var rest := Select(keys, Waiting(keys, refs));
      var refs' := Prune(rest, refs, R);
      forall k | k in rest
        ensures k in refs' && k in h && forall p :: p in refs'[k] ==> p in rest && p in h && h[p] < h[k]
      {
        forall p | p in refs'[k]
          ensures p in rest
        {
          assert p in keys && p !in R;
        }
      }
      PeelComplete(rest, refs', h);
      ConsAllRanked(roots, Peel(rest, refs'), keys, rest);
    }
  }

  /** The nodes of a cycle (each `cycle[j]` has `cycle[j - 1]`, cyclically,
      among its referrers) are ranked in no level, and no error is raised. */
  lemma {:induction false} PeelSkipsCycle(keys: seq<NodeId>, refs: Refs, cycle: seq<NodeId>, i: nat)
    requires Covers(keys, refs)
    requires |cycle| > 0
    requires forall j :: 0 <= j < |cycle| ==> cycle[j] in refs
    requires forall j :: 0 < j < |cycle| ==> cycle[j - 1] in refs[cycle[j]]
    requires cycle[|cycle| - 1] in refs[cycle[0]]
    ensures forall j :: 0 <= j < |cycle| && i < |Peel(keys, refs)| ==> cycle[j] !in Peel(keys, refs)[i]
  {
    var L := Peel(keys, refs);
    PeelReferrersEarlier(keys, refs);
    forall j | 0 <= j < |cycle| && i < |L|
      ensures cycle[j] !in L[i]
    {
      if cycle[j] in L[i] {
        var prev := if j == 0 then |cycle| - 1 else j - 1;
        assert cycle[prev] in refs[cycle[j]];
        var i' :| 0 <= i' < i && cycle[prev] in L[i'];
        PeelSkipsCycle(keys, refs, cycle, i');
        assert false;
      }
    }
  }

  /** A node with an unranked referrer is unranked: everything downstream of
      a cycle (or of an unregistered referrer) stays out of the levels. */
  lemma PeelSkipsDownstream(keys: seq<NodeId>, refs: Refs, n: NodeId, p: NodeId)
    requires Covers(keys, refs)
    requires n in refs && p in refs[n]
    requires forall i :: 0 <= i < |Peel(keys, refs)| ==> p !in Peel(keys, refs)[i]
    ensures forall i :: 0 <= i < |Peel(keys, refs)| ==> n !in Peel(keys, refs)[i]
  {
    PeelReferrersEarlier(keys, refs);
  }
}
