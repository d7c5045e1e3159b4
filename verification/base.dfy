/** Shared vocabulary of the layout engine: optional values, grid positions,
    node identities and the "set if absent" map update both engines use. */
module Base {

  datatype Option<+T> = None | Some(value: T)

  /** A (row, column) cell of the layered layout; row is the rank index. */
  type Pos = (int, int)

  /** Node identity. `Sink` is the distinguished identity for flow that leaves
      the graph (a null id in index.js, the 'screen-out' key in legacy.js). */
  datatype NodeId = Named(name: string) | Sink

  predicate Distinct<T(==)>(s: seq<T>) {
    forall i, j :: 0 <= i < j < |s| ==> s[i] != s[j]
  }

  lemma DistinctCons<T>(x: T, t: seq<T>)
    requires Distinct(t) && x !in t
    ensures Distinct([x] + t)
  {
    forall i, j | 0 <= i < j < |[x] + t|
      ensures ([x] + t)[i] != ([x] + t)[j]
    {
      if i == 0 {
        assert ([x] + t)[j] == t[j - 1];
      } else {
        assert ([x] + t)[i] == t[i - 1] && ([x] + t)[j] == t[j - 1];
      }
    }
  }

  /** A prefix one longer is the prefix followed by the next element. */
  lemma TakeSnoc<T>(s: seq<T>, k: int)
    requires 0 <= k < |s|
    ensures s[..k] + [s[k]] == s[..k + 1]
  {
  }

  /** Appending to a non-empty sequence keeps its head and appends to its tail. */
  lemma SnocTail<T>(s: seq<T>, x: T)
    requires s != []
    ensures (s + [x])[0] == s[0] && (s + [x])[1..] == s[1..] + [x]
  {
  }

  lemma DistinctConcat<T>(a: seq<T>, b: seq<T>)
    requires Distinct(a) && Distinct(b)
    requires forall x :: x in a ==> x !in b
    ensures Distinct(a + b)
  {
    forall i, j | 0 <= i < j < |a + b|
      ensures (a + b)[i] != (a + b)[j]
    {
      if j < |a| {
        assert (a + b)[i] == a[i] && (a + b)[j] == a[j];
      } else if i >= |a| {
        assert (a + b)[i] == b[i - |a|] && (a + b)[j] == b[j - |a|];
      } else {
        assert (a + b)[i] == a[i] && (a + b)[j] == b[j - |a|];
        assert a[i] in a;
      }
    }
  }

  function Min(a: int, b: int): int { if a <= b then a else b }

  function Max(a: int, b: int): int { if a <= b then b else a }

  /** Models `setDefault(map, k, v)`: the map gains `k -> v` only when `k` is
      absent, and the value now stored under `k` is returned. */
  function SetDefault<K(!new), V>(m: map<K, V>, k: K, v: V): (r: (map<K, V>, V))
    ensures k in r.0 && r.1 == r.0[k]
    ensures k in m ==> r.0 == m
    ensures k !in m ==> r.1 == v
    ensures forall x :: x != k ==> (x in r.0 <==> x in m)
    ensures forall x :: x in m ==> x in r.0 && r.0[x] == m[x]
  {
    if k in m then (m, m[k]) else (m[k := v], v)
  }
}
