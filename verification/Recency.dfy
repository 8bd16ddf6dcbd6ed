/**
  Least-recently-used caching on keys: the recency list of a trace, what a cache of a given
  capacity holds after it, and which accesses hit.
*/
module Recency {
  import opened Chains

  // ---------- The cache on keys ----------

  function Find<K(==)>(s: seq<K>, k: K): (i: nat)
    ensures i <= |s| && (i < |s| ==> s[i] == k) && forall j :: 0 <= j < i ==> s[j] != k
    ensures i < |s| <==> k in s
  {
    if s == [] || s[0] == k then 0 else 1 + Find(s[1..], k)
  }

  /** The entry at `i` comes to the front; those before it move one place back. */
  function MoveToFront<T>(s: seq<T>, i: nat): seq<T>
    requires i < |s|
  {
    [s[i]] + s[..i] + s[i + 1..]
  }

  function Take<T>(s: seq<T>, n: nat): seq<T> {
    if n < |s| then s[..n] else s
  }

  /** One access to a cache of `cap` slots. */
  function Accessed<K(==)>(cap: nat, s: seq<K>, k: K): seq<K>
    requires cap > 0
  {
    if k in s then MoveToFront(s, Find(s, k))
    else if |s| < cap then [k] + s
    else [k] + s[..cap - 1]
  }

  /** What the cache holds after a trace, most recent first. */
  function CacheAfter<K(==)>(cap: nat, trace: seq<K>): seq<K>
    requires cap > 0
    decreases |trace|
  {
    if trace == [] then []
    else Accessed(cap, CacheAfter(cap, trace[..|trace| - 1]), trace[|trace| - 1])
  }

  ghost predicate Hit<K>(cap: nat, trace: seq<K>, i: nat)
    requires cap > 0 && i < |trace|
  {
    trace[i] in CacheAfter(cap, trace[..i])
  }

  /** The accesses that miss, by their place in the trace. */
  ghost function Misses<K>(cap: nat, trace: seq<K>): seq<nat>
    requires cap > 0
    decreases |trace|
  {
    if trace == [] then []
    else
      var n := |trace| - 1;
      Misses(cap, trace[..n]) + (if Hit(cap, trace, n) then [] else [n])
  }

  lemma Extended(s: seq<nat>, n: nat)
    requires NoDup(s) && forall m :: m in s ==> m < n
    ensures NoDup(s + [n])
  {
    assert forall i :: 0 <= i < |s| ==> s[i] in s;
  }

  /** They are the accesses that do not hit, each listed once. */
  lemma {:induction false} MissesAre<K>(cap: nat, trace: seq<K>)
    requires cap > 0
    ensures forall i :: 0 <= i < |trace| ==> (i in Misses(cap, trace) <==> !Hit(cap, trace, i))
    ensures forall m :: m in Misses(cap, trace) ==> m < |trace|
    ensures NoDup(Misses(cap, trace))
    decreases |trace|
  {
    if trace != [] {
      var n := |trace| - 1;
      var t := trace[..n];
      MissesAre(cap, t);
      Extended(Misses(cap, t), n);
      forall i | 0 <= i < n ensures i in Misses(cap, trace) <==> !Hit(cap, trace, i) {
        assert t[..i] == trace[..i] && t[i] == trace[i];
        assert Hit(cap, t, i) == Hit(cap, trace, i);
      }
    }
  }

  // ---------- The recency list ----------

  function Removed<K(==)>(s: seq<K>, k: K): seq<K> {
    if k in s then Without(s, Find(s, k)) else s
  }

  /** The distinct keys of a trace, most recently accessed first. */
  function Recent<K(==)>(trace: seq<K>): seq<K>
    decreases |trace|
  {
    if trace == [] then []
    else var k := trace[|trace| - 1]; [k] + Removed(Recent(trace[..|trace| - 1]), k)
  }

  /** The last access to a key. */
  function Last<K(==)>(trace: seq<K>, k: K): (i: nat)
    requires k in trace
    ensures i < |trace| && trace[i] == k && forall j :: i < j < |trace| ==> trace[j] != k
    decreases |trace|
  {
    var n := |trace| - 1;
    if trace[n] == k then n else Last(trace[..n], k)
  }

  function Keys<K(==)>(s: seq<K>): set<K> {
    set k | k in s
  }

  lemma RemovedAt<K>(s: seq<K>, k: K)
    requires k in s
    ensures |Removed(s, k)| == |s| - 1 && Find(s, k) < |s| && s[Find(s, k)] == k
    ensures forall j :: 0 <= j < |s| - 1 ==> Removed(s, k)[j] == if j < Find(s, k) then s[j] else s[j + 1]
  {}

  lemma RemovedApart<K>(s: seq<K>, k: K)
    requires NoDup(s)
    ensures NoDup(Removed(s, k))
  {
    if k in s {
      RemovedAt(s, k);
    }
  }

  lemma OneOutMembers<K>(s: seq<K>, r: seq<K>, i: nat, x: K)
    requires NoDup(s) && i < |s| && |r| == |s| - 1
    requires forall j {:trigger r[j]} :: 0 <= j < |r| ==> r[j] == if j < i then s[j] else s[j + 1]
    ensures x in r <==> x in s && x != s[i]
  {
    if x in s && x != s[i] {
      var j :| 0 <= j < |s| && s[j] == x;
      if j < i {
        assert r[j] == x;
      } else {
        assert r[j - 1] == s[j];
      }
    }
    if x in r {
      var j :| 0 <= j < |r| && r[j] == x;
      var h := if j < i then j else j + 1;
      assert s[h] == x && h != i;
    }
  }

  lemma RemovedMembers<K>(s: seq<K>, k: K)
    requires NoDup(s)
    ensures Keys(Removed(s, k)) == Keys(s) - {k}
  {
    if k in s {
      RemovedAt(s, k);
      var i, r := Find(s, k), Removed(s, k);
      hide Find, Removed, NoDup;
      forall x ensures x in r <==> x in s && x != k {
        OneOutMembers(s, r, i, x);
      }
    }
  }

  /** The keys of a trace, each once, in order of last access with the latest first. */
  ghost predicate ByLastAccess<K>(trace: seq<K>, s: seq<K>) {
    && NoDup(s) && Keys(s) == Keys(trace)
    && Falling(trace, s)
  }

  ghost predicate Falling<K>(trace: seq<K>, s: seq<K>) {
    forall i, j :: 0 <= i < j < |s| && s[i] in trace && s[j] in trace ==> Last(trace, s[i]) > Last(trace, s[j])
  }

  lemma LastKept<K>(trace: seq<K>, k: K, x: K)
    requires x in trace && x != k
    ensures x in trace + [k] && Last(trace + [k], x) == Last(trace, x)
  {
    assert (trace + [k])[..|trace|] == trace;
  }

  lemma RemovedFalling<K>(trace: seq<K>, s: seq<K>, k: K)
    requires Falling(trace, s)
    ensures Falling(trace, Removed(s, k))
  {
    if k in s {
      RemovedAt(s, k);
      hide Find, Removed, Last;
    }
  }

  lemma FallingStep<K>(trace: seq<K>, w: seq<K>, k: K)
    requires Falling(trace, w) && k !in w && forall x :: x in w ==> x in trace
    ensures Falling(trace + [k], [k] + w)
  {
    hide Last;
    var t, r := trace + [k], [k] + w;
    LastIsEnd(trace, k);
    forall i, j | 0 <= i < j < |r| && r[i] in t && r[j] in t ensures Last(t, r[i]) > Last(t, r[j]) {
      assert r[j] == w[j - 1];
      LastKept(trace, k, r[j]);
      if i > 0 {
        assert r[i] == w[i - 1];
        LastKept(trace, k, r[i]);
      }
    }
  }

  lemma LastIsEnd<K>(trace: seq<K>, k: K)
    ensures k in trace + [k] && Last(trace + [k], k) == |trace|
  {
    assert (trace + [k])[|trace|] == k;
  }

  lemma PushedKeys<K>(t: seq<K>, k: K, r: seq<K>, s: seq<K>)
    requires Keys(r) == Keys(s) - {k} && Keys(s) == Keys(t)
    ensures Keys([k] + r) == Keys(t + [k])
    ensures k !in r && forall x :: x in r ==> x in t
  {
    forall x ensures (x in r <==> x in t && x != k) {
      assert x in Keys(r) <==> x in Keys(t) && x != k;
    }
  }

  /** One more access: its key comes first, the others keep their order. */
  lemma {:induction false} ByLastAccessStep<K>(t: seq<K>, s: seq<K>, k: K)
    requires ByLastAccess(t, s)
    ensures ByLastAccess(t + [k], [k] + Removed(s, k))
  {
    var r := Removed(s, k);
    RemovedApart(s, k);
    RemovedMembers(s, k);
    RemovedFalling(t, s, k);
    hide Removed, Keys, Falling;
    PushedKeys(t, k, r, s);
    FallingStep(t, r, k);
  }

  lemma {:induction false} RecentByLastAccess<K>(trace: seq<K>)
    ensures ByLastAccess(trace, Recent(trace))
    decreases |trace|
  {
    if trace != [] {
      hide ByLastAccess, Removed;
      var n := |trace| - 1;
      RecentByLastAccess(trace[..n]);
      ByLastAccessStep(trace[..n], Recent(trace[..n]), trace[n]);
      assert trace == trace[..n] + [trace[n]];
    }
  }

  /** The distinct keys accessed since the last access to `k`. */
  ghost function Since<K>(trace: seq<K>, k: K): set<K>
    requires k in trace
  {
    set j | Last(trace, k) < j < |trace| :: trace[j]
  }

  lemma LaterIsSince<K>(trace: seq<K>, k: K, x: K)
    requires k in trace && x in trace
    ensures x in Since(trace, k) <==> Last(trace, x) > Last(trace, k)
  {
    var i, j := Last(trace, k), Last(trace, x);
    if j > i {
      assert trace[j] == x;
    }
  }

  lemma {:induction false} DistinctCount<K>(s: seq<K>)
    requires NoDup(s)
    ensures |Keys(s)| == |s|
  {
    if s != [] {
      var n := |s| - 1;
      DistinctCount(s[..n]);
      assert s == s[..n] + [s[n]];
      assert Keys(s) == Keys(s[..n]) + {s[n]};
    }
  }

  /** In such a list a key lies exactly below the keys accessed since. */
  lemma {:induction false} AboveIsSince<K>(trace: seq<K>, s: seq<K>, d: nat)
    requires ByLastAccess(trace, s) && d < |s|
    ensures s[d] in trace && Keys(s[..d]) == Since(trace, s[d]) && |Since(trace, s[d])| == d
  {
    var k := s[d];
    assert k in Keys(s) && k in Keys(trace);
    forall x ensures x in Keys(s[..d]) <==> x in Since(trace, k) {
      if x in Since(trace, k) {
        assert x in trace && x in Keys(trace) && x in Keys(s);
        LaterIsSince(trace, k, x);
        var e :| 0 <= e < |s| && s[e] == x;
        assert e < d;
        assert s[..d][e] == x;
      } else if x in s[..d] {
        var e :| 0 <= e < d && s[e] == x;
        assert x in Keys(s) && x in Keys(trace);
        LaterIsSince(trace, k, x);
      }
    }
    DistinctCount(s[..d]);
  }

  /** Order of last access leaves no choice: any such list is the recency list. */
  lemma {:induction false} RecencyUnique<K>(trace: seq<K>, s: seq<K>)
    ensures s == Recent(trace) <==> ByLastAccess(trace, s)
  {
    var r := Recent(trace);
    RecentByLastAccess(trace);
    if ByLastAccess(trace, s) {
      DistinctCount(s);
      DistinctCount(r);
      forall d | 0 <= d < |s| ensures s[d] == r[d] {
        AboveIsSince(trace, s, d);
        assert s[d] in Keys(s) && s[d] in Keys(r);
        var e :| 0 <= e < |r| && r[e] == s[d];
        AboveIsSince(trace, r, e);
      }
    }
  }

  // ---------- What a cache holds and when it hits ----------

  lemma TakeFind<K>(r: seq<K>, cap: nat, k: K)
    requires NoDup(r)
    ensures k in Take(r, cap) <==> k in r && Find(r, k) < cap
    ensures k in Take(r, cap) ==> Find(Take(r, cap), k) == Find(r, k)
  {
    var i, s := Find(r, k), Take(r, cap);
    if i < |r| && i < cap {
      assert s[i] == k;
    }
    if k in s {
      var j := Find(s, k);
      assert r[j] == k && j < |r|;
    }
  }

  lemma FrontTake<K>(cap: nat, r: seq<K>, k: K, i: nat)
    requires i < |r| && i < cap && r[i] == k
    ensures MoveToFront(Take(r, cap), i) == Take(MoveToFront(r, i), cap)
  {
    var s := Take(r, cap);
    assert |s| == |Take(MoveToFront(r, i), cap)|;
    assert forall j :: 0 <= j < |s| ==> MoveToFront(s, i)[j] == MoveToFront(r, i)[j];
  }

  lemma BackTake<K>(cap: nat, r: seq<K>, k: K, i: nat)
    requires 0 < cap <= i < |r|
    ensures [k] + r[..cap - 1] == Take([k] + (r[..i] + r[i + 1..]), cap)
  {}

  /** One access keeps the cache a prefix of the recency list. */
  lemma {:induction false} AccessTakes<K>(cap: nat, r: seq<K>, k: K)
    requires cap > 0 && NoDup(r)
    ensures Accessed(cap, Take(r, cap), k) == Take([k] + Removed(r, k), cap)
  {
    TakeFind(r, cap, k);
    if k in Take(r, cap) {
      FrontTake(cap, r, k, Find(r, k));
      RemovedFront(r, k);
      hide Take, MoveToFront, Removed, Find;
    } else if k in r {
      BackTake(cap, r, k, Find(r, k));
      hide MoveToFront, Find;
    } else {
      hide MoveToFront, Find;
    }
  }

  lemma RemovedFront<K>(r: seq<K>, k: K)
    requires k in r
    ensures [k] + Removed(r, k) == MoveToFront(r, Find(r, k))
  {
    var i := Find(r, k);
    hide Find;
    assert [r[i]] + (r[..i] + r[i + 1..]) == [r[i]] + r[..i] + r[i + 1..];
  }

  /**
    A cache holds the `cap` most recently accessed distinct keys of the trace, or all of
    them when there are fewer, in order of last access.
  */
  lemma {:induction false} CacheHoldsRecent<K>(cap: nat, trace: seq<K>)
    requires cap > 0
    ensures CacheAfter(cap, trace) == Take(Recent(trace), cap)
    ensures |CacheAfter(cap, trace)| == if |Keys(trace)| < cap then |Keys(trace)| else cap
    decreases |trace|
  {
    RecentByLastAccess(trace);
    DistinctCount(Recent(trace));
    if trace != [] {
      var t := trace[..|trace| - 1];
      CacheHoldsRecent(cap, t);
      RecentByLastAccess(t);
      AccessTakes(cap, Recent(t), trace[|trace| - 1]);
    }
  }

  /** An access hits exactly when fewer than `cap` distinct keys came since the last access to its key. */
  lemma {:induction false} HitByDistance<K>(cap: nat, trace: seq<K>, i: nat)
    requires cap > 0 && i < |trace|
    ensures Hit(cap, trace, i) <==> trace[i] in trace[..i] && |Since(trace[..i], trace[i])| < cap
  {
    var t, k := trace[..i], trace[i];
    var r := Recent(t);
    CacheHoldsRecent(cap, t);
    RecentByLastAccess(t);
    TakeFind(r, cap, k);
    assert k in t <==> k in Keys(r);
    if k in t {
      AboveIsSince(t, r, Find(r, k));
    }
  }

  /** A larger cache holds what a smaller one does, and more behind it. */
  lemma {:induction false} LargerCacheIncludes<K>(cap: nat, larger: nat, trace: seq<K>)
    requires 0 < cap <= larger
    ensures CacheAfter(cap, trace) <= CacheAfter(larger, trace)
    ensures forall i :: 0 <= i < |trace| && Hit(cap, trace, i) ==> Hit(larger, trace, i)
  {
    CacheHoldsRecent(cap, trace);
    CacheHoldsRecent(larger, trace);
    forall i | 0 <= i < |trace| && Hit(cap, trace, i) ensures Hit(larger, trace, i) {
      HitByDistance(cap, trace, i);
      HitByDistance(larger, trace, i);
    }
  }
}
