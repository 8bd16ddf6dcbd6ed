/**
  Where the objects of the slab allocator are.

  Every linked list of objects is named by what holds its head: a slab, a thread's cache,
  a batch on its way between the two, or the users of the allocator.  `Placed` says that
  no object is on two lists or twice on one; `place` remembers which list it is on.
*/
module SlabLists {
  import opened Chains

  type SlabId = nat
  type Tid = nat

  /** The index-th object of a slab; masking its address gives the slab (see SlabGeometry). */
  datatype Obj = Obj(slab: SlabId, index: nat)

  datatype Holder = InSlab(s: SlabId) | InCache(t: Tid) | InBatch(t: Tid) | WithUsers

  type Lists = map<Holder, seq<Obj>>

  ghost predicate Placed(lists: Lists, place: map<Obj, Holder>) {
    && (forall h :: h in lists ==> NoDup(lists[h]))
    && (forall h, o :: h in lists && o in lists[h] ==> IsAt(place, o, h))
    && (forall o :: o in place ==> place[o] in lists && o in lists[place[o]])
  }

  ghost predicate IsAt(place: map<Obj, Holder>, o: Obj, h: Holder) {
    o in place && place[o] == h
  }

  /** Every object of every mapped slab is on some list, and no other object is. */
  ghost predicate Complete<T>(place: map<Obj, Holder>, slabs: map<SlabId, T>, perSlab: nat) {
    forall o :: o in place <==> o.slab in slabs && o.index < perSlab
  }

  ghost function Rehomed(place: map<Obj, Holder>, moved: seq<Obj>, to: Holder): map<Obj, Holder> {
    map o | o in place :: if o in moved then to else place[o]
  }

  /** Moving some objects from one list to another, in any order and position. */
  lemma MoveKeepsPlaced(lists: Lists, place: map<Obj, Holder>, from: Holder, to: Holder, lf: seq<Obj>, lt: seq<Obj>,
                        moved: seq<Obj>)
    requires Placed(lists, place) && from in lists && to in lists && from != to
    requires NoDup(lf) && NoDup(lt)
    requires forall o :: o in lists[from] <==> o in moved || o in lf
    requires forall o :: o in moved ==> o !in lf
    requires forall o :: o in lt <==> o in moved || o in lists[to]
    ensures Placed(lists[from := lf][to := lt], Rehomed(place, moved, to))
    ensures Rehomed(place, moved, to).Keys == place.Keys
  {
    var lists', place' := lists[from := lf][to := lt], Rehomed(place, moved, to);
    forall h, o | h in lists' && o in lists'[h] ensures IsAt(place', o, h) {
      if o in moved {
        assert IsAt(place, o, from);
        assert h == to || h == from || IsAt(place, o, h);
      } else {
        assert IsAt(place, o, h);
      }
    }
    forall o | o in place' ensures place'[o] in lists' && o in lists'[place'[o]] {
      assert o in lists[place[o]];
    }
  }

  // ---------- Sequences ----------

  lemma NoDupParts<T>(s: seq<T>, n: nat)
    requires NoDup(s) && n <= |s|
    ensures NoDup(s[..n]) && NoDup(s[n..])
    ensures forall x :: x in s <==> x in s[..n] || x in s[n..]
    ensures forall x :: x in s[..n] ==> x !in s[n..]
  {
    assert s == s[..n] + s[n..];
    forall x | x in s[..n] ensures x !in s[n..] {
      var i :| 0 <= i < n && s[i] == x;
      forall j | 0 <= j < |s[n..]| ensures s[n..][j] != x {
        assert s[n..][j] == s[n + j];
      }
    }
  }

  lemma NoDupConcat<T>(a: seq<T>, b: seq<T>)
    requires NoDup(a) && NoDup(b) && forall x :: x in a ==> x !in b
    ensures NoDup(a + b)
  {
    var s := a + b;
    forall i, j | 0 <= i < j < |s| ensures s[i] != s[j] {
      if i < |a| <= j {
        assert s[i] in a && s[j] == b[j - |a|];
      }
    }
  }

  lemma FirstMember<T>(s: seq<T>)
    ensures |s| > 0 ==> s[0] in s
  {}

  lemma NoneWithout<T>(s: seq<T>)
    requires |s| == 1
    ensures Without(s, 0) == []
  {}

  lemma NoDupWithout<T>(s: seq<T>, i: nat)
    requires NoDup(s) && i < |s|
    ensures NoDup(Without(s, i)) && s[i] !in Without(s, i) && |Without(s, i)| == |s| - 1
    ensures forall x :: x in s <==> x == s[i] || x in Without(s, i)
  {
    var r := Without(s, i);
    assert s == s[..i] + [s[i]] + s[i + 1..];
    forall k | 0 <= k < |r| ensures r[k] != s[i] {
      assert r[k] == s[if k < i then k else k + 1];
    }
    forall k, l | 0 <= k < l < |r| ensures r[k] != r[l] {
      assert r[k] == s[if k < i then k else k + 1] && r[l] == s[if l < i then l else l + 1];
    }
  }

  /** The first `n` objects of one list go to the end of another. */
  lemma MovePrefixToEnd(lists: Lists, place: map<Obj, Holder>, from: Holder, to: Holder, n: nat)
    requires Placed(lists, place) && from in lists && to in lists && from != to && n <= |lists[from]|
    ensures var moved := lists[from][..n];
            && Placed(lists[from := lists[from][n..]][to := lists[to] + moved], Rehomed(place, moved, to))
            && Rehomed(place, moved, to).Keys == place.Keys
  {
    var s := lists[from];
    NoDupParts(s, n);
    forall x | x in lists[to] ensures x !in s[..n] {
      assert IsAt(place, x, to);
      assert x in s ==> IsAt(place, x, from);
    }
    NoDupConcat(lists[to], s[..n]);
    MoveKeepsPlaced(lists, place, from, to, s[n..], lists[to] + s[..n], s[..n]);
  }

  /** The first `n` objects of one list go to the front of another. */
  lemma MovePrefixToFront(lists: Lists, place: map<Obj, Holder>, from: Holder, to: Holder, n: nat)
    requires Placed(lists, place) && from in lists && to in lists && from != to && n <= |lists[from]|
    ensures var moved := lists[from][..n];
            && Placed(lists[from := lists[from][n..]][to := moved + lists[to]], Rehomed(place, moved, to))
            && Rehomed(place, moved, to).Keys == place.Keys
  {
    var s := lists[from];
    NoDupParts(s, n);
    forall x | x in s[..n] ensures x !in lists[to] {
      assert IsAt(place, x, from);
      assert x in lists[to] ==> IsAt(place, x, to);
    }
    NoDupConcat(s[..n], lists[to]);
    MoveKeepsPlaced(lists, place, from, to, s[n..], s[..n] + lists[to], s[..n]);
  }

  /** One object, from anywhere on its list, goes to the front of another. */
  lemma MoveOneToFront(lists: Lists, place: map<Obj, Holder>, from: Holder, to: Holder, i: nat)
    requires Placed(lists, place) && from in lists && to in lists && from != to && i < |lists[from]|
    ensures var moved := [lists[from][i]];
            && Placed(lists[from := Without(lists[from], i)][to := moved + lists[to]], Rehomed(place, moved, to))
            && Rehomed(place, moved, to).Keys == place.Keys
  {
    var s := lists[from];
    NoDupWithout(s, i);
    var moved := [s[i]];
    assert IsAt(place, s[i], from);
    assert s[i] in lists[to] ==> IsAt(place, s[i], to);
    NoDupConcat(moved, lists[to]);
    MoveKeepsPlaced(lists, place, from, to, Without(s, i), moved + lists[to], moved);
  }

  /** A slab's objects as the linking loop leaves them: the last one first. */
  function LinkedBlock(s: SlabId, n: nat): seq<Obj> {
    if n == 0 then [] else [Obj(s, n - 1)] + LinkedBlock(s, n - 1)
  }

  lemma {:induction false} LinkedBlockAll(s: SlabId, n: nat)
    ensures |LinkedBlock(s, n)| == n && NoDup(LinkedBlock(s, n))
    ensures forall o :: o in LinkedBlock(s, n) <==> o.slab == s && o.index < n
  {
    if n > 0 {
      LinkedBlockAll(s, n - 1);
      NoDupConcat([Obj(s, n - 1)], LinkedBlock(s, n - 1));
    }
  }

  // ---------- Counting ----------

  /** A duplicate-free list of n objects of one slab of n objects has them all. */
  lemma {:induction false} FullListHasAll(s: seq<Obj>, slab: SlabId, n: nat, o: Obj)
    requires NoDup(s) && |s| == n && (forall x :: x in s ==> x.slab == slab && x.index < n)
    requires o.slab == slab && o.index < n
    ensures o in s
  {
    if o !in s {
      TooMany(s + [o], slab, n);
      NoDupConcat(s, [o]);
      assert false;
    }
  }

  lemma {:induction false} TooMany(s: seq<Obj>, slab: SlabId, n: nat)
    requires |s| > n && forall x :: x in s ==> x.slab == slab && x.index < n
    ensures !NoDup(s)
    decreases n
  {
    assert s[0] in s;
    if NoDup(s) {
      if i :| 0 <= i < |s| && s[i].index == n - 1 {
        NoDupWithout(s, i);
        var r := Without(s, i);
        forall x | x in r ensures x.slab == slab && x.index < n - 1 {
          assert x in s && x != s[i];
        }
        TooMany(r, slab, n - 1);
      } else {
        forall x | x in s ensures x.slab == slab && x.index < n - 1 {
          var k :| 0 <= k < |s| && s[k] == x;
        }
        TooMany(s, slab, n - 1);
      }
    }
  }

  /** A duplicate-free list of objects of one slab is no longer than the slab. */
  lemma ListFits(s: seq<Obj>, slab: SlabId, n: nat)
    requires NoDup(s) && forall x :: x in s ==> x.slab == slab && x.index < n
    ensures |s| <= n
  {
    if |s| > n { TooMany(s, slab, n); }
  }

  /** Objects on the free lists of the slabs in `active`. */
  ghost function FreeIn(active: seq<SlabId>, lists: Lists): nat {
    if active == [] then 0
    else (if InSlab(active[0]) in lists then |lists[InSlab(active[0])]| else 0) + FreeIn(active[1..], lists)
  }

  lemma {:induction false} FreeInFrame(active: seq<SlabId>, lists: Lists, lists': Lists)
    requires forall s :: s in active ==>
               InSlab(s) in lists && InSlab(s) in lists' && |lists[InSlab(s)]| == |lists'[InSlab(s)]|
    ensures FreeIn(active, lists) == FreeIn(active, lists')
  {
    if active != [] {
      assert active[0] in active;
      FreeInFrame(active[1..], lists, lists');
    }
  }

  lemma {:induction false} FreeInSplit(a: seq<SlabId>, b: seq<SlabId>, lists: Lists)
    ensures FreeIn(a + b, lists) == FreeIn(a, lists) + FreeIn(b, lists)
  {
    if a == [] {
      assert a + b == b;
    } else {
      assert (a + b)[1..] == a[1..] + b;
      FreeInSplit(a[1..], b, lists);
    }
  }

  /** The objects in use of the mapped slabs with ids below `n`. */
  ghost function UsedBelow(slabs: map<SlabId, Slab>, n: nat): nat {
    if n == 0 then 0 else UsedBelow(slabs, n - 1) + (if n - 1 in slabs then slabs[n - 1].used else 0)
  }

  datatype Slab = Slab(used: nat, retired: bool)

  lemma {:induction false} UsedBelowFrame(slabs: map<SlabId, Slab>, slabs': map<SlabId, Slab>, n: nat)
    requires forall s :: 0 <= s < n ==>
               (s in slabs <==> s in slabs') && (s in slabs ==> slabs[s].used == slabs'[s].used)
    ensures UsedBelow(slabs, n) == UsedBelow(slabs', n)
  {
    if n > 0 { UsedBelowFrame(slabs, slabs', n - 1); }
  }

  /** Changing one slab's count changes the total by as much. */
  lemma {:induction false} UsedBelowUpdate(slabs: map<SlabId, Slab>, n: nat, s: SlabId, slab: Slab)
    requires s < n && s in slabs
    ensures UsedBelow(slabs[s := slab], n) + slabs[s].used == UsedBelow(slabs, n) + slab.used
    ensures slabs[s].used <= UsedBelow(slabs, n)
  {
    if s == n - 1 {
      UsedBelowFrame(slabs, slabs[s := slab], n - 1);
    } else {
      UsedBelowUpdate(slabs, n - 1, s, slab);
    }
  }

  lemma {:induction false} UsedBelowRemove(slabs: map<SlabId, Slab>, n: nat, s: SlabId)
    requires s < n && s in slabs
    ensures UsedBelow(slabs - {s}, n) + slabs[s].used == UsedBelow(slabs, n)
  {
    if s == n - 1 {
      UsedBelowFrame(slabs, slabs - {s}, n - 1);
    } else {
      UsedBelowRemove(slabs, n - 1, s);
    }
  }
}
