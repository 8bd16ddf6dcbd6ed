/** The allocator's invariants as predicates on values, and what each small change keeps. */
module SlabState {
  import opened Words
  import opened Chains
  import opened SlabLists

  datatype Conf = Conf(perSlab: nat, retireThreshold: nat, cacheCap: nat, acquire: nat, release: nat)

  /** What the two configuration initialisers assert, once defaults are filled in. */
  predicate Good(c: Conf) {
    && 0 < c.perSlab && c.retireThreshold < c.perSlab
    && 0 < c.acquire <= c.cacheCap && 0 < c.release <= c.cacheCap
  }

  /** Idle; holding a batch it has just acquired; or holding one it is about to release. */
  datatype Phase = Idle | Acquired | Releasing

  /**
    Every list head exists, every object of a mapped slab is on exactly one list, a slab's
    list holds its own objects.
  */
  ghost predicate Owned(c: Conf, threads: set<Tid>, slabs: map<SlabId, Slab>, lists: Lists, place: map<Obj, Holder>) {
    && Placed(lists, place) && Complete(place, slabs, c.perSlab)
    && (forall s :: InSlab(s) in lists <==> s in slabs)
    && (forall t :: InCache(t) in lists <==> t in threads)
    && (forall t :: InBatch(t) in lists <==> t in threads)
    && WithUsers in lists
    && (forall s, o :: s in slabs && o in lists[InSlab(s)] ==> o.slab == s)
  }

  /** A slab's count is the number of its objects off its own list; the allocator's count is their sum. */
  ghost predicate Counted(c: Conf, slabs: map<SlabId, Slab>, lists: Lists, used: nat, nextId: SlabId) {
    && (forall s :: s in slabs ==> s < nextId && InSlab(s) in lists && slabs[s].used + |lists[InSlab(s)]| == c.perSlab)
    && used == UsedBelow(slabs, nextId)
  }

  /**
    The active list names the mapped slabs that are not retired; retired slabs are in use;
    nothing is unmapped twice.
  */
  ghost predicate Mapping(slabs: map<SlabId, Slab>, active: seq<SlabId>, activeCount: nat, unmapped: seq<SlabId>,
                          nextId: SlabId) {
    && NoDup(active) && |active| <= activeCount
    && (forall s :: s in active ==> s in slabs && !slabs[s].retired)
    && (forall s :: s in slabs ==> s in active || (slabs[s].retired && slabs[s].used > 0))
    && NoDup(unmapped)
    && (forall s :: s in unmapped ==> s < nextId && s !in slabs)
    && (forall s :: 0 <= s < nextId ==> s in slabs || s in unmapped)
  }

  // ---------- Consequences ----------

  /** An object of a mapped slab is on exactly one list, and there only once. */
  lemma ExactlyOnePlace(c: Conf, threads: set<Tid>, slabs: map<SlabId, Slab>, lists: Lists, place: map<Obj, Holder>,
                        o: Obj)
    requires Owned(c, threads, slabs, lists, place) && o.slab in slabs && o.index < c.perSlab
    ensures o in place && place[o] in lists
    ensures forall h :: h in lists ==> multiset(lists[h])[o] == if h == place[o] then 1 else 0
  {
    forall h | h in lists ensures multiset(lists[h])[o] == if h == place[o] then 1 else 0 {
      assert o in lists[h] ==> IsAt(place, o, h);
      if o in lists[h] { OnceIn(lists[h], o); }
    }
  }

  lemma {:induction false} OnceIn(s: seq<Obj>, o: Obj)
    requires NoDup(s) && o in s
    ensures multiset(s)[o] == 1
  {
    var i :| 0 <= i < |s| && s[i] == o;
    NoDupWithout(s, i);
    assert s == s[..i] + [o] + s[i + 1..];
    assert multiset(s) == multiset(Without(s, i)) + multiset{o};
  }

  /** An unmapped slab has no object in a cache, a batch or a user's hands. */
  lemma UnmappedIsUnreferenced(c: Conf, threads: set<Tid>, slabs: map<SlabId, Slab>, lists: Lists,
                               place: map<Obj, Holder>, active: seq<SlabId>, activeCount: nat, unmapped: seq<SlabId>,
                               nextId: SlabId, s: SlabId)
    requires Owned(c, threads, slabs, lists, place) && Mapping(slabs, active, activeCount, unmapped, nextId)
    requires s in unmapped
    ensures forall h, o :: h in lists && o in lists[h] ==> o.slab != s
  {
    forall h, o | h in lists && o in lists[h] ensures o.slab != s {
      assert IsAt(place, o, h);
    }
  }

  /** A slab's count is the size of the set of its objects that are off its own list. */
  lemma {:induction false} UsedIsOffList(c: Conf, threads: set<Tid>, slabs: map<SlabId, Slab>, lists: Lists,
                                         place: map<Obj, Holder>, used: nat, nextId: SlabId, s: SlabId)
    requires Owned(c, threads, slabs, lists, place) && Counted(c, slabs, lists, used, nextId) && s in slabs
    ensures slabs[s].used == |set i | 0 <= i < c.perSlab && Obj(s, i) !in lists[InSlab(s)]|
  {
    var own := lists[InSlab(s)];
    forall x | x in own ensures x.slab == s && x.index < c.perSlab {
      assert IsAt(place, x, InSlab(s));
    }
    OffListCount(own, s, c.perSlab);
  }

  lemma {:induction false} OffListCount(own: seq<Obj>, s: SlabId, n: nat)
    requires NoDup(own) && forall x :: x in own ==> x.slab == s && x.index < n
    ensures |set i | 0 <= i < n && Obj(s, i) !in own| + |own| == n
    decreases n
  {
    var off := set i | 0 <= i < n && Obj(s, i) !in own;
    if n == 0 {
      ListFits(own, s, 0);
    } else if Obj(s, n - 1) in own {
      var k :| 0 <= k < |own| && own[k] == Obj(s, n - 1);
      var own' := Without(own, k);
      NoDupWithout(own, k);
      forall x | x in own' ensures x.slab == s && x.index < n - 1 {
        assert x in own && x != own[k];
      }
      OffListCount(own', s, n - 1);
      assert off == set i | 0 <= i < n - 1 && Obj(s, i) !in own';
    } else {
      forall x | x in own ensures x.slab == s && x.index < n - 1 {
        assert x != Obj(s, n - 1);
      }
      OffListCount(own, s, n - 1);
      var off' := set i | 0 <= i < n - 1 && Obj(s, i) !in own;
      assert off == off' + {n - 1};
    }
  }

  // ---------- Moving objects ----------

  /** Moving objects between list heads other than slabs changes neither ownership nor counts. */
  lemma ShiftOwned(c: Conf, threads: set<Tid>, slabs: map<SlabId, Slab>, lists: Lists, place: map<Obj, Holder>,
                   lists': Lists, place': map<Obj, Holder>, used: nat, nextId: SlabId)
    requires Owned(c, threads, slabs, lists, place) && Counted(c, slabs, lists, used, nextId)
    requires Placed(lists', place') && place'.Keys == place.Keys && lists'.Keys == lists.Keys
    requires forall s :: s in slabs ==> lists'[InSlab(s)] == lists[InSlab(s)]
    ensures Owned(c, threads, slabs, lists', place') && Counted(c, slabs, lists', used, nextId)
  {
    assert forall h :: h in lists' <==> h in lists;
    assert forall o :: o in place' <==> o in place;
  }

  /** Moving objects between a slab and a list that is not a slab's, with the counts to match. */
  lemma TransferOwned(c: Conf, threads: set<Tid>, slabs: map<SlabId, Slab>, lists: Lists, place: map<Obj, Holder>,
                      lists': Lists, place': map<Obj, Holder>, used: nat, nextId: SlabId, s: SlabId, u: nat)
    requires Owned(c, threads, slabs, lists, place) && Counted(c, slabs, lists, used, nextId) && s in slabs
    requires Placed(lists', place') && place'.Keys == place.Keys && lists'.Keys == lists.Keys
    requires forall r :: r in slabs && r != s ==> lists'[InSlab(r)] == lists[InSlab(r)]
    requires u + |lists'[InSlab(s)]| == c.perSlab && (forall o :: o in lists'[InSlab(s)] ==> o.slab == s)
    ensures used + u >= slabs[s].used
    ensures var slabs' := slabs[s := slabs[s].(used := u)];
            Owned(c, threads, slabs', lists', place') && Counted(c, slabs', lists', used + u - slabs[s].used, nextId)
  {
    var slabs' := slabs[s := slabs[s].(used := u)];
    UsedBelowUpdate(slabs, nextId, s, slabs[s].(used := u));
    assert forall h :: h in lists' <==> h in lists;
    assert forall o :: o in place' <==> o in place;
  }

  /** The slab of an object that is off its own list is mapped and in use. */
  lemma HeldSlabIsMapped(c: Conf, threads: set<Tid>, slabs: map<SlabId, Slab>, lists: Lists, place: map<Obj, Holder>,
                         used: nat, nextId: SlabId, h: Holder, o: Obj)
    requires Owned(c, threads, slabs, lists, place) && Counted(c, slabs, lists, used, nextId)
    requires h in lists && !h.InSlab? && o in lists[h]
    ensures o.slab in slabs && o.index < c.perSlab && slabs[o.slab].used > 0 && InSlab(o.slab) in lists
  {
    assert IsAt(place, o, h);
    var own := lists[InSlab(o.slab)];
    forall x | x in own ensures x.slab == o.slab && x.index < c.perSlab {
      assert IsAt(place, x, InSlab(o.slab));
    }
    if |own| == c.perSlab {
      FullListHasAll(own, o.slab, c.perSlab, o);
    }
  }

  // ---------- Mapping and unmapping ----------

  ghost function WithBlock(place: map<Obj, Holder>, s: SlabId, block: seq<Obj>): map<Obj, Holder> {
    map o | o in place.Keys + (set x | x in block) :: if o in block then InSlab(s) else place[o]
  }

  lemma {:induction false} AddOwned(c: Conf, threads: set<Tid>, slabs: map<SlabId, Slab>, lists: Lists,
                                    place: map<Obj, Holder>, used: nat, nextId: SlabId)
    requires Owned(c, threads, slabs, lists, place) && Counted(c, slabs, lists, used, nextId) && nextId !in slabs
    ensures var block := LinkedBlock(nextId, c.perSlab);
            var slabs', lists' := slabs[nextId := Slab(0, false)], lists[InSlab(nextId) := block];
            && Owned(c, threads, slabs', lists', WithBlock(place, nextId, block))
            && Counted(c, slabs', lists', used, nextId + 1)
  {
    hide LinkedBlock, UsedBelow;
    var s, block := nextId, LinkedBlock(nextId, c.perSlab);
    LinkedBlockAll(s, c.perSlab);
    AddCounted(c, slabs, lists, used, nextId, block);
    AddPlaced(lists, place, s, block);
    hide Placed, WithBlock, Counted;
  }

  lemma {:induction false} AddPlaced(lists: Lists, place: map<Obj, Holder>, s: SlabId, block: seq<Obj>)
    requires Placed(lists, place) && NoDup(block) && InSlab(s) !in lists && forall o :: o in block ==> o !in place
    ensures Placed(lists[InSlab(s) := block], WithBlock(place, s, block))
    ensures forall o :: o in WithBlock(place, s, block) <==> o in place || o in block
  {
    hide NoDup;
    var lists', place' := lists[InSlab(s) := block], WithBlock(place, s, block);
    forall h, o | h in lists' && o in lists'[h] ensures IsAt(place', o, h) {
      if h != InSlab(s) { assert IsAt(place, o, h); }
    }
  }

  lemma {:induction false} AddCounted(c: Conf, slabs: map<SlabId, Slab>, lists: Lists, used: nat, nextId: SlabId,
                                      block: seq<Obj>)
    requires Counted(c, slabs, lists, used, nextId) && nextId !in slabs && |block| == c.perSlab
    ensures var slabs' := slabs[nextId := Slab(0, false)];
            && Counted(c, slabs', lists[InSlab(nextId) := block], used, nextId + 1)
  {
    UsedBelowFrame(slabs, slabs[nextId := Slab(0, false)], nextId);
  }

  ghost function WithoutSlab(place: map<Obj, Holder>, s: SlabId): map<Obj, Holder> {
    map o | o in place && o.slab != s :: place[o]
  }

  /** Unmapping a slab with no object in use takes away its own list and nothing else. */
  lemma {:induction false} UnmapOwned(c: Conf, threads: set<Tid>, slabs: map<SlabId, Slab>, lists: Lists,
                                      place: map<Obj, Holder>, used: nat, nextId: SlabId, s: SlabId)
    requires Owned(c, threads, slabs, lists, place) && Counted(c, slabs, lists, used, nextId) && s in slabs
    requires slabs[s].used == 0
    ensures Owned(c, threads, slabs - {s}, lists - {InSlab(s)}, WithoutSlab(place, s))
    ensures Counted(c, slabs - {s}, lists - {InSlab(s)}, used, nextId)
    ensures forall h, o :: h in lists && h != InSlab(s) && o in lists[h] ==> o.slab != s
  {
    UnmapUnreferenced(c, threads, slabs, lists, place, used, nextId, s);
    UnmapPlaced(lists, place, s);
    UnmapCounted(c, slabs, lists, used, nextId, s);
    hide Placed, Counted;
  }

  lemma {:induction false} UnmapUnreferenced(c: Conf, threads: set<Tid>, slabs: map<SlabId, Slab>, lists: Lists,
                                             place: map<Obj, Holder>, used: nat, nextId: SlabId, s: SlabId)
    requires Owned(c, threads, slabs, lists, place) && Counted(c, slabs, lists, used, nextId) && s in slabs
    requires slabs[s].used == 0
    ensures forall h, o :: h in lists && h != InSlab(s) && o in lists[h] ==> o.slab != s
  {
    forall h, o | h in lists && h != InSlab(s) && o in lists[h] ensures o.slab != s {
      if h.InSlab? {
        assert IsAt(place, o, h);
      } else {
        HeldSlabIsMapped(c, threads, slabs, lists, place, used, nextId, h, o);
      }
    }
  }

  lemma {:induction false} UnmapCounted(c: Conf, slabs: map<SlabId, Slab>, lists: Lists, used: nat, nextId: SlabId,
                                        s: SlabId)
    requires Counted(c, slabs, lists, used, nextId) && s in slabs && slabs[s].used == 0
    ensures Counted(c, slabs - {s}, lists - {InSlab(s)}, used, nextId)
  {
    UsedBelowRemove(slabs, nextId, s);
  }

  lemma {:induction false} UnmapPlaced(lists: Lists, place: map<Obj, Holder>, s: SlabId)
    requires Placed(lists, place) && InSlab(s) in lists && (forall o :: o in lists[InSlab(s)] ==> o.slab == s)
    requires forall h, o :: h in lists && h != InSlab(s) && o in lists[h] ==> o.slab != s
    ensures Placed(lists - {InSlab(s)}, WithoutSlab(place, s))
  {
    hide NoDup;
    var lists', place' := lists - {InSlab(s)}, WithoutSlab(place, s);
    forall h, o | h in lists' && o in lists'[h] ensures IsAt(place', o, h) {
      assert IsAt(place, o, h);
    }
    forall o | o in place' ensures place'[o] in lists' && o in lists'[place'[o]] {
      assert place[o] in lists && o in lists[place[o]];
    }
  }

  // ---------- The small changes, with the lists they leave ----------

  /** The front of a list goes behind a batch. */
  function Spliced(lists: Lists, from: Holder, t: Tid, n: nat): Lists
    requires from in lists && InBatch(t) in lists && n <= |lists[from]|
  {
    lists[from := lists[from][n..]][InBatch(t) := lists[InBatch(t)] + lists[from][..n]]
  }

  lemma SplicedReads(lists: Lists, from: Holder, t: Tid, n: nat)
    requires from in lists && from != InBatch(t) && InBatch(t) in lists && n <= |lists[from]|
    ensures var lists' := Spliced(lists, from, t, n);
            && from in lists' && lists'[from] == lists[from][n..]
            && InBatch(t) in lists' && lists'[InBatch(t)] == lists[InBatch(t)] + lists[from][..n]
            && (from != WithUsers && WithUsers in lists ==>
                  WithUsers in lists' && lists'[WithUsers] == lists[WithUsers])
  {}

  lemma LoadKeeps(c: Conf, threads: set<Tid>, slabs: map<SlabId, Slab>, lists: Lists, place: map<Obj, Holder>,
                  used: nat, nextId: SlabId, t: Tid, s: SlabId, n: nat)
    requires Owned(c, threads, slabs, lists, place) && Counted(c, slabs, lists, used, nextId)
    requires t in threads && s in slabs && n <= |lists[InSlab(s)]|
    ensures var slabs' := slabs[s := slabs[s].(used := slabs[s].used + n)];
            && Owned(c, threads, slabs', Spliced(lists, InSlab(s), t, n),
                     Rehomed(place, lists[InSlab(s)][..n], InBatch(t)))
            && Counted(c, slabs', Spliced(lists, InSlab(s), t, n), used + n, nextId)
  {
    hide Placed;
    OwnedReads(c, threads, slabs, lists, place);
    MovePrefixToEnd(lists, place, InSlab(s), InBatch(t), n);
    var moved := lists[InSlab(s)][..n];
    var lists', place' := Spliced(lists, InSlab(s), t, n), Rehomed(place, moved, InBatch(t));
    assert forall o :: o in lists'[InSlab(s)] ==> o in lists[InSlab(s)];
    assert lists'.Keys == lists.Keys;
    hide Owned, Counted;
    TransferOwned(c, threads, slabs, lists, place, lists', place', used, nextId, s, slabs[s].used + n);
  }

  lemma OwnedReads(c: Conf, threads: set<Tid>, slabs: map<SlabId, Slab>, lists: Lists, place: map<Obj, Holder>)
    requires Owned(c, threads, slabs, lists, place)
    ensures Placed(lists, place) && WithUsers in lists
    ensures forall s :: InSlab(s) in lists <==> s in slabs
    ensures forall t :: t in threads ==> InCache(t) in lists && InBatch(t) in lists
  {}

  function Released(lists: Lists, t: Tid): Lists
    requires InBatch(t) in lists && |lists[InBatch(t)]| > 0 && InSlab(lists[InBatch(t)][0].slab) in lists
  {
    var o := lists[InBatch(t)][0];
    lists[InBatch(t) := lists[InBatch(t)][1..]][InSlab(o.slab) := [o] + lists[InSlab(o.slab)]]
  }

  lemma ReleaseKeeps(c: Conf, threads: set<Tid>, slabs: map<SlabId, Slab>, lists: Lists, place: map<Obj, Holder>,
                     used: nat, nextId: SlabId, t: Tid)
    requires Owned(c, threads, slabs, lists, place) && Counted(c, slabs, lists, used, nextId)
    requires t in threads && |lists[InBatch(t)]| > 0
    ensures var o := lists[InBatch(t)][0];
            && o.slab in slabs && slabs[o.slab].used > 0 && used > 0 && InSlab(o.slab) in lists
            && var slabs' := slabs[o.slab := slabs[o.slab].(used := slabs[o.slab].used - 1)];
            && Owned(c, threads, slabs', Released(lists, t), Rehomed(place, [o], InSlab(o.slab)))
            && Counted(c, slabs', Released(lists, t), used - 1, nextId)
  {
    hide Placed;
    OwnedReads(c, threads, slabs, lists, place);
    var o := lists[InBatch(t)][0];
    HeldSlabIsMapped(c, threads, slabs, lists, place, used, nextId, InBatch(t), o);
    var s := o.slab;
    MovePrefixToFront(lists, place, InBatch(t), InSlab(s), 1);
    assert lists[InBatch(t)][..1] == [o];
    var lists', place' := Released(lists, t), Rehomed(place, [o], InSlab(s));
    assert forall x :: x in lists'[InSlab(s)] ==> x == o || x in lists[InSlab(s)];
    assert lists'.Keys == lists.Keys;
    UsedBelowUpdate(slabs, nextId, s, slabs[s]);
    assert |lists'[InSlab(s)]| == |lists[InSlab(s)]| + 1;
    hide Owned;
    TransferOwned(c, threads, slabs, lists, place, lists', place', used, nextId, s, slabs[s].used - 1);
  }

  /** The map of slabs may change its counts as long as retired slabs stay in use. */
  lemma MappingRecount(slabs: map<SlabId, Slab>, slabs': map<SlabId, Slab>, active: seq<SlabId>, activeCount: nat,
                       unmapped: seq<SlabId>, nextId: SlabId)
    requires Mapping(slabs, active, activeCount, unmapped, nextId) && slabs'.Keys == slabs.Keys
    requires forall s :: s in slabs ==>
               slabs'[s].retired == slabs[s].retired && (slabs[s].retired ==> slabs'[s].used > 0)
    ensures Mapping(slabs', active, activeCount, unmapped, nextId)
  {
    assert forall s :: s in slabs' <==> s in slabs;
  }

  lemma MappingLoad(slabs: map<SlabId, Slab>, active: seq<SlabId>, activeCount: nat, unmapped: seq<SlabId>,
                    nextId: SlabId, s: SlabId, n: nat)
    requires Mapping(slabs, active, activeCount, unmapped, nextId) && s in slabs
    ensures Mapping(slabs[s := slabs[s].(used := slabs[s].used + n)], active, activeCount, unmapped, nextId)
  {
    RetiredInUse(slabs, active, activeCount, unmapped, nextId);
    hide Mapping;
    MappingRecount(slabs, slabs[s := slabs[s].(used := slabs[s].used + n)], active, activeCount, unmapped, nextId);
  }

  /** A retired slab whose last object came home leaves the map and the record of unmapped slabs grows by it. */
  lemma MappingRetiredGone(slabs: map<SlabId, Slab>, slabs': map<SlabId, Slab>, active: seq<SlabId>, activeCount: nat,
                           unmapped: seq<SlabId>, nextId: SlabId, s: SlabId)
    requires Mapping(slabs, active, activeCount, unmapped, nextId) && s in slabs && slabs[s].retired && s < nextId
    requires slabs'.Keys == slabs.Keys - {s} && forall r :: r in slabs' ==> slabs'[r] == slabs[r]
    ensures Mapping(slabs', active, activeCount, unmapped + [s], nextId)
  {
    assert forall r :: r in slabs' <==> r in slabs && r != s;
    NoDupConcat(unmapped, [s]);
  }

  lemma RetiredInUse(slabs: map<SlabId, Slab>, active: seq<SlabId>, activeCount: nat, unmapped: seq<SlabId>,
                     nextId: SlabId)
    requires Mapping(slabs, active, activeCount, unmapped, nextId)
    ensures forall s :: s in slabs && slabs[s].retired ==> slabs[s].used > 0
  {}

  lemma CountedReads(c: Conf, slabs: map<SlabId, Slab>, lists: Lists, used: nat, nextId: SlabId, s: SlabId)
    requires Counted(c, slabs, lists, used, nextId) && s in slabs
    ensures s < nextId && InSlab(s) in lists && slabs[s].used + |lists[InSlab(s)]| == c.perSlab
  {}

  /** Empty caches and batches, and nothing handed out. */
  function EmptyLists(threads: set<Tid>): (lists: Lists)
    ensures forall h :: h in lists ==> lists[h] == []
    ensures forall h :: h in lists <==>
              (h == WithUsers || (h.InCache? && h.t in threads) || (h.InBatch? && h.t in threads))
  {
    var caches := set t | t in threads :: InCache(t);
    var batches := set t | t in threads :: InBatch(t);
    var heads := caches + batches + {WithUsers};
    assert forall h :: h in caches <==> h.InCache? && h.t in threads;
    assert forall h :: h in batches <==> h.InBatch? && h.t in threads;
    map h | h in heads :: []
  }

  function ZeroCounts(threads: set<Tid>): map<Tid, nat> {
    map t | t in threads :: 0
  }

  function AllIdle(threads: set<Tid>): map<Tid, Phase> {
    map t | t in threads :: Idle
  }

  /** A new allocator maps nothing and owns nothing. */
  lemma InitialState(c: Conf, threads: set<Tid>)
    requires Good(c)
    ensures Threads(c, threads, EmptyLists(threads), ZeroCounts(threads), AllIdle(threads), false)
    ensures forall t :: t in threads ==> t in AllIdle(threads) && AllIdle(threads)[t] == Idle
    ensures forall t :: t in threads ==> t in ZeroCounts(threads) && ZeroCounts(threads)[t] == 0
    ensures Owned(c, threads, map[], EmptyLists(threads), map[])
    ensures Counted(c, map[], EmptyLists(threads), 0, 0) && Mapping(map[], [], 0, [], 0)
  {
    hide EmptyLists;
  }

  /** Neither the users' objects nor any cache nor another thread's batch has changed. */
  ghost predicate SameOutside(lists: Lists, lists': Lists, t: Tid) {
    forall h: Holder :: !h.InSlab? && h != InBatch(t) ==> SameAt(lists, lists', h)
  }

  ghost predicate SameAt(lists: Lists, lists': Lists, h: Holder) {
    (h in lists <==> h in lists') && (h in lists ==> lists[h] == lists'[h])
  }

  // ---------- Availability ----------

  function Down(n: nat): seq<SlabId> {
    if n == 0 then [] else [n - 1] + Down(n - 1)
  }

  /** How many objects some slabs hold. */
  function Objects(c: Conf, slabs: nat): nat {
    slabs * c.perSlab
  }

  /** No slab has ever been retired or unmapped: the active list is every slab ever mapped, newest first. */
  ghost predicate Plain(c: Conf, slabs: map<SlabId, Slab>, active: seq<SlabId>, activeCount: nat, unmapped: seq<SlabId>,
                        nextId: SlabId) {
    && active == Down(nextId) && activeCount == nextId && unmapped == [] && |slabs| == nextId
    && Objects(c, nextId) < WORD
    && (forall s :: s in slabs ==> !slabs[s].retired)
  }

  /** What the acquire section computes as available, in 64-bit arithmetic. */
  function Remaining(c: Conf, activeCount: nat, used: nat): (r: nat)
    ensures Estimate(c, activeCount, used, r)
  {
    var x := Objects(c, activeCount) - used;
    SumMod(x % WORD, x, used);
    x % WORD
  }

  /** How many slabs it then maps. */
  function SlabsToAdd(c: Conf, remaining: nat): nat
    requires Good(c)
  {
    if remaining < c.acquire then (c.acquire - remaining) / c.perSlab + 1 else 0
  }

  /** The word that an unsigned subtraction of the objects in use from those of the counted slabs gives. */
  ghost predicate Estimate(c: Conf, activeCount: nat, used: nat, r: nat) {
    r < WORD && (r + used) % WORD == (activeCount * c.perSlab) % WORD
  }

  /** With `r` objects left, a batch is short of `n` slabs: they more than fill the gap, and one fewer would not. */
  ghost predicate ShortBy(c: Conf, r: nat, n: nat) {
    if r >= c.acquire then n == 0
    else n > 0 && (n - 1) * c.perSlab <= c.acquire - r < n * c.perSlab
  }

  /** The number of slabs an acquire asks for. */
  ghost predicate Needs(c: Conf, activeCount: nat, used: nat, n: nat) {
    exists r :: Estimate(c, activeCount, used, r) && ShortBy(c, r, n)
  }

  /** The code's subtraction and division give that number, and there is no other. */
  lemma {:induction false} NeedsExactly(c: Conf, activeCount: nat, used: nat, n: nat)
    requires Good(c)
    ensures Needs(c, activeCount, used, n) <==> n == SlabsToAdd(c, Remaining(c, activeCount, used))
  {
    var r0 := Remaining(c, activeCount, used);
    ShortByExactly(c, r0, SlabsToAdd(c, r0));
    forall r | Estimate(c, activeCount, used, r) ensures r == r0 {
      SumModUnique(r, r0, used);
    }
    if Needs(c, activeCount, used, n) {
      var r :| Estimate(c, activeCount, used, r) && ShortBy(c, r, n);
      ShortByExactly(c, r, n);
    }
  }

  lemma {:induction false} ShortByExactly(c: Conf, r: nat, n: nat)
    requires Good(c)
    ensures ShortBy(c, r, n) <==> n == SlabsToAdd(c, r)
  {
    if r < c.acquire {
      var gap := c.acquire - r;
      Divided(gap, c.perSlab);
      TimesMonotone(gap / c.perSlab, gap / c.perSlab, c.perSlab);
      if ShortBy(c, r, n) {
        TimesMonotone(n - 1, n - 1, c.perSlab);
        ModOf(n - 1, gap - (n - 1) * c.perSlab, c.perSlab);
      }
    }
  }

  lemma {:induction false} FreePlusUsed(c: Conf, slabs: map<SlabId, Slab>, lists: Lists, n: nat)
    requires forall s :: 0 <= s < n ==>
               s in slabs && InSlab(s) in lists && slabs[s].used + |lists[InSlab(s)]| == c.perSlab
    ensures FreeIn(Down(n), lists) + UsedBelow(slabs, n) == Objects(c, n)
  {
    if n > 0 {
      FreePlusUsed(c, slabs, lists, n - 1);
      assert Down(n)[1..] == Down(n - 1);
      OneMoreSlab(c, n - 1);
    }
  }

  /** Without retirement, what is computed as available is exactly what is on the free lists. */
  lemma RemainingIsFree(c: Conf, slabs: map<SlabId, Slab>, lists: Lists, active: seq<SlabId>, activeCount: nat,
                        used: nat, unmapped: seq<SlabId>, nextId: SlabId)
    requires Counted(c, slabs, lists, used, nextId) && Mapping(slabs, active, activeCount, unmapped, nextId)
    requires Plain(c, slabs, active, activeCount, unmapped, nextId)
    ensures Remaining(c, activeCount, used) == FreeIn(active, lists)
  {
    hide FreeIn, UsedBelow, Down, Objects;
    assert forall r :: 0 <= r < nextId ==> r in slabs;
    FreePlusUsed(c, slabs, lists, nextId);
    RemainingValue(c, nextId, used, FreeIn(active, lists));
  }

  lemma RemainingValue(c: Conf, n: nat, used: nat, free: nat)
    requires free + used == Objects(c, n) < WORD
    ensures Remaining(c, n, used) == free
  {
    hide Objects;
    var x := Objects(c, n) - used;
    assert x == free && x % WORD == x;
  }

  /** The computed number of new slabs suffices. */
  lemma EnoughSlabs(c: Conf, remaining: nat)
    requires Good(c)
    ensures remaining + Objects(c, SlabsToAdd(c, remaining)) >= c.acquire
  {
    if remaining < c.acquire {
      var need := c.acquire - remaining;
      assert need == (need / c.perSlab) * c.perSlab + need % c.perSlab;
      assert (need / c.perSlab + 1) * c.perSlab == (need / c.perSlab) * c.perSlab + c.perSlab;
    }
  }

  /** A new allocator's first acquire maps enough, and not much more. */
  lemma FirstGrowth(c: Conf)
    requires Good(c) && c.acquire + c.perSlab < WORD
    ensures Plain(c, map[], [], 0, [], 0)
    ensures var added := SlabsToAdd(c, Remaining(c, 0, 0));
            added == c.acquire / c.perSlab + 1 && c.acquire <= Objects(c, added) < WORD
  {
    assert Remaining(c, 0, 0) == 0 by { RemainingValue(c, 0, 0, 0); }
    EnoughSlabs(c, 0);
    var q := c.acquire / c.perSlab;
    Divided(c.acquire, c.perSlab);
    assert (q + 1) * c.perSlab == q * c.perSlab + c.perSlab;
  }

  /** Only slabs' lists may differ. */
  ghost predicate SameHeld(lists: Lists, lists': Lists) {
    forall h: Holder :: !h.InSlab? ==> SameAt(lists, lists', h)
  }

  lemma MappingAdd(slabs: map<SlabId, Slab>, active: seq<SlabId>, activeCount: nat, unmapped: seq<SlabId>,
                   nextId: SlabId)
    requires Mapping(slabs, active, activeCount, unmapped, nextId) && nextId !in slabs
    ensures Mapping(slabs[nextId := Slab(0, false)], [nextId] + active, activeCount + 1, unmapped, nextId + 1)
  {
    NoDupConcat([nextId], active);
  }

  lemma NextIsFresh(c: Conf, slabs: map<SlabId, Slab>, lists: Lists, used: nat, nextId: SlabId)
    requires Counted(c, slabs, lists, used, nextId)
    ensures nextId !in slabs
  {}

  lemma PlainAdd(c: Conf, slabs: map<SlabId, Slab>, active: seq<SlabId>, activeCount: nat, unmapped: seq<SlabId>,
                 nextId: SlabId)
    requires Plain(c, slabs, active, activeCount, unmapped, nextId) && nextId !in slabs
    requires Objects(c, |slabs| + 1) < WORD
    ensures Plain(c, slabs[nextId := Slab(0, false)], [nextId] + active, activeCount + 1, unmapped, nextId + 1)
  {
    hide Objects;
    var slabs' := slabs[nextId := Slab(0, false)];
    assert slabs'.Keys == slabs.Keys + {nextId};
    assert |slabs'| == |slabs| + 1;
  }

  lemma FreeInAdd(c: Conf, threads: set<Tid>, slabs: map<SlabId, Slab>, lists: Lists, place: map<Obj, Holder>,
                  active: seq<SlabId>, activeCount: nat, unmapped: seq<SlabId>, nextId: SlabId)
    requires Owned(c, threads, slabs, lists, place) && Mapping(slabs, active, activeCount, unmapped, nextId)
    requires nextId !in slabs
    ensures var lists' := lists[InSlab(nextId) := LinkedBlock(nextId, c.perSlab)];
            FreeIn([nextId] + active, lists') == FreeIn(active, lists) + c.perSlab && SameHeld(lists, lists')
  {
    var lists' := lists[InSlab(nextId) := LinkedBlock(nextId, c.perSlab)];
    LinkedBlockAll(nextId, c.perSlab);
    FreeInFrame(active, lists, lists');
    assert ([nextId] + active)[1..] == active;
  }

  lemma ActiveIsMapped(c: Conf, threads: set<Tid>, slabs: map<SlabId, Slab>, lists: Lists, place: map<Obj, Holder>,
                       active: seq<SlabId>, activeCount: nat, unmapped: seq<SlabId>, nextId: SlabId)
    requires Owned(c, threads, slabs, lists, place) && Mapping(slabs, active, activeCount, unmapped, nextId)
    ensures NoDup(active) && |active| <= activeCount
    ensures forall s :: s in active ==> s in slabs && !slabs[s].retired && InSlab(s) in lists
  {}

  lemma SameHeldSelf(lists: Lists)
    ensures SameHeld(lists, lists)
  {}

  lemma SameHeldTrans(a: Lists, b: Lists, c: Lists)
    requires SameHeld(a, b) && SameHeld(b, c)
    ensures SameHeld(a, c)
  {
    forall h: Holder | !h.InSlab? ensures SameAt(a, c, h) {
      assert SameAt(a, b, h) && SameAt(b, c, h);
    }
  }

  // ---------- Loading a batch, slab by slab ----------

  lemma SameOutsideSelf(lists: Lists, t: Tid)
    ensures SameOutside(lists, lists, t)
  {}

  lemma LoadOutside(lists0: Lists, lists: Lists, t: Tid, s: SlabId, n: nat)
    requires SameOutside(lists0, lists, t) && InSlab(s) in lists && InBatch(t) in lists && n <= |lists[InSlab(s)]|
    ensures SameOutside(lists0, Spliced(lists, InSlab(s), t, n), t)
  {
    forall h: Holder | !h.InSlab? && h != InBatch(t) ensures SameAt(lists0, Spliced(lists, InSlab(s), t, n), h) {
      assert SameAt(lists0, lists, h);
    }
  }

  lemma PlainLoad(c: Conf, slabs: map<SlabId, Slab>, active: seq<SlabId>, activeCount: nat, unmapped: seq<SlabId>,
                  nextId: SlabId, s: SlabId, n: nat)
    requires s in slabs
    ensures Plain(c, slabs, active, activeCount, unmapped, nextId) ==>
              Plain(c, slabs[s := slabs[s].(used := slabs[s].used + n)], active, activeCount, unmapped, nextId)
  {
    hide Objects;
    var slabs' := slabs[s := slabs[s].(used := slabs[s].used + n)];
    assert slabs'.Keys == slabs.Keys;
    assert |slabs'| == |slabs|;
  }

  lemma HeldIsOutside(lists: Lists, lists': Lists, t: Tid)
    requires SameHeld(lists, lists')
    ensures SameOutside(lists, lists', t) && SameAt(lists, lists', InBatch(t))
  {}

  lemma SameOutsideTrans(a: Lists, b: Lists, c: Lists, t: Tid)
    requires SameOutside(a, b, t) && SameOutside(b, c, t)
    ensures SameOutside(a, c, t)
  {
    forall h: Holder | !h.InSlab? && h != InBatch(t) ensures SameAt(a, c, h) {
      assert SameAt(a, b, h) && SameAt(b, c, h);
    }
  }

  lemma OutsideRemove(lists0: Lists, lists: Lists, t: Tid, s: SlabId)
    requires SameOutside(lists0, lists, t)
    ensures SameOutside(lists0, lists - {InSlab(s)}, t)
  {
    forall h: Holder | !h.InSlab? && h != InBatch(t) ensures SameAt(lists0, lists - {InSlab(s)}, h) {
      assert SameAt(lists0, lists, h);
    }
  }

  lemma PlainReads(c: Conf, slabs: map<SlabId, Slab>, active: seq<SlabId>, activeCount: nat, unmapped: seq<SlabId>,
                   nextId: SlabId)
    requires Plain(c, slabs, active, activeCount, unmapped, nextId)
    ensures forall s :: s in slabs ==> !slabs[s].retired
  {}

  lemma PlainRelease(c: Conf, slabs: map<SlabId, Slab>, slabs': map<SlabId, Slab>, active: seq<SlabId>,
                     activeCount: nat, unmapped: seq<SlabId>, nextId: SlabId)
    requires Plain(c, slabs, active, activeCount, unmapped, nextId)
    requires forall s :: s in slabs' <==> s in slabs
    requires forall s :: s in slabs' ==> slabs'[s].retired == slabs[s].retired
    ensures Plain(c, slabs', active, activeCount, unmapped, nextId)
  {
    assert slabs'.Keys == slabs.Keys;
  }

  // ---------- Retirement ----------

  /** The slab next in line leaves the active list, unmapped or set aside, or stays. */
  lemma RetireOne(slabs: map<SlabId, Slab>, kept: seq<SlabId>, rest: seq<SlabId>, activeCount: nat,
                  unmapped: seq<SlabId>, nextId: SlabId)
    requires Mapping(slabs, kept + rest, activeCount, unmapped, nextId) && rest != []
    requires (forall s :: s in slabs ==> s < nextId)
    ensures var s := rest[0];
            && s in slabs && activeCount > 0 && s !in kept && s !in rest[1..]
            && Mapping(slabs - {s}, kept + rest[1..], activeCount, unmapped + [s], nextId)
            && (slabs[s].used > 0 ==>
                  Mapping(slabs[s := slabs[s].(retired := true)], kept + rest[1..], activeCount - 1, unmapped, nextId))
            && kept + [s] + rest[1..] == kept + rest
    ensures forall r :: r in rest <==> r == rest[0] || r in rest[1..]
  {
    SplitActive(kept, rest);
    var s, active, active' := rest[0], kept + rest, kept + rest[1..];
    assert s in active;
    MappingUnmap(slabs, active, active', activeCount, unmapped, nextId, s);
    if slabs[s].used > 0 { MappingRetire(slabs, active, active', activeCount, unmapped, nextId, s); }
    hide Mapping;
  }

  lemma SplitActive(kept: seq<SlabId>, rest: seq<SlabId>)
    requires NoDup(kept + rest) && rest != []
    ensures var s, active' := rest[0], kept + rest[1..];
            && s !in kept && s !in rest[1..] && s !in active' && NoDup(active')
            && kept + [s] + rest[1..] == kept + rest && |active'| == |kept + rest| - 1
            && (forall r :: r in kept + rest <==> r == s || r in active')
    ensures forall r :: r in rest <==> r == rest[0] || r in rest[1..]
  {
    var k, active := |kept|, kept + rest;
    assert active[k] == rest[0] && Without(active, k) == kept + rest[1..];
    NoDupWithout(active, k);
    assert rest == [rest[0]] + rest[1..];
    assert forall r :: r in kept + rest[1..] <==> r in kept || r in rest[1..];
  }

  lemma MappingUnmap(slabs: map<SlabId, Slab>, active: seq<SlabId>, active': seq<SlabId>, activeCount: nat,
                     unmapped: seq<SlabId>, nextId: SlabId, s: SlabId)
    requires Mapping(slabs, active, activeCount, unmapped, nextId) && s in slabs && s < nextId
    requires NoDup(active') && |active'| <= |active| && s !in active'
    requires forall r :: r in active <==> r == s || r in active'
    ensures Mapping(slabs - {s}, active', activeCount, unmapped + [s], nextId)
  {
    NoDupConcat(unmapped, [s]);
  }

  lemma MappingRetire(slabs: map<SlabId, Slab>, active: seq<SlabId>, active': seq<SlabId>, activeCount: nat,
                      unmapped: seq<SlabId>, nextId: SlabId, s: SlabId)
    requires Mapping(slabs, active, activeCount, unmapped, nextId) && s in slabs && slabs[s].used > 0 && activeCount > 0
    requires NoDup(active') && |active'| < |active| && s !in active'
    requires forall r :: r in active <==> r == s || r in active'
    ensures Mapping(slabs[s := slabs[s].(retired := true)], active', activeCount - 1, unmapped, nextId)
  {}

  lemma SameHeldRemove(lists0: Lists, lists: Lists, s: SlabId)
    requires SameHeld(lists0, lists)
    ensures SameHeld(lists0, lists - {InSlab(s)})
  {
    forall h: Holder | !h.InSlab? ensures SameAt(lists0, lists - {InSlab(s)}, h) {
      assert SameAt(lists0, lists, h);
    }
  }

  lemma RetiredCounted(c: Conf, threads: set<Tid>, slabs: map<SlabId, Slab>, lists: Lists, place: map<Obj, Holder>,
                       used: nat, nextId: SlabId, s: SlabId)
    requires Owned(c, threads, slabs, lists, place) && Counted(c, slabs, lists, used, nextId) && s in slabs
    ensures var slabs' := slabs[s := slabs[s].(retired := true)];
            Owned(c, threads, slabs', lists, place) && Counted(c, slabs', lists, used, nextId)
  {
    UsedBelowUpdate(slabs, nextId, s, slabs[s].(retired := true));
  }

  lemma OneMoreSlab(c: Conf, i: nat)
    ensures Objects(c, i + 1) == Objects(c, i) + c.perSlab && Objects(c, 0) == 0
  {}

  lemma {:induction false} ObjectsGrow(c: Conf, i: nat, j: nat)
    requires i <= j
    ensures Objects(c, i) <= Objects(c, j)
  {
    TimesMonotone(i, j, c.perSlab);
  }

  function Least(a: nat, b: nat): nat {
    if a < b then a else b
  }

  lemma IdsBounded(c: Conf, slabs: map<SlabId, Slab>, lists: Lists, used: nat, nextId: SlabId)
    requires Counted(c, slabs, lists, used, nextId)
    ensures forall s :: s in slabs ==> s < nextId
  {}

  // ---------- Threads ----------

  /** A thread's own count agrees with its list and stays below the cap; what it holds in flight fits its phase. */
  ghost predicate Thread(c: Conf, lists: Lists, counts: map<Tid, nat>, phase: map<Tid, Phase>, stopped: bool, t: Tid) {
    && t in counts && t in phase && InCache(t) in lists && InBatch(t) in lists
    && counts[t] == |lists[InCache(t)]| && counts[t] < c.cacheCap
    && (phase[t] == Idle ==> lists[InBatch(t)] == [])
    && (phase[t] == Acquired ==> counts[t] == 0 && (stopped || |lists[InBatch(t)]| == c.acquire))
  }

  ghost predicate Threads(c: Conf, threads: set<Tid>, lists: Lists, counts: map<Tid, nat>, phase: map<Tid, Phase>,
                          stopped: bool) {
    forall t :: t in threads ==> Thread(c, lists, counts, phase, stopped, t)
  }

  /** Nothing that other threads hold has changed. */
  ghost predicate SameOthers(lists: Lists, lists': Lists, t: Tid) {
    forall u: Tid :: u != t ==> SameAt(lists, lists', InCache(u)) && SameAt(lists, lists', InBatch(u))
  }

  lemma OutsideIsOthers(lists: Lists, lists': Lists, t: Tid)
    requires SameOutside(lists, lists', t)
    ensures SameOthers(lists, lists', t) && SameAt(lists, lists', InCache(t)) && SameAt(lists, lists', WithUsers)
  {
    forall u: Tid | u != t ensures SameAt(lists, lists', InCache(u)) && SameAt(lists, lists', InBatch(u)) {
      assert SameAt(lists, lists', InCache(u)) && SameAt(lists, lists', InBatch(u));
    }
  }

  /** A step of one thread leaves every other thread as it was. */
  lemma ThreadsStep(c: Conf, threads: set<Tid>, lists: Lists, lists': Lists, counts: map<Tid, nat>,
                    counts': map<Tid, nat>, phase: map<Tid, Phase>, phase': map<Tid, Phase>, stopped: bool,
                    stopped': bool, t: Tid)
    requires Threads(c, threads, lists, counts, phase, stopped) && SameOthers(lists, lists', t)
    requires forall u :: u != t ==> (u in counts ==> u in counts' && counts'[u] == counts[u])
    requires forall u :: u != t ==> (u in phase ==> u in phase' && phase'[u] == phase[u])
    requires stopped ==> stopped'
    requires t in threads ==> Thread(c, lists', counts', phase', stopped', t)
    ensures Threads(c, threads, lists', counts', phase', stopped')
  {
    forall u | u in threads ensures Thread(c, lists', counts', phase', stopped', u) {
      if u != t { assert Thread(c, lists, counts, phase, stopped, u); }
    }
  }

  /** The same, for a thread's new count and phase. */
  lemma ThreadsMoved(c: Conf, threads: set<Tid>, lists: Lists, lists': Lists, counts: map<Tid, nat>,
                     phase: map<Tid, Phase>, stopped: bool, t: Tid, n: nat, p: Phase)
    requires Threads(c, threads, lists, counts, phase, stopped) && SameOthers(lists, lists', t)
    requires InCache(t) in lists' && InBatch(t) in lists' && n == |lists'[InCache(t)]| < c.cacheCap
    requires p != Acquired && (p == Idle ==> lists'[InBatch(t)] == [])
    ensures Threads(c, threads, lists', counts[t := n], phase[t := p], stopped)
    ensures t in phase && phase[t] == p ==> Threads(c, threads, lists', counts[t := n], phase, stopped)
  {
    hide SameOthers;
    assert t in phase && phase[t] == p ==> phase[t := p] == phase;
    ThreadsStep(c, threads, lists, lists', counts, counts[t := n], phase, phase[t := p], stopped, stopped, t);
  }

  lemma ThreadReads(c: Conf, threads: set<Tid>, lists: Lists, counts: map<Tid, nat>, phase: map<Tid, Phase>,
                    stopped: bool, t: Tid)
    requires Threads(c, threads, lists, counts, phase, stopped) && t in threads
    ensures Thread(c, lists, counts, phase, stopped, t)
  {}

  lemma ThreadsHeld(c: Conf, threads: set<Tid>, lists: Lists, lists': Lists, counts: map<Tid, nat>,
                    phase: map<Tid, Phase>, stopped: bool)
    requires Threads(c, threads, lists, counts, phase, stopped) && SameHeld(lists, lists')
    ensures Threads(c, threads, lists', counts, phase, stopped)
  {
    forall u | u in threads ensures Thread(c, lists', counts, phase, stopped, u) {
      assert Thread(c, lists, counts, phase, stopped, u);
      assert SameAt(lists, lists', InCache(u)) && SameAt(lists, lists', InBatch(u));
    }
  }

  /** A list of objects moves between two heads that are not slabs. */
  function Shifted(lists: Lists, from: Holder, to: Holder, n: nat): Lists
    requires from in lists && to in lists && n <= |lists[from]|
  {
    lists[from := lists[from][n..]][to := lists[from][..n] + lists[to]]
  }

  lemma ShiftedReads(lists: Lists, t: Tid)
    requires InCache(t) in lists && InBatch(t) in lists
    ensures var lists' := Shifted(lists, InBatch(t), InCache(t), |lists[InBatch(t)]|);
            && InBatch(t) in lists' && lists'[InBatch(t)] == []
            && InCache(t) in lists' && lists'[InCache(t)] == lists[InBatch(t)] + lists[InCache(t)]
            && (WithUsers in lists ==> WithUsers in lists' && lists'[WithUsers] == lists[WithUsers])
  {}

  lemma PoppedReads(lists: Lists, t: Tid)
    requires InCache(t) in lists && WithUsers in lists && lists[InCache(t)] != []
    ensures var lists' := Shifted(lists, InCache(t), WithUsers, 1);
            && InCache(t) in lists' && lists'[InCache(t)] == lists[InCache(t)][1..]
            && WithUsers in lists' && lists'[WithUsers] == [lists[InCache(t)][0]] + lists[WithUsers]
            && (InBatch(t) in lists ==> InBatch(t) in lists' && lists'[InBatch(t)] == lists[InBatch(t)])
    ensures lists[InCache(t)][..1] == [lists[InCache(t)][0]] && lists[InCache(t)][0] in lists[InCache(t)]
  {}

  lemma ReleasedReads(lists: Lists, t: Tid)
    requires InBatch(t) in lists && |lists[InBatch(t)]| > 0 && InSlab(lists[InBatch(t)][0].slab) in lists
    ensures var lists' := Released(lists, t);
            && InBatch(t) in lists' && lists'[InBatch(t)] == lists[InBatch(t)][1..] && SameOutside(lists, lists', t)
            && (WithUsers in lists ==> WithUsers in lists' && lists'[WithUsers] == lists[WithUsers])
  {}

  lemma ShiftKeeps(c: Conf, threads: set<Tid>, slabs: map<SlabId, Slab>, lists: Lists, place: map<Obj, Holder>,
                   used: nat, nextId: SlabId, from: Holder, to: Holder, n: nat)
    requires Owned(c, threads, slabs, lists, place) && Counted(c, slabs, lists, used, nextId)
    requires from in lists && to in lists && from != to && !from.InSlab? && !to.InSlab? && n <= |lists[from]|
    ensures var lists' := Shifted(lists, from, to, n); var place' := Rehomed(place, lists[from][..n], to);
            Owned(c, threads, slabs, lists', place') && Counted(c, slabs, lists', used, nextId)
    ensures forall o :: o in lists[from] ==> o !in lists[to]
  {
    hide Counted;
    MovePrefixToFront(lists, place, from, to, n);
    var lists', place' := Shifted(lists, from, to, n), Rehomed(place, lists[from][..n], to);
    assert lists'.Keys == lists.Keys;
    forall o | o in lists[from] ensures o !in lists[to] {
      assert IsAt(place, o, from);
      assert o in lists[to] ==> IsAt(place, o, to);
    }
    ShiftOwned(c, threads, slabs, lists, place, lists', place', used, nextId);
  }

  lemma ShiftOneKeeps(c: Conf, threads: set<Tid>, slabs: map<SlabId, Slab>, lists: Lists, place: map<Obj, Holder>,
                      used: nat, nextId: SlabId, from: Holder, to: Holder, i: nat)
    requires Owned(c, threads, slabs, lists, place) && Counted(c, slabs, lists, used, nextId)
    requires from in lists && to in lists && from != to && !from.InSlab? && !to.InSlab? && i < |lists[from]|
    ensures var o := lists[from][i]; var lists' := lists[from := Without(lists[from], i)][to := [o] + lists[to]];
            Owned(c, threads, slabs, lists', Rehomed(place, [o], to)) && Counted(c, slabs, lists', used, nextId)
  {
    hide Counted;
    MoveOneToFront(lists, place, from, to, i);
    var o := lists[from][i];
    var lists', place' := lists[from := Without(lists[from], i)][to := [o] + lists[to]], Rehomed(place, [o], to);
    assert lists'.Keys == lists.Keys;
    ShiftOwned(c, threads, slabs, lists, place, lists', place', used, nextId);
  }

  lemma ReleasePositive(c: Conf)
    requires Good(c)
    ensures 0 < c.release <= c.cacheCap
  {}

  lemma ShiftOthers(lists: Lists, from: Holder, to: Holder, n: nat, t: Tid)
    requires from in lists && to in lists && n <= |lists[from]|
    requires from in {InCache(t), InBatch(t), WithUsers} && to in {InCache(t), InBatch(t), WithUsers}
    ensures SameOthers(lists, Shifted(lists, from, to, n), t)
  {}

  lemma ShiftOneOthers(lists: Lists, i: nat, o: Obj, t: Tid)
    requires WithUsers in lists && InCache(t) in lists && i < |lists[WithUsers]|
    ensures var lists' := lists[WithUsers := Without(lists[WithUsers], i)][InCache(t) := [o] + lists[InCache(t)]];
            SameOthers(lists, lists', t)
  {}

  lemma SameOthersTrans(a: Lists, b: Lists, c: Lists, t: Tid)
    requires SameOthers(a, b, t) && SameOthers(b, c, t)
    ensures SameOthers(a, c, t)
  {
    forall u: Tid | u != t ensures SameAt(a, c, InCache(u)) && SameAt(a, c, InBatch(u)) {
      assert SameAt(a, b, InCache(u)) && SameAt(b, c, InCache(u));
      assert SameAt(a, b, InBatch(u)) && SameAt(b, c, InBatch(u));
    }
  }

  // ---------- The end ----------

  /** With nothing handed out, cached or in flight, no slab is in use. */
  lemma QuietUnused(c: Conf, threads: set<Tid>, slabs: map<SlabId, Slab>, lists: Lists, place: map<Obj, Holder>,
                    used: nat, nextId: SlabId)
    requires Owned(c, threads, slabs, lists, place) && Counted(c, slabs, lists, used, nextId)
    requires forall h: Holder :: h in lists && !h.InSlab? ==> lists[h] == []
    ensures forall s :: s in slabs ==> slabs[s].used == 0
  {
    forall s | s in slabs ensures slabs[s].used == 0 {
      UsedIsOffList(c, threads, slabs, lists, place, used, nextId, s);
      forall i | 0 <= i < c.perSlab ensures Obj(s, i) in lists[InSlab(s)] {
        var h := place[Obj(s, i)];
        assert Obj(s, i) in lists[h];
        assert h.InSlab?;
        assert h.s == s;
      }
      assert (set i | 0 <= i < c.perSlab && Obj(s, i) !in lists[InSlab(s)]) == {};
    }
  }

  lemma {:induction false} AllUnmapped(ids: seq<SlabId>, n: nat)
    requires NoDup(ids) && forall s :: 0 <= s < n <==> s in ids
    ensures |ids| == n
    decreases n
  {
    if n == 0 {
      FirstMember(ids);
    } else {
      assert n - 1 in ids;
      var k :| 0 <= k < |ids| && ids[k] == n - 1;
      NoDupWithout(ids, k);
      AllUnmapped(Without(ids, k), n - 1);
    }
  }

  lemma NothingMapped(slabs: map<SlabId, Slab>, activeCount: nat, unmapped: seq<SlabId>, nextId: SlabId)
    requires Mapping(slabs, [], activeCount, unmapped, nextId) && forall s :: s in slabs ==> slabs[s].used == 0
    ensures slabs == map[] && NoDup(unmapped) && (forall s :: 0 <= s < nextId <==> s in unmapped)
    ensures |unmapped| == nextId
  {
    assert forall s :: s !in slabs;
    AllUnmapped(unmapped, nextId);
  }

  lemma NothingOwned(c: Conf, threads: set<Tid>, slabs: map<SlabId, Slab>, lists: Lists, place: map<Obj, Holder>)
    requires Owned(c, threads, slabs, lists, place) && slabs == map[]
    ensures forall o :: o !in place
  {}

  /** The slab to be mapped next has no object anywhere yet. */
  lemma BlockUnmapped(c: Conf, threads: set<Tid>, slabs: map<SlabId, Slab>, lists: Lists, place: map<Obj, Holder>,
                      s: SlabId)
    requires Owned(c, threads, slabs, lists, place) && s !in slabs
    ensures InSlab(s) !in lists && forall o :: o in place ==> o.slab != s
  {}

  lemma PlacedMember(lists: Lists, place: map<Obj, Holder>, h: Holder, i: nat)
    requires Placed(lists, place) && h in lists && i < |lists[h]|
    ensures lists[h][i] in lists[h] && lists[h][i] in place
  {
    assert IsAt(place, lists[h][i], h);
  }

  lemma {:induction false} UnusedCount(c: Conf, slabs: map<SlabId, Slab>, lists: Lists, used: nat, nextId: SlabId)
    requires Counted(c, slabs, lists, used, nextId) && forall s :: s in slabs ==> slabs[s].used == 0
    ensures used == 0
  {
    UsedBelowZero(slabs, nextId);
  }

  lemma {:induction false} UsedBelowZero(slabs: map<SlabId, Slab>, n: nat)
    requires forall s :: s in slabs ==> slabs[s].used == 0
    ensures UsedBelow(slabs, n) == 0
  {
    if n > 0 { UsedBelowZero(slabs, n - 1); }
  }
}
