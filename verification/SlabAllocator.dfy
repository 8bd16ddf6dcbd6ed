/**
  The slab allocator with per-thread caches, as a shared state that threads change in
  atomic steps: a step is a thread's own list work, or one section under the lock.  The code
  works on list heads and on the links in memory; `lists` says which objects they spell out.
*/
module SlabAllocator {
  import opened Words
  import opened Chains
  import opened SlabLists
  import opened SlabState
  import opened ObjectLists
  import opened SlabLinks
  import opened SlabSteps

  class TssAllocator {
    const conf: Conf
    const threads: set<Tid>

    var slabs: map<SlabId, Slab>
    var active: seq<SlabId>
    var activeCount: nat
    var usedCount: nat
    var nextId: SlabId
    var unmapped: seq<SlabId>

    const memory: ObjectMemory
    var heads: Heads
    var batches: Batches
    var counts: map<Tid, nat>
    var phase: map<Tid, Phase>
    /** What has been handed out, in nobody's order. */
    var users: seq<Obj>
    /** An assertion of the program has failed. */
    var stopped: bool

    ghost var lists: Lists
    ghost var place: map<Obj, Holder>

    // ---------- Invariant ----------

    /** Heads and links spell out the lists, over exactly the memory that is mapped. */
    ghost predicate Linked()
      reads `heads, `batches, `users, `lists, `place, memory
    {
      && Spelled(memory.next, heads, batches, lists) && Backed(memory.next, place)
      && WithUsers in lists && lists[WithUsers] == users
    }

    /** What the lock protects. */
    ghost predicate Stored()
      reads `slabs, `active, `activeCount, `usedCount, `nextId, `unmapped, `heads, `batches, `users
      reads `lists, `place, memory
    {
      && Good(conf) && Linked()
      && Owned(conf, threads, slabs, lists, place)
      && Counted(conf, slabs, lists, usedCount, nextId)
      && Mapping(slabs, active, activeCount, unmapped, nextId)
    }

    ghost predicate Valid()
      reads this, memory
    {
      Stored() && Threads(conf, threads, lists, counts, phase, stopped)
    }

    ghost function StoreNow(): Store
      reads `slabs, `active, `activeCount, `usedCount, `nextId, `unmapped, `lists
    {
      Store(slabs, active, activeCount, usedCount, nextId, unmapped, lists)
    }

    ghost function Now(): View
      reads this
    {
      View(StoreNow(), users, counts, phase, stopped)
    }

    constructor (conf: Conf, threads: set<Tid>)
      requires Good(conf)
      ensures Valid() && this.conf == conf && this.threads == threads && !stopped
      ensures slabs == map[] && active == [] && activeCount == 0 && usedCount == 0 && nextId == 0 && unmapped == []
      ensures users == [] && fresh(memory)
      ensures forall t :: t in threads ==> t in phase && phase[t] == Idle && t in counts && counts[t] == 0
    {
      hide Owned, Counted, Mapping, Threads, Spelled, Backed, NoHeads, NoBatches, EmptyLists, ZeroCounts, AllIdle;
      this.conf, this.threads := conf, threads;
      slabs, active, activeCount, usedCount, nextId, unmapped := map[], [], 0, 0, 0, [];
      memory := new ObjectMemory();
      heads, batches := NoHeads(threads), NoBatches(threads);
      counts, phase := ZeroCounts(threads), AllIdle(threads);
      users := [];
      stopped := false;
      lists := EmptyLists(threads);
      place := map[];
      InitialState(conf, threads);
      EmptySpelled(threads);
    }

    // ---------- Small changes under the lock ----------

    /** Loads objects from a slab's free list into a thread's batch, as many as it still wants and the slab has. */
    method LoadFromSlab(t: Tid, s: SlabId) returns (n: nat)
      requires Stored() && t in threads && s in slabs && t in batches && batches[t].current < batches[t].target
      modifies `lists, `place, `slabs, `usedCount, `heads, `batches, memory
      ensures Stored() && InSlab(s) in old(lists) && InBatch(t) in old(lists) && n <= |old(lists)[InSlab(s)]|
      ensures n == Least(old(batches[t].target - batches[t].current), |old(lists)[InSlab(s)]|)
      ensures lists == Spliced(old(lists), InSlab(s), t, n)
      ensures slabs == old(slabs[s := slabs[s].(used := slabs[s].used + n)]) && usedCount == old(usedCount) + n
      ensures t in batches && batches[t].target == old(batches[t].target) && batches[t].current == |lists[InBatch(t)]|
    {
      hide Owned, Counted, Mapping, Good, Rehomed, Spelled, Backed, Placed, Spliced, BatchAt, ListAt, Least;
      OwnedReads(conf, threads, slabs, lists, place);
      n := SpliceBatch(t, InSlab(s));
      SplicedReads(lists, InSlab(s), t, n);
      LoadKeeps(conf, threads, slabs, lists, place, usedCount, nextId, t, s, n);
      BackedRehomed(memory.next, place, lists[InSlab(s)][..n], InBatch(t));
      MappingLoad(slabs, active, activeCount, unmapped, nextId, s, n);
      BatchReads(memory.next, heads, batches, Spliced(lists, InSlab(s), t, n), t);
      place := Rehomed(place, lists[InSlab(s)][..n], InBatch(t));
      lists := Spliced(lists, InSlab(s), t, n);
      slabs := slabs[s := slabs[s].(used := slabs[s].used + n)];
      usedCount := usedCount + n;
    }

    /** The links of a load: the front of a list is hung behind a batch. */
    method SpliceBatch(t: Tid, from: Holder) returns (n: nat)
      requires Linked() && Placed(lists, place) && from in lists && (from.InSlab? || from.InCache?)
      requires InBatch(t) in lists
      requires t in batches && batches[t].current < batches[t].target
      modifies `heads, `batches, memory
      ensures n == Least(old(batches[t].target - batches[t].current), |lists[from]|) && n <= |lists[from]|
      ensures Spelled(memory.next, heads, batches, Spliced(lists, from, t, n))
      ensures Backed(memory.next, place) && t in batches && batches[t].target == old(batches[t].target)
    {
      hide Spelled, BatchAt, ListAt, Placed, Disjoint;
      BatchReads(memory.next, heads, batches, lists, t);
      HeadReads(memory.next, heads, batches, lists, from);
      PlacedDisjoint(lists, place, InBatch(t), from);
      ghost var next0 := memory.next;
      var b, head;
      b, head, n := memory.BatchLoad(batches[t], heads[from], lists[InBatch(t)], lists[from]);
      LoadSpelled(next0, heads, batches, lists, place, memory.next, head, b, from, t, n);
      assert forall o :: o in memory.next <==> o in next0;
      heads, batches := heads[from := head], batches[t := b];
    }

    /** Unmaps a slab none of whose objects is in use; its memory is gone afterwards. */
    method Unmap(s: SlabId)
      requires Linked() && Owned(conf, threads, slabs, lists, place) && Counted(conf, slabs, lists, usedCount, nextId)
      requires s in slabs && slabs[s].used == 0
      modifies `slabs, `lists, `place, `unmapped, `heads, memory
      ensures Linked() && Owned(conf, threads, slabs, lists, place) && Counted(conf, slabs, lists, usedCount, nextId)
      ensures slabs == old(slabs) - {s} && lists == old(lists) - {InSlab(s)} && unmapped == old(unmapped) + [s]
      ensures forall h, o :: h in lists && o in lists[h] ==> o.slab != s
      ensures forall o :: o in memory.next <==> o in old(memory.next) && o.slab != s
    {
      hide Owned, Counted, Spelled, Backed, WithoutSlab;
      UnmapOwned(conf, threads, slabs, lists, place, usedCount, nextId, s);
      ghost var next0 := memory.next;
      memory.Unmap(s);
      UnmapSpelled(next0, heads, batches, lists, memory.next, s);
      BackedRemoved(next0, memory.next, place, s);
      slabs := slabs - {s};
      heads := heads - {InSlab(s)};
      lists := lists - {InSlab(s)};
      unmapped := unmapped + [s];
      place := WithoutSlab(place, s);
    }

    /**
      Gives the first object of a thread's batch back to its slab; a retired slab goes with
      its last object.  The batch's head moves along with the loop's own pointer.
    */
    method ReleaseObject(t: Tid)
      requires Stored() && t in threads && t in batches && batches[t].head != Null
      modifies `lists, `place, `slabs, `usedCount, `unmapped, `heads, `batches, memory
      ensures InBatch(t) in old(lists) && |old(lists)[InBatch(t)]| > 0 && t in batches
      ensures batches[t].target == old(batches[t].target)
      ensures Stored() && InBatch(t) in lists && lists[InBatch(t)] == old(lists)[InBatch(t)][1..]
      ensures SameOutside(old(lists), lists, t)
      ensures old(usedCount) > 0 && usedCount == old(usedCount) - 1
      ensures SentHome(t, old(StoreNow()), StoreNow())
    {
      hide Owned, Counted, Mapping, Good, Rehomed, Spelled, BatchAt, ListAt, Placed, SameOutside, Released;
      var s := MoveHome(t);
      if slabs[s].used == 0 && slabs[s].retired {
        CountedReads(conf, slabs, lists, usedCount, nextId, s);
        MappingRetiredGone(old(slabs), slabs - {s}, active, activeCount, unmapped, nextId, s);
        ghost var was := lists;
        Unmap(s);
        OutsideRemove(old(lists), was, t, s);
      } else {
        RetiredInUse(old(slabs), active, activeCount, unmapped, nextId);
        MappingRecount(old(slabs), slabs, active, activeCount, unmapped, nextId);
      }
    }

    /** Links the batch's first object in front of its slab's list. */
    method MoveHome(t: Tid) returns (s: SlabId)
      requires Stored() && t in threads && t in batches && batches[t].head != Null
      modifies `lists, `place, `slabs, `usedCount, `heads, `batches, memory
      ensures InBatch(t) in old(lists) && |old(lists)[InBatch(t)]| > 0 && s == old(lists)[InBatch(t)][0].slab
      ensures Linked() && Owned(conf, threads, slabs, lists, place) && Counted(conf, slabs, lists, usedCount, nextId)
      ensures s in old(slabs) && old(slabs)[s].used > 0
      ensures slabs == old(slabs[s := slabs[s].(used := slabs[s].used - 1)])
      ensures old(usedCount) > 0 && usedCount == old(usedCount) - 1
      ensures InBatch(t) in lists && lists[InBatch(t)] == old(lists)[InBatch(t)][1..]
      ensures SameOutside(old(lists), lists, t)
      ensures InSlab(s) in old(lists) && lists == Released(old(lists), t)
      ensures t in batches && batches[t].target == old(batches[t].target)
    {
      hide Owned, Counted, Mapping, Good, Rehomed, Spelled, Backed, BatchAt, ListAt, Placed, Released;
      hide SameOutside, Rest;
      OwnedReads(conf, threads, slabs, lists, place);
      BatchReads(memory.next, heads, batches, lists, t);
      ReleaseKeeps(conf, threads, slabs, lists, place, usedCount, nextId, t);
      ReleasedReads(lists, t);
      ReleaseSpelled(memory.next, heads, batches, lists, place, t);
      var o := batches[t].head.obj;
      s := o.slab;
      BackedOne(memory.next, place, o, heads[InSlab(s)], InSlab(s));
      var rest := memory.next[o];
      memory.WriteLink(o, heads[InSlab(s)]);
      place := Rehomed(place, [o], InSlab(s));
      lists := Released(lists, t);
      RestTarget(batches[t], rest);
      heads, batches := heads[InSlab(s) := To(o)], batches[t := Rest(batches[t], rest)];
      slabs := slabs[s := slabs[s].(used := slabs[s].used - 1)];
      usedCount := usedCount - 1;
    }

    // ---------- The sections under the lock ----------

    /** Maps one more slab and links its objects, unless the mapping fails or the address space is used up. */
    method AddSlab(granted: bool) returns (ok: bool)
      requires Stored()
      modifies `slabs, `lists, `place, `active, `activeCount, `nextId, `heads, memory
      ensures Stored() && SameHeld(old(lists), lists)
      ensures ok <==> granted && Objects(conf, |old(slabs)| + 1) < WORD
      ensures !ok ==>
                && slabs == old(slabs) && lists == old(lists) && active == old(active)
                && activeCount == old(activeCount) && nextId == old(nextId)
      ensures ok ==>
                && active == [old(nextId)] + old(active)
                && activeCount == old(activeCount) + 1 && nextId == old(nextId) + 1
      ensures ok ==> FreeIn(active, lists) == FreeIn(old(active), old(lists)) + conf.perSlab
      ensures ok ==> slabs == old(slabs)[old(nextId) := Slab(0, false)] && |slabs| == |old(slabs)| + 1
      ensures ok ==> GrownByOne(conf, old(StoreNow()), StoreNow())
      ensures old(PlainNow()) ==> PlainNow()
    {
      hide Owned, Counted, Mapping, Good, FreeIn, SameHeld, Plain, Linked, Objects;
      ok := granted && Objects(conf, |slabs| + 1) < WORD;
      if !ok { SameHeldSelf(lists); return; }
      NextIsFresh(conf, slabs, lists, usedCount, nextId);
      OwnedReads(conf, threads, slabs, lists, place);
      MappingAdd(slabs, active, activeCount, unmapped, nextId);
      FreeInAdd(conf, threads, slabs, lists, place, active, activeCount, unmapped, nextId);
      if PlainNow() { PlainAdd(conf, slabs, active, activeCount, unmapped, nextId); }
      MapSlab();
      active := [nextId] + active;
      activeCount := activeCount + 1;
      nextId := nextId + 1;
    }

    /** Maps the next slab, with all its objects free. */
    method MapSlab()
      requires Stored() && nextId !in slabs
      modifies `slabs, `lists, `place, `heads, memory
      ensures Linked() && Owned(conf, threads, slabs, lists, place)
      ensures Counted(conf, slabs, lists, usedCount, nextId + 1)
      ensures slabs == old(slabs)[nextId := Slab(0, false)] && |slabs| == |old(slabs)| + 1
      ensures lists == old(lists)[InSlab(nextId) := LinkedBlock(nextId, conf.perSlab)]
    {
      hide Owned, Counted, Mapping, Good, LinkedBlock, WithBlock, Spelled, Backed;
      AddOwned(conf, threads, slabs, lists, place, usedCount, nextId);
      BlockUnmapped(conf, threads, slabs, lists, place, nextId);
      LinkSlab(nextId);
      place := WithBlock(place, nextId, LinkedBlock(nextId, conf.perSlab));
      lists := lists[InSlab(nextId) := LinkedBlock(nextId, conf.perSlab)];
      slabs := slabs[nextId := Slab(0, false)];
      assert slabs.Keys == old(slabs).Keys + {nextId};
    }

    /** The links of a new slab. */
    method LinkSlab(s: SlabId)
      requires Linked() && InSlab(s) !in lists && forall o :: o in place ==> o.slab != s
      modifies `heads, memory
      ensures Spelled(memory.next, heads, batches, lists[InSlab(s) := LinkedBlock(s, conf.perSlab)])
      ensures Backed(memory.next, WithBlock(place, s, LinkedBlock(s, conf.perSlab)))
    {
      hide Spelled, ListAt, LinkedBlock, WithBlock;
      ghost var next0, block := memory.next, LinkedBlock(s, conf.perSlab);
      var list := memory.LinkBlock(s, conf.perSlab);
      AddSpelled(next0, heads, batches, lists, memory.next, s, list, block);
      BackedBlock(next0, memory.next, place, s, block);
      heads := heads[InSlab(s) := list];
    }

    ghost predicate PlainNow()
      reads `slabs, `active, `activeCount, `nextId, `unmapped
    {
      Plain(conf, slabs, active, activeCount, unmapped, nextId)
    }

    /** Maps the slabs a batch is short of; stops at the first mapping that fails, keeping those made so far. */
    method AddSlabs(number: nat, grants: nat) returns (err: bool, ghost made: nat)
      requires Stored()
      modifies `slabs, `lists, `place, `active, `activeCount, `nextId, `heads, memory
      ensures Stored() && SameHeld(old(lists), lists)
      ensures Granted(conf, |old(slabs)|, number, grants, made) && (err <==> made < number) && (!err ==> made == number)
      ensures Grown(conf, old(StoreNow()), StoreNow(), made)
      ensures FreeIn(active, lists) == FreeIn(old(active), old(lists)) + Objects(conf, made)
      ensures err <==> number > grants || (number > 0 && Objects(conf, |old(slabs)| + number) >= WORD)
      ensures old(PlainNow()) ==> PlainNow()
    {
      hide Owned, Counted, Mapping, Good, FreeIn, SameHeld, Plain, Objects, Spelled, Grown, GrownByOne, Granted;
      SameHeldSelf(lists);
      OneMoreSlab(conf, 0);
      GrownNone(conf, StoreNow());
      made := 0;
      for i := 0 to number
        invariant made == i && Stored() && SameHeld(old(lists), lists)
        invariant |slabs| == |old(slabs)| + i && i <= grants && (i > 0 ==> Objects(conf, |old(slabs)| + i) < WORD)
        invariant FreeIn(active, lists) == FreeIn(old(active), old(lists)) + Objects(conf, i)
        invariant Grown(conf, old(StoreNow()), StoreNow(), i)
        invariant old(PlainNow()) ==> PlainNow()
      {
        ghost var was, store := lists, StoreNow();
        var ok := AddSlab(i < grants);
        SameHeldTrans(old(lists), was, lists);
        if !ok {
          ObjectsGrow(conf, |old(slabs)| + i + 1, |old(slabs)| + number);
          GrantedIs(conf, |old(slabs)|, number, grants, i);
          return true, made;
        }
        GrownOne(conf, old(StoreNow()), store, StoreNow(), i);
        OneMoreSlab(conf, i);
        made := i + 1;
      }
      GrantedIs(conf, |old(slabs)|, number, grants, number);
      err := false;
    }

    /** Fills a thread's empty batch from the active slabs in order, as far as they go. */
    method LoadBatch(t: Tid)
      requires Stored() && t in threads && t in batches && batches[t] == Batch(Null, Null, 0, conf.acquire)
      modifies `lists, `place, `slabs, `usedCount, `heads, `batches, memory
      ensures Stored() && SameOutside(old(lists), lists, t) && InBatch(t) in lists
      ensures Loaded(conf, t, old(StoreNow()), StoreNow())
      ensures |lists[InBatch(t)]| == Least(conf.acquire, FreeIn(active, old(lists)))
      ensures old(PlainNow()) ==> PlainNow()
      ensures t in batches && batches[t].target == conf.acquire && batches[t].current == |lists[InBatch(t)]|
    {
      hide Stored, FreeIn, Plain, SameOutside, Loading, Loaded, AllEmpty, Spliced, NoDup;
      HeldNow(t);
      ActiveNow();
      SameOutsideSelf(lists, t);
      LoadingNone(t, StoreNow());
      var k := 0;
      while batches[t].current < batches[t].target && k < |active|
        invariant Stored() && 0 <= k <= |active| && InBatch(t) in lists && SameOutside(old(lists), lists, t)
        invariant t in batches && batches[t].target == conf.acquire && batches[t].current == |lists[InBatch(t)]|
        invariant Loading(t, old(StoreNow()), StoreNow()) && batches[t].current <= conf.acquire
        invariant batches[t].current < conf.acquire ==> AllEmpty(active[..k], lists)
        invariant old(PlainNow()) ==> PlainNow()
      {
        var s := active[k];
        ghost var was, slabs0, store := lists, slabs, StoreNow();
        ActiveNow();
        var n := LoadFromSlab(t, s);
        LoadingOne(t, old(StoreNow()), store, StoreNow(), k, n);
        LoadOutside(old(lists), was, t, s, n);
        PlainLoad(conf, slabs0, active, activeCount, unmapped, nextId, s, n);
        k := k + 1;
      }
      LoadingDone(conf, t, old(StoreNow()), StoreNow(), k);
    }

    /**
      The acquire section up to its final assertion: `need` slabs are short by the 64-bit
      estimate, `made` are mapped, and the batch is loaded unless that is fewer.
    */
    method BatchAcquire(t: Tid, grants: nat) returns (err: bool, ghost need: nat, ghost made: nat, ghost grown: Store)
      requires Stored() && t in threads && t in batches && batches[t] == Batch(Null, Null, 0, conf.acquire)
      modifies `slabs, `lists, `place, `active, `activeCount, `nextId, `usedCount, `heads, `batches, memory
      ensures Stored() && SameOutside(old(lists), lists, t) && InBatch(t) in lists
      ensures BatchPath(conf, t, grants, old(StoreNow()), StoreNow(), need, made, grown)
      ensures err <==> made < need
      ensures err <==> need > grants || (need > 0 && Objects(conf, |old(slabs)| + need) >= WORD)
      ensures err ==> lists[InBatch(t)] == []
      ensures !err ==> activeCount == old(activeCount) + need
      ensures !err ==> |lists[InBatch(t)]| == Least(conf.acquire, FreeIn(old(active), old(lists)) + Objects(conf, need))
      ensures old(PlainNow()) ==> PlainNow() && (!err ==> |lists[InBatch(t)]| == conf.acquire)
      ensures t in batches && batches[t].target == conf.acquire && batches[t].current == |lists[InBatch(t)]|
    {
      hide Owned, Counted, Mapping, FreeIn, Plain, SameOutside, SameHeld, Needs, Objects, Good, Granted, Grown, Loaded;
      hide Spelled, BatchAt;
      OwnedReads(conf, threads, slabs, lists, place);
      BatchReads(memory.next, heads, batches, lists, t);
      err, need, made := Grow(grants);
      grown := StoreNow();
      HeldIsOutside(old(lists), lists, t);
      OwnedReads(conf, threads, slabs, lists, place);
      GrownCount(conf, old(StoreNow()), StoreNow(), made);
      if err { return; }
      ghost var was := lists;
      LoadBatch(t);
      SameOutsideTrans(old(lists), was, lists, t);
    }

    /** Maps what the 64-bit estimate of available objects says is missing. */
    method Grow(grants: nat) returns (err: bool, ghost need: nat, ghost made: nat)
      requires Stored()
      modifies `slabs, `lists, `place, `active, `activeCount, `nextId, `heads, memory
      ensures Stored() && SameHeld(old(lists), lists)
      ensures Needs(conf, old(activeCount), old(usedCount), need)
      ensures Granted(conf, |old(slabs)|, need, grants, made) && Grown(conf, old(StoreNow()), StoreNow(), made)
      ensures err <==> made < need
      ensures err <==> need > grants || (need > 0 && Objects(conf, |old(slabs)| + need) >= WORD)
      ensures !err ==> made == need
      ensures FreeIn(active, lists) == FreeIn(old(active), old(lists)) + Objects(conf, made)
      ensures old(PlainNow()) ==> PlainNow() && (!err ==> FreeIn(active, lists) >= conf.acquire)
    {
      hide Owned, Counted, Mapping, FreeIn, Plain, SameHeld, Remaining, Objects, Spelled, Needs, Granted, Grown;
      if PlainNow() {
        RemainingIsFree(conf, slabs, lists, active, activeCount, usedCount, unmapped, nextId);
        EnoughSlabs(conf, Remaining(conf, activeCount, usedCount));
      }
      var remaining := Remaining(conf, activeCount, usedCount);
      var number := 0;
      if remaining < conf.acquire {
        var needed := conf.acquire - remaining;
        number := needed / conf.perSlab + 1;
      }
      need := number;
      NeedsExactly(conf, activeCount, usedCount, need);
      err, made := AddSlabs(number, grants);
    }

    /** Gives every object of a thread's batch back to its slab. */
    method BatchRelease(t: Tid)
      requires Stored() && t in threads && t in batches
      modifies `lists, `place, `slabs, `usedCount, `unmapped, `heads, `batches, memory
      ensures Stored() && SameOutside(old(lists), lists, t) && InBatch(t) in lists && lists[InBatch(t)] == []
      ensures AllReleased(t, old(StoreNow()), StoreNow())
      ensures InBatch(t) in old(lists) && usedCount + |old(lists)[InBatch(t)]| == old(usedCount)
      ensures old(lists)[InBatch(t)] == [] ==> StoreNow() == old(StoreNow())
      ensures t in batches && batches[t] == Batch(Null, Null, 0, old(batches[t].target))
      ensures old(PlainNow()) ==> PlainNow()
    {
      hide Owned, Counted, Mapping, Good, Plain, SameOutside, Spelled, BatchAt, ListAt, ComingHome, SentHome;
      OwnedReads(conf, threads, slabs, lists, place);
      SameOutsideSelf(lists, t);
      NoneHome(t, StoreNow());
      ghost var done: seq<Obj> := [];
      while batches[t].head != Null
        invariant Stored() && SameOutside(old(lists), lists, t) && InBatch(t) in lists
        invariant t in batches && batches[t].target == old(batches[t].target)
        invariant ComingHome(t, old(StoreNow()), StoreNow(), done, lists[InBatch(t)])
        invariant usedCount + |old(lists)[InBatch(t)]| == old(usedCount) + |lists[InBatch(t)]|
        invariant |lists[InBatch(t)]| >= |old(lists)[InBatch(t)]| ==> StoreNow() == old(StoreNow())
        invariant old(PlainNow()) ==> PlainNow()
        decreases |lists[InBatch(t)]|
      {
        ghost var was, store := lists, StoreNow();
        ReleaseObject(t);
        SameOutsideTrans(old(lists), was, lists, t);
        OneHome(t, old(StoreNow()), store, StoreNow(), done, was[InBatch(t)]);
        PlainSentHome(conf, t, store, StoreNow());
        done := done + [was[InBatch(t)][0]];
      }
      BatchReads(memory.next, heads, batches, lists, t);
      WholeBatchHome(t, old(StoreNow()), StoreNow(), done);
      InitBatch(t, batches[t].target);
    }

    /** An empty batch is given a target. */
    method InitBatch(t: Tid, target: nat)
      requires Stored() && t in threads && InBatch(t) in lists && lists[InBatch(t)] == []
      modifies `batches
      ensures Stored() && batches == old(batches)[t := Batch(Null, Null, 0, target)]
    {
      hide Owned, Counted, Mapping, Good, Spelled, Placed;
      OwnedReads(conf, threads, slabs, lists, place);
      BatchInitSpelled(memory.next, heads, batches, lists, place, t, target);
      batches := batches[t := Batch(Null, Null, 0, target)];
    }

    /** Takes a slab out of the active list: unmapped when empty, else set aside until its last object returns. */
    method DropSlab(s: SlabId, kept: seq<SlabId>, rest: seq<SlabId>)
      requires Stored() && rest != [] && s == rest[0] && active == kept + rest && s in slabs
      requires slabs[s].used <= conf.retireThreshold
      modifies `slabs, `lists, `place, `active, `activeCount, `unmapped, `heads, memory
      ensures Stored() && active == kept + rest[1..] && SameHeld(old(lists), lists)
      ensures s !in kept && forall r :: r in rest <==> r == s || r in rest[1..]
      ensures LookedAt(conf, old(StoreNow()), StoreNow(), kept, rest)
      ensures old(slabs)[s].used == 0 ==>
                && slabs == old(slabs) - {s} && unmapped == old(unmapped) + [s] && activeCount == old(activeCount)
                && lists == old(lists) - {InSlab(s)}
      ensures old(slabs)[s].used > 0 ==>
                && slabs == old(slabs)[s := old(slabs)[s].(retired := true)] && unmapped == old(unmapped)
                && old(activeCount) > 0 && activeCount == old(activeCount) - 1 && lists == old(lists)
    {
      hide Owned, Counted, Mapping, Good, SameHeld, Spelled;
      SameHeldSelf(lists);
      IdsBounded(conf, slabs, lists, usedCount, nextId);
      RetireOne(slabs, kept, rest, activeCount, unmapped, nextId);
      active := kept + rest[1..];
      if slabs[s].used == 0 {
        SameHeldRemove(lists, lists, s);
        Unmap(s);
      } else {
        RetiredCounted(conf, threads, slabs, lists, place, usedCount, nextId, s);
        slabs := slabs[s := slabs[s].(retired := true)];
        activeCount := activeCount - 1;
      }
    }

    /** Goes through the active list once: empty slabs are unmapped, nearly empty ones are set aside. */
    method RetireSlabs()
      requires Stored()
      modifies `slabs, `lists, `place, `active, `activeCount, `unmapped, `heads, memory
      ensures Stored() && SameHeld(old(lists), lists) && Swept(conf, old(StoreNow()), StoreNow())
      ensures forall s :: s in active <==>
                s in old(active) && s in old(slabs) && old(slabs)[s].used > conf.retireThreshold
      ensures forall s :: s in active ==> s in slabs && slabs[s] == old(slabs)[s]
      ensures forall s :: s in slabs ==> s in old(slabs) && slabs[s].used == old(slabs)[s].used
      ensures forall s :: s in slabs && !old(slabs)[s].retired ==>
                (slabs[s].retired <==> s in old(active) && 0 < old(slabs)[s].used <= conf.retireThreshold)
      ensures forall s :: s in old(active) && s in old(slabs) && old(slabs)[s].used == 0 ==>
                s in unmapped && s !in slabs
      ensures (forall s :: s in old(slabs) ==> old(slabs)[s].used == 0) ==> activeCount == old(activeCount)
    {
      hide Owned, Counted, Mapping, Good, SameHeld, Linked, Sweeping, LookedAt, Among;
      SweepingNone(conf, StoreNow());
      ActiveIsMapped(conf, threads, slabs, lists, place, active, activeCount, unmapped, nextId);
      var kept, rest := [], active;
      ghost var done: seq<SlabId> := [];
      AmongNone(Busy(conf, slabs));
      while rest != []
        invariant Stored() && active == kept + rest
        invariant Sweeping(conf, old(StoreNow()), StoreNow(), done, rest)
        invariant kept == Among(done, Busy(conf, old(slabs)))
        decreases |rest|
      {
        var s := rest[0];
        ghost var store := StoreNow();
        IdsBounded(conf, slabs, lists, usedCount, nextId);
        RetireOne(slabs, kept, rest, activeCount, unmapped, nextId);
        if slabs[s].used <= conf.retireThreshold {
          DropSlab(s, kept, rest);
          SweepingOne(conf, old(StoreNow()), store, StoreNow(), done, kept, rest);
        } else {
          LookedAtBusy(conf, store, kept, rest);
          SweepingOne(conf, old(StoreNow()), store, StoreNow(), done, kept, rest);
          kept := kept + [s];
        }
        done := done + [s];
        rest := rest[1..];
      }
      AllSwept(conf, old(StoreNow()), StoreNow(), done);
      SweptReads(conf, old(StoreNow()), StoreNow());
    }

    // ---------- Steps ----------

    /**
      The locked part of an allocation that found its cache empty.  A failed mapping gives
      the batch back and reports an error.  A batch that falls short fails an assertion.
      Whether the float ratio asks for retirement is the schedule's choice.
    */
    method AcquireSection(t: Tid, grants: nat, retire: bool) returns (err: bool, ghost need: nat)
      requires Valid() && !stopped && t in threads && phase[t] == Idle && counts[t] == 0
      modifies this, memory
      ensures Valid() && users == old(users) && counts == old(counts)
      ensures Acquires(conf, t, grants, retire, old(Now()), Now())
      ensures err ==> !stopped && phase == old(phase)
      ensures !err ==> phase == old(phase)[t := Acquired]
      ensures Needs(conf, old(activeCount), old(usedCount), need)
      ensures err <==> need > grants || (need > 0 && Objects(conf, |old(slabs)| + need) >= WORD)
      ensures !err ==> (stopped <==> FreeIn(old(active), old(lists)) + Objects(conf, need) < conf.acquire)
      ensures !err && !retire ==> activeCount == old(activeCount) + need
      ensures old(PlainNow()) && !retire ==> PlainNow()
      ensures old(PlainNow()) ==> !stopped
    {
      hide Stored, Threads, PlainNow, FreeIn, Needs, Objects, Good, BatchPath, Swept;
      ghost var made, grown;
      err, need, made, grown := AcquireBatch(t, grants);
      ghost var batched := StoreNow();
      if !err && !stopped && retire {
        ExplicitRetire();
      }
      assert AcquirePath(conf, t, grants, retire, old(Now()), Now(), need, made, grown, batched);
    }

    /** The section without its retirement. */
    method AcquireBatch(t: Tid, grants: nat) returns (err: bool, ghost need: nat, ghost made: nat, ghost grown: Store)
      requires Valid() && !stopped && t in threads && phase[t] == Idle && counts[t] == 0
      modifies `slabs, `lists, `place, `active, `activeCount, `nextId, `usedCount, `unmapped, `heads
      modifies `batches, `phase, `stopped, memory
      ensures Valid() && InBatch(t) in lists
      ensures BatchPath(conf, t, grants, old(StoreNow()), StoreNow(), need, made, grown) && (err <==> made < need)
      ensures err ==> !stopped && phase == old(phase)
      ensures !err ==> phase == old(phase)[t := Acquired] && (stopped <==> |lists[InBatch(t)]| < conf.acquire)
      ensures Needs(conf, old(activeCount), old(usedCount), need)
      ensures err <==> need > grants || (need > 0 && Objects(conf, |old(slabs)| + need) >= WORD)
      ensures !err ==> (stopped <==> FreeIn(old(active), old(lists)) + Objects(conf, need) < conf.acquire)
      ensures !err ==> activeCount == old(activeCount) + need
      ensures old(PlainNow()) ==> PlainNow() && !stopped
    {
      hide Owned, Counted, Mapping, Linked, Good, FreeIn, PlainNow, SameOutside, Needs, Objects, Granted, Grown, Loaded;
      hide Threads, SameOthers;
      ThreadReads(conf, threads, lists, counts, phase, stopped, t);
      OwnedReads(conf, threads, slabs, lists, place);
      ghost var lists0, phase0 := lists, phase;
      err, need, made, grown := AcquireOrRelease(t, grants);
      OutsideIsOthers(lists0, lists, t);
      if !err {
        phase := phase[t := Acquired];
        stopped := batches[t].current < batches[t].target;
      }
      ThreadsStep(conf, threads, lists0, lists, counts, counts, phase0, phase, false, stopped, t);
    }

    /** An acquired batch; or none, when what was loaded before an error has gone home again. */
    method AcquireOrRelease(t: Tid, grants: nat) returns (err: bool, ghost need: nat, ghost made: nat,
                                                          ghost grown: Store)
      requires Stored() && t in threads && InBatch(t) in lists && lists[InBatch(t)] == []
      modifies `slabs, `lists, `place, `active, `activeCount, `nextId, `usedCount, `unmapped, `heads, `batches, memory
      ensures Stored() && SameOutside(old(lists), lists, t) && InBatch(t) in lists && (err ==> lists[InBatch(t)] == [])
      ensures BatchPath(conf, t, grants, old(StoreNow()), StoreNow(), need, made, grown) && (err <==> made < need)
      ensures err <==> need > grants || (need > 0 && Objects(conf, |old(slabs)| + need) >= WORD)
      ensures !err ==> activeCount == old(activeCount) + need
      ensures !err ==> |lists[InBatch(t)]| == Least(conf.acquire, FreeIn(old(active), old(lists)) + Objects(conf, need))
      ensures old(PlainNow()) ==> PlainNow() && (!err ==> |lists[InBatch(t)]| == conf.acquire)
      ensures !err ==> t in batches && batches[t].target == conf.acquire && batches[t].current == |lists[InBatch(t)]|
    {
      hide Stored, PlainNow, FreeIn, SameOutside, Objects, Good, BatchPath;
      InitBatch(t, conf.acquire);
      err, need, made, grown := BatchAcquire(t, grants);
      if err {
        ghost var was := lists;
        BatchRelease(t);
        SameOutsideTrans(old(lists), was, lists, t);
      }
    }

    /** A thread's whole batch goes in front of its cache. */
    method UnloadBatch(t: Tid)
      requires Stored() && t in threads && t in batches && InCache(t) in lists && InBatch(t) in lists
      requires lists[InBatch(t)] != []
      modifies `lists, `place, `heads, `batches, memory
      ensures Stored() && SameOthers(old(lists), lists, t) && InBatch(t) in lists && lists[InBatch(t)] == []
      ensures InCache(t) in lists && lists[InCache(t)] == old(lists)[InBatch(t)] + old(lists)[InCache(t)]
      ensures lists == Shifted(old(lists), InBatch(t), InCache(t), |old(lists)[InBatch(t)]|)
    {
      hide Owned, Counted, Mapping, Good, Rehomed, Spelled, Backed, Placed, Shifted, SameOthers;
      OwnedReads(conf, threads, slabs, lists, place);
      ghost var n := |lists[InBatch(t)]|;
      ShiftOthers(lists, InBatch(t), InCache(t), n, t);
      ShiftedReads(lists, t);
      ShiftKeeps(conf, threads, slabs, lists, place, usedCount, nextId, InBatch(t), InCache(t), n);
      SpliceCache(t);
      BackedRehomed(memory.next, place, lists[InBatch(t)][..n], InCache(t));
      place := Rehomed(place, lists[InBatch(t)][..n], InCache(t));
      lists := Shifted(lists, InBatch(t), InCache(t), n);
    }

    /** The links of an unload: a batch is hung in front of a cache. */
    method SpliceCache(t: Tid)
      requires Linked() && Placed(lists, place) && t in batches && InCache(t) in lists && InBatch(t) in lists
      requires lists[InBatch(t)] != []
      modifies `heads, `batches, memory
      ensures Spelled(memory.next, heads, batches, Shifted(lists, InBatch(t), InCache(t), |lists[InBatch(t)]|))
      ensures Backed(memory.next, place)
    {
      hide Spelled, BatchAt, ListAt, Placed, Disjoint, Shifted;
      BatchReads(memory.next, heads, batches, lists, t);
      HeadReads(memory.next, heads, batches, lists, InCache(t));
      PlacedDisjoint(lists, place, InBatch(t), InCache(t));
      ghost var next0 := memory.next;
      var b, head, count := memory.BatchUnload(batches[t], heads[InCache(t)], lists[InBatch(t)], lists[InCache(t)]);
      UnloadSpelled(next0, heads, batches, lists, place, memory.next, head, b, t);
      assert forall o :: o in memory.next <==> o in next0;
      heads, batches := heads[InCache(t) := head], batches[t := b];
    }

    /** The front of a thread's cache goes into a new batch. */
    method LoadFromCache(t: Tid, target: nat)
      requires Stored() && t in threads && InCache(t) in lists && InBatch(t) in lists && lists[InBatch(t)] == []
      requires 0 < target <= |lists[InCache(t)]|
      modifies `lists, `place, `heads, `batches, memory
      ensures Stored() && lists == Shifted(old(lists), InCache(t), InBatch(t), target)
      ensures t in batches && batches[t].current == batches[t].target == target
    {
      hide Owned, Counted, Mapping, Good, Rehomed, Spelled, Backed, Placed, Spliced, Shifted, BatchAt;
      OwnedReads(conf, threads, slabs, lists, place);
      InitBatch(t, target);
      var n := SpliceBatch(t, InCache(t));
      SplicedReads(lists, InCache(t), t, n);
      FreshIsLoad(lists, t, n);
      ShiftKeeps(conf, threads, slabs, lists, place, usedCount, nextId, InCache(t), InBatch(t), n);
      BackedRehomed(memory.next, place, lists[InCache(t)][..n], InBatch(t));
      place := Rehomed(place, lists[InCache(t)][..n], InBatch(t));
      lists := Shifted(lists, InCache(t), InBatch(t), n);
      BatchReads(memory.next, heads, batches, lists, t);
    }

    /** The head of a thread's cache goes to the caller, who had none of it before. */
    method PopCache(t: Tid) returns (o: Obj)
      requires Stored() && t in threads && InCache(t) in lists && lists[InCache(t)] != []
      modifies `lists, `place, `heads, `users
      ensures Stored() && o == old(lists)[InCache(t)][0] && o !in old(users) && users == [o] + old(users)
      ensures SameOthers(old(lists), lists, t) && InCache(t) in lists
      ensures lists[InCache(t)] == old(lists)[InCache(t)][1..]
      ensures InBatch(t) in old(lists) && InBatch(t) in lists && lists[InBatch(t)] == old(lists)[InBatch(t)]
      ensures WithUsers in old(lists) && lists == Shifted(old(lists), InCache(t), WithUsers, 1)
    {
      hide Owned, Counted, Mapping, Good, Rehomed, Spelled, Backed, Placed, SameOthers, Shifted;
      OwnedReads(conf, threads, slabs, lists, place);
      PoppedReads(lists, t);
      ShiftOthers(lists, InCache(t), WithUsers, 1, t);
      PopSpelled(memory.next, heads, batches, lists, place, t);
      ShiftKeeps(conf, threads, slabs, lists, place, usedCount, nextId, InCache(t), WithUsers, 1);
      o := heads[InCache(t)].obj;
      BackedRehomed(memory.next, place, [o], WithUsers);
      heads := heads[InCache(t) := memory.next[o]];
      place := Rehomed(place, [o], WithUsers);
      lists := Shifted(lists, InCache(t), WithUsers, 1);
      users := [o] + users;
    }

    /** An object a user gives back goes to the front of a thread's cache. */
    method PushCache(t: Tid, i: nat)
      requires Stored() && t in threads && InCache(t) in lists && i < |users|
      modifies `lists, `place, `heads, `users, memory
      ensures Stored() && WithUsers in old(lists) && users == Without(old(users), i)
      ensures lists ==
              old(lists)[WithUsers := Without(old(users), i)][InCache(t) := [old(users)[i]] + old(lists)[InCache(t)]]
      ensures SameOthers(old(lists), lists, t)
    {
      hide Owned, Counted, Mapping, Good, Rehomed, Spelled, Backed, Placed, Without, SameOthers;
      OwnedReads(conf, threads, slabs, lists, place);
      ShiftOneOthers(lists, i, users[i], t);
      PushSpelled(memory.next, heads, batches, lists, place, t, i);
      ShiftOneKeeps(conf, threads, slabs, lists, place, usedCount, nextId, WithUsers, InCache(t), i);
      var o := users[i];
      PlacedMember(lists, place, WithUsers, i);
      BackedOne(memory.next, place, o, heads[InCache(t)], InCache(t));
      memory.WriteLink(o, heads[InCache(t)]);
      heads := heads[InCache(t) := To(o)];
      place := Rehomed(place, [o], InCache(t));
      lists := lists[WithUsers := Without(lists[WithUsers], i)][InCache(t) := [o] + lists[InCache(t)]];
      users := Without(users, i);
    }

    /** Users may write what they like into what they hold. */
    method Scribble(i: nat, link: Link)
      requires Valid() && i < |users|
      modifies memory
      ensures Valid()
    {
      hide Owned, Counted, Mapping, Good, Spelled, Placed, Threads;
      OwnedReads(conf, threads, slabs, lists, place);
      PlacedMember(lists, place, WithUsers, i);
      ScribbleSpelled(memory.next, heads, batches, lists, place, users[i], link);
      memory.WriteLink(users[i], link);
    }

    /** What the code reads of a thread's batch. */
    lemma BatchNow(t: Tid)
      requires Linked() && InBatch(t) in lists
      ensures t in batches && batches[t].current == |lists[InBatch(t)]|
      ensures batches[t].head == Null <==> lists[InBatch(t)] == []
    {
      BatchReads(memory.next, heads, batches, lists, t);
    }

    /** The end of a slow allocation: the batch goes to the cache and its first object to the caller. */
    method UnloadAndPop(t: Tid) returns (o: Obj)
      requires Valid() && !stopped && t in threads && phase[t] == Acquired
      modifies `lists, `place, `counts, `phase, `heads, `batches, `users, memory
      ensures Valid() && o !in old(users) && users == [o] + old(users)
      ensures phase == old(phase)[t := Idle] && counts == old(counts)[t := conf.acquire - 1]
      ensures At(threads, old(Now()), t, Acquired) && Unloads(threads, t, old(Now()), Now())
    {
      hide Stored, Threads, SameOthers, Good;
      ThreadReads(conf, threads, lists, counts, phase, stopped, t);
      HeldNow(t);
      counts := counts[t := counts[t] + batches[t].current];
      o := UnloadFirst(t);
      counts := counts[t := counts[t] - 1];
      phase := phase[t := Idle];
      assert counts == old(counts)[t := counts[t]];
      ThreadsMoved(conf, threads, old(lists), lists, old(counts), old(phase), stopped, t, counts[t], Idle);
    }

    lemma ActiveNow()
      requires Stored()
      ensures NoDup(active) && forall s :: s in active ==> s in slabs && InSlab(s) in lists
    {
      hide Owned, Counted, Mapping, Linked, Good;
      ActiveIsMapped(conf, threads, slabs, lists, place, active, activeCount, unmapped, nextId);
    }

    lemma HeldNow(t: Tid)
      requires Stored() && t in threads
      ensures WithUsers in lists && lists[WithUsers] == users && InCache(t) in lists && InBatch(t) in lists
      ensures t in batches && batches[t].current == |lists[InBatch(t)]|
      ensures 0 < conf.acquire <= conf.cacheCap && 0 < conf.release <= conf.cacheCap
    {
      hide Owned, Counted, Mapping, Spelled, BatchAt, ListAt;
      OwnedReads(conf, threads, slabs, lists, place);
      BatchNow(t);
    }

    /** The batch goes in front of the cache, and what is then first to the caller. */
    method UnloadFirst(t: Tid) returns (o: Obj)
      requires Stored() && t in threads && t in batches && InCache(t) in lists && InBatch(t) in lists
      requires lists[InBatch(t)] != [] && WithUsers in lists
      modifies `lists, `place, `heads, `batches, `users, memory
      ensures Stored() && SameOthers(old(lists), lists, t)
      ensures o == old(lists)[InBatch(t)][0] && o !in old(users) && users == [o] + old(users)
      ensures lists ==
              old(lists)[InBatch(t) := []][InCache(t) := old(lists)[InBatch(t)][1..] + old(lists)[InCache(t)]]
                        [WithUsers := [o] + old(users)]
    {
      hide Owned, Counted, Mapping, Good, SameOthers, Linked, Shifted;
      UsersAre();
      UnloadedLists(lists, t);
      UnloadBatch(t);
      ghost var was := lists;
      o := PopCache(t);
      SameOthersTrans(old(lists), was, lists, t);
    }

    /** A fast allocation. */
    method Pop(t: Tid) returns (o: Obj)
      requires Valid() && !stopped && t in threads && phase[t] == Idle && counts[t] > 0
      modifies `lists, `place, `counts, `heads, `users
      ensures Valid() && o !in old(users) && users == [o] + old(users)
      ensures InCache(t) in old(lists) && |old(lists)[InCache(t)]| > 0 && o == old(lists)[InCache(t)][0]
      ensures counts == old(counts[t := counts[t] - 1])
      ensures At(threads, old(Now()), t, Idle) && Pops(threads, t, old(Now()), Now())
    {
      hide Stored, Good, Threads, SameOthers, Shifted;
      ThreadReads(conf, threads, lists, counts, phase, stopped, t);
      HeldNow(t);
      PoppedLists(lists, users, t);
      o := PopCache(t);
      counts := counts[t := counts[t] - 1];
      ThreadsMoved(conf, threads, old(lists), lists, old(counts), phase, stopped, t, counts[t], Idle);
    }

    /** A free: the object goes to the caller's own cache; a full cache hands `release` objects to a batch. */
    method Free(t: Tid, i: nat)
      requires Valid() && !stopped && t in threads && phase[t] == Idle && i < |users|
      modifies `lists, `place, `counts, `phase, `heads, `batches, `users, memory
      ensures Valid() && users == Without(old(users), i)
      ensures old(counts[t]) + 1 < conf.cacheCap ==> phase == old(phase) && counts == old(counts[t := counts[t] + 1])
      ensures old(counts[t]) + 1 >= conf.cacheCap ==>
                phase == old(phase)[t := Releasing] && counts == old(counts)[t := old(counts[t]) + 1 - conf.release]
      ensures At(threads, old(Now()), t, Idle) && Frees(conf, threads, t, i, old(Now()), Now())
    {
      hide Stored, Good, Threads, SameOthers, Without;
      ThreadReads(conf, threads, lists, counts, phase, stopped, t);
      HeldNow(t);
      PushAndSpill(t, i);
      ThreadsMoved(conf, threads, old(lists), lists, old(counts), old(phase), stopped, t, counts[t], phase[t]);
    }

    /** The object goes to the front of the cache; at the cap, the cache's front goes to a batch. */
    method PushAndSpill(t: Tid, i: nat)
      requires Stored() && t in threads && t in counts && t in phase && InCache(t) in lists && InBatch(t) in lists
      requires lists[InBatch(t)] == [] && counts[t] == |lists[InCache(t)]| < conf.cacheCap && i < |users|
      requires 0 < conf.release <= conf.cacheCap
      modifies `lists, `place, `counts, `phase, `heads, `batches, `users, memory
      ensures Stored() && SameOthers(old(lists), lists, t) && users == Without(old(users), i)
      ensures var full := old(counts[t]) + 1 >= conf.cacheCap;
              var cache, spill := [old(users)[i]] + old(lists)[InCache(t)], if full then conf.release else 0;
              && lists == old(lists)[WithUsers := Without(old(users), i)][InCache(t) := cache[spill..]]
                                    [InBatch(t) := cache[..spill]]
              && counts == old(counts)[t := old(counts[t]) + 1 - spill]
              && phase == if full then old(phase)[t := Releasing] else old(phase)
    {
      hide Stored, SameOthers, Without, Shifted;
      FreedLists(lists, t, users, i, if counts[t] + 1 >= conf.cacheCap then conf.release else 0);
      PushCache(t, i);
      counts := counts[t := counts[t] + 1];
      if counts[t] >= conf.cacheCap {
        ghost var was := lists;
        Spill(t);
        SameOthersTrans(old(lists), was, lists, t);
      }
    }

    /** A cache that has reached its cap hands `release` objects to a batch. */
    method Spill(t: Tid)
      requires Stored() && t in threads && t in counts && InCache(t) in lists && InBatch(t) in lists
      requires lists[InBatch(t)] == [] && counts[t] == |lists[InCache(t)]| == conf.cacheCap
      modifies `lists, `place, `counts, `phase, `heads, `batches, memory
      ensures Stored() && SameOthers(old(lists), lists, t)
      ensures conf.release <= conf.cacheCap && counts == old(counts)[t := conf.cacheCap - conf.release]
      ensures phase == old(phase)[t := Releasing]
      ensures InCache(t) in lists && InBatch(t) in lists && |lists[InCache(t)]| == counts[t]
      ensures counts[t] < conf.cacheCap
      ensures lists == Shifted(old(lists), InCache(t), InBatch(t), conf.release)
    {
      hide Owned, Counted, Mapping, Good, Linked, SameOthers;
      OwnedReads(conf, threads, slabs, lists, place);
      ReleasePositive(conf);
      ShiftOthers(lists, InCache(t), InBatch(t), conf.release, t);
      LoadFromCache(t, conf.release);
      counts := counts[t := counts[t] - batches[t].current];
      phase := phase[t := Releasing];
    }

    /** Empties a thread's cache into a batch. */
    method FullRelease(t: Tid)
      requires Valid() && !stopped && t in threads && phase[t] == Idle
      modifies `lists, `place, `counts, `phase, `heads, `batches, memory
      ensures Valid() && counts == old(counts)[t := 0] && InCache(t) in lists && lists[InCache(t)] == []
      ensures phase == if old(counts[t]) == 0 then old(phase) else old(phase)[t := Releasing]
      ensures At(threads, old(Now()), t, Idle) && Empties(threads, t, old(Now()), Now())
    {
      hide Stored, Good, Threads, SameOthers, Shifted;
      ThreadReads(conf, threads, lists, counts, phase, stopped, t);
      HeldNow(t);
      EmptiedLists(lists, t);
      if counts[t] == 0 { return; }
      ShiftOthers(lists, InCache(t), InBatch(t), counts[t], t);
      LoadFromCache(t, counts[t]);
      ThreadsMoved(conf, threads, old(lists), lists, counts, phase, stopped, t, 0, Releasing);
      counts := counts[t := counts[t] - batches[t].current];
      phase := phase[t := Releasing];
    }

    /** The locked part of a release. */
    method ReleaseSection(t: Tid)
      requires Valid() && !stopped && t in threads && phase[t] == Releasing
      modifies `lists, `place, `slabs, `usedCount, `unmapped, `heads, `batches, `phase, memory
      ensures Valid() && phase == old(phase)[t := Idle] && AllReleased(t, old(StoreNow()), StoreNow())
      ensures At(threads, old(Now()), t, Releasing)
      ensures InBatch(t) in old(lists) && usedCount + |old(lists)[InBatch(t)]| == old(usedCount)
      ensures old(PlainNow()) ==> PlainNow()
    {
      hide Owned, Counted, Mapping, Good, Plain, SameOutside, Threads, SameOthers, Linked, AllReleased;
      ThreadReads(conf, threads, lists, counts, phase, stopped, t);
      OwnedReads(conf, threads, slabs, lists, place);
      BatchNow(t);
      ghost var lists0, phase0 := lists, phase;
      BatchRelease(t);
      phase := phase[t := Idle];
      OutsideIsOthers(lists0, lists, t);
      ThreadsStep(conf, threads, lists0, lists, counts, counts, phase0, phase, stopped, stopped, t);
      OwnedReads(conf, threads, slabs, lists, place);
    }

    method ExplicitRetire()
      requires Valid() && !stopped
      modifies `slabs, `lists, `place, `active, `activeCount, `unmapped, `heads, memory
      ensures Valid() && Swept(conf, old(StoreNow()), StoreNow())
      ensures forall s :: s in active ==> s in old(slabs) && old(slabs)[s].used > conf.retireThreshold
      ensures (forall s :: s in old(slabs) ==> old(slabs)[s].used == 0) ==> activeCount == old(activeCount)
    {
      hide Owned, Counted, Mapping, Good, Threads, SameHeld, Spelled, Swept;
      OwnedReads(conf, threads, slabs, lists, place);
      ghost var was := lists;
      RetireSlabs();
      ThreadsHeld(conf, threads, was, lists, counts, phase, stopped);
      HeldIsOutside(was, lists, 0);
      OutsideIsOthers(was, lists, 0);
      OwnedReads(conf, threads, slabs, lists, place);
    }

    /** A step that its thread is not ready for does nothing. */
    method Do(step: Step)
      requires Valid() && !stopped
      modifies this, memory
      ensures Valid() && StepOf(conf, threads, step, old(Now()), Now())
      ensures old(PlainNow()) && !Retires(step) ==> PlainNow() && !stopped
    {
      hide Stored, PlainNow, Threads, FreeIn, Needs, Objects, Swept, AllReleased, Acquires, Unloads, Pops, Frees;
      hide Empties, At, StoreNow, Thread;
      if step.RetireStep? {
        ExplicitRetire();
      } else if step.ScribbleStep? {
        if step.i < |users| { Scribble(step.i, step.link); }
      } else if step.t in threads {
        AtNow(step.t);
        match step {
          case AcquireStep(t, grants, retire) =>
            if phase[t] == Idle && counts[t] == 0 {
              ghost var need;
              var err;
              err, need := AcquireSection(t, grants, retire);
            }
          case UnloadStep(t) =>
            if phase[t] == Acquired { var o := UnloadAndPop(t); }
          case PopStep(t) =>
            if phase[t] == Idle && counts[t] > 0 { var o := Pop(t); }
          case FreeStep(t, i) =>
            if phase[t] == Idle && i < |users| { Free(t, i); }
          case FullReleaseStep(t) =>
            if phase[t] == Idle { FullRelease(t); }
          case ReleaseStep(t) =>
            if phase[t] == Releasing { ReleaseSection(t); }
        }
      } else {
        NotAt(threads, Now(), step.t);
      }
    }

    lemma AtNow(t: Tid)
      requires Valid() && t in threads
      ensures t in phase && t in counts && forall p :: At(threads, Now(), t, p) <==> p == phase[t]
    {
      hide Stored, Threads;
      ThreadReads(conf, threads, lists, counts, phase, stopped, t);
      HeldNow(t);
    }

    /**
      Any interleaving of any number of threads keeps the invariant until an assertion
      fails; one without retirement fails none.
    */
    method Run(schedule: seq<Step>) returns (ghost states: seq<View>)
      requires Valid() && !stopped
      modifies this, memory
      ensures Valid() && RunOf(conf, threads, schedule, states)
      ensures states[0] == old(Now()) && states[|states| - 1] == Now()
      ensures forall k :: 0 <= k < |states| ==> NoDup(states[k].users)
      ensures old(PlainNow()) && (forall i :: 0 <= i < |schedule| ==> !Retires(schedule[i])) ==> PlainNow() && !stopped
    {
      hide Stored, Threads, PlainNow, NoDup, StepOf;
      var i := 0;
      states := [Now()];
      UsersApart();
      while i < |schedule| && !stopped
        invariant 0 <= i <= |schedule| && Valid()
        invariant |states| == i + 1 && states[0] == old(Now()) && states[i] == Now()
        invariant forall k :: 0 <= k < i ==>
                    !states[k].stopped && StepOf(conf, threads, schedule[k], states[k], states[k + 1])
        invariant forall k :: 0 <= k <= i ==> NoDup(states[k].users)
        invariant old(PlainNow()) && (forall k :: 0 <= k < |schedule| ==> !Retires(schedule[k])) ==>
                    PlainNow() && !stopped
      {
        Do(schedule[i]);
        UsersApart();
        states := states + [Now()];
        i := i + 1;
      }
    }

    lemma UsersAre()
      requires Linked()
      ensures WithUsers in lists && lists[WithUsers] == users
    {}

    lemma UsersApart()
      requires Valid()
      ensures NoDup(users)
    {
      hide Counted, Mapping, Spelled, Threads;
    }

    /** Everything handed out has come back: nothing is with users, in a cache or in flight. */
    ghost predicate Quiet()
      reads this
    {
      forall h: Holder :: h in lists && !h.InSlab? ==> lists[h] == []
    }

    /** The last object handed out is freed, and the thread's cache released with it. */
    method ReturnLast(t: Tid)
      requires Valid() && !stopped && t in threads && t in phase && phase[t] == Idle && t in counts && |users| == 1
      modifies `lists, `place, `slabs, `usedCount, `unmapped, `counts, `phase, `heads, `batches, `users, memory
      ensures Valid() && users == [] && t in phase && phase[t] == Idle && t in counts && counts[t] == 0
      ensures old(PlainNow()) ==> PlainNow()
    {
      hide Threads, Stored, PlainNow, Frees, Empties, AllReleased, StoreNow, At, Without;
      NoneWithout(users);
      Free(t, 0);
      if phase[t] == Releasing { ReleaseSection(t); }
      FullRelease(t);
      if phase[t] == Releasing { ReleaseSection(t); }
    }

    lemma PlainCount()
      requires PlainNow()
      ensures nextId == activeCount
    {}

    lemma NewIsPlain()
      requires Plain(conf, map[], [], 0, [], 0)
      requires slabs == map[] && active == [] && activeCount == 0 && unmapped == [] && nextId == 0
      ensures PlainNow()
    {}

    /** A lone idle thread with an empty cache, and nothing handed out. */
    lemma QuietAlone(t: Tid)
      requires Valid() && threads == {t} && users == [] && t in counts && counts[t] == 0 && t in phase
      requires phase[t] == Idle
      ensures Quiet()
    {
      hide Counted, Mapping, Spelled, Placed;
      ThreadReads(conf, threads, lists, counts, phase, stopped, t);
    }

    /**
      Once everything has come back, destroying the allocator completes the unmapping: every
      slab ever mapped, exactly once.
    */
    method Destroy()
      requires Valid() && Quiet()
      modifies `slabs, `lists, `place, `active, `unmapped, `heads, memory
      ensures slabs == map[] && active == [] && memory.next == map[]
      ensures NoDup(unmapped) && (forall s :: 0 <= s < nextId <==> s in unmapped) && |unmapped| == nextId
    {
      hide Threads, Good, Owned, Counted, Mapping, Spelled;
      QuietUnused(conf, threads, slabs, lists, place, usedCount, nextId);
      while active != []
        invariant Linked()
        invariant Owned(conf, threads, slabs, lists, place) && Counted(conf, slabs, lists, usedCount, nextId)
        invariant Mapping(slabs, active, activeCount, unmapped, nextId)
        invariant forall s :: s in slabs ==> slabs[s].used == 0
        decreases |active|
      {
        var s := active[0];
        assert [] + active == active && [] + active[1..] == active[1..];
        IdsBounded(conf, slabs, lists, usedCount, nextId);
        RetireOne(slabs, [], active, activeCount, unmapped, nextId);
        active := active[1..];
        Unmap(s);
      }
      NothingMapped(slabs, activeCount, unmapped, nextId);
      NothingOwned(conf, threads, slabs, lists, place);
    }
  }

  /**
    An empty slab that is retired still counts as active, so the estimate goes on promising
    its objects.  Retiring an idle allocator that could have served one batch makes the next
    slow allocation fail its assertion, however many mappings would succeed.
  */
  method RetirementStopsNextAcquire(a: TssAllocator, t: Tid, grants: nat)
    requires a.Valid() && !a.stopped && a.Quiet() && a.PlainNow() && Objects(a.conf, a.nextId) >= a.conf.acquire
    requires t in a.threads && t in a.phase && a.phase[t] == Idle && t in a.counts && a.counts[t] == 0
    modifies a, a.memory
    ensures a.stopped
  {
    hide Threads, Owned, Counted, Mapping, Spelled;
    QuietUnused(a.conf, a.threads, a.slabs, a.lists, a.place, a.usedCount, a.nextId);
    UnusedCount(a.conf, a.slabs, a.lists, a.usedCount, a.nextId);
    a.ExplicitRetire();
    FirstMember(a.active);
    RemainingValue(a.conf, a.nextId, 0, Objects(a.conf, a.nextId));
    OneMoreSlab(a.conf, 0);
    NeedsExactly(a.conf, a.activeCount, a.usedCount, 0);
    ghost var count, used := a.activeCount, a.usedCount;
    ghost var need;
    var err;
    err, need := a.AcquireSection(t, grants, false);
    NeedsExactly(a.conf, count, used, need);
  }

  /**
    That state is reached from a new allocator: one thread allocates an object, frees it,
    releases its cache and retires the slabs; its next allocation fails the assertion.
  */
  method RetirementReachesStop(conf: Conf, t: Tid, grants: nat) returns (a: TssAllocator)
    requires Good(conf) && conf.acquire + conf.perSlab < WORD && grants > conf.acquire / conf.perSlab
    ensures fresh(a) && a.conf == conf && a.stopped
  {
    hide Threads, TssAllocator.Stored, TssAllocator.PlainNow, Remaining, SlabsToAdd, Objects, FreeIn, Plain;
    hide Needs, Acquires, Unloads, At, TssAllocator.StoreNow, TssAllocator.Now;
    a := new TssAllocator(conf, {t});
    FirstGrowth(conf);
    a.NewIsPlain();
    ghost var need;
    var err;
    err, need := a.AcquireSection(t, grants, false);
    NeedsExactly(conf, 0, 0, need);
    a.PlainCount();
    var o := a.UnloadAndPop(t);
    a.ReturnLast(t);
    a.QuietAlone(t);
    RetirementStopsNextAcquire(a, t, grants);
  }
}
