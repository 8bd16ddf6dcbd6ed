/**
  What each step of the allocator does, as a relation between the states before and after it,
  and what follows for every run that is told step by step.
*/
module SlabSteps {
  import opened Words
  import opened Chains
  import opened SlabLists
  import opened SlabState
  import opened ObjectLists

  datatype Step =
    | AcquireStep(t: Tid, grants: nat, retire: bool)
    | UnloadStep(t: Tid)
    | PopStep(t: Tid)
    | FreeStep(t: Tid, i: nat)
    | FullReleaseStep(t: Tid)
    | ReleaseStep(t: Tid)
    | RetireStep
    | ScribbleStep(i: nat, link: Link)

  predicate Retires(step: Step) {
    step.RetireStep? || (step.AcquireStep? && step.retire)
  }

  /** The slabs, and where every object is. */
  datatype Store = Store(slabs: map<SlabId, Slab>, active: seq<SlabId>, activeCount: nat, usedCount: nat,
                         nextId: SlabId, unmapped: seq<SlabId>, lists: Lists)

  /** The store, what has been handed out, and how far every thread is. */
  datatype View = View(store: Store, users: seq<Obj>, counts: map<Tid, nat>, phase: map<Tid, Phase>, stopped: bool)

  // ---------- Mapping ----------

  /** The slabs numbered from `from` on, the last first. */
  ghost function Newest(from: SlabId, made: nat): seq<SlabId> {
    if made == 0 then [] else [from + made - 1] + Newest(from, made - 1)
  }

  /** `made` more slabs head the active list, all their objects free; nothing else has changed. */
  ghost predicate Grown(c: Conf, v: Store, v': Store, made: nat) {
    && v'.nextId == v.nextId + made && v'.activeCount == v.activeCount + made
    && v'.usedCount == v.usedCount && v'.unmapped == v.unmapped
    && v'.active == Newest(v.nextId, made) + v.active
    && (forall s :: s in v'.slabs <==> s in v.slabs || v.nextId <= s < v'.nextId)
    && (forall s :: s in v'.slabs ==> v'.slabs[s] == if s in v.slabs then v.slabs[s] else Slab(0, false))
    && (forall h :: h in v'.lists <==> h in v.lists || (h.InSlab? && v.nextId <= h.s < v'.nextId))
    && (forall h :: h in v'.lists ==>
          v'.lists[h] == if h in v.lists then v.lists[h] else if h.InSlab? then LinkedBlock(h.s, c.perSlab) else [])
  }

  /** One more slab. */
  ghost predicate GrownByOne(c: Conf, v: Store, v': Store) {
    && v.nextId !in v.slabs && InSlab(v.nextId) !in v.lists
    && v' == v.(slabs := v.slabs[v.nextId := Slab(0, false)], active := [v.nextId] + v.active,
                activeCount := v.activeCount + 1, nextId := v.nextId + 1,
                lists := v.lists[InSlab(v.nextId) := LinkedBlock(v.nextId, c.perSlab)])
  }

  lemma GrownNone(c: Conf, v: Store)
    ensures Grown(c, v, v, 0)
  {}

  lemma GrownCount(c: Conf, v: Store, v': Store, made: nat)
    requires Grown(c, v, v', made)
    ensures v'.activeCount == v.activeCount + made && v'.usedCount == v.usedCount
  {}

  lemma GrownOne(c: Conf, v: Store, w: Store, w': Store, made: nat)
    requires Grown(c, v, w, made) && GrownByOne(c, w, w')
    ensures Grown(c, v, w', made + 1)
  {
    Regroup([w.nextId], Newest(v.nextId, made), v.active);
    assert Newest(v.nextId, made + 1) == [w.nextId] + Newest(v.nextId, made);
  }

  /**
    Of `number` mappings asked for, with `have` slabs mapped, `made` succeed: the first that is
    not granted, or that would outgrow the address space, ends it.
  */
  ghost predicate Granted(c: Conf, have: nat, number: nat, grants: nat, made: nat) {
    && made <= number && made <= grants
    && (made > 0 ==> (have + made) * c.perSlab < WORD)
    && (made < number ==> made == grants || (have + made + 1) * c.perSlab >= WORD)
  }

  lemma GrantedIs(c: Conf, have: nat, number: nat, grants: nat, made: nat)
    requires made <= number && made <= grants && (made > 0 ==> Objects(c, have + made) < WORD)
    requires made < number ==> made == grants || Objects(c, have + made + 1) >= WORD
    ensures Granted(c, have, number, grants, made)
  {}

  // ---------- Loading ----------

  /** The free objects of some slabs, in the order in which a batch takes them. */
  ghost function AllFree(active: seq<SlabId>, lists: Lists): seq<Obj> {
    if active == [] then []
    else (if InSlab(active[0]) in lists then lists[InSlab(active[0])] else []) + AllFree(active[1..], lists)
  }

  lemma {:induction false} AllFreeLength(active: seq<SlabId>, lists: Lists)
    ensures |AllFree(active, lists)| == FreeIn(active, lists)
  {
    if active != [] { AllFreeLength(active[1..], lists); }
  }

  lemma {:induction false} AllFreeSplit(a: seq<SlabId>, b: seq<SlabId>, lists: Lists)
    ensures AllFree(a + b, lists) == AllFree(a, lists) + AllFree(b, lists)
  {
    if a == [] {
      assert a + b == b;
    } else {
      assert (a + b)[1..] == a[1..] + b;
      AllFreeSplit(a[1..], b, lists);
    }
  }

  lemma {:induction false} AllFreeFrame(active: seq<SlabId>, lists: Lists, lists': Lists)
    requires forall s :: s in active ==> SameAt(lists, lists', InSlab(s))
    ensures AllFree(active, lists) == AllFree(active, lists')
  {
    if active != [] {
      assert active[0] in active;
      assert SameAt(lists, lists', InSlab(active[0]));
      AllFreeFrame(active[1..], lists, lists');
    }
  }

  /** Slabs whose lists are empty have nothing to give. */
  ghost predicate AllEmpty(active: seq<SlabId>, lists: Lists) {
    forall s :: s in active ==> InSlab(s) in lists && lists[InSlab(s)] == []
  }

  lemma {:induction false} AllFreeEmpty(active: seq<SlabId>, lists: Lists)
    requires AllEmpty(active, lists)
    ensures AllFree(active, lists) == []
  {
    if active != [] {
      assert active[0] in active;
      AllFreeEmpty(active[1..], lists);
    }
  }

  /**
    Thread `t`'s batch has the first free objects of the active slabs, as many as an acquire
    wants or as there are; the rest are still in their slabs, in the same order.
  */
  ghost predicate Loaded(c: Conf, t: Tid, v: Store, v': Store) {
    && InBatch(t) in v'.lists
    && |v'.lists[InBatch(t)]| == Least(c.acquire, |AllFree(v.active, v.lists)|)
    && Loading(t, v, v')
  }

  /** The batch and the slabs' lists, at any moment of a load. */
  ghost predicate Loading(t: Tid, v: Store, v': Store) {
    && InBatch(t) in v'.lists && v'.lists.Keys == v.lists.Keys && v'.slabs.Keys == v.slabs.Keys
    && AllFree(v.active, v.lists) == v'.lists[InBatch(t)] + AllFree(v.active, v'.lists)
    && v' == v.(slabs := v'.slabs, lists := v'.lists, usedCount := v.usedCount + |v'.lists[InBatch(t)]|)
    && (forall h :: h in v.lists && h != InBatch(t) && !(h.InSlab? && h.s in v.active) ==> v'.lists[h] == v.lists[h])
    && (forall s :: s in v.slabs ==> v'.slabs[s].retired == v.slabs[s].retired)
    && (forall s :: s in v.slabs && InSlab(s) in v.lists ==>
          v'.slabs[s].used + |v'.lists[InSlab(s)]| == v.slabs[s].used + |v.lists[InSlab(s)]|)
  }

  lemma LoadingNone(t: Tid, v: Store)
    requires InBatch(t) in v.lists && v.lists[InBatch(t)] == []
    ensures Loading(t, v, v) && AllEmpty(v.active[..0], v.lists)
  {}

  /** One slab gives the front of its list, those before it in the active list having nothing left. */
  lemma LoadingOne(t: Tid, v: Store, w: Store, w': Store, k: nat, n: nat)
    requires Loading(t, v, w) && NoDup(v.active) && k < |v.active| && AllEmpty(v.active[..k], w.lists)
    requires var h := InSlab(v.active[k]); h in w.lists && h.s in w.slabs && n <= |w.lists[h]|
    requires var s := v.active[k];
             && w'.lists == Spliced(w.lists, InSlab(s), t, n)
             && w' == w.(slabs := w.slabs[s := w.slabs[s].(used := w.slabs[s].used + n)], lists := w'.lists,
                         usedCount := w.usedCount + n)
    ensures Loading(t, v, w') && InBatch(t) in w'.lists
    ensures n == |w.lists[InSlab(v.active[k])]| ==> AllEmpty(v.active[..k + 1], w'.lists)
    ensures |w'.lists[InBatch(t)]| == |w.lists[InBatch(t)]| + n
  {
    var s := v.active[k];
    LoadedFree(t, v.active, w.lists, k, n);
    var front := w.lists[InSlab(s)][..n];
    Regroup(w.lists[InBatch(t)], front, AllFree(v.active, w'.lists));
    SplicedSizes(w.lists, InSlab(s), t, n);
    NowEmpty(v.active, w.lists, w'.lists, k, t);
    hide AllFree, AllEmpty, NoDup;
    assert s in v.active;
    assert w'.lists.Keys == w.lists.Keys && w'.slabs.Keys == w.slabs.Keys;
  }

  lemma NowEmpty(active: seq<SlabId>, lists: Lists, lists': Lists, k: nat, t: Tid)
    requires k < |active| && AllEmpty(active[..k], lists) && InSlab(active[k]) in lists' && lists'.Keys >= lists.Keys
    requires forall h :: h in lists && h != InSlab(active[k]) && h != InBatch(t) ==> lists'[h] == lists[h]
    ensures lists'[InSlab(active[k])] == [] ==> AllEmpty(active[..k + 1], lists')
  {
    forall r | r in active[..k + 1] && r != active[k] ensures InSlab(r) in lists' && lists'[InSlab(r)] == [] {
      assert r in active[..k];
      assert InSlab(r) in lists;
    }
  }

  /** A load ends when the batch is full or the active slabs have nothing left. */
  lemma LoadingDone(c: Conf, t: Tid, v: Store, v': Store, k: nat)
    requires Loading(t, v, v') && k <= |v.active| && |v'.lists[InBatch(t)]| <= c.acquire
    requires |v'.lists[InBatch(t)]| < c.acquire ==> k == |v.active| && AllEmpty(v.active[..k], v'.lists)
    ensures Loaded(c, t, v, v')
    ensures |v'.lists[InBatch(t)]| == Least(c.acquire, FreeIn(v.active, v.lists))
  {
    AllFreeLength(v.active, v.lists);
    if |v'.lists[InBatch(t)]| < c.acquire {
      assert v.active[..k] == v.active;
      AllFreeEmpty(v.active, v'.lists);
    }
  }

  lemma SplicedSizes(lists: Lists, from: Holder, t: Tid, n: nat)
    requires from in lists && from.InSlab? && InBatch(t) in lists && n <= |lists[from]|
    ensures var lists' := Spliced(lists, from, t, n);
            && lists'[InBatch(t)] == lists[InBatch(t)] + lists[from][..n] && lists'[from] == lists[from][n..]
            && |lists'[InBatch(t)]| == |lists[InBatch(t)]| + n && |lists'[from]| + n == |lists[from]|
            && (forall h :: h in lists && h != from && h != InBatch(t) ==> lists'[h] == lists[h])
  {}

  lemma LoadedFree(t: Tid, active: seq<SlabId>, lists: Lists, k: nat, n: nat)
    requires NoDup(active) && k < |active| && AllEmpty(active[..k], lists)
    requires InSlab(active[k]) in lists && n <= |lists[InSlab(active[k])]| && InBatch(t) in lists
    ensures var lists' := Spliced(lists, InSlab(active[k]), t, n);
            AllFree(active, lists) == lists[InSlab(active[k])][..n] + AllFree(active, lists')
  {
    var s := active[k];
    var lists' := Spliced(lists, InSlab(s), t, n);
    forall r | r in active[..k] || r in active[k + 1..] ensures SameAt(lists, lists', InSlab(r)) {
      assert r != s;
    }
    AllFreeFrame(active[k + 1..], lists, lists');
    assert AllEmpty(active[..k], lists') by {
      forall r | r in active[..k] ensures InSlab(r) in lists' && lists'[InSlab(r)] == [] {
        assert SameAt(lists, lists', InSlab(r));
      }
    }
    AllFreeAt(active, lists, k);
    AllFreeAt(active, lists', k);
    var own := lists[InSlab(s)];
    assert own == own[..n] + own[n..];
    Regroup(own[..n], own[n..], AllFree(active[k + 1..], lists));
  }

  lemma AllFreeAt(active: seq<SlabId>, lists: Lists, k: nat)
    requires k < |active| && AllEmpty(active[..k], lists) && InSlab(active[k]) in lists
    ensures AllFree(active, lists) == lists[InSlab(active[k])] + AllFree(active[k + 1..], lists)
  {
    assert active == active[..k] + active[k..];
    AllFreeSplit(active[..k], active[k..], lists);
    AllFreeEmpty(active[..k], lists);
    assert active[k..][1..] == active[k + 1..];
  }

  // ---------- Releasing ----------

  /** A batch's objects of one slab, in the order in which they end up on its list: the last one first. */
  ghost function Home(batch: seq<Obj>, s: SlabId): seq<Obj> {
    if batch == [] then []
    else (if batch[|batch| - 1].slab == s then [batch[|batch| - 1]] else []) + Home(batch[..|batch| - 1], s)
  }

  /** A retired slab whose objects in use are all among those that come home. */
  ghost predicate LastHome(v: Store, batch: seq<Obj>, s: SlabId) {
    s in v.slabs && v.slabs[s].retired && Home(batch, s) != [] && v.slabs[s].used == |Home(batch, s)|
  }

  /** `done` has gone home from thread `t`'s batch and `rest` is still there. */
  ghost predicate ComingHome(t: Tid, v: Store, v': Store, done: seq<Obj>, rest: seq<Obj>) {
    && v' == v.(slabs := v'.slabs, lists := v'.lists, usedCount := v'.usedCount, unmapped := v'.unmapped)
    && v'.usedCount + |done| == v.usedCount && SlabsHome(v, v', done) && ListsHome(t, v, v', done, rest)
  }

  ghost predicate SlabsHome(v: Store, v': Store, done: seq<Obj>) {
    && (forall s :: s in v'.slabs <==> s in v.slabs && !LastHome(v, done, s))
    && (forall s :: s in v'.slabs ==>
          v'.slabs[s].retired == v.slabs[s].retired && v'.slabs[s].used + |Home(done, s)| == v.slabs[s].used)
    && v.unmapped <= v'.unmapped
    && (forall s :: s in v'.unmapped <==> s in v.unmapped || LastHome(v, done, s))
  }

  ghost predicate ListsHome(t: Tid, v: Store, v': Store, done: seq<Obj>, rest: seq<Obj>) {
    && InBatch(t) in v.lists && v.lists[InBatch(t)] == done + rest
    && InBatch(t) in v'.lists && v'.lists[InBatch(t)] == rest
    && (forall h :: h in v'.lists <==> h in v.lists && !(h.InSlab? && LastHome(v, done, h.s)))
    && (forall h :: h in v'.lists && h != InBatch(t) ==>
          v'.lists[h] == if h.InSlab? then Home(done, h.s) + v.lists[h] else v.lists[h])
  }

  /**
    The whole batch has gone home.  A retired slab that had nothing else in use is unmapped,
    and no other slab is.
  */
  ghost predicate AllReleased(t: Tid, v: Store, v': Store) {
    InBatch(t) in v.lists && ComingHome(t, v, v', v.lists[InBatch(t)], [])
  }

  /** The batch's first object goes in front of its slab's list; a retired slab goes with its last object. */
  ghost predicate SentHome(t: Tid, v: Store, v': Store) {
    && InBatch(t) in v.lists && |v.lists[InBatch(t)]| > 0
    && var s := v.lists[InBatch(t)][0].slab;
    && s in v.slabs && v.slabs[s].used > 0 && v.usedCount > 0 && InSlab(s) in v.lists
    && var w := v.(slabs := v.slabs[s := v.slabs[s].(used := v.slabs[s].used - 1)], lists := Released(v.lists, t),
                   usedCount := v.usedCount - 1);
    && v' == if w.slabs[s].used == 0 && w.slabs[s].retired
             then w.(slabs := w.slabs - {s}, lists := w.lists - {InSlab(s)}, unmapped := w.unmapped + [s])
             else w
  }

  lemma NoneHome(t: Tid, v: Store)
    requires InBatch(t) in v.lists
    ensures ComingHome(t, v, v, [], v.lists[InBatch(t)])
  {
    assert forall s :: Home([], s) == [];
  }

  lemma {:induction false} OneHome(t: Tid, v: Store, w: Store, w': Store, done: seq<Obj>, rest: seq<Obj>)
    requires ComingHome(t, v, w, done, rest) && SentHome(t, w, w')
    ensures rest != [] && ComingHome(t, v, w', done + [rest[0]], rest[1..])
  {
    assert rest != [];
    var o := rest[0];
    LastHomeMore(t, v, w, done, rest);
    forall s ensures Home(done + [o], s) == (if s == o.slab then [o] else []) + Home(done, s) {
      HomeMore(done, o, s);
    }
    hide Home, LastHome;
    OneSlabHome(t, v, w, w', done, rest);
    OneListHome(t, v, w, w', done, rest);
    hide SlabsHome, ListsHome;
  }

  lemma OneSlabHome(t: Tid, v: Store, w: Store, w': Store, done: seq<Obj>, rest: seq<Obj>)
    requires ComingHome(t, v, w, done, rest) && SentHome(t, w, w') && rest != []
    requires LastHomeStep(v, w, done, rest[0])
    requires forall s :: Home(done + [rest[0]], s) == (if s == rest[0].slab then [rest[0]] else []) + Home(done, s)
    ensures SlabsHome(v, w', done + [rest[0]])
  {
    hide Home, LastHome;
    var s := rest[0].slab;
    assert |Home(done + [rest[0]], s)| == |Home(done, s)| + 1;
  }

  lemma OneListHome(t: Tid, v: Store, w: Store, w': Store, done: seq<Obj>, rest: seq<Obj>)
    requires ComingHome(t, v, w, done, rest) && SentHome(t, w, w') && rest != []
    requires LastHomeStep(v, w, done, rest[0])
    requires forall s :: Home(done + [rest[0]], s) == (if s == rest[0].slab then [rest[0]] else []) + Home(done, s)
    ensures ListsHome(t, v, w', done + [rest[0]], rest[1..])
  {
    hide Home, LastHome, SlabsHome;
    var o := rest[0];
    assert done + rest == done + [o] + rest[1..];
    Regroup([o], Home(done, o.slab), v.lists[InSlab(o.slab)]);
  }

  /** An object that comes home can only be the last one of its own slab. */
  ghost predicate LastHomeStep(v: Store, w: Store, done: seq<Obj>, o: Obj) {
    && (forall s :: s != o.slab ==> (LastHome(v, done + [o], s) <==> LastHome(v, done, s)))
    && !LastHome(v, done, o.slab) && o.slab in w.slabs
    && (LastHome(v, done + [o], o.slab) <==> w.slabs[o.slab].retired && w.slabs[o.slab].used == 1)
  }

  lemma LastHomeMore(t: Tid, v: Store, w: Store, done: seq<Obj>, rest: seq<Obj>)
    requires ComingHome(t, v, w, done, rest) && rest != [] && rest[0].slab in w.slabs
    ensures LastHomeStep(v, w, done, rest[0])
  {
    var o := rest[0];
    forall s ensures Home(done + [o], s) == (if s == o.slab then [o] else []) + Home(done, s) {
      HomeMore(done, o, s);
    }
    hide Home, ListsHome;
  }

  lemma WholeBatchHome(t: Tid, v: Store, v': Store, done: seq<Obj>)
    requires ComingHome(t, v, v', done, [])
    ensures AllReleased(t, v, v')
  {
    assert done + [] == done;
  }

  /** Without retired slabs, releasing unmaps nothing. */
  lemma PlainSentHome(c: Conf, t: Tid, v: Store, v': Store)
    requires SentHome(t, v, v')
    ensures Plain(c, v.slabs, v.active, v.activeCount, v.unmapped, v.nextId) ==>
              Plain(c, v'.slabs, v'.active, v'.activeCount, v'.unmapped, v'.nextId)
  {
    if Plain(c, v.slabs, v.active, v.activeCount, v.unmapped, v.nextId) {
      PlainReads(c, v.slabs, v.active, v.activeCount, v.unmapped, v.nextId);
      hide Plain;
      PlainRelease(c, v.slabs, v'.slabs, v.active, v.activeCount, v.unmapped, v.nextId);
    }
  }

  lemma HomeMore(done: seq<Obj>, o: Obj, s: SlabId)
    ensures Home(done + [o], s) == (if s == o.slab then [o] else []) + Home(done, s)
  {
    assert (done + [o])[..|done|] == done;
  }

  // ---------- Retiring ----------

  /** The members of `keep`, in their order in `s`. */
  ghost function Among(s: seq<SlabId>, keep: set<SlabId>): seq<SlabId> {
    if s == [] then []
    else Among(s[..|s| - 1], keep) + (if s[|s| - 1] in keep then [s[|s| - 1]] else [])
  }

  lemma {:induction false} AmongMembers(s: seq<SlabId>, keep: set<SlabId>)
    ensures forall x :: x in Among(s, keep) <==> x in s && x in keep
  {
    if s != [] {
      AmongMembers(s[..|s| - 1], keep);
      assert s == s[..|s| - 1] + [s[|s| - 1]];
    }
  }

  lemma AmongNone(keep: set<SlabId>)
    ensures Among([], keep) == []
  {}

  lemma AmongMore(s: seq<SlabId>, x: SlabId, keep: set<SlabId>)
    ensures Among(s + [x], keep) == if x in keep then Among(s, keep) + [x] else Among(s, keep)
  {
    assert (s + [x])[..|s|] == s;
  }

  ghost function Unused(slabs: map<SlabId, Slab>): set<SlabId> {
    set s | s in slabs && slabs[s].used == 0
  }

  ghost function LittleUsed(c: Conf, slabs: map<SlabId, Slab>): set<SlabId> {
    set s | s in slabs && 0 < slabs[s].used <= c.retireThreshold
  }

  ghost function Busy(c: Conf, slabs: map<SlabId, Slab>): set<SlabId> {
    set s | s in slabs && slabs[s].used > c.retireThreshold
  }

  /** The active slabs `done` have been looked at and `rest` have not. */
  ghost predicate Sweeping(c: Conf, v: Store, v': Store, done: seq<SlabId>, rest: seq<SlabId>) {
    && v.active == done + rest && v'.active == Among(done, Busy(c, v.slabs)) + rest
    && v'.unmapped == v.unmapped + Among(done, Unused(v.slabs))
    && v'.activeCount + |Among(done, LittleUsed(c, v.slabs))| == v.activeCount
    && v'.usedCount == v.usedCount && v'.nextId == v.nextId
    && SlabsSwept(c, v, v', done) && ListsSwept(v, v', done)
  }

  ghost predicate SlabsSwept(c: Conf, v: Store, v': Store, done: seq<SlabId>) {
    && (forall s :: s in v'.slabs <==> s in v.slabs && !(s in done && s in Unused(v.slabs)))
    && (forall s :: s in v'.slabs ==>
          v'.slabs[s] ==
          if s in done && s in LittleUsed(c, v.slabs) then v.slabs[s].(retired := true) else v.slabs[s])
  }

  ghost predicate ListsSwept(v: Store, v': Store, done: seq<SlabId>) {
    && (forall h :: h in v'.lists <==> h in v.lists && !(h.InSlab? && h.s in done && h.s in Unused(v.slabs)))
    && (forall h :: h in v'.lists ==> v'.lists[h] == v.lists[h])
  }

  /**
    One pass over the active list: unused slabs are unmapped, little-used ones are marked and
    taken off the list, and the busy ones stay as they are, in their order.
  */
  ghost predicate Swept(c: Conf, v: Store, v': Store) {
    Sweeping(c, v, v', v.active, [])
  }

  /** The slab next in line is looked at. */
  ghost predicate LookedAt(c: Conf, v: Store, v': Store, kept: seq<SlabId>, rest: seq<SlabId>) {
    && rest != [] && rest[0] in v.slabs && v.active == kept + rest
    && var s := rest[0];
    && if v.slabs[s].used == 0 then
         v' == v.(slabs := v.slabs - {s}, lists := v.lists - {InSlab(s)}, unmapped := v.unmapped + [s],
                  active := kept + rest[1..])
       else if v.slabs[s].used <= c.retireThreshold then
         && v.activeCount > 0
         && v' == v.(slabs := v.slabs[s := v.slabs[s].(retired := true)], active := kept + rest[1..],
                     activeCount := v.activeCount - 1)
       else v' == v
  }

  lemma SweepingNone(c: Conf, v: Store)
    ensures Sweeping(c, v, v, [], v.active)
  {}

  lemma NotBefore(s: seq<SlabId>, i: nat)
    requires NoDup(s) && i < |s|
    ensures s[i] !in s[..i]
  {}

  lemma {:induction false} SweepingOne(c: Conf, v: Store, w: Store, w': Store, done: seq<SlabId>, kept: seq<SlabId>,
                                       rest: seq<SlabId>)
    requires Sweeping(c, v, w, done, rest) && NoDup(v.active) && kept == Among(done, Busy(c, v.slabs))
    requires LookedAt(c, w, w', kept, rest)
    ensures Sweeping(c, v, w', done + [rest[0]], rest[1..])
    ensures Among(done + [rest[0]], Busy(c, v.slabs)) ==
            if w.slabs[rest[0]].used > c.retireThreshold then kept + [rest[0]] else kept
  {
    hide Among, ListsSwept, NoDup, Busy, Unused, LittleUsed;
    var s := rest[0];
    MoveOver(done, rest);
    MoveOver(kept, rest);
    NotBefore(v.active, |done|);
    OneSwept(c, v, w, w', done, kept, rest);
    SlabIs(c, v, w, done, s);
    hide SlabsSwept;
    AmongMore(done, s, Busy(c, v.slabs));
    AmongMore(done, s, Unused(v.slabs));
    AmongMore(done, s, LittleUsed(c, v.slabs));
    Regroup(v.unmapped, Among(done, Unused(v.slabs)), [s]);
  }

  lemma MoveOver(a: seq<SlabId>, b: seq<SlabId>)
    requires b != []
    ensures a + b == a + [b[0]] + b[1..] && (a + b)[..|a|] == a && (a + b)[|a|] == b[0]
  {}

  lemma SlabIs(c: Conf, v: Store, w: Store, done: seq<SlabId>, s: SlabId)
    requires SlabsSwept(c, v, w, done) && s in w.slabs && s !in done
    ensures s in v.slabs && w.slabs[s] == v.slabs[s]
    ensures s in Busy(c, v.slabs) <==> w.slabs[s].used > c.retireThreshold
    ensures s in Unused(v.slabs) <==> w.slabs[s].used == 0
    ensures s in LittleUsed(c, v.slabs) <==> 0 < w.slabs[s].used <= c.retireThreshold
  {}

  lemma OneSwept(c: Conf, v: Store, w: Store, w': Store, done: seq<SlabId>, kept: seq<SlabId>, rest: seq<SlabId>)
    requires SlabsSwept(c, v, w, done) && ListsSwept(v, w, done) && LookedAt(c, w, w', kept, rest)
    requires rest[0] !in done
    ensures SlabsSwept(c, v, w', done + [rest[0]]) && ListsSwept(v, w', done + [rest[0]])
  {
    assert w.slabs[rest[0]] == v.slabs[rest[0]];
  }

  lemma LookedAtBusy(c: Conf, v: Store, kept: seq<SlabId>, rest: seq<SlabId>)
    requires rest != [] && rest[0] in v.slabs && v.active == kept + rest && v.slabs[rest[0]].used > c.retireThreshold
    ensures LookedAt(c, v, v, kept, rest)
  {}

  lemma AllSwept(c: Conf, v: Store, v': Store, done: seq<SlabId>)
    requires Sweeping(c, v, v', done, [])
    ensures Swept(c, v, v')
  {
    assert done + [] == done;
  }

  /** What a pass does to each slab, by how much of it is in use. */
  lemma SweptReads(c: Conf, v: Store, v': Store)
    requires Swept(c, v, v')
    ensures forall s :: s in v'.active <==> s in v.active && s in v.slabs && v.slabs[s].used > c.retireThreshold
    ensures forall s :: s in v'.active ==> s in v'.slabs && v'.slabs[s] == v.slabs[s]
    ensures forall s :: s in v'.slabs ==> s in v.slabs && v'.slabs[s].used == v.slabs[s].used
    ensures forall s :: s in v'.slabs && !v.slabs[s].retired ==>
              (v'.slabs[s].retired <==> s in v.active && 0 < v.slabs[s].used <= c.retireThreshold)
    ensures forall s :: s in v.active && s in v.slabs && v.slabs[s].used == 0 ==> s in v'.unmapped && s !in v'.slabs
    ensures (forall s :: s in v.slabs ==> v.slabs[s].used == 0) ==> v'.activeCount == v.activeCount
    ensures SameHeld(v.lists, v'.lists)
  {
    AmongMembers(v.active, Busy(c, v.slabs));
    AmongMembers(v.active, Unused(v.slabs));
    AmongMembers(v.active, LittleUsed(c, v.slabs));
    FirstMember(Among(v.active, LittleUsed(c, v.slabs)));
    assert v'.active == Among(v.active, Busy(c, v.slabs));
  }

  // ---------- Steps ----------

  /** Thread `t` has its lists and is at `p`. */
  ghost predicate At(threads: set<Tid>, v: View, t: Tid, p: Phase) {
    && t in threads && t in v.phase && v.phase[t] == p && t in v.counts
    && InCache(t) in v.store.lists && InBatch(t) in v.store.lists && WithUsers in v.store.lists
  }

  lemma NotAt(threads: set<Tid>, v: View, t: Tid)
    requires t !in threads
    ensures forall p :: !At(threads, v, t, p)
  {}

  /** `need` slabs are short and `made` get mapped; a batch is loaded unless that is fewer. */
  ghost predicate BatchPath(c: Conf, t: Tid, grants: nat, v: Store, v': Store, need: nat, made: nat, grown: Store) {
    && Needs(c, v.activeCount, v.usedCount, need) && Granted(c, |v.slabs|, need, grants, made)
    && Grown(c, v, grown, made)
    && if made < need then v' == grown else Loaded(c, t, grown, v')
  }

  /**
    An acquire.  One with too few slabs mapped is over; one whose batch falls short stops the
    program; otherwise the active slabs are swept when that is due.
  */
  ghost predicate AcquirePath(c: Conf, t: Tid, grants: nat, retire: bool, v: View, v': View, need: nat, made: nat,
                              grown: Store, batched: Store) {
    && BatchPath(c, t, grants, v.store, batched, need, made, grown)
    && if made < need then v' == v.(store := batched)
       else
         && InBatch(t) in batched.lists && v'.stopped == (|batched.lists[InBatch(t)]| < c.acquire)
         && (if retire && !v'.stopped then Swept(c, batched, v'.store) else v'.store == batched)
         && v' == v.(store := v'.store, phase := v.phase[t := Acquired], stopped := v'.stopped)
  }

  ghost predicate Acquires(c: Conf, t: Tid, grants: nat, retire: bool, v: View, v': View) {
    exists need, made, grown, batched :: AcquirePath(c, t, grants, retire, v, v', need, made, grown, batched)
  }

  /** The batch goes in front of the cache, and its first object to the caller. */
  ghost predicate Unloads(threads: set<Tid>, t: Tid, v: View, v': View)
    requires At(threads, v, t, Acquired)
  {
    var lists := v.store.lists;
    var batch := lists[InBatch(t)];
    && |batch| > 0 && batch[0] !in v.users
    && v' == v.(store := v.store.(lists := lists[InBatch(t) := []][InCache(t) := batch[1..] + lists[InCache(t)]]
                                                [WithUsers := [batch[0]] + v.users]),
                users := [batch[0]] + v.users, counts := v.counts[t := v.counts[t] + |batch| - 1],
                phase := v.phase[t := Idle])
  }

  /** The cache's first object goes to the caller. */
  ghost predicate Pops(threads: set<Tid>, t: Tid, v: View, v': View)
    requires At(threads, v, t, Idle)
  {
    var lists := v.store.lists;
    var cache := lists[InCache(t)];
    && |cache| > 0 && v.counts[t] > 0 && cache[0] !in v.users
    && v' == v.(store := v.store.(lists := lists[InCache(t) := cache[1..]][WithUsers := [cache[0]] + v.users]),
                users := [cache[0]] + v.users, counts := v.counts[t := v.counts[t] - 1])
  }

  /** The i-th object handed out goes to the front of the cache; at the cap, the cache's front goes to a batch. */
  ghost predicate Frees(c: Conf, threads: set<Tid>, t: Tid, i: nat, v: View, v': View)
    requires At(threads, v, t, Idle) && i < |v.users|
  {
    var lists, full := v.store.lists, v.counts[t] + 1 >= c.cacheCap;
    var cache, spill := [v.users[i]] + lists[InCache(t)], if full then c.release else 0;
    && spill <= |cache| && spill <= v.counts[t] + 1
    && v' == v.(store := v.store.(lists := lists[WithUsers := Without(v.users, i)][InCache(t) := cache[spill..]]
                                                [InBatch(t) := cache[..spill]]),
                users := Without(v.users, i), counts := v.counts[t := v.counts[t] + 1 - spill],
                phase := if full then v.phase[t := Releasing] else v.phase)
  }

  /** The whole cache goes to a batch. */
  ghost predicate Empties(threads: set<Tid>, t: Tid, v: View, v': View)
    requires At(threads, v, t, Idle)
  {
    var lists := v.store.lists;
    v' == v.(store := v.store.(lists := lists[InCache(t) := []][InBatch(t) := lists[InCache(t)]]),
             counts := v.counts[t := 0],
             phase := if v.counts[t] > 0 then v.phase[t := Releasing] else v.phase)
  }

  /** What a step does; one that its thread is not ready for does nothing. */
  ghost predicate StepOf(c: Conf, threads: set<Tid>, step: Step, v: View, v': View) {
    match step
    case AcquireStep(t, grants, retire) =>
      if At(threads, v, t, Idle) && v.counts[t] == 0 then Acquires(c, t, grants, retire, v, v') else v' == v
    case UnloadStep(t) => if At(threads, v, t, Acquired) then Unloads(threads, t, v, v') else v' == v
    case PopStep(t) => if At(threads, v, t, Idle) && v.counts[t] > 0 then Pops(threads, t, v, v') else v' == v
    case FreeStep(t, i) =>
      if At(threads, v, t, Idle) && i < |v.users| then Frees(c, threads, t, i, v, v') else v' == v
    case FullReleaseStep(t) => if At(threads, v, t, Idle) then Empties(threads, t, v, v') else v' == v
    case ReleaseStep(t) =>
      if At(threads, v, t, Releasing)
      then AllReleased(t, v.store, v'.store) && v' == v.(store := v'.store, phase := v.phase[t := Idle])
      else v' == v
    case RetireStep => Swept(c, v.store, v'.store) && v' == v.(store := v'.store)
    case ScribbleStep(_, _) => v' == v
  }

  lemma UnloadedLists(lists: Lists, t: Tid)
    requires InCache(t) in lists && InBatch(t) in lists && WithUsers in lists && |lists[InBatch(t)]| > 0
    ensures var batch := lists[InBatch(t)];
            Shifted(Shifted(lists, InBatch(t), InCache(t), |batch|), InCache(t), WithUsers, 1) ==
            lists[InBatch(t) := []][InCache(t) := batch[1..] + lists[InCache(t)]]
                 [WithUsers := [batch[0]] + lists[WithUsers]]
  {
    var batch, cache := lists[InBatch(t)], lists[InCache(t)];
    assert (batch + cache)[1..] == batch[1..] + cache && (batch + cache)[..1] == [batch[0]];
    assert batch[|batch|..] == [] && batch[..|batch|] == batch;
  }

  lemma PoppedLists(lists: Lists, users: seq<Obj>, t: Tid)
    requires InCache(t) in lists && WithUsers in lists && |lists[InCache(t)]| > 0 && users == lists[WithUsers]
    ensures Shifted(lists, InCache(t), WithUsers, 1) ==
            lists[InCache(t) := lists[InCache(t)][1..]][WithUsers := [lists[InCache(t)][0]] + users]
  {
    assert lists[InCache(t)][..1] == [lists[InCache(t)][0]];
  }

  lemma FreedLists(lists: Lists, t: Tid, users: seq<Obj>, i: nat, spill: nat)
    requires InCache(t) in lists && InBatch(t) in lists && lists[InBatch(t)] == [] && i < |users|
    requires spill <= |lists[InCache(t)]| + 1
    ensures var cache := [users[i]] + lists[InCache(t)];
            var pushed := lists[WithUsers := Without(users, i)][InCache(t) := cache];
            var lists' := lists[WithUsers := Without(users, i)][InCache(t) := cache[spill..]]
                               [InBatch(t) := cache[..spill]];
            Shifted(pushed, InCache(t), InBatch(t), spill) == lists' && (spill == 0 ==> pushed == lists')
  {
    hide Without;
    var cache := [users[i]] + lists[InCache(t)];
    assert cache[..spill] + [] == cache[..spill];
    assert spill == 0 ==> cache[spill..] == cache && cache[..spill] == [];
  }

  lemma EmptiedLists(lists: Lists, t: Tid)
    requires InCache(t) in lists && InBatch(t) in lists && lists[InBatch(t)] == []
    ensures var cache := lists[InCache(t)]; var lists' := lists[InCache(t) := []][InBatch(t) := cache];
            Shifted(lists, InCache(t), InBatch(t), |cache|) == lists' && (cache == [] ==> lists == lists')
  {
    var cache := lists[InCache(t)];
    assert cache[|cache|..] == [] && cache[..|cache|] + [] == cache;
  }

  // ---------- Runs ----------

  /** The states of a run, before and after each step of a schedule; it ends early only when the program stops. */
  ghost predicate RunOf(c: Conf, threads: set<Tid>, schedule: seq<Step>, states: seq<View>) {
    && 0 < |states| <= |schedule| + 1
    && (forall k :: 0 <= k < |states| - 1 ==>
          !states[k].stopped && StepOf(c, threads, schedule[k], states[k], states[k + 1]))
    && (|states| == |schedule| + 1 || states[|states| - 1].stopped)
  }

  /** The object goes to a user between these two states. */
  ghost predicate HandsOut(v: View, v': View, o: Obj) {
    v'.users == [o] + v.users
  }

  /** The step gives the object back. */
  ghost predicate GivesBack(step: Step, v: View, v': View, o: Obj) {
    && step.FreeStep? && step.i < |v.users| && v.users[step.i] == o
    && v'.users == Without(v.users, step.i)
  }

  /** What users hold changes by an object nobody had, by one that is given back, or not at all. */
  lemma UsersChange(c: Conf, threads: set<Tid>, step: Step, v: View, v': View)
    requires StepOf(c, threads, step, v, v')
    ensures || v'.users == v.users
            || ((step.PopStep? || step.UnloadStep?) && exists o :: o !in v.users && HandsOut(v, v', o))
            || (step.FreeStep? && step.i < |v.users| && GivesBack(step, v, v', v.users[step.i]))
  {
    hide Swept, AllReleased, Without, BatchPath;
    if step.PopStep? && v' != v {
      assert HandsOut(v, v', v.store.lists[InCache(step.t)][0]);
    } else if step.UnloadStep? && v' != v {
      assert HandsOut(v, v', v.store.lists[InBatch(step.t)][0]);
    }
  }

  /** An object handed out was with nobody. */
  lemma HandedOutIsNew(c: Conf, threads: set<Tid>, step: Step, v: View, v': View, o: Obj)
    requires StepOf(c, threads, step, v, v') && HandsOut(v, v', o)
    ensures o !in v.users
  {
    UsersChange(c, threads, step, v, v');
    hide StepOf;
    assert |v'.users| == |v.users| + 1;
    if x :| x !in v.users && HandsOut(v, v', x) {
      assert v'.users[0] == x && v'.users[0] == o;
    }
  }

  /** An object stays with users until a step gives it back. */
  lemma {:induction false} HeldUntilGivenBack(c: Conf, threads: set<Tid>, schedule: seq<Step>, states: seq<View>,
                                              i: nat, j: nat, o: Obj)
    requires RunOf(c, threads, schedule, states) && i <= j < |states| && o in states[i].users
    requires forall k :: i <= k < j ==> !GivesBack(schedule[k], states[k], states[k + 1], o)
    ensures o in states[j].users
    decreases j
  {
    hide StepOf;
    if i < j {
      HeldUntilGivenBack(c, threads, schedule, states, i, j - 1, o);
      var step, v, v' := schedule[j - 1], states[j - 1], states[j];
      assert !GivesBack(step, v, states[j - 1 + 1], o);
      UsersChange(c, threads, step, v, v');
      if x :| x !in v.users && HandsOut(v, v', x) {
        assert o in v'.users;
      } else if v'.users != v.users {
        KeptWithout(v.users, step.i, o);
      }
    }
  }

  lemma KeptWithout(s: seq<Obj>, i: nat, o: Obj)
    requires o in s && i < |s| && s[i] != o
    ensures o in Without(s, i)
  {
    assert s == s[..i] + [s[i]] + s[i + 1..];
  }

  /** Over any run, an object handed out twice was given back in between. */
  lemma {:induction false} NeverTwice(c: Conf, threads: set<Tid>, schedule: seq<Step>, states: seq<View>, i: nat,
                                      j: nat, o: Obj)
    requires RunOf(c, threads, schedule, states) && i < j < |states| - 1
    requires HandsOut(states[i], states[i + 1], o) && HandsOut(states[j], states[j + 1], o)
    ensures exists k :: i < k < j && GivesBack(schedule[k], states[k], states[k + 1], o)
  {
    hide StepOf, GivesBack;
    HandedOutIsNew(c, threads, schedule[j], states[j], states[j + 1], o);
    if forall k :: i + 1 <= k < j ==> !GivesBack(schedule[k], states[k], states[k + 1], o) {
      assert o in states[i + 1].users;
      HeldUntilGivenBack(c, threads, schedule, states, i + 1, j, o);
    }
  }
}
