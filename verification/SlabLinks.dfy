/**
  The allocator's lists in memory: which head spells out which list, and that each change of
  a few links keeps all of them.
*/
module SlabLinks {
  import opened Chains
  import opened SlabLists
  import opened ObjectLists
  import opened SlabState

  /** The list heads of slabs and caches. */
  type Heads = map<Holder, Link>
  type Batches = map<Tid, Batch>

  /** The list of one holder is where its head says.  What users hold is not linked. */
  ghost predicate HolderAt(next: Links, heads: Heads, batches: Batches, lists: Lists, h: Holder)
    requires h in lists
  {
    match h
    case InSlab(_) => h in heads && ListAt(next, heads[h], lists[h])
    case InCache(_) => h in heads && ListAt(next, heads[h], lists[h])
    case InBatch(t) => t in batches && BatchAt(next, batches[t], lists[h]) && (lists[h] != [] ==> batches[t].target > 0)
    case WithUsers => true
  }

  ghost predicate Spelled(next: Links, heads: Heads, batches: Batches, lists: Lists) {
    forall h :: h in lists ==> HolderAt(next, heads, batches, lists, h)
  }

  /** Exactly the mapped objects have a word in memory. */
  ghost predicate Backed(next: Links, place: map<Obj, Holder>) {
    forall o :: o in next <==> o in place
  }

  lemma BackedRehomed(next: Links, place: map<Obj, Holder>, moved: seq<Obj>, to: Holder)
    requires Backed(next, place)
    ensures Backed(next, Rehomed(place, moved, to))
  {}

  lemma BackedOne(next: Links, place: map<Obj, Holder>, o: Obj, link: Link, to: Holder)
    requires Backed(next, place) && (o in place || o in next)
    ensures o in next && Backed(next[o := link], Rehomed(place, [o], to))
  {}

  lemma BackedBlock(next: Links, next': Links, place: map<Obj, Holder>, s: SlabId, block: seq<Obj>)
    requires Backed(next, place) && forall o :: o in next' <==> o in next || o in block
    ensures Backed(next', WithBlock(place, s, block))
  {}

  lemma BackedRemoved(next: Links, next': Links, place: map<Obj, Holder>, s: SlabId)
    requires Backed(next, place) && forall o :: o in next' <==> o in next && o.slab != s
    ensures Backed(next', WithoutSlab(place, s))
  {}

  ghost predicate SameHeads(heads: Heads, batches: Batches, heads': Heads, batches': Batches, h: Holder) {
    match h
    case InSlab(_) => h in heads && h in heads' && heads'[h] == heads[h]
    case InCache(_) => h in heads && h in heads' && heads'[h] == heads[h]
    case InBatch(t) => t in batches && t in batches' && batches'[t] == batches[t]
    case WithUsers => true
  }

  /** A list none of whose words changed, under an unchanged head. */
  lemma HolderFrame(next: Links, heads: Heads, batches: Batches, lists: Lists, next': Links, heads': Heads,
                    batches': Batches, lists': Lists, h: Holder)
    requires h in lists && HolderAt(next, heads, batches, lists, h) && h in lists' && lists'[h] == lists[h]
    requires SameHeads(heads, batches, heads', batches', h)
    requires forall o :: o in lists[h] && o in next ==> o in next' && next'[o] == next[o]
    ensures HolderAt(next', heads', batches', lists', h)
  {
    if h.InBatch? {
      ListFrame(next, next', batches[h.t].head, lists[h]);
    } else if !h.WithUsers? {
      ListFrame(next, next', heads[h], lists[h]);
    }
  }

  /** Two holders' lists change, and nobody else's words or heads. */
  lemma {:induction false} SpelledChange(next: Links, heads: Heads, batches: Batches, lists: Lists,
                                         place: map<Obj, Holder>, next': Links, heads': Heads, batches': Batches,
                                         lists': Lists, a: Holder, b: Holder)
    requires Placed(lists, place) && Spelled(next, heads, batches, lists)
    requires a in lists && b in lists && a in lists' && b in lists'
    requires forall o :: o in next && o !in lists[a] && o !in lists[b] ==> o in next' && next'[o] == next[o]
    requires forall h :: h in lists' && h != a && h != b ==> h in lists && lists'[h] == lists[h]
    requires forall h :: h in lists && h != a && h != b ==> SameHeads(heads, batches, heads', batches', h)
    requires HolderAt(next', heads', batches', lists', a) && HolderAt(next', heads', batches', lists', b)
    ensures Spelled(next', heads', batches', lists')
  {
    hide HolderAt, SameHeads, NoDup;
    forall h | h in lists' ensures HolderAt(next', heads', batches', lists', h) {
      if h != a && h != b {
        forall o | o in lists[h] && o in next ensures o in next' && next'[o] == next[o] {
          assert IsAt(place, o, h);
          assert o in lists[a] ==> IsAt(place, o, a);
          assert o in lists[b] ==> IsAt(place, o, b);
        }
        HolderFrame(next, heads, batches, lists, next', heads', batches', lists', h);
      }
    }
  }

  lemma PlacedDisjoint(lists: Lists, place: map<Obj, Holder>, a: Holder, b: Holder)
    requires Placed(lists, place) && a in lists && b in lists && a != b
    ensures Disjoint(lists[a], lists[b]) && NoDup(lists[a])
  {
    forall o | o in lists[a] ensures o !in lists[b] {
      assert IsAt(place, o, a);
      assert o in lists[b] ==> IsAt(place, o, b);
    }
  }

  // ---------- The small changes ----------

  /** A prefix of a slab's or cache's list is loaded behind a batch. */
  lemma {:induction false} LoadSpelled(next: Links, heads: Heads, batches: Batches, lists: Lists,
                                       place: map<Obj, Holder>, next': Links, head': Link, b': Batch, from: Holder,
                                       t: Tid, n: nat)
    requires Placed(lists, place) && Spelled(next, heads, batches, lists)
    requires from in lists && (from.InSlab? || from.InCache?) && InBatch(t) in lists && n <= |lists[from]|
    requires BatchAt(next', b', lists[InBatch(t)] + lists[from][..n])
    requires ListAt(next', head', lists[from][n..]) && b'.target > 0
    requires SameElsewhere(next, next', lists[InBatch(t)] + lists[from])
    ensures Spelled(next', heads[from := head'], batches[t := b'], Spliced(lists, from, t, n))
  {
    hide ListAt, BatchAt, Placed;
    var lists' := Spliced(lists, from, t, n);
    SpelledKeepsHeads(next, heads, batches, lists, heads[from := head'], batches[t := b'], from, InBatch(t));
    SpelledChange(next, heads, batches, lists, place, next', heads[from := head'], batches[t := b'], lists', from,
                  InBatch(t));
  }

  lemma SpelledKeepsHeads(next: Links, heads: Heads, batches: Batches, lists: Lists, heads': Heads, batches': Batches,
                          a: Holder, b: Holder)
    requires Spelled(next, heads, batches, lists)
    requires forall h :: h in heads && h != a && h != b ==> h in heads' && heads'[h] == heads[h]
    requires forall t :: t in batches && InBatch(t) != a && InBatch(t) != b ==>
               t in batches' && batches'[t] == batches[t]
    ensures forall h :: h in lists && h != a && h != b ==> SameHeads(heads, batches, heads', batches', h)
  {
    hide ListAt, BatchAt;
    forall h | h in lists && h != a && h != b ensures SameHeads(heads, batches, heads', batches', h) {
      assert HolderAt(next, heads, batches, lists, h);
    }
  }

  /** A whole batch is unloaded in front of a cache's list. */
  lemma {:induction false} UnloadSpelled(next: Links, heads: Heads, batches: Batches, lists: Lists,
                                         place: map<Obj, Holder>, next': Links, head': Link, b': Batch, t: Tid)
    requires Placed(lists, place) && Spelled(next, heads, batches, lists) && InCache(t) in lists && InBatch(t) in lists
    requires BatchAt(next', b', []) && ListAt(next', head', lists[InBatch(t)] + lists[InCache(t)])
    requires SameElsewhere(next, next', lists[InBatch(t)])
    ensures Spelled(next', heads[InCache(t) := head'], batches[t := b'],
                    Shifted(lists, InBatch(t), InCache(t), |lists[InBatch(t)]|))
  {
    hide ListAt, BatchAt, Placed;
    var lists' := Shifted(lists, InBatch(t), InCache(t), |lists[InBatch(t)]|);
    assert lists'[InBatch(t)] == [] && lists'[InCache(t)] == lists[InBatch(t)] + lists[InCache(t)];
    SpelledKeepsHeads(next, heads, batches, lists, heads[InCache(t) := head'], batches[t := b'], InCache(t),
                      InBatch(t));
    SpelledChange(next, heads, batches, lists, place, next', heads[InCache(t) := head'], batches[t := b'], lists',
                  InBatch(t), InCache(t));
  }

  /** The head of a cache's list goes to the caller. */
  lemma {:induction false} PopSpelled(next: Links, heads: Heads, batches: Batches, lists: Lists,
                                      place: map<Obj, Holder>, t: Tid)
    requires Placed(lists, place) && Spelled(next, heads, batches, lists) && InCache(t) in lists
    requires WithUsers in lists && lists[InCache(t)] != []
    ensures InCache(t) in heads && heads[InCache(t)] == To(lists[InCache(t)][0]) && lists[InCache(t)][0] in next
    ensures Spelled(next, heads[InCache(t) := next[lists[InCache(t)][0]]], batches,
                    Shifted(lists, InCache(t), WithUsers, 1))
  {
    assert HolderAt(next, heads, batches, lists, InCache(t));
    ListPop(next, heads[InCache(t)], lists[InCache(t)]);
    hide ListAt, BatchAt, Placed;
    var heads', lists' := heads[InCache(t) := next[lists[InCache(t)][0]]], Shifted(lists, InCache(t), WithUsers, 1);
    SpelledKeepsHeads(next, heads, batches, lists, heads', batches, InCache(t), WithUsers);
    SpelledChange(next, heads, batches, lists, place, next, heads', batches, lists', InCache(t), WithUsers);
  }

  /** One of the users' objects is linked in front of a cache's list. */
  lemma {:induction false} PushSpelled(next: Links, heads: Heads, batches: Batches, lists: Lists,
                                       place: map<Obj, Holder>, t: Tid, i: nat)
    requires Placed(lists, place) && Spelled(next, heads, batches, lists) && InCache(t) in lists
    requires WithUsers in lists && i < |lists[WithUsers]|
    ensures InCache(t) in heads
    ensures var o := lists[WithUsers][i];
            Spelled(next[o := heads[InCache(t)]], heads[InCache(t) := To(o)], batches,
                    lists[WithUsers := Without(lists[WithUsers], i)][InCache(t) := [o] + lists[InCache(t)]])
  {
    assert HolderAt(next, heads, batches, lists, InCache(t));
    var o := lists[WithUsers][i];
    PlacedDisjoint(lists, place, WithUsers, InCache(t));
    assert o in lists[WithUsers];
    ListPush(next, heads[InCache(t)], lists[InCache(t)], o);
    hide ListAt, BatchAt, Placed, Without, Disjoint;
    var lists' := lists[WithUsers := Without(lists[WithUsers], i)][InCache(t) := [o] + lists[InCache(t)]];
    SpelledKeepsHeads(next, heads, batches, lists, heads[InCache(t) := To(o)], batches, WithUsers, InCache(t));
    SpelledChange(next, heads, batches, lists, place, next[o := heads[InCache(t)]], heads[InCache(t) := To(o)], batches,
                  lists', WithUsers, InCache(t));
  }

  /** A batch without its first object. */
  function Rest(b: Batch, head: Link): Batch
    requires b.current > 0
  {
    Batch(head, if head == Null then Null else b.tail, b.current - 1, b.target)
  }

  lemma RestTarget(b: Batch, head: Link)
    requires b.current > 0
    ensures Rest(b, head).target == b.target
  {}

  lemma {:induction false} RestAt(next: Links, b: Batch, s: seq<Obj>)
    requires BatchAt(next, b, s) && s != []
    ensures b.current > 0 && b.head == To(s[0]) && s[0] in next && BatchAt(next, Rest(b, next[s[0]]), s[1..])
  {
    ListPop(next, b.head, s);
    assert |s| > 1 ==> s[1..][|s| - 2] == s[|s| - 1];
  }

  /** The first object of a batch is linked in front of its slab's list. */
  lemma {:induction false} ReleaseSpelled(next: Links, heads: Heads, batches: Batches, lists: Lists,
                                          place: map<Obj, Holder>, t: Tid)
    requires Placed(lists, place) && Spelled(next, heads, batches, lists) && InBatch(t) in lists
    requires lists[InBatch(t)] != []
    requires InSlab(lists[InBatch(t)][0].slab) in lists
    ensures var o := lists[InBatch(t)][0]; var h := InSlab(o.slab);
            && h in heads && t in batches && batches[t].current > 0 && batches[t].head == To(o) && o in next
            && Spelled(next[o := heads[h]], heads[h := To(o)], batches[t := Rest(batches[t], next[o])],
                       Released(lists, t))
  {
    var s := lists[InBatch(t)];
    var o, h := s[0], InSlab(s[0].slab);
    assert HolderAt(next, heads, batches, lists, InBatch(t)) && HolderAt(next, heads, batches, lists, h);
    RestAt(next, batches[t], s);
    PlacedDisjoint(lists, place, InBatch(t), h);
    assert o in s;
    ListPush(next, heads[h], lists[h], o);
    var next', b' := next[o := heads[h]], Rest(batches[t], next[o]);
    RestFrame(next, next', b', s);
    hide ListAt, BatchAt, Placed, Disjoint;
    SpelledKeepsHeads(next, heads, batches, lists, heads[h := To(o)], batches[t := b'], InBatch(t), h);
    SpelledChange(next, heads, batches, lists, place, next', heads[h := To(o)], batches[t := b'], Released(lists, t),
                  InBatch(t), h);
  }

  lemma RestFrame(next: Links, next': Links, b: Batch, s: seq<Obj>)
    requires NoDup(s) && s != [] && BatchAt(next, b, s[1..])
    requires forall x :: x in next && x != s[0] ==> x in next' && next'[x] == next[x]
    ensures BatchAt(next', b, s[1..])
  {
    forall x | x in s[1..] ensures x != s[0] {
      var i :| 0 <= i < |s[1..]| && s[1..][i] == x;
      assert s[i + 1] == x;
    }
    ListFrame(next, next', b.head, s[1..]);
  }

  /** A new slab's list, next to all the others. */
  lemma {:induction false} AddSpelled(next: Links, heads: Heads, batches: Batches, lists: Lists, next': Links,
                                      s: SlabId, list: Link, block: seq<Obj>)
    requires Spelled(next, heads, batches, lists) && InSlab(s) !in lists && ListAt(next', list, block)
    requires forall o :: o in next ==> o in next' && next'[o] == next[o]
    ensures Spelled(next', heads[InSlab(s) := list], batches, lists[InSlab(s) := block])
  {
    var heads', lists' := heads[InSlab(s) := list], lists[InSlab(s) := block];
    SpelledKeepsHeads(next, heads, batches, lists, heads', batches, InSlab(s), InSlab(s));
    hide ListAt, BatchAt, SameHeads;
    forall h | h in lists' ensures HolderAt(next', heads', batches, lists', h) {
      if h != InSlab(s) {
        assert HolderAt(next, heads, batches, lists, h);
        HolderFrame(next, heads, batches, lists, next', heads', batches, lists', h);
      }
    }
  }

  /** A slab that nobody else's list has objects of leaves, with its words. */
  lemma {:induction false} UnmapSpelled(next: Links, heads: Heads, batches: Batches, lists: Lists, next': Links,
                                        s: SlabId)
    requires Spelled(next, heads, batches, lists)
    requires forall h, o :: h in lists && h != InSlab(s) && o in lists[h] ==> o.slab != s
    requires forall o :: o in next && o.slab != s ==> o in next' && next'[o] == next[o]
    ensures Spelled(next', heads - {InSlab(s)}, batches, lists - {InSlab(s)})
  {
    var heads', lists' := heads - {InSlab(s)}, lists - {InSlab(s)};
    SpelledKeepsHeads(next, heads, batches, lists, heads', batches, InSlab(s), InSlab(s));
    hide ListAt, BatchAt, SameHeads;
    forall h | h in lists' ensures HolderAt(next', heads', batches, lists', h) {
      assert HolderAt(next, heads, batches, lists, h);
      HolderFrame(next, heads, batches, lists, next', heads', batches, lists', h);
    }
  }

  /** An empty batch is given a target. */
  lemma {:induction false} BatchInitSpelled(next: Links, heads: Heads, batches: Batches, lists: Lists,
                                            place: map<Obj, Holder>, t: Tid, target: nat)
    requires Placed(lists, place) && Spelled(next, heads, batches, lists) && InBatch(t) in lists
    requires lists[InBatch(t)] == []
    ensures Spelled(next, heads, batches[t := Batch(Null, Null, 0, target)], lists)
  {
    EmptyBatch(next, target, []);
    hide ListAt, BatchAt, Placed;
    var batches' := batches[t := Batch(Null, Null, 0, target)];
    SpelledKeepsHeads(next, heads, batches, lists, heads, batches', InBatch(t), InBatch(t));
    SpelledChange(next, heads, batches, lists, place, next, heads, batches', lists, InBatch(t), InBatch(t));
  }

  /** Users may write anything into the objects they hold. */
  lemma {:induction false} ScribbleSpelled(next: Links, heads: Heads, batches: Batches, lists: Lists,
                                           place: map<Obj, Holder>, o: Obj, link: Link)
    requires Placed(lists, place) && Spelled(next, heads, batches, lists) && WithUsers in lists && o in lists[WithUsers]
    ensures Spelled(next[o := link], heads, batches, lists)
  {
    hide ListAt, BatchAt, Placed;
    SpelledKeepsHeads(next, heads, batches, lists, heads, batches, WithUsers, WithUsers);
    SpelledChange(next, heads, batches, lists, place, next[o := link], heads, batches, lists, WithUsers, WithUsers);
  }

  function CacheHeads(threads: set<Tid>): set<Holder> {
    set t | t in threads :: InCache(t)
  }

  function NoHeads(threads: set<Tid>): Heads {
    map h | h in CacheHeads(threads) :: Null
  }

  function NoBatches(threads: set<Tid>): Batches {
    map t | t in threads :: Batch(Null, Null, 0, 0)
  }

  /** A new allocator's heads spell out empty lists. */
  lemma EmptySpelled(threads: set<Tid>)
    ensures Spelled(map[], NoHeads(threads), NoBatches(threads), EmptyLists(threads)) && Backed(map[], map[])
    ensures WithUsers in EmptyLists(threads) && EmptyLists(threads)[WithUsers] == []
  {
    var heads, batches := NoHeads(threads), NoBatches(threads);
    forall h | h in EmptyLists(threads) ensures HolderAt(map[], heads, batches, EmptyLists(threads), h) {
      if h.InCache? { assert h == InCache(h.t) && h in CacheHeads(threads); }
    }
  }

  /** A batch loaded from nothing holds just what was loaded. */
  lemma FreshIsLoad(lists: Lists, t: Tid, n: nat)
    requires InCache(t) in lists && InBatch(t) in lists && lists[InBatch(t)] == [] && n <= |lists[InCache(t)]|
    ensures lists[InBatch(t)] + lists[InCache(t)][..n] == lists[InCache(t)][..n]
    ensures lists[InBatch(t)] + lists[InCache(t)] == lists[InCache(t)]
    ensures Shifted(lists, InCache(t), InBatch(t), n) == Spliced(lists, InCache(t), t, n)
  {
    var moved := lists[InCache(t)][..n];
    assert moved + [] == [] + moved == moved;
  }

  /** What the code reads of a thread's batch. */
  lemma BatchReads(next: Links, heads: Heads, batches: Batches, lists: Lists, t: Tid)
    requires Spelled(next, heads, batches, lists) && InBatch(t) in lists
    ensures t in batches && BatchAt(next, batches[t], lists[InBatch(t)]) && batches[t].current == |lists[InBatch(t)]|
    ensures batches[t].head == Null <==> lists[InBatch(t)] == []
    ensures lists[InBatch(t)] != [] ==> batches[t].target > 0
  {
    assert HolderAt(next, heads, batches, lists, InBatch(t));
  }

  lemma HeadReads(next: Links, heads: Heads, batches: Batches, lists: Lists, h: Holder)
    requires Spelled(next, heads, batches, lists) && h in lists && (h.InSlab? || h.InCache?)
    ensures h in heads && ListAt(next, heads[h], lists[h])
  {
    assert HolderAt(next, heads, batches, lists, h);
  }
}
