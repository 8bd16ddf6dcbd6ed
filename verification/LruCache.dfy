/**
  The least-recently-used cache kept in the slots of a memory block: slot 0 is the most
  recent, an access brings its slot to the front by rotating bytes.
*/
module LruCache {
  import opened Chains
  import opened Recency
  import opened MemoryBlock
  import Words
  import MemoryLayout

  type Slot = seq<Byte>

  /** The user's functions on slots; `evict` answers what it leaves in the slot. */
  datatype Callbacks<!K, !C> = Callbacks(
    cmp: (K, Slot) -> int,
    hit: (Slot, C) -> Slot,
    miss: (Slot, C) -> Slot,
    evict: Slot -> Slot)

  /** Slots carry keys: `cmp` compares with the slot's key and `hit` keeps it. */
  ghost predicate Sound<K(!new), C(!new)>(fn: Callbacks<K, C>, keyOf: Slot -> K, size: nat) {
    && (forall k, s :: |s| == size ==> (fn.cmp(k, s) == 0 <==> keyOf(s) == k))
    && (forall s, c :: |s| == size ==> |fn.hit(s, c)| == size && keyOf(fn.hit(s, c)) == keyOf(s))
    && (forall s, c :: |s| == size ==> |fn.miss(s, c)| == size)
    && (forall s :: |s| == size ==> |fn.evict(s)| == size)
  }

  /** `miss` called with this context fills a slot for this key. */
  ghost predicate Installs<K, C>(fn: Callbacks<K, C>, keyOf: Slot -> K, size: nat, key: K, ctx: C) {
    forall s :: |s| == size ==> keyOf(fn.miss(s, ctx)) == key
  }

  // ---------- The state without its bytes ----------

  ghost function KeysOf<K>(keyOf: Slot -> K, s: seq<Slot>): (r: seq<K>)
    ensures |r| == |s| && forall i :: 0 <= i < |s| ==> r[i] == keyOf(s[i])
  {
    seq(|s|, i requires 0 <= i < |s| => keyOf(s[i]))
  }

  /** Each key is the one accessed when its entry was installed. */
  ghost predicate Tracked<K>(trace: seq<K>, keys: seq<K>, installs: seq<nat>) {
    |installs| == |keys| && forall i :: 0 <= i < |keys| ==> installs[i] < |trace| && trace[installs[i]] == keys[i]
  }

  /** The entries held and those evicted are the misses so far, each once. */
  ghost predicate Accounted<K>(cap: nat, trace: seq<K>, held: seq<nat>, gone: seq<nat>)
    requires cap > 0
  {
    multiset(held) + multiset(gone) == multiset(Misses(cap, trace))
  }

  lemma TraceStep<K>(cap: nat, trace: seq<K>, k: K)
    requires cap > 0
    ensures CacheAfter(cap, trace + [k]) == Accessed(cap, CacheAfter(cap, trace), k)
    ensures Misses(cap, trace + [k]) == Misses(cap, trace) + if k in CacheAfter(cap, trace) then [] else [|trace|]
  {
    var t := trace + [k];
    assert t[..|trace|] == trace && t[|trace|] == k;
    assert Hit(cap, t, |trace|) <==> k in CacheAfter(cap, trace);
  }

  lemma TrackedGrows<K>(trace: seq<K>, k: K, keys: seq<K>, installs: seq<nat>)
    requires Tracked(trace, keys, installs)
    ensures Tracked(trace + [k], keys, installs)
  {}

  lemma TrackedFront<K>(trace: seq<K>, keys: seq<K>, installs: seq<nat>, i: nat)
    requires Tracked(trace, keys, installs) && i < |keys|
    ensures Tracked(trace, MoveToFront(keys, i), MoveToFront(installs, i))
  {
    var m, n := MoveToFront(keys, i), MoveToFront(installs, i);
    assert |m| == |keys| && |n| == |installs|;
    forall j | 0 <= j < |m| ensures n[j] < |trace| && trace[n[j]] == m[j] {
      var h := if j == 0 then i else if j <= i then j - 1 else j;
      assert m[j] == keys[h] && n[j] == installs[h];
    }
  }

  lemma TrackedPush<K>(trace: seq<K>, k: K, keys: seq<K>, installs: seq<nat>)
    requires Tracked(trace, keys, installs)
    ensures Tracked(trace + [k], [k] + keys, [|trace|] + installs)
  {}

  lemma FrontBag<T>(s: seq<T>, i: nat)
    requires i < |s|
    ensures multiset(MoveToFront(s, i)) == multiset(s)
  {
    assert s == s[..i] + [s[i]] + s[i + 1..];
  }

  lemma LastOff<T>(s: seq<T>)
    requires |s| > 0
    ensures multiset(s) == multiset(s[..|s| - 1]) + multiset{s[|s| - 1]}
  {
    assert s == s[..|s| - 1] + [s[|s| - 1]];
  }

  lemma BagPush(h: seq<nat>, n: nat)
    ensures multiset([n] + h) == multiset(h) + multiset{n}
    ensures multiset(h + [n]) == multiset(h) + multiset{n}
  {}

  /** Everything kept across accesses, on keys. */
  ghost predicate Kept<K>(cap: nat, trace: seq<K>, keys: seq<K>, held: seq<nat>, goneKeys: seq<K>, gone: seq<nat>)
    requires cap > 0
  {
    && keys == CacheAfter(cap, trace)
    && Tracked(trace, keys, held) && Tracked(trace, goneKeys, gone)
    && Accounted(cap, trace, held, gone)
  }

  lemma KeptRecent<K>(cap: nat, trace: seq<K>, keys: seq<K>, held: seq<nat>, goneKeys: seq<K>, gone: seq<nat>)
    requires cap > 0 && Kept(cap, trace, keys, held, goneKeys, gone)
    ensures keys == Take(Recent(trace), cap)
  {
    CacheHoldsRecent(cap, trace);
  }

  lemma KeptStart<K>(cap: nat)
    requires cap > 0
    ensures Kept<K>(cap, [], [], [], [], [])
  {}

  lemma {:induction false} KeptHit<K>(cap: nat, trace: seq<K>, keys: seq<K>, held: seq<nat>, goneKeys: seq<K>,
                                      gone: seq<nat>, k: K)
    requires cap > 0 && Kept(cap, trace, keys, held, goneKeys, gone) && k in keys
    ensures |held| == |keys|
    ensures var i := Find(keys, k);
            Kept(cap, trace + [k], MoveToFront(keys, i), MoveToFront(held, i), goneKeys, gone)
  {
    var i := Find(keys, k);
    TraceStep(cap, trace, k);
    TrackedFront(trace, keys, held, i);
    TrackedGrows(trace, k, MoveToFront(keys, i), MoveToFront(held, i));
    TrackedGrows(trace, k, goneKeys, gone);
    FrontBag(held, i);
    assert Misses(cap, trace) + [] == Misses(cap, trace);
    hide Misses, CacheAfter, Tracked, MoveToFront, Find;
  }

  lemma Moved(h: multiset<nat>, g: multiset<nat>, x: multiset<nat>, n: multiset<nat>)
    ensures (h + x) + g == h + (g + x)
    ensures (h + n) + g == (h + g) + n
  {}

  lemma {:induction false} KeptMiss<K>(cap: nat, trace: seq<K>, keys: seq<K>, held: seq<nat>, goneKeys: seq<K>,
                                       gone: seq<nat>, k: K)
    requires cap > 0 && Kept(cap, trace, keys, held, goneKeys, gone) && k !in keys && |keys| < cap
    ensures |held| == |keys|
    ensures Kept(cap, trace + [k], [k] + keys, [|trace|] + held, goneKeys, gone)
  {
    TraceStep(cap, trace, k);
    TrackedPush(trace, k, keys, held);
    TrackedGrows(trace, k, goneKeys, gone);
    BagPush(held, |trace|);
    BagPush(Misses(cap, trace), |trace|);
    Moved(multiset(held), multiset(gone), multiset{}, multiset{|trace|});
    hide Misses, CacheAfter, Tracked, MoveToFront, Find;
  }

  lemma {:induction false} KeptEvict<K>(cap: nat, trace: seq<K>, keys: seq<K>, held: seq<nat>, goneKeys: seq<K>,
                                        gone: seq<nat>, k: K)
    requires cap > 0 && Kept(cap, trace, keys, held, goneKeys, gone) && k !in keys && |keys| == cap
    ensures |held| == |keys|
    ensures Kept(cap, trace + [k], [k] + keys[..cap - 1], [|trace|] + held[..cap - 1],
                 goneKeys + [keys[cap - 1]], gone + [held[cap - 1]])
  {
    var h, x := held[..cap - 1], held[cap - 1];
    TraceStep(cap, trace, k);
    TrackedPush(trace, k, keys[..cap - 1], h);
    TrackedGrows(trace, k, goneKeys + [keys[cap - 1]], gone + [x]);
    LastOff(held);
    BagPush(h, |trace|);
    BagPush(gone, x);
    BagPush(Misses(cap, trace), |trace|);
    hide Misses, CacheAfter, Tracked, MoveToFront, Find;
    Moved(multiset(h), multiset(gone), multiset{x}, multiset{|trace|});
    Moved(multiset(h), multiset(gone) + multiset{x}, multiset{}, multiset{|trace|});
  }

  // ---------- Slots and keys ----------

  lemma KeysFront<K>(keyOf: Slot -> K, s: seq<Slot>, i: nat, v: Slot)
    requires i < |s| && keyOf(v) == keyOf(s[i])
    ensures KeysOf(keyOf, MoveToFront(s[i := v], i)) == MoveToFront(KeysOf(keyOf, s), i)
  {}

  lemma PrefixFront<T>(s: seq<T>, n: nat, i: nat, v: T)
    requires i < n <= |s|
    ensures MoveToFront(s[i := v], i)[..n] == MoveToFront(s[..n][i := v], i)
  {}

  lemma PushedFront<T>(s: seq<T>, n: nat, v: T)
    requires n < |s|
    ensures MoveToFront(s[n := v], n)[..n + 1] == [v] + s[..n]
  {}

  lemma BehindFront<T>(s: seq<T>, i: nat, v: T)
    requires i < |s|
    ensures |MoveToFront(s[i := v], i)| == |s|
    ensures forall j :: i < j < |s| ==> MoveToFront(s[i := v], i)[j] == s[j]
  {}

  lemma FrontSame<T>(s: seq<T>, v: T)
    requires |s| > 0
    ensures MoveToFront(s[0 := v], 0) == s[0 := v]
  {}

  lemma KeysPush<K>(keyOf: Slot -> K, s: seq<Slot>, v: Slot)
    ensures KeysOf(keyOf, [v] + s) == [keyOf(v)] + KeysOf(keyOf, s)
    ensures KeysOf(keyOf, s + [v]) == KeysOf(keyOf, s) + [keyOf(v)]
  {}

  lemma KeysPrefix<K>(keyOf: Slot -> K, s: seq<Slot>, n: nat)
    requires n <= |s|
    ensures KeysOf(keyOf, s[..n]) == KeysOf(keyOf, s)[..n]
  {}

  lemma FindIs<K>(keys: seq<K>, k: K, i: nat)
    requires i < |keys| && keys[i] == k && forall j :: 0 <= j < i ==> keys[j] != k
    ensures k in keys && Find(keys, k) == i
  {}

  lemma FreeTracks<K>(keyOf: Slot -> K, trace: seq<K>, out: seq<Slot>, s: seq<Slot>, gone: seq<nat>, held: seq<nat>)
    requires Tracked(trace, KeysOf(keyOf, out), gone) && Tracked(trace, KeysOf(keyOf, s), held)
    ensures Tracked(trace, KeysOf(keyOf, out + s), gone + held)
    ensures multiset(gone + held) == multiset(held) + multiset(gone)
  {}

  lemma Filled<K(!new), C(!new)>(fn: Callbacks<K, C>, keyOf: Slot -> K, size: nat, slot: Slot, key: K, ctx: C)
    requires Sound(fn, keyOf, size) && Installs(fn, keyOf, size, key, ctx)
    ensures |slot| == size ==>
              |fn.evict(slot)| == size && |fn.miss(slot, ctx)| == size && keyOf(fn.miss(slot, ctx)) == key
  {}

  class Lru<K(!new), C(!new)> {
    const mb: Block
    const fn: Callbacks<K, C>
    var count: nat
    /** What has been handed to `evict`, in order. */
    var evicted: seq<Slot>

    ghost const keyOf: Slot -> K
    ghost var trace: seq<K>
    /** The access that installed each held entry, and each evicted one. */
    ghost var installs: seq<nat>
    ghost var gone: seq<nat>

    ghost function All(): (s: seq<Slot>)
      requires mb.Valid()
      reads mb.memory
      ensures |s| == mb.capacity && forall i :: 0 <= i < |s| ==> |s[i]| == mb.size
    {
      Slots(mb.memory[..], mb.base, mb.size, mb.capacity)
    }

    /** The slots in use, most recent first. */
    ghost function Stored(): (s: seq<Slot>)
      requires mb.Valid() && count <= mb.capacity
      reads this, mb.memory
      ensures |s| == count && forall i :: 0 <= i < |s| ==> |s[i]| == mb.size
    {
      All()[..count]
    }

    ghost function HeldKeys(): seq<K>
      requires mb.Valid() && count <= mb.capacity
      reads this, mb.memory
    {
      KeysOf(keyOf, Stored())
    }

    ghost predicate Valid()
      reads this, mb.memory
    {
      && mb.Valid() && Sound(fn, keyOf, mb.size) && count <= mb.capacity
      && Kept(mb.capacity, trace, HeldKeys(), installs, KeysOf(keyOf, evicted), gone)
    }

    constructor (mb: Block, fn: Callbacks<K, C>, ghost keyOf: Slot -> K)
      requires mb.Valid() && Sound(fn, keyOf, mb.size)
      ensures Valid() && this.mb == mb && this.fn == fn && this.keyOf == keyOf
      ensures trace == [] && count == 0 && evicted == []
    {
      this.mb, this.fn, this.keyOf, count, evicted := mb, fn, keyOf, 0, [];
      trace, installs, gone := [], [], [];
      new;
      KeptStart<K>(mb.capacity);
      assert HeldKeys() == [] && KeysOf(keyOf, evicted) == [];
    }

    /** Rotates the bytes of slots 0..index right by one slot and touches no other byte. */
    method Promote(index: nat)
      requires mb.Valid() && index < mb.capacity
      modifies mb.memory
      ensures Holds(old(mb.memory[..]), mb.base, mb.size, index + 1)
      ensures mb.memory[..] == Rotated(old(mb.memory[..]), mb.base, mb.size, index)
      ensures All() == MoveToFront(old(All()), index)
      ensures SameOutside(old(mb.memory[..]), mb.memory[..], mb.base, mb.size, mb.capacity)
    {
      hide Slots, Patched, Rotated, MoveToFront, SameOutside;
      ghost var m := mb.memory[..];
      RotateMovesToFront(m, mb.base, mb.size, mb.capacity, index);
      RemapRotates(m, mb.base, mb.size, index);
      SlotsAt(m, mb.base, mb.size, mb.capacity, index);
      var temp := mb.Read(index);
      mb.Remap(1, 0, index);
      mb.Write(temp, 0);
    }

    /** A user function rewrites one slot in place. */
    method SetSlot(index: nat, v: Slot)
      requires mb.Valid() && index < mb.capacity && |v| == mb.size
      modifies mb.memory
      ensures All() == old(All())[index := v]
      ensures SameOutside(old(mb.memory[..]), mb.memory[..], mb.base, mb.size, mb.capacity)
    {
      PatchSlot(mb.memory[..], mb.base, mb.size, mb.capacity, index, v);
      PatchOutside(mb.memory[..], mb.base, mb.size, mb.capacity, index, v);
      mb.Write(v, index);
    }

    /** Rewrites a slot and brings it to the front. */
    method SetAndPromote(index: nat, v: Slot)
      requires mb.Valid() && index < mb.capacity && |v| == mb.size
      modifies mb.memory
      ensures All() == MoveToFront(old(All())[index := v], index)
      ensures SameOutside(old(mb.memory[..]), mb.memory[..], mb.base, mb.size, mb.capacity)
    {
      hide SameOutside, MoveToFront, Slots;
      SetSlot(index, v);
      ghost var m := mb.memory[..];
      Promote(index);
      OutsideTrans(old(mb.memory[..]), m, mb.memory[..], mb.base, mb.size, mb.capacity);
    }

    /** The linear search: the slot that holds the key, or `count`. */
    method Search(key: K) returns (i: nat)
      requires Valid()
      ensures i <= count && (i < count <==> key in HeldKeys())
      ensures i < count ==> i == Find(HeldKeys(), key)
    {
      hide Kept, Slots;
      i := 0;
      while i < count
        invariant i <= count && forall j :: 0 <= j < i ==> HeldKeys()[j] != key
      {
        var slot := mb.Read(i);
        assert slot == Stored()[i];
        if fn.cmp(key, slot) == 0 {
          FindIs(HeldKeys(), key, i);
          return;
        }
        i := i + 1;
      }
    }

    method AccessHit(i: nat, key: K, ctx: C)
      requires Valid() && i < count && key in HeldKeys() && i == Find(HeldKeys(), key)
      modifies mb.memory, this`trace, this`installs
      ensures Valid() && trace == old(trace) + [key]
      ensures Stored() == MoveToFront(old(Stored())[i := fn.hit(old(Stored())[i], ctx)], i)
      ensures forall j :: count <= j < mb.capacity ==> All()[j] == old(All())[j]
      ensures SameOutside(old(mb.memory[..]), mb.memory[..], mb.base, mb.size, mb.capacity)
    {
      hide Kept, SameOutside, MoveToFront, Slots, Find;
      ghost var s, all := Stored(), All();
      KeptHit(mb.capacity, trace, HeldKeys(), installs, KeysOf(keyOf, evicted), gone, key);
      var slot := mb.Read(i);
      assert slot == s[i];
      var v := fn.hit(slot, ctx);
      KeysFront(keyOf, s, i, v);
      PrefixFront(all, count, i, v);
      BehindFront(all, i, v);
      if i != 0 {
        SetAndPromote(i, v);
      } else {
        FrontSame(all, v);
        SetSlot(i, v);
      }
      trace, installs := trace + [key], MoveToFront(installs, i);
    }

    method AccessMiss(key: K, ctx: C)
      requires Valid() && key !in HeldKeys() && Installs(fn, keyOf, mb.size, key, ctx) && count < mb.capacity
      modifies mb.memory, this
      ensures Valid() && trace == old(trace) + [key]
      ensures count == old(count) + 1 && evicted == old(evicted)
      ensures Stored() == [fn.miss(old(All())[old(count)], ctx)] + old(Stored())
      ensures forall j :: count <= j < mb.capacity ==> All()[j] == old(All())[j]
      ensures SameOutside(old(mb.memory[..]), mb.memory[..], mb.base, mb.size, mb.capacity)
    {
      hide Kept, SameOutside, MoveToFront, Slots, Find, Sound;
      ghost var s, all, keys, out := Stored(), All(), HeldKeys(), KeysOf(keyOf, evicted);
      KeptMiss(mb.capacity, trace, keys, installs, out, gone, key);
      var slot := mb.Read(count);
      Filled(fn, keyOf, mb.size, slot, key, ctx);
      var v := fn.miss(slot, ctx);
      PushedFront(all, count, v);
      BehindFront(all, count, v);
      KeysPush(keyOf, s, v);
      count := count + 1;
      SetAndPromote(count - 1, v);
      trace, installs := trace + [key], [|trace|] + installs;
    }

    method AccessEvict(key: K, ctx: C)
      requires Valid() && key !in HeldKeys() && Installs(fn, keyOf, mb.size, key, ctx) && count == mb.capacity
      modifies mb.memory, this
      ensures Valid() && trace == old(trace) + [key]
      ensures count == old(count) && evicted == old(evicted) + [old(Stored())[count - 1]]
      ensures Stored() == [fn.miss(fn.evict(old(Stored())[count - 1]), ctx)] + old(Stored())[..count - 1]
      ensures SameOutside(old(mb.memory[..]), mb.memory[..], mb.base, mb.size, mb.capacity)
    {
      hide Kept, SameOutside, MoveToFront, Slots, Find, Sound;
      ghost var s, all, keys, out := Stored(), All(), HeldKeys(), KeysOf(keyOf, evicted);
      KeptEvict(mb.capacity, trace, keys, installs, out, gone, key);
      var slot := mb.Read(count - 1);
      KeysPush(keyOf, evicted, slot);
      evicted := evicted + [slot];
      Filled(fn, keyOf, mb.size, slot, key, ctx);
      Filled(fn, keyOf, mb.size, fn.evict(slot), key, ctx);
      var v := fn.miss(fn.evict(slot), ctx);
      PushedFront(all, count - 1, v);
      assert all[..count - 1] == s[..count - 1];
      KeysPrefix(keyOf, s, count - 1);
      KeysPush(keyOf, s[..count - 1], v);
      SetAndPromote(count - 1, v);
      gone := gone + [installs[count - 1]];
      trace, installs := trace + [key], [|trace|] + installs[..count - 1];
    }

    /** One access.  `Valid` says that the slots hold the most recent keys, in order. */
    method Access(key: K, ctx: C)
      requires Valid() && Installs(fn, keyOf, mb.size, key, ctx)
      modifies mb.memory, this
      ensures Valid() && trace == old(trace) + [key]
      ensures HeldKeys() == Take(Recent(trace), mb.capacity)
      ensures key in old(HeldKeys()) ==> count == old(count) && evicted == old(evicted)
      ensures key in old(HeldKeys()) ==> var i := Find(old(HeldKeys()), key);
                Stored() == MoveToFront(old(Stored())[i := fn.hit(old(Stored())[i], ctx)], i)
      ensures key !in old(HeldKeys()) && old(count) < mb.capacity ==>
                && count == old(count) + 1 && evicted == old(evicted)
                && Stored() == [fn.miss(old(All())[old(count)], ctx)] + old(Stored())
      ensures key !in old(HeldKeys()) && old(count) == mb.capacity ==>
                && count == old(count) && evicted == old(evicted) + [old(Stored())[count - 1]]
                && Stored() == [fn.miss(fn.evict(old(Stored())[count - 1]), ctx)] + old(Stored())[..count - 1]
      ensures forall j :: count <= j < mb.capacity ==> All()[j] == old(All())[j]
      ensures SameOutside(old(mb.memory[..]), mb.memory[..], mb.base, mb.size, mb.capacity)
    {
      hide Slots, SameOutside, MoveToFront, Find, Kept, Recent, Take, Sound, Installs;
      var i := Search(key);
      if i < count {
        AccessHit(i, key, ctx);
      } else if count < mb.capacity {
        AccessMiss(key, ctx);
      } else {
        AccessEvict(key, ctx);
      }
      KeptRecent(mb.capacity, trace, HeldKeys(), installs, KeysOf(keyOf, evicted), gone);
    }

    method AccessAll(keys: seq<K>, ctxs: seq<C>)
      requires Valid() && |ctxs| == |keys|
      requires forall i :: 0 <= i < |keys| ==> Installs(fn, keyOf, mb.size, keys[i], ctxs[i])
      modifies mb.memory, this
      ensures Valid() && trace == old(trace) + keys
      ensures SameOutside(old(mb.memory[..]), mb.memory[..], mb.base, mb.size, mb.capacity)
    {
      hide Kept, SameOutside, Slots, MoveToFront, Find, Installs, Sound, Take, Recent;
      OutsideSame(mb.memory[..], mb.base, mb.size, mb.capacity);
      for i := 0 to |keys|
        invariant Valid() && trace == old(trace) + keys[..i]
        invariant SameOutside(old(mb.memory[..]), mb.memory[..], mb.base, mb.size, mb.capacity)
      {
        ghost var m := mb.memory[..];
        Access(keys[i], ctxs[i]);
        OutsideTrans(old(mb.memory[..]), m, mb.memory[..], mb.base, mb.size, mb.capacity);
        assert keys[..i + 1] == keys[..i] + [keys[i]];
      }
    }

    /** Evicts what is left: by then every entry a miss installed has been evicted exactly once. */
    method Free()
      requires Valid()
      modifies this, mb.memory
      ensures evicted == old(evicted) + old(Stored()) && trace == old(trace)
      ensures Tracked(trace, KeysOf(keyOf, evicted), gone)
      ensures multiset(gone) == multiset(Misses(mb.capacity, trace))
      ensures forall i :: 0 <= i < mb.capacity ==>
                All()[i] == if i < old(count) then fn.evict(old(All())[i]) else old(All())[i]
      ensures SameOutside(old(mb.memory[..]), mb.memory[..], mb.base, mb.size, mb.capacity)
    {
      ghost var s := Stored();
      EvictSlots();
      FreeTracks(keyOf, trace, old(evicted), s, gone, installs);
      gone := gone + installs;
    }

    /** The loop over the slots in use: each is handed to `evict`, which may leave anything in it. */
    method EvictSlots()
      requires Valid()
      modifies this`evicted, mb.memory
      ensures evicted == old(evicted) + old(Stored())
      ensures forall i :: 0 <= i < mb.capacity ==>
                All()[i] == if i < count then fn.evict(old(All())[i]) else old(All())[i]
      ensures SameOutside(old(mb.memory[..]), mb.memory[..], mb.base, mb.size, mb.capacity)
    {
      hide Slots, Kept, SameOutside;
      ghost var all, s := All(), Stored();
      OutsideSame(mb.memory[..], mb.base, mb.size, mb.capacity);
      for i := 0 to count
        invariant evicted == old(evicted) + s[..i]
        invariant forall j :: 0 <= j < mb.capacity ==> All()[j] == if j < i then fn.evict(all[j]) else all[j]
        invariant SameOutside(old(mb.memory[..]), mb.memory[..], mb.base, mb.size, mb.capacity)
      {
        var slot := mb.Read(i);
        assert slot == all[i] == s[i];
        assert s[..i + 1] == s[..i] + [s[i]];
        evicted := evicted + [slot];
        ghost var m := mb.memory[..];
        SetSlot(i, fn.evict(slot));
        OutsideTrans(old(mb.memory[..]), m, mb.memory[..], mb.base, mb.size, mb.capacity);
      }
      assert s[..count] == s;
    }
  }

  lemma {:induction false} CountedOnce<T>(s: seq<T>, x: T)
    requires NoDup(s)
    ensures multiset(s)[x] == if x in s then 1 else 0
  {
    if s != [] {
      var n := |s| - 1;
      CountedOnce(s[..n], x);
      assert s == s[..n] + [s[n]];
      assert s[n] !in s[..n];
    }
  }

  /**
    A cache's whole life over a trace: the entries handed to `evict` are exactly those the
    misses installed, each once, and carry the key they were installed for.
  */
  method Lifetime<K(!new), C(!new)>(memory: array<Byte>, base: nat, size: nat, capacity: nat, fn: Callbacks<K, C>,
                                    ghost keyOf: Slot -> K, keys: seq<K>, ctxs: seq<C>)
    returns (evicted: seq<Slot>, ghost installs: seq<nat>)
    requires size > 0 && capacity > 0 && Offset(base, size, capacity) <= memory.Length && Sound(fn, keyOf, size)
    requires |ctxs| == |keys| && forall i :: 0 <= i < |keys| ==> Installs(fn, keyOf, size, keys[i], ctxs[i])
    modifies memory
    ensures Tracked(keys, KeysOf(keyOf, evicted), installs)
    ensures forall i :: 0 <= i < |keys| ==> multiset(installs)[i] == if Hit(capacity, keys, i) then 0 else 1
    ensures SameOutside(old(memory[..]), memory[..], base, size, capacity)
  {
    hide Sound, Installs, SameOutside, Kept, Tracked;
    var mb := new Block(memory, base, size, capacity);
    var lru := new Lru(mb, fn, keyOf);
    lru.AccessAll(keys, ctxs);
    assert [] + keys == keys;
    ghost var m := memory[..];
    lru.Free();
    OutsideTrans(old(memory[..]), m, memory[..], base, size, capacity);
    evicted, installs := lru.evicted, lru.gone;
    MissesAre(capacity, keys);
    forall i | 0 <= i < |keys| ensures multiset(installs)[i] == if Hit(capacity, keys, i) then 0 else 1 {
      CountedOnce(Misses(capacity, keys), i);
    }
  }

  // ---------- The cache's own description ----------

  datatype DescResult = Described(desc: MemoryLayout.Desc) | BadArgument

  /** The description asked for has one slot more than objects. */
  function MakeDesc(size: nat, align: nat, count: nat): DescResult {
    var desc := MemoryLayout.Desc(size, align, Words.Add(count, 1));
    if MemoryLayout.ValidDesc(desc) then Described(desc) else BadArgument
  }

  /** It is refused only for a bad size or alignment, or when the count wraps around; a count of 0 is not refused. */
  lemma MakeDescRefuses(size: nat, align: nat, count: nat)
    requires size < Words.WORD && align < Words.WORD && count < Words.WORD
    ensures MakeDesc(size, align, count).Described? <==> size > 0 && Words.IsPow2(align) && count + 1 < Words.WORD
    ensures MakeDesc(size, align, count).Described? ==> MakeDesc(size, align, count).desc.count == count + 1
  {
    Words.ValidAlignIsPow2(align);
    hide Words.And;
  }

  /** Nothing keeps the extra slot free: a cache described for n objects holds n + 1 keys. */
  lemma {:induction false} DescribedCacheHoldsOneMore<K>(size: nat, align: nat, count: nat, trace: seq<K>)
    requires size < Words.WORD && align < Words.WORD && count < Words.WORD && MakeDesc(size, align, count).Described?
    ensures var cap := MakeDesc(size, align, count).desc.count;
            && cap > 0 && CacheAfter(cap, trace) == Take(Recent(trace), count + 1)
            && (|Keys(trace)| > count ==> |CacheAfter(cap, trace)| == count + 1)
  {
    MakeDescRefuses(size, align, count);
    hide MakeDesc, Recent, Take, CacheAfter, Keys;
    CacheHoldsRecent(count + 1, trace);
  }
}
