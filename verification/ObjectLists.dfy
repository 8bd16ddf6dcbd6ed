/**
  The lists of free objects in memory: each free object's first word links to the next.
  Loading a batch cuts a prefix off a list and appends it to the batch; unloading puts
  the whole batch in front of a list.
*/
module ObjectLists {
  import opened Chains
  import opened SlabLists

  datatype Link = Null | To(obj: Obj)

  /** The first word of every mapped object. */
  type Links = map<Obj, Link>

  datatype Batch = Batch(head: Link, tail: Link, current: nat, target: nat)

  function LinkAt(s: seq<Obj>, i: nat): Link {
    if i < |s| then To(s[i]) else Null
  }

  /** The words linked from `head` spell out `s`. */
  ghost predicate ListAt(next: Links, head: Link, s: seq<Obj>) {
    && head == LinkAt(s, 0)
    && (forall i :: 0 <= i < |s| ==> s[i] in next && next[s[i]] == LinkAt(s, i + 1))
  }

  ghost predicate BatchAt(next: Links, b: Batch, s: seq<Obj>) {
    && ListAt(next, b.head, s) && b.current == |s|
    && b.tail == (if |s| > 0 then To(s[|s| - 1]) else Null)
  }

  ghost predicate Disjoint(a: seq<Obj>, b: seq<Obj>) {
    NoDup(a) && NoDup(b) && forall x :: x in a ==> x !in b
  }

  /** The same words exist, and only those of the objects in `s` may differ. */
  ghost predicate SameElsewhere(next: Links, next': Links, s: seq<Obj>) {
    next'.Keys == next.Keys && forall x :: x in next && x !in s ==> x in next' && next'[x] == next[x]
  }

  lemma ListFrame(next: Links, next': Links, head: Link, s: seq<Obj>)
    requires ListAt(next, head, s) && forall x :: x in s && x in next ==> x in next' && next'[x] == next[x]
    ensures ListAt(next', head, s)
  {
    forall i | 0 <= i < |s| ensures s[i] in next' && next'[s[i]] == LinkAt(s, i + 1) {
      assert s[i] in s;
    }
  }

  lemma NoHead(next: Links, s: seq<Obj>)
    requires ListAt(next, Null, s)
    ensures s == []
  {}

  /** Putting one object in front of a list. */
  lemma {:induction false} ListPush(next: Links, head: Link, s: seq<Obj>, x: Obj)
    requires ListAt(next, head, s) && x !in s
    ensures ListAt(next[x := head], To(x), [x] + s)
  {
    var next', t := next[x := head], [x] + s;
    forall i | 0 <= i < |t| ensures t[i] in next' && next'[t[i]] == LinkAt(t, i + 1) {
      if i > 0 {
        assert t[i] == s[i - 1] && LinkAt(t, i + 1) == LinkAt(s, i);
      }
    }
  }

  /** Following the first link of a list. */
  lemma {:induction false} ListPop(next: Links, head: Link, s: seq<Obj>)
    requires ListAt(next, head, s) && s != []
    ensures head == To(s[0]) && s[0] in next && ListAt(next, next[s[0]], s[1..])
  {
    var t := s[1..];
    forall i | 0 <= i < |t| ensures t[i] in next && next[t[i]] == LinkAt(t, i + 1) {
      assert t[i] == s[i + 1] && LinkAt(t, i + 1) == LinkAt(s, i + 2);
    }
  }

  /** Cutting a list behind its n-th element. */
  lemma {:induction false} ListCut(next: Links, head: Link, s: seq<Obj>, n: nat)
    requires ListAt(next, head, s) && NoDup(s) && 0 < n <= |s|
    ensures var next' := next[s[n - 1] := Null];
            ListAt(next', head, s[..n]) && ListAt(next', LinkAt(s, n), s[n..])
  {
    var next', a, b := next[s[n - 1] := Null], s[..n], s[n..];
    forall i | 0 <= i < |a| ensures a[i] in next' && next'[a[i]] == LinkAt(a, i + 1) {
      assert a[i] == s[i];
    }
    forall i | 0 <= i < |b| ensures b[i] in next' && next'[b[i]] == LinkAt(b, i + 1) {
      assert b[i] == s[n + i] && LinkAt(b, i + 1) == LinkAt(s, n + i + 1);
    }
  }

  /** Hanging one list behind the last element of another. */
  lemma {:induction false} ListJoin(next: Links, h: Link, a: seq<Obj>, h': Link, b: seq<Obj>)
    requires ListAt(next, h, a) && ListAt(next, h', b) && Disjoint(a, b) && |a| > 0
    ensures ListAt(next[a[|a| - 1] := h'], h, a + b)
  {
    var next', s := next[a[|a| - 1] := h'], a + b;
    forall i | 0 <= i < |s| ensures s[i] in next' && next'[s[i]] == LinkAt(s, i + 1) {
      if i < |a| {
        assert s[i] == a[i] && (i + 1 < |a| ==> LinkAt(s, i + 1) == LinkAt(a, i + 1));
      } else {
        assert s[i] == b[i - |a|] && LinkAt(s, i + 1) == LinkAt(b, i + 1 - |a|) && a[|a| - 1] in a;
      }
    }
  }

  lemma DisjointParts(s: seq<Obj>, l: seq<Obj>, n: nat)
    requires Disjoint(s, l) && n <= |l|
    ensures Disjoint(s, l[..n]) && Disjoint(s, l[n..]) && forall x :: x in l[n..] ==> x !in s
  {}

  /** The links after a load: the batch goes on with the list, and is cut behind `tail`. */
  function LoadedLinks(next: Links, b: Batch, head: Link, tail: Obj): Links {
    (if b.current == 0 || b.tail == Null then next else next[b.tail.obj := head])[tail := Null]
  }

  /** A load with an empty batch: the batch is the front of the list. */
  lemma {:induction false} LoadLinksFirst(next: Links, b: Batch, head: Link, l: seq<Obj>, n: nat)
    requires BatchAt(next, b, []) && ListAt(next, head, l) && NoDup(l) && 0 < n <= |l|
    ensures var tail := l[n - 1]; var next' := next[tail := Null];
            && tail in next && BatchAt(next', Batch(head, To(tail), n, b.target), l[..n])
            && ListAt(next', LinkAt(l, n), l[n..]) && SameElsewhere(next, next', l)
  {
    assert l[n - 1] in l;
    ListCut(next, head, l, n);
  }

  /** A load behind a batch: one link goes on to the list, one is cut. */
  lemma {:induction false} LoadLinksMore(next: Links, b: Batch, head: Link, s: seq<Obj>, l: seq<Obj>, n: nat)
    requires BatchAt(next, b, s) && s != [] && ListAt(next, head, l) && Disjoint(s, l) && 0 < n <= |l|
    ensures b.tail.To? && b.tail.obj in next && b.tail.obj !in l && l[n - 1] in next
    ensures var tail := l[n - 1]; var next' := next[b.tail.obj := head][tail := Null];
            && BatchAt(next', Batch(b.head, To(tail), b.current + n, b.target), s + l[..n])
            && ListAt(next', LinkAt(l, n), l[n..]) && SameElsewhere(next, next', s + l)
  {
    var tail, last := l[n - 1], s[|s| - 1];
    var next1 := next[tail := Null];
    assert tail in l && last in s;
    ListCut(next, head, l, n);
    ListFrame(next, next1, b.head, s);
    DisjointParts(s, l, n);
    ListJoin(next1, b.head, s, head, l[..n]);
    ListFrame(next1, next1[last := head], LinkAt(l, n), l[n..]);
    assert next[last := head][tail := Null] == next1[last := head];
  }

  lemma {:induction false} LoadLinks(next: Links, b: Batch, head: Link, s: seq<Obj>, l: seq<Obj>, n: nat)
    requires BatchAt(next, b, s) && ListAt(next, head, l) && Disjoint(s, l) && 0 < n <= |l|
    ensures b.current > 0 ==> b.tail.To? && b.tail.obj in next && b.tail.obj !in l
    ensures l[n - 1] in next && next[l[n - 1]] == LinkAt(l, n)
    ensures var tail := l[n - 1]; var next' := LoadedLinks(next, b, head, tail);
            && var front := if b.current == 0 then head else b.head;
            && BatchAt(next', Batch(front, To(tail), b.current + n, b.target), s + l[..n])
            && ListAt(next', LinkAt(l, n), l[n..]) && SameElsewhere(next, next', s + l)
  {
    if s == [] {
      assert s + l[..n] == l[..n] && s + l == l;
      LoadLinksFirst(next, b, head, l, n);
    } else {
      LoadLinksMore(next, b, head, s, l, n);
    }
  }

  /** The words of mapped objects.  Reading or writing one asks that it be mapped. */
  class ObjectMemory {
    var next: Links

    constructor ()
      ensures next == map[]
    {
      next := map[];
    }

    method WriteLink(o: Obj, link: Link)
      requires o in next
      modifies this
      ensures next == old(next)[o := link]
    {
      next := next[o := link];
    }

    /** Threads a newly mapped slab's objects, the last one first in line. */
    method LinkBlock(slab: SlabId, count: nat) returns (list: Link)
      requires forall o :: o in next ==> o.slab != slab
      modifies this
      ensures ListAt(next, list, LinkedBlock(slab, count))
      ensures forall o :: o in next <==> o in old(next) || o in LinkedBlock(slab, count)
      ensures forall o :: o in old(next) ==> o in next && next[o] == old(next)[o]
    {
      hide ListAt;
      list := Null;
      EmptyList(next);
      for i := 0 to count
        invariant ListAt(next, list, LinkedBlock(slab, i))
        invariant forall o :: o in next <==> o in old(next) || o in LinkedBlock(slab, i)
        invariant forall o :: o in old(next) ==> o in next && next[o] == old(next)[o]
      {
        var obj := Obj(slab, i);
        LinkedBlockAll(slab, i);
        LinkedBlockAll(slab, i + 1);
        ListPush(next, list, LinkedBlock(slab, i), obj);
        next := next[obj := list];
        list := To(obj);
      }
    }

    /** Gives a slab's memory back to the system. */
    method Unmap(slab: SlabId)
      modifies this
      ensures forall o :: o in next <==> o in old(next) && o.slab != slab
      ensures forall o :: o in next ==> next[o] == old(next)[o]
    {
      next := map o | o in next && o.slab != slab :: next[o];
    }

    /** Walks down a list until enough objects are counted or it ends. */
    method FindTail(head: Obj, target: nat, ghost l: seq<Obj>) returns (tail: Obj, total: nat)
      requires ListAt(next, To(head), l) && target > 0
      ensures total == (if target < |l| then target else |l|) && total > 0 && tail == l[total - 1]
      ensures tail in next && next[tail] == LinkAt(l, total)
    {
      tail, total := head, 1;
      while total < target && next[tail] != Null
        invariant 1 <= total <= target && total <= |l| && tail == l[total - 1] && tail in next
        decreases |l| - total
      {
        assert next[tail] == LinkAt(l, total);
        tail := next[tail].obj;
        total := total + 1;
      }
      assert next[tail] == LinkAt(l, total);
    }

    /**
      Moves objects from a list to the end of a batch until the batch meets its target or
      the list runs out, and answers how many moved.
    */
    method BatchLoad(b: Batch, head: Link, ghost s: seq<Obj>,
                     ghost l: seq<Obj>) returns (b': Batch, head': Link, total: nat)
      requires BatchAt(next, b, s) && ListAt(next, head, l) && Disjoint(s, l) && b.current < b.target
      modifies this
      ensures var n := if b.target - b.current < |l| then b.target - b.current else |l|;
              && total == n && BatchAt(next, b', s + l[..n]) && ListAt(next, head', l[n..]) && b'.target == b.target
      ensures SameElsewhere(old(next), next, s + l)
    {
      if head == Null {
        NoHead(next, l);
        assert s + l[..0] == s;
        return b, head, 0;
      }
      var tail;
      tail, total := FindTail(head.obj, b.target - b.current, l);
      LoadLinks(next, b, head, s, l, total);
      ghost var next0 := next;
      hide ListAt, BatchAt, Disjoint, SameElsewhere;
      b' := b;
      if b.current == 0 {
        b' := b'.(head := head);
      } else {
        WriteLink(b.tail.obj, head);
      }
      b' := b'.(tail := To(tail));
      head' := next[tail];
      WriteLink(tail, Null);
      b' := b'.(current := b'.current + total);
      assert next == LoadedLinks(next0, b, head, tail);
    }

    /** Puts a whole batch in front of a list and leaves the batch empty; a batch without a target is left alone. */
    method BatchUnload(b: Batch, head: Link, ghost s: seq<Obj>,
                       ghost l: seq<Obj>) returns (b': Batch, head': Link, count: nat)
      requires BatchAt(next, b, s) && ListAt(next, head, l) && Disjoint(s, l) && (b.target > 0 ==> b.current > 0)
      modifies this
      ensures b.target == 0 ==> b' == b && head' == head && count == 0 && next == old(next)
      ensures b.target > 0 ==>
                BatchAt(next, b', []) && b'.target == b.target && ListAt(next, head', s + l) && count == |s|
      ensures SameElsewhere(old(next), next, s)
    {
      if b.target == 0 { return b, head, 0; }
      ListJoin(next, b.head, s, head, l);
      assert b.tail == To(s[|s| - 1]) && b.tail.obj in s;
      WriteLink(b.tail.obj, head);
      b', head', count := Batch(Null, Null, 0, b.target), b.head, b.current;
    }

    /** Loads a new batch: the front of the list. */
    method LoadFresh(head: Link, target: nat, ghost l: seq<Obj>) returns (b: Batch, rest: Link, n: nat)
      requires ListAt(next, head, l) && NoDup(l) && 0 < target
      modifies this
      ensures n == if target < |l| then target else |l|
      ensures BatchAt(next, b, l[..n]) && b.current == n && b.target == target && ListAt(next, rest, l[n..])
      ensures SameElsewhere(old(next), next, l)
    {
      hide ListAt, Disjoint, BatchAt, NoDup, SameElsewhere;
      EmptyBatch(next, target, l);
      b, rest, n := BatchLoad(Batch(Null, Null, 0, target), head, [], l);
      assert [] + l[..n] == l[..n] && [] + l == l;
      LoadedSome(next, b, l[..n]);
    }

    /** Unloading undoes a load, object for object. */
    method LoadThenUnload(head: Link, target: nat, ghost l: seq<Obj>) returns (head': Link)
      requires ListAt(next, head, l) && NoDup(l) && 0 < target && l != []
      modifies this
      ensures ListAt(next, head', l) && head' == head
      ensures SameElsewhere(old(next), next, l)
    {
      hide ListAt, Disjoint, BatchAt, NoDup, SameElsewhere;
      HeadOf(next, head, l);
      var b, rest, n := LoadFresh(head, target, l);
      ghost var loaded, front, back := next, l[..n], l[n..];
      DisjointCut(l, n);
      var count;
      b, head', count := BatchUnload(b, rest, front, back);
      assert front + back == l;
      HeadOf(next, head', l);
      SameElsewhereTrans(old(next), loaded, next, l, n);
    }
  }

  lemma EmptyList(next: Links)
    ensures ListAt(next, Null, [])
  {}

  lemma EmptyBatch(next: Links, target: nat, l: seq<Obj>)
    requires NoDup(l)
    ensures BatchAt(next, Batch(Null, Null, 0, target), []) && Disjoint([], l)
  {}

  lemma HeadOf(next: Links, head: Link, l: seq<Obj>)
    requires ListAt(next, head, l) && l != []
    ensures head == To(l[0])
  {}

  lemma LoadedSome(next: Links, b: Batch, s: seq<Obj>)
    requires BatchAt(next, b, s)
    ensures b.current == |s|
  {}

  lemma SameElsewhereTrans(a: Links, b: Links, c: Links, s: seq<Obj>, n: nat)
    requires n <= |s| && SameElsewhere(a, b, s) && SameElsewhere(b, c, s[..n])
    ensures SameElsewhere(a, c, s)
  {
    assert forall x :: x in s[..n] ==> x in s;
  }

  lemma DisjointCut(l: seq<Obj>, n: nat)
    requires NoDup(l) && n <= |l|
    ensures Disjoint(l[..n], l[n..])
  {}
}
