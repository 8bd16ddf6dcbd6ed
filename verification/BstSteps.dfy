/** What each change to the arena and the ghost state keeps, one invariant at a time. */
module BstSteps {
  import opened Chains
  import opened RedBlack
  import opened RedBlackInsert
  import opened RedBlackDelete
  import opened BstLinks
  import opened BstSplice
  import opened BstContents
  import opened BstEnds

  // ---------- Framing ----------

  /** Only `list` words changed, and only in `s`. */
  ghost predicate OnlyLists(m: Arena, m': Arena, s: set<Ptr>) {
    && |m'| == |m|
    && (forall p :: 0 <= p < |m| ==> SameLinks(m[p], m'[p]))
    && (forall p :: 0 <= p < |m| && p !in s ==> m'[p] == m[p])
  }

  lemma FreeFrame(m: Arena, m': Arena, head: Ptr, free: seq<Ptr>)
    requires FreeAt(m, head, free) && |m'| == |m|
    requires forall p :: p in free && 0 <= p < |m| ==> m'[p].parent == m[p].parent
    ensures FreeAt(m', head, free)
  {
    forall i | 0 <= i < |free| ensures m'[free[i]].parent == NextIn(free, i) {
      assert free[i] in free;
    }
  }

  lemma ListsFrame(m: Arena, m': Arena, s: set<Ptr>, root: Ptr, t: Tree, head: Ptr, free: seq<Ptr>)
    requires OnlyLists(m, m', s) && At(m, root, Top, t) && FreeAt(m, head, free)
    ensures At(m', root, Top, t) && FreeAt(m', head, free)
  {
    AtFrame(m, m', root, Top, t);
    FreeFrame(m, m', head, free);
  }

  /** Writing the `list` words of blocks outside every group disturbs no group. */
  lemma StaleGroups(m: Arena, m': Arena, s: set<Ptr>, groups: Groups)
    requires OnlyLists(m, m', s) && GroupsAt(m, groups) && forall b, p :: b in groups && p in groups[b] ==> p !in s
    ensures GroupsAt(m', groups)
  {
    forall b | b in groups ensures GroupAt(m', groups[b]) {
      assert GroupAt(m, groups[b]);
      forall i | 0 <= i < |groups[b]| ensures m'[groups[b][i]] == m[groups[b][i]] {
        assert groups[b][i] in groups[b];
      }
    }
  }

  // ---------- The free list ----------

  /** Taking the first free block leaves it loose. */
  lemma AllocLoose(m: Arena, t: Tree, groups: Groups, free: seq<Ptr>, head: Ptr)
    requires Apart(t, groups, free) && FreeAt(m, head, free) && |free| > 0
    ensures Apart(t, groups, free[1..]) && Loose(m, groups, free[1..], free[0])
    ensures forall p :: Accounted(groups, free, p) ==> Accounted(groups, free[1..], p) || p == free[0]
    ensures forall b :: b in groups ==> b != free[0]
  {
    var f := free[1..];
    assert forall i :: 0 <= i < |f| ==> f[i] == free[i + 1];
    assert forall p :: p in f ==> p in free;
    assert free[0] in free;
    forall b | b in groups ensures b != free[0] {
      assert b in groups[b];
    }
    assert forall p :: p in free ==> p == free[0] || p in f;
  }

  /** Giving a loose block back. */
  lemma FreeApart(m: Arena, t: Tree, groups: Groups, free: seq<Ptr>, p: Ptr)
    requires Apart(t, groups, free) && Loose(m, groups, free, p)
    ensures Apart(t, groups, [p] + free)
    ensures forall q :: Accounted(groups, free, q) || q == p ==> Accounted(groups, [p] + free, q)
  {
    var f := [p] + free;
    assert forall i :: 0 < i < |f| ==> f[i] == free[i - 1];
    assert forall q :: q in f <==> q == p || q in free;
  }

  lemma TreeNotFree(m: Arena, root: Ptr, t: Tree, groups: Groups, free: seq<Ptr>)
    requires Apart(t, groups, free)
    ensures forall p :: p in free ==> p !in Ids(t)
    ensures forall p :: p in Ids(t) ==> p in groups && p in groups[p]
  {
    forall p | p in Ids(t) ensures p in groups && p in groups[p] {
      assert groups[p][0] == p;
    }
  }

  // ---------- Insert ----------

  lemma {:induction false} InsertApart(t: Tree, t': Tree, groups: Groups, free: seq<Ptr>, n: Ptr)
    requires Apart(t, groups, free) && n !in free && (forall b :: b in groups ==> n !in groups[b])
    requires Ids(t') == Ids(t) + {n}
    ensures Apart(t', groups[n := [n]], free)
    ensures forall p :: Accounted(groups, free, p) || p == n ==> Accounted(groups[n := [n]], free, p)
  {
    var groups' := groups[n := [n]];
    assert n !in groups by {
      assert forall b :: b in groups ==> b in groups[b];
    }
    assert forall b :: b in groups ==> groups'[b] == groups[b];
    forall p | Accounted(groups, free, p) || p == n ensures Accounted(groups', free, p) {
      if p == n {
        assert p in groups'[n];
      } else if p !in free {
        var b :| b in groups && p in groups[b];
        assert p in groups'[b];
      }
    }
  }

  lemma {:induction false} InsertGroupsAt(m: Arena, m': Arena, groups: Groups, n: Ptr)
    requires GroupsAt(m, groups) && SameLists(m, m') && 0 < n < |m| && m[n].list == NIL
    ensures GroupsAt(m', groups[n := [n]])
  {
    GroupsFrame(m, m', groups);
    assert NextIn([n], 0) == NIL;
  }

  /** Two keys lead to the same place among these nodes. */
  ghost predicate SamePlace<K, V>(ord: Order<K, V>, vals: map<Ptr, V>, order: seq<Ptr>, key: K, own: K) {
    forall p :: p in order && p in vals ==> CompareTo(ord, key, vals[p]) == CompareTo(ord, own, vals[p])
  }

  lemma EqualKeys<K(!new), V>(ord: Order<K, V>, a: K, b: K, c: K)
    requires Total(ord) && ord.cmp(a, b) == 0
    ensures ord.cmp(a, c) == ord.cmp(b, c)
  {
    LessTrans(ord, a, b, c);
    LessTrans(ord, b, a, c);
    LessTrans(ord, c, a, b);
    LessTrans(ord, c, b, a);
    assert -1 <= ord.cmp(a, c) <= 1 && -1 <= ord.cmp(b, c) <= 1;
  }

  /** Equal keys lead to the same place. */
  lemma OwnPlace<K(!new), V>(ord: Order<K, V>, vals: map<Ptr, V>, order: seq<Ptr>, key: K, v: V)
    requires Total(ord) && CompareTo(ord, key, v) == 0
    ensures SamePlace(ord, vals, order, key, ord.keyOf(v))
  {
    forall p | p in order && p in vals ensures CompareTo(ord, key, vals[p]) == CompareTo(ord, ord.keyOf(v), vals[p]) {
      EqualKeys(ord, key, ord.keyOf(v), ord.keyOf(vals[p]));
    }
  }

  lemma SlotPlace<K(!new), V>(ord: Order<K, V>, vals: map<Ptr, V>, a: seq<Ptr>, b: seq<Ptr>, key: K, own: K)
    requires Total(ord) && AllBelow(ord, vals, a, key) && AllAbove(ord, vals, b, key)
    ensures SamePlace(ord, vals, a + b, key, own) <==> AllBelow(ord, vals, a, own) && AllAbove(ord, vals, b, own)
  {
    assert forall p :: p in a + b <==> p in a || p in b;
    forall p | p in a + b ensures -1 <= CompareTo(ord, own, vals[p]) <= 1 && -1 <= CompareTo(ord, key, vals[p]) <= 1 {}
  }

  lemma SortedBounds<K(!new), V>(ord: Order<K, V>, vals: map<Ptr, V>, a: seq<Ptr>, x: Ptr, b: seq<Ptr>)
    requires Total(ord) && Sorted(ord, vals, a + [x] + b) && x in vals
    ensures AllBelow(ord, vals, a, ord.keyOf(vals[x])) && AllAbove(ord, vals, b, ord.keyOf(vals[x]))
  {
    var s, k := a + [x] + b, ord.keyOf(vals[x]);
    assert s[|a|] == x;
    forall p | p in a ensures p in vals && CompareTo(ord, k, vals[p]) > 0 {
      var i :| 0 <= i < |a| && a[i] == p;
      assert s[i] == p && Compare(ord, vals, s[i], s[|a|]) < 0;
      LessTrans(ord, k, ord.keyOf(vals[p]), k);
    }
    forall p | p in b ensures p in vals && CompareTo(ord, k, vals[p]) < 0 {
      var i :| 0 <= i < |b| && b[i] == p;
      assert s[|a| + 1 + i] == p && Compare(ord, vals, s[|a|], s[|a| + 1 + i]) < 0;
    }
  }

  /** A new node keeps the order exactly when its own key leads to the slot it fills. */
  lemma {:induction false} InsertKeyed<K(!new), V>(ord: Order<K, V>, vals: map<Ptr, V>, path: Path, groups: Groups,
                                                   n: Ptr, key: K)
    requires Total(ord) && IsRedBlack(Plug(path, Leaf)) && Sorted(ord, vals, InOrder(Plug(path, Leaf)))
    requires Alike(ord, vals, groups)
    requires n in vals && n !in groups
    requires AllBelow(ord, vals, Before(path), key) && AllAbove(ord, vals, After(path), key)
    ensures var t' := InsertFix(path, NewNode(n));
            && Alike(ord, vals, groups[n := [n]]) && InOrder(t') == Before(path) + [n] + After(path)
            && var order := InOrder(Plug(path, Leaf));
            (Sorted(ord, vals, InOrder(t')) <==> SamePlace(ord, vals, order, key, ord.keyOf(vals[n])))
  {
    var b, a := Before(path), After(path);
    NewNodeInv(path, n);
    InsertFixCorrect(path, NewNode(n));
    SlotOrder(path, n);
    InOrderPlug(path, Leaf);
    var k := ord.keyOf(vals[n]);
    SlotPlace(ord, vals, b, a, key, k);
    if Sorted(ord, vals, b + [n] + a) {
      SortedBounds(ord, vals, b, n, a);
    } else if AllBelow(ord, vals, b, k) && AllAbove(ord, vals, a, k) {
      SortedInsert(ord, vals, b, n, a);
    }
    OwnKey(ord, vals[n]);
    assert SameKey(ord, vals, n, n);
  }

  lemma {:induction false} InsertHeld<V>(a: seq<Ptr>, n: Ptr, b: seq<Ptr>, groups: Groups, vals: map<Ptr, V>)
    requires n !in a && n !in b && n !in groups && n in vals
    ensures Held(a + [n] + b, groups[n := [n]], vals) == Held(a + b, groups, vals) + multiset{vals[n]}
  {
    hide Held, ValuesOf;
    var groups' := groups[n := [n]];
    HeldFrame(a, groups, vals, groups', vals);
    HeldFrame(b, groups, vals, groups', vals);
    HeldSplit(a, b, groups, vals);
    HeldSplit(a + [n], b, groups', vals);
    HeldSplit(a, [n], groups', vals);
    HeldOne(n, groups', vals);
    Swap(Held(a, groups, vals), multiset{vals[n]}, Held(b, groups, vals));
  }

  lemma HeldOne<V>(n: Ptr, groups: Groups, vals: map<Ptr, V>)
    requires n in groups && groups[n] == [n] && n in vals
    ensures Held([n], groups, vals) == multiset{vals[n]}
  {
    assert ValuesOf([n], vals) == multiset{vals[n]} + ValuesOf([n][1..], vals);
  }

  lemma Swap<V>(a: multiset<V>, x: multiset<V>, b: multiset<V>)
    ensures a + x + b == a + b + x
  {}

  // ---------- Delete ----------

  lemma {:induction false} DeleteApart(t: Tree, t': Tree, groups: Groups, free: seq<Ptr>, n: Ptr)
    requires Apart(t, groups, free) && n in groups && groups[n] == [n] && Ids(t') == Ids(t) - {n}
    ensures Apart(t', groups - {n}, free)
    ensures forall b :: b in groups - {n} ==> n !in groups[b]
    ensures forall p :: Accounted(groups, free, p) && p != n ==> Accounted(groups - {n}, free, p)
  {
    var groups' := groups - {n};
    assert n in groups[n];
    forall p | Accounted(groups, free, p) && p != n ensures Accounted(groups', free, p) {
      if p !in free {
        var b :| b in groups && p in groups[b];
        assert b != n;
        assert b in groups' && p in groups'[b];
      }
    }
  }

  lemma {:induction false} DeleteHeld<V>(a: seq<Ptr>, n: Ptr, b: seq<Ptr>, groups: Groups, vals: map<Ptr, V>)
    requires n !in a && n !in b && n in groups && groups[n] == [n] && n in vals
    ensures Held(a + [n] + b, groups, vals) == Held(a + b, groups - {n}, vals) + multiset{vals[n]}
  {
    InsertHeld(a, n, b, groups - {n}, vals);
    assert (groups - {n})[n := [n]] == groups;
  }

  lemma {:induction false} DeleteKeyed<K, V>(ord: Order<K, V>, vals: map<Ptr, V>, path: Path, t: Tree, groups: Groups)
    requires t.Node? && IsRedBlack(Plug(path, t)) && Sorted(ord, vals, InOrder(Plug(path, t)))
    requires Alike(ord, vals, groups)
    ensures var a, b := Before(path) + InOrder(t.left), InOrder(t.right) + After(path);
            && InOrder(Plug(path, t)) == a + [t.id] + b && InOrder(Deleted(path, t)) == a + b
            && Sorted(ord, vals, InOrder(Deleted(path, t))) && Alike(ord, vals, groups - {t.id})
  {
    var a, b := Before(path) + InOrder(t.left), InOrder(t.right) + After(path);
    OrderAround(path, t);
    DeletedCorrect(path, t);
    Regroup(a, InOrder(t.right), After(path));
    SortedRemove(ord, vals, a, t.id, b);
  }

  lemma NotAround(a: seq<Ptr>, n: Ptr, b: seq<Ptr>)
    requires NoDup(a + [n] + b)
    ensures n !in a && n !in b
  {
    var s := a + [n] + b;
    assert s[|a|] == n;
    assert forall i :: 0 <= i < |a| ==> s[i] == a[i];
    assert forall i :: 0 <= i < |b| ==> s[|a| + 1 + i] == b[i];
  }

  /** A group head at the front of the order has the least key of everything held. */
  lemma {:induction false} HeadIsLeast<K(!new), V>(ord: Order<K, V>, vals: map<Ptr, V>, order: seq<Ptr>, groups: Groups,
                                                   p: Ptr, v: V)
    requires Total(ord) && Sorted(ord, vals, order) && Alike(ord, vals, groups)
    requires |order| > 0 && order[0] in groups && p in groups[order[0]] && v in Held(order, groups, vals)
    ensures p in vals && ord.cmp(ord.keyOf(vals[p]), ord.keyOf(v)) <= 0
  {
    var b, q := HeldMember(order, groups, vals, v);
    var h := order[0];
    assert SameKey(ord, vals, h, p) && SameKey(ord, vals, b, q);
    var i :| 0 <= i < |order| && order[i] == b;
    assert i > 0 ==> Compare(ord, vals, order[0], order[i]) < 0;
    var kp, kh, kb := ord.keyOf(vals[p]), ord.keyOf(vals[h]), ord.keyOf(vals[b]);
    LessTrans(ord, kh, kp, kh);
    LessTrans(ord, kp, kh, kb);
    LessTrans(ord, kp, kb, ord.keyOf(v));
  }

  lemma {:induction false} HeadIsGreatest<K(!new), V>(ord: Order<K, V>, vals: map<Ptr, V>, order: seq<Ptr>,
                                                      groups: Groups, p: Ptr, v: V)
    requires Total(ord) && Sorted(ord, vals, order) && Alike(ord, vals, groups)
    requires |order| > 0 && order[|order| - 1] in groups && p in groups[order[|order| - 1]]
    requires v in Held(order, groups, vals)
    ensures p in vals && ord.cmp(ord.keyOf(v), ord.keyOf(vals[p])) <= 0
  {
    var b, q := HeldMember(order, groups, vals, v);
    var h := order[|order| - 1];
    assert SameKey(ord, vals, h, p) && SameKey(ord, vals, b, q);
    var i :| 0 <= i < |order| && order[i] == b;
    assert i < |order| - 1 ==> Compare(ord, vals, order[i], order[|order| - 1]) < 0;
    var kp, kh, kb := ord.keyOf(vals[p]), ord.keyOf(vals[h]), ord.keyOf(vals[b]);
    LessTrans(ord, kb, ord.keyOf(v), kb);
    LessTrans(ord, kb, kh, kp);
    LessTrans(ord, ord.keyOf(v), kb, kp);
  }

  // ---------- Facts the operations start from ----------

  lemma GroupReads(m: Arena, t: Tree, groups: Groups, free: seq<Ptr>, b: Ptr, i: nat)
    requires Apart(t, groups, free) && GroupsAt(m, groups) && b in groups && i < |groups[b]|
    ensures 0 < groups[b][i] < |m| && b in Ids(t)
  {
    assert GroupAt(m, groups[b]);
  }

  lemma InOrderFacts(m: Arena, root: Ptr, t: Tree)
    requires At(m, root, Top, t)
    ensures NoDup(InOrder(t)) && forall p :: p in InOrder(t) <==> p in Ids(t)
  {
    InOrderNoDup(t);
    InOrderIds(t);
  }

  lemma AttachHeld<V>(order: seq<Ptr>, groups: Groups, b: Ptr, i: nat, n: Ptr, vals: map<Ptr, V>)
    requires b in order && NoDup(order) && b in groups && i < |groups[b]| && n in vals
    ensures Held(order, groups[b := InsertAfter(groups[b], i, n)], vals) ==
            Held(order, groups, vals) + multiset{vals[n]}
  {
    hide Held, ValuesOf, InsertAfter, NoDup;
    var r := InsertAfter(groups[b], i, n);
    ValuesInsertAfter(groups[b], i, n, vals);
    Nothing(ValuesOf(r, vals));
    HeldChange(order, groups, b, r, vals, multiset{vals[n]}, multiset{});
    Nothing(Held(order, groups[b := r], vals));
  }

  lemma Nothing<V>(a: multiset<V>)
    ensures a + multiset{} == a
  {}

  lemma AttachAccounted(groups: Groups, free: seq<Ptr>, b: Ptr, i: nat, n: Ptr)
    requires b in groups && i < |groups[b]|
    ensures var groups' := groups[b := InsertAfter(groups[b], i, n)];
            && InGroups(groups', n) && InGroups(groups', groups[b][i])
            && forall p :: Accounted(groups, free, p) || p == n ==> Accounted(groups', free, p)
  {
    var g, r := groups[b], InsertAfter(groups[b], i, n);
    var groups' := groups[b := r];
    assert r[i + 1] == n && r[i] == g[i];
    assert n in groups'[b] && g[i] in groups'[b];
    assert forall q :: q in g ==> q in r by {
      assert g == g[..i + 1] + g[i + 1..];
    }
    forall p | Accounted(groups, free, p) ensures Accounted(groups', free, p) {
      if p !in free {
        var c :| c in groups && p in groups[c];
        assert p in groups'[c];
      }
    }
  }

  lemma SlotFacts(m: Arena, root: Ptr, path: Path, t: Tree, groups: Groups, free: seq<Ptr>, n: Ptr)
    requires At(m, root, path, Leaf) && t == Plug(path, Leaf) && Apart(t, groups, free) && Loose(m, groups, free, n)
    ensures n !in PathIds(path) && n !in groups && Ids(t) == PathIds(path)
    ensures n !in Before(path) && n !in After(path)
  {
    FocusTop(m, root, path, Leaf);
    TreeNotFree(m, root, t, groups, free);
    InOrderIds(t);
    InOrderPlug(path, Leaf);
    assert forall p :: p in Before(path) || p in After(path) ==> p in InOrder(t);
  }

  lemma SlotEnds(m: Arena, root: Ptr, path: Path, smallest: Ptr, largest: Ptr, n: Ptr)
    requires At(m, root, path, Leaf) && Ends(Plug(path, Leaf), smallest, largest)
    ensures NoDup(InOrder(Plug(path, Leaf))) && (largest == NIL <==> path.Top?)
    ensures path.Top? ==> RootId(InsertFix(path, NewNode(n))) == n
  {
    var t := Plug(path, Leaf);
    FocusTop(m, root, path, Leaf);
    InOrderFacts(m, root, t);
    InOrderIds(t);
    PlugIsNode(path, Leaf);
    IdsInArena(m, t, NIL);
    var s := InOrder(t);
    assert s != [] ==> s[|s| - 1] in s;
  }

  /** Clearing the new node's chain disturbs nothing. */
  lemma ListCleared(m: Arena, m': Arena, root: Ptr, t: Tree, path: Path, n: Ptr, head: Ptr, groups: Groups,
                    free: seq<Ptr>)
    requires At(m, root, Top, t) && t == Plug(path, Leaf) && Apart(t, groups, free) && GroupsAt(m, groups)
    requires FreeAt(m, head, free)
    requires Loose(m, groups, free, n) && m' == m[n := m[n].(list := NIL)]
    ensures At(m', root, path, Leaf) && GroupsAt(m', groups) && FreeAt(m', head, free) && Loose(m', groups, free, n)
    ensures m'[n].list == NIL
  {
    assert OnlyLists(m, m', {n});
    ListsFrame(m, m', {n}, root, t, head, free);
    StaleGroups(m, m', {n}, groups);
    FocusOn(m', root, path, Leaf);
  }

  /** Groups, free list and partition after the new node is linked. */
  lemma InsertStored(m: Arena, m': Arena, path: Path, n: Ptr, head: Ptr, groups: Groups, free: seq<Ptr>)
    requires var t := Plug(path, Leaf); Apart(t, groups, free) && Ids(t) == PathIds(path)
    requires GroupsAt(m, groups) && FreeAt(m, head, free) && Loose(m, groups, free, n) && m[n].list == NIL
    requires Within(m, m', PathIds(path) + {n}) && AllIds(Top, InsertFix(path, NewNode(n))) == PathIds(path) + {n}
    ensures |m'| == |m| && GroupsAt(m', groups[n := [n]]) && FreeAt(m', head, free)
    ensures Apart(InsertFix(path, NewNode(n)), groups[n := [n]], free) && InGroups(groups[n := [n]], n)
    ensures forall p :: Accounted(groups, free, p) || p == n ==> Accounted(groups[n := [n]], free, p)
  {
    hide InsertFix, GroupsAt, FreeAt;
    var t, t' := Plug(path, Leaf), InsertFix(path, NewNode(n));
    assert Ids(t') == AllIds(Top, t');
    TreeNotFree(m, NIL, t, groups, free);
    FreeFrame(m, m', head, free);
    InsertGroupsAt(m, m', groups, n);
    InsertApart(t, t', groups, free, n);
    assert n in groups[n := [n]][n];
  }

  lemma InsertContents<V>(path: Path, n: Ptr, groups: Groups, vals: map<Ptr, V>)
    requires IsRedBlack(Plug(path, Leaf)) && n !in Before(path) && n !in After(path) && n !in groups && n in vals
    ensures Held(InOrder(InsertFix(path, NewNode(n))), groups[n := [n]], vals)
         == Held(InOrder(Plug(path, Leaf)), groups, vals) + multiset{vals[n]}
  {
    hide Held;
    NewNodeInv(path, n);
    InsertFixCorrect(path, NewNode(n));
    SlotOrder(path, n);
    InOrderPlug(path, Leaf);
    InsertHeld(Before(path), n, After(path), groups, vals);
  }

  lemma InsertRedBlack(path: Path, n: Ptr)
    requires IsRedBlack(Plug(path, Leaf))
    ensures IsRedBlack(InsertFix(path, NewNode(n)))
  {
    NewNodeInv(path, n);
    InsertFixCorrect(path, NewNode(n));
  }

  // ---------- Put ----------

  lemma ListsLength(m: Arena, m': Arena, s: set<Ptr>)
    requires OnlyLists(m, m', s)
    ensures |m'| == |m|
  {}

  lemma EndsInTree<K, V>(ord: Order<K, V>, m: Arena, root: Ptr, t: Tree, vals: map<Ptr, V>, smallest: Ptr, largest: Ptr)
    requires At(m, root, Top, t) && Sorted(ord, vals, InOrder(t)) && Ends(t, smallest, largest)
    ensures smallest != NIL ==> smallest in vals && smallest in Ids(t) && 0 < smallest < |m|
    ensures largest != NIL ==> largest in vals && largest in Ids(t) && 0 < largest < |m|
    ensures smallest == NIL <==> t.Leaf?
    ensures largest == NIL <==> t.Leaf?
  {
    var s := InOrder(t);
    InOrderIds(t);
    IdsInArena(m, t, NIL);
    assert s != [] ==> s[0] in s && s[|s| - 1] in s;
  }

  /** Filling the newly taken block: keys, contents and shortcuts are untouched. */
  lemma PackFacts<K(!new), V>(ord: Order<K, V>, m: Arena, root: Ptr, t: Tree, vals: map<Ptr, V>, groups: Groups,
                              free: seq<Ptr>, n: Ptr, v: V, smallest: Ptr, largest: Ptr)
    requires At(m, root, Top, t) && Sorted(ord, vals, InOrder(t)) && Alike(ord, vals, groups)
    requires Ends(t, smallest, largest)
    requires Apart(t, groups, free) && (forall b :: b in groups ==> n !in groups[b] && n != b)
    ensures Sorted(ord, vals[n := v], InOrder(t)) && Alike(ord, vals[n := v], groups)
    ensures Held(InOrder(t), groups, vals[n := v]) == Held(InOrder(t), groups, vals)
    ensures smallest != NIL ==> smallest in vals && smallest < |m|
    ensures largest != NIL ==> largest in vals && largest < |m|
  {
    hide Sorted, Alike, Held, At, Ends;
    InOrderIds(t);
    PackKeepsKeys(ord, vals, groups, n, v, InOrder(t));
    PackKeepsHeld(vals, groups, n, v, InOrder(t));
    EndsInTree(ord, m, root, t, vals, smallest, largest);
  }

  /** A block joins a group by its own key exactly when that key leads to the group. */
  lemma HitPlace<K(!new), V>(ord: Order<K, V>, vals: map<Ptr, V>, order: seq<Ptr>, b: Ptr, p: Ptr, n: Ptr, key: K)
    requires Total(ord) && SameKey(ord, vals, b, p) && n in vals && b in order && CompareTo(ord, key, vals[p]) == 0
    ensures SameKey(ord, vals, b, n) <==> SamePlace(ord, vals, order, key, ord.keyOf(vals[n]))
  {
    var kb, kp, kn := ord.keyOf(vals[b]), ord.keyOf(vals[p]), ord.keyOf(vals[n]);
    EqualKeys(ord, key, kp, kb);
    LessTrans(ord, kp, kb, kp);
    if SameKey(ord, vals, b, n) {
      LessTrans(ord, kb, kn, kb);
      EqualKeys(ord, kn, kb, key);
      LessTrans(ord, kb, key, kn);
      OwnPlace(ord, vals, order, key, vals[n]);
    } else {
      LessTrans(ord, kb, kn, kb);
    }
  }

  /** Whatever a shortcut hits, every group it is in has the key; the two ends are always in one. */
  lemma CacheHit<K(!new), V>(ord: Order<K, V>, m: Arena, root: Ptr, vals: map<Ptr, V>, t: Tree, groups: Groups,
                             free: seq<Ptr>, smallest: Ptr, largest: Ptr, previous: Ptr, hit: Ptr, n: Ptr, key: K)
    requires Total(ord) && At(m, root, Top, t) && Sorted(ord, vals, InOrder(t)) && Alike(ord, vals, groups)
    requires Apart(t, groups, free) && Ends(t, smallest, largest)
    requires hit != NIL && hit in vals && hit in {previous, largest, smallest} && n in vals
    requires CompareTo(ord, key, vals[hit]) == 0
    ensures forall b :: b in groups && hit in groups[b] ==>
              (SameKey(ord, vals, b, n) <==> SamePlace(ord, vals, InOrder(t), key, ord.keyOf(vals[n])))
    ensures hit != previous ==> InGroups(groups, hit)
    ensures hit != previous ==> hit < |m|
  {
    EndsInTree(ord, m, root, t, vals, smallest, largest);
    TreeNotFree(m, root, t, groups, free);
    InOrderIds(t);
    hide SamePlace, At, Sorted, Ends, Total, CompareTo;
    forall b | b in groups && hit in groups[b]
      ensures SameKey(ord, vals, b, n) <==> SamePlace(ord, vals, InOrder(t), key, ord.keyOf(vals[n]))
    {
      HitPlace(ord, vals, InOrder(t), b, hit, n, key);
    }
  }

  lemma FoundHit<K(!new), V>(ord: Order<K, V>, m: Arena, root: Ptr, vals: map<Ptr, V>, t: Tree, groups: Groups,
                             free: seq<Ptr>, path: Path, u: Tree, n: Ptr, key: K)
    requires Total(ord) && At(m, root, path, u) && Plug(path, u) == t && u.Node? && Alike(ord, vals, groups)
    requires Apart(t, groups, free)
    requires u.id in vals && n in vals && CompareTo(ord, key, vals[u.id]) == 0
    ensures forall b :: b in groups && u.id in groups[b] ==>
              (SameKey(ord, vals, b, n) <==> SamePlace(ord, vals, InOrder(t), key, ord.keyOf(vals[n])))
    ensures InGroups(groups, u.id) && u.id < |m|
  {
    FocusTop(m, root, path, u);
    assert u.id in AllIds(path, u);
    TreeNotFree(m, root, t, groups, free);
    InOrderIds(t);
    hide SamePlace, At, Total, CompareTo;
    forall b | b in groups && u.id in groups[b]
      ensures SameKey(ord, vals, b, n) <==> SamePlace(ord, vals, InOrder(t), key, ord.keyOf(vals[n]))
    {
      HitPlace(ord, vals, InOrder(t), b, u.id, n, key);
    }
  }

  /** Whether every block is still accounted for after a put. */
  lemma PutCovered(n: nat, groups: Groups, groups': Groups, free: seq<Ptr>, p: Ptr)
    requires |free| > 0 && free[0] == p && 0 < p < n && p !in free[1..] && forall b :: b in groups ==> p !in groups[b]
    requires forall q :: Accounted(groups, free, q) ==> Accounted(groups, free[1..], q) || q == p
    ensures groups' == groups ==> !Covered(n, groups', free[1..])
    ensures (forall q :: Accounted(groups, free[1..], q) || q == p ==> Accounted(groups', free[1..], q)) ==>
              (Covered(n, groups, free) ==> Covered(n, groups', free[1..]))
  {
    assert !Accounted(groups, free[1..], p);
  }

  // ---------- Take ----------

  lemma GroupHead<K, V>(ord: Order<K, V>, m: Arena, root: Ptr, t: Tree, vals: map<Ptr, V>, groups: Groups,
                        free: seq<Ptr>, b: Ptr)
    requires At(m, root, Top, t) && Apart(t, groups, free) && GroupsAt(m, groups) && Alike(ord, vals, groups)
    requires b in groups
    ensures b in groups[b] && groups[b][0] == b && 0 < b < |m| && NoDup(groups[b])
    ensures if m[b].list == NIL then groups[b] == [b]
            else |groups[b]| > 1 && m[b].list == groups[b][1] && 0 < groups[b][1] < |m| && groups[b][1] != b
    ensures forall p :: p in groups[b] ==> p in vals
    ensures |groups[b]| > 1 ==> groups[b][1] in groups[b]
    ensures NoDup(InOrder(t)) && b in InOrder(t)
  {
    assert GroupAt(m, groups[b]);
    assert groups[b][0] == b;
    assert m[groups[b][0]].list == NextIn(groups[b], 0);
    assert forall p :: p in groups[b] ==> SameKey(ord, vals, b, p);
    InOrderFacts(m, root, t);
  }

  lemma DetachContents<K, V>(ord: Order<K, V>, order: seq<Ptr>, groups: Groups, b: Ptr, vals: map<Ptr, V>)
    requires b in groups && |groups[b]| > 1 && b in order && NoDup(order) && groups[b][1] in vals
    requires Alike(ord, vals, groups)
    ensures var groups' := groups[b := RemoveSecond(groups[b])]; var p := groups[b][1];
            && Held(order, groups', vals) + multiset{vals[p]} == Held(order, groups, vals) && Alike(ord, vals, groups')
            && (forall q :: InGroups(groups, q) && q != p ==> InGroups(groups', q))
  {
    hide Held, NoDup;
    var g, r := groups[b], RemoveSecond(groups[b]);
    var groups' := groups[b := r];
    ValuesRemoveSecond(g, vals);
    Nothing(ValuesOf(g, vals));
    HeldChange(order, groups, b, r, vals, multiset{}, multiset{vals[g[1]]});
    Nothing(Held(order, groups, vals));
    assert forall k :: 1 <= k < |r| ==> r[k] == g[k + 1];
    assert forall q :: q in r ==> q in g;
    assert forall q :: q in g && q != g[1] ==> q in r by {
      assert g == [g[0], g[1]] + g[2..];
    }
    forall q | InGroups(groups, q) && q != g[1] ensures InGroups(groups', q) {
      var c :| c in groups && q in groups[c];
      assert q in groups'[c];
    }
    forall c, q | c in groups' && q in groups'[c] ensures SameKey(ord, vals, c, q) {
      assert q in groups[c];
    }
  }

  lemma AtReads(m: Arena, root: Ptr, t: Tree)
    requires At(m, root, Top, t)
    ensures |m| > 0 && m[NIL].color == Black && AllIds(Top, t) == Ids(t)
  {}

  lemma NodeFacts(m: Arena, root: Ptr, path: Path, t: Tree)
    requires At(m, root, path, t) && t.Node?
    ensures AllIds(path, t) == Ids(Plug(path, t)) && t.id in Ids(Plug(path, t)) && NoDup(InOrder(Plug(path, t)))
  {
    FocusTop(m, root, path, t);
    InOrderFacts(m, root, Plug(path, t));
    assert t.id in AllIds(path, t);
    AtReads(m, root, Plug(path, t));
  }

  lemma DeleteContents<V>(path: Path, t: Tree, groups: Groups, vals: map<Ptr, V>)
    requires t.Node? && IsRedBlack(Plug(path, t)) && NoDup(InOrder(Plug(path, t)))
    requires t.id in groups && groups[t.id] == [t.id] && t.id in vals
    ensures Held(InOrder(Deleted(path, t)), groups - {t.id}, vals) + multiset{vals[t.id]} ==
            Held(InOrder(Plug(path, t)), groups, vals)
  {
    hide Held, NoDup;
    var a, b := Before(path) + InOrder(t.left), InOrder(t.right) + After(path);
    OrderAround(path, t);
    DeletedCorrect(path, t);
    Regroup(a, InOrder(t.right), After(path));
    NotAround(a, t.id, b);
    DeleteHeld(a, t.id, b, groups, vals);
  }

  /** Groups, free list and partition after the node is unlinked. */
  lemma DeleteStored(m: Arena, m': Arena, path: Path, t: Tree, head: Ptr, groups: Groups, free: seq<Ptr>)
    requires t.Node? && t.id in groups && groups[t.id] == [t.id] && Apart(Plug(path, t), groups, free) && t.id < |m|
    requires GroupsAt(m, groups) && FreeAt(m, head, free) && AllIds(path, t) == Ids(Plug(path, t))
    requires Within(m, m', AllIds(path, t) - {t.id} + {NIL})
    requires AllIds(Top, Deleted(path, t)) == AllIds(path, t) - {t.id}
    ensures |m'| == |m| && GroupsAt(m', groups - {t.id}) && FreeAt(m', head, free)
    ensures Apart(Deleted(path, t), groups - {t.id}, free) && Loose(m', groups - {t.id}, free, t.id)
    ensures forall p :: Accounted(groups, free, p) && p != t.id ==> Accounted(groups - {t.id}, free, p)
  {
    hide Deleted, Plug;
    var t0, t' := Plug(path, t), Deleted(path, t);
    assert Ids(t') == AllIds(Top, t');
    TreeNotFree(m, NIL, t0, groups, free);
    FreeFrame(m, m', head, free);
    GroupsFrame(m, m', groups);
    DeleteApart(t0, t', groups, free, t.id);
    assert t.id in groups[t.id];
    assert GroupAt(m, groups[t.id]);
  }

  lemma StillInGroups(groups: Groups, n: Ptr)
    requires n in groups ==> groups[n] == [n]
    ensures forall p :: InGroups(groups, p) && p != n ==> InGroups(groups - {n}, p)
  {
    forall p | InGroups(groups, p) && p != n ensures InGroups(groups - {n}, p) {
      var b :| b in groups && p in groups[b];
      assert b != n;
      assert b in groups - {n} && p in (groups - {n})[b];
    }
  }

  /** Blocks before they are linked, the sentinel among them. */
  function Blank(n: nat): (m: Arena)
    ensures |m| == n && forall p :: 0 <= p < n ==> m[p].color == Black
  {
    seq(n, i => Header(NIL, Black, NIL, NIL, NIL))
  }

  /** An empty tree beside any free list. */
  lemma FreshTree<K, V>(ord: Order<K, V>, m: Arena, free: seq<Ptr>)
    requires NoDup(free) && |m| > 0 && m[NIL].color == Black
    ensures At(m, NIL, Top, Leaf) && IsRedBlack(Leaf) && Apart(Leaf, map[], free) && GroupsAt(m, map[])
    ensures Sorted(ord, map[], InOrder(Leaf)) && Alike(ord, map[], map[]) && Ends(Leaf, NIL, NIL)
    ensures Held<V>(InOrder(Leaf), map[], map[]) == multiset{}
  {}

  lemma AttachBehind(groups: Groups, b: Ptr, i: nat, n: Ptr)
    requires b in groups && i < |groups[b]|
    ensures Behind(groups, groups[b := InsertAfter(groups[b], i, n)], groups[b][i], n)
  {}

  lemma DetachFirst(groups: Groups, b: Ptr)
    requires b in groups && |groups[b]| > 1 && groups[b][0] == b
    ensures LostFirst(groups, groups[b := RemoveSecond(groups[b])], b, groups[b][1])
  {
    assert RemoveSecond(groups[b]) == [b] + groups[b][2..];
  }

  /** In a strictly sorted order only one node has a key. */
  lemma OneMatch<K(!new), V>(ord: Order<K, V>, vals: map<Ptr, V>, order: seq<Ptr>, p: Ptr, key: K)
    requires Total(ord) && Sorted(ord, vals, order) && p in order && p in vals && CompareTo(ord, key, vals[p]) == 0
    ensures forall q :: q in order && q in vals && CompareTo(ord, key, vals[q]) == 0 ==> q == p
  {
    forall q | q in order && q in vals && CompareTo(ord, key, vals[q]) == 0 ensures q == p {
      EqualKeys(ord, key, ord.keyOf(vals[p]), ord.keyOf(vals[q]));
      LessTrans(ord, ord.keyOf(vals[p]), ord.keyOf(vals[q]), ord.keyOf(vals[p]));
      var i :| 0 <= i < |order| && order[i] == p;
      var j :| 0 <= j < |order| && order[j] == q;
      assert i < j ==> Compare(ord, vals, order[i], order[j]) < 0;
      assert j < i ==> Compare(ord, vals, order[j], order[i]) < 0;
    }
  }

  lemma OneGroup(t: Tree, groups: Groups, free: seq<Ptr>, p: Ptr)
    requires Apart(t, groups, free)
    ensures forall b, c :: b in groups && c in groups && p in groups[b] && p in groups[c] ==> b == c
  {}

  lemma ApartKeys(t: Tree, groups: Groups, free: seq<Ptr>)
    requires Apart(t, groups, free)
    ensures forall p :: p in Ids(t) ==> p in groups
  {}

  /** Nothing is held exactly when there is no tree. */
  lemma EmptyContents<K, V>(ord: Order<K, V>, m: Arena, root: Ptr, t: Tree, vals: map<Ptr, V>, groups: Groups,
                            free: seq<Ptr>)
    requires At(m, root, Top, t) && Apart(t, groups, free) && Alike(ord, vals, groups)
    ensures t.Leaf? <==> Held(InOrder(t), groups, vals) == multiset{}
  {
    InOrderIds(t);
    var s := InOrder(t);
    if t.Node? {
      assert s[0] in s && s[0] in groups && groups[s[0]][0] == s[0];
      assert SameKey(ord, vals, s[0], s[0]);
      assert vals[s[0]] in ValuesOf(groups[s[0]], vals);
      assert vals[s[0]] in Held(s, groups, vals);
    }
  }

  lemma GroupValueHeld<K, V>(ord: Order<K, V>, m: Arena, root: Ptr, t: Tree, vals: map<Ptr, V>, groups: Groups,
                             free: seq<Ptr>, b: Ptr, p: Ptr)
    requires At(m, root, Top, t) && Apart(t, groups, free) && b in groups && p in groups[b] && p in vals
    ensures vals[p] in Held(InOrder(t), groups, vals)
  {
    InOrderFacts(m, root, t);
    InOrderIds(t);
    HeldTakeOut(InOrder(t), groups, b, vals);
    ValuesOfMember(groups[b], vals, vals[p]);
  }

  lemma LeastOf<K(!new), V>(ord: Order<K, V>, t: Tree, vals: map<Ptr, V>, groups: Groups, smallest: Ptr, largest: Ptr)
    requires Total(ord) && Sorted(ord, vals, InOrder(t)) && Alike(ord, vals, groups) && Ends(t, smallest, largest)
    requires smallest in groups && smallest != NIL
    ensures forall p, v :: p in groups[smallest] && v in Held(InOrder(t), groups, vals) ==>
              p in vals && ord.cmp(ord.keyOf(vals[p]), ord.keyOf(v)) <= 0
  {
    hide Held;
    forall p, v | p in groups[smallest] && v in Held(InOrder(t), groups, vals)
      ensures p in vals && ord.cmp(ord.keyOf(vals[p]), ord.keyOf(v)) <= 0
    {
      HeadIsLeast(ord, vals, InOrder(t), groups, p, v);
    }
  }

  lemma GreatestOf<K(!new), V>(ord: Order<K, V>, t: Tree, vals: map<Ptr, V>, groups: Groups, smallest: Ptr,
                               largest: Ptr)
    requires Total(ord) && Sorted(ord, vals, InOrder(t)) && Alike(ord, vals, groups) && Ends(t, smallest, largest)
    requires largest in groups && largest != NIL
    ensures forall p, v :: p in groups[largest] && v in Held(InOrder(t), groups, vals) ==>
              p in vals && ord.cmp(ord.keyOf(v), ord.keyOf(vals[p])) <= 0
  {
    hide Held;
    forall p, v | p in groups[largest] && v in Held(InOrder(t), groups, vals)
      ensures p in vals && ord.cmp(ord.keyOf(v), ord.keyOf(vals[p])) <= 0
    {
      HeadIsGreatest(ord, vals, InOrder(t), groups, p, v);
    }
  }

  // ---------- Taking by key ----------

  lemma RootReads(m: Arena, root: Ptr, t: Tree)
    requires At(m, root, Top, t)
    ensures root == NIL <==> t.Leaf?
  {}

  lemma NoSuchKey<K(!new), V>(ord: Order<K, V>, path: Path, vals: map<Ptr, V>, groups: Groups, key: K)
    requires Total(ord) && Alike(ord, vals, groups)
    requires AllBelow(ord, vals, Before(path), key) && AllAbove(ord, vals, After(path), key)
    ensures forall v :: v in Held(InOrder(Plug(path, Leaf)), groups, vals) ==> CompareTo(ord, key, v) != 0
  {
    hide Held;
    var order := InOrder(Plug(path, Leaf));
    InOrderPlug(path, Leaf);
    forall v | v in Held(order, groups, vals) ensures CompareTo(ord, key, v) != 0 {
      var b, p := HeldMember(order, groups, vals, v);
      assert SameKey(ord, vals, b, p);
      assert b in Before(path) || b in After(path);
      var kb, kp := ord.keyOf(vals[b]), ord.keyOf(vals[p]);
      LessTrans(ord, key, kp, kb);
      LessTrans(ord, kp, kb, key);
      LessTrans(ord, kb, kp, key);
      LessTrans(ord, key, kb, kp);
    }
  }

  lemma FoundGroup<K(!new), V>(ord: Order<K, V>, m: Arena, root: Ptr, path: Path, t: Tree, vals: map<Ptr, V>,
                               groups: Groups, free: seq<Ptr>, key: K)
    requires Total(ord) && At(m, root, path, t) && t.Node? && Apart(Plug(path, t), groups, free)
    requires Alike(ord, vals, groups)
    requires t.id in vals && CompareTo(ord, key, vals[t.id]) == 0
    ensures t.id in groups && forall p :: p in groups[t.id] ==> p in vals && CompareTo(ord, key, vals[p]) == 0
  {
    FocusTop(m, root, path, t);
    assert t.id in AllIds(path, t);
    forall p | p in groups[t.id] ensures p in vals && CompareTo(ord, key, vals[p]) == 0 {
      assert SameKey(ord, vals, t.id, p);
      var kb, kp := ord.keyOf(vals[t.id]), ord.keyOf(vals[p]);
      LessTrans(ord, key, kb, kp);
      LessTrans(ord, kp, kb, key);
      LessTrans(ord, kb, kp, kb);
      LessTrans(ord, key, kb, key);
      LessTrans(ord, kp, key, kp);
    }
  }

  // ---------- Runs ----------

  lemma TakenWasHeld<V>(left: multiset<V>, v: V)
    ensures v in left + multiset{v} && |left + multiset{v}| == |left| + 1
    ensures forall w :: w in left ==> w in left + multiset{v}
  {}

  lemma MoveOut<V>(was: multiset<V>, left: multiset<V>, out: seq<V>, v: V)
    requires left + multiset{v} == was
    ensures left + multiset(out + [v]) == was + multiset(out)
    ensures |left| + 1 == |was|
  {
    assert multiset(out + [v]) == multiset(out) + multiset{v};
  }

  ghost predicate Rising<K, V>(ord: Order<K, V>, s: seq<V>) {
    forall i, j :: 0 <= i < j < |s| ==> ord.cmp(ord.keyOf(s[i]), ord.keyOf(s[j])) <= 0
  }

  ghost predicate RisingTo<K, V>(ord: Order<K, V>, s: seq<V>, rest: multiset<V>) {
    forall i, v :: 0 <= i < |s| && v in rest ==> ord.cmp(ord.keyOf(s[i]), ord.keyOf(v)) <= 0
  }

  ghost predicate Falling<K, V>(ord: Order<K, V>, s: seq<V>) {
    forall i, j :: 0 <= i < j < |s| ==> ord.cmp(ord.keyOf(s[j]), ord.keyOf(s[i])) <= 0
  }

  ghost predicate FallingTo<K, V>(ord: Order<K, V>, s: seq<V>, rest: multiset<V>) {
    forall i, v :: 0 <= i < |s| && v in rest ==> ord.cmp(ord.keyOf(v), ord.keyOf(s[i])) <= 0
  }

  lemma DrainStart<K, V>(ord: Order<K, V>, all: multiset<V>)
    ensures all + multiset([]) == all
    ensures Rising(ord, []) && RisingTo(ord, [], all) && Falling(ord, []) && FallingTo(ord, [], all)
  {}

  lemma RisingStep<K, V>(ord: Order<K, V>, s: seq<V>, was: multiset<V>, rest: multiset<V>, x: V)
    requires Rising(ord, s) && RisingTo(ord, s, was) && rest + multiset{x} == was
    requires forall v :: v in was ==> ord.cmp(ord.keyOf(x), ord.keyOf(v)) <= 0
    ensures Rising(ord, s + [x]) && RisingTo(ord, s + [x], rest)
  {
    TakenWasHeld(rest, x);
  }

  lemma FallingStep<K, V>(ord: Order<K, V>, s: seq<V>, was: multiset<V>, rest: multiset<V>, x: V)
    requires Falling(ord, s) && FallingTo(ord, s, was) && rest + multiset{x} == was
    requires forall v :: v in was ==> ord.cmp(ord.keyOf(v), ord.keyOf(x)) <= 0
    ensures Falling(ord, s + [x]) && FallingTo(ord, s + [x], rest)
  {
    TakenWasHeld(rest, x);
  }

  lemma Cancel<V>(a: multiset<V>, b: multiset<V>, x: V)
    requires a + multiset{x} == b + multiset{x}
    ensures a == b
  {
    assert a == (a + multiset{x}) - multiset{x};
    assert b == (b + multiset{x}) - multiset{x};
  }

  lemma OwnKey<K(!new), V>(ord: Order<K, V>, v: V)
    requires Total(ord)
    ensures CompareTo(ord, ord.keyOf(v), v) == 0
  {
    LessTrans(ord, ord.keyOf(v), ord.keyOf(v), ord.keyOf(v));
  }

  lemma TakeOneMore<V>(was: multiset<V>, items: seq<V>, i: nat)
    requires i < |items|
    ensures was + multiset(items[..i]) + multiset{items[i]} == was + multiset(items[..i + 1])
  {
    assert items[..i + 1] == items[..i] + [items[i]];
  }

  /** Sorted, and holding different keys, is strictly sorted. */
  lemma {:induction false} StrictWhenDistinct<K(!new), V>(ord: Order<K, V>, items: seq<V>, out: seq<V>)
    requires Total(ord) && multiset(out) == multiset(items)
    requires forall i, j :: 0 <= i < j < |items| ==> ord.cmp(ord.keyOf(items[i]), ord.keyOf(items[j])) != 0
    requires Rising(ord, out)
    ensures forall i, j :: 0 <= i < j < |out| ==> ord.cmp(ord.keyOf(out[i]), ord.keyOf(out[j])) < 0
  {
    forall i, j | 0 <= i < j < |out| ensures ord.cmp(ord.keyOf(out[i]), ord.keyOf(out[j])) < 0 {
      var a, b := TwoPlaces(out, i, j, items);
      LessTrans(ord, ord.keyOf(out[i]), ord.keyOf(out[j]), ord.keyOf(out[i]));
    }
  }

  lemma WithoutOne<V>(s: seq<V>, i: nat)
    requires i < |s|
    ensures multiset(s) == multiset(Without(s, i)) + multiset{s[i]}
  {
    assert s == s[..i] + ([s[i]] + s[i + 1..]);
  }

  /** Two places of a sequence are two places of any rearrangement. */
  lemma {:induction false} TwoPlaces<V>(s: seq<V>, i: nat, j: nat, r: seq<V>) returns (a: nat, b: nat)
    requires i < j < |s| && multiset(s) == multiset(r)
    ensures a < |r| && b < |r| && a != b && r[a] == s[i] && r[b] == s[j]
  {
    a := PlaceOf(s, i, r);
    WithoutOne(s, i);
    WithoutOne(r, a);
    Cancel(multiset(Without(s, i)), multiset(Without(r, a)), s[i]);
    assert Without(s, i)[j - 1] == s[j];
    var c := PlaceOf(Without(s, i), j - 1, Without(r, a));
    b := if c < a then c else c + 1;
  }

  lemma PlaceOf<V>(s: seq<V>, i: nat, r: seq<V>) returns (a: nat)
    requires i < |s| && multiset(s) == multiset(r)
    ensures a < |r| && r[a] == s[i]
  {
    assert s[i] in multiset(s);
    a :| 0 <= a < |r| && r[a] == s[i];
  }

  lemma {:induction false} StrictDownWhenDistinct<K(!new), V>(ord: Order<K, V>, items: seq<V>, out: seq<V>)
    requires Total(ord) && multiset(out) == multiset(items)
    requires forall i, j :: 0 <= i < j < |items| ==> ord.cmp(ord.keyOf(items[i]), ord.keyOf(items[j])) != 0
    requires Falling(ord, out)
    ensures forall i, j :: 0 <= i < j < |out| ==> ord.cmp(ord.keyOf(out[j]), ord.keyOf(out[i])) < 0
  {
    forall i, j | 0 <= i < j < |out| ensures ord.cmp(ord.keyOf(out[j]), ord.keyOf(out[i])) < 0 {
      var a, b := TwoPlaces(out, i, j, items);
      LessTrans(ord, ord.keyOf(out[i]), ord.keyOf(out[j]), ord.keyOf(out[i]));
    }
  }

  // ---------- Two values ----------

  lemma OnlyKey<K(!new), V>(ord: Order<K, V>, lo: V, hi: V, v: V)
    requires ord.cmp(ord.keyOf(lo), ord.keyOf(hi)) < 0
    requires v in multiset{hi, lo} && CompareTo(ord, ord.keyOf(lo), v) == 0
    ensures v == lo && CompareTo(ord, ord.keyOf(lo), hi) != 0
  {}

  lemma LeastOfTwo<K(!new), V>(ord: Order<K, V>, lo: V, hi: V, v: V, left: multiset<V>)
    requires Total(ord) && ord.cmp(ord.keyOf(lo), ord.keyOf(hi)) < 0
    requires left + multiset{v} == multiset{hi, lo} && ord.cmp(ord.keyOf(v), ord.keyOf(lo)) <= 0
    ensures v == lo && left == multiset{hi} && lo !in left
  {
    assert v in multiset{hi, lo};
    LessTrans(ord, ord.keyOf(hi), ord.keyOf(lo), ord.keyOf(hi));
  }
}
