/**
  What the tree holds, apart from its links: the key order, the duplicate groups,
  the free list, and the multiset of values.

  A group is a tree node followed by the duplicates chained behind it.
*/
module BstContents {
  import opened Chains
  import opened RedBlack
  import opened BstLinks

  // ---------- Keys ----------

  /** The comparison function the user supplies, and the key each value carries. */
  datatype Order<!K, !V> = Order(cmp: (K, K) -> int, keyOf: V -> K)

  /** The comparison returns -1, 0 or 1 and orders the keys totally; keys that compare 0 are duplicates. */
  ghost predicate Total<K(!new), V>(ord: Order<K, V>) {
    && (forall a, b :: -1 <= ord.cmp(a, b) <= 1)
    && (forall a, b :: ord.cmp(a, b) == -ord.cmp(b, a))
    && (forall a, b, c :: ord.cmp(a, b) <= 0 && ord.cmp(b, c) <= 0 ==> ord.cmp(a, c) <= 0)
  }

  function CompareTo<K, V>(ord: Order<K, V>, key: K, v: V): int {
    ord.cmp(key, ord.keyOf(v))
  }

  /** The values of two blocks, compared. */
  function Compare<K, V>(ord: Order<K, V>, vals: map<Ptr, V>, p: Ptr, q: Ptr): int
    requires p in vals && q in vals
  {
    ord.cmp(ord.keyOf(vals[p]), ord.keyOf(vals[q]))
  }

  ghost predicate Sorted<K, V>(ord: Order<K, V>, vals: map<Ptr, V>, s: seq<Ptr>) {
    && (forall i :: 0 <= i < |s| ==> s[i] in vals)
    && (forall i, j :: 0 <= i < j < |s| ==> Compare(ord, vals, s[i], s[j]) < 0)
  }

  /** Every block of `s` is strictly below `key`. */
  ghost predicate AllBelow<K, V>(ord: Order<K, V>, vals: map<Ptr, V>, s: seq<Ptr>, key: K) {
    forall p :: p in s ==> p in vals && CompareTo(ord, key, vals[p]) > 0
  }

  ghost predicate AllAbove<K, V>(ord: Order<K, V>, vals: map<Ptr, V>, s: seq<Ptr>, key: K) {
    forall p :: p in s ==> p in vals && CompareTo(ord, key, vals[p]) < 0
  }

  /** Around the place of `x` in a sorted sequence: stepping left or right of it in the search. */
  lemma {:induction false} SortedAround<K(!new), V>(ord: Order<K, V>, vals: map<Ptr, V>, a: seq<Ptr>, x: Ptr,
                                                    b: seq<Ptr>, key: K)
    requires Total(ord) && Sorted(ord, vals, a + [x] + b)
    ensures x in vals
    ensures CompareTo(ord, key, vals[x]) < 0 ==> AllAbove(ord, vals, [x] + b, key)
    ensures CompareTo(ord, key, vals[x]) > 0 ==> AllBelow(ord, vals, a + [x], key)
  {
    var s := a + [x] + b;
    assert s[|a|] == x;
    forall p | p in [x] + b
      ensures p in vals && (CompareTo(ord, key, vals[x]) < 0 ==> CompareTo(ord, key, vals[p]) < 0)
    {
      if p != x {
        var i :| 0 <= i < |b| && b[i] == p;
        assert s[|a| + 1 + i] == p;
        assert Compare(ord, vals, s[|a|], s[|a| + 1 + i]) < 0;
        LessTrans(ord, key, ord.keyOf(vals[x]), ord.keyOf(vals[p]));
      }
    }
    forall p | p in a + [x]
      ensures p in vals && (CompareTo(ord, key, vals[x]) > 0 ==> CompareTo(ord, key, vals[p]) > 0)
    {
      if p != x {
        var i :| 0 <= i < |a| && a[i] == p;
        assert s[i] == p;
        assert Compare(ord, vals, s[i], s[|a|]) < 0;
        LessTrans(ord, ord.keyOf(vals[p]), ord.keyOf(vals[x]), key);
      }
    }
  }

  lemma LessTrans<K(!new), V>(ord: Order<K, V>, a: K, b: K, c: K)
    requires Total(ord)
    ensures ord.cmp(a, b) < 0 && ord.cmp(b, c) <= 0 ==> ord.cmp(a, c) < 0
    ensures ord.cmp(a, b) <= 0 && ord.cmp(b, c) < 0 ==> ord.cmp(a, c) < 0
    ensures ord.cmp(a, b) <= 0 && ord.cmp(b, c) <= 0 ==> ord.cmp(a, c) <= 0
    ensures ord.cmp(a, b) == -ord.cmp(b, a)
  {
    assert ord.cmp(a, c) == -ord.cmp(c, a);
    assert ord.cmp(b, c) == -ord.cmp(c, b);
    assert ord.cmp(b, c) <= 0 && ord.cmp(c, a) <= 0 ==> ord.cmp(b, a) <= 0;
    assert ord.cmp(c, a) <= 0 && ord.cmp(a, b) <= 0 ==> ord.cmp(c, b) <= 0;
  }

  /** A key between the two halves keeps the sequence sorted. */
  lemma {:induction false} SortedInsert<K(!new), V>(ord: Order<K, V>, vals: map<Ptr, V>, a: seq<Ptr>, x: Ptr,
                                                    b: seq<Ptr>)
    requires Total(ord) && Sorted(ord, vals, a + b) && x in vals
    requires AllBelow(ord, vals, a, ord.keyOf(vals[x])) && AllAbove(ord, vals, b, ord.keyOf(vals[x]))
    ensures Sorted(ord, vals, a + [x] + b)
  {
    var s, r := a + b, a + [x] + b;
    forall i | 0 <= i < |r| ensures r[i] in vals {
      if i < |a| { assert r[i] == s[i]; } else if i > |a| { assert r[i] == s[i - 1]; }
    }
    forall i, j | 0 <= i < j < |r| ensures Compare(ord, vals, r[i], r[j]) < 0 {
      if i == |a| {
        assert r[j] in b;
      } else if j == |a| {
        assert r[i] in a;
        LessTrans(ord, ord.keyOf(vals[x]), ord.keyOf(vals[r[i]]), ord.keyOf(vals[x]));
      } else {
        var i', j' := if i < |a| then i else i - 1, if j < |a| then j else j - 1;
        assert s[i'] == r[i] && s[j'] == r[j];
      }
    }
  }

  lemma {:induction false} SortedRemove<K, V>(ord: Order<K, V>, vals: map<Ptr, V>, a: seq<Ptr>, x: Ptr, b: seq<Ptr>)
    requires Sorted(ord, vals, a + [x] + b)
    ensures Sorted(ord, vals, a + b)
  {
    var s, r := a + b, a + [x] + b;
    forall i | 0 <= i < |s| ensures s[i] in vals {
      assert s[i] == r[if i < |a| then i else i + 1];
    }
    forall i, j | 0 <= i < j < |s| ensures Compare(ord, vals, s[i], s[j]) < 0 {
      var i', j' := if i < |a| then i else i + 1, if j < |a| then j else j + 1;
      assert s[i] == r[i'] && s[j] == r[j'];
    }
  }

  // ---------- Blocks ----------

  type Groups = map<Ptr, seq<Ptr>>

  /** The duplicate chain of a group, linked through `list`. */
  ghost predicate GroupAt(m: Arena, g: seq<Ptr>) {
    && (forall i :: 0 <= i < |g| ==> 0 < g[i] < |m|)
    && (forall i :: 0 <= i < |g| ==> m[g[i]].list == NextIn(g, i))
  }

  /** The free list: its link shares the word that holds a linked node's parent. */
  ghost predicate FreeAt(m: Arena, head: Ptr, free: seq<Ptr>) {
    && head == (if |free| > 0 then free[0] else NIL)
    && (forall i :: 0 <= i < |free| ==> 0 < free[i] < |m|)
    && (forall i :: 0 <= i < |free| ==> m[free[i]].parent == NextIn(free, i))
  }

  lemma {:induction false} FreePush(m: Arena, head: Ptr, free: seq<Ptr>, p: Ptr)
    requires FreeAt(m, head, free) && 0 < p < |m| && p !in free
    ensures FreeAt(m[p := m[p].(parent := head, color := Red)], p, [p] + free)
  {
    var m', s := m[p := m[p].(parent := head, color := Red)], [p] + free;
    forall i | 0 <= i < |s| ensures 0 < s[i] < |m'| && m'[s[i]].parent == NextIn(s, i) {
      if i > 0 {
        assert s[i] == free[i - 1] && NextIn(s, i) == NextIn(free, i - 1);
      }
    }
  }

  /** Tree nodes head the groups; no block is in two groups, twice in one, or both in a group and free. */
  ghost predicate Apart(t: Tree, groups: Groups, free: seq<Ptr>) {
    && groups.Keys == Ids(t)
    && (forall b :: b in groups ==> |groups[b]| > 0 && groups[b][0] == b && NoDup(groups[b]))
    && (forall b, c, p :: b in groups && c in groups && p in groups[b] && p in groups[c] ==> b == c)
    && (forall b, p :: b in groups && p in groups[b] ==> p !in free)
    && NoDup(free)
  }

  ghost predicate InGroups(groups: Groups, p: Ptr) {
    exists b :: b in groups && p in groups[b]
  }

  /** The block is in a group or free. */
  ghost predicate Accounted(groups: Groups, free: seq<Ptr>, p: Ptr) {
    p in free || InGroups(groups, p)
  }

  /** Every block of an arena of `n` blocks is accounted for. */
  ghost predicate Covered(n: nat, groups: Groups, free: seq<Ptr>) {
    forall p :: 0 < p < n ==> Accounted(groups, free, p)
  }

  /** Every duplicate has its group's key. */
  ghost predicate Alike<K, V>(ord: Order<K, V>, vals: map<Ptr, V>, groups: Groups) {
    forall b, p :: b in groups && p in groups[b] ==> SameKey(ord, vals, b, p)
  }

  ghost predicate SameKey<K, V>(ord: Order<K, V>, vals: map<Ptr, V>, p: Ptr, q: Ptr) {
    p in vals && q in vals && Compare(ord, vals, p, q) == 0
  }

  // ---------- Values ----------

  ghost function ValuesOf<V>(g: seq<Ptr>, vals: map<Ptr, V>): multiset<V> {
    if g == [] then multiset{}
    else (if g[0] in vals then multiset{vals[g[0]]} else multiset{}) + ValuesOf(g[1..], vals)
  }

  /** Everything held by the groups of the nodes in `order`. */
  ghost function Held<V>(order: seq<Ptr>, groups: Groups, vals: map<Ptr, V>): multiset<V> {
    if order == [] then multiset{}
    else (if order[0] in groups then ValuesOf(groups[order[0]], vals) else multiset{}) + Held(order[1..], groups, vals)
  }

  lemma Associate<V>(a: multiset<V>, b: multiset<V>, c: multiset<V>)
    ensures a + (b + c) == a + b + c
  {}

  lemma {:induction false} ValuesOfSplit<V>(a: seq<Ptr>, b: seq<Ptr>, vals: map<Ptr, V>)
    ensures ValuesOf(a + b, vals) == ValuesOf(a, vals) + ValuesOf(b, vals)
  {
    if a == [] {
      assert a + b == b;
    } else {
      var c := a + b;
      assert c[0] == a[0] && c[1..] == a[1..] + b;
      ValuesOfSplit(a[1..], b, vals);
      var x := if a[0] in vals then multiset{vals[a[0]]} else multiset{};
      Associate(x, ValuesOf(a[1..], vals), ValuesOf(b, vals));
    }
  }

  lemma {:induction false} HeldSplit<V>(a: seq<Ptr>, b: seq<Ptr>, groups: Groups, vals: map<Ptr, V>)
    ensures Held(a + b, groups, vals) == Held(a, groups, vals) + Held(b, groups, vals)
  {
    if a == [] {
      assert a + b == b;
    } else {
      var c := a + b;
      assert c[0] == a[0] && c[1..] == a[1..] + b;
      HeldSplit(a[1..], b, groups, vals);
      var x := if a[0] in groups then ValuesOf(groups[a[0]], vals) else multiset{};
      Associate(x, Held(a[1..], groups, vals), Held(b, groups, vals));
    }
  }

  lemma {:induction false} ValuesOfFrame<V>(g: seq<Ptr>, vals: map<Ptr, V>, vals': map<Ptr, V>)
    requires forall p :: p in g ==> (p in vals <==> p in vals') && (p in vals ==> vals[p] == vals'[p])
    ensures ValuesOf(g, vals) == ValuesOf(g, vals')
  {
    if g != [] {
      assert g[0] in g;
      ValuesOfFrame(g[1..], vals, vals');
    }
  }

  ghost predicate SameHoldings<V>(p: Ptr, groups: Groups, vals: map<Ptr, V>, groups': Groups, vals': map<Ptr, V>) {
    && (p in groups <==> p in groups')
    && (p in groups ==> ValuesOf(groups[p], vals) == ValuesOf(groups'[p], vals'))
  }

  lemma {:induction false} HeldFrame<V>(order: seq<Ptr>, groups: Groups, vals: map<Ptr, V>, groups': Groups,
                                        vals': map<Ptr, V>)
    requires forall p :: p in order ==> SameHoldings(p, groups, vals, groups', vals')
    ensures Held(order, groups, vals) == Held(order, groups', vals')
  {
    if order != [] {
      assert order[0] in order;
      HeldFrame(order[1..], groups, vals, groups', vals');
    }
  }

  lemma {:induction false} ValuesOfMember<V>(g: seq<Ptr>, vals: map<Ptr, V>, v: V)
    ensures v in ValuesOf(g, vals) <==> exists p :: p in g && p in vals && vals[p] == v
  {
    if g != [] {
      ValuesOfMember(g[1..], vals, v);
      assert forall p :: p in g <==> p == g[0] || p in g[1..];
      if v in ValuesOf(g[1..], vals) {
        var p :| p in g[1..] && p in vals && vals[p] == v;
        assert p in g;
      }
    }
  }

  lemma {:induction false} HeldMember<V>(order: seq<Ptr>, groups: Groups, vals: map<Ptr, V>,
                                         v: V) returns (b: Ptr, p: Ptr)
    requires v in Held(order, groups, vals)
    ensures b in order && b in groups && p in groups[b] && p in vals && vals[p] == v
  {
    if order[0] in groups && v in ValuesOf(groups[order[0]], vals) {
      ValuesOfMember(groups[order[0]], vals, v);
      b := order[0];
      p :| p in groups[b] && p in vals && vals[p] == v;
    } else {
      b, p := HeldMember(order[1..], groups, vals, v);
    }
  }

  // ---------- Changes to the groups ----------

  ghost predicate GroupsAt(m: Arena, groups: Groups) {
    forall b :: b in groups ==> GroupAt(m, groups[b])
  }

  /** Blocks 1, 2, ... in falling order. */
  ghost predicate LastFirst(free: seq<Ptr>) {
    forall j :: 0 <= j < |free| ==> free[j] == |free| - j
  }

  /** Some group has gained `node`, right behind `base`; no other group has changed. */
  ghost predicate Behind(groups: Groups, groups': Groups, base: Ptr, node: Ptr) {
    exists b, i :: b in groups && 0 <= i < |groups[b]| && groups[b][i] == base
                   && groups' == groups[b := groups[b][..i + 1] + [node] + groups[b][i + 1..]]
  }

  /** A node's group has lost its first duplicate, or the node has gone for want of one; no other group has changed. */
  ghost predicate LostFirst(groups: Groups, groups': Groups, node: Ptr, freed: Ptr) {
    && node in groups && |groups[node]| > 0
    && (|groups[node]| == 1 ==> freed == node && groups' == groups - {node})
    && (|groups[node]| > 1 ==> freed == groups[node][1] && groups' == groups[node := [node] + groups[node][2..]])
  }

  /** A block in nobody's hands: not free, and in no group. */
  ghost predicate Loose(m: Arena, groups: Groups, free: seq<Ptr>, p: Ptr) {
    0 < p < |m| && p !in free && forall b :: b in groups ==> p !in groups[b]
  }

  ghost predicate SameLists(m: Arena, m': Arena) {
    |m'| == |m| && forall p :: 0 <= p < |m| ==> m'[p].list == m[p].list
  }

  lemma GroupsFrame(m: Arena, m': Arena, groups: Groups)
    requires GroupsAt(m, groups) && SameLists(m, m')
    ensures GroupsAt(m', groups)
  {
    forall b | b in groups ensures GroupAt(m', groups[b]) {
      assert GroupAt(m, groups[b]);
    }
  }

  function InsertAfter(g: seq<Ptr>, i: nat, p: Ptr): seq<Ptr>
    requires i < |g|
  {
    g[..i + 1] + [p] + g[i + 1..]
  }

  function RemoveSecond(g: seq<Ptr>): seq<Ptr>
    requires |g| > 1
  {
    [g[0]] + g[2..]
  }

  /** Exactly what hooking `p` behind `q` writes. */
  ghost predicate Attached(m: Arena, m': Arena, q: Ptr, p: Ptr)
  {
    && |m'| == |m| && p < |m| && q < |m|
    && m'[p] == m[p].(list := m[q].list)
    && m'[q] == m[q].(list := p)
    && forall r :: 0 <= r < |m| && r != p && r != q ==> m'[r] == m[r]
  }

  /** Hooking a loose block behind the i-th member of a group. */
  lemma {:induction false} AttachGroupAt(m: Arena, m': Arena, g: seq<Ptr>, i: nat, p: Ptr)
    requires GroupAt(m, g) && NoDup(g) && i < |g| && 0 < p < |m| && p !in g
    requires Attached(m, m', g[i], p)
    ensures GroupAt(m', InsertAfter(g, i, p))
  {
    var r := InsertAfter(g, i, p);
    assert m'[p].list == NextIn(g, i);
    forall k | 0 <= k < |r|
      ensures 0 < r[k] < |m'|
      ensures m'[r[k]].list == NextIn(r, k)
    {
      if k < i {
        assert NextIn(r, k) == NextIn(g, k);
        assert r[k] == g[k] && g[k] != g[i] && g[k] != p;
        assert m'[g[k]] == m[g[k]];
      } else if k > i + 1 {
        assert NextIn(r, k) == NextIn(g, k - 1);
        assert r[k] == g[k - 1] && g[k - 1] != g[i] && g[k - 1] != p;
        assert m'[g[k - 1]] == m[g[k - 1]];
      } else if k == i + 1 {
        assert r[k] == p && NextIn(r, k) == NextIn(g, i);
      } else {
        assert r[k] == g[i] && NextIn(r, k) == p;
      }
    }
  }

  lemma {:induction false} OtherGroupsAt(m: Arena, m': Arena, t: Tree, groups: Groups, free: seq<Ptr>, b: Ptr,
                                         touched: set<Ptr>)
    requires Apart(t, groups, free) && GroupsAt(m, groups) && b in groups && |m'| == |m|
    requires forall q :: 0 <= q < |m| && q !in touched ==> m'[q] == m[q]
    requires forall c, q :: c in groups && c != b && q in groups[c] ==> q !in touched
    ensures forall c :: c in groups && c != b ==> GroupAt(m', groups[c])
  {
    hide Apart;
    forall c | c in groups && c != b ensures GroupAt(m', groups[c]) {
      assert GroupAt(m, groups[c]);
      forall k | 0 <= k < |groups[c]| ensures m'[groups[c][k]] == m[groups[c][k]] {
        assert groups[c][k] in groups[c];
      }
    }
  }

  lemma {:induction false} AttachApart(t: Tree, groups: Groups, free: seq<Ptr>, b: Ptr, i: nat, p: Ptr)
    requires Apart(t, groups, free) && p !in free && forall c :: c in groups ==> p !in groups[c]
    requires b in groups && i < |groups[b]|
    ensures Apart(t, groups[b := InsertAfter(groups[b], i, p)], free)
  {
    var g, r := groups[b], InsertAfter(groups[b], i, p);
    var groups' := groups[b := r];
    assert forall q :: q in r <==> q in g || q == p;
    assert r[0] == g[0];
    assert NoDup(r);
    forall c, d, q | c in groups' && d in groups' && q in groups'[c] && q in groups'[d] ensures c == d {
      if q != p { assert q in groups[c] && q in groups[d]; }
    }
  }

  lemma {:induction false} AttachGroups(m: Arena, m': Arena, t: Tree, groups: Groups, free: seq<Ptr>, b: Ptr, i: nat,
                                        p: Ptr)
    requires Apart(t, groups, free) && GroupsAt(m, groups) && Loose(m, groups, free, p)
    requires b in groups && i < |groups[b]| && groups[b][i] < |m|
    requires Attached(m, m', groups[b][i], p)
    ensures var groups' := groups[b := InsertAfter(groups[b], i, p)];
            Apart(t, groups', free) && GroupsAt(m', groups')
  {
    hide Apart, NoDup, InsertAfter;
    var q := groups[b][i];
    assert q in groups[b];
    ApartReads(t, groups, free, b);
    AttachApart(t, groups, free, b, i, p);
    assert GroupAt(m, groups[b]);
    AttachGroupAt(m, m', groups[b], i, p);
    OtherGroupsAt(m, m', t, groups, free, b, {p, q});
  }

  lemma {:induction false} DetachApart(t: Tree, groups: Groups, free: seq<Ptr>, b: Ptr)
    requires Apart(t, groups, free) && b in groups && |groups[b]| > 1
    ensures var groups' := groups[b := RemoveSecond(groups[b])];
            && Apart(t, groups', free)
            && (forall c, q :: c in groups' && q in groups'[c] ==> q in groups[c])
            && (forall c :: c in groups' ==> groups[b][1] !in groups'[c])
  {
    var g, r := groups[b], RemoveSecond(groups[b]);
    assert forall k :: 1 <= k < |r| ==> r[k] == g[k + 1];
    assert forall q :: q in r ==> q in g;
    assert g[1] in g && g[1] !in r && r[0] == g[0];
    assert NoDup(r);
  }

  lemma {:induction false} DetachGroupAt(m: Arena, m': Arena, g: seq<Ptr>)
    requires GroupAt(m, g) && NoDup(g) && |g| > 1
    requires g[0] < |m| && g[1] < |m| && m' == m[g[0] := m[g[0]].(list := m[g[1]].list)]
    ensures GroupAt(m', RemoveSecond(g))
  {
    var r := RemoveSecond(g);
    forall k | 0 <= k < |r|
      ensures 0 < r[k] < |m'|
      ensures m'[r[k]].list == NextIn(r, k)
    {
      assert NextIn(r, k) == NextIn(g, k + 1);
      if k > 0 {
        assert r[k] == g[k + 1] && g[k + 1] != g[0];
        assert m'[g[k + 1]] == m[g[k + 1]];
      } else {
        assert m'[g[0]].list == m[g[1]].list == NextIn(g, 1);
      }
    }
  }

  lemma ApartReads(t: Tree, groups: Groups, free: seq<Ptr>, b: Ptr)
    requires Apart(t, groups, free) && b in groups
    ensures |groups[b]| > 0 && groups[b][0] == b && NoDup(groups[b])
    ensures forall p :: p in groups[b] ==> p !in free
    ensures forall c, p :: c in groups && c != b && p in groups[c] ==> p !in groups[b]
  {}

  /** Unhooking the first duplicate of a group. */
  lemma {:induction false} DetachGroups(m: Arena, m': Arena, t: Tree, groups: Groups, free: seq<Ptr>, b: Ptr)
    requires Apart(t, groups, free) && GroupsAt(m, groups) && b in groups && |groups[b]| > 1
    requires b < |m| && groups[b][1] < |m|
    requires m' == m[b := m[b].(list := m[groups[b][1]].list)]
    ensures m[b].list == groups[b][1]
    ensures var groups' := groups[b := RemoveSecond(groups[b])];
            && Apart(t, groups', free) && GroupsAt(m', groups') && Loose(m', groups', free, groups[b][1])
  {
    var g, r := groups[b], RemoveSecond(groups[b]);
    hide Apart;
    DetachApart(t, groups, free, b);
    ApartReads(t, groups, free, b);
    assert GroupAt(m, g) && g[0] == b && g[0] in g && g[1] in g;
    OtherGroupsAt(m, m', t, groups, free, b, {b});
    DetachGroupAt(m, m', g);
  }

  // ---------- What each change does to keys and values ----------

  /** Writing a value into a loose block changes no key ... */
  lemma {:induction false} PackKeepsKeys<K, V>(ord: Order<K, V>, vals: map<Ptr, V>, groups: Groups, p: Ptr, v: V,
                                               order: seq<Ptr>)
    requires forall b :: b in groups ==> p !in groups[b] && p != b
    requires Sorted(ord, vals, order) && Alike(ord, vals, groups) && forall i :: 0 <= i < |order| ==> order[i] in groups
    ensures Sorted(ord, vals[p := v], order) && Alike(ord, vals[p := v], groups)
  {
    var vals' := vals[p := v];
    forall i, j | 0 <= i < j < |order| ensures Compare(ord, vals', order[i], order[j]) < 0 {
      assert Compare(ord, vals, order[i], order[j]) < 0;
    }
    forall b, q | b in groups && q in groups[b] ensures SameKey(ord, vals', b, q) {
      assert SameKey(ord, vals, b, q);
    }
  }

  /** ... and nothing that is held. */
  lemma {:induction false} PackKeepsHeld<V>(vals: map<Ptr, V>, groups: Groups, p: Ptr, v: V, order: seq<Ptr>)
    requires forall b :: b in groups ==> p !in groups[b]
    ensures Held(order, groups, vals[p := v]) == Held(order, groups, vals)
  {
    var vals' := vals[p := v];
    forall q | q in order ensures SameHoldings(q, groups, vals, groups, vals') {
      if q in groups { ValuesOfFrame(groups[q], vals, vals'); }
    }
    HeldFrame(order, groups, vals, groups, vals');
  }

  /** One group's share can be taken out of what is held. */
  lemma {:induction false} HeldTakeOut<V>(order: seq<Ptr>, groups: Groups, b: Ptr, vals: map<Ptr, V>)
    requires b in order && NoDup(order) && b in groups
    ensures Held(order, groups, vals) == Held(order, groups - {b}, vals) + ValuesOf(groups[b], vals)
  {
    var rest, head := order[1..], order[0];
    if head == b {
      forall q | q in rest ensures SameHoldings(q, groups, vals, groups - {b}, vals) {
        var k :| 0 <= k < |rest| && rest[k] == q;
        assert order[k + 1] != order[0];
      }
      HeldFrame(rest, groups, vals, groups - {b}, vals);
    } else {
      HeldTakeOut(rest, groups, b, vals);
      var x := if head in groups then ValuesOf(groups[head], vals) else multiset{};
      Associate(x, Held(rest, groups - {b}, vals), ValuesOf(groups[b], vals));
    }
  }

  lemma Exchange<V>(p: multiset<V>, x: multiset<V>, y: multiset<V>, more: multiset<V>, less: multiset<V>)
    requires x + less == y + more
    ensures p + x + less == p + y + more
  {
    Associate(p, x, less);
    Associate(p, y, more);
  }

  /** One group gains or loses values: what is held follows. */
  lemma {:induction false} HeldChange<V>(order: seq<Ptr>, groups: Groups, b: Ptr, g: seq<Ptr>, vals: map<Ptr, V>,
                                         more: multiset<V>, less: multiset<V>)
    requires b in order && NoDup(order) && b in groups
    requires ValuesOf(g, vals) + less == ValuesOf(groups[b], vals) + more
    ensures Held(order, groups[b := g], vals) + less == Held(order, groups, vals) + more
  {
    hide Held, ValuesOf, NoDup;
    HeldTakeOut(order, groups, b, vals);
    HeldTakeOut(order, groups[b := g], b, vals);
    assert groups[b := g] - {b} == groups - {b};
    Exchange(Held(order, groups - {b}, vals), ValuesOf(g, vals), ValuesOf(groups[b], vals), more, less);
  }

  lemma {:induction false} ValuesInsertAfter<V>(g: seq<Ptr>, i: nat, p: Ptr, vals: map<Ptr, V>)
    requires i < |g| && p in vals
    ensures ValuesOf(InsertAfter(g, i, p), vals) == ValuesOf(g, vals) + multiset{vals[p]}
  {
    var a, b := g[..i + 1], g[i + 1..];
    assert g == a + b;
    ValuesOfSplit(a, b, vals);
    ValuesOfSplit(a + [p], b, vals);
    ValuesOfSplit(a, [p], vals);
    assert ValuesOf([p], vals) == multiset{vals[p]} + ValuesOf([p][1..], vals);
  }

  lemma {:induction false} ValuesRemoveSecond<V>(g: seq<Ptr>, vals: map<Ptr, V>)
    requires |g| > 1 && g[1] in vals
    ensures ValuesOf(g, vals) == ValuesOf(RemoveSecond(g), vals) + multiset{vals[g[1]]}
  {
    var a, p, b := [g[0]], g[1], g[2..];
    assert g == a + ([p] + b);
    ValuesOfSplit(a, [p] + b, vals);
    ValuesOfSplit(a, b, vals);
    assert ([p] + b)[1..] == b;
  }

  lemma {:induction false} AttachAlike<K, V>(ord: Order<K, V>, vals: map<Ptr, V>, groups: Groups, b: Ptr, i: nat,
                                             p: Ptr)
    requires Alike(ord, vals, groups) && b in groups && i < |groups[b]|
    ensures Alike(ord, vals, groups[b := InsertAfter(groups[b], i, p)]) <==> SameKey(ord, vals, b, p)
  {
    var g, r := groups[b], InsertAfter(groups[b], i, p);
    var groups' := groups[b := r];
    assert forall q :: q in r ==> q in g || q == p;
    assert r[i + 1] == p && p in groups'[b];
    if SameKey(ord, vals, b, p) {
      forall c, q | c in groups' && q in groups'[c] ensures SameKey(ord, vals, c, q) {
        if !(c == b && q == p) { assert q in groups[c]; }
      }
    }
  }
}
