/** The `smallest` and `largest` shortcuts: why the updates made after the fix-ups are right. */
module BstEnds {
  import opened Chains
  import opened RedBlack
  import opened RedBlackInsert
  import opened RedBlackDelete
  import opened BstLinks
  import opened BstSplice
  import opened BstContents

  /** The shortcuts name the two ends of the in-order sequence, or the sentinel when there are none. */
  ghost predicate Ends(t: Tree, smallest: Ptr, largest: Ptr) {
    EndsOf(InOrder(t), smallest, largest)
  }

  ghost predicate EndsOf(s: seq<Ptr>, smallest: Ptr, largest: Ptr) {
    if s == [] then smallest == NIL && largest == NIL
    else smallest == s[0] && largest == s[|s| - 1]
  }

  lemma {:induction false} InOrderIds(t: Tree)
    ensures forall p :: p in InOrder(t) <==> p in Ids(t)
    ensures t.Leaf? <==> InOrder(t) == []
  {
    if t.Node? {
      InOrderIds(t.left);
      InOrderIds(t.right);
    }
  }

  lemma NoDupJoin(a: seq<Ptr>, x: Ptr, b: seq<Ptr>)
    requires NoDup(a) && NoDup(b) && x !in a && x !in b && forall p :: p in a ==> p !in b
    ensures NoDup(a + [x] + b)
  {
    var s, n := a + [x] + b, |a|;
    forall i, j | 0 <= i < j < |s| ensures s[i] != s[j] {
      if i < n < j {
        assert s[i] == a[i] && s[j] == b[j - n - 1] && a[i] in a && b[j - n - 1] in b;
      } else if j < n {
        assert s[i] == a[i] && s[j] == a[j];
      } else if i > n {
        assert s[i] == b[i - n - 1] && s[j] == b[j - n - 1];
      } else if i == n {
        assert s[j] == b[j - n - 1] && b[j - n - 1] in b;
      } else {
        assert s[i] == a[i] && a[i] in a;
      }
    }
  }

  lemma {:induction false} InOrderNoDup(t: Tree)
    requires Distinct(t)
    ensures NoDup(InOrder(t))
  {
    if t.Node? {
      InOrderNoDup(t.left);
      InOrderNoDup(t.right);
      InOrderIds(t.left);
      InOrderIds(t.right);
      NoDupJoin(InOrder(t.left), t.id, InOrder(t.right));
    }
  }

  /** Some path leads to every node. */
  lemma {:induction false} PathTo(path: Path, t: Tree, id: Ptr) returns (path': Path, u: Tree)
    requires id in Ids(t)
    ensures Plug(path', u) == Plug(path, t) && u.Node? && u.id == id
    decreases t
  {
    if id == t.id {
      path', u := path, t;
    } else if id in Ids(t.left) {
      path', u := PathTo(LeftOf(path, t.id, t.color, t.right), t.left, id);
    } else {
      path', u := PathTo(RightOf(path, t.left, t.id, t.color), t.right, id);
    }
  }

  lemma {:induction false} NodeFocus(m: Arena, root: Ptr, t: Tree, id: Ptr) returns (path: Path, u: Tree)
    requires At(m, root, Top, t) && id in Ids(t)
    ensures At(m, root, path, u) && Plug(path, u) == t && u.Node? && u.id == id
  {
    path, u := PathTo(Top, t, id);
    FocusOn(m, root, path, u);
  }

  // ---------- Neighbours of a slot ----------

  lemma {:induction false} ParentIsNeighbour(path: Path)
    ensures path.LeftOf? ==> |After(path)| > 0 && After(path)[0] == path.id
    ensures path.RightOf? ==> |Before(path)| > 0 && Before(path)[|Before(path)| - 1] == path.id
    ensures path.Top? <==> Before(path) == [] && After(path) == []
  {
    if path.LeftOf? {
      assert After(path) == [path.id] + (InOrder(path.right) + After(path.up));
    }
  }

  lemma {:induction false} SpineByOrder(path: Path)
    ensures Before(path) == [] <==> OnLeftSpine(path)
    ensures After(path) == [] <==> OnRightSpine(path)
  {
    if !path.Top? { SpineByOrder(path.up); }
  }

  /** A node of a duplicate-free sequence at its front has nothing before it. */
  lemma FrontOf(a: seq<Ptr>, x: Ptr, b: seq<Ptr>)
    requires NoDup(a + [x] + b)
    ensures (a + [x] + b)[0] == x <==> a == []
    ensures (a + [x] + b)[|a| + |b|] == x <==> b == []
  {
    var s := a + [x] + b;
    assert s[|a|] == x;
  }

  // ---------- Insert ----------

  /** Which end a new node becomes, seen from the slot it fills. */
  lemma {:induction false} InsertEnds(path: Path, n: Ptr, smallest: Ptr, largest: Ptr)
    requires IsRedBlack(Plug(path, Leaf)) && NoDup(InOrder(Plug(path, Leaf)))
    requires Ends(Plug(path, Leaf), smallest, largest) && (largest == NIL <==> path.Top?)
    ensures path.LeftOf? && path.id == smallest ==>
              OnLeftSpine(path) && Ends(InsertFix(path, NewNode(n)), n, largest)
    ensures path.RightOf? && path.id == largest ==>
              OnRightSpine(path) && Ends(InsertFix(path, NewNode(n)), smallest, n)
    ensures path.Top? ==> Ends(InsertFix(path, NewNode(n)), n, n)
    ensures !path.Top? && !(path.LeftOf? && path.id == smallest) && !(path.RightOf? && path.id == largest) ==>
              Ends(InsertFix(path, NewNode(n)), smallest, largest)
  {
    hide InsertFix, IsRedBlack, Plug, InOrder, Before, After, OnLeftSpine, OnRightSpine;
    var b, a := Before(path), After(path);
    NewNodeInv(path, n);
    InsertFixCorrect(path, NewNode(n));
    InOrderPlug(path, Leaf);
    SlotOrder(path, n);
    ParentIsNeighbour(path);
    SpineByOrder(path);
    if path.LeftOf? {
      assert b + a == b + [path.id] + a[1..];
      FrontOf(b, path.id, a[1..]);
    } else if path.RightOf? {
      assert b + a == b[..|b| - 1] + [path.id] + a;
      FrontOf(b[..|b| - 1], path.id, a);
    }
  }

  lemma SlotOrder(path: Path, n: Ptr)
    ensures Before(path) + InOrder(Leaf) + After(path) == Before(path) + After(path)
    ensures InOrder(NewNode(n)) == [n]
  {}

  /** A new minimum hangs to the left of the old one even after the rotations. */
  lemma {:induction false} NewMinimumLink(m: Arena, root: Ptr, path: Path, n: Ptr)
    requires IsRedBlack(Plug(path, Leaf)) && path.LeftOf? && OnLeftSpine(path)
    requires At(m, root, Top, InsertFix(path, NewNode(n)))
    ensures path.id < |m| && m[path.id].left == n
  {
    NewNodeInv(path, n);
    InsertFixLeftLink(path, NewNode(n), path.id, n);
    LeftLinkAt(m, InsertFix(path, NewNode(n)), NIL, path.id, n);
  }

  lemma {:induction false} LeftLinkAt(m: Arena, t: Tree, parent: Ptr, p: Ptr, n: Ptr)
    requires TreeAt(m, t, parent) && LeftLink(t, p, n)
    ensures p < |m| && m[p].left == n
  {
    if !(t.id == p && RootId(t.left) == n) { LeftLinkAt(m, t.left, t.id, p, n); }
  }

  lemma {:induction false} NewMaximumLink(m: Arena, root: Ptr, path: Path, n: Ptr)
    requires IsRedBlack(Plug(path, Leaf)) && path.RightOf? && OnRightSpine(path)
    requires At(m, root, Top, InsertFix(path, NewNode(n)))
    ensures path.id < |m| && m[path.id].right == n
  {
    NewNodeInv(path, n);
    InsertFixRightLink(path, NewNode(n), path.id, n);
    RightLinkAt(m, InsertFix(path, NewNode(n)), NIL, path.id, n);
  }

  lemma {:induction false} RightLinkAt(m: Arena, t: Tree, parent: Ptr, p: Ptr, n: Ptr)
    requires TreeAt(m, t, parent) && RightLink(t, p, n)
    ensures p < |m| && m[p].right == n
  {
    if !(t.id == p && RootId(t.right) == n) { RightLinkAt(m, t.right, t.id, p, n); }
  }

  // ---------- Delete ----------

  /** The order around a node: what precedes and follows it. */
  lemma {:induction false} OrderAround(path: Path, t: Tree)
    requires t.Node?
    ensures InOrder(Plug(path, t)) == (Before(path) + InOrder(t.left)) + [t.id] + (InOrder(t.right) + After(path))
  {
    InOrderPlug(path, t);
    var b, l, x, r, a := Before(path), InOrder(t.left), [t.id], InOrder(t.right), After(path);
    Regroup(b, l + x, r);
    Regroup(b, l, x);
    Regroup(b + l + x, r, a);
  }

  lemma DeletedOneChild(path: Path, t: Tree)
    requires t.Node? && t.color == Black
    ensures t.left.Leaf? && ColorOf(t.right) == Red ==> Deleted(path, t) == Plug(path, Paint(t.right, Black))
    ensures t.right.Leaf? && ColorOf(t.left) == Red ==> Deleted(path, t) == Plug(path, Paint(t.left, Black))
  {}

  lemma SingleOrder(t: Tree)
    ensures t.Node? && t.left.Leaf? && t.right.Leaf? ==> InOrder(t) == [t.id]
  {}

  /** What becomes of the ends when the root of `t` is deleted. */
  lemma {:induction false} DeleteEnds(path: Path, t: Tree, smallest: Ptr, largest: Ptr)
    requires t.Node? && IsRedBlack(Plug(path, t)) && NoDup(InOrder(Plug(path, t)))
    requires Ends(Plug(path, t), smallest, largest)
    ensures smallest == largest ==> Ends(Deleted(path, t), NIL, NIL)
    ensures smallest != largest && t.id == smallest ==> t.left.Leaf?
    ensures smallest != largest && t.id == smallest ==>
              if t.right.Leaf? then Ends(Deleted(path, t), ParentId(path), largest)
              else
                && t.right == Node(Leaf, t.right.id, Red, Leaf)
                && Deleted(path, t) == Plug(path, Paint(t.right, Black))
                && Ends(Deleted(path, t), t.right.id, largest)
    ensures smallest != largest && t.id == largest ==> t.right.Leaf?
    ensures smallest != largest && t.id == largest ==>
              if t.left.Leaf? then Ends(Deleted(path, t), smallest, ParentId(path))
              else
                && t.left == Node(Leaf, t.left.id, Red, Leaf)
                && Deleted(path, t) == Plug(path, Paint(t.left, Black))
                && Ends(Deleted(path, t), smallest, t.left.id)
    ensures t.id != smallest && t.id != largest ==> Ends(Deleted(path, t), smallest, largest)
  {
    hide IsRedBlack, Plug, InOrder, Before, After, Deleted;
    var before, after := Before(path) + InOrder(t.left), InOrder(t.right) + After(path);
    DeletedCorrect(path, t);
    OrderAround(path, t);
    Regroup(before, InOrder(t.right), After(path));
    assert InOrder(Deleted(path, t)) == before + after;
    FrontOf(before, t.id, after);
    OneChildIsRed(path, t);
    if t.color == Black { DeletedOneChild(path, t); }
    ParentIsNeighbour(path);
    InOrderIds(t.left);
    InOrderIds(t.right);
    SingleOrder(t.left);
    SingleOrder(t.right);
    if t.id == smallest { assert before == []; }
    if t.id == largest { assert after == []; }
  }

  // ---------- Search ----------

  /** One comparison of the search: the order on both sides of the next slot. */
  lemma {:induction false} SearchStep<K(!new), V>(ord: Order<K, V>, vals: map<Ptr, V>, path: Path, t: Tree, key: K)
    requires Total(ord) && t.Node? && Sorted(ord, vals, InOrder(Plug(path, t)))
    ensures t.id in vals
    ensures CompareTo(ord, key, vals[t.id]) < 0 ==>
              AllAbove(ord, vals, After(LeftOf(path, t.id, t.color, t.right)), key)
    ensures CompareTo(ord, key, vals[t.id]) > 0 ==>
              AllBelow(ord, vals, Before(RightOf(path, t.left, t.id, t.color)), key)
    ensures -1 <= CompareTo(ord, key, vals[t.id]) <= 1
  {
    OrderAround(path, t);
    SortedAround(ord, vals, Before(path) + InOrder(t.left), t.id, InOrder(t.right) + After(path), key);
    Regroup([t.id], InOrder(t.right), After(path));
  }

  /** A focused node is in the order; an empty slot with the key between its neighbours means no node has the key. */
  lemma {:induction false} FoundInOrder<K, V>(ord: Order<K, V>, vals: map<Ptr, V>, path: Path, t: Tree, key: K)
    requires AllBelow(ord, vals, Before(path), key) && AllAbove(ord, vals, After(path), key)
    ensures t.Node? ==> t.id in InOrder(Plug(path, t))
    ensures t.Leaf? ==> forall p :: p in InOrder(Plug(path, t)) ==> p in vals && CompareTo(ord, key, vals[p]) != 0
  {
    InOrderPlug(path, t);
    if t.Node? {
      OrderAround(path, t);
      assert [t.id][0] in [t.id];
    }
  }

  /** Paths from the root down: the slot is found by counting nodes. */
  function Descend(t: Tree, path: Path, k: nat): Path
    requires k <= |InOrder(t)|
    decreases t
  {
    if t.Leaf? then path
    else if k <= |InOrder(t.left)| then Descend(t.left, LeftOf(path, t.id, t.color, t.right), k)
    else Descend(t.right, RightOf(path, t.left, t.id, t.color), k - |InOrder(t.left)| - 1)
  }

  lemma {:induction false} DescendFinds(path: Path, t: Tree, k: nat)
    requires k <= |InOrder(t)|
    ensures |Before(path)| + k <= |InOrder(Plug(path, t))|
    ensures Descend(Plug(path, t), Top, |Before(path)| + k) == Descend(t, path, k)
    decreases path
  {
    InOrderPlug(path, t);
    if path.LeftOf? {
      DescendFinds(path.up, Fill(path, t), k);
    } else if path.RightOf? {
      DescendFinds(path.up, Fill(path, t), |InOrder(path.left)| + 1 + k);
    }
  }

  /** Only one empty slot of a tree has this many nodes before it. */
  lemma {:induction false} SlotUnique(path: Path, path': Path)
    requires Plug(path, Leaf) == Plug(path', Leaf) && |Before(path)| == |Before(path')|
    ensures path == path'
  {
    DescendFinds(path, Leaf, 0);
    DescendFinds(path', Leaf, 0);
  }

  /** Where the key goes: everything before the slot is below it, everything after it above. */
  ghost predicate SlotFor<K, V>(ord: Order<K, V>, vals: map<Ptr, V>, path: Path, key: K) {
    AllBelow(ord, vals, Before(path), key) && AllAbove(ord, vals, After(path), key)
  }

  /** Only one empty slot of a tree keeps a key's order. */
  lemma {:induction false} SlotUniqueByKey<K, V>(ord: Order<K, V>, vals: map<Ptr, V>, path: Path, path': Path, key: K)
    requires Plug(path, Leaf) == Plug(path', Leaf) && SlotFor(ord, vals, path, key) && SlotFor(ord, vals, path', key)
    ensures path == path'
  {
    InOrderPlug(path, Leaf);
    InOrderPlug(path', Leaf);
    assert Before(path) + [] + After(path) == Before(path) + After(path);
    assert Before(path') + [] + After(path') == Before(path') + After(path');
    BoundsMeet(ord, vals, Before(path), After(path), Before(path'), After(path'), key);
    BoundsMeet(ord, vals, Before(path'), After(path'), Before(path), After(path), key);
    SlotUnique(path, path');
  }

  /** What is above the key cannot start before what is below it ends. */
  lemma {:induction false} BoundsMeet<K, V>(ord: Order<K, V>, vals: map<Ptr, V>, a: seq<Ptr>, b: seq<Ptr>, c: seq<Ptr>,
                                            d: seq<Ptr>, key: K)
    requires a + b == c + d && AllAbove(ord, vals, b, key) && AllBelow(ord, vals, c, key)
    ensures |c| <= |a|
  {
    var s := a + b;
    var x := if |a| < |s| then s[|a|] else NIL;
    assert |a| < |s| ==> x in b;
    assert |a| < |c| ==> x in c;
  }

  lemma EmptyBounds<K, V>(ord: Order<K, V>, vals: map<Ptr, V>, key: K)
    ensures AllBelow(ord, vals, Before(Top), key) && AllAbove(ord, vals, After(Top), key)
  {}

  lemma TopReads(m: Arena, root: Ptr, t: Tree)
    requires At(m, root, Top, t)
    ensures root == RootId(t) && (root == NIL ==> t.Leaf?)
  {}

  lemma SlotBounds(path: Path, t: Tree)
    requires t.Node?
    ensures Before(LeftOf(path, t.id, t.color, t.right)) == Before(path)
    ensures After(RightOf(path, t.left, t.id, t.color)) == After(path)
    ensures Plug(LeftOf(path, t.id, t.color, t.right), t.left) == Plug(path, t)
    ensures Plug(RightOf(path, t.left, t.id, t.color), t.right) == Plug(path, t)
  {}
}
