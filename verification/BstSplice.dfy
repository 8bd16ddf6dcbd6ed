/** Linking a new node into the arena's tree, and unlinking one from it. */
module BstSplice {
  import opened RedBlack
  import opened RedBlackInsert
  import opened RedBlackDelete
  import opened BstLinks

  // ---------- Insert ----------

  function NewNode(id: Ptr): Tree {
    Node(Leaf, id, Red, Leaf)
  }

  /** A new red node hung from the empty slot at the end of `path`. */
  lemma {:induction false} InsertLinked(m: Arena, root: Ptr, m': Arena, root': Ptr, path: Path, n: Ptr)
    requires At(m, root, path, Leaf) && 0 < n < |m| && n !in PathIds(path)
    requires |m'| == |m| && SameLinks(Header(ParentId(path), Red, NIL, NIL, NIL), m'[n])
    requires forall p :: 0 <= p < |m| && p != n && (p == NIL || p != ParentId(path)) ==> m'[p] == m[p]
    requires if path.Top? then root' == n else root' == root
    requires path.LeftOf? ==> m'[path.id] == m[path.id].(left := n)
    requires path.RightOf? ==> m'[path.id] == m[path.id].(right := n)
    ensures At(m', root', path, NewNode(n))
    ensures AllIds(path, NewNode(n)) == PathIds(path) + {n}
  {
    PathIdsInArena(m, root, path, NIL);
    PathRelinked(m, root, m', root', path, NIL, n);
    assert Ids(NewNode(n)) == {n};
  }

  /** What the insertion reads at an empty slot. */
  lemma SlotReads(m: Arena, root: Ptr, path: Path)
    requires At(m, root, path, Leaf)
    ensures ParentId(path) < |m| && (path.Top? <==> ParentId(path) == NIL)
    ensures !path.Top? ==> path.id in PathIds(path)
    ensures NIL !in PathIds(path)
  {
    PathIdsInArena(m, root, path, NIL);
  }

  /** A red node in an empty slot of a red-black tree starts the insert fix-up. */
  lemma {:induction false} NewNodeInv(path: Path, n: Ptr)
    requires IsRedBlack(Plug(path, Leaf))
    ensures InsertInv(path, NewNode(n))
  {
    UnplugKeepsInvariants(path, Leaf);
  }

  // ---------- Transplant ----------

  /** Exactly what a transplant writes. */
  ghost predicate Transplanted(m: Arena, root: Ptr, m': Arena, root': Ptr, old_: Ptr, new_: Ptr)
    requires old_ < |m| && m[old_].parent < |m| && new_ < |m|
  {
    var p := m[old_].parent;
    && |m'| == |m|
    && ChildReplaced(m, root, m', root', p, old_, new_)
    && m'[new_] == m[new_].(parent := p)
    && forall q :: 0 <= q < |m| && q != new_ && (q == NIL || q != p) ==> m'[q] == m[q]
  }

  /** Moving a proper subtree `u` of `t` up into `t`'s place, the sentinel included when `u` is empty. */
  lemma {:induction false} TransplantAt(m: Arena, root: Ptr, m': Arena, root': Ptr, path: Path, t: Tree, u: Tree,
                                        q: Ptr)
    requires At(m, root, path, t) && t.Node?
    requires TreeAt(m, u, q) && Distinct(u) && Ids(u) <= Ids(t) - {t.id} && RootId(u) < |m|
    requires m[t.id].parent < |m| && Transplanted(m, root, m', root', t.id, RootId(u))
    ensures At(m', root', path, u) && m'[RootId(u)].parent == ParentId(path)
    ensures forall p :: p in Ids(t) && p < |m| && p != RootId(u) ==> m'[p] == m[p]
    ensures Within(m, m', AllIds(path, t) + {NIL})
  {
    PathIdsInArena(m, root, path, t.id);
    IdsInArena(m, t, ParentId(path));
    assert u.Node? ==> u.id in Ids(u);
    TreeAtReparent(m, m', u, q, ParentId(path));
    PathChildReplaced(m, root, m', root', path, t.id, RootId(u));
  }

  // ---------- The in-order successor ----------

  lemma {:induction false} FocusMin(m: Arena, root: Ptr, path: Path, t: Tree)
    requires At(m, root, path, t) && t.Node?
    ensures At(m, root, MinPath(path, t), MinNode(t))
    ensures AllIds(MinPath(path, t), MinNode(t)) == AllIds(path, t)
    decreases t
  {
    if t.left.Node? {
      FocusLeft(m, root, path, t);
      FocusMin(m, root, LeftOf(path, t.id, t.color, t.right), t.left);
    }
  }

  /** From the place the successor left, back up to the tree without it, and down again. */
  lemma {:induction false} FocusRemoveMin(m: Arena, root: Ptr, path: Path, t: Tree)
    requires t.Node?
    ensures At(m, root, MinPath(path, t), MinNode(t).right) <==> At(m, root, path, RemoveMin(t))
    ensures AllIds(MinPath(path, t), MinNode(t).right) == AllIds(path, RemoveMin(t))
    decreases t
  {
    if t.left.Node? {
      var path' := LeftOf(path, t.id, t.color, t.right);
      FocusRemoveMin(m, root, path', t.left);
      var u := RemoveMin(t);
      assert u == Fill(path', RemoveMin(t.left));
      if At(m, root, path', RemoveMin(t.left)) { FocusUp(m, root, path', RemoveMin(t.left)); }
      if At(m, root, path, u) { FocusLeft(m, root, path, u); }
      assert AllIds(path', RemoveMin(t.left)) == AllIds(path, u);
    }
  }

  lemma {:induction false} MinPathParent(path: Path, t: Tree)
    requires t.Node? && t.left.Node?
    ensures !MinPath(path, t).Top? && ParentId(MinPath(path, t)) in Ids(t)
    ensures MinPath(path, t).LeftOf?
    decreases t
  {
    if t.left.left.Node? {
      MinPathParent(LeftOf(path, t.id, t.color, t.right), t.left);
    }
  }

  /** The way down to the minimum depends on what it hangs from only above it. */
  lemma {:induction false} MinPathParentSame(path: Path, path': Path, t: Tree)
    requires t.Node? && t.left.Node?
    ensures ParentId(MinPath(path, t)) == ParentId(MinPath(path', t))
    decreases t
  {
    if t.left.left.Node? {
      MinPathParentSame(LeftOf(path, t.id, t.color, t.right), LeftOf(path', t.id, t.color, t.right), t.left);
    }
  }

  lemma {:induction false} MinNodeIds(t: Tree)
    requires t.Node? && Distinct(t)
    ensures MinNode(t).id in Ids(t) && MinNode(t).id !in Ids(RemoveMin(t)) && MinNode(t).id != NIL
    ensures Ids(t) == Ids(RemoveMin(t)) + {MinNode(t).id} && Distinct(RemoveMin(t))
    ensures t.left.Node? ==> MinNode(t).id != t.id
  {
    if t.left.Node? { MinNodeIds(t.left); }
  }

  // ---------- The successor takes a node's place ----------

  ghost predicate PlaceReady(m: Arena, n: Ptr, y: Ptr, l: Ptr, r: Ptr) {
    && 0 < n < |m| && 0 < y < |m| && 0 < l < |m| && r < |m| && m[n].parent < |m|
    && n !in {y, l, r, m[n].parent} && y !in {l, r} && l != r
    && (m[n].parent != NIL ==> m[n].parent !in {y, l, r})
  }

  /** Exactly what putting `y` in the place of `n` writes: `l` and `r` are n's children afterwards. */
  ghost predicate PlaceTaken(m: Arena, root: Ptr, m': Arena, root': Ptr, n: Ptr, y: Ptr, l: Ptr, r: Ptr)
    requires n < |m| && y < |m| && l < |m| && r < |m| && m[n].parent < |m|
  {
    var p := m[n].parent;
    && |m'| == |m|
    && ChildReplaced(m, root, m', root', p, n, y)
    && m'[y] == m[y].(parent := p, color := m[n].color, left := l, right := r)
    && m'[l] == m[l].(parent := y)
    && m'[r] == m[r].(parent := y)
    && forall q :: 0 <= q < |m| && q !in {y, l, r} && (q == NIL || q != p) ==> m'[q] == m[q]
  }

  lemma {:induction false} PlaceTakenAt(m: Arena, root: Ptr, m': Arena, root': Ptr, path: Path, n: Ptr, c: Color,
                                        l: Tree, r: Tree, q: Ptr, y: Ptr)
    requires PathAt(m, root, path, n) && DistinctPath(path) && 0 < n < |m| && m[NIL].color == Black
    requires m[n].parent == ParentId(path) < |m| && m[n].color == c
    requires TreeAt(m, l, n) && TreeAt(m, r, q) && Distinct(Node(l, y, c, r)) && l.Node? && RootId(l) < |m|
    requires RootId(r) < |m|
    requires 0 < y < |m| && y != n && y !in PathIds(path)
    requires n !in PathIds(path) && n !in Ids(l) && n !in Ids(r) && Ids(l) !! PathIds(path) && Ids(r) !! PathIds(path)
    requires PlaceTaken(m, root, m', root', n, y, RootId(l), RootId(r))
    ensures At(m', root', path, Node(l, y, c, r)) && m'[RootId(r)].parent == y
    ensures m'[n] == m[n]
    ensures Within(m, m', PathIds(path) + Ids(l) + {y, NIL} + Ids(r))
  {
    PathIdsInArena(m, root, path, n);
    IdsInArena(m, l, n);
    IdsInArena(m, r, q);
    assert l.id in Ids(l) && (r.Node? ==> r.id in Ids(r));
    TreeAtReparent(m, m', l, n, y);
    TreeAtReparent(m, m', r, q, y);
    PathChildReplaced(m, root, m', root', path, n, y);
    assert Ids(Node(l, y, c, r)) == Ids(l) + {y} + Ids(r);
  }

  /** What a linked tree says around the node at its focus. */
  lemma {:induction false} NodeParts(m: Arena, root: Ptr, path: Path, t: Tree)
    requires At(m, root, path, t) && t.Node?
    ensures PathAt(m, root, path, t.id) && DistinctPath(path) && |m| > 0 && m[NIL].color == Black
    ensures 0 < t.id < |m| && m[t.id].parent == ParentId(path) < |m| && m[t.id].color == t.color
    ensures TreeAt(m, t.left, t.id) && TreeAt(m, t.right, t.id) && RootId(t.left) < |m| && RootId(t.right) < |m|
    ensures Ids(t) == Ids(t.left) + {t.id} + Ids(t.right) && Ids(t) !! PathIds(path)
    ensures t.id !in PathIds(path) && t.id !in Ids(t.left) && t.id !in Ids(t.right) && Ids(t.left) !! Ids(t.right)
    ensures Distinct(t.left) && Distinct(t.right)
  {
    ChildReads(m, root, path, t);
    assert t.id in Ids(t);
  }

  /** The right child is its node's successor: everything the move relies on. */
  lemma {:induction false} NearReady(m: Arena, root: Ptr, path: Path, t: Tree)
    requires At(m, root, path, t) && t.Node? && t.left.Node? && t.right.Node? && t.right.left.Leaf?
    ensures t.id < |m| && t.right.id < |m| && m[t.id].right == t.right.id
    ensures m[t.right.id].right == RootId(t.right.right)
    ensures m[t.id].left == t.left.id && m[t.right.id].color == t.right.color
    ensures PlaceReady(m, t.id, t.right.id, t.left.id, RootId(t.right.right))
    ensures TreeAt(m, t.right.right, t.right.id)
    ensures Distinct(Node(t.left, t.right.id, t.color, t.right.right))
    ensures Ids(t) == Ids(t.left) + {t.id, t.right.id} + Ids(t.right.right) && NIL !in AllIds(path, t)
  {
    var y := t.right;
    PathIdsInArena(m, root, path, t.id);
    IdsInArena(m, t, ParentId(path));
    assert TreeAt(m, t.left, t.id) && TreeAt(m, y, t.id) && Distinct(t.left) && Distinct(y);
    assert Ids(y) == {y.id} + Ids(y.right);
    assert t.left.id in Ids(t.left) && (y.right.Node? ==> y.right.id in Ids(y.right));
  }

  lemma {:induction false} NearDone(m: Arena, root: Ptr, m': Arena, root': Ptr, path: Path, t: Tree)
    requires At(m, root, path, t) && t.Node? && t.left.Node? && t.right.Node? && t.right.left.Leaf?
    requires PlaceReady(m, t.id, t.right.id, t.left.id, RootId(t.right.right))
    requires PlaceTaken(m, root, m', root', t.id, t.right.id, t.left.id, RootId(t.right.right))
    ensures var y := t.right; var path' := RightOf(path, t.left, y.id, t.color);
            && At(m', root', path', y.right) && m'[RootId(y.right)].parent == y.id
            && AllIds(path', y.right) == AllIds(path, t) - {t.id}
    ensures m'[t.id] == m[t.id] && Within(m, m', AllIds(path, t) - {t.id} + {NIL})
  {
    var y := t.right;
    NodeParts(m, root, path, t);
    NearReady(m, root, path, t);
    hide At, TreeAt, PathAt, Distinct, DistinctPath, Ids, PlaceTaken, Within;
    assert y.id in Ids(t) && y.id !in PathIds(path);
    ReplacedIds(PathIds(path), Ids(t.left), Ids(y.right), t.id, y.id);
    assert Ids(t) == Ids(t.left) + {t.id} + (Ids(y.right) + {y.id});
    PlaceTakenAt(m, root, m', root', path, t.id, t.color, t.left, y.right, y.id, y.id);
    FocusRight(m', root', path, Node(t.left, y.id, t.color, y.right));
  }

  /** The ids around a node when `y` has taken its place, `y` being from below it or from elsewhere. */
  lemma ReplacedIds(p: set<Ptr>, l: set<Ptr>, r: set<Ptr>, n: Ptr, y: Ptr)
    requires n !in p && n !in l && n !in r && n != y && n != NIL
    ensures p + l + {y, NIL} + r == p + (l + {n} + (r + {y})) - {n} + {NIL}
    ensures p + l + {y, NIL} + r == p + (l + {n} + r) - {n} + {y, NIL}
    ensures (p + {y} + l) + r == p + (l + {n} + (r + {y})) - {n}
    ensures (p + {y} + l) + r == p + (l + {n} + r) - {n} + {y}
  {}

  /** The successor lies deeper: what unhooking it relies on. */
  lemma {:induction false} FarReady(m: Arena, root: Ptr, path: Path, t: Tree)
    requires At(m, root, path, t) && t.Node? && t.left.Node? && t.right.Node? && t.right.left.Node?
    ensures var base := RightOf(path, t.left, t.id, t.color);
            var y, from := MinNode(t.right), MinPath(base, t.right);
            && At(m, root, from, y) && AllIds(from, y) == AllIds(path, t) && from.LeftOf?
            && 0 < y.id < |m| && m[y.id].color == y.color && m[y.id].right == RootId(y.right) < |m|
            && m[y.id].parent == ParentId(from) < |m| && ParentId(from) != RootId(y.right)
            && ParentId(from) in Ids(t.right)
            && t.id < |m| && m[t.id].right == t.right.id && t.right.id < |m| && y.id != t.right.id
            && TreeAt(m, y.right, y.id) && Distinct(y.right) && Ids(y.right) <= Ids(y) - {y.id}
            && t.id in PathIds(from) && ParentId(from) != t.id && NIL !in AllIds(path, t)
            && Distinct(t.right) && t.id !in Ids(t.right) && y.id !in Ids(t.left) + PathIds(path)
  {
    var base := RightOf(path, t.left, t.id, t.color);
    var y, from := MinNode(t.right), MinPath(base, t.right);
    FocusRight(m, root, path, t);
    FocusMin(m, root, base, t.right);
    MinPathParent(base, t.right);
    MinNodeIds(t.right);
    IdsInArena(m, t, ParentId(path));
    PathIdsInArena(m, root, path, t.id);
    PathIdsInArena(m, root, from, y.id);
    assert TreeAt(m, y, ParentId(from)) && Distinct(y);
    assert Ids(y) == {y.id} + Ids(y.right);
    assert y.right.Node? ==> y.right.id in Ids(y.right);
    assert t.id in AllIds(path, t);
    MinNodeSub(t.right);
  }

  lemma {:induction false} MinNodeSub(t: Tree)
    requires t.Node?
    ensures Ids(MinNode(t)) <= Ids(t)
  {
    if t.left.Node? { MinNodeSub(t.left); }
  }

  /** After the successor is unhooked, the node still heads the tree without it, and can be replaced. */
  lemma {:induction false} FarUnhooked(m: Arena, root: Ptr, m': Arena, root': Ptr, path: Path, t: Tree)
    requires At(m, root, path, t) && t.Node? && t.left.Node? && t.right.Node? && t.right.left.Node?
    requires var y := MinNode(t.right);
             y.id < |m| && m[y.id].parent < |m| && RootId(y.right) < |m| &&
             Transplanted(m, root, m', root', y.id, RootId(y.right))
    ensures var r := RemoveMin(t.right); var y := MinNode(t.right).id;
            && At(m', root', path, t.(right := r)) && r.Node?
            && PlaceReady(m', t.id, y, t.left.id, r.id) && m'[t.id].left == t.left.id && m'[t.id].right == r.id
            && AllIds(path, t) == AllIds(path, t.(right := r)) + {y} && y !in AllIds(path, t.(right := r))
    ensures m'[t.id] == m[t.id] && Within(m, m', AllIds(path, t) - {t.id} + {NIL})
    ensures m'[RootId(MinNode(t.right).right)].parent ==
            ParentId(MinPath(RightOf(path, t.left, t.id, t.color), t.right))
  {
    hide At, PlaceReady, TreeAt, PathAt, Distinct, DistinctPath, Within, MinNode, MinPath, RemoveMin;
    FarReady(m, root, path, t);
    var base := RightOf(path, t.left, t.id, t.color);
    var y, from := MinNode(t.right), MinPath(base, t.right);
    TransplantAt(m, root, m', root', from, y, y.right, y.id);
    FocusRemoveMin(m', root', base, t.right);
    FocusUp(m', root', base, RemoveMin(t.right));
    MinNodeIds(t.right);
    TreeIds(t);
    TreeIds(t.(right := RemoveMin(t.right)));
    hide Ids;
    UnhookedIds(PathIds(path), Ids(t.left), Ids(RemoveMin(t.right)), t.id, y.id);
    FarReplaceReady(m', root', path, t.(right := RemoveMin(t.right)), y.id);
    WithinLess(m, m', AllIds(path, t), t.id);
  }

  lemma TreeIds(t: Tree)
    requires t.Node?
    ensures Ids(t) == Ids(t.left) + {t.id} + Ids(t.right)
  {}

  lemma UnhookedIds(p: set<Ptr>, l: set<Ptr>, r: set<Ptr>, n: Ptr, y: Ptr)
    requires y !in p && y !in l && y !in r && y != n
    ensures p + (l + {n} + (r + {y})) == p + (l + {n} + r) + {y} && y !in p + (l + {n} + r)
  {}

  lemma WithinLess(m: Arena, m': Arena, s: set<Ptr>, p: Ptr)
    requires Within(m, m', s + {NIL}) && NIL != p < |m| && m'[p] == m[p]
    ensures Within(m, m', s - {p} + {NIL})
  {}

  lemma {:induction false} FarReplaceReady(m: Arena, root: Ptr, path: Path, t: Tree, y: Ptr)
    requires At(m, root, path, t) && t.Node? && t.left.Node? && t.right.Node?
    requires 0 < y < |m| && y !in AllIds(path, t)
    ensures t.id < |m| && m[t.id].left == t.left.id && m[t.id].right == t.right.id
    ensures PlaceReady(m, t.id, y, t.left.id, t.right.id)
  {
    IdsInArena(m, t, ParentId(path));
    PathIdsInArena(m, root, path, t.id);
    assert t.left.id in Ids(t.left) && t.right.id in Ids(t.right);
    assert t.id in AllIds(path, t);
  }

  lemma {:induction false} FarDone(m: Arena, root: Ptr, m': Arena, root': Ptr, path: Path, t: Tree, r0: Tree, y: Ptr)
    requires At(m, root, path, t) && t.Node? && t.left.Node? && t.right.Node?
    requires 0 < y < |m| && y !in AllIds(path, t) && r0.Node? && r0.left.Node? && t.right == RemoveMin(r0)
    requires PlaceReady(m, t.id, y, t.left.id, t.right.id)
    requires PlaceTaken(m, root, m', root', t.id, y, t.left.id, t.right.id)
    requires RootId(MinNode(r0).right) < |m|
    requires m[RootId(MinNode(r0).right)].parent == ParentId(MinPath(RightOf(path, t.left, t.id, t.color), r0))
    ensures var path' := MinPath(RightOf(path, t.left, y, t.color), r0);
            && At(m', root', path', MinNode(r0).right) && m'[RootId(MinNode(r0).right)].parent == ParentId(path')
            && AllIds(path', MinNode(r0).right) == AllIds(path, t) - {t.id} + {y}
    ensures m'[t.id] == m[t.id] && Within(m, m', AllIds(path, t) - {t.id} + {y, NIL})
  {
    var u := Node(t.left, y, t.color, t.right);
    var base := RightOf(path, t.left, y, t.color);
    NodeParts(m, root, path, t);
    assert Distinct(u);
    hide At, TreeAt, PathAt, Distinct, DistinctPath, Ids, Within, MinNode, MinPath, RemoveMin;
    PlaceTakenAt(m, root, m', root', path, t.id, t.color, t.left, t.right, t.id, y);
    FocusRight(m', root', path, u);
    FocusRemoveMin(m', root', base, r0);
    MinPathParentSame(RightOf(path, t.left, t.id, t.color), base, r0);
    ReplacedIds(PathIds(path), Ids(t.left), Ids(t.right), t.id, y);
  }

  lemma WithinTwo(m0: Arena, m1: Arena, m2: Arena, path: Path, t: Tree, t1: Tree, y: Ptr)
    requires t.Node? && t1.Node? && t1.id == t.id && AllIds(path, t) == AllIds(path, t1) + {y} && y != t.id
    requires Within(m0, m1, AllIds(path, t) - {t.id} + {NIL}) && Within(m1, m2, AllIds(path, t1) - {t.id} + {y, NIL})
    ensures Within(m0, m2, AllIds(path, t) - {t.id} + {NIL})
    ensures AllIds(path, t1) - {t.id} + {y} == AllIds(path, t) - {t.id}
  {}

  lemma SuccessorPlace(m: Arena, root: Ptr, path: Path, t: Tree)
    requires At(m, root, path, t) && t.Node? && t.right.Node?
    ensures MinNode(t.right).id == t.right.id <==> t.right.left.Leaf?
  {
    MinNodeIds(t.right);
  }

  lemma MinPathHere(path: Path, t: Tree)
    requires t.Node? && t.left.Leaf?
    ensures MinPath(path, t) == path && MinNode(t) == t
  {}

  lemma ChildReads(m: Arena, root: Ptr, path: Path, t: Tree)
    requires At(m, root, path, t) && t.Node?
    ensures 0 < t.id < |m| && m[t.id].left == RootId(t.left) < |m| && m[t.id].right == RootId(t.right) < |m|
    ensures m[t.id].color == t.color && m[t.id].parent == ParentId(path) < |m|
    ensures (m[t.id].left == NIL <==> t.left.Leaf?) && (m[t.id].right == NIL <==> t.right.Leaf?)
    ensures t.id in AllIds(path, t) && NIL !in AllIds(path, t)
  {
    assert TreeAt(m, t.left, t.id) && TreeAt(m, t.right, t.id) && Distinct(t.left) && Distinct(t.right);
    IdsInArena(m, t, ParentId(path));
    PathIdsInArena(m, root, path, t.id);
  }

  lemma {:induction false} OneChildReady(m: Arena, root: Ptr, path: Path, t: Tree)
    requires At(m, root, path, t) && t.Node?
    ensures m[t.id].parent < |m|
    ensures m[t.id].parent != NIL ==> m[t.id].parent != RootId(t.left) && m[t.id].parent != RootId(t.right)
  {
    PathIdsInArena(m, root, path, t.id);
    assert t.left.Node? ==> t.left.id in Ids(t.left);
    assert t.right.Node? ==> t.right.id in Ids(t.right);
  }

  lemma {:induction false} OneChildDone(m: Arena, root: Ptr, m': Arena, root': Ptr, path: Path, t: Tree, u: Tree)
    requires At(m, root, path, t) && t.Node?
    requires (t.left.Leaf? && u == t.right) || (t.right.Leaf? && u == t.left)
    requires t.id < |m| && m[t.id].parent < |m| && RootId(u) < |m| && Transplanted(m, root, m', root', t.id, RootId(u))
    ensures At(m', root', path, u) && m'[RootId(u)].parent == ParentId(path)
    ensures AllIds(path, u) == AllIds(path, t) - {t.id} && m'[t.id] == m[t.id]
    ensures Within(m, m', AllIds(path, t) - {t.id} + {NIL})
  {
    TransplantAt(m, root, m', root', path, t, u, t.id);
    assert t.id in Ids(t);
    assert u.Node? ==> u.id in Ids(u);
  }

  lemma WithinDelete(m0: Arena, m1: Arena, m2: Arena, all: set<Ptr>, left: set<Ptr>, node: Ptr)
    requires Within(m0, m1, all - {node} + {NIL}) && Within(m1, m2, left) && left == all - {node} && NIL != node < |m0|
    ensures Within(m0, m2, all - {node} + {NIL}) && m2[node] == m1[node]
  {}
}
