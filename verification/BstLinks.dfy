/**
  How a tree value lies in the arena.

  The arena is the block of memory the nodes are carved from; block 0 stands for
  the sentinel that is stored inside the tree header.  `At` says that the links,
  colours and parent pointers in the arena spell out a given tree, seen from a
  given focus inside it.
*/
module BstLinks {
  import opened RedBlack

  datatype Header = Header(parent: Ptr, color: Color, left: Ptr, right: Ptr, list: Ptr)

  type Arena = seq<Header>

  // ---------- Which blocks a tree uses ----------

  ghost function Ids(t: Tree): set<Ptr> {
    if t.Leaf? then {} else Ids(t.left) + {t.id} + Ids(t.right)
  }

  ghost function PathIds(path: Path): set<Ptr> {
    match path
    case Top => {}
    case LeftOf(up, id, _, r) => PathIds(up) + {id} + Ids(r)
    case RightOf(up, l, id, _) => PathIds(up) + {id} + Ids(l)
  }

  ghost function AllIds(path: Path, t: Tree): set<Ptr> {
    PathIds(path) + Ids(t)
  }

  ghost predicate Distinct(t: Tree) {
    t.Node? ==>
      && t.id != NIL && t.id !in Ids(t.left) && t.id !in Ids(t.right)
      && Ids(t.left) !! Ids(t.right)
      && Distinct(t.left) && Distinct(t.right)
  }

  ghost predicate DistinctPath(path: Path) {
    !path.Top? ==>
      && path.id != NIL && path.id !in Ids(Sibling(path)) && path.id !in PathIds(path.up)
      && Ids(Sibling(path)) !! PathIds(path.up)
      && Distinct(Sibling(path)) && DistinctPath(path.up)
  }

  // ---------- The arena spells out a tree ----------

  ghost predicate TreeAt(m: Arena, t: Tree, parent: Ptr) {
    t.Node? ==>
      && t.id < |m|
      && m[t.id].parent == parent && m[t.id].color == t.color
      && m[t.id].left == RootId(t.left) && m[t.id].right == RootId(t.right)
      && TreeAt(m, t.left, t.id) && TreeAt(m, t.right, t.id)
  }

  ghost predicate PathAt(m: Arena, root: Ptr, path: Path, hole: Ptr) {
    if path.Top? then root == hole
    else
      && path.id < |m|
      && m[path.id].parent == ParentId(path.up) && m[path.id].color == path.color
      && m[path.id].left == (if path.LeftOf? then hole else RootId(path.left))
      && m[path.id].right == (if path.LeftOf? then RootId(path.right) else hole)
      && TreeAt(m, Sibling(path), path.id)
      && PathAt(m, root, path.up, path.id)
  }

  ghost predicate At(m: Arena, root: Ptr, path: Path, t: Tree) {
    && |m| > 0 && m[NIL].color == Black
    && TreeAt(m, t, ParentId(path)) && PathAt(m, root, path, RootId(t))
    && Distinct(t) && DistinctPath(path) && Ids(t) !! PathIds(path)
  }

  /** `m'` differs from `m` only inside `s`, and not in the duplicate chains. */
  ghost predicate Within(m: Arena, m': Arena, s: set<Ptr>) {
    && |m'| == |m|
    && (forall p :: 0 <= p < |m| && p !in s ==> m'[p] == m[p])
    && (forall p :: 0 <= p < |m| ==> m'[p].list == m[p].list)
  }

  predicate SameLinks(h: Header, h': Header) {
    h' == h.(list := h'.list)
  }

  ghost predicate Agree(m: Arena, m': Arena, s: set<Ptr>) {
    |m'| == |m| && forall p :: p in s && p < |m| ==> SameLinks(m[p], m'[p])
  }

  // ---------- Framing ----------

  lemma {:induction false} TreeAtFrame(m: Arena, m': Arena, t: Tree, parent: Ptr)
    requires TreeAt(m, t, parent) && Agree(m, m', Ids(t))
    ensures TreeAt(m', t, parent)
  {
    if t.Node? {
      assert t.id in Ids(t);
      TreeAtFrame(m, m', t.left, t.id);
      TreeAtFrame(m, m', t.right, t.id);
    }
  }

  lemma {:induction false} PathAtFrame(m: Arena, m': Arena, root: Ptr, path: Path, hole: Ptr)
    requires PathAt(m, root, path, hole) && Agree(m, m', PathIds(path))
    ensures PathAt(m', root, path, hole)
  {
    if !path.Top? {
      assert path.id in PathIds(path);
      TreeAtFrame(m, m', Sibling(path), path.id);
      PathAtFrame(m, m', root, path.up, path.id);
    }
  }

  lemma {:induction false} AtFrame(m: Arena, m': Arena, root: Ptr, path: Path, t: Tree)
    requires At(m, root, path, t) && Agree(m, m', AllIds(path, t)) && m'[NIL].color == Black
    ensures At(m', root, path, t)
  {
    TreeAtFrame(m, m', t, ParentId(path));
    PathAtFrame(m, m', root, path, RootId(t));
  }

  lemma {:induction false} IdsInArena(m: Arena, t: Tree, parent: Ptr)
    requires TreeAt(m, t, parent) && Distinct(t)
    ensures forall p :: p in Ids(t) ==> 0 < p < |m|
  {
    if t.Node? {
      IdsInArena(m, t.left, t.id);
      IdsInArena(m, t.right, t.id);
    }
  }

  lemma {:induction false} PathIdsInArena(m: Arena, root: Ptr, path: Path, hole: Ptr)
    requires PathAt(m, root, path, hole) && DistinctPath(path)
    ensures forall p :: p in PathIds(path) ==> 0 < p < |m|
  {
    if !path.Top? {
      IdsInArena(m, Sibling(path), path.id);
      PathIdsInArena(m, root, path.up, path.id);
    }
  }

  /** Re-aiming the innermost frame of a path at a new hole. */
  lemma {:induction false} PathRelinked(m: Arena, root: Ptr, m': Arena, root': Ptr, path: Path, hole: Ptr, hole': Ptr)
    requires PathAt(m, root, path, hole) && DistinctPath(path)
    requires Agree(m, m', PathIds(path) - {ParentId(path)})
    requires if path.Top? then root' == hole' else root' == root
    requires path.LeftOf? ==> SameLinks(m[path.id].(left := hole'), m'[path.id])
    requires path.RightOf? ==> SameLinks(m[path.id].(right := hole'), m'[path.id])
    ensures PathAt(m', root', path, hole')
  {
    if !path.Top? {
      TreeAtFrame(m, m', Sibling(path), path.id);
      PathAtFrame(m, m', root, path.up, path.id);
    }
  }

  // ---------- Moving the focus ----------

  lemma {:induction false} FocusUp(m: Arena, root: Ptr, path: Path, t: Tree)
    requires At(m, root, path, t) && !path.Top?
    ensures At(m, root, path.up, Fill(path, t))
    ensures AllIds(path.up, Fill(path, t)) == AllIds(path, t)
  {}

  lemma {:induction false} FocusLeft(m: Arena, root: Ptr, path: Path, t: Tree)
    requires At(m, root, path, t) && t.Node?
    ensures At(m, root, LeftOf(path, t.id, t.color, t.right), t.left)
    ensures AllIds(LeftOf(path, t.id, t.color, t.right), t.left) == AllIds(path, t)
  {}

  lemma {:induction false} FocusRight(m: Arena, root: Ptr, path: Path, t: Tree)
    requires At(m, root, path, t) && t.Node?
    ensures At(m, root, RightOf(path, t.left, t.id, t.color), t.right)
    ensures AllIds(RightOf(path, t.left, t.id, t.color), t.right) == AllIds(path, t)
  {}

  lemma {:induction false} FocusTop(m: Arena, root: Ptr, path: Path, t: Tree)
    requires At(m, root, path, t)
    ensures At(m, root, Top, Plug(path, t))
    ensures AllIds(Top, Plug(path, t)) == AllIds(path, t)
    decreases path
  {
    if !path.Top? {
      FocusUp(m, root, path, t);
      FocusTop(m, root, path.up, Fill(path, t));
    }
  }

  /** The way back: any split of a tree in the arena is a focus on it. */
  lemma {:induction false} FocusOn(m: Arena, root: Ptr, path: Path, t: Tree)
    requires At(m, root, Top, Plug(path, t))
    ensures At(m, root, path, t)
    ensures AllIds(Top, Plug(path, t)) == AllIds(path, t)
    decreases path
  {
    if !path.Top? {
      FocusOn(m, root, path.up, Fill(path, t));
      if path.LeftOf? {
        FocusLeft(m, root, path.up, Fill(path, t));
      } else {
        FocusRight(m, root, path.up, Fill(path, t));
      }
    }
  }

  // ---------- Rotations ----------

  function RotatedLeft(t: Tree): Tree
    requires t.Node? && t.right.Node?
  {
    var y := t.right;
    Node(Node(t.left, t.id, t.color, y.left), y.id, y.color, y.right)
  }

  function RotatedRight(t: Tree): Tree
    requires t.Node? && t.left.Node?
  {
    var y := t.left;
    Node(y.left, y.id, y.color, Node(y.right, t.id, t.color, t.right))
  }

  lemma {:induction false} RotatedLeftIds(t: Tree)
    requires t.Node? && t.right.Node? && Distinct(t)
    ensures Distinct(RotatedLeft(t)) && Ids(RotatedLeft(t)) == Ids(t)
  {
    var x, y, a, b, c := t.id, t.right.id, t.left, t.right.left, t.right.right;
    assert Ids(t.right) == Ids(b) + {y} + Ids(c);
    assert Distinct(t.right);
    assert Ids(RotatedLeft(t).left) == Ids(a) + {x} + Ids(b);
    assert Distinct(RotatedLeft(t).left);
  }

  lemma {:induction false} RotatedRightIds(t: Tree)
    requires t.Node? && t.left.Node? && Distinct(t)
    ensures Distinct(RotatedRight(t)) && Ids(RotatedRight(t)) == Ids(t)
  {
    var x, y, a, b, c := t.id, t.left.id, t.left.left, t.left.right, t.right;
    assert Ids(t.left) == Ids(a) + {y} + Ids(b);
    assert Distinct(t.left);
    assert Ids(RotatedRight(t).right) == Ids(b) + {x} + Ids(c);
    assert Distinct(RotatedRight(t).right);
  }

  /** A change of the parent pointer of a subtree's root. */
  lemma {:induction false} TreeAtReparent(m: Arena, m': Arena, t: Tree, parent: Ptr, parent': Ptr)
    requires TreeAt(m, t, parent) && Distinct(t)
    requires Agree(m, m', Ids(t) - {RootId(t)})
    requires t.Node? ==> SameLinks(m[t.id].(parent := parent'), m'[t.id])
    ensures TreeAt(m', t, parent')
  {
    if t.Node? {
      TreeAtFrame(m, m', t.left, t.id);
      TreeAtFrame(m, m', t.right, t.id);
    }
  }

  /** Replacing `old_` by `new_` as a child of `p`, or as the root when `p` is the sentinel. */
  ghost predicate ChildReplaced(m: Arena, root: Ptr, m': Arena, root': Ptr, p: Ptr, old_: Ptr, new_: Ptr)
    requires p < |m| && |m'| == |m|
  {
    && (if p == NIL then root' == new_ else root' == root)
    && (p != NIL ==> m'[p] == if m[p].left == old_ then m[p].(left := new_) else m[p].(right := new_))
  }

  /** The four blocks a rotation of `x` and its child `y` writes: x, y, the inner grandchild and x's parent. */
  ghost predicate RotationReady(m: Arena, x: Ptr, y: Ptr, b: Ptr) {
    && 0 < x < |m| && 0 < y < |m| && b < |m| && m[x].parent < |m|
    && x != y && b != x && b != y && m[x].parent != x && m[x].parent != y && (b != NIL ==> b != m[x].parent)
  }

  ghost predicate RotatedOthers(m: Arena, m': Arena, x: Ptr, y: Ptr, b: Ptr)
    requires RotationReady(m, x, y, b) && |m'| == |m|
  {
    && m'[NIL] == m[NIL]
    && (b != NIL ==> m'[b] == m[b].(parent := x))
    && forall q :: 0 <= q < |m| && q !in {x, y, b, m[x].parent} ==> m'[q] == m[q]
  }

  /** Exactly what a left rotation writes. */
  ghost predicate LeftRotation(m: Arena, root: Ptr, m': Arena, root': Ptr, x: Ptr, y: Ptr, b: Ptr)
    requires RotationReady(m, x, y, b)
  {
    && |m'| == |m| && RotatedOthers(m, m', x, y, b)
    && ChildReplaced(m, root, m', root', m[x].parent, x, y)
    && m'[x] == m[x].(right := b, parent := y)
    && m'[y] == m[y].(left := x, parent := m[x].parent)
  }

  ghost predicate RightRotation(m: Arena, root: Ptr, m': Arena, root': Ptr, x: Ptr, y: Ptr, b: Ptr)
    requires RotationReady(m, x, y, b)
  {
    && |m'| == |m| && RotatedOthers(m, m', x, y, b)
    && ChildReplaced(m, root, m', root', m[x].parent, x, y)
    && m'[x] == m[x].(left := b, parent := y)
    && m'[y] == m[y].(right := x, parent := m[x].parent)
  }

  lemma {:induction false} RotateLeftReady(m: Arena, root: Ptr, path: Path, t: Tree)
    requires At(m, root, path, t) && t.Node? && t.right.Node?
    ensures var x, y, b := t.id, t.right.id, RootId(t.right.left);
            && RotationReady(m, x, y, b) && NIL !in AllIds(path, t)
            && m[x].right == y && m[x].parent == ParentId(path) && m[y].left == b
            && (t.right.left.Node? ==> b != NIL) && (b != NIL ==> b in Ids(t)) && ParentId(path) !in Ids(t)
            && (forall q :: q in PathIds(path) ==> q !in {x, y, b, NIL})
  {
    IdsInArena(m, t, ParentId(path));
    PathIdsInArena(m, root, path, t.id);
    assert TreeAt(m, t.right, t.id) && Distinct(t.right);
    assert t.right.left.Node? ==> t.right.left.id in Ids(t.right.left);
  }

  lemma {:induction false} RotateRightReady(m: Arena, root: Ptr, path: Path, t: Tree)
    requires At(m, root, path, t) && t.Node? && t.left.Node?
    ensures var x, y, b := t.id, t.left.id, RootId(t.left.right);
            && RotationReady(m, x, y, b) && NIL !in AllIds(path, t)
            && m[x].left == y && m[x].parent == ParentId(path) && m[y].right == b
            && (t.left.right.Node? ==> b != NIL) && (b != NIL ==> b in Ids(t)) && ParentId(path) !in Ids(t)
            && (forall q :: q in PathIds(path) ==> q !in {x, y, b, NIL})
  {
    IdsInArena(m, t, ParentId(path));
    PathIdsInArena(m, root, path, t.id);
    assert TreeAt(m, t.left, t.id) && Distinct(t.left);
    assert t.left.right.Node? ==> t.left.right.id in Ids(t.left.right);
  }

  lemma {:induction false} PathChildReplaced(m: Arena, root: Ptr, m': Arena, root': Ptr, path: Path, old_: Ptr,
                                             new_: Ptr)
    requires PathAt(m, root, path, old_) && DistinctPath(path) && |m'| == |m| > 0
    requires old_ != NIL && old_ !in PathIds(path)
    requires ChildReplaced(m, root, m', root', ParentId(path), old_, new_)
    requires Agree(m, m', PathIds(path) - {ParentId(path)})
    ensures PathAt(m', root', path, new_)
  {
    assert path.RightOf? ==> RootId(path.left) != old_;
    PathRelinked(m, root, m', root', path, old_, new_);
  }

  lemma {:induction false} RotateLeftTree(m: Arena, root: Ptr, m': Arena, root': Ptr, t: Tree, parent: Ptr)
    requires TreeAt(m, t, parent) && Distinct(t) && t.Node? && t.right.Node? && parent !in Ids(t)
    requires var x, y, b := t.id, t.right.id, RootId(t.right.left);
             RotationReady(m, x, y, b) && LeftRotation(m, root, m', root', x, y, b)
    ensures TreeAt(m', RotatedLeft(t), parent)
  {
    var x, y, a, b, c := t.id, t.right.id, t.left, t.right.left, t.right.right;
    assert TreeAt(m, t.right, x) && Distinct(t.right) && Distinct(b);
    assert Ids(t.right) == Ids(b) + {y} + Ids(c);
    TreeAtFrame(m, m', a, x);
    TreeAtFrame(m, m', c, y);
    TreeAtReparent(m, m', b, y, x);
  }

  /** The records a left rotation leaves behind spell out the rotated tree. */
  lemma {:induction false} RotateLeftAt(m: Arena, root: Ptr, m': Arena, root': Ptr, path: Path, t: Tree)
    requires At(m, root, path, t) && t.Node? && t.right.Node?
    requires var x, y, b := t.id, t.right.id, RootId(t.right.left);
             RotationReady(m, x, y, b) && LeftRotation(m, root, m', root', x, y, b)
    ensures At(m', root', path, RotatedLeft(t))
    ensures AllIds(path, RotatedLeft(t)) == AllIds(path, t)
    ensures Within(m, m', AllIds(path, t))
  {
    RotateLeftReady(m, root, path, t);
    RotateLeftTree(m, root, m', root', t, ParentId(path));
    RotatedLeftIds(t);
    PathChildReplaced(m, root, m', root', path, t.id, t.right.id);
  }

  lemma {:induction false} RotateRightTree(m: Arena, root: Ptr, m': Arena, root': Ptr, t: Tree, parent: Ptr)
    requires TreeAt(m, t, parent) && Distinct(t) && t.Node? && t.left.Node? && parent !in Ids(t)
    requires var x, y, b := t.id, t.left.id, RootId(t.left.right);
             RotationReady(m, x, y, b) && RightRotation(m, root, m', root', x, y, b)
    ensures TreeAt(m', RotatedRight(t), parent)
  {
    var x, y, a, b, c := t.id, t.left.id, t.left.left, t.left.right, t.right;
    assert TreeAt(m, t.left, x) && Distinct(t.left) && Distinct(b);
    assert Ids(t.left) == Ids(a) + {y} + Ids(b);
    TreeAtFrame(m, m', a, y);
    TreeAtFrame(m, m', c, x);
    TreeAtReparent(m, m', b, y, x);
  }

  lemma {:induction false} RotateRightAt(m: Arena, root: Ptr, m': Arena, root': Ptr, path: Path, t: Tree)
    requires At(m, root, path, t) && t.Node? && t.left.Node?
    requires var x, y, b := t.id, t.left.id, RootId(t.left.right);
             RotationReady(m, x, y, b) && RightRotation(m, root, m', root', x, y, b)
    ensures At(m', root', path, RotatedRight(t))
    ensures AllIds(path, RotatedRight(t)) == AllIds(path, t)
    ensures Within(m, m', AllIds(path, t))
  {
    RotateRightReady(m, root, path, t);
    RotateRightTree(m, root, m', root', t, ParentId(path));
    RotatedRightIds(t);
    PathChildReplaced(m, root, m', root', path, t.id, t.left.id);
  }

  // ---------- Colours ----------

  /** Painting the node at the focus; painting the sentinel black changes nothing. */
  lemma {:induction false} PaintAt(m: Arena, root: Ptr, path: Path, t: Tree, c: Color)
    requires At(m, root, path, t) && (t.Leaf? ==> c == Black)
    ensures RootId(t) < |m|
    ensures var m' := m[RootId(t) := m[RootId(t)].(color := c)];
            At(m', root, path, Paint(t, c)) && Within(m, m', AllIds(path, t))
    ensures AllIds(path, Paint(t, c)) == AllIds(path, t)
  {
    var m' := m[RootId(t) := m[RootId(t)].(color := c)];
    if t.Leaf? {
      assert m' == m;
    } else {
      IdsInArena(m, t, ParentId(path));
      TreeAtFrame(m, m', t.left, t.id);
      TreeAtFrame(m, m', t.right, t.id);
      PathAtFrame(m, m', root, path, t.id);
    }
  }

  // ---------- A focus together with what it may have changed ----------

  /** An earlier arena, and the blocks that a run of assignments since then may touch. */
  datatype Origin = Origin(arena: Arena, blocks: set<Ptr>)

  /** The arena spells out the tree at this focus, over the origin's blocks, and nothing else has changed. */
  ghost predicate On(o: Origin, m: Arena, root: Ptr, path: Path, t: Tree) {
    At(m, root, path, t) && AllIds(path, t) == o.blocks && Within(o.arena, m, o.blocks)
  }

  lemma OnStart(m: Arena, root: Ptr, path: Path, t: Tree)
    requires At(m, root, path, t)
    ensures On(Origin(m, AllIds(path, t)), m, root, path, t)
  {}

  lemma OnEnd(o: Origin, m: Arena, root: Ptr, path: Path, t: Tree)
    requires On(o, m, root, path, t)
    ensures At(m, root, path, t) && AllIds(path, t) == o.blocks && Within(o.arena, m, o.blocks)
  {}

  lemma OnUp(o: Origin, m: Arena, root: Ptr, path: Path, t: Tree)
    requires On(o, m, root, path, t) && !path.Top?
    ensures On(o, m, root, path.up, Fill(path, t))
  {
    FocusUp(m, root, path, t);
  }

  lemma OnLeft(o: Origin, m: Arena, root: Ptr, path: Path, t: Tree)
    requires On(o, m, root, path, t) && t.Node?
    ensures On(o, m, root, LeftOf(path, t.id, t.color, t.right), t.left)
  {
    FocusLeft(m, root, path, t);
  }

  lemma OnRight(o: Origin, m: Arena, root: Ptr, path: Path, t: Tree)
    requires On(o, m, root, path, t) && t.Node?
    ensures On(o, m, root, RightOf(path, t.left, t.id, t.color), t.right)
  {
    FocusRight(m, root, path, t);
  }

  lemma OnTop(o: Origin, m: Arena, root: Ptr, path: Path, t: Tree)
    requires On(o, m, root, path, t)
    ensures On(o, m, root, Top, Plug(path, t))
  {
    FocusTop(m, root, path, t);
  }

  /** What the code reads at the focus and just above it. */
  lemma OnReads(o: Origin, m: Arena, root: Ptr, path: Path, t: Tree)
    requires On(o, m, root, path, t)
    ensures ParentId(path) < |m| && m[ParentId(path)].color == ParentColor(path)
    ensures RootId(t) < |m| && m[RootId(t)].color == ColorOf(t)
    ensures t.Node? ==> 0 < t.id && m[t.id].parent == ParentId(path)
  {}

  /** What the code reads just below the focus. */
  lemma OnChildren(o: Origin, m: Arena, root: Ptr, path: Path, t: Tree)
    requires On(o, m, root, path, t) && t.Node?
    ensures 0 < t.id < |m| && m[t.id].left == RootId(t.left) < |m| && m[t.id].right == RootId(t.right) < |m|
    ensures m[RootId(t.left)].color == ColorOf(t.left) && m[RootId(t.right)].color == ColorOf(t.right)
    ensures RootId(t.left) == RootId(t.right) ==> t.left.Leaf? && t.right.Leaf?
  {
    assert TreeAt(m, t.left, t.id) && TreeAt(m, t.right, t.id) && Distinct(t.left) && Distinct(t.right);
    assert t.left.Node? ==> t.left.id in Ids(t.left);
    assert t.right.Node? ==> t.right.id in Ids(t.right);
  }

  /** The focus is the root exactly when nothing is above it. */
  lemma OnRoot(o: Origin, m: Arena, root: Ptr, path: Path, t: Tree)
    requires On(o, m, root, path, t)
    ensures root == RootId(t) <==> path.Top?
  {
    PathIdsInArena(m, root, path, RootId(t));
    RootOnPath(m, root, path, RootId(t));
  }

  lemma {:induction false} RootOnPath(m: Arena, root: Ptr, path: Path, hole: Ptr)
    requires PathAt(m, root, path, hole)
    ensures if path.Top? then root == hole else root in PathIds(path)
  {
    if !path.Top? { RootOnPath(m, root, path.up, path.id); }
  }
}
