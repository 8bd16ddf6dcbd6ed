/**
  The intrusive red-black tree: header, sentinel, arena blocks, free list and shortcuts.

  Blocks are named by their position in the arena, 1 upward; 0 is the sentinel.  A block
  is a tree node, a duplicate chained behind one, or free.  Ghost parameters carry the
  focus (path and subtree) a step works at; the ghost fields carry the whole tree, the
  duplicate groups and the free list.
*/
module BinarySearchTree {
  import opened Words
  import opened Chains
  import opened RedBlack
  import opened RedBlackInsert
  import opened RedBlackDelete
  import opened BstLinks
  import opened BstSplice
  import opened BstContents
  import opened BstEnds
  import opened BstSteps
  import opened BstRuns

  datatype PutResult = Stored | Full

  datatype TakeResult<V> = Taken(value: V) | Empty | BadKey

  class Bst<K(!new), V> {
    const ord: Order<K, V>
    var nodes: Arena
    var vals: map<Ptr, V>
    var root: Ptr
    var smallest: Ptr
    var largest: Ptr
    var previous: Ptr
    var freeHead: Ptr
    var freeCount: nat

    ghost var tree: Tree
    ghost var groups: Groups
    ghost var free: seq<Ptr>

    // ---------- Invariant ----------

    /** The links spell out a red-black tree. */
    ghost predicate Linked()
      reads `nodes, `root, `tree
    {
      At(nodes, root, Top, tree) && IsRedBlack(tree)
    }

    /** Tree nodes strictly increase in key order, and duplicates share their node's key. */
    ghost predicate Keyed()
      reads `vals, `tree, `groups
    {
      Total(ord) && Sorted(ord, vals, InOrder(tree)) && Alike(ord, vals, groups)
    }

    /** Chains and free list are linked, and no block is in two places. */
    ghost predicate Parted()
      reads `nodes, `tree, `groups, `free, `freeHead, `freeCount
    {
      && Apart(tree, groups, free) && GroupsAt(nodes, groups)
      && FreeAt(nodes, freeHead, free) && freeCount == |free|
    }

    /** Everything but the keys. */
    ghost predicate Shaped()
      reads `nodes, `root, `tree, `groups, `free, `freeHead, `freeCount, `smallest, `largest
    {
      Linked() && Parted() && Ends(tree, smallest, largest)
    }

    ghost predicate Sound()
      reads `nodes, `vals, `root, `tree, `groups, `free, `freeHead, `freeCount, `smallest, `largest
    {
      Shaped() && Keyed()
    }

    /** Sound, and no block has been lost. */
    ghost predicate Valid()
      reads `nodes, `vals, `root, `tree, `groups, `free, `freeHead, `freeCount, `smallest, `largest
    {
      Sound() && Covered(|nodes|, groups, free)
    }

    ghost function Contents(): multiset<V>
      reads `vals, `tree, `groups
    {
      Held(InOrder(tree), groups, vals)
    }

    // ---------- Initialisation ----------

    constructor (ord: Order<K, V>, blocks: nat)
      requires Total(ord)
      ensures Valid() && Contents() == multiset{} && previous == NIL && this.ord == ord
      ensures |nodes| == blocks + 1 && freeCount == blocks && LastFirst(free)
    {
      this.ord := ord;
      nodes := Blank(blocks + 1);
      vals := map[];
      root, smallest, largest, previous := NIL, NIL, NIL, NIL;
      freeHead, freeCount := NIL, 0;
      tree, groups, free := Leaf, map[], [];
      new;
      hide At, IsRedBlack, Apart, GroupsAt, FreeAt, NoDup, Covered, Total, Sorted, Alike, Ends, Held, InOrder, Blank;
      hide LastFirst, GroupsAt;
      LinkMemory(blocks);
      FreshTree(ord, nodes, free);
    }

    /** Threads every block onto the free list, the last one first in line. */
    method LinkMemory(blocks: nat)
      requires |nodes| == blocks + 1 && groups == map[] && freeHead == NIL && free == []
      modifies `nodes, `freeHead, `freeCount, `free
      ensures |nodes| == blocks + 1 && nodes[NIL] == old(nodes)[NIL]
      ensures FreeAt(nodes, freeHead, free) && freeCount == |free| == blocks && NoDup(free)
      ensures LastFirst(free)
      ensures Covered(|nodes|, groups, free)
    {
      for i := 0 to blocks
        invariant |nodes| == blocks + 1 && nodes[NIL] == old(nodes)[NIL]
        invariant FreeAt(nodes, freeHead, free) && |free| == i
        invariant forall j :: 0 <= j < i ==> free[j] == i - j
      {
        SetParent(i + 1, freeHead);
        freeHead := i + 1;
        ghost var was := free;
        free := [i + 1] + free;
        assert forall k :: 0 < k < |free| ==> free[k] == was[k - 1] && NextIn(free, k) == NextIn(was, k - 1);
        assert NextIn(free, 0) == if |was| > 0 then was[0] else NIL;
      }
      freeCount := blocks;
      forall p | 0 < p < |nodes| ensures Accounted(groups, free, p) {
        assert free[blocks - p] == p;
      }
    }

    // ---------- Fields of a node ----------

    method SetLeft(p: Ptr, v: Ptr)
      requires p < |nodes|
      modifies `nodes
      ensures nodes == old(nodes)[p := old(nodes)[p].(left := v)]
    {
      nodes := nodes[p := nodes[p].(left := v)];
    }

    method SetRight(p: Ptr, v: Ptr)
      requires p < |nodes|
      modifies `nodes
      ensures nodes == old(nodes)[p := old(nodes)[p].(right := v)]
    {
      nodes := nodes[p := nodes[p].(right := v)];
    }

    method SetParent(p: Ptr, v: Ptr)
      requires p < |nodes|
      modifies `nodes
      ensures nodes == old(nodes)[p := old(nodes)[p].(parent := v)]
    {
      nodes := nodes[p := nodes[p].(parent := v)];
    }

    method SetList(p: Ptr, v: Ptr)
      requires p < |nodes|
      modifies `nodes
      ensures nodes == old(nodes)[p := old(nodes)[p].(list := v)]
    {
      nodes := nodes[p := nodes[p].(list := v)];
    }

    method SetColor(p: Ptr, c: Color)
      requires p < |nodes|
      modifies `nodes
      ensures nodes == old(nodes)[p := old(nodes)[p].(color := c)]
    {
      nodes := nodes[p := nodes[p].(color := c)];
    }

    /** Puts `new_` where `old_` hangs: below `p`, or at the root. */
    method ReplaceChild(p: Ptr, old_: Ptr, new_: Ptr)
      requires p < |nodes|
      modifies `root, `nodes
      ensures |nodes| == |old(nodes)| && ChildReplaced(old(nodes), old(root), nodes, root, p, old_, new_)
      ensures forall q :: 0 <= q < |nodes| && (q == NIL || q != p) ==> nodes[q] == old(nodes)[q]
    {
      if p == NIL {
        root := new_;
      } else if nodes[p].left == old_ {
        SetLeft(p, new_);
      } else {
        SetRight(p, new_);
      }
    }

    method RotateLeftLinks(x: Ptr)
      requires 0 < x < |nodes| && 0 < nodes[x].right < |nodes|
      requires RotationReady(nodes, x, nodes[x].right, nodes[nodes[x].right].left)
      modifies `root, `nodes
      ensures var m := old(nodes); LeftRotation(m, old(root), nodes, root, x, m[x].right, m[m[x].right].left)
    {
      var y := nodes[x].right;
      var xParent := nodes[x].parent;
      SetRight(x, nodes[y].left);
      if nodes[y].left != NIL {
        SetParent(nodes[y].left, x);
      }
      SetParent(y, xParent);
      ReplaceChild(xParent, x, y);
      SetLeft(y, x);
      SetParent(x, y);
    }

    /** At any focus, a rotation turns the subtree and touches nothing else. */
    method RotateLeft(x: Ptr, ghost o: Origin, ghost path: Path, ghost t: Tree)
      requires On(o, nodes, root, path, t) && t.Node? && t.right.Node? && x == t.id
      modifies `root, `nodes
      ensures On(o, nodes, root, path, RotatedLeft(t))
    {
      RotateLeftReady(nodes, root, path, t);
      RotateLeftLinks(x);
      RotateLeftAt(old(nodes), old(root), nodes, root, path, t);
    }

    method RotateRightLinks(x: Ptr)
      requires 0 < x < |nodes| && 0 < nodes[x].left < |nodes|
      requires RotationReady(nodes, x, nodes[x].left, nodes[nodes[x].left].right)
      modifies `root, `nodes
      ensures var m := old(nodes); RightRotation(m, old(root), nodes, root, x, m[x].left, m[m[x].left].right)
    {
      var y := nodes[x].left;
      var xParent := nodes[x].parent;
      SetLeft(x, nodes[y].right);
      if nodes[y].right != NIL {
        SetParent(nodes[y].right, x);
      }
      SetParent(y, xParent);
      ReplaceChild(xParent, x, y);
      SetRight(y, x);
      SetParent(x, y);
    }

    /** At any focus, a rotation turns the subtree and touches nothing else. */
    method RotateRight(x: Ptr, ghost o: Origin, ghost path: Path, ghost t: Tree)
      requires On(o, nodes, root, path, t) && t.Node? && t.left.Node? && x == t.id
      modifies `root, `nodes
      ensures On(o, nodes, root, path, RotatedRight(t))
    {
      RotateRightReady(nodes, root, path, t);
      RotateRightLinks(x);
      RotateRightAt(old(nodes), old(root), nodes, root, path, t);
    }

    /** Paints the node at the focus. */
    method PaintFocus(p: Ptr, c: Color, ghost o: Origin, ghost path: Path, ghost t: Tree)
      requires On(o, nodes, root, path, t) && p == RootId(t) && (t.Leaf? ==> c == Black)
      modifies `nodes
      ensures On(o, nodes, root, path, Paint(t, c))
    {
      PaintAt(nodes, root, path, t, c);
      SetColor(p, c);
    }

    /** One iteration of the insert fix-up when the parent is a left child. */
    method FixupInsertLeft(node: Ptr, parent: Ptr, grandparent: Ptr, ghost o: Origin, ghost path: Path, ghost t: Tree)
      returns (next: Ptr, done: bool, ghost path': Path, ghost t': Tree)
      requires On(o, nodes, root, path, t) && t.Node? && ParentColor(path) == Red && path.up.LeftOf?
      requires node == t.id && parent == path.id && grandparent == path.up.id
      modifies `root, `nodes
      ensures (path', t') == InsertStep(path, t)
      ensures On(o, nodes, root, path', t')
      ensures if done then path'.Top? else next == RootId(t')
    {
      hide On, Plug;
      ghost var up, u, g, gc := path.up.up, Uncle(path), path.up.id, path.up.color;
      ghost var p := Fill(path, t);
      OnUp(o, nodes, root, path, t);
      OnUp(o, nodes, root, path.up, p);
      OnChildren(o, nodes, root, up, Fill(path.up, p));
      var uncle := nodes[grandparent].right;
      if nodes[uncle].color == Red {
        PaintFocus(parent, Black, o, path.up, p);
        ghost var p1 := Paint(p, Black);
        OnUp(o, nodes, root, path.up, p1);
        OnRight(o, nodes, root, up, Node(p1, g, gc, u));
        PaintFocus(uncle, Black, o, RightOf(up, p1, g, gc), u);
        ghost var u1 := Paint(u, Black);
        OnUp(o, nodes, root, RightOf(up, p1, g, gc), u1);
        PaintFocus(grandparent, Red, o, up, Node(p1, g, gc, u1));
        next, done := grandparent, false;
        path', t' := up, InsertRecolor(path, t);
      } else {
        FixupInsertLeftLast(node, parent, grandparent, o, path, t);
        OnTop(o, nodes, root, up, InsertRotate(path, t));
        next, done := node, true;
        path', t' := Top, Plug(up, InsertRotate(path, t));
      }
    }

    /** The rotations that end the loop, one or two of them. */
    method FixupInsertLeftLast(node: Ptr, parent: Ptr, grandparent: Ptr, ghost o: Origin, ghost path: Path,
                               ghost t: Tree)
      requires !path.Top? && path.up.LeftOf? && t.Node? && path.color == Red
      requires On(o, nodes, root, path.up, Fill(path, t))
      requires node == t.id && parent == path.id && grandparent == path.up.id
      modifies `root, `nodes
      ensures On(o, nodes, root, path.up.up, InsertRotate(path, t))
    {
      hide On;
      ghost var up, u, g, gc := path.up.up, Uncle(path), path.up.id, path.up.color;
      ghost var p := Fill(path, t);
      var top := parent;
      OnChildren(o, nodes, root, path.up, p);
      if node == nodes[parent].right {
        RotateLeft(parent, o, path.up, p);
        p := RotatedLeft(p);
        OnLeft(o, nodes, root, path.up, p);
        OnReads(o, nodes, root, LeftOf(path.up, p.id, p.color, p.right), p.left);
        top := nodes[parent].parent;
      }
      PaintFocus(top, Black, o, path.up, p);
      OnUp(o, nodes, root, path.up, Paint(p, Black));
      ghost var g0 := Node(Paint(p, Black), g, gc, u);
      PaintFocus(grandparent, Red, o, up, g0);
      RotateRight(grandparent, o, up, Paint(g0, Red));
    }

    /** One iteration of the insert fix-up when the parent is a right child. */
    method FixupInsertRight(node: Ptr, parent: Ptr, grandparent: Ptr, ghost o: Origin, ghost path: Path, ghost t: Tree)
      returns (next: Ptr, done: bool, ghost path': Path, ghost t': Tree)
      requires On(o, nodes, root, path, t) && t.Node? && ParentColor(path) == Red && path.up.RightOf?
      requires node == t.id && parent == path.id && grandparent == path.up.id
      modifies `root, `nodes
      ensures (path', t') == InsertStep(path, t)
      ensures On(o, nodes, root, path', t')
      ensures if done then path'.Top? else next == RootId(t')
    {
      hide On, Plug;
      ghost var up, u, g, gc := path.up.up, Uncle(path), path.up.id, path.up.color;
      ghost var p := Fill(path, t);
      OnUp(o, nodes, root, path, t);
      OnUp(o, nodes, root, path.up, p);
      OnChildren(o, nodes, root, up, Fill(path.up, p));
      var uncle := nodes[grandparent].left;
      if nodes[uncle].color == Red {
        PaintFocus(parent, Black, o, path.up, p);
        ghost var p1 := Paint(p, Black);
        OnUp(o, nodes, root, path.up, p1);
        OnLeft(o, nodes, root, up, Node(u, g, gc, p1));
        PaintFocus(uncle, Black, o, LeftOf(up, g, gc, p1), u);
        ghost var u1 := Paint(u, Black);
        OnUp(o, nodes, root, LeftOf(up, g, gc, p1), u1);
        PaintFocus(grandparent, Red, o, up, Node(u1, g, gc, p1));
        next, done := grandparent, false;
        path', t' := up, InsertRecolor(path, t);
      } else {
        FixupInsertRightLast(node, parent, grandparent, o, path, t);
        OnTop(o, nodes, root, up, InsertRotate(path, t));
        next, done := node, true;
        path', t' := Top, Plug(up, InsertRotate(path, t));
      }
    }

    /** The rotations that end the loop, one or two of them. */
    method FixupInsertRightLast(node: Ptr, parent: Ptr, grandparent: Ptr, ghost o: Origin, ghost path: Path,
                                ghost t: Tree)
      requires !path.Top? && path.up.RightOf? && t.Node? && path.color == Red
      requires On(o, nodes, root, path.up, Fill(path, t))
      requires node == t.id && parent == path.id && grandparent == path.up.id
      modifies `root, `nodes
      ensures On(o, nodes, root, path.up.up, InsertRotate(path, t))
    {
      hide On;
      ghost var up, u, g, gc := path.up.up, Uncle(path), path.up.id, path.up.color;
      ghost var p := Fill(path, t);
      var top := parent;
      OnChildren(o, nodes, root, path.up, p);
      if node == nodes[parent].left {
        RotateRight(parent, o, path.up, p);
        p := RotatedRight(p);
        OnRight(o, nodes, root, path.up, p);
        OnReads(o, nodes, root, RightOf(path.up, p.left, p.id, p.color), p.right);
        top := nodes[parent].parent;
      }
      PaintFocus(top, Black, o, path.up, p);
      OnUp(o, nodes, root, path.up, Paint(p, Black));
      ghost var g0 := Node(u, g, gc, Paint(p, Black));
      PaintFocus(grandparent, Red, o, up, g0);
      RotateLeft(grandparent, o, up, Paint(g0, Red));
    }

    method FixupInsert(start: Ptr, ghost path0: Path, ghost t0: Tree)
      requires At(nodes, root, path0, t0) && InsertInv(path0, t0) && start == t0.id
      modifies `root, `nodes
      ensures At(nodes, root, Top, InsertFix(path0, t0))
      ensures AllIds(Top, InsertFix(path0, t0)) == AllIds(path0, t0)
      ensures Within(old(nodes), nodes, AllIds(path0, t0))
    {
      ghost var o := Origin(nodes, AllIds(path0, t0));
      FixupInsertLoop(start, o, path0, t0);
    }

    method FixupInsertLoop(start: Ptr, ghost o: Origin, ghost path0: Path, ghost t0: Tree)
      requires On(o, nodes, root, path0, t0) && InsertInv(path0, t0) && start == RootId(t0)
      modifies `root, `nodes
      ensures On(o, nodes, root, Top, InsertFix(path0, t0))
    {
      hide On, InsertInv, InsertFix, InsertStep, Plug, Depth;
      var node := start;
      ghost var path, t := path0, t0;
      OnReads(o, nodes, root, path, t);
      InsertInvReads(path, t);
      while nodes[nodes[node].parent].color == Red
        invariant On(o, nodes, root, path, t) && InsertInv(path, t) && node == RootId(t) && t.Node?
        invariant node < |nodes| && nodes[node].parent == ParentId(path) < |nodes|
        invariant nodes[ParentId(path)].color == ParentColor(path)
        invariant InsertFix(path, t) == InsertFix(path0, t0)
        decreases Depth(path)
      {
        InsertStepInv(path, t);
        InsertFixStep(path, t);
        var done;
        node, done, path, t := FixupInsertOnce(node, o, path, t);
        if done { break; }
        InsertInvReads(path, t);
        OnReads(o, nodes, root, path, t);
      }
      InsertFixDone(path, t);
      OnTop(o, nodes, root, path, t);
      OnRoot(o, nodes, root, Top, Plug(path, t));
      PaintFocus(root, Black, o, Top, Plug(path, t));
    }

    /** One iteration of the insert fix-up, on either side. */
    method FixupInsertOnce(node: Ptr, ghost o: Origin, ghost path: Path, ghost t: Tree)
      returns (next: Ptr, done: bool, ghost path': Path, ghost t': Tree)
      requires On(o, nodes, root, path, t) && t.Node? && ParentColor(path) == Red && !path.up.Top? && node == t.id
      requires node < |nodes| && nodes[node].parent == ParentId(path)
      modifies `root, `nodes
      ensures (path', t') == InsertStep(path, t)
      ensures On(o, nodes, root, path', t')
      ensures if done then path'.Top? else next == RootId(t')
    {
      hide On, InsertStep, Plug;
      var parent := nodes[node].parent;
      OnUp(o, nodes, root, path, t);
      OnReads(o, nodes, root, path.up, Fill(path, t));
      var grandparent := nodes[parent].parent;
      OnUp(o, nodes, root, path.up, Fill(path, t));
      OnChildren(o, nodes, root, path.up.up, Fill(path.up, Fill(path, t)));
      assert grandparent != NIL;
      if parent == nodes[grandparent].left {
        next, done, path', t' := FixupInsertLeft(node, parent, grandparent, o, path, t);
      } else {
        next, done, path', t' := FixupInsertRight(node, parent, grandparent, o, path, t);
      }
    }

    lemma InsertInvReads(path: Path, t: Tree)
      requires InsertInv(path, t)
      ensures t.Node?
    {}

    /** A black sibling with a red inner left child: the child is painted black, the sibling red and turned below it. */
    method TurnSiblingRight(sib: Ptr, ghost o: Origin, ghost path: Path, ghost s: Tree)
      requires On(o, nodes, root, path, s) && s.Node? && s.left.Node? && sib == s.id
      modifies `root, `nodes
      ensures On(o, nodes, root, path, Node(s.left.left, s.left.id, Black, Node(s.left.right, s.id, Red, s.right)))
    {
      hide On, Plug;
      ghost var n, down := s.left, LeftOf(path, s.id, s.color, s.right);
      OnChildren(o, nodes, root, path, s);
      OnLeft(o, nodes, root, path, s);
      PaintFocus(nodes[sib].left, Black, o, down, n);
      OnUp(o, nodes, root, down, Paint(n, Black));
      PaintFocus(sib, Red, o, path, Node(Paint(n, Black), s.id, s.color, s.right));
      RotateRight(sib, o, path, Node(Paint(n, Black), s.id, Red, s.right));
    }

    /** The delete fix-up's iteration for a left child, once its sibling is black. */
    method FixupDeleteLeftBlack(parent: Ptr, sibling: Ptr, ghost o: Origin, ghost path: Path, ghost t: Tree)
      returns (next: Ptr, ghost path': Path, ghost t': Tree)
      requires path.LeftOf? && Sibling(path).Node? && parent == path.id && sibling == Sibling(path).id
      requires On(o, nodes, root, path.up, Fill(path, t))
      modifies `root, `nodes
      ensures (path', t') == DeleteStepBlack(path, t)
      ensures On(o, nodes, root, path', t') && next == RootId(t')
      ensures next != NIL
    {
      hide On, Plug;
      ghost var up, p, c, s := path.up, path.id, path.color, Sibling(path);
      OnChildren(o, nodes, root, up, Fill(path, t));
      OnRight(o, nodes, root, up, Fill(path, t));
      OnChildren(o, nodes, root, RightOf(up, t, p, c), s);
      if nodes[nodes[sibling].left].color == Black && nodes[nodes[sibling].right].color == Black {
        PaintFocus(sibling, Red, o, RightOf(up, t, p, c), s);
        OnUp(o, nodes, root, RightOf(up, t, p, c), Paint(s, Red));
        next, path', t' := parent, up, Node(t, p, c, Paint(s, Red));
      } else {
        var sib := sibling;
        if nodes[nodes[sib].right].color == Black {
          TurnSiblingRight(sib, o, RightOf(up, t, p, c), s);
          s := Node(s.left.left, s.left.id, Black, Node(s.left.right, s.id, Red, s.right));
          OnUp(o, nodes, root, RightOf(up, t, p, c), s);
          OnChildren(o, nodes, root, up, Node(t, p, c, s));
          sib := nodes[parent].right;
        }
        FixupDeleteLeftLast(parent, sib, o, up, Node(t, p, c, s));
        OnTop(o, nodes, root, up, DeleteRotate(path, t));
        next, path', t' := root, Top, Plug(up, DeleteRotate(path, t));
        PlugIsNode(up, DeleteRotate(path, t));
        OnRoot(o, nodes, root, Top, t');
        OnReads(o, nodes, root, Top, t');
      }
    }

    /** The last rotation: the sibling takes the parent's place and colour. */
    method FixupDeleteLeftLast(parent: Ptr, sibling: Ptr, ghost o: Origin, ghost up: Path, ghost f: Tree)
      requires On(o, nodes, root, up, f) && f.Node? && f.right.Node? && f.id == parent && f.right.id == sibling
      modifies `root, `nodes
      ensures On(o, nodes, root, up,
                 Node(Node(f.left, f.id, Black, f.right.left), f.right.id, f.color, Paint(f.right.right, Black)))
    {
      hide On;
      ghost var t, p, c, s := f.left, f.id, f.color, f.right;
      OnReads(o, nodes, root, up, f);
      OnRight(o, nodes, root, up, f);
      PaintFocus(sibling, nodes[parent].color, o, RightOf(up, t, p, c), s);
      OnUp(o, nodes, root, RightOf(up, t, p, c), Paint(s, c));
      PaintFocus(parent, Black, o, up, Node(t, p, c, Paint(s, c)));
      OnRight(o, nodes, root, up, Node(t, p, Black, Paint(s, c)));
      OnChildren(o, nodes, root, RightOf(up, t, p, Black), Paint(s, c));
      OnRight(o, nodes, root, RightOf(up, t, p, Black), Paint(s, c));
      PaintFocus(nodes[sibling].right, Black, o, RightOf(RightOf(up, t, p, Black), s.left, s.id, c), s.right);
      OnUp(o, nodes, root, RightOf(RightOf(up, t, p, Black), s.left, s.id, c), Paint(s.right, Black));
      ghost var s1 := Node(s.left, s.id, c, Paint(s.right, Black));
      OnUp(o, nodes, root, RightOf(up, t, p, Black), s1);
      RotateLeft(parent, o, up, Node(t, p, Black, s1));
    }

    /** One iteration of the delete fix-up when the focus is a left child. */
    method FixupDeleteLeft(parent: Ptr, ghost o: Origin, ghost path: Path, ghost t: Tree)
      returns (next: Ptr, ghost path': Path, ghost t': Tree)
      requires path.LeftOf? && Sibling(path).Node? && parent == path.id
      requires ColorOf(Sibling(path)) == Red ==> Sibling(path).left.Node?
      requires On(o, nodes, root, path, t)
      modifies `root, `nodes
      ensures (path', t') == DeleteStep(path, t)
      ensures On(o, nodes, root, path', t') && next == RootId(t')
      ensures next != NIL
    {
      hide On, Plug, DeleteStepBlack;
      ghost var up, p, c, s := path.up, path.id, path.color, Sibling(path);
      OnUp(o, nodes, root, path, t);
      OnChildren(o, nodes, root, up, Fill(path, t));
      var sibling := nodes[parent].right;
      if nodes[sibling].color == Red {
        OnRight(o, nodes, root, up, Fill(path, t));
        PaintFocus(sibling, Black, o, RightOf(up, t, p, c), s);
        OnUp(o, nodes, root, RightOf(up, t, p, c), Paint(s, Black));
        PaintFocus(parent, Red, o, up, Node(t, p, c, Paint(s, Black)));
        RotateLeft(parent, o, up, Node(t, p, Red, Paint(s, Black)));
        OnLeft(o, nodes, root, up, Node(Node(t, p, Red, s.left), s.id, Black, s.right));
        ghost var lifted := LiftRedSibling(path);
        OnChildren(o, nodes, root, lifted.up, Fill(lifted, t));
        sibling := nodes[parent].right;
        next, path', t' := FixupDeleteLeftBlack(parent, sibling, o, lifted, t);
      } else {
        next, path', t' := FixupDeleteLeftBlack(parent, sibling, o, path, t);
      }
    }

    /** The mirror image: a red inner right child. */
    method TurnSiblingLeft(sib: Ptr, ghost o: Origin, ghost path: Path, ghost s: Tree)
      requires On(o, nodes, root, path, s) && s.Node? && s.right.Node? && sib == s.id
      modifies `root, `nodes
      ensures On(o, nodes, root, path, Node(Node(s.left, s.id, Red, s.right.left), s.right.id, Black, s.right.right))
    {
      hide On, Plug;
      ghost var n, down := s.right, RightOf(path, s.left, s.id, s.color);
      OnChildren(o, nodes, root, path, s);
      OnRight(o, nodes, root, path, s);
      PaintFocus(nodes[sib].right, Black, o, down, n);
      OnUp(o, nodes, root, down, Paint(n, Black));
      PaintFocus(sib, Red, o, path, Node(s.left, s.id, s.color, Paint(n, Black)));
      RotateLeft(sib, o, path, Node(s.left, s.id, Red, Paint(n, Black)));
    }

    /** The delete fix-up's iteration for a right child, once its sibling is black. */
    method FixupDeleteRightBlack(parent: Ptr, sibling: Ptr, ghost o: Origin, ghost path: Path, ghost t: Tree)
      returns (next: Ptr, ghost path': Path, ghost t': Tree)
      requires path.RightOf? && Sibling(path).Node? && parent == path.id && sibling == Sibling(path).id
      requires On(o, nodes, root, path.up, Fill(path, t))
      modifies `root, `nodes
      ensures (path', t') == DeleteStepBlack(path, t)
      ensures On(o, nodes, root, path', t') && next == RootId(t')
      ensures next != NIL
    {
      hide On, Plug;
      ghost var up, p, c, s := path.up, path.id, path.color, Sibling(path);
      OnChildren(o, nodes, root, up, Fill(path, t));
      OnLeft(o, nodes, root, up, Fill(path, t));
      OnChildren(o, nodes, root, LeftOf(up, p, c, t), s);
      if nodes[nodes[sibling].left].color == Black && nodes[nodes[sibling].right].color == Black {
        PaintFocus(sibling, Red, o, LeftOf(up, p, c, t), s);
        OnUp(o, nodes, root, LeftOf(up, p, c, t), Paint(s, Red));
        next, path', t' := parent, up, Node(Paint(s, Red), p, c, t);
      } else {
        var sib := sibling;
        if nodes[nodes[sib].left].color == Black {
          TurnSiblingLeft(sib, o, LeftOf(up, p, c, t), s);
          s := Node(Node(s.left, s.id, Red, s.right.left), s.right.id, Black, s.right.right);
          OnUp(o, nodes, root, LeftOf(up, p, c, t), s);
          OnChildren(o, nodes, root, up, Node(s, p, c, t));
          sib := nodes[parent].left;
        }
        FixupDeleteRightLast(parent, sib, o, up, Node(s, p, c, t));
        OnTop(o, nodes, root, up, DeleteRotate(path, t));
        next, path', t' := root, Top, Plug(up, DeleteRotate(path, t));
        PlugIsNode(up, DeleteRotate(path, t));
        OnRoot(o, nodes, root, Top, t');
        OnReads(o, nodes, root, Top, t');
      }
    }

    /** The last rotation: the sibling takes the parent's place and colour. */
    method FixupDeleteRightLast(parent: Ptr, sibling: Ptr, ghost o: Origin, ghost up: Path, ghost f: Tree)
      requires On(o, nodes, root, up, f) && f.Node? && f.left.Node? && f.id == parent && f.left.id == sibling
      modifies `root, `nodes
      ensures On(o, nodes, root, up,
                 Node(Paint(f.left.left, Black), f.left.id, f.color, Node(f.left.right, f.id, Black, f.right)))
    {
      hide On;
      ghost var t, p, c, s := f.right, f.id, f.color, f.left;
      OnReads(o, nodes, root, up, f);
      OnLeft(o, nodes, root, up, f);
      PaintFocus(sibling, nodes[parent].color, o, LeftOf(up, p, c, t), s);
      OnUp(o, nodes, root, LeftOf(up, p, c, t), Paint(s, c));
      PaintFocus(parent, Black, o, up, Node(Paint(s, c), p, c, t));
      OnLeft(o, nodes, root, up, Node(Paint(s, c), p, Black, t));
      OnChildren(o, nodes, root, LeftOf(up, p, Black, t), Paint(s, c));
      OnLeft(o, nodes, root, LeftOf(up, p, Black, t), Paint(s, c));
      PaintFocus(nodes[sibling].left, Black, o, LeftOf(LeftOf(up, p, Black, t), s.id, c, s.right), s.left);
      OnUp(o, nodes, root, LeftOf(LeftOf(up, p, Black, t), s.id, c, s.right), Paint(s.left, Black));
      ghost var s1 := Node(Paint(s.left, Black), s.id, c, s.right);
      OnUp(o, nodes, root, LeftOf(up, p, Black, t), s1);
      RotateRight(parent, o, up, Node(s1, p, Black, t));
    }

    /** One iteration of the delete fix-up when the focus is a right child. */
    method FixupDeleteRight(parent: Ptr, ghost o: Origin, ghost path: Path, ghost t: Tree)
      returns (next: Ptr, ghost path': Path, ghost t': Tree)
      requires path.RightOf? && Sibling(path).Node? && parent == path.id
      requires ColorOf(Sibling(path)) == Red ==> Sibling(path).right.Node?
      requires On(o, nodes, root, path, t)
      modifies `root, `nodes
      ensures (path', t') == DeleteStep(path, t)
      ensures On(o, nodes, root, path', t') && next == RootId(t')
      ensures next != NIL
    {
      hide On, Plug, DeleteStepBlack;
      ghost var up, p, c, s := path.up, path.id, path.color, Sibling(path);
      OnUp(o, nodes, root, path, t);
      OnChildren(o, nodes, root, up, Fill(path, t));
      var sibling := nodes[parent].left;
      if nodes[sibling].color == Red {
        OnLeft(o, nodes, root, up, Fill(path, t));
        PaintFocus(sibling, Black, o, LeftOf(up, p, c, t), s);
        OnUp(o, nodes, root, LeftOf(up, p, c, t), Paint(s, Black));
        PaintFocus(parent, Red, o, up, Node(Paint(s, Black), p, c, t));
        RotateRight(parent, o, up, Node(Paint(s, Black), p, Red, t));
        OnRight(o, nodes, root, up, Node(s.left, s.id, Black, Node(s.right, p, Red, t)));
        ghost var lifted := LiftRedSibling(path);
        OnChildren(o, nodes, root, lifted.up, Fill(lifted, t));
        sibling := nodes[parent].left;
        next, path', t' := FixupDeleteRightBlack(parent, sibling, o, lifted, t);
      } else {
        next, path', t' := FixupDeleteRightBlack(parent, sibling, o, path, t);
      }
    }

    /**
      The delete fix-up.  While the focus is the sentinel, the sentinel's parent word is
      the only way up, so it must name the right node: that is the last invariant.
    */
    method FixupDelete(start: Ptr, ghost o: Origin, ghost path0: Path, ghost t0: Tree)
      requires On(o, nodes, root, path0, t0) && DeleteInv(path0, t0) && start == RootId(t0)
      requires nodes[start].parent == ParentId(path0)
      modifies `root, `nodes
      ensures On(o, nodes, root, Top, DeleteFix(path0, t0))
    {
      hide On, DeleteInv, DeleteFix, DeleteStep, Plug, DeleteMeasure;
      var node := start;
      ghost var path, t := path0, t0;
      OnReads(o, nodes, root, path, t);
      OnRoot(o, nodes, root, path, t);
      while node != root && nodes[node].color == Black
        invariant On(o, nodes, root, path, t) && DeleteInv(path, t) && node == RootId(t) < |nodes|
        invariant DeleteFix(path, t) == DeleteFix(path0, t0)
        invariant node == root ==> path.Top?
        invariant nodes[node].color == ColorOf(t)
        invariant nodes[node].parent == ParentId(path)
        decreases DeleteMeasure(path, t)
      {
        OnRoot(o, nodes, root, path, t);
        SiblingIsNode(path, t);
        DeleteStepInv(path, t);
        DeleteFixStep(path, t);
        var parent := nodes[node].parent;
        OnUp(o, nodes, root, path, t);
        OnChildren(o, nodes, root, path.up, Fill(path, t));
        if node == nodes[parent].left {
          node, path, t := FixupDeleteLeft(parent, o, path, t);
        } else {
          node, path, t := FixupDeleteRight(parent, o, path, t);
        }
        OnReads(o, nodes, root, path, t);
        OnRoot(o, nodes, root, path, t);
      }
      DeleteFixDone(path, t);
      PaintFocus(node, Black, o, path, t);
      OnTop(o, nodes, root, path, Paint(t, Black));
    }

    method Insert(node: Ptr, parent: Ptr, parentCmp: int, ghost path: Path)
      requires At(nodes, root, path, Leaf) && IsRedBlack(Plug(path, Leaf))
      requires 0 < node < |nodes| && node !in PathIds(path)
      requires parent == ParentId(path) && (path.LeftOf? ==> parentCmp == -1) && (path.RightOf? ==> parentCmp == 1)
      modifies `root, `nodes
      ensures At(nodes, root, Top, InsertFix(path, NewNode(node)))
      ensures AllIds(Top, InsertFix(path, NewNode(node))) == PathIds(path) + {node}
      ensures Within(old(nodes), nodes, PathIds(path) + {node})
    {
      hide InsertFix, Plug, At, AllIds;
      SlotReads(nodes, root, path);
      SetLeft(node, NIL);
      SetRight(node, NIL);
      SetParent(node, parent);
      SetColor(node, Red);
      if parent == NIL {
        root := node;
      } else if parentCmp == -1 {
        SetLeft(parent, node);
      } else {
        SetRight(parent, node);
      }
      InsertLinked(old(nodes), old(root), nodes, root, path, node);
      NewNodeInv(path, node);
      ghost var linked := nodes;
      FixupInsert(node, path, NewNode(node));
      assert Within(old(nodes), linked, PathIds(path) + {node});
    }

    method Transplant(old_: Ptr, new_: Ptr)
      requires 0 < old_ < |nodes| && nodes[old_].parent < |nodes| && new_ < |nodes|
      requires nodes[old_].parent != NIL ==> nodes[old_].parent != new_
      modifies `root, `nodes
      ensures Transplanted(old(nodes), old(root), nodes, root, old_, new_)
    {
      var oldParent := nodes[old_].parent;
      ReplaceChild(oldParent, old_, new_);
      SetParent(new_, oldParent);
    }

    method LocalMinimum(start: Ptr, ghost path: Path, ghost t: Tree) returns (r: Ptr)
      requires At(nodes, root, path, t) && t.Node? && start == t.id
      ensures r == MinNode(t).id
    {
      r := start;
      ghost var p, u := path, t;
      while nodes[r].left != NIL
        invariant At(nodes, root, p, u) && u.Node? && r == u.id && MinNode(u) == MinNode(t)
        invariant Distinct(u.left)
        decreases u
      {
        FocusLeft(nodes, root, p, u);
        p, u := LeftOf(p, u.id, u.color, u.right), u.left;
        r := nodes[r].left;
      }
    }

    /** The part both cases share: `y` moves to the node's place, left subtree and colour. */
    method TakePlace(node: Ptr, y: Ptr)
      requires 0 < node < |nodes| && 0 < y < |nodes| && 0 < nodes[node].left < |nodes| && nodes[node].parent < |nodes|
      requires y != nodes[node].left && node !in {y, nodes[node].left, nodes[node].parent}
      requires nodes[node].parent != NIL ==> nodes[node].parent !in {y, nodes[node].left}
      modifies `root, `nodes
      ensures var m, n := old(nodes), old(nodes)[node];
              && |nodes| == |m| && ChildReplaced(m, old(root), nodes, root, n.parent, node, y)
              && nodes[y] == m[y].(parent := n.parent, color := n.color, left := n.left)
              && nodes[n.left] == m[n.left].(parent := y)
              && forall q :: 0 <= q < |m| && q !in {y, n.left} && (q == NIL || q != n.parent) ==> nodes[q] == m[q]
    {
      Transplant(node, y);
      SetLeft(y, nodes[node].left);
      SetParent(nodes[y].left, y);
      SetColor(y, nodes[node].color);
    }

    /** The successor leaves its place below and takes the node's. */
    method TakePlaceFar(node: Ptr, y: Ptr)
      requires 0 < node < |nodes| && PlaceReady(nodes, node, y, nodes[node].left, nodes[node].right)
      modifies `root, `nodes
      ensures var m := old(nodes); PlaceTaken(m, old(root), nodes, root, node, y, m[node].left, m[node].right)
    {
      SetRight(y, nodes[node].right);
      SetParent(nodes[y].right, y);
      TakePlace(node, y);
    }

    /** The successor is the right child and moves up, keeping its own right subtree. */
    method TakePlaceNear(node: Ptr, y: Ptr)
      requires 0 < node < |nodes| && y < |nodes| && PlaceReady(nodes, node, y, nodes[node].left, nodes[y].right)
      modifies `root, `nodes
      ensures var m := old(nodes); PlaceTaken(m, old(root), nodes, root, node, y, m[node].left, m[y].right)
    {
      SetParent(nodes[y].right, y);
      TakePlace(node, y);
    }

    /** A node with two children: its in-order successor is unhooked and takes its place. */
    method SpliceSuccessor(node: Ptr, ghost path: Path, ghost t: Tree) returns (replacement: Ptr, deleted: Color)
      requires At(nodes, root, path, t) && t.Node? && t.left.Node? && t.right.Node? && node == t.id
      modifies `root, `nodes
      ensures var (path', t', c) := Unlink(path, t);
              && At(nodes, root, path', t') && replacement == RootId(t') < |nodes| && deleted == c
              && nodes[replacement].parent == ParentId(path')
              && AllIds(path', t') == AllIds(path, t) - {node}
      ensures node < |nodes| == |old(nodes)| && nodes[node] == old(nodes)[node]
      ensures Within(old(nodes), nodes, AllIds(path, t) - {node} + {NIL})
    {
      hide At, AllIds, Within, PlaceTaken, PlaceReady, Transplanted, MinPath, RemoveMin;
      ChildReads(nodes, root, path, t);
      FocusRight(nodes, root, path, t);
      var y := LocalMinimum(nodes[node].right, RightOf(path, t.left, t.id, t.color), t.right);
      SuccessorPlace(nodes, root, path, t);
      if y == nodes[node].right {
        NearReady(nodes, root, path, t);
        deleted := nodes[y].color;
        replacement := nodes[y].right;
        TakePlaceNear(node, y);
        NearDone(old(nodes), old(root), nodes, root, path, t);
        MinPathHere(RightOf(path, t.left, y, t.color), t.right);
      } else {
        FarReady(nodes, root, path, t);
        deleted := nodes[y].color;
        replacement := nodes[y].right;
        Transplant(y, nodes[y].right);
        FarUnhooked(old(nodes), old(root), nodes, root, path, t);
        ghost var m1, root1, t1 := nodes, root, t.(right := RemoveMin(t.right));
        TakePlaceFar(node, y);
        FarDone(m1, root1, nodes, root, path, t1, t.right, y);
        WithinTwo(old(nodes), m1, nodes, path, t, t1, y);
      }
    }

    method LocalMaximum(start: Ptr, ghost path: Path, ghost t: Tree) returns (r: Ptr)
      requires At(nodes, root, path, t) && t.Node? && start == t.id
      ensures r == MaxNode(t).id
    {
      r := start;
      ghost var p, u := path, t;
      while nodes[r].right != NIL
        invariant At(nodes, root, p, u) && u.Node? && r == u.id && MaxNode(u) == MaxNode(t)
        invariant Distinct(u.right)
        decreases u
      {
        FocusRight(nodes, root, p, u);
        p, u := RightOf(p, u.left, u.id, u.color), u.right;
        r := nodes[r].right;
      }
    }

    /** Unlinks a node and restores the tree; the node's own record is left as it was. */
    method Delete(node: Ptr, ghost path: Path, ghost t: Tree)
      requires At(nodes, root, path, t) && t.Node? && node == t.id && IsRedBlack(Plug(path, t))
      modifies `root, `nodes
      ensures At(nodes, root, Top, Deleted(path, t)) && IsRedBlack(Deleted(path, t))
      ensures AllIds(Top, Deleted(path, t)) == AllIds(path, t) - {node}
      ensures node < |nodes| == |old(nodes)| && nodes[node] == old(nodes)[node]
      ensures Within(old(nodes), nodes, AllIds(path, t) - {node} + {NIL})
    {
      hide At, On, AllIds, Within, IsRedBlack, DeleteFix, DeleteInv, Plug, MinPath;
      ChildReads(nodes, root, path, t);
      UnlinkInv(path, t);
      DeletedCorrect(path, t);
      ghost var (path', t', c) := Unlink(path, t);
      var replacement;
      var deleted := nodes[node].color;
      if nodes[node].left == NIL {
        replacement := nodes[node].right;
        OneChildReady(nodes, root, path, t);
        Transplant(node, nodes[node].right);
        OneChildDone(old(nodes), old(root), nodes, root, path, t, t.right);
      } else if nodes[node].right == NIL {
        replacement := nodes[node].left;
        OneChildReady(nodes, root, path, t);
        Transplant(node, nodes[node].left);
        OneChildDone(old(nodes), old(root), nodes, root, path, t, t.left);
      } else {
        replacement, deleted := SpliceSuccessor(node, path, t);
      }
      ghost var m1 := nodes;
      if deleted == Black {
        ghost var o := Origin(nodes, AllIds(path', t'));
        OnStart(nodes, root, path', t');
        FixupDelete(replacement, o, path', t');
        OnEnd(o, nodes, root, Top, DeleteFix(path', t'));
        WithinDelete(old(nodes), m1, nodes, AllIds(path, t), AllIds(path', t'), node);
      } else {
        FocusTop(nodes, root, path', t');
      }
    }

    // ---------- Free list ----------

    method FreeListAlloc() returns (obj: Ptr)
      requires FreeAt(nodes, freeHead, free) && freeCount == |free|
      modifies `freeHead, `freeCount, `free
      ensures FreeAt(nodes, freeHead, free) && freeCount == |free|
      ensures |old(free)| == 0 ==> obj == NIL && free == old(free)
      ensures |old(free)| > 0 ==> obj == old(free)[0] && free == old(free)[1..]
    {
      if freeCount == 0 { return NIL; }
      obj := freeHead;
      freeHead := nodes[obj].parent;
      freeCount := freeCount - 1;
      assert nodes[obj].parent == NextIn(free, 0);
      assert forall i :: 0 <= i < |free| - 1 ==> free[1..][i] == free[i + 1];
      assert forall i :: 0 <= i < |free| - 1 ==> NextIn(free[1..], i) == NextIn(free, i + 1);
      free := free[1..];
    }

    /** Gives a block back; nothing happens when there is none to give. */
    method FreeListFree(p: Ptr)
      requires FreeAt(nodes, freeHead, free) && freeCount == |free| && p < |nodes| && p !in free
      modifies `nodes, `freeHead, `freeCount, `free
      ensures FreeAt(nodes, freeHead, free) && freeCount == |free|
      ensures p == NIL ==> free == old(free) && nodes == old(nodes)
      ensures p != NIL ==>
                && free == [p] + old(free)
                && nodes == old(nodes)[p := old(nodes)[p].(parent := old(freeHead), color := Red)]
    {
      if p == NIL { return; }
      FreePush(nodes, freeHead, free, p);
      hide FreeAt;
      SetParent(p, freeHead);
      SetColor(p, Red);
      freeHead := p;
      freeCount := freeCount + 1;
      free := [p] + free;
    }

    // ---------- Search ----------

    /**
      Walks down from the root.  Ends at the node with the key, or at the empty slot whose
      neighbours enclose it; compares at most once per level.
    */
    method Find(key: K)
      returns (node: Ptr, parent: Ptr, parentCmp: int, ghost path: Path, ghost t: Tree, ghost compared: nat)
      requires Linked() && Keyed()
      ensures At(nodes, root, path, t) && Plug(path, t) == tree && node == RootId(t)
      ensures node != NIL ==> t.Node? && node in vals && CompareTo(ord, key, vals[node]) == 0
      ensures node == NIL ==> t.Leaf? && AllBelow(ord, vals, Before(path), key) && AllAbove(ord, vals, After(path), key)
      ensures parent == ParentId(path) && (path.LeftOf? ==> parentCmp == -1) && (path.RightOf? ==> parentCmp == 1)
      ensures path.Top? ==> parentCmp == 0
      ensures compared <= Height(tree) && Pow2(compared) <= (Size(tree) + 1) * (Size(tree) + 1)
      ensures node != NIL ==> node in InOrder(tree) && Matches(node, key)
      ensures node == NIL ==> forall p :: p in InOrder(tree) ==> !Matches(p, key)
      ensures node == NIL ==>
                forall other :: Plug(other, Leaf) == tree && SlotFor(ord, vals, other, key) ==> other == path
    {
      hide At, IsRedBlack, Sorted, Alike, AllBelow, AllAbove, InOrder, Before, After, Total, Pow2;
      node, parent, parentCmp := root, NIL, 0;
      path, t, compared := Top, tree, 0;
      EmptyBounds(ord, vals, key);
      TopReads(nodes, root, tree);
      while node != NIL
        invariant At(nodes, root, path, t) && Plug(path, t) == tree && node == RootId(t) && (node == NIL ==> t.Leaf?)
        invariant AllBelow(ord, vals, Before(path), key) && AllAbove(ord, vals, After(path), key)
        invariant parent == ParentId(path) && (path.LeftOf? ==> parentCmp == -1) && (path.RightOf? ==> parentCmp == 1)
        invariant path.Top? ==> parentCmp == 0
        invariant compared + Height(t) <= Height(tree)
        decreases t
      {
        ChildReads(nodes, root, path, t);
        SearchStep(ord, vals, path, t, key);
        var cmp := CompareTo(ord, key, vals[node]);
        compared := compared + 1;
        if cmp == 0 { break; }
        parent, parentCmp := node, cmp;
        if cmp < 0 {
          FocusLeft(nodes, root, path, t);
          SlotBounds(path, t);
          path, t := LeftOf(path, t.id, t.color, t.right), t.left;
          node := nodes[node].left;
        } else {
          FocusRight(nodes, root, path, t);
          SlotBounds(path, t);
          path, t := RightOf(path, t.left, t.id, t.color), t.right;
          node := nodes[node].right;
        }
      }
      HeightBound(tree);
      Pow2Monotone(compared, Height(tree));
      FoundInOrder(ord, vals, path, t, key);
      if node == NIL {
        forall other | Plug(other, Leaf) == tree && SlotFor(ord, vals, other, key) ensures other == path {
          SlotUniqueByKey(ord, vals, other, path, key);
        }
      }
    }

    predicate Matches(p: Ptr, key: K)
      reads `vals
    {
      p != NIL && p in vals && CompareTo(ord, key, vals[p]) == 0
    }

    /** The three shortcuts, in the order they are tried. */
    function CheckCache(key: K): (hit: Ptr)
      requires previous != NIL ==> previous in vals
      requires largest != NIL ==> largest in vals
      requires smallest != NIL ==> smallest in vals
      reads `previous, `largest, `smallest, `vals
      ensures hit != NIL ==> Matches(hit, key) && hit in {previous, largest, smallest}
      ensures Matches(previous, key) ==> hit == previous
      ensures !Matches(previous, key) && Matches(largest, key) ==> hit == largest
      ensures !Matches(previous, key) && !Matches(largest, key) && Matches(smallest, key) ==> hit == smallest
      ensures hit == NIL <==> !Matches(previous, key) && !Matches(largest, key) && !Matches(smallest, key)
    {
      if previous != NIL && CompareTo(ord, key, vals[previous]) == 0 then previous
      else if largest != NIL && CompareTo(ord, key, vals[largest]) == 0 then largest
      else if smallest != NIL && CompareTo(ord, key, vals[smallest]) == 0 then smallest
      else NIL
    }

    // ---------- Put ----------

    method Attach(base: Ptr, node: Ptr)
      requires base < |nodes| && node < |nodes|
      modifies `nodes
      ensures OnlyLists(old(nodes), nodes, {base, node})
      ensures base != node ==> Attached(old(nodes), nodes, base, node)
    {
      SetList(node, nodes[base].list);
      SetList(base, node);
    }

    /**
      A duplicate joins the group that `base` is in, right behind it.  Behind a block that
      is in no group it is out of the tree's reach, and nothing held changes.
    */
    method AttachDuplicate(base: Ptr, node: Ptr)
      requires Sound() && Loose(nodes, groups, free, node) && base < |nodes| && node in vals
      modifies `nodes, `groups
      ensures Shaped() && |nodes| == |old(nodes)|
      ensures old(InGroups(groups, base)) ==>
                && InGroups(groups, node) && InGroups(groups, base) && Behind(old(groups), groups, base, node)
                && Contents() == old(Contents()) + multiset{vals[node]}
                && forall p :: Accounted(old(groups), free, p) || p == node ==> Accounted(groups, free, p)
      ensures Keyed() <==> forall b :: b in old(groups) && base in old(groups)[b] ==> SameKey(ord, vals, b, node)
      ensures !old(InGroups(groups, base)) ==> groups == old(groups) && Contents() == old(Contents())
    {
      hide At, IsRedBlack, Sorted, Total, Held, InOrder, FreeAt, NoDup, Apart, GroupsAt, Alike, Attached, OnlyLists;
      hide Accounted, SameKey, InsertAfter, Ends, Ids;
      Attach(base, node);
      ListsFrame(old(nodes), nodes, {base, node}, root, tree, freeHead, free);
      ListsLength(old(nodes), nodes, {base, node});
      OneGroup(tree, groups, free, base);
      if b :| b in groups && base in groups[b] {
        ghost var i :| 0 <= i < |groups[b]| && groups[b][i] == base;
        GroupReads(old(nodes), tree, groups, free, b, i);
        InOrderFacts(nodes, root, tree);
        AttachGroups(old(nodes), nodes, tree, groups, free, b, i, node);
        AttachAlike(ord, vals, groups, b, i, node);
        AttachHeld(InOrder(tree), groups, b, i, node, vals);
        AttachAccounted(groups, free, b, i, node);
        AttachBehind(groups, b, i, node);
        groups := groups[b := InsertAfter(groups[b], i, node)];
      } else {
        StaleGroups(old(nodes), nodes, {base, node}, groups);
      }
    }

    method UpdateCacheInsert(parent: Ptr, parentCmp: int, ghost path: Path, ghost n: Ptr)
      requires At(nodes, root, Top, InsertFix(path, NewNode(n))) && IsRedBlack(Plug(path, Leaf))
      requires NoDup(InOrder(Plug(path, Leaf)))
      requires Ends(Plug(path, Leaf), smallest, largest) && (largest == NIL <==> path.Top?)
      requires parent == ParentId(path) && (path.LeftOf? ==> parentCmp == -1) && (path.RightOf? ==> parentCmp == 1)
      requires path.Top? ==> parentCmp == 0 && RootId(InsertFix(path, NewNode(n))) == n
      modifies `smallest, `largest
      ensures Ends(InsertFix(path, NewNode(n)), smallest, largest)
    {
      hide InsertFix, IsRedBlack, Plug, Ends, NoDup, InOrder, At;
      InsertEnds(path, n, smallest, largest);
      if parentCmp == -1 && parent == smallest {
        NewMinimumLink(nodes, root, path, n);
        smallest := nodes[parent].left;
      } else if parentCmp == 1 && parent == largest {
        NewMaximumLink(nodes, root, path, n);
        largest := nodes[parent].right;
      } else if largest == NIL {
        TopReads(nodes, root, InsertFix(path, NewNode(n)));
        largest := root;
        smallest := root;
      }
    }

    /**
      A new key: the block becomes a tree node with no duplicates.  The order survives
      exactly when the value's own key leads to the slot.
    */
    method InsertNew(node: Ptr, parent: Ptr, parentCmp: int, key: K, ghost path: Path)
      requires Sound() && Loose(nodes, groups, free, node) && node in vals
      requires At(nodes, root, path, Leaf) && Plug(path, Leaf) == tree
      requires AllBelow(ord, vals, Before(path), key) && AllAbove(ord, vals, After(path), key)
      requires parent == ParentId(path) && (path.LeftOf? ==> parentCmp == -1) && (path.RightOf? ==> parentCmp == 1)
      requires path.Top? ==> parentCmp == 0
      modifies `nodes, `root, `tree, `groups, `smallest, `largest
      ensures Shaped() && InGroups(groups, node)
      ensures Keyed() <==> SamePlace(ord, vals, old(InOrder(tree)), key, ord.keyOf(vals[node]))
      ensures Contents() == old(Contents()) + multiset{vals[node]}
      ensures |nodes| == |old(nodes)| && groups == old(groups)[node := [node]]
      ensures forall p :: Accounted(old(groups), free, p) || p == node ==> Accounted(groups, free, p)
    {
      hide At, IsRedBlack, InsertFix, Sorted, Total, Alike, Held, InOrder, FreeAt, NoDup, Ends, Plug, AllIds, Apart;
      hide AllBelow, AllAbove, GroupsAt, Before, After, Within, InGroups, SamePlace;
      ghost var t' := InsertFix(path, NewNode(node));
      SlotFacts(nodes, root, path, tree, groups, free, node);
      SlotEnds(nodes, root, path, smallest, largest, node);
      InsertRedBlack(path, node);
      InsertKeyed(ord, vals, path, groups, node, key);
      InsertContents(path, node, groups, vals);
      SetList(node, NIL);
      ghost var m1 := nodes;
      ListCleared(old(nodes), m1, root, tree, path, node, freeHead, groups, free);
      Insert(node, parent, parentCmp, path);
      InsertStored(m1, nodes, path, node, freeHead, groups, free);
      UpdateCacheInsert(parent, parentCmp, path, node);
      tree := t';
      groups := groups[node := [node]];
    }

    /** The last key's shortcut names a block that a take has freed since, and the key matches what is in it by now. */
    ghost predicate StaleHit(key: K, value: V)
      reads this
    {
      && previous != NIL && !InGroups(groups, previous) && |free| > 0
      && if previous == free[0] then CompareTo(ord, key, value) == 0 else Matches(previous, key)
    }

    /**
      Stores a value, unless the arena is full.  With the last key's shortcut stale and
      matching, the value ends up behind a block outside the tree: it is not held, and
      its block is lost.  In every other case exactly this value is added.  The caller's
      key need not be the value's own; the order survives exactly when both keys lead to the
      same place.
    */
    method Put(value: V, key: K) returns (r: PutResult)
      requires Sound()
      requires previous != NIL ==> previous in vals && previous < |nodes|
      modifies this
      ensures Shaped() && |nodes| == |old(nodes)| && (previous != NIL ==> previous in vals && previous < |nodes|)
      ensures r == Full <==> old(freeCount) == 0
      ensures r == Full ==>
                && Keyed() && Contents() == old(Contents()) && groups == old(groups) && vals == old(vals)
                && free == old(free) && previous == old(previous)
      ensures r == Stored ==> |old(free)| > 0 && free == old(free)[1..] && vals == old(vals)[old(free)[0] := value]
      ensures r == Stored ==> previous != NIL
      ensures r == Stored ==> Remembers(key, old(previous), old(largest), old(smallest), old(free)[0])
      ensures r == Stored && !old(StaleHit(key, value)) ==>
                PlacedAt(key, old(previous), old(largest), old(smallest), old(groups), old(InOrder(tree)), old(free)[0])
      ensures r == Stored && !old(StaleHit(key, value)) ==>
                && Contents() == old(Contents()) + multiset{value} && InGroups(groups, previous)
                && (Keyed() <==> SamePlace(ord, old(vals), old(InOrder(tree)), key, ord.keyOf(value)))
                && (old(Covered(|nodes|, groups, free)) ==> Covered(|nodes|, groups, free))
      ensures r == Stored && old(StaleHit(key, value)) ==>
                Keyed() && Contents() == old(Contents()) && !Covered(|nodes|, groups, free)
      ensures CompareTo(ord, key, value) == 0 ==> Keyed() && (r == Stored ==> Matches(previous, key))
    {
      hide Linked, Keyed, Parted, Held, InOrder, Ends, CompareTo, Covered, Accounted, InGroups, SamePlace;
      SoundReads();
      if freeCount == 0 { return Full; }
      ghost var groups0, free0 := groups, free;
      if CompareTo(ord, key, value) == 0 { OwnPlace(ord, vals, InOrder(tree), key, value); }
      PackPlace(free[0], key, value);
      var node := TakeBlock(value);
      PlaceValue(node, key);
      r := Stored;
      PutCovered(|nodes|, groups0, groups, free0, node);
    }

    /**
      Which block the last key's shortcut names after a put: the first of the old shortcuts
      that matches, tried in their order, or else the new block.
    */
    ghost predicate Remembers(key: K, previous0: Ptr, largest0: Ptr, smallest0: Ptr, node: Ptr)
      reads `vals, `previous
    {
      && (Matches(previous0, key) ==> previous == previous0)
      && (!Matches(previous0, key) && Matches(largest0, key) ==> previous == largest0)
      && (!Matches(previous0, key) && !Matches(largest0, key) && Matches(smallest0, key) ==> previous == smallest0)
      && (!Matches(previous0, key) && !Matches(largest0, key) && !Matches(smallest0, key) ==> previous == node)
    }

    /**
      Where a stored block is: right behind the shortcut that matched, else right behind the
      tree node with the key, else in a group of its own.
    */
    ghost predicate PlacedAt(key: K, previous0: Ptr, largest0: Ptr, smallest0: Ptr, groups0: Groups,
                             order: seq<Ptr>, node: Ptr)
      reads `vals, `groups, `previous
    {
      if Matches(previous0, key) || Matches(largest0, key) || Matches(smallest0, key) then
        Behind(groups0, groups, previous, node)
      else
        && (forall p :: p in order && Matches(p, key) ==> Behind(groups0, groups, p, node))
        && ((forall p :: p in order ==> !Matches(p, key)) ==> groups == groups0[node := [node]])
    }

    lemma SoundReads()
      requires Sound()
      ensures freeCount == |free| && Total(ord)
    {}

    /** Filling a free block moves no node. */
    lemma PackPlace(p: Ptr, key: K, value: V)
      requires Sound() && p in free
      ensures SamePlace(ord, vals[p := value], InOrder(tree), key, ord.keyOf(value)) <==>
                SamePlace(ord, vals, InOrder(tree), key, ord.keyOf(value))
    {
      hide At, IsRedBlack, Sorted, Total, Held, FreeAt, GroupsAt, Alike, Ends, CompareTo;
      InOrderIds(tree);
      assert p !in InOrder(tree);
    }

    /** Takes the first free block and copies the value into it. */
    method TakeBlock(value: V) returns (node: Ptr)
      requires Sound() && freeCount > 0
      modifies `freeHead, `freeCount, `free, `vals
      ensures Sound() && Contents() == old(Contents()) && Loose(nodes, groups, free, node)
      ensures |old(free)| > 0 && node == old(free)[0] && free == old(free)[1..] && vals == old(vals)[node := value]
      ensures forall p :: Accounted(groups, old(free), p) ==> Accounted(groups, free, p) || p == node
    {
      hide At, IsRedBlack, Sorted, Total, Held, InOrder, FreeAt, NoDup, Apart, GroupsAt, Alike, Ends, Ids;
      AllocLoose(nodes, tree, groups, free, freeHead);
      PackFacts(ord, nodes, root, tree, vals, groups, free, free[0], value, smallest, largest);
      node := FreeListAlloc();
      vals := vals[node := value];
    }

    /**
      What placing a filled block has done.  It joined a group, or started one; or it went
      behind a stale shortcut and nothing held has changed.
    */
    twostate predicate BlockPlaced(node: Ptr, key: K)
      reads this
    {
      && |nodes| == |old(nodes)| && previous != NIL && previous in vals && previous < |nodes|
      && (previous == node || Matches(previous, key))
      && Remembers(key, old(previous), old(largest), old(smallest), node)
      && if old(Matches(previous, key) && !InGroups(groups, previous)) then
           Keyed() && groups == old(groups) && Contents() == old(Contents())
         else
           && node in vals && Contents() == old(Contents()) + multiset{vals[node]} && InGroups(groups, previous)
           && PlacedAt(key, old(previous), old(largest), old(smallest), old(groups), old(InOrder(tree)), node)
           && (Keyed() <==> SamePlace(ord, vals, old(InOrder(tree)), key, ord.keyOf(vals[node])))
           && forall p :: Accounted(old(groups), free, p) || p == node ==> Accounted(groups, free, p)
    }

    /** Finds the place for a filled block: behind a shortcut's hit, behind the found node, or as a new node. */
    method PlaceValue(node: Ptr, key: K)
      requires Sound() && Loose(nodes, groups, free, node) && node in vals
      requires previous != NIL ==> previous in vals && previous < |nodes|
      modifies `nodes, `groups, `root, `tree, `smallest, `largest, `previous
      ensures Shaped() && BlockPlaced(node, key)
    {
      hide Sound, Shaped, BlockPlaced, CompareTo;
      EndsStored();
      var cached := CheckCache(key);
      if cached != NIL {
        PlaceBehind(cached, node, key);
      } else {
        PlaceByKey(node, key);
      }
    }

    /** What the shortcuts to the ends name is a block with a value. */
    lemma EndsStored()
      requires Sound()
      ensures smallest != NIL ==> smallest in vals
      ensures largest != NIL ==> largest in vals
    {
      hide IsRedBlack, Total, InOrder, Apart, GroupsAt, Alike, Ends, FreeAt;
      EndsInTree(ord, nodes, root, tree, vals, smallest, largest);
    }

    /** A filled block goes behind the shortcut that matched. */
    method PlaceBehind(cached: Ptr, node: Ptr, key: K)
      requires Sound() && Loose(nodes, groups, free, node) && node in vals
      requires previous != NIL ==> previous in vals && previous < |nodes|
      requires Matches(cached, key) && cached in {previous, largest, smallest}
      requires Matches(previous, key) ==> cached == previous
      requires !Matches(previous, key) && Matches(largest, key) ==> cached == largest
      modifies `nodes, `groups, `previous
      ensures Shaped() && BlockPlaced(node, key)
    {
      hide At, IsRedBlack, Sorted, Total, Held, InOrder, FreeAt, NoDup, Apart, GroupsAt, Alike, Ends, Ids, Plug;
      hide Accounted, SameKey, SamePlace, Behind, CompareTo;
      CacheHit(ord, nodes, root, vals, tree, groups, free, smallest, largest, previous, cached, node, key);
      AttachDuplicate(cached, node);
      previous := cached;
    }

    /** A filled block goes behind the node with the key, or becomes a node itself. */
    method PlaceByKey(node: Ptr, key: K)
      requires Sound() && Loose(nodes, groups, free, node) && node in vals
      requires !Matches(previous, key) && !Matches(largest, key) && !Matches(smallest, key)
      modifies `nodes, `groups, `root, `tree, `smallest, `largest, `previous
      ensures Shaped() && BlockPlaced(node, key)
    {
      hide At, IsRedBlack, Sorted, Total, Held, InOrder, FreeAt, NoDup, Apart, GroupsAt, Alike, Ends, Ids, Plug;
      hide AllBelow, AllAbove, Before, After, Accounted, SameKey, SamePlace, SlotFor, Behind, CompareTo;
      var found, parent, parentCmp, path, t, compared := Find(key);
      if found != NIL {
        FoundHit(ord, nodes, root, vals, tree, groups, free, path, t, node, key);
        OneMatch(ord, vals, InOrder(tree), found, key);
        AttachDuplicate(found, node);
      } else {
        InsertNew(node, parent, parentCmp, key, path);
      }
      previous := node;
    }

    // ---------- Take ----------

    /** Runs after the node is unlinked and the tree repaired; reads the links the node had before. */
    method UpdateCacheDelete(node: Ptr, ghost path: Path, ghost t: Tree)
      requires t.Node? && node == t.id && IsRedBlack(Plug(path, t)) && NoDup(InOrder(Plug(path, t)))
      requires Ends(Plug(path, t), smallest, largest) && At(nodes, root, Top, Deleted(path, t))
      requires node < |nodes| && nodes[node].parent == ParentId(path)
      requires nodes[node].left == RootId(t.left) && (nodes[node].left == NIL <==> t.left.Leaf?)
      requires nodes[node].right == RootId(t.right) && (nodes[node].right == NIL <==> t.right.Leaf?)
      modifies `smallest, `largest
      ensures Ends(Deleted(path, t), smallest, largest)
    {
      hide At, IsRedBlack, Plug, InOrder, NoDup, Ends, Deleted;
      DeleteEnds(path, t, smallest, largest);
      if smallest == largest {
        smallest := NIL;
        largest := NIL;
      } else if node == smallest {
        if nodes[node].right != NIL {
          FocusOn(nodes, root, path, Paint(t.right, Black));
          smallest := LocalMinimum(nodes[node].right, path, Paint(t.right, Black));
        } else {
          smallest := nodes[node].parent;
        }
      } else if node == largest {
        if nodes[node].left != NIL {
          FocusOn(nodes, root, path, Paint(t.left, Black));
          largest := LocalMaximum(nodes[node].left, path, Paint(t.left, Black));
        } else {
          largest := nodes[node].parent;
        }
      }
    }

    /** Unhooks the first duplicate, or answers the node itself when there is none. */
    method Detach(node: Ptr) returns (ret: Ptr)
      requires Sound() && node in groups
      modifies `nodes, `groups
      ensures Sound() && OnlyLists(old(nodes), nodes, {node}) && ret in old(groups)[node] && ret in vals
      ensures ret == node ==> old(groups)[node] == [node] && groups == old(groups)
      ensures ret != node ==> LostFirst(old(groups), groups, node, ret)
      ensures ret != node ==>
                && Loose(nodes, groups, free, ret) && Contents() + multiset{vals[ret]} == old(Contents())
                && forall p :: Accounted(old(groups), free, p) && p != ret ==> Accounted(groups, free, p)
      ensures forall p :: InGroups(old(groups), p) && p != ret ==> InGroups(groups, p)
    {
      hide At, IsRedBlack, Sorted, Total, Held, InOrder, FreeAt, NoDup, Apart, GroupsAt, Alike, Ends, Ids;
      GroupHead(ord, nodes, root, tree, vals, groups, free, node);
      if nodes[node].list == NIL { return node; }
      ret := nodes[node].list;
      SetList(node, nodes[nodes[node].list].list);
      ListsFrame(old(nodes), nodes, {node}, root, tree, freeHead, free);
      DetachGroups(old(nodes), nodes, tree, groups, free, node);
      DetachContents(ord, InOrder(tree), groups, node, vals);
      DetachFirst(groups, node);
      groups := groups[node := RemoveSecond(groups[node])];
    }

    /** Gives a loose block back to the free list. */
    method FreeBlock(p: Ptr)
      requires Sound() && Loose(nodes, groups, free, p)
      modifies `nodes, `freeHead, `freeCount, `free
      ensures Sound() && Contents() == old(Contents()) && |nodes| == |old(nodes)| && free == [p] + old(free)
      ensures forall q :: Accounted(groups, old(free), q) || q == p ==> Accounted(groups, free, q)
    {
      hide At, IsRedBlack, Sorted, Total, Held, InOrder, FreeAt, NoDup, Apart, GroupsAt, Alike, Ends;
      TreeNotFree(nodes, root, tree, groups, free);
      FreeApart(nodes, tree, groups, free, p);
      AtReads(nodes, root, tree);
      FreeListFree(p);
      AtFrame(old(nodes), nodes, root, Top, tree);
      GroupsFrame(old(nodes), nodes, groups);
    }

    /** A node without duplicates leaves the tree. */
    method RemoveNode(node: Ptr, ghost path: Path, ghost t: Tree)
      requires Sound() && At(nodes, root, path, t) && Plug(path, t) == tree && t.Node? && node == t.id
      requires node in groups && groups[node] == [node] && node in vals
      modifies `nodes, `root, `tree, `groups, `smallest, `largest
      ensures Sound() && |nodes| == |old(nodes)| && Loose(nodes, groups, free, node)
      ensures Contents() + multiset{vals[node]} == old(Contents()) && groups == old(groups) - {node}
      ensures forall p :: Accounted(old(groups), free, p) && p != node ==> Accounted(groups, free, p)
    {
      hide At, IsRedBlack, Sorted, Total, Held, InOrder, FreeAt, NoDup, Apart, GroupsAt, Alike, Ends, Plug;
      hide Deleted, AllIds, Within, Accounted;
      ChildReads(nodes, root, path, t);
      NodeFacts(nodes, root, path, t);
      DeleteKeyed(ord, vals, path, t, groups);
      DeleteContents(path, t, groups, vals);
      Delete(node, path, t);
      DeleteStored(old(nodes), nodes, path, t, freeHead, groups, free);
      UpdateCacheDelete(node, path, t);
      tree := Deleted(path, t);
      groups := groups - {node};
    }

    /** Takes one value with the node's key: a duplicate while there is one, else the node itself. */
    method DetachAndDelete(node: Ptr, ghost path: Path, ghost t: Tree) returns (value: V, ghost freed: Ptr)
      requires Sound() && At(nodes, root, path, t) && Plug(path, t) == tree && t.Node? && node == t.id && node in groups
      modifies this
      ensures Sound() && |nodes| == |old(nodes)| && previous == old(previous) && vals == old(vals)
      ensures freed in old(groups)[node] && freed in vals && value == vals[freed] && free == [freed] + old(free)
      ensures Contents() + multiset{value} == old(Contents()) && LostFirst(old(groups), groups, node, freed)
      ensures forall p :: Accounted(old(groups), old(free), p) ==> Accounted(groups, free, p)
      ensures forall p :: InGroups(old(groups), p) && p != freed ==> InGroups(groups, p)
    {
      hide At, IsRedBlack, Sorted, Total, Held, InOrder, FreeAt, NoDup, Apart, GroupsAt, Alike, Ends, Plug, OnlyLists;
      var ret := Detach(node);
      ListsLength(old(nodes), nodes, {node});
      freed, value := ret, vals[ret];
      if ret == node {
        FocusOn(nodes, root, path, t);
        StillInGroups(groups, node);
        RemoveNode(node, path, t);
        FreeBlock(node);
      } else {
        FreeBlock(ret);
      }
    }

    /** Takes a value with the least key held. */
    method GetSmallest() returns (r: TakeResult<V>, ghost freed: Ptr)
      requires Sound()
      modifies this
      ensures Sound() && |nodes| == |old(nodes)| && previous == old(previous) && vals == old(vals)
      ensures r == Empty <==> old(Contents()) == multiset{}
      ensures r == Empty ==> Contents() == old(Contents()) && groups == old(groups) && free == old(free)
      ensures r != Empty ==>
                && r.Taken? && Contents() + multiset{r.value} == old(Contents())
                && (forall v :: v in old(Contents()) ==> ord.cmp(ord.keyOf(r.value), ord.keyOf(v)) <= 0)
                && free == [freed] + old(free) && freed in vals && r.value == vals[freed]
                && LostFirst(old(groups), groups, old(smallest), freed)
      ensures forall p :: Accounted(old(groups), old(free), p) ==> Accounted(groups, free, p)
      ensures forall p :: InGroups(old(groups), p) && (r == Empty || p != freed) ==> InGroups(groups, p)
    {
      hide At, IsRedBlack, Sorted, Total, InOrder, FreeAt, NoDup, Apart, GroupsAt, Alike, Ends, Plug, Held;
      hide Ids, Accounted;
      freed := NIL;
      EndsInTree(ord, nodes, root, tree, vals, smallest, largest);
      EmptyContents(ord, nodes, root, tree, vals, groups, free);
      if smallest == NIL { return Empty, freed; }
      ghost var path, t := NodeFocus(nodes, root, tree, smallest);
      ApartKeys(tree, groups, free);
      LeastOf(ord, tree, vals, groups, smallest, largest);
      var value;
      value, freed := DetachAndDelete(smallest, path, t);
      r := Taken(value);
    }

    /** Takes a value with the greatest key held. */
    method GetLargest() returns (r: TakeResult<V>, ghost freed: Ptr)
      requires Sound()
      modifies this
      ensures Sound() && |nodes| == |old(nodes)| && previous == old(previous) && vals == old(vals)
      ensures r == Empty <==> old(Contents()) == multiset{}
      ensures r == Empty ==> Contents() == old(Contents()) && groups == old(groups) && free == old(free)
      ensures r != Empty ==>
                && r.Taken? && Contents() + multiset{r.value} == old(Contents())
                && (forall v :: v in old(Contents()) ==> ord.cmp(ord.keyOf(v), ord.keyOf(r.value)) <= 0)
                && free == [freed] + old(free) && freed in vals && r.value == vals[freed]
                && LostFirst(old(groups), groups, old(largest), freed)
      ensures forall p :: Accounted(old(groups), old(free), p) ==> Accounted(groups, free, p)
      ensures forall p :: InGroups(old(groups), p) && (r == Empty || p != freed) ==> InGroups(groups, p)
    {
      hide At, IsRedBlack, Sorted, Total, InOrder, FreeAt, NoDup, Apart, GroupsAt, Alike, Ends, Plug, Held;
      hide Ids, Accounted;
      freed := NIL;
      EndsInTree(ord, nodes, root, tree, vals, smallest, largest);
      EmptyContents(ord, nodes, root, tree, vals, groups, free);
      if largest == NIL { return Empty, freed; }
      ghost var path, t := NodeFocus(nodes, root, tree, largest);
      ApartKeys(tree, groups, free);
      GreatestOf(ord, tree, vals, groups, smallest, largest);
      var value;
      value, freed := DetachAndDelete(largest, path, t);
      r := Taken(value);
    }

    /** Taking by key past the shortcuts. */
    method TakeByKey(key: K) returns (r: TakeResult<V>, ghost freed: Ptr)
      requires Sound()
      modifies this
      ensures Sound() && |nodes| == |old(nodes)| && previous == old(previous) && vals == old(vals)
      ensures r == Empty <==> old(Contents()) == multiset{}
      ensures r == BadKey <==> old(Contents()) != multiset{} && forall v :: v in old(Contents()) ==>
                CompareTo(ord, key, v) != 0
      ensures r.Taken? ==>
                && CompareTo(ord, key, r.value) == 0 && Contents() + multiset{r.value} == old(Contents())
                && free == [freed] + old(free)
      ensures !r.Taken? ==> Contents() == old(Contents()) && groups == old(groups) && free == old(free)
      ensures r.Taken? ==> freed in vals && r.value == vals[freed] && InGroups(old(groups), freed)
      ensures r.Taken? ==>
                forall p :: p in old(InOrder(tree)) && Matches(p, key) ==> LostFirst(old(groups), groups, p, freed)
      ensures forall p :: Accounted(old(groups), old(free), p) ==> Accounted(groups, free, p)
    {
      hide At, IsRedBlack, Sorted, Total, InOrder, FreeAt, NoDup, Apart, GroupsAt, Alike, Ends, Plug, Held;
      hide Ids, Accounted;
      hide AllBelow, AllAbove, Before, After, Height, Size, CompareTo, SlotFor;
      freed := NIL;
      EmptyContents(ord, nodes, root, tree, vals, groups, free);
      TopReads(nodes, root, tree);
      RootReads(nodes, root, tree);
      if root == NIL { return Empty, freed; }
      var found, parent, parentCmp, path, t, compared := Find(key);
      if found == NIL {
        NoSuchKey(ord, path, vals, groups, key);
        return BadKey, freed;
      }
      FoundGroup(ord, nodes, root, path, t, vals, groups, free, key);
      OneMatch(ord, vals, InOrder(tree), found, key);
      var value;
      value, freed := DetachAndDelete(found, path, t);
      assert value in old(Contents()) by { TakenWasHeld(Contents(), value); }
      r := Taken(value);
    }

    lemma LoneNode(v: V)
      requires Sound() && Contents() == multiset{v}
      ensures smallest in InOrder(tree) && smallest in vals && vals[smallest] == v
    {
      hide IsRedBlack, Sorted, Total, InOrder, FreeAt, NoDup, GroupsAt, Alike, Apart, Ends, Held, InGroups;
      EmptyContents(ord, nodes, root, tree, vals, groups, free);
      EndsInTree(ord, nodes, root, tree, vals, smallest, largest);
      InOrderIds(tree);
      EndsGrouped();
      GroupedIsHeld(smallest);
    }

    ghost predicate ShortcutMatches(key: K)
      reads this
    {
      Matches(previous, key) || Matches(largest, key) || Matches(smallest, key)
    }

    /** The last key's shortcut matches, but its block is no longer in the tree. */
    ghost predicate StaleMatch(key: K)
      reads this
    {
      Matches(previous, key) && !InGroups(groups, previous)
    }

    /**
      Taking by key.  When one of the shortcuts matches, a value with the key is copied out
      of the block `from` and nothing is removed; exactly when none does, the value taken is
      removed.  The value copied is one that is held, unless the match is stale.
    */
    method Take(key: K) returns (r: TakeResult<V>, ghost from: Ptr)
      requires Sound() && (previous != NIL ==> previous in vals)
      modifies this
      ensures Sound() && |nodes| == |old(nodes)| && previous == old(previous) && vals == old(vals)
      ensures r == Empty <==> old(Contents()) == multiset{}
      ensures r == BadKey <==>
                && old(Contents()) != multiset{} && !old(StaleMatch(key))
                && forall v :: v in old(Contents()) ==> CompareTo(ord, key, v) != 0
      ensures r.Taken? ==> from in vals && r.value == vals[from] && CompareTo(ord, key, r.value) == 0
      ensures r.Taken? ==> (InGroups(old(groups), from) <==> !old(StaleMatch(key)))
      ensures r != Empty && old(Matches(previous, key)) ==> r.Taken? && from == previous
      ensures r != Empty && !old(Matches(previous, key)) && old(Matches(largest, key)) ==>
                r.Taken? && from == old(largest)
      ensures r != Empty && !old(Matches(previous, key) || Matches(largest, key)) && old(Matches(smallest, key)) ==>
                r.Taken? && from == old(smallest)
      ensures r.Taken? && !old(ShortcutMatches(key)) ==>
                forall p :: p in old(InOrder(tree)) && Matches(p, key) ==> LostFirst(old(groups), groups, p, from)
      ensures r.Taken? && !old(StaleMatch(key)) ==> r.value in old(Contents())
      ensures r.Taken? && !old(ShortcutMatches(key)) ==>
                Contents() + multiset{r.value} == old(Contents()) && free == [from] + old(free)
      ensures !r.Taken? || old(ShortcutMatches(key)) ==>
                Contents() == old(Contents()) && groups == old(groups) && free == old(free)
    {
      hide At, IsRedBlack, Sorted, Total, InOrder, FreeAt, NoDup, Apart, GroupsAt, Alike, Ends, Plug, Held;
      hide Ids, Accounted, CompareTo;
      hide InGroups, SamePlace;
      from := NIL;
      EmptyContents(ord, nodes, root, tree, vals, groups, free);
      TopReads(nodes, root, tree);
      RootReads(nodes, root, tree);
      if root == NIL { return Empty, from; }
      EndsInTree(ord, nodes, root, tree, vals, smallest, largest);
      EndsGrouped();
      var cached := CheckCache(key);
      if cached != NIL {
        if InGroups(groups, cached) { GroupedIsHeld(cached); }
        return Taken(vals[cached]), cached;
      }
      r, from := TakeByKey(key);
      if r.Taken? { TakenWasHeld(Contents(), r.value); }
    }

    /** No shortcut to an end names a free block. */
    lemma EndsNotFree()
      requires Sound()
      ensures smallest !in free && largest !in free
    {
      hide IsRedBlack, Sorted, Total, InOrder, NoDup, GroupsAt, Alike, Ends, Held;
      EndsInTree(ord, nodes, root, tree, vals, smallest, largest);
      TreeNotFree(nodes, root, tree, groups, free);
      EndsGrouped();
    }

    /** The two ends are in groups of their own. */
    lemma EndsGrouped()
      requires Sound()
      ensures smallest != NIL ==> InGroups(groups, smallest)
      ensures largest != NIL ==> InGroups(groups, largest)
    {
      hide IsRedBlack, Sorted, Total, InOrder, FreeAt, NoDup, GroupsAt, Alike, Ends, Held;
      EndsInTree(ord, nodes, root, tree, vals, smallest, largest);
      forall b | b in groups ensures b in groups[b] {
        assert groups[b][0] == b;
      }
    }

    /** The value of a block in a group is held. */
    lemma GroupedIsHeld(p: Ptr)
      requires Sound() && InGroups(groups, p) && p in vals
      ensures vals[p] in Contents()
    {
      var b :| b in groups && p in groups[b];
      GroupValueHeld(ord, nodes, root, tree, vals, groups, free, b, p);
    }

    // ---------- Runs ----------

    ghost predicate PreviousLive()
      reads this
    {
      previous != NIL ==> InGroups(groups, previous) && previous in vals && previous < |nodes|
    }

    lemma EmptyHasNoGroups(p: Ptr)
      requires Sound() && Contents() == multiset{}
      ensures !InGroups(groups, p)
    {
      hide At, IsRedBlack, Sorted, InOrder, FreeAt, GroupsAt, Alike, Ends, Held, Total;
      EmptyContents(ord, nodes, root, tree, vals, groups, free);
    }

    /** Any run of puts: while there is room, exactly the values put in are added, and no block is lost. */
    method PutAll(items: seq<V>) returns (stored: nat)
      requires Valid() && PreviousLive()
      modifies this
      ensures Valid() && PreviousLive()
      ensures stored == if |items| <= old(freeCount) then |items| else old(freeCount)
      ensures Contents() == old(Contents()) + multiset(items[..stored]) && freeCount == old(freeCount) - stored
    {
      hide Linked, Keyed, Parted, Ends, Held, InOrder, Covered, CompareTo, Total;
      stored := 0;
      while stored < |items| && freeCount > 0
        invariant 0 <= stored <= |items| && Valid() && PreviousLive()
        invariant freeCount == old(freeCount) - stored
        invariant Contents() == old(Contents()) + multiset(items[..stored])
      {
        SoundReads();
        OwnKey(ord, items[stored]);
        var r := Put(items[stored], ord.keyOf(items[stored]));
        SoundReads();
        TakeOneMore(old(Contents()), items, stored);
        stored := stored + 1;
      }
      if stored == 0 { Nothing(Contents()); }
    }

    method GetEnd(end: End) returns (r: TakeResult<V>)
      requires Sound()
      modifies this
      ensures Sound() && |nodes| == |old(nodes)| && previous == old(previous) && vals == old(vals)
      ensures r == Empty <==> old(Contents()) == multiset{}
      ensures r == Empty ==> Contents() == old(Contents()) && freeCount == old(freeCount) && groups == old(groups)
      ensures r != Empty ==>
                && r.Taken? && Extreme(ord, end, r.value, old(Contents()))
                && Contents() + multiset{r.value} == old(Contents()) && freeCount == old(freeCount) + 1
      ensures forall p :: Accounted(old(groups), old(free), p) ==> Accounted(groups, free, p)
    {
      hide Linked, Keyed, Parted, Held, InOrder, Ends, Accounted, InGroups;
      SoundReads();
      ghost var freed;
      if end == Smallest {
        r, freed := GetSmallest();
      } else {
        r, freed := GetLargest();
      }
      if r.Taken? { TakenWasHeld(Contents(), r.value); }
      SoundReads();
    }

    /**
      Any run of takes from the two ends.  Each value taken is the least or greatest of what
      is held at that moment; what comes out plus what is left is what was there, and no
      block is lost.
    */
    method TakeEnds(ends: seq<End>) returns (out: seq<V>, ghost held: seq<multiset<V>>)
      requires Valid()
      modifies this
      ensures Valid() && Contents() + multiset(out) == old(Contents())
      ensures |out| == if |ends| <= |old(Contents())| then |ends| else |old(Contents())|
      ensures TakesOf(ord, ends, out, held) && held[0] == old(Contents()) && held[|out|] == Contents()
    {
      hide Linked, Keyed, Ends, Held, InOrder, Parted, Accounted, Extreme, TakesOf;
      out, held := [], [Contents()];
      Nothing(Contents());
      NoTakes(ord, ends, Contents());
      for i := 0 to |ends|
        invariant Valid() && Contents() + multiset(out) == old(Contents())
        invariant |out| == if i <= |old(Contents())| then i else |old(Contents())|
        invariant |held| == |out| + 1 && held[0] == old(Contents()) && held[|out|] == Contents()
        invariant TakesOf(ord, ends, out, held)
      {
        ghost var was := Contents();
        var r := GetEnd(ends[i]);
        if r.Taken? {
          MoveOut(was, Contents(), out, r.value);
          TakesSnoc(ord, ends, out, held, r.value, Contents());
          out, held := out + [r.value], held + [Contents()];
        }
      }
    }

    /**
      Any mixed run of puts and takes from the ends, told operation by operation: what each
      does to what is held, when a put is refused, and what all of them conserve.  An accepted
      value is lost only to a stale shortcut, so only after a take; it costs one block for good.
    */
    method RunOps(ops: seq<Op<V>>)
      returns (results: seq<OpResult<V>>, ghost lost: seq<bool>, ghost held: seq<multiset<V>>)
      requires Sound() && (previous != NIL ==> previous in vals && previous < |nodes|)
      modifies this
      ensures Sound() && (previous != NIL ==> previous in vals && previous < |nodes|)
      ensures RunOf(ord, ops, results, lost, held) && held[0] == old(Contents()) && held[|ops|] == Contents()
      ensures forall i :: 0 <= i < |ops| ==> RoomRule(old(freeCount), ops, results, i)
      ensures freeCount + |Puts(ops, results)| == old(freeCount) + |Outs(results)|
      ensures Contents() + multiset(Outs(results)) + multiset(Losses(ops, lost)) ==
              old(Contents()) + multiset(Puts(ops, results))
      ensures freeCount + |Contents()| + |Losses(ops, lost)| == old(freeCount) + |old(Contents())|
      ensures old(PreviousLive()) ==> forall i :: 0 <= i < |ops| && lost[i] ==> Outs(results[..i]) != []
    {
      hide Linked, Keyed, Parted, Held, InOrder, Ends, Accounted, InGroups, Covered, CompareTo, Total;
      hide SamePlace, Matches;
      hide RunOf, OpStep, RoomRule, Puts, Outs, Losses;
      results, lost, held := [], [], [Contents()];
      RunNone(ord, Contents());
      for i := 0 to |ops|
        invariant Sound() && (previous != NIL ==> previous in vals && previous < |nodes|)
        invariant |results| == i && |lost| == i && |held| == i + 1 && held[0] == old(Contents())
        invariant held[i] == Contents()
        invariant RunOf(ord, ops[..i], results, lost, held)
        invariant forall j :: 0 <= j < i ==> RoomRule(old(freeCount), ops[..i], results, j)
        invariant freeCount + |Puts(ops[..i], results)| == old(freeCount) + |Outs(results)|
        invariant old(PreviousLive()) ==> forall j :: 0 <= j < i && lost[j] ==> Outs(results[..j]) != []
        invariant old(PreviousLive()) && Outs(results) == [] ==> PreviousLive()
      {
        var result; ghost var gone;
        ghost var before, free0 := Contents(), freeCount;
        result, gone := RunOp(ops[i]);
        RunSnoc(ord, ops[..i], results, lost, held, ops[i], result, gone, Contents());
        RoomSnoc(old(freeCount), free0, ops[..i], results, ops[i], result);
        PutsSnoc(ops[..i], results, ops[i], result);
        assert ops[..i + 1] == ops[..i] + [ops[i]];
        ghost var results0 := results;
        results, lost, held := results + [result], lost + [gone], held + [Contents()];
        assert forall j :: 0 <= j <= i ==> results[..j] == results0[..j];
        assert results0[..i] == results0;
      }
      assert ops[..|ops|] == ops;
      RunConserves(ord, ops, results, lost, held);
    }

    method RunOp(op: Op<V>) returns (result: OpResult<V>, ghost gone: bool)
      requires Sound() && (previous != NIL ==> previous in vals && previous < |nodes|)
      modifies this
      ensures Sound() && (previous != NIL ==> previous in vals && previous < |nodes|)
      ensures OpStep(ord, op, result, gone, old(Contents()), Contents())
      ensures op.PutOp? ==> (result == Refused <==> old(freeCount) == 0) && (result == Accepted <==> old(freeCount) > 0)
      ensures op.TakeOp? ==> result.Took? || result == NoneHeld
      ensures freeCount == old(freeCount) + (if result.Took? then 1 else 0) - (if result == Accepted then 1 else 0)
      ensures old(PreviousLive()) ==> !gone && (result.Took? || PreviousLive())
    {
      hide Linked, Keyed, Parted, Held, InOrder, Ends, Accounted, InGroups, Covered, CompareTo, Total;
      hide SamePlace, Matches, Extreme;
      SoundReads();
      gone := false;
      match op
      case PutOp(v) =>
        OwnKey(ord, v);
        gone := freeCount > 0 && StaleHit(ord.keyOf(v), v);
        var r := Put(v, ord.keyOf(v));
        SoundReads();
        result := if r == Stored then Accepted else Refused;
      case TakeOp(end) =>
        var r := GetEnd(end);
        result := if r.Taken? then Took(r.value) else NoneHeld;
    }

    /** Taking the smallest until nothing is left puts everything held in key order. */
    method DrainSmallest() returns (out: seq<V>)
      requires Valid()
      modifies this
      ensures Valid() && Contents() == multiset{} && multiset(out) == old(Contents())
      ensures Rising(ord, out)
    {
      hide Linked, Keyed, Ends, Held, InOrder, Parted, Accounted, Rising, RisingTo;
      out := [];
      DrainStart(ord, Contents());
      while true
        invariant Valid() && Contents() + multiset(out) == old(Contents())
        invariant Rising(ord, out) && RisingTo(ord, out, Contents())
        decreases |Contents()|
      {
        ghost var was := Contents();
        var r, freed := GetSmallest();
        if r == Empty { break; }
        MoveOut(was, Contents(), out, r.value);
        RisingStep(ord, out, was, Contents(), r.value);
        out := out + [r.value];
      }
    }

    /** Taking the largest until nothing is left puts everything held in reverse key order. */
    method DrainLargest() returns (out: seq<V>)
      requires Valid()
      modifies this
      ensures Valid() && Contents() == multiset{} && multiset(out) == old(Contents())
      ensures Falling(ord, out)
    {
      hide Linked, Keyed, Ends, Held, InOrder, Parted, Accounted, Falling, FallingTo;
      out := [];
      DrainStart(ord, Contents());
      while true
        invariant Valid() && Contents() + multiset(out) == old(Contents())
        invariant Falling(ord, out) && FallingTo(ord, out, Contents())
        decreases |Contents()|
      {
        ghost var was := Contents();
        var r, freed := GetLargest();
        if r == Empty { break; }
        MoveOut(was, Contents(), out, r.value);
        FallingStep(ord, out, was, Contents(), r.value);
        out := out + [r.value];
      }
    }
  }

  /**
    A fresh tree filled with values of different keys and then drained gives them back in
    strictly increasing key order.
  */
  method SortThroughTree<K(!new), V>(ord: Order<K, V>, items: seq<V>) returns (out: seq<V>)
    requires Total(ord)
    requires forall i, j :: 0 <= i < j < |items| ==> ord.cmp(ord.keyOf(items[i]), ord.keyOf(items[j])) != 0
    ensures multiset(out) == multiset(items)
    ensures forall i, j :: 0 <= i < j < |out| ==> ord.cmp(ord.keyOf(out[i]), ord.keyOf(out[j])) < 0
  {
    var tree := new Bst<K, V>(ord, |items|);
    var stored := tree.PutAll(items);
    assert items[..stored] == items;
    assert multiset{} + multiset(items) == multiset(items);
    out := tree.DrainSmallest();
    StrictWhenDistinct(ord, items, out);
  }

  /** The mirror image: taking the largest gives strictly decreasing keys. */
  method SortDownThroughTree<K(!new), V>(ord: Order<K, V>, items: seq<V>) returns (out: seq<V>)
    requires Total(ord)
    requires forall i, j :: 0 <= i < j < |items| ==> ord.cmp(ord.keyOf(items[i]), ord.keyOf(items[j])) != 0
    ensures multiset(out) == multiset(items)
    ensures forall i, j :: 0 <= i < j < |out| ==> ord.cmp(ord.keyOf(out[j]), ord.keyOf(out[i])) < 0
  {
    var tree := new Bst<K, V>(ord, |items|);
    var stored := tree.PutAll(items);
    assert items[..stored] == items;
    assert multiset{} + multiset(items) == multiset(items);
    out := tree.DrainLargest();
    StrictDownWhenDistinct(ord, items, out);
  }

  /** Putting a value under another value's key breaks the order: the two share a group with different keys. */
  method ForeignKeyBreaksOrder<K(!new), V>(ord: Order<K, V>, lo: V, hi: V, blocks: nat) returns (tree: Bst<K, V>)
    requires Total(ord) && ord.cmp(ord.keyOf(lo), ord.keyOf(hi)) != 0 && blocks > 1
    ensures tree.Shaped() && !tree.Keyed() && tree.Contents() == multiset{lo, hi}
  {
    hide Total, Covered, Accounted, Held, InOrder, At, IsRedBlack, Sorted, Alike, Apart, GroupsAt, FreeAt;
    hide Ends, InGroups;
    OwnKey(ord, lo);
    LessTrans(ord, ord.keyOf(lo), ord.keyOf(hi), ord.keyOf(lo));
    tree := new Bst<K, V>(ord, blocks);
    var stored := tree.Put(lo, ord.keyOf(lo));
    assert tree.Contents() == multiset{lo};
    tree.LoneNode(lo);
    stored := tree.Put(hi, ord.keyOf(lo));
    assert multiset{lo} + multiset{hi} == multiset{lo, hi};
  }

  /** A value put while no shortcut matched its key is what a take of that key returns next. */
  method PutThenTake<K(!new), V>(tree: Bst<K, V>, value: V, key: K) returns (r: TakeResult<V>)
    requires tree.Sound() && tree.freeCount > 0 && CompareTo(tree.ord, key, value) == 0
    requires tree.previous != NIL ==> tree.previous in tree.vals && tree.previous < |tree.nodes|
    requires |tree.free| > 0 && tree.previous != tree.free[0] && !tree.ShortcutMatches(key)
    modifies tree
    ensures tree.Sound() && r == Taken(value) && tree.Contents() == old(tree.Contents()) + multiset{value}
  {
    hide Total, Covered, Accounted, CompareTo, Held, InOrder, At, IsRedBlack, Sorted, Alike, Apart, GroupsAt, FreeAt;
    hide InGroups, SamePlace, Behind, LostFirst, Ends;
    tree.SoundReads();
    tree.EndsNotFree();
    var stored := tree.Put(value, key);
    ghost var from;
    r, from := tree.Take(key);
  }

  /** Taking a value by its key straight after putting it copies it out and leaves it held. */
  method TakeLeavesValue<K(!new), V>(ord: Order<K, V>, v: V, blocks: nat) returns (tree: Bst<K, V>, r: TakeResult<V>)
    requires Total(ord) && blocks > 0
    ensures tree.Sound() && r == Taken(v) && tree.Contents() == multiset{v}
  {
    hide Total, Covered, Accounted, CompareTo, Held, InOrder, At, IsRedBlack, Sorted, Alike, Apart, GroupsAt;
    hide FreeAt, Ends, SamePlace;
    OwnKey(ord, v);
    tree := new Bst<K, V>(ord, blocks);
    var stored := tree.Put(v, ord.keyOf(v));
    assert tree.Contents() == multiset{v};
    ghost var from;
    r, from := tree.Take(ord.keyOf(v));
  }

  /**
    The last key's shortcut outlives its node: a value already taken is taken again, while
    another one is all that is held.
  */
  method StaleTakeRepeatsValue<K(!new), V>(ord: Order<K, V>, lo: V, hi: V,
                                           blocks: nat) returns (tree: Bst<K, V>, r: TakeResult<V>)
    requires Total(ord) && ord.cmp(ord.keyOf(lo), ord.keyOf(hi)) < 0 && blocks > 1
    ensures tree.Sound() && r == Taken(lo) && tree.Contents() == multiset{hi}
  {
    hide Total, Covered, Accounted, CompareTo, Held, InOrder, At, IsRedBlack, Sorted, Alike, Apart, GroupsAt;
    hide FreeAt, Ends, SamePlace;
    hide InGroups;
    OwnKey(ord, lo);
    OwnKey(ord, hi);
    LessTrans(ord, ord.keyOf(lo), ord.keyOf(hi), ord.keyOf(lo));
    tree := new Bst<K, V>(ord, blocks);
    var stored := tree.Put(hi, ord.keyOf(hi));
    assert tree.Contents() == multiset{hi};
    stored := tree.Put(lo, ord.keyOf(lo));
    assert tree.Contents() == multiset{hi, lo};
    tree.GroupedIsHeld(tree.previous);
    OnlyKey(ord, lo, hi, tree.vals[tree.previous]);
    var first, freed := tree.GetSmallest();
    LeastOfTwo(ord, lo, hi, first.value, tree.Contents());
    if InGroups(tree.groups, tree.previous) { tree.GroupedIsHeld(tree.previous); }
    ghost var from;
    r, from := tree.Take(ord.keyOf(lo));
  }

  /**
    The last key's shortcut outlives its node: after a put and a take, putting the same value
    again reports success but stores nothing.
  */
  method StaleShortcutLosesValue<K(!new), V>(ord: Order<K, V>, v: V,
                                             blocks: nat) returns (tree: Bst<K, V>, r: PutResult)
    requires Total(ord) && blocks > 0
    ensures tree.Sound() && r == Stored && tree.Contents() == multiset{}
  {
    hide Total, Covered, Accounted, CompareTo, Held, InOrder, At, IsRedBlack, Sorted, Alike, Apart, GroupsAt;
    hide FreeAt, Ends;
    OwnKey(ord, v);
    tree := new Bst<K, V>(ord, blocks);
    r := tree.Put(v, ord.keyOf(v));
    assert tree.Contents() == multiset{v};
    var taken, freed := tree.GetSmallest();
    assert tree.Contents() == multiset{};
    tree.EmptyHasNoGroups(tree.previous);
    assert tree.free[0] == freed && tree.previous == freed;
    r := tree.Put(v, ord.keyOf(v));
  }
}
