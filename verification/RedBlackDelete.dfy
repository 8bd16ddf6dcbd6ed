/** Unlinking a node and the delete fix-up loop on (path, subtree) pairs. */
module RedBlackDelete {
  import opened Chains
  import opened RedBlack

  // ---------- Delete ----------

  /** The leftmost node of a nonempty tree, as a tree rooted there. */
  function MinNode(t: Tree): Tree
    requires t.Node?
    ensures MinNode(t).Node? && MinNode(t).left.Leaf?
  {
    if t.left.Leaf? then t else MinNode(t.left)
  }

  function MaxNode(t: Tree): Tree
    requires t.Node?
    ensures MaxNode(t).Node? && MaxNode(t).right.Leaf?
  {
    if t.right.Leaf? then t else MaxNode(t.right)
  }

  /** The way to the leftmost node of `t`, continuing `path`. */
  function MinPath(path: Path, t: Tree): Path
    requires t.Node?
    decreases t
  {
    if t.left.Leaf? then path else MinPath(LeftOf(path, t.id, t.color, t.right), t.left)
  }

  /** `t` with its leftmost node replaced by that node's right subtree. */
  function RemoveMin(t: Tree): Tree
    requires t.Node?
  {
    if t.left.Leaf? then t.right else t.(left := RemoveMin(t.left))
  }

  /**
    Unlinking `t`'s root: the path to the place that lost a node, the subtree
    that moved up there, and the colour that went missing.  With two children
    the in-order successor leaves its place and takes over the root's place,
    left subtree and colour.
  */
  function Unlink(path: Path, t: Tree): (Path, Tree, Color)
    requires t.Node?
  {
    if t.left.Leaf? then (path, t.right, t.color)
    else if t.right.Leaf? then (path, t.left, t.color)
    else
      var y := MinNode(t.right);
      (MinPath(RightOf(path, t.left, y.id, t.color), t.right), y.right, y.color)
  }

  lemma {:induction false} PlugMinPath(path: Path, t: Tree)
    requires t.Node?
    ensures Plug(MinPath(path, t), MinNode(t)) == Plug(path, t)
    ensures Plug(MinPath(path, t), MinNode(t).right) == Plug(path, RemoveMin(t))
    decreases t
  {
    if t.left.Node? {
      PlugMinPath(LeftOf(path, t.id, t.color, t.right), t.left);
    }
  }

  lemma {:induction false} InOrderRemoveMin(t: Tree)
    requires t.Node?
    ensures InOrder(t) == [MinNode(t).id] + InOrder(RemoveMin(t))
  {
    if t.left.Node? {
      InOrderRemoveMin(t.left);
    }
  }

  /** Unlinking takes exactly the root of `t` out of the in-order sequence. */
  lemma {:induction false} UnlinkOrder(path: Path, t: Tree)
    requires t.Node?
    ensures var (path', t', _) := Unlink(path, t);
            InOrder(Plug(path', t')) == Before(path) + InOrder(t.left) + InOrder(t.right) + After(path)
  {
    var (path', t', _) := Unlink(path, t);
    if t.left.Node? && t.right.Node? {
      var y := MinNode(t.right);
      PlugMinPath(RightOf(path, t.left, y.id, t.color), t.right);
      var u := Node(t.left, y.id, t.color, RemoveMin(t.right));
      InOrderPlug(path, u);
      InOrderRemoveMin(t.right);
      Regroup(InOrder(t.left), [y.id], InOrder(RemoveMin(t.right)));
    } else {
      InOrderPlug(path, t');
      assert InOrder(t') == InOrder(t.left) + InOrder(t.right);
    }
    Regroup(Before(path), InOrder(t.left), InOrder(t.right));
  }

  /** What holds at the head of the delete fix-up loop: the focus is one black node short. */
  predicate DeleteInv(path: Path, t: Tree) {
    && Balanced(t) && PathBalanced(path, BlackHeight(t) + 1)
    && NoRedRed(Paint(t, Black)) && PathNoRedRed(path, Black)
    && PathRootBlack(path)
  }

  function WithSibling(path: Path, s: Tree): Path
    requires !path.Top?
  {
    if path.LeftOf? then path.(right := s) else path.(left := s)
  }

  /** The way to the focus after the parent is rotated below a red sibling. */
  function LiftRedSibling(path: Path): Path
    requires !path.Top? && Sibling(path).Node?
  {
    var s := Sibling(path);
    if path.LeftOf? then
      LeftOf(LeftOf(path.up, s.id, Black, s.right), path.id, Red, s.left)
    else
      RightOf(RightOf(path.up, s.left, s.id, Black), s.right, path.id, Red)
  }

  /** The parent's subtree after the rotations that end the loop. */
  function DeleteRotate(path: Path, t: Tree): Tree
    requires !path.Top? && Sibling(path).Node?
  {
    var s, p, c := Sibling(path), path.id, path.color;
    if path.LeftOf? then
      if ColorOf(s.right) == Black && s.left.Node? then
        var n := s.left;
        Node(Node(t, p, Black, n.left), n.id, c, Node(n.right, s.id, Black, s.right))
      else
        Node(Node(t, p, Black, s.left), s.id, c, Paint(s.right, Black))
    else
      if ColorOf(s.left) == Black && s.right.Node? then
        var n := s.right;
        Node(Node(s.left, s.id, Black, n.left), n.id, c, Node(n.right, p, Black, t))
      else
        Node(Paint(s.left, Black), s.id, c, Node(s.right, p, Black, t))
  }

  /** The rest of an iteration, with a black sibling. */
  function DeleteStepBlack(path: Path, t: Tree): (Path, Tree)
    requires !path.Top?
  {
    var s := Sibling(path);
    if s.Leaf? then (Top, Plug(path, t))
    else if ColorOf(s.left) == Black && ColorOf(s.right) == Black then
      (path.up, Fill(WithSibling(path, Paint(s, Red)), t))
    else
      (Top, Plug(path.up, DeleteRotate(path, t)))
  }

  /** One iteration of the delete fix-up loop, entered with a black focus below the root. */
  function DeleteStep(path: Path, t: Tree): (Path, Tree)
    requires !path.Top?
  {
    if ColorOf(Sibling(path)) == Red then DeleteStepBlack(LiftRedSibling(path), t)
    else DeleteStepBlack(path, t)
  }

  /** Twice the depth of the focus, plus one if it is black. */
  function DeleteMeasure(path: Path, t: Tree): nat {
    2 * Depth(path) + (if ColorOf(t) == Black then 1 else 0)
  }

  /** The loop's measure falls on every iteration, whatever the tree looks like. */
  lemma {:induction false} DeleteMeasureFalls(path: Path, t: Tree)
    requires !path.Top? && ColorOf(t) == Black
    ensures var (path', t') := DeleteStep(path, t); DeleteMeasure(path', t') < DeleteMeasure(path, t)
  {
    if ColorOf(Sibling(path)) == Red {
      var lifted := LiftRedSibling(path);
      assert Depth(lifted) == 1 + Depth(lifted.up) == 1 + Depth(path);
      assert lifted.color == Red;
    }
  }

  /** The tree the delete fix-up leaves behind. */
  function DeleteFix(path: Path, t: Tree): Tree
    decreases DeleteMeasure(path, t)
  {
    if path.Top? || ColorOf(t) == Red then
      Plug(path, Paint(t, Black))
    else
      var (path', t') := DeleteStep(path, t);
      DeleteMeasureFalls(path, t);
      DeleteFix(path', t')
  }

  lemma {:induction false} DeleteFixStep(path: Path, t: Tree)
    requires !path.Top? && ColorOf(t) == Black
    ensures var (path', t') := DeleteStep(path, t);
            DeleteFix(path, t) == DeleteFix(path', t') && DeleteMeasure(path', t') < DeleteMeasure(path, t)
  {
    DeleteMeasureFalls(path, t);
  }

  lemma DeleteFixDone(path: Path, t: Tree)
    requires path.Top? || ColorOf(t) == Red
    ensures DeleteFix(path, t) == Plug(path, Paint(t, Black))
  {}

  lemma {:induction false} LiftRedSiblingOrder(path: Path, t: Tree)
    requires !path.Top? && Sibling(path).Node?
    ensures InOrder(Plug(LiftRedSibling(path), t)) == InOrder(Plug(path, t))
  {
    var lifted, s := LiftRedSibling(path), Sibling(path);
    var n := Fill(lifted.up, Fill(lifted, t));
    assert Plug(lifted, t) == Plug(lifted.up, Fill(lifted, t)) == Plug(path.up, n);
    if path.LeftOf? {
      RotationOrder(t, path.id, s.left, s.id, s.right, Red, Black, path.color, s.color);
    } else {
      RotationOrder(s.left, s.id, s.right, path.id, t, s.color, path.color, Black, Red);
    }
    InOrderPlug(path.up, n);
    InOrderPlug(path.up, Fill(path, t));
  }

  lemma {:induction false} DeleteRotateOrder(path: Path, t: Tree)
    requires !path.Top? && Sibling(path).Node?
    ensures InOrder(DeleteRotate(path, t)) == InOrder(Fill(path, t))
  {
    var s, p, c := Sibling(path), path.id, path.color;
    if path.LeftOf? {
      if ColorOf(s.right) == Black && s.left.Node? {
        var n := s.left;
        RotationOrder(n.left, n.id, n.right, s.id, s.right, n.color, s.color, n.color, Black);
        RotationOrder(t, p, n.left, n.id, Node(n.right, s.id, Black, s.right), Black, c, c, n.color);
      } else {
        RotationOrder(t, p, s.left, s.id, Paint(s.right, Black), Black, c, c, s.color);
        assert InOrder(Paint(s.right, Black)) == InOrder(s.right);
      }
    } else {
      if ColorOf(s.left) == Black && s.right.Node? {
        var n := s.right;
        RotationOrder(s.left, s.id, n.left, n.id, n.right, Black, n.color, s.color, n.color);
        RotationOrder(Node(s.left, s.id, Black, n.left), n.id, n.right, p, t, n.color, c, c, Black);
      } else {
        RotationOrder(Paint(s.left, Black), s.id, s.right, p, t, s.color, c, c, Black);
        assert InOrder(Paint(s.left, Black)) == InOrder(s.left);
      }
    }
  }

  lemma {:induction false} DeleteStepBlackOrder(path: Path, t: Tree)
    requires !path.Top?
    ensures var (path', t') := DeleteStepBlack(path, t);
            InOrder(Plug(path', t')) == InOrder(Plug(path, t))
  {
    var s := Sibling(path);
    InOrderPlug(path.up, Fill(path, t));
    if s.Node? {
      if ColorOf(s.left) == Black && ColorOf(s.right) == Black {
        assert InOrder(Paint(s, Red)) == InOrder(s);
        InOrderPlug(path.up, Fill(WithSibling(path, Paint(s, Red)), t));
      } else {
        DeleteRotateOrder(path, t);
        InOrderPlug(path.up, DeleteRotate(path, t));
      }
    }
  }

  lemma {:induction false} DeleteStepOrder(path: Path, t: Tree)
    requires !path.Top?
    ensures var (path', t') := DeleteStep(path, t);
            InOrder(Plug(path', t')) == InOrder(Plug(path, t))
  {
    if ColorOf(Sibling(path)) == Red {
      LiftRedSiblingOrder(path, t);
      DeleteStepBlackOrder(LiftRedSibling(path), t);
    } else {
      DeleteStepBlackOrder(path, t);
    }
  }

  /** The focus's sibling is a real node, and after a red sibling is lifted the new one is a real black node. */
  lemma {:induction false} SiblingIsNode(path: Path, t: Tree)
    requires DeleteInv(path, t) && !path.Top? && ColorOf(t) == Black
    ensures Sibling(path).Node?
    ensures ColorOf(Sibling(path)) == Red ==>
              var lifted := LiftRedSibling(path);
              DeleteInv(lifted, t) && Sibling(lifted).Node? && ColorOf(Sibling(lifted)) == Black
  {
    assert PathNoRedRed(path.up, path.color);
    var s := Sibling(path);
    if ColorOf(s) == Red {
      assert path.color == Black;
      var lifted := LiftRedSibling(path);
      PathNoRedRedBlackHole(path.up, Black);
      var h := BlackHeight(t) + 1;
      assert PathBalanced(path.up, h + 1);
      assert PathBalanced(lifted.up, h);
      assert Balanced(s.left) && Balanced(s.right) && BlackHeight(s.left) == h == BlackHeight(s.right);
      assert PathRootBlack(lifted.up) && PathNoRedRed(lifted.up, Red);
    }
  }

  lemma {:induction false} DeleteStepBlackInv(path: Path, t: Tree)
    requires DeleteInv(path, t) && !path.Top? && ColorOf(t) == Black
    requires Sibling(path).Node? && ColorOf(Sibling(path)) == Black
    ensures var (path', t') := DeleteStepBlack(path, t); DeleteInv(path', t')
  {
    var s := Sibling(path);
    assert PathNoRedRed(path.up, path.color);
    PathNoRedRedBlackHole(path.up, path.color);
    if ColorOf(s.left) == Black && ColorOf(s.right) == Black {
      assert Balanced(Paint(s, Red)) && NoRedRed(Paint(s, Red));
    } else {
      DeleteRotateInv(path, t);
      PlugKeepsInvariants(path.up, DeleteRotate(path, t));
    }
  }

  lemma {:induction false} DeleteRotateInv(path: Path, t: Tree)
    requires DeleteInv(path, t) && !path.Top? && ColorOf(t) == Black
    requires Sibling(path).Node? && ColorOf(Sibling(path)) == Black
    requires ColorOf(Sibling(path).left) == Red || ColorOf(Sibling(path).right) == Red
    ensures var n := DeleteRotate(path, t);
            && Balanced(n) && NoRedRed(n) && n.color == path.color
            && BlackHeight(n) == BlackHeight(t) + 1 + (if path.color == Black then 1 else 0)
  {
    var s, n := Sibling(path), DeleteRotate(path, t);
    assert BlackHeight(s) == BlackHeight(t) + 1;
    assert BlackHeight(s.left) == BlackHeight(t) == BlackHeight(s.right);
    assert Balanced(s.left) && Balanced(s.right) && NoRedRed(s.left) && NoRedRed(s.right);
    assert n.left.Node? && n.right.Node?;
    assert Balanced(n.left) && NoRedRed(n.left);
    assert Balanced(n.right) && NoRedRed(n.right);
  }

  lemma {:induction false} DeleteStepInv(path: Path, t: Tree)
    requires DeleteInv(path, t) && !path.Top? && ColorOf(t) == Black
    ensures var (path', t') := DeleteStep(path, t); DeleteInv(path', t')
  {
    SiblingIsNode(path, t);
    if ColorOf(Sibling(path)) == Red {
      DeleteStepBlackInv(LiftRedSibling(path), t);
    } else {
      DeleteStepBlackInv(path, t);
    }
  }

  /** The delete fix-up keeps the in-order sequence and restores every red-black invariant. */
  lemma {:induction false} DeleteFixCorrect(path: Path, t: Tree)
    requires DeleteInv(path, t)
    ensures IsRedBlack(DeleteFix(path, t))
    ensures InOrder(DeleteFix(path, t)) == Before(path) + InOrder(t) + After(path)
    decreases DeleteMeasure(path, t)
  {
    InOrderPlug(path, t);
    if path.Top? || ColorOf(t) == Red {
      InOrderPlug(path, Paint(t, Black));
      PlugKeepsInvariants(path, Paint(t, Black));
    } else {
      var (path', t') := DeleteStep(path, t);
      DeleteStepInv(path, t);
      DeleteStepOrder(path, t);
      DeleteFixStep(path, t);
      DeleteFixCorrect(path', t');
      InOrderPlug(path', t');
    }
  }

  /** Unlinking leaves the loop invariant, or no damage at all when the lost colour was red. */
  lemma {:induction false} UnlinkInv(path: Path, t: Tree)
    requires t.Node? && IsRedBlack(Plug(path, t))
    ensures var (path', t', c) := Unlink(path, t);
            if c == Black then DeleteInv(path', t') else IsRedBlack(Plug(path', t'))
  {
    if t.left.Node? && t.right.Node? {
      var y := MinNode(t.right);
      var u := t.(id := y.id);
      var base := RightOf(path, t.left, y.id, t.color);
      UnplugKeepsInvariants(path, t);
      assert Balanced(u) && NoRedRed(u) && BlackHeight(u) == BlackHeight(t);
      PlugKeepsInvariants(path, u);
      PlugMinPath(base, t.right);
      assert Plug(base, t.right) == Plug(path, u);
      UnlinkOneChildInv(MinPath(base, t.right), y);
    } else {
      UnlinkOneChildInv(path, t);
    }
  }

  lemma {:induction false} UnlinkOneChildInv(path: Path, t: Tree)
    requires t.Node? && IsRedBlack(Plug(path, t))
    requires t.left.Leaf? || t.right.Leaf?
    ensures var t' := if t.left.Leaf? then t.right else t.left;
            if t.color == Black then DeleteInv(path, t') else IsRedBlack(Plug(path, t'))
  {
    UnplugKeepsInvariants(path, t);
    PathNoRedRedBlackHole(path, t.color);
    var t' := if t.left.Leaf? then t.right else t.left;
    assert BlackHeight(t') == 0;
    if t.color == Red {
      assert t'.Leaf?;
      assert !path.Top?;
      PlugKeepsInvariants(path, t');
    }
  }

  /** In a red-black tree a node with one child has a red childless child and is black. */
  lemma {:induction false} OneChildIsRed(path: Path, t: Tree)
    requires t.Node? && IsRedBlack(Plug(path, t))
    ensures t.left.Leaf? && t.right.Node? ==> t.color == Black && t.right == Node(Leaf, t.right.id, Red, Leaf)
    ensures t.right.Leaf? && t.left.Node? ==> t.color == Black && t.left == Node(Leaf, t.left.id, Red, Leaf)
  {
    UnplugKeepsInvariants(path, t);
    if t.left.Leaf? && t.right.Node? {
      assert ColorOf(t.right) == Red;
      BlackHeightZero(t.right.left);
      BlackHeightZero(t.right.right);
    }
    if t.right.Leaf? && t.left.Node? {
      assert ColorOf(t.left) == Red;
      BlackHeightZero(t.left.left);
      BlackHeightZero(t.left.right);
    }
  }

  lemma BlackHeightZero(t: Tree)
    requires BlackHeight(t) == 0 && ColorOf(t) == Black
    ensures t.Leaf?
  {}

  /** The tree after deleting the root of `t`. */
  function Deleted(path: Path, t: Tree): Tree
    requires t.Node?
  {
    var (path', t', c) := Unlink(path, t);
    if c == Black then DeleteFix(path', t') else Plug(path', t')
  }

  /** Deleting removes exactly that node and leaves a red-black tree. */
  lemma {:induction false} DeletedCorrect(path: Path, t: Tree)
    requires t.Node? && IsRedBlack(Plug(path, t))
    ensures IsRedBlack(Deleted(path, t))
    ensures InOrder(Deleted(path, t)) == Before(path) + InOrder(t.left) + InOrder(t.right) + After(path)
  {
    var (path', t', c) := Unlink(path, t);
    UnlinkInv(path, t);
    UnlinkOrder(path, t);
    if c == Black {
      DeleteFixCorrect(path', t');
      InOrderPlug(path', t');
    }
  }
}
