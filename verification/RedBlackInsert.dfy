/** The insert fix-up loop on (path, subtree) pairs. */
module RedBlackInsert {
  import opened RedBlack

  // ---------- Insert fix-up ----------

  /** What holds at the head of the insert fix-up loop: at most one red-red edge, above the focus. */
  predicate InsertInv(path: Path, t: Tree) {
    && t.Node? && (t.color == Red || path.Top?)
    && Balanced(t) && PathBalanced(path, BlackHeight(t))
    && NoRedRed(t) && PathNoRedRed(path, Black)
    && PathRootBlack(path)
  }

  /** The other child of the grandparent. */
  function Uncle(path: Path): Tree
    requires !path.Top? && !path.up.Top?
  {
    if path.up.LeftOf? then path.up.right else path.up.left
  }

  /** Parent and uncle black, grandparent red. */
  function InsertRecolor(path: Path, t: Tree): Tree
    requires !path.Top? && !path.up.Top?
  {
    if path.up.LeftOf? then
      Node(Paint(Fill(path, t), Black), path.up.id, Red, Paint(Uncle(path), Black))
    else
      Node(Paint(Uncle(path), Black), path.up.id, Red, Paint(Fill(path, t), Black))
  }

  /** The grandparent's subtree after one rotation (outer grandchild) or two (inner grandchild). */
  function InsertRotate(path: Path, t: Tree): Tree
    requires !path.Top? && !path.up.Top?
  {
    var u, p, g := Uncle(path), path.id, path.up.id;
    if path.up.LeftOf? && path.LeftOf? then
      Node(t, p, Black, Node(path.right, g, Red, u))
    else if path.up.RightOf? && path.RightOf? then
      Node(Node(u, g, Red, path.left), p, Black, t)
    else if t.Leaf? then
      Fill(path.up, Fill(path, t))
    else if path.up.LeftOf? then
      Node(Node(path.left, p, Red, t.left), t.id, Black, Node(t.right, g, Red, u))
    else
      Node(Node(u, g, Red, t.left), t.id, Black, Node(t.right, p, Red, path.right))
  }

  /**
    One iteration of the insert fix-up loop, entered with a red parent.
    The rotating cases finish the loop, so they hand back the whole tree.
    A red parent is never the root; where it would be, nothing is done.
  */
  function InsertStep(path: Path, t: Tree): (Path, Tree)
    requires ParentColor(path) == Red
  {
    if path.up.Top? then (Top, Plug(path, t))
    else if ColorOf(Uncle(path)) == Red then (path.up.up, InsertRecolor(path, t))
    else (Top, Plug(path.up.up, InsertRotate(path, t)))
  }

  /** The tree the insert fix-up leaves behind. */
  function InsertFix(path: Path, t: Tree): Tree
    decreases Depth(path)
  {
    if ParentColor(path) == Black then
      Paint(Plug(path, t), Black)
    else
      var (path', t') := InsertStep(path, t);
      assert Depth(path) > 0 && (!path.up.Top? ==> Depth(path) == 2 + Depth(path.up.up));
      InsertFix(path', t')
  }

  lemma {:induction false} InsertFixStep(path: Path, t: Tree)
    requires ParentColor(path) == Red
    ensures var (path', t') := InsertStep(path, t);
            InsertFix(path, t) == InsertFix(path', t') && Depth(path') < Depth(path)
  {
    assert !path.up.Top? ==> Depth(path) == 2 + Depth(path.up.up);
  }

  lemma InsertFixDone(path: Path, t: Tree)
    requires ParentColor(path) == Black
    ensures InsertFix(path, t) == Paint(Plug(path, t), Black)
  {}

  lemma {:induction false} InsertStepOrder(path: Path, t: Tree)
    requires ParentColor(path) == Red
    ensures var (path', t') := InsertStep(path, t);
            InOrder(Plug(path', t')) == InOrder(Plug(path, t))
  {
    if !path.up.Top? {
      var up, g := path.up.up, Fill(path.up, Fill(path, t));
      assert Plug(path, t) == Plug(path.up, Fill(path, t)) == Plug(up, g);
      InOrderPlug(up, g);
      if ColorOf(Uncle(path)) == Red {
        assert InOrder(InsertRecolor(path, t)) == InOrder(g);
        InOrderPlug(up, InsertRecolor(path, t));
      } else {
        InsertRotateOrder(path, t);
        InOrderPlug(up, InsertRotate(path, t));
      }
    }
  }

  lemma {:induction false} InsertRotateOrder(path: Path, t: Tree)
    requires !path.Top? && !path.up.Top?
    ensures InOrder(InsertRotate(path, t)) == InOrder(Fill(path.up, Fill(path, t)))
  {
    var u, p, g := Uncle(path), path.id, path.up.id;
    if path.up.LeftOf? && path.LeftOf? {
      RotationOrder(t, p, path.right, g, u, path.color, path.up.color, Black, Red);
    } else if path.up.RightOf? && path.RightOf? {
      RotationOrder(u, g, path.left, p, t, Red, Black, path.up.color, path.color);
    } else if t.Node? {
      if path.up.LeftOf? {
        RotationOrder(path.left, p, t.left, t.id, t.right, Red, t.color, path.color, t.color);
        RotationOrder(Node(path.left, p, Red, t.left), t.id, t.right, g, u, t.color, path.up.color, Black, Red);
      } else {
        RotationOrder(t.left, t.id, t.right, p, path.right, t.color, path.color, t.color, Red);
        RotationOrder(u, g, t.left, t.id, Node(t.right, p, Red, path.right), Red, Black, path.up.color, t.color);
      }
    }
  }

  /** What a red parent says about the two frames above the focus. */
  lemma {:induction false} RedParentFacts(path: Path, t: Tree)
    requires InsertInv(path, t) && ParentColor(path) == Red
    ensures !path.up.Top? && path.up.color == Black
    ensures var h, up, s, u := BlackHeight(t), path.up.up, Sibling(path), Uncle(path);
            && Balanced(s) && BlackHeight(s) == h && NoRedRed(s) && ColorOf(s) == Black
            && Balanced(u) && BlackHeight(u) == h && NoRedRed(u)
            && PathBalanced(up, h + 1) && PathNoRedRed(up, Black) && PathRootBlack(up)
  {
    assert PathNoRedRed(path.up, Red);
    assert PathRootBlack(path.up);
    assert PathBalanced(path.up, BlackHeight(t));
  }

  lemma {:induction false} InsertRotateInv(path: Path, t: Tree)
    requires InsertInv(path, t) && ParentColor(path) == Red && !path.up.Top?
    requires ColorOf(Uncle(path)) == Black
    ensures var n := InsertRotate(path, t);
            n.Node? && Balanced(n) && NoRedRed(n) && n.color == Black && BlackHeight(n) == BlackHeight(t) + 1
  {
    RedParentFacts(path, t);
    var n := InsertRotate(path, t);
    assert n.left.Node? && n.right.Node?;
    assert Balanced(n.left) && NoRedRed(n.left) && BlackHeight(n.left) == BlackHeight(t);
    assert Balanced(n.right) && NoRedRed(n.right) && BlackHeight(n.right) == BlackHeight(t);
  }

  lemma {:induction false} InsertStepInv(path: Path, t: Tree)
    requires InsertInv(path, t) && ParentColor(path) == Red
    ensures !path.up.Top? && path.up.color == Black
    ensures var (path', t') := InsertStep(path, t); InsertInv(path', t')
  {
    RedParentFacts(path, t);
    if ColorOf(Uncle(path)) == Black {
      var up, n := path.up.up, InsertRotate(path, t);
      InsertRotateInv(path, t);
      PlugKeepsInvariants(up, n);
      PlugIsNode(up, n);
    } else {
      var n := InsertRecolor(path, t);
      assert Balanced(n.left) && NoRedRed(n.left) && BlackHeight(n.left) == BlackHeight(t) + 1;
      assert Balanced(n.right) && NoRedRed(n.right) && BlackHeight(n.right) == BlackHeight(t) + 1;
    }
  }

  /** The insert fix-up keeps the in-order sequence and restores every red-black invariant. */
  lemma {:induction false} InsertFixCorrect(path: Path, t: Tree)
    requires InsertInv(path, t)
    ensures IsRedBlack(InsertFix(path, t))
    ensures InOrder(InsertFix(path, t)) == Before(path) + InOrder(t) + After(path)
    decreases Depth(path)
  {
    InOrderPlug(path, t);
    if ParentColor(path) == Black {
      PathNoRedRedParentBlack(path, ColorOf(t));
      PlugKeepsInvariants(path, t);
    } else {
      var (path', t') := InsertStep(path, t);
      InsertStepInv(path, t);
      InsertStepOrder(path, t);
      InsertFixStep(path, t);
      InsertFixCorrect(path', t');
      InOrderPlug(path', t');
    }
  }

  lemma {:induction false} PathNoRedRedParentBlack(path: Path, c: Color)
    requires PathNoRedRed(path, Black) && ParentColor(path) == Black
    ensures PathNoRedRed(path, c)
  {}

  // ---------- Which links survive the insert fix-up ----------

  predicate OnLeftSpine(path: Path) {
    path.Top? || (path.LeftOf? && OnLeftSpine(path.up))
  }

  predicate OnRightSpine(path: Path) {
    path.Top? || (path.RightOf? && OnRightSpine(path.up))
  }

  /** Somewhere down the left spine, `n` is the left child of `p`. */
  predicate LeftLink(t: Tree, p: Ptr, n: Ptr) {
    t.Node? && ((t.id == p && RootId(t.left) == n) || LeftLink(t.left, p, n))
  }

  predicate RightLink(t: Tree, p: Ptr, n: Ptr) {
    t.Node? && ((t.id == p && RootId(t.right) == n) || RightLink(t.right, p, n))
  }

  lemma {:induction false} LeftLinkPlug(path: Path, t: Tree, p: Ptr, n: Ptr)
    requires OnLeftSpine(path) && LeftLink(t, p, n)
    ensures LeftLink(Plug(path, t), p, n)
    decreases path
  {
    if !path.Top? { LeftLinkPlug(path.up, Fill(path, t), p, n); }
  }

  lemma {:induction false} RightLinkPlug(path: Path, t: Tree, p: Ptr, n: Ptr)
    requires OnRightSpine(path) && RightLink(t, p, n)
    ensures RightLink(Plug(path, t), p, n)
    decreases path
  {
    if !path.Top? { RightLinkPlug(path.up, Fill(path, t), p, n); }
  }

  /** The link between a new minimum and the old one survives every rotation of the fix-up. */
  lemma {:induction false} InsertFixLeftLink(path: Path, t: Tree, p: Ptr, n: Ptr)
    requires InsertInv(path, t) && OnLeftSpine(path)
    requires if path.Top? then LeftLink(t, p, n) else LeftLink(Fill(path, t), p, n)
    ensures LeftLink(InsertFix(path, t), p, n)
    decreases Depth(path)
  {
    if ParentColor(path) == Black {
      if !path.Top? { LeftLinkPlug(path.up, Fill(path, t), p, n); }
    } else {
      InsertStepInv(path, t);
      var up := path.up.up;
      assert OnLeftSpine(path.up) && Depth(path) == 2 + Depth(up);
      if ColorOf(Uncle(path)) == Red {
        assert LeftLink(InsertRecolor(path, t).left, p, n);
        InsertFixLeftLink(up, InsertRecolor(path, t), p, n);
      } else {
        LeftLinkPlug(up, InsertRotate(path, t), p, n);
        InsertFixLeftLink(Top, Plug(up, InsertRotate(path, t)), p, n);
      }
    }
  }

  lemma {:induction false} InsertFixRightLink(path: Path, t: Tree, p: Ptr, n: Ptr)
    requires InsertInv(path, t) && OnRightSpine(path)
    requires if path.Top? then RightLink(t, p, n) else RightLink(Fill(path, t), p, n)
    ensures RightLink(InsertFix(path, t), p, n)
    decreases Depth(path)
  {
    if ParentColor(path) == Black {
      if !path.Top? { RightLinkPlug(path.up, Fill(path, t), p, n); }
    } else {
      InsertStepInv(path, t);
      var up := path.up.up;
      assert OnRightSpine(path.up) && Depth(path) == 2 + Depth(up);
      if ColorOf(Uncle(path)) == Red {
        assert RightLink(InsertRecolor(path, t).right, p, n);
        InsertFixRightLink(up, InsertRecolor(path, t), p, n);
      } else {
        RightLinkPlug(up, InsertRotate(path, t), p, n);
        InsertFixRightLink(Top, Plug(up, InsertRotate(path, t)), p, n);
      }
    }
  }
}
