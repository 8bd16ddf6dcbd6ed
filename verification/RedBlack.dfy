/**
  The shape of the intrusive red-black tree, as a value.

  A node is named by the arena block it lives in.  A `Path` is a zipper: the
  way from a subtree up to the root.  The modules `RedBlackInsert` and `RedBlackDelete`
  follow the two fix-up loops one iteration at a time on (path, subtree) pairs and prove
  what they do; the pointer code in `BinarySearchTree` is proved to compute them.
*/
module RedBlack {
  import opened Words
  import opened Chains

  type Ptr = nat

  /** The sentinel: every absent child, and the parent of the root. */
  const NIL: Ptr := 0

  datatype Color = Red | Black

  datatype Tree = Leaf | Node(left: Tree, id: Ptr, color: Color, right: Tree)

  datatype Path =
    | Top
    | LeftOf(up: Path, id: Ptr, color: Color, right: Tree)
    | RightOf(up: Path, left: Tree, id: Ptr, color: Color)

  // ---------- Observers ----------

  function RootId(t: Tree): Ptr {
    if t.Leaf? then NIL else t.id
  }

  function ColorOf(t: Tree): Color {
    if t.Leaf? then Black else t.color
  }

  function ParentId(path: Path): Ptr {
    if path.Top? then NIL else path.id
  }

  function ParentColor(path: Path): Color {
    if path.Top? then Black else path.color
  }

  /** The subtree of the innermost frame of `path` once `t` fills the hole. */
  function Fill(path: Path, t: Tree): Tree
    requires !path.Top?
  {
    match path
    case LeftOf(_, id, c, r) => Node(t, id, c, r)
    case RightOf(_, l, id, c) => Node(l, id, c, t)
  }

  function Sibling(path: Path): Tree
    requires !path.Top?
  {
    if path.LeftOf? then path.right else path.left
  }

  function Plug(path: Path, t: Tree): Tree
    decreases path
  {
    if path.Top? then t else Plug(path.up, Fill(path, t))
  }

  function Depth(path: Path): nat {
    if path.Top? then 0 else 1 + Depth(path.up)
  }

  function Paint(t: Tree, c: Color): Tree {
    if t.Leaf? then t else t.(color := c)
  }

  // ---------- In-order sequence ----------

  function InOrder(t: Tree): seq<Ptr> {
    if t.Leaf? then [] else InOrder(t.left) + [t.id] + InOrder(t.right)
  }

  /** The nodes that precede the hole. */
  function Before(path: Path): seq<Ptr> {
    match path
    case Top => []
    case LeftOf(up, _, _, _) => Before(up)
    case RightOf(up, l, id, _) => Before(up) + InOrder(l) + [id]
  }

  /** The nodes that follow the hole. */
  function After(path: Path): seq<Ptr> {
    match path
    case Top => []
    case LeftOf(up, id, _, r) => [id] + InOrder(r) + After(up)
    case RightOf(up, _, _, _) => After(up)
  }

  lemma {:induction false} InOrderPlug(path: Path, t: Tree)
    ensures InOrder(Plug(path, t)) == Before(path) + InOrder(t) + After(path)
    decreases path
  {
    if !path.Top? {
      InOrderPlug(path.up, Fill(path, t));
      var b, x, a, s, p := Before(path.up), InOrder(t), After(path.up), InOrder(Sibling(path)), [path.id];
      if path.LeftOf? {
        Regroup(x, p, s);
        Regroup(b, x, p + s);
        Regroup(b + x, p + s, a);
      } else {
        Regroup(b, s + p, x);
        Regroup(b, s, p);
      }
    }
  }

  /** A rotation, with any recolouring, keeps the in-order sequence. */
  lemma {:induction false} RotationOrder(a: Tree, x: Ptr, b: Tree, y: Ptr, c: Tree, c0: Color, c1: Color, d0: Color,
                                         d1: Color)
    ensures InOrder(Node(Node(a, x, c0, b), y, c1, c)) == InOrder(Node(a, x, d0, Node(b, y, d1, c)))
  {
    assert InOrder(a) + [x] + (InOrder(b) + [y] + InOrder(c)) == InOrder(a) + [x] + InOrder(b) + [y] + InOrder(c);
  }

  // ---------- Colour and balance invariants ----------

  /** Black nodes on the leftmost way down. */
  function BlackHeight(t: Tree): nat {
    if t.Leaf? then 0 else BlackHeight(t.left) + (if t.color == Black then 1 else 0)
  }

  /** Every way down from every node meets the same number of black nodes. */
  predicate Balanced(t: Tree) {
    t.Node? ==> Balanced(t.left) && Balanced(t.right) && BlackHeight(t.left) == BlackHeight(t.right)
  }

  predicate NoRedRed(t: Tree) {
    t.Node? ==>
      && (t.color == Red ==> ColorOf(t.left) == Black && ColorOf(t.right) == Black)
      && NoRedRed(t.left)
      && NoRedRed(t.right)
  }

  predicate IsRedBlack(t: Tree) {
    ColorOf(t) == Black && NoRedRed(t) && Balanced(t)
  }

  /** Filling the hole with a balanced tree of black height `h` gives a balanced tree. */
  predicate PathBalanced(path: Path, h: nat) {
    match path
    case Top => true
    case LeftOf(up, _, c, r) =>
      Balanced(r) && BlackHeight(r) == h && PathBalanced(up, h + (if c == Black then 1 else 0))
    case RightOf(up, l, _, c) =>
      Balanced(l) && BlackHeight(l) == h && PathBalanced(up, h + (if c == Black then 1 else 0))
  }

  /** Filling the hole with a tree whose root has colour `hole` makes no red-red edge outside that tree. */
  predicate PathNoRedRed(path: Path, hole: Color) {
    match path
    case Top => true
    case LeftOf(up, _, c, r) =>
      NoRedRed(r) && (c == Red ==> ColorOf(r) == Black && hole == Black) && PathNoRedRed(up, c)
    case RightOf(up, l, _, c) =>
      NoRedRed(l) && (c == Red ==> ColorOf(l) == Black && hole == Black) && PathNoRedRed(up, c)
  }

  predicate PathRootBlack(path: Path) {
    path.Top? || (if path.up.Top? then path.color == Black else PathRootBlack(path.up))
  }

  lemma {:induction false} PlugKeepsInvariants(path: Path, t: Tree)
    requires Balanced(t) && PathBalanced(path, BlackHeight(t))
    requires NoRedRed(t) && PathNoRedRed(path, ColorOf(t))
    requires PathRootBlack(path)
    ensures Balanced(Plug(path, t)) && NoRedRed(Plug(path, t))
    ensures !path.Top? ==> ColorOf(Plug(path, t)) == Black
    decreases path
  {
    if !path.Top? {
      PlugKeepsInvariants(path.up, Fill(path, t));
    }
  }

  lemma {:induction false} UnplugKeepsInvariants(path: Path, t: Tree)
    requires IsRedBlack(Plug(path, t))
    ensures Balanced(t) && PathBalanced(path, BlackHeight(t))
    ensures NoRedRed(t) && PathNoRedRed(path, ColorOf(t))
    ensures PathRootBlack(path)
    ensures path.Top? ==> ColorOf(t) == Black
    decreases path
  {
    if !path.Top? {
      UnplugKeepsInvariants(path.up, Fill(path, t));
    }
  }

  lemma {:induction false} PathNoRedRedBlackHole(path: Path, c: Color)
    requires PathNoRedRed(path, c)
    ensures PathNoRedRed(path, Black)
  {}

  lemma {:induction false} PlugIsNode(path: Path, t: Tree)
    ensures Plug(path, t).Leaf? <==> path.Top? && t.Leaf?
    decreases path
  {
    if !path.Top? { PlugIsNode(path.up, Fill(path, t)); }
  }

  // ---------- Height ----------

  function Max(a: nat, b: nat): nat {
    if a < b then b else a
  }

  function Height(t: Tree): nat {
    if t.Leaf? then 0 else 1 + Max(Height(t.left), Height(t.right))
  }

  function Size(t: Tree): nat {
    if t.Leaf? then 0 else Size(t.left) + 1 + Size(t.right)
  }

  lemma {:induction false} HeightByBlackHeight(t: Tree)
    requires NoRedRed(t) && Balanced(t)
    ensures Height(t) <= 2 * BlackHeight(t) + (if ColorOf(t) == Red then 1 else 0)
  {
    if t.Node? {
      HeightByBlackHeight(t.left);
      HeightByBlackHeight(t.right);
    }
  }

  lemma {:induction false} SizeByBlackHeight(t: Tree)
    requires Balanced(t)
    ensures Pow2(BlackHeight(t)) <= Size(t) + 1
  {
    if t.Node? {
      SizeByBlackHeight(t.left);
      SizeByBlackHeight(t.right);
    }
  }

  lemma SquareMonotone(a: nat, b: nat)
    requires a <= b
    ensures a * a <= b * b
  {
    assert a * a <= a * b <= b * b;
  }

  /** A red-black tree of n nodes has height at most 2*log2(n+1). */
  lemma {:induction false} HeightBound(t: Tree)
    requires IsRedBlack(t)
    ensures Pow2(Height(t)) <= (Size(t) + 1) * (Size(t) + 1)
  {
    var h, s := Pow2(BlackHeight(t)), Size(t) + 1;
    HeightByBlackHeight(t);
    SizeByBlackHeight(t);
    Pow2Monotone(Height(t), BlackHeight(t) + BlackHeight(t));
    Pow2Sum(BlackHeight(t), BlackHeight(t));
    SquareMonotone(h, s);
  }
}
