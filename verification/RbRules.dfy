/** What the fix-up loops of src/collect/treetable.c keep, on trees as values. */
module RbRules {
  import opened RbTree

  // ---- Insertion ----

  /** What rebalance_after_insert keeps: the rules hold but for a red parent of the red tree t, or a red root. */
  predicate InsertInv(t: Tree, path: Path) {
    && t.Node? && t.color == Red
    && RedOk(t) && Balanced(t) && PathRedOk(path) && PathBalanced(path, BlackHeight(t))
  }

  lemma InsertDone(t: Tree, path: Path)
    requires InsertInv(t, path) && (path.Step? ==> path.color == Black)
    ensures Plug(t, path).Node? && RedBlack(Plug(t, path).(color := Black))
  {
    PlugFits(t, path);
    PlugNode(t, path);
  }

  function Depth(path: Path): nat {
    if path.Top? then 0 else 1 + Depth(path.up)
  }

  /** What each round of rebalance_after_insert lowers. */
  function InsertMeasure(path: Path): nat {
    if path.Step? && path.color == Red then Depth(path) else 0
  }

  /** The way up from the hole of path after the outer rotation. */
  function Lifted(path: Path): Path
    requires path.Step? && path.up.Step?
  {
    var g := path.up;
    Step(g.side, Black, path.n, Join(g.side, Red, path.sibling, g.n, g.sibling), g.up)
  }

  lemma LiftInv(t: Tree, path: Path)
    requires InsertInv(t, path) && path.Step? && path.color == Red && IsBlack(path.up.sibling)
    ensures InsertInv(t, Lifted(path))
  {
    var h := BlackHeight(t);
    assert PathRedOk(path.up) && PathBalanced(path.up, h);
  }

  /** The inner rotation makes the parent of t the red child of t's node. */
  lemma TurnInv(t: Tree, path: Path)
    requires InsertInv(t, path) && path.Step? && path.color == Red
    ensures path.side == Right ==>
      InsertInv(Node(Red, path.sibling, path.n, t.left), Step(Left, Red, t.n, t.right, path.up))
    ensures path.side == Left ==>
      InsertInv(Node(Red, t.right, path.n, path.sibling), Step(Right, Red, t.n, t.left, path.up))
  {
  }

  lemma UncleInv(t: Tree, path: Path)
    requires InsertInv(t, path) && path.Step? && path.color == Red && !IsBlack(path.up.sibling)
    ensures InsertInv(Join(path.up.side, Red, Join(path.side, Black, t, path.n, path.sibling), path.up.n,
                           path.up.sibling.(color := Black)), path.up.up)
    ensures InsertMeasure(path.up.up) < InsertMeasure(path)
  {
    assert Depth(path.up) == 1 + Depth(path.up.up);
    var p := Join(path.side, Black, t, path.n, path.sibling);
    var u := path.up.sibling.(color := Black);
    assert PathRedOk(path.up) && PathBalanced(path.up, BlackHeight(t));
    assert RedOk(p) && Balanced(p) && BlackHeight(p) == BlackHeight(t) + 1;
    assert RedOk(u) && Balanced(u) && BlackHeight(u) == BlackHeight(t) + 1;
  }

  // ---- Deletion ----

  /** The red rule holds in t but, if its root is red, between the root and its children. */
  predicate RedBelow(t: Tree) {
    t.Leaf? || (RedOk(t.left) && RedOk(t.right))
  }

  /** What rebalance_after_delete keeps: one more black at the root of t would make the whole tree red-black. */
  predicate DeleteInv(t: Tree, path: Path) {
    RedBelow(t) && Balanced(t) && PathRedOk(path) && PathBalanced(path, BlackHeight(t) + 1)
  }

  function Blackened(t: Tree): Tree {
    if t.Leaf? then t else t.(color := Black)
  }

  /** What each round of rebalance_after_delete lowers. */
  function DeleteMeasure(t: Tree, path: Path): nat {
    if path.Step? && IsBlack(t) then Depth(path) else 0
  }

  lemma DeleteDone(t: Tree, path: Path)
    requires DeleteInv(t, path) && (path.Top? || !IsBlack(t))
    ensures RedBlack(Plug(Blackened(t), path))
  {
    PlugFits(Blackened(t), path);
  }

  lemma DeleteSibling(t: Tree, path: Path)
    requires DeleteInv(t, path) && path.Step?
    ensures path.sibling.Node?
  {
  }

  /** A red sibling is rotated up: the hole gets a red parent and a black sibling. */
  function SiblingUp(path: Path): Path
    requires path.Step? && path.sibling.Node?
  {
    var w := path.sibling;
    var (near, far) := if path.side == Left then (w.left, w.right) else (w.right, w.left);
    Step(path.side, Red, path.n, near, Step(path.side, Black, w.n, far, path.up))
  }

  lemma SiblingUpInv(t: Tree, path: Path)
    requires DeleteInv(t, path) && path.Step? && !IsBlack(path.sibling)
    ensures DeleteInv(t, SiblingUp(path))
    ensures SiblingUp(path).sibling.Node? && IsBlack(SiblingUp(path).sibling)
  {
    var w := path.sibling;
    assert Balanced(w) && RedOk(w);
  }

  /** A black sibling with black children turns red, and its parent takes over the missing black. */
  lemma SiblingRedInv(t: Tree, path: Path)
    requires DeleteInv(t, path) && path.Step? && IsBlack(t)
    requires path.sibling.Node? && path.sibling.color == Black && IsBlack(path.sibling.left)
      && IsBlack(path.sibling.right)
    ensures DeleteInv(Join(path.side, path.color, t, path.n, path.sibling.(color := Red)), path.up)
  {
  }

  /** The outer nephew turned black in the sibling's place, the sibling in the parent's place. */
  function Borrowed(t: Tree, path: Path): Tree
    requires path.Step? && path.sibling.Node?
    requires if path.side == Left then path.sibling.right.Node? else path.sibling.left.Node?
  {
    var w := path.sibling;
    var (near, far) := if path.side == Left then (w.left, w.right) else (w.right, w.left);
    Join(path.side, path.color, Join(path.side, Black, t, path.n, near), w.n, far.(color := Black))
  }

  /** The black sibling w with its red inner child rotated into its place. */
  function Turned(side: Side, w: Tree): Tree
    requires w.Node? && if side == Left then w.left.Node? else w.right.Node?
  {
    if side == Left then RotatedRight(w.(color := Red, left := w.left.(color := Black)))
    else RotatedLeft(w.(color := Red, right := w.right.(color := Black)))
  }

  lemma TurnedInv(side: Side, w: Tree)
    requires w.Node? && RedOk(w) && Balanced(w) && w.color == Black
    requires side == Left ==> !IsBlack(w.left) && IsBlack(w.right)
    requires side == Right ==> !IsBlack(w.right) && IsBlack(w.left)
    ensures var w' := Turned(side, w);
            && w'.Node? && RedOk(w') && Balanced(w') && w'.color == Black && BlackHeight(w') == BlackHeight(w)
            && !IsBlack(if side == Left then w'.right else w'.left)
  {
    if side == Left {
      assert RedOk(w.left) && Balanced(w.left);
    } else {
      assert RedOk(w.right) && Balanced(w.right);
    }
  }

  /** The way up from the hole once the inner nephew has become the sibling. */
  function NephewUp(path: Path): Path
    requires path.Step? && path.sibling.Node?
    requires if path.side == Left then path.sibling.left.Node? else path.sibling.right.Node?
  {
    path.(sibling := Turned(path.side, path.sibling))
  }

  lemma NephewInv(t: Tree, path: Path)
    requires DeleteInv(t, path) && path.Step? && path.sibling.Node? && path.sibling.color == Black
    requires path.side == Left ==> !IsBlack(path.sibling.left) && IsBlack(path.sibling.right)
    requires path.side == Right ==> !IsBlack(path.sibling.right) && IsBlack(path.sibling.left)
    ensures DeleteInv(t, NephewUp(path)) && NephewUp(path).sibling.color == Black
    ensures !IsBlack(if path.side == Left then NephewUp(path).sibling.right else NephewUp(path).sibling.left)
  {
    TurnedInv(path.side, path.sibling);
  }

  /** What fits its place makes a whole tree without a missing black. */
  lemma FittedWhole(t: Tree, path: Path)
    requires Fits(t, path) && t.Node?
    ensures DeleteInv(Plug(t, path), Top) && Plug(t, path).Node?
  {
    PlugFits(t, path);
    PlugNode(t, path);
  }

  /** The two subtrees of the rotated tree. */
  lemma BorrowParts(t: Tree, p: RBNode, near: Tree, far: Tree)
    requires RedOk(t) && Balanced(t) && RedOk(near) && Balanced(near) && RedOk(far) && Balanced(far)
    requires !IsBlack(far) && BlackHeight(near) == BlackHeight(far) == BlackHeight(t)
    ensures var l := Join(Left, Black, t, p, near); RedOk(l) && Balanced(l) && BlackHeight(l) == BlackHeight(t) + 1
    ensures var l := Join(Right, Black, t, p, near); RedOk(l) && Balanced(l) && BlackHeight(l) == BlackHeight(t) + 1
    ensures var r := far.(color := Black); RedOk(r) && Balanced(r) && BlackHeight(r) == BlackHeight(t) + 1
  {
  }

  // ---- Taking a node out ----

  /** z has at most one child: that child takes its place. */
  lemma SpliceInv(t: Tree, path: Path, child: Tree)
    requires Fits(t, path) && t.Node?
    requires (t.left.Leaf? && child == t.right) || (t.right.Leaf? && child == t.left)
    ensures t.color == Black ==> DeleteInv(child, path)
    ensures t.color == Red ==> Fits(child, path)
  {
    assert RedOk(child) && Balanced(child);
    assert BlackHeight(t.left) == 0 == BlackHeight(t.right);
  }

  /** The rules do not see which node stands at a place. */
  lemma {:induction false} RenameInv(steps: Path, c: Color, z: RBNode, y: RBNode, left: Tree, path: Path, h: nat)
    ensures var b, b' := Append(steps, Step(Right, c, z, left, path)), Append(steps, Step(Right, c, y, left, path));
            && (PathRedOk(b) <==> PathRedOk(b')) && (RedFits(b) <==> RedFits(b'))
            && (PathBalanced(b, h) <==> PathBalanced(b', h))
  {
    if steps.Step? {
      RenameInv(steps.up, c, z, y, left, path, h + Weight(steps.color));
    }
  }

  /** z has two children: the first node y after it takes its place, and y's right subtree takes y's. */
  lemma SuccessorInv(t: Tree, path: Path, ty: Tree, steps: Path)
    requires Fits(t, path) && t.Node? && ty.Node? && ty.left.Leaf? && Plug(ty, steps) == t.right
    ensures var path' := Append(steps, Step(Right, t.color, ty.n, t.left, path));
            && (ty.color == Black ==> DeleteInv(ty.right, path'))
            && (ty.color == Red ==> Fits(ty.right, path'))
  {
    var b := Append(steps, Step(Right, t.color, t.n, t.left, path));
    PlugAppend(ty, steps, Step(Right, t.color, t.n, t.left, path));
    PlugFits(t, path);
    PlugFits(ty, b);
    SpliceInv(ty, b, ty.right);
    RenameInv(steps, t.color, t.n, ty.n, t.left, path, 0);
    RenameInv(steps, t.color, t.n, ty.n, t.left, path, 1);
  }

  // ---- The last round of rebalance_after_delete ----

  /** A red outer nephew ends the rebalancing. */
  lemma BorrowInv(t: Tree, path: Path)
    requires DeleteInv(t, path) && IsBlack(t) && path.Step? && path.sibling.Node? && path.sibling.color == Black
    requires !IsBlack(if path.side == Left then path.sibling.right else path.sibling.left)
    ensures Fits(Borrowed(t, path), path.up)
  {
    var w := path.sibling;
    assert RedOk(w) && Balanced(w);
    if path.side == Left {
      BorrowParts(t, path.n, w.left, w.right);
      assert BlackHeight(w) == BlackHeight(w.right) + 1;
    } else {
      BorrowParts(t, path.n, w.right, w.left);
    }
  }
}
