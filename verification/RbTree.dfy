/** Red-black trees as values: the shape that a TreeTable's nodes take in memory,
    a zipper for the place the table's code is working at, and the invariants of CLRS chapter 13. */
module RbTree {
  import opened Bits
  import opened Common

  datatype Color = Red | Black

  /** A node as the table allocates it. A node keeps its key for life. */
  class RBNode {
    const key: Key
    var value: Value
    var color: Color
    var parent: RBNode?
    var left: RBNode?
    var right: RBNode?

    constructor (key: Key, value: Value)
      ensures this.key == key && this.value == value
      ensures color == Black && parent == null && left == null && right == null
    {
      this.key := key;
      this.value := value;
      color, parent, left, right := Black, null, null, null;
    }

    /** A node without subtrees, below parent. */
    constructor Below(key: Key, value: Value, parent: RBNode, sentinel: RBNode)
      ensures this.key == key && this.value == value
      ensures this.parent == parent && left == right == sentinel
    {
      this.key := key;
      this.value := value;
      this.color := Red;
      this.parent := parent;
      this.left := sentinel;
      this.right := sentinel;
    }
  }

  datatype Tree = Leaf | Node(color: Color, left: Tree, n: RBNode, right: Tree)

  datatype Side = Left | Right

  /** The way from a subtree (the hole) up to the root: at each step the node above,
      its colour, which of its two subtrees the hole is, and the other subtree. */
  datatype Path = Top | Step(side: Side, color: Color, n: RBNode, sibling: Tree, up: Path)

  function Other(side: Side): Side {
    if side == Left then Right else Left
  }

  function Join(side: Side, c: Color, t: Tree, n: RBNode, sibling: Tree): Tree {
    if side == Left then Node(c, t, n, sibling) else Node(c, sibling, n, t)
  }

  /** The whole tree: t put back into the hole of path. */
  function Plug(t: Tree, path: Path): Tree
    decreases path
  {
    match path
    case Top => t
    case Step(side, c, n, sibling, up) => Plug(Join(side, c, t, n, sibling), up)
  }

  function Append(path: Path, base: Path): Path {
    match path
    case Top => base
    case Step(side, c, n, sibling, up) => Step(side, c, n, sibling, Append(up, base))
  }

  lemma PlugAppend(t: Tree, path: Path, base: Path)
    ensures Plug(t, Append(path, base)) == Plug(Plug(t, path), base)
    decreases path
  {
    if path.Step? {
      PlugAppend(Join(path.side, path.color, t, path.n, path.sibling), path.up, base);
    }
  }

  // ---- In-order sequence ----

  function InOrder(t: Tree): seq<RBNode> {
    match t
    case Leaf => []
    case Node(_, l, n, r) => InOrder(l) + [n] + InOrder(r)
  }

  /** The nodes in order before the hole. */
  function Before(path: Path): seq<RBNode> {
    match path
    case Top => []
    case Step(Left, _, n, sibling, up) => Before(up)
    case Step(Right, _, n, sibling, up) => Before(up) + InOrder(sibling) + [n]
  }

  /** The nodes in order after the hole. */
  function After(path: Path): seq<RBNode> {
    match path
    case Top => []
    case Step(Left, _, n, sibling, up) => [n] + InOrder(sibling) + After(up)
    case Step(Right, _, n, sibling, up) => After(up)
  }

  lemma Regroup(a: seq<RBNode>, b: seq<RBNode>, c: seq<RBNode>, d: seq<RBNode>, e: seq<RBNode>)
    ensures a + (b + c + d) + e == a + b + (c + d + e)
    ensures a + (b + c + d) + e == (a + b + c) + d + e
  {
  }

  lemma {:induction false} PlugInOrder(t: Tree, path: Path)
    ensures InOrder(Plug(t, path)) == Before(path) + InOrder(t) + After(path)
    decreases path
  {
    if path.Step? {
      var s := InOrder(path.sibling);
      PlugInOrder(Join(path.side, path.color, t, path.n, path.sibling), path.up);
      if path.side == Left {
        Regroup(Before(path.up), InOrder(t), [path.n], s, After(path.up));
      } else {
        Regroup(Before(path.up), s, [path.n], InOrder(t), After(path.up));
      }
    }
  }

  // ---- Occurrences ----

  /** How often node n occurs in t. */
  function Occ(t: Tree, n: RBNode): nat {
    match t
    case Leaf => 0
    case Node(_, l, m, r) => Occ(l, n) + (if m == n then 1 else 0) + Occ(r, n)
  }

  function OccPath(path: Path, n: RBNode): nat {
    match path
    case Top => 0
    case Step(_, _, m, sibling, up) => Occ(sibling, n) + (if m == n then 1 else 0) + OccPath(up, n)
  }

  /** No node of S occurs twice in the whole tree. */
  ghost predicate Distinct(S: set<RBNode>, t: Tree, path: Path) {
    forall n {:trigger Occ(t, n)} {:trigger OccPath(path, n)} | n in S :: Occ(t, n) + OccPath(path, n) <= 1
  }

  // ---- Red-black rules ----

  predicate IsBlack(t: Tree) {
    t.Leaf? || t.color == Black
  }

  /** No red node of t has a red child. */
  predicate RedOk(t: Tree) {
    match t
    case Leaf => true
    case Node(c, l, _, r) => RedOk(l) && RedOk(r) && (c == Red ==> IsBlack(l) && IsBlack(r))
  }

  function Weight(c: Color): nat {
    if c == Black then 1 else 0
  }

  /** Black nodes on the leftmost path of t; on every path when Balanced(t). */
  function BlackHeight(t: Tree): nat {
    match t
    case Leaf => 0
    case Node(c, l, _, _) => BlackHeight(l) + Weight(c)
  }

  predicate Balanced(t: Tree) {
    match t
    case Leaf => true
    case Node(_, l, _, r) => Balanced(l) && Balanced(r) && BlackHeight(l) == BlackHeight(r)
  }

  predicate RedBlack(t: Tree) {
    IsBlack(t) && RedOk(t) && Balanced(t)
  }

  /** A red node fits into the hole of path. */
  predicate RedFits(path: Path) {
    path.Step? && path.color == Black
  }

  /** The red rule holds everywhere on path, and the root is black, whatever black-rooted tree fills the hole. */
  predicate PathRedOk(path: Path) {
    match path
    case Top => true
    case Step(_, c, _, sibling, up) =>
      RedOk(sibling) && PathRedOk(up) && (c == Red ==> IsBlack(sibling) && RedFits(up))
  }

  /** A balanced tree of black height h in the hole makes a balanced whole. */
  predicate PathBalanced(path: Path, h: nat) {
    match path
    case Top => true
    case Step(_, c, _, sibling, up) =>
      Balanced(sibling) && BlackHeight(sibling) == h && PathBalanced(up, h + Weight(c))
  }

  predicate Fits(t: Tree, path: Path) {
    && RedOk(t) && Balanced(t)
    && PathRedOk(path) && PathBalanced(path, BlackHeight(t))
    && (IsBlack(t) || RedFits(path))
  }

  lemma {:induction false} PlugFits(t: Tree, path: Path)
    ensures Fits(t, path) <==> RedBlack(Plug(t, path))
    decreases path
  {
    if path.Step? {
      PlugFits(Join(path.side, path.color, t, path.n, path.sibling), path.up);
    }
  }

  // ---- Rotations ----

  function RotatedLeft(t: Tree): Tree
    requires t.Node? && t.right.Node?
  {
    var y := t.right;
    Node(y.color, Node(t.color, t.left, t.n, y.left), y.n, y.right)
  }

  function RotatedRight(t: Tree): Tree
    requires t.Node? && t.left.Node?
  {
    var y := t.left;
    Node(y.color, y.left, y.n, Node(t.color, y.right, t.n, t.right))
  }

  lemma RotatedInOrder(t: Tree, path: Path)
    ensures t.Node? && t.right.Node? ==> InOrder(Plug(RotatedLeft(t), path)) == InOrder(Plug(t, path))
    ensures t.Node? && t.left.Node? ==> InOrder(Plug(RotatedRight(t), path)) == InOrder(Plug(t, path))
  {
    if t.Node? && t.right.Node? {
      var y := t.right;
      JoinInOrder(InOrder(t.left), t.n, InOrder(y.left), y.n, InOrder(y.right));
      SameInOrder(t, RotatedLeft(t), path);
    }
    if t.Node? && t.left.Node? {
      var y := t.left;
      JoinInOrder(InOrder(y.left), y.n, InOrder(y.right), t.n, InOrder(t.right));
      SameInOrder(t, RotatedRight(t), path);
    }
  }

  lemma JoinInOrder(a: seq<RBNode>, x: RBNode, b: seq<RBNode>, y: RBNode, c: seq<RBNode>)
    ensures a + [x] + (b + [y] + c) == (a + [x] + b) + [y] + c
  {
  }

  lemma SameInOrder(t: Tree, t': Tree, path: Path)
    requires InOrder(t) == InOrder(t')
    ensures InOrder(Plug(t, path)) == InOrder(Plug(t', path))
  {
    PlugInOrder(t, path);
    PlugInOrder(t', path);
  }

  // ---- Taking a node out ----

  lemma PlugNode(t: Tree, path: Path)
    requires t.Node?
    ensures Plug(t, path).Node?
    decreases path
  {
  }

  /** Where the root of t stands in the in-order sequence of the whole tree. */
  function Rank(t: Tree, path: Path): nat
    requires t.Node?
  {
    |Before(path)| + |InOrder(t.left)|
  }

  function Dropped(s: seq<RBNode>, i: nat): seq<RBNode> {
    if i < |s| then s[..i] + s[i + 1..] else s
  }

  /** s' is s without its element i, which is z. */
  predicate IsWithout(s: seq<RBNode>, i: nat, z: RBNode, s': seq<RBNode>) {
    i < |s| && s[i] == z && s' == Dropped(s, i)
  }

  lemma ChildInOrder(t: Tree, child: Tree)
    requires t.Node?
    requires (t.left.Leaf? && child == t.right) || (t.right.Leaf? && child == t.left)
    ensures InOrder(child) == InOrder(t.left) + InOrder(t.right)
  {
    Units(InOrder(child));
  }

  /** The in-order sequence loses the node that leaves, and nothing else. */
  lemma SpliceInOrder(t: Tree, path: Path, child: Tree)
    requires t.Node?
    requires (t.left.Leaf? && child == t.right) || (t.right.Leaf? && child == t.left)
    ensures InOrder(Plug(child, path)) == Dropped(InOrder(Plug(t, path)), Rank(t, path))
  {
    PlugInOrder(t, path);
    PlugInOrder(child, path);
    ChildInOrder(t, child);
    Middle(Before(path), InOrder(t.left), t.n, InOrder(t.right), After(path));
  }

  lemma SuccessorInOrder(t: Tree, path: Path, ty: Tree, steps: Path)
    requires t.Node? && ty.Node? && ty.left.Leaf? && Plug(ty, steps) == t.right && Before(steps) == []
    ensures var path' := Append(steps, Step(Right, t.color, ty.n, t.left, path));
            InOrder(Plug(ty.right, path')) == Dropped(InOrder(Plug(t, path)), Rank(t, path))
  {
    PlugInOrder(t, path);
    var r := Plug(ty.right, steps);
    PlugAppend(ty.right, steps, Step(Right, t.color, ty.n, t.left, path));
    PlugInOrder(Node(t.color, t.left, ty.n, r), path);
    MinInOrder(ty, steps);
    Assoc(InOrder(t.left), [ty.n], InOrder(r));
    Middle(Before(path), InOrder(t.left), t.n, InOrder(t.right), After(path));
  }

  lemma Assoc(a: seq<RBNode>, b: seq<RBNode>, c: seq<RBNode>)
    ensures a + b + c == a + (b + c)
  {
  }

  lemma Units(a: seq<RBNode>)
    ensures [] + a == a && a + [] == a
  {
  }

  lemma MinInOrder(ty: Tree, steps: Path)
    requires ty.Node? && ty.left.Leaf? && Before(steps) == []
    ensures InOrder(Plug(ty, steps)) == [ty.n] + InOrder(Plug(ty.right, steps))
  {
    var r, d := InOrder(ty.right), After(steps);
    PlugInOrder(ty, steps);
    PlugInOrder(ty.right, steps);
    Units([ty.n]);
    Units([ty.n] + r);
    Units(r);
    Assoc([ty.n], r, d);
  }

  /** Where node z stands in t. */
  lemma Locate(t: Tree, path: Path, z: RBNode) returns (t': Tree, path': Path)
    requires Occ(t, z) > 0
    ensures t'.Node? && t'.n == z && Plug(t', path') == Plug(t, path)
  {
    if t.n == z {
      return t, path;
    } else if Occ(t.left, z) > 0 {
      t', path' := Locate(t.left, Step(Left, t.color, t.n, t.right, path), z);
    } else {
      t', path' := Locate(t.right, Step(Right, t.color, t.n, t.left, path), z);
    }
  }

  lemma PlugStep(t: Tree, steps: Path)
    requires steps.Step?
    ensures Plug(t, steps).Node?
  {
    PlugNode(Join(steps.side, steps.color, t, steps.n, steps.sibling), steps.up);
  }

  lemma Middle(a: seq<RBNode>, b: seq<RBNode>, z: RBNode, c: seq<RBNode>, d: seq<RBNode>)
    ensures a + (b + c) + d == Dropped(a + (b + [z] + c) + d, |a| + |b|)
  {
    var s, i := a + (b + [z] + c) + d, |a| + |b|;
    assert s[..i] == a + b;
    assert s[i + 1..] == c + d;
    assert a + b + (c + d) == a + (b + c) + d;
  }

  lemma RankAt(t: Tree, path: Path)
    requires t.Node?
    ensures Rank(t, path) < |InOrder(Plug(t, path))| && InOrder(Plug(t, path))[Rank(t, path)] == t.n
  {
    PlugInOrder(t, path);
  }

  // ---- Height ----

  function Max(a: nat, b: nat): nat {
    if a < b then b else a
  }

  function Height(t: Tree): nat {
    match t
    case Leaf => 0
    case Node(_, l, _, r) => 1 + Max(Height(l), Height(r))
  }

  lemma {:induction false} BlackHeightBound(t: Tree)
    requires RedOk(t) && Balanced(t)
    ensures Height(t) <= 2 * BlackHeight(t) + (if IsBlack(t) then 0 else 1)
    ensures Pow2(BlackHeight(t)) <= |InOrder(t)| + 1
  {
    if t.Node? {
      BlackHeightBound(t.left);
      BlackHeightBound(t.right);
    }
  }

  /** The height h of a red-black tree of n nodes is at most 2 * log2(n + 1), rounded to a whole level. */
  lemma {:induction false} HeightBound(t: Tree)
    requires RedBlack(t)
    ensures Pow2((Height(t) + 1) / 2) <= |InOrder(t)| + 1
  {
    BlackHeightBound(t);
    Pow2Monotone((Height(t) + 1) / 2, BlackHeight(t));
  }

  lemma LeafInOrder(c: Color, n: RBNode, path: Path)
    ensures InOrder(Plug(Node(c, Leaf, n, Leaf), path)) == Before(path) + [n] + After(path)
    ensures InOrder(Plug(Leaf, path)) == Before(path) + After(path)
  {
    PlugInOrder(Node(c, Leaf, n, Leaf), path);
    PlugInOrder(Leaf, path);
    assert InOrder(Node(c, Leaf, n, Leaf)) == [n];
    assert Before(path) + [] + After(path) == Before(path) + After(path);
  }

  function First(ns: seq<RBNode>, default: RBNode): RBNode {
    if ns == [] then default else ns[0]
  }

  lemma SplitAt(s: seq<RBNode>, a: seq<RBNode>, b: seq<RBNode>, z: RBNode, c: seq<RBNode>, d: seq<RBNode>)
    requires s == a + (b + [z] + c) + d
    ensures var i := |a| + |b|; i < |s| && s[i] == z && s[..i] == a + b && s[i + 1..] == c + d
  {
  }

  lemma MaxInOrder(ty: Tree, steps: Path)
    requires ty.Node? && ty.right.Leaf? && After(steps) == []
    ensures InOrder(Plug(ty, steps)) == InOrder(Plug(ty.left, steps)) + [ty.n]
  {
    var l, d := InOrder(ty.left), Before(steps);
    PlugInOrder(ty, steps);
    PlugInOrder(ty.left, steps);
    Units(l + [ty.n]);
    Units(d + (l + [ty.n]));
    Units(d + l);
    Assoc(d, l, [ty.n]);
  }

  /** A search of at most Height(t) rounds is a search of at most 2 * log2(n + 1) rounds. */
  lemma RoundsBound(t: Tree, rounds: nat)
    requires RedBlack(t) && rounds <= Height(t)
    ensures Pow2((rounds + 1) / 2) <= |InOrder(t)| + 1
  {
    HeightBound(t);
    Pow2Monotone((rounds + 1) / 2, (Height(t) + 1) / 2);
  }
}
