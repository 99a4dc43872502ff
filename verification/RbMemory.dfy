/** How a tree lies in memory: every node's links, the sentinel in place of each leaf and above the root,
    and what single pointer and colour updates do to it. */
module RbMemory {
  import opened RbRules
  import opened RbTree

  /** The link fields of one node. */
  datatype Cell = Cell(color: Color, parent: RBNode?, left: RBNode?, right: RBNode?)

  type Mem = map<RBNode, Cell>

  function CellOn(side: Side, c: Color, parent: RBNode?, near: RBNode?, far: RBNode?): Cell {
    if side == Left then Cell(c, parent, near, far) else Cell(c, parent, far, near)
  }

  function Root(t: Tree, s: RBNode): RBNode {
    if t.Leaf? then s else t.n
  }

  function HoleParent(path: Path, s: RBNode): RBNode {
    if path.Top? then s else path.n
  }

  function PathRoot(path: Path, hole: RBNode): RBNode {
    if path.Top? then hole else PathRoot(path.up, path.n)
  }

  /** m holds t with p as the parent of its root. */
  ghost predicate Shape(m: Mem, s: RBNode, t: Tree, p: RBNode) {
    match t
    case Leaf => true
    case Node(c, l, n, r) =>
      n in m && n != s && m[n] == Cell(c, p, Root(l, s), Root(r, s)) && Shape(m, s, l, n) && Shape(m, s, r, n)
  }

  /** m holds path with hole as the node its hole links to. */
  ghost predicate PathShape(m: Mem, s: RBNode, path: Path, hole: RBNode) {
    match path
    case Top => true
    case Step(side, c, n, sibling, up) =>
      && n in m && n != s && m[n] == CellOn(side, c, HoleParent(up, s), hole, Root(sibling, s))
      && Shape(m, s, sibling, n) && PathShape(m, s, up, n)
  }

  ghost predicate SentinelOk(m: Mem, s: RBNode) {
    s in m && m[s].color == Black && m[s].left == null && m[s].right == null
  }

  /** m and root hold the tree Plug(t, path), no node in two places. */
  ghost predicate At(m: Mem, s: RBNode, root: RBNode, t: Tree, path: Path) {
    && SentinelOk(m, s)
    && Shape(m, s, t, HoleParent(path, s))
    && PathShape(m, s, path, Root(t, s))
    && root == PathRoot(path, Root(t, s))
    && Distinct(m.Keys, t, path)
  }

  /** The same tree, looked at one step further up. */
  lemma Up(m: Mem, s: RBNode, root: RBNode, t: Tree, path: Path)
    requires path.Step?
    ensures At(m, s, root, t, path) <==> At(m, s, root, Join(path.side, path.color, t, path.n, path.sibling), path.up)
  {
    var t' := Join(path.side, path.color, t, path.n, path.sibling);
    forall n | n in m.Keys
      ensures Occ(t, n) + OccPath(path, n) == Occ(t', n) + OccPath(path.up, n)
    {
    }
  }

  lemma {:induction false} PlugAt(m: Mem, s: RBNode, root: RBNode, t: Tree, path: Path)
    ensures At(m, s, root, t, path) <==> At(m, s, root, Plug(t, path), Top)
    decreases path
  {
    if path.Step? {
      Up(m, s, root, t, path);
      PlugAt(m, s, root, Join(path.side, path.color, t, path.n, path.sibling), path.up);
    }
  }

  // ---- Frames ----

  ghost predicate TreeKept(m: Mem, m': Mem, t: Tree) {
    forall n {:trigger Occ(t, n)} | n in m && Occ(t, n) > 0 :: n in m' && m'[n] == m[n]
  }

  ghost predicate PathKept(m: Mem, m': Mem, path: Path) {
    forall n {:trigger OccPath(path, n)} | n in m && OccPath(path, n) > 0 :: n in m' && m'[n] == m[n]
  }

  lemma {:induction false} FrameTree(m: Mem, m': Mem, s: RBNode, t: Tree, p: RBNode)
    requires Shape(m, s, t, p) && TreeKept(m, m', t)
    ensures Shape(m', s, t, p)
  {
    if t.Node? {
      assert Occ(t, t.n) > 0;
      forall n | n in m && (Occ(t.left, n) > 0 || Occ(t.right, n) > 0)
        ensures n in m' && m'[n] == m[n]
      {
        assert Occ(t, n) > 0;
      }
      FrameTree(m, m', s, t.left, t.n);
      FrameTree(m, m', s, t.right, t.n);
    }
  }

  lemma {:induction false} FramePath(m: Mem, m': Mem, s: RBNode, path: Path, hole: RBNode)
    requires PathShape(m, s, path, hole) && PathKept(m, m', path)
    ensures PathShape(m', s, path, hole)
  {
    if path.Step? {
      assert OccPath(path, path.n) > 0;
      forall n | n in m && (Occ(path.sibling, n) > 0 || OccPath(path.up, n) > 0)
        ensures n in m' && m'[n] == m[n]
      {
        assert OccPath(path, n) > 0;
      }
      FrameTree(m, m', s, path.sibling, path.n);
      FramePath(m, m', s, path.up, path.n);
    }
  }

  /** m' is m with the root of t, if it has one, linked to the parent p. */
  ghost predicate TreeMoved(m: Mem, m': Mem, s: RBNode, t: Tree, p: RBNode) {
    forall n {:trigger Occ(t, n)} | n in m && Occ(t, n) > 0 ::
      Occ(t, n) == 1 && n in m' && m'[n] == if n == Root(t, s) then m[n].(parent := p) else m[n]
  }

  lemma Reparent(m: Mem, m': Mem, s: RBNode, t: Tree, p: RBNode, p': RBNode)
    requires Shape(m, s, t, p) && TreeMoved(m, m', s, t, p')
    ensures Shape(m', s, t, p')
  {
    if t.Node? {
      assert Occ(t, t.n) == 1;
      forall n | n in m && (Occ(t.left, n) > 0 || Occ(t.right, n) > 0)
        ensures n in m' && m'[n] == m[n]
      {
        assert Occ(t, n) > 0;
      }
      FrameTree(m, m', s, t.left, t.n);
      FrameTree(m, m', s, t.right, t.n);
    }
  }

  /** m' is m with the hole of path, if it is not the root, linked to the node hole. */
  ghost predicate PathRefilled(m: Mem, m': Mem, s: RBNode, path: Path, hole: RBNode) {
    forall n {:trigger OccPath(path, n)} | n in m && OccPath(path, n) > 0 ::
      OccPath(path, n) == 1 && n in m' && m'[n] == if n == HoleParent(path, s) then SetHole(path, m[n], hole) else m[n]
  }

  lemma Refill(m: Mem, m': Mem, s: RBNode, path: Path, hole: RBNode, hole': RBNode)
    requires PathShape(m, s, path, hole) && PathRefilled(m, m', s, path, hole')
    ensures PathShape(m', s, path, hole')
  {
    if path.Step? {
      assert OccPath(path, path.n) == 1;
      forall n | n in m && (Occ(path.sibling, n) > 0 || OccPath(path.up, n) > 0)
        ensures n in m' && m'[n] == m[n]
      {
        assert OccPath(path, n) > 0;
      }
      FrameTree(m, m', s, path.sibling, path.n);
      FramePath(m, m', s, path.up, path.n);
    }
  }

  function SetHole(path: Path, c: Cell, hole: RBNode): Cell {
    match path
    case Top => c
    case Step(Left, _, _, _, _) => c.(left := hole)
    case Step(Right, _, _, _, _) => c.(right := hole)
  }

  // ---- Rotations ----

  lemma OccJoin(S: set<RBNode>, side: Side, c: Color, t: Tree, n: RBNode, u: Tree)
    ensures forall k {:trigger Occ(Join(side, c, t, n, u), k)} | k in S ::
              Occ(Join(side, c, t, n, u), k) == Occ(t, k) + Occ(u, k) + (if n == k then 1 else 0)
  {
  }

  lemma ShapeJoin(m: Mem, s: RBNode, side: Side, c: Color, t: Tree, n: RBNode, u: Tree, p: RBNode)
    ensures Shape(m, s, Join(side, c, t, n, u), p) <==>
            && n in m && n != s && m[n] == CellOn(side, c, p, Root(t, s), Root(u, s))
            && Shape(m, s, t, n) && Shape(m, s, u, n)
  {
  }

  ghost predicate RotatedMem(m: Mem, m': Mem, x: RBNode, y: RBNode, b: Tree, path: Path) {
    && m'.Keys == m.Keys
    && forall n | n in m && n != x && n != y ::
               m'[n] == if b.Node? && n == b.n then m[n].(parent := x)
                  else if path.Step? && n == path.n then SetHole(path, m[n], y)
                  else m[n]
  }

  /** The five parts of a rotated tree share no node. */
  ghost predicate Apart(m: Mem, a: Tree, x: RBNode, b: Tree, y: RBNode, g: Tree, path: Path) {
    forall n {:trigger Occ(a, n)} {:trigger Occ(b, n)} {:trigger Occ(g, n)} {:trigger OccPath(path, n)} | n in m ::
      Occ(a, n) + Occ(b, n) + Occ(g, n) + OccPath(path, n) + (if n == x then 1 else 0) + (if n == y then 1 else 0) <= 1
  }

  lemma {:induction false} RotateOuter(m: Mem, m': Mem, s: RBNode, a: Tree, x: RBNode, b: Tree, y: RBNode, g: Tree,
                                       path: Path)
    requires Shape(m, s, a, x) && Shape(m, s, g, y)
    requires Apart(m, a, x, b, y, g, path) && RotatedMem(m, m', x, y, b, path)
    ensures Shape(m', s, a, x) && Shape(m', s, g, y)
  {
    FrameTree(m, m', s, a, x);
    FrameTree(m, m', s, g, y);
  }

  lemma {:induction false} RotateInner(m: Mem, m': Mem, s: RBNode, a: Tree, x: RBNode, b: Tree, y: RBNode, g: Tree,
                                       path: Path)
    requires Shape(m, s, b, y) && PathShape(m, s, path, x)
    requires Apart(m, a, x, b, y, g, path) && RotatedMem(m, m', x, y, b, path)
    ensures Shape(m', s, b, x) && PathShape(m', s, path, y)
  {
    assert b.Node? ==> Occ(b, b.n) >= 1;
    assert path.Step? ==> OccPath(path, path.n) >= 1;
    Reparent(m, m', s, b, y, x);
    Refill(m, m', s, path, x, y);
  }

  lemma RotateApart(m: Mem, side: Side, cx: Color, a: Tree, x: RBNode, cy: Color, b: Tree, y: RBNode, g: Tree,
                    path: Path)
    requires Distinct(m.Keys, Join(side, cx, a, x, Join(side, cy, b, y, g)), path)
    ensures Apart(m, a, x, b, y, g, path)
    ensures Distinct(m.Keys, Join(side, cy, Join(side, cx, a, x, b), y, g), path)
  {
    OccJoin(m.Keys, side, cx, a, x, Join(side, cy, b, y, g));
    OccJoin(m.Keys, side, cy, b, y, g);
    OccJoin(m.Keys, side, cx, a, x, b);
    OccJoin(m.Keys, side, cy, Join(side, cx, a, x, b), y, g);
  }

  lemma {:induction false} RotateAt(m: Mem, m': Mem, s: RBNode, root: RBNode, root': RBNode, side: Side,
      cx: Color, a: Tree, x: RBNode, cy: Color, b: Tree, y: RBNode, g: Tree, path: Path)
    requires At(m, s, root, Join(side, cx, a, x, Join(side, cy, b, y, g)), path)
    requires x in m && y in m && x != y && RotatedMem(m, m', x, y, b, path)
    requires m'[x] == CellOn(side, cx, y, Root(a, s), Root(b, s))
    requires m'[y] == CellOn(side, cy, HoleParent(path, s), x, Root(g, s))
    requires m'[s] == m[s]
    requires root' == if path.Top? then y else root
    ensures At(m', s, root', Join(side, cy, Join(side, cx, a, x, b), y, g), path)
  {
    var u := Join(side, cy, b, y, g);
    var v := Join(side, cx, a, x, b);
    RotateApart(m, side, cx, a, x, cy, b, y, g, path);
    ShapeJoin(m, s, side, cx, a, x, u, HoleParent(path, s));
    ShapeJoin(m, s, side, cy, b, y, g, x);
    RotateOuter(m, m', s, a, x, b, y, g, path);
    RotateInner(m, m', s, a, x, b, y, g, path);
    ShapeJoin(m', s, side, cx, a, x, b, y);
    ShapeJoin(m', s, side, cy, v, y, g, HoleParent(path, s));
  }

  /** The nodes and links that a rotation needs. */
  lemma RotateLinks(m: Mem, s: RBNode, side: Side,
      cx: Color, a: Tree, x: RBNode, cy: Color, b: Tree, y: RBNode, g: Tree, path: Path)
    requires Shape(m, s, Join(side, cx, a, x, Join(side, cy, b, y, g)), HoleParent(path, s)) && s in m
    requires PathShape(m, s, path, x)
    requires Distinct(m.Keys, Join(side, cx, a, x, Join(side, cy, b, y, g)), path)
    ensures x in m && y in m && Root(b, s) in m && HoleParent(path, s) in m && x != s && y != s
    ensures m[x] == CellOn(side, cx, HoleParent(path, s), Root(a, s), y)
    ensures m[y] == CellOn(side, cy, x, Root(b, s), Root(g, s))
    ensures path.Step? ==> m[path.n] == CellOn(path.side, path.color, HoleParent(path.up, s), x, Root(path.sibling, s))
    ensures path.Step? ==> Root(path.sibling, s) != x
    ensures Root(b, s) != x && Root(b, s) != y && x != y && HoleParent(path, s) != x && HoleParent(path, s) != y
    ensures Root(b, s) == HoleParent(path, s) ==> Root(b, s) == s
    ensures (Root(b, s) == s <==> b.Leaf?) && (HoleParent(path, s) == s <==> path.Top?)
  {
    ShapeJoin(m, s, side, cx, a, x, Join(side, cy, b, y, g), HoleParent(path, s));
    ShapeJoin(m, s, side, cy, b, y, g, x);
    RotateApart(m, side, cx, a, x, cy, b, y, g, path);
    assert Occ(a, x) + Occ(b, x) == 0;
    assert Occ(a, y) + Occ(b, y) == 0;
    if path.Step? {
      assert OccPath(path, path.n) >= 1;
      assert Occ(path.sibling, x) == 0;
    }
    if b.Node? {
      assert Occ(b, b.n) >= 1;
    }
  }

  lemma PaintAt(m: Mem, s: RBNode, root: RBNode, t: Tree, path: Path, c: Color)
    requires At(m, s, root, t, path) && t.Node?
    ensures t.n in m && t.n != s
    ensures At(m[t.n := m[t.n].(color := c)], s, root, t.(color := c), path)
  {
    var m' := m[t.n := m[t.n].(color := c)];
    var t' := t.(color := c);
    assert Occ(t, t.n) == 1;
    forall n | n in m
      ensures Occ(t', n) == Occ(t, n)
      ensures n == t.n ==> Occ(t.left, n) == 0 && Occ(t.right, n) == 0 && OccPath(path, n) == 0
    {
    }
    FrameTree(m, m', s, t.left, t.n);
    FrameTree(m, m', s, t.right, t.n);
    FramePath(m, m', s, path, t.n);
  }

  /** The nodes that a round of rebalance_after_insert looks at. */
  lemma InsertView(m: Mem, s: RBNode, root: RBNode, t: Tree, path: Path)
    requires At(m, s, root, t, path) && InsertInv(t, path)
    ensures t.n in m && HoleParent(path, s) in m && m[t.n].parent == HoleParent(path, s)
    ensures m[HoleParent(path, s)].color == Red <==> path.Step? && path.color == Red
    ensures path.Step? && path.color == Red ==> path.up.Step?
    ensures path.Step? && path.color == Red ==>
      && path.up.n in m && m[path.n].parent == path.up.n && Root(path.up.sibling, s) in m
      && m[path.up.n] == CellOn(path.up.side, Black, HoleParent(path.up.up, s), path.n, Root(path.up.sibling, s))
      && (m[Root(path.up.sibling, s)].color == Red <==> !IsBlack(path.up.sibling))
      && (m[path.up.n].left == path.n <==> path.up.side == Left)
  {
    assert Occ(t, t.n) >= 1;
    if path.Step? && path.color == Red {
      var u := path.up.sibling;
      assert PathShape(m, s, path.up, path.n) && Shape(m, s, u, path.up.n);
      assert OccPath(path, path.n) == 1;
      assert Occ(u, path.n) == 0;
    }
  }

  /** The nodes that a round of rebalance_after_delete looks at. */
  lemma DeleteView(m: Mem, s: RBNode, root: RBNode, t: Tree, path: Path)
    requires At(m, s, root, t, path) && DeleteInv(t, path)
    ensures Root(t, s) in m && (m[Root(t, s)].color == Black <==> IsBlack(t))
    ensures root == Root(t, s) <==> path.Top?
    ensures path.Step? ==>
      && path.sibling.Node? && path.n in m && path.sibling.n in m
      && m[path.n] == CellOn(path.side, path.color, HoleParent(path.up, s), Root(t, s), path.sibling.n)
      && m[path.sibling.n] == Cell(path.sibling.color, path.n, Root(path.sibling.left, s), Root(path.sibling.right, s))
      && Root(path.sibling.left, s) in m
      && (m[Root(path.sibling.left, s)].color == Black <==> IsBlack(path.sibling.left))
      && Root(path.sibling.right, s) in m
      && (m[Root(path.sibling.right, s)].color == Black <==> IsBlack(path.sibling.right))
      && (m[path.n].left == Root(t, s) <==> path.side == Left)
  {
    if path.Step? {
      var w := path.sibling;
      DeleteSibling(t, path);
      assert Shape(m, s, w, path.n);
      assert Shape(m, s, w.left, w.n) && Shape(m, s, w.right, w.n);
      assert Occ(w, w.n) >= 1;
      if t.Node? {
        assert Occ(t, t.n) >= 1;
        assert OccPath(path, t.n) == 0;
        NotPathRoot(path, t.n);
      }
      assert PathShape(m, s, path, Root(t, s));
      PathRootInMem(m, s, path, Root(t, s));
    }
  }

  lemma NotPathRoot(path: Path, n: RBNode)
    requires path.Step? && OccPath(path, n) == 0
    ensures PathRoot(path, n) != n
  {
    if path.up.Step? {
      assert PathRoot(path, n) == PathRoot(path.up, path.n);
    }
  }

  lemma PathRootInMem(m: Mem, s: RBNode, path: Path, hole: RBNode)
    requires path.Step? && PathShape(m, s, path, hole)
    ensures PathRoot(path, hole) != s
  {
    if path.up.Step? {
      PathRootInMem(m, s, path.up, path.n);
    }
  }

  // ---- Putting nodes in and taking them out ----

  lemma {:induction false} OccInMem(m: Mem, s: RBNode, t: Tree, p: RBNode, n: RBNode)
    requires Shape(m, s, t, p) && Occ(t, n) > 0
    ensures n in m && n != s
  {
    if n != t.n {
      if Occ(t.left, n) > 0 {
        OccInMem(m, s, t.left, t.n, n);
      } else {
        OccInMem(m, s, t.right, t.n, n);
      }
    }
  }

  lemma {:induction false} OccPathInMem(m: Mem, s: RBNode, path: Path, hole: RBNode, n: RBNode)
    requires PathShape(m, s, path, hole) && OccPath(path, n) > 0
    ensures n in m && n != s
  {
    if n != path.n {
      if Occ(path.sibling, n) > 0 {
        OccInMem(m, s, path.sibling, path.n, n);
      } else {
        OccPathInMem(m, s, path.up, path.n, n);
      }
    }
  }

  lemma OccInOrder(t: Tree, n: RBNode)
    ensures Occ(t, n) > 0 <==> n in InOrder(t)
  {
  }

  /** A new node in the place of a leaf. */
  lemma InsertLeafAt(m: Mem, m': Mem, s: RBNode, root: RBNode, root': RBNode, c: Color, n: RBNode, path: Path)
    requires At(m, s, root, Leaf, path) && n !in m
    requires m'.Keys == m.Keys + {n} && m'[n] == Cell(c, HoleParent(path, s), s, s)
    requires forall k | k in m :: m'[k] == if path.Step? && k == path.n then SetHole(path, m[k], n) else m[k]
    requires root' == if path.Top? then n else root
    ensures At(m', s, root', Node(c, Leaf, n, Leaf), path)
  {
    if OccPath(path, n) > 0 {
      OccPathInMem(m, s, path, s, n);
      assert false;
    }
    if OccPath(path, s) > 0 {
      OccPathInMem(m, s, path, s, s);
      assert false;
    }
    assert path.Step? ==> OccPath(path, path.n) >= 1;
    forall k | k in m'.Keys
      ensures Occ(Node(c, Leaf, n, Leaf), k) + OccPath(path, k) <= 1
    {
      if k in m.Keys {
        assert Occ(Leaf, k) + OccPath(path, k) <= 1;
      }
    }
    Refill(m, m', s, path, s, n);
  }

  /** The root of t gone and its only subtree in its place. */
  lemma SpliceAt(m: Mem, m': Mem, s: RBNode, root: RBNode, root': RBNode, t: Tree, path: Path, child: Tree)
    requires At(m, s, root, t, path) && t.Node?
    requires (t.left.Leaf? && child == t.right) || (t.right.Leaf? && child == t.left)
    requires m'.Keys == m.Keys && SentinelOk(m', s)
    requires forall k | k in m && k != s ::
               m'[k] == if child.Node? && k == child.n then m[k].(parent := HoleParent(path, s))
                        else if path.Step? && k == path.n then SetHole(path, m[k], Root(child, s))
                        else m[k]
    requires root' == if path.Top? then Root(child, s) else root
    ensures At(m', s, root', child, path)
  {
    assert Shape(m, s, child, t.n);
    assert path.Step? ==> OccPath(path, path.n) >= 1;
    assert child.Node? ==> Occ(child, child.n) >= 1;
    forall k | k in m
      ensures Occ(child, k) <= Occ(t, k)
    {
    }
    NoSentinel(m, s, child, t.n, path, t.n);
    Reparent(m, m', s, child, t.n, HoleParent(path, s));
    Refill(m, m', s, path, t.n, Root(child, s));
  }

  lemma NoSentinel(m: Mem, s: RBNode, t: Tree, p: RBNode, path: Path, hole: RBNode)
    requires Shape(m, s, t, p) && PathShape(m, s, path, hole)
    ensures Occ(t, s) == 0 && OccPath(path, s) == 0
  {
    if Occ(t, s) > 0 {
      OccInMem(m, s, t, p, s);
    }
    if OccPath(path, s) > 0 {
      OccPathInMem(m, s, path, hole, s);
    }
  }

  /** m' is m with y in z's place between l, r and path. */
  ghost predicate ReplacedMem(m: Mem, m': Mem, s: RBNode, l: Tree, z: RBNode, r: Tree, y: RBNode, path: Path) {
    && m'.Keys == m.Keys && SentinelOk(m', s)
    && forall k | k in m && k != y && k != z && k != s ::
         m'[k] == if (l.Node? && k == l.n) || (r.Node? && k == r.n) then m[k].(parent := y)
                  else if path.Step? && k == path.n then SetHole(path, m[k], y)
                  else m[k]
  }

  lemma ReplaceTrees(m: Mem, m': Mem, s: RBNode, c: Color, l: Tree, z: RBNode, r: Tree, q: RBNode, y: RBNode,
                     path: Path)
    requires Shape(m, s, l, z) && Shape(m, s, r, q) && PathShape(m, s, path, z)
    requires Apart(m, l, z, r, y, Leaf, path) && ReplacedMem(m, m', s, l, z, r, y, path)
    requires y in m && y != s && m'[y] == Cell(c, HoleParent(path, s), Root(l, s), Root(r, s))
    ensures Shape(m', s, Node(c, l, y, r), HoleParent(path, s))
  {
    assert path.Step? ==> OccPath(path, path.n) >= 1;
    assert l.Node? ==> Occ(l, l.n) >= 1;
    assert r.Node? ==> Occ(r, r.n) >= 1;
    NoSentinel(m, s, l, z, path, z);
    NoSentinel(m, s, r, q, path, z);
    Reparent(m, m', s, l, z, y);
    Reparent(m, m', s, r, q, y);
  }

  lemma ReplacePath(m: Mem, m': Mem, s: RBNode, l: Tree, z: RBNode, r: Tree, y: RBNode, path: Path)
    requires PathShape(m, s, path, z)
    requires Apart(m, l, z, r, y, Leaf, path) && ReplacedMem(m, m', s, l, z, r, y, path)
    ensures PathShape(m', s, path, y)
  {
    assert path.Step? ==> OccPath(path, path.n) >= 1;
    assert l.Node? ==> Occ(l, l.n) >= 1;
    assert r.Node? ==> Occ(r, r.n) >= 1;
    NoSentinel(m, s, Leaf, z, path, z);
    Refill(m, m', s, path, z, y);
  }

  lemma ReplaceDistinct(m: Mem, c: Color, l: Tree, z: RBNode, r: Tree, y: RBNode, path: Path)
    requires Apart(m, l, z, r, y, Leaf, path)
    ensures Distinct(m.Keys, Node(c, l, y, r), path)
  {
    forall k | k in m.Keys
      ensures Occ(Node(c, l, y, r), k) + OccPath(path, k) <= 1
    {
      assert Occ(l, k) + Occ(r, k) + OccPath(path, k) + (if k == y then 1 else 0) <= 1;
    }
  }

  lemma ReplaceAt(m: Mem, m': Mem, s: RBNode, root: RBNode, root': RBNode, c: Color, l: Tree, z: RBNode, r: Tree,
                  q: RBNode, y: RBNode, path: Path)
    requires Shape(m, s, l, z) && Shape(m, s, r, q) && PathShape(m, s, path, z)
    requires root == PathRoot(path, z) && y in m && y != s
    requires Apart(m, l, z, r, y, Leaf, path) && ReplacedMem(m, m', s, l, z, r, y, path)
    requires m'[y] == Cell(c, HoleParent(path, s), Root(l, s), Root(r, s))
    requires root' == if path.Top? then y else root
    ensures At(m', s, root', Node(c, l, y, r), path)
  {
    ReplaceTrees(m, m', s, c, l, z, r, q, y, path);
    ReplacePath(m, m', s, l, z, r, y, path);
    ReplaceDistinct(m, c, l, z, r, y, path);
  }

  /** Freeing a node that is not in the tree. */
  lemma DropAt(m: Mem, s: RBNode, root: RBNode, t: Tree, path: Path, z: RBNode)
    requires At(m, s, root, t, path) && z != s && Occ(t, z) == 0 && OccPath(path, z) == 0
    ensures At(m - {z}, s, root, t, path)
  {
    FrameTree(m, m - {z}, s, t, HoleParent(path, s));
    FramePath(m, m - {z}, s, path, Root(t, s));
  }

  /** The nodes and links that transplanting the only subtree of t's root needs. */
  lemma SpliceLinks(m: Mem, s: RBNode, root: RBNode, t: Tree, path: Path, child: Tree)
    requires At(m, s, root, t, path) && t.Node?
    requires (t.left.Leaf? && child == t.right) || (t.right.Leaf? && child == t.left)
    ensures t.n in m && m[t.n].parent == HoleParent(path, s) && HoleParent(path, s) in m
    ensures Root(child, s) in m && (Root(child, s) == s <==> child.Leaf?) && (HoleParent(path, s) == s <==> path.Top?)
    ensures Root(child, s) == HoleParent(path, s) ==> Root(child, s) == s
    ensures path.Step? ==>
      m[path.n] == CellOn(path.side, path.color, HoleParent(path.up, s), t.n, Root(path.sibling, s))
    ensures path.Step? ==> Root(path.sibling, s) != t.n
  {
    assert Shape(m, s, child, t.n);
    assert Occ(t, t.n) >= 1;
    assert child.Node? ==> Occ(child, child.n) >= 1;
    if path.Step? {
      assert OccPath(path, path.n) >= 1;
      assert Occ(path.sibling, t.n) == 0;
    }
  }

  /** The links of the root of t. */
  lemma View(m: Mem, s: RBNode, root: RBNode, t: Tree, path: Path)
    requires At(m, s, root, t, path) && t.Node?
    ensures t.n in m && t.n != s && m[t.n] == Cell(t.color, HoleParent(path, s), Root(t.left, s), Root(t.right, s))
    ensures Root(t.left, s) in m && (Root(t.left, s) == s <==> t.left.Leaf?)
    ensures Root(t.right, s) in m && (Root(t.right, s) == s <==> t.right.Leaf?)
    ensures HoleParent(path, s) in m && (HoleParent(path, s) == s <==> path.Top?)
  {
    assert Shape(m, s, t.left, t.n) && Shape(m, s, t.right, t.n);
  }

  /** The same tree, looked at from the end of steps. */
  lemma PlugSteps(m: Mem, s: RBNode, root: RBNode, t: Tree, steps: Path, path: Path)
    ensures At(m, s, root, t, Append(steps, path)) <==> At(m, s, root, Plug(t, steps), path)
  {
    PlugAppend(t, steps, path);
    PlugAt(m, s, root, t, Append(steps, path));
    PlugAt(m, s, root, Plug(t, steps), path);
  }

  lemma {:induction false} OccPlug(t: Tree, steps: Path, n: RBNode)
    ensures Occ(Plug(t, steps), n) == Occ(t, n) + OccPath(steps, n)
    decreases steps
  {
    if steps.Step? {
      OccPlug(Join(steps.side, steps.color, t, steps.n, steps.sibling), steps.up, n);
    }
  }

  /** ty, at the end of steps from the right subtree of t, with its root taken out: what it leaves behind. */
  lemma SuccessorApart(m: Mem, s: RBNode, root: RBNode, t: Tree, path: Path, ty: Tree, steps: Path)
    requires At(m, s, root, t, path) && t.Node?
    requires ty.Node? && ty.left.Leaf? && Plug(ty, steps) == t.right
    ensures Apart(m, t.left, t.n, Plug(ty.right, steps), ty.n, Leaf, path)
    ensures steps.Step? ==> steps.n != t.n
    ensures ty.n in m && ty.n != s && ty.n != t.n
  {
    assert Shape(m, s, t.right, t.n);
    OccPlug(ty, steps, ty.n);
    OccInMem(m, s, t.right, t.n, ty.n);
    forall k | k in m
      ensures Occ(t.left, k) + Occ(Plug(ty.right, steps), k) + OccPath(path, k) +
              (if k == t.n then 1 else 0) + (if k == ty.n then 1 else 0) <= 1
    {
      OccPlug(ty, steps, k);
      OccPlug(ty.right, steps, k);
      assert Occ(t, k) + OccPath(path, k) <= 1;
    }
    OccPlug(ty, steps, t.n);
    assert Occ(t, t.n) + OccPath(path, t.n) <= 1;
  }

  lemma ReplaceLinks(m: Mem, s: RBNode, root: RBNode, t: Tree, path: Path, ty: Tree, steps: Path)
    requires At(m, s, root, t, path) && t.Node? && t.left.Node?
    requires ty.Node? && ty.left.Leaf? && Plug(ty, steps) == t.right
    ensures t.n in m && m[t.n] == Cell(t.color, HoleParent(path, s), t.left.n, Root(t.right, s))
    ensures ty.n in m && HoleParent(path, s) in m && t.left.n in m
    ensures s !in {t.n, ty.n, t.left.n} && t.left.n !in {t.n, ty.n, HoleParent(path, s)}
    ensures HoleParent(path, s) !in {t.n, ty.n} && t.n != ty.n
    ensures HoleParent(path, s) == s <==> path.Top?
    ensures path.Step? ==>
      m[path.n] == CellOn(path.side, path.color, HoleParent(path.up, s), t.n, Root(path.sibling, s))
    ensures path.Step? ==> Root(path.sibling, s) != t.n
    ensures Apart(m, t.left, t.n, Plug(ty.right, steps), ty.n, Leaf, path)
    ensures var x := Root(ty.right, s); x in m && x !in {t.n, ty.n, t.left.n} && (x == HoleParent(path, s) ==> x == s)
    ensures (Root(ty.right, s) == s <==> ty.right.Leaf?) && m[ty.n].right == Root(ty.right, s)
  {
    SuccessorApart(m, s, root, t, path, ty, steps);
    View(m, s, root, t, path);
    PlugSteps(m, s, root, ty, steps, Step(Right, t.color, t.n, t.left, path));
    Up(m, s, root, t.right, Step(Right, t.color, t.n, t.left, path));
    View(m, s, root, ty, Append(steps, Step(Right, t.color, t.n, t.left, path)));
    if ty.right.Node? {
      var x := ty.right.n;
      OccPlug(ty.right, steps, x);
      assert Occ(ty.right, x) >= 1;
      assert Occ(t.left, x) + Occ(Plug(ty.right, steps), x) + OccPath(path, x) + (if x == ty.n then 1 else 0) <= 1;
    }
    assert Occ(t.left, t.left.n) >= 1;
    if path.Step? {
      assert OccPath(path, path.n) >= 1;
      assert OccPath(path, t.n) == 0;
    }
  }

  lemma ReplaceChildAt(m: Mem, m': Mem, s: RBNode, root: RBNode, root': RBNode, t: Tree, path: Path)
    requires At(m, s, root, t, path) && t.Node? && t.right.Node? && t.right.left.Leaf?
    requires ReplacedMem(m, m', s, t.left, t.n, t.right.right, t.right.n, path)
    requires t.right.n in m
      && m'[t.right.n] == Cell(t.color, HoleParent(path, s), Root(t.left, s), Root(t.right.right, s))
    requires root' == if path.Top? then t.right.n else root
    ensures At(m', s, root', Node(t.color, t.left, t.right.n, t.right.right), path)
  {
    assert Shape(m, s, t.right, t.n);
    SuccessorApart(m, s, root, t, path, t.right, Top);
    ReplaceAt(m, m', s, root, root', t.color, t.left, t.n, t.right.right, t.right.n, t.right.n, path);
  }

  /** The sentinel's parent field is no part of the tree. */
  lemma SentinelFree(m: Mem, s: RBNode, root: RBNode, t: Tree, path: Path, p: RBNode)
    requires At(m, s, root, t, path)
    ensures At(m[s := m[s].(parent := p)], s, root, t, path)
  {
    NoSentinel(m, s, t, HoleParent(path, s), path, Root(t, s));
    FrameTree(m, m[s := m[s].(parent := p)], s, t, HoleParent(path, s));
    FramePath(m, m[s := m[s].(parent := p)], s, path, Root(t, s));
  }

  /** m1 is m with the detached y linked to the right subtree r of z; m' is m1 with y in z's place. */
  lemma ReplaceDetachedAt(m: Mem, m1: Mem, m': Mem, s: RBNode, root: RBNode, root': RBNode, t: Tree, path: Path,
                          y: RBNode)
    requires At(m, s, root, t, path) && t.Node? && t.right.Node?
    requires Apart(m, t.left, t.n, t.right, y, Leaf, path) && y in m && y != s
    requires t.right.n in m && m1 == m[y := m[y].(right := t.right.n)][t.right.n := m[t.right.n].(parent := y)]
    requires ReplacedMem(m1, m', s, t.left, t.n, Leaf, y, path)
    requires m'[y] == Cell(t.color, HoleParent(path, s), Root(t.left, s), t.right.n)
    requires root' == if path.Top? then y else root
    ensures At(m', s, root', Node(t.color, t.left, y, t.right), path)
  {
    View(m, s, root, t, path);
    assert Shape(m, s, t.right, t.n);
    assert Occ(t.right, t.right.n) >= 1;
    assert t.left.Node? ==> Occ(t.left, t.left.n) >= 1;
    assert path.Step? ==> OccPath(path, path.n) >= 1;
    assert ReplacedMem(m, m', s, t.left, t.n, t.right, y, path);
    ReplaceAt(m, m', s, root, root', t.color, t.left, t.n, t.right, t.n, y, path);
  }

  lemma DetachedLinks(m: Mem, s: RBNode, root: RBNode, t: Tree, path: Path, y: RBNode)
    requires At(m, s, root, t, path) && t.Node? && t.left.Node? && t.right.Node?
    requires Apart(m, t.left, t.n, t.right, y, Leaf, path) && y in m && y != s
    ensures t.n in m && m[t.n] == Cell(t.color, HoleParent(path, s), t.left.n, t.right.n)
    ensures HoleParent(path, s) in m && t.left.n in m && t.right.n in m
    ensures s !in {t.n, t.left.n, t.right.n} && t.left.n !in {t.n, y, t.right.n, HoleParent(path, s)}
    ensures t.right.n !in {t.n, y, HoleParent(path, s)}
    ensures HoleParent(path, s) !in {t.n, y} && t.n != y
    ensures HoleParent(path, s) == s <==> path.Top?
    ensures path.Step? ==>
      m[path.n] == CellOn(path.side, path.color, HoleParent(path.up, s), t.n, Root(path.sibling, s))
    ensures path.Step? ==> Root(path.sibling, s) != t.n
  {
    View(m, s, root, t, path);
    assert Occ(t.left, t.left.n) >= 1 && Occ(t.right, t.right.n) >= 1;
    assert Occ(t.left, t.n) == 0 && Occ(t.left, y) == 0;
    if path.Step? {
      assert OccPath(path, path.n) >= 1;
      assert OccPath(path, t.n) == 0;
    }
  }

  lemma AppendParent(steps: Path, path: Path, s: RBNode)
    ensures HoleParent(Append(steps, path), s) == if steps.Step? then steps.n else HoleParent(path, s)
  {
  }

  /** The links of the node above t. */
  lemma ViewUp(m: Mem, s: RBNode, root: RBNode, t: Tree, path: Path)
    requires At(m, s, root, t, path) && t.Node? && path.Step?
    ensures path.n in m && path.n != s
    ensures m[path.n].right == t.n <==> path.side == Right
    ensures m[path.n].left == t.n <==> path.side == Left
  {
    assert Occ(t, t.n) >= 1;
    assert OccPath(path, t.n) == 0;
    assert Occ(path.sibling, t.n) == 0;
  }
}
