/** The ordered map of src/collect/treetable.c. */
module TreeTable {
  import opened Bits
  import opened Common
  import opened RbRules
  import opened RbTree
  import opened RbMemory
  import opened OrderedMap

  /** The size of a node. */
  const NODE_BYTES := 24

  class TreeTable {
    const cmp: Comparator
    const sentinel: RBNode
    var root: RBNode
    var size: nat

    /** A copy of the link fields of the sentinel and of every node of the table. */
    ghost var mem: Mem
    ghost var tree: Tree
    /** A copy of the value fields of the nodes. */
    ghost var vals: Values

    ghost predicate Sync()
      reads this, mem.Keys
    {
      forall n | n in mem ::
        mem[n] == Cell(n.color, n.parent, n.left, n.right)
    }

    ghost predicate Focus(t: Tree, path: Path)
      reads this, mem.Keys
    {
      Sync() && At(mem, sentinel, root, t, path)
    }

    constructor (cmp: Comparator)
      requires TotalPreorder(cmp)
      ensures Valid() && Entries() == [] && this.cmp == cmp && fresh(mem.Keys)
    {
      this.cmp := cmp;
      var k: Key := *; var v: Value := *;
      var s := new RBNode(k, v);
      sentinel := s;
      root := s;
      size := 0;
      mem := map[s := Cell(Black, null, null, null)];
      tree := Leaf;
      vals := map[];
    }

    /** treetable_new_conf: the table or its sentinel may not be allocated. */
    static method New(cmp: Comparator, granted: bool) returns (st: Status, table: TreeTable?)
      requires TotalPreorder(cmp)
      ensures st == (if granted then Ok else ErrAlloc) && (table != null <==> granted)
      ensures table != null ==>
        fresh(table) && fresh(table.mem.Keys) && table.Valid() && table.Entries() == [] && table.cmp == cmp
    {
      var ok := MemAlloc(NODE_BYTES, granted);
      if !ok {
        return ErrAlloc, null;
      }
      table := new TreeTable(cmp);
      st := Ok;
    }

    /** The links around x before a rotation: y is the child that will rise, b the subtree that changes parent. */
    ghost predicate Around(x: RBNode, y: RBNode, b: RBNode, p: RBNode)
      reads this
    {
      && x in mem && y in mem && b in mem && p in mem && x != sentinel && y != sentinel
      && x != y && x != b && y != b && p != x && p != y && (b == p ==> b == sentinel)
      && mem[x].parent == p
    }

    ghost predicate Valid()
      reads this, mem.Keys, Nodes()
    {
      && Focus(tree, Top)
      && RedBlack(tree)
      && size == |Nodes()|
      && TotalPreorder(cmp) && Sorted(cmp, Nodes())
      && (forall n | n in mem :: n == sentinel || n in Nodes())
      && (forall n | n in Nodes() :: n in vals && n.value == vals[n])
    }

    /** The nodes in ascending key order. */
    ghost function Nodes(): seq<RBNode>
      reads this
    {
      InOrder(tree)
    }

    /** The link fields of the nodes of m as they are now. */
    ghost function Stored(m: Mem): (m': Mem)
      reads m.Keys
      ensures m'.Keys == m.Keys
      ensures forall n | n in m :: m'[n] == Cell(n.color, n.parent, n.left, n.right)
    {
      map n: RBNode | n in m :: Cell(n.color, n.parent, n.left, n.right)
    }

    method RotateLeft(x: RBNode, ghost y: RBNode, ghost b: RBNode, ghost p: RBNode)
      requires Sync() && Around(x, y, b, p)
      requires mem[x].right == y && mem[y].left == b
      requires p != sentinel ==> mem[p].left == x || mem[p].right == x
      modifies `root, `mem, mem.Keys`parent, mem.Keys`left, mem.Keys`right
      ensures Sync() && mem.Keys == old(mem.Keys)
      ensures mem[x] == old(mem)[x].(right := b, parent := y)
      ensures mem[y] == old(mem)[y].(left := x, parent := p)
      ensures b != sentinel ==> mem[b] == old(mem)[b].(parent := x)
      ensures p != sentinel ==>
        mem[p] == if old(mem)[p].left == x then old(mem)[p].(left := y) else old(mem)[p].(right := y)
      ensures forall n | n in mem && n != x && n != y && ((n != b && n != p) || n == sentinel) :: mem[n] == old(mem)[n]
      ensures root == if p == sentinel then y else old(root)
    {
      var y := x.right;

      x.right := y.left;

      if y.left != sentinel {
        y.left.parent := x;
      }

      y.parent := x.parent;

      if x.parent == sentinel {
        root := y;
      } else if x == x.parent.left {
        x.parent.left := y;
      } else {
        x.parent.right := y;
      }

      y.left := x;
      x.parent := y;

      mem := Stored(mem);
    }

    /** RotateLeft, seen as an operation on the tree. */
    method RotateLeftAt(x: RBNode, ghost t: Tree, ghost path: Path)
      requires Focus(t, path) && t.Node? && t.right.Node? && x == t.n
      modifies `root, `mem, mem.Keys`parent, mem.Keys`left, mem.Keys`right
      ensures mem.Keys == old(mem.Keys) && mem[sentinel] == old(mem[sentinel])
      ensures Focus(RotatedLeft(t), path)
    {
      ghost var a, y, b, g := t.left, t.right.n, t.right.left, t.right.right;
      ghost var m := mem;
      RotateLinks(m, sentinel, Left, t.color, a, x, t.right.color, b, y, g, path);
      RotateLeft(x, y, Root(b, sentinel), HoleParent(path, sentinel));
      RotateAt(m, mem, sentinel, old(root), root, Left, t.color, a, x, t.right.color, b, y, g, path);
    }

    method RotateRight(x: RBNode, ghost y: RBNode, ghost b: RBNode, ghost p: RBNode)
      requires Sync() && Around(x, y, b, p)
      requires mem[x].left == y && mem[y].right == b
      requires p != sentinel ==> mem[p].right == x || mem[p].left == x
      modifies `root, `mem, mem.Keys`parent, mem.Keys`left, mem.Keys`right
      ensures Sync() && mem.Keys == old(mem.Keys)
      ensures mem[x] == old(mem)[x].(left := b, parent := y)
      ensures mem[y] == old(mem)[y].(right := x, parent := p)
      ensures b != sentinel ==> mem[b] == old(mem)[b].(parent := x)
      ensures p != sentinel ==>
        mem[p] == if old(mem)[p].right == x then old(mem)[p].(right := y) else old(mem)[p].(left := y)
      ensures forall n | n in mem && n != x && n != y && ((n != b && n != p) || n == sentinel) :: mem[n] == old(mem)[n]
      ensures root == if p == sentinel then y else old(root)
    {
      var y := x.left;

      x.left := y.right;

      if y.right != sentinel {
        y.right.parent := x;
      }

      y.parent := x.parent;

      if x.parent == sentinel {
        root := y;
      } else if x == x.parent.right {
        x.parent.right := y;
      } else {
        x.parent.left := y;
      }

      y.right := x;
      x.parent := y;

      mem := Stored(mem);
    }

    /** RotateRight, seen as an operation on the tree. */
    method RotateRightAt(x: RBNode, ghost t: Tree, ghost path: Path)
      requires Focus(t, path) && t.Node? && t.left.Node? && x == t.n
      modifies `root, `mem, mem.Keys`parent, mem.Keys`left, mem.Keys`right
      ensures mem.Keys == old(mem.Keys) && mem[sentinel] == old(mem[sentinel])
      ensures Focus(RotatedRight(t), path)
    {
      ghost var a, y, b, g := t.right, t.left.n, t.left.right, t.left.left;
      ghost var m := mem;
      RotateLinks(m, sentinel, Right, t.color, a, x, t.left.color, b, y, g, path);
      RotateRight(x, y, Root(b, sentinel), HoleParent(path, sentinel));
      RotateAt(m, mem, sentinel, old(root), root, Right, t.color, a, x, t.left.color, b, y, g, path);
    }

    method Paint(n: RBNode, c: Color, ghost t: Tree, ghost path: Path)
      requires Focus(t, path) && t.Node? && n == t.n
      modifies `mem, mem.Keys`color
      ensures mem.Keys == old(mem.Keys) && mem[sentinel] == old(mem[sentinel])
      ensures Focus(t.(color := c), path)
    {
      PaintAt(mem, sentinel, root, t, path, c);
      n.color := c;
      mem := mem[n := mem[n].(color := c)];
    }

    method RecolorUncle(z: RBNode, y: RBNode, ghost t: Tree, ghost path: Path)
      returns (z': RBNode, ghost t': Tree, ghost path': Path)
      requires Focus(t, path) && t.Node? && z == t.n
      requires path.Step? && path.up.Step? && path.up.sibling.Node? && y == path.up.sibling.n
      modifies `mem, mem.Keys`color
      ensures mem.Keys == old(mem.Keys) && mem[sentinel] == old(mem[sentinel])
      ensures Focus(t', path') && z' == path.up.n && path' == path.up.up
      ensures t' == Join(path.up.side, Red, Join(path.side, Black, t, path.n, path.sibling), path.up.n,
                         path.up.sibling.(color := Black))
      ensures InOrder(Plug(t', path')) == InOrder(Plug(t, path))
    {
      ghost var g := path.up;
      ghost var p := Join(path.side, path.color, t, path.n, path.sibling);
      Up(mem, sentinel, root, t, path);
      Paint(z.parent, Black, p, g);
      p := p.(color := Black);
      ghost var u := Step(Other(g.side), g.color, g.n, p, g.up);
      Up(mem, sentinel, root, p, g);
      Up(mem, sentinel, root, g.sibling, u);
      Paint(y, Black, g.sibling, u);
      Up(mem, sentinel, root, g.sibling.(color := Black), u);
      t' := Join(g.side, g.color, p, g.n, g.sibling.(color := Black));
      Paint(z.parent.parent, Red, t', g.up);
      t' := t'.(color := Red);
      z' := z.parent.parent;
      path' := g.up;
      var below := Join(path.side, path.color, t, path.n, path.sibling);
      SameInOrder(t', Join(g.side, g.color, below, g.n, g.sibling), g.up);
    }

    /** The outer rotation of an insertion on the left of the grandparent. */
    method LiftLeft(z: RBNode, ghost t: Tree, ghost path: Path) returns (ghost path': Path)
      requires Focus(t, path) && t.Node? && z == t.n
      requires path.Step? && path.side == Left && path.up.Step? && path.up.side == Left
      modifies `root, `mem, mem.Keys`color, mem.Keys`parent, mem.Keys`left, mem.Keys`right
      ensures mem.Keys == old(mem.Keys) && mem[sentinel] == old(mem[sentinel])
      ensures path' == Lifted(path)
      ensures Focus(t, path')
      ensures InOrder(Plug(t, path')) == InOrder(Plug(t, path))
    {
      ghost var g := path.up;
      ghost var p := Node(path.color, t, path.n, path.sibling);
      Up(mem, sentinel, root, t, path);
      Paint(z.parent, Black, p, g);
      p := p.(color := Black);
      Up(mem, sentinel, root, p, g);
      ghost var q := Node(g.color, p, g.n, g.sibling);
      Paint(z.parent.parent, Red, q, g.up);
      q := q.(color := Red);
      RotateRightAt(z.parent.parent, q, g.up);
      path' := Lifted(path);
      Up(mem, sentinel, root, t, path');
      RotatedInOrder(q, g.up);
      SameInOrder(q, Node(g.color, Node(path.color, t, path.n, path.sibling), g.n, g.sibling), g.up);
    }

    /** The outer rotation of an insertion on the right of the grandparent. */
    method LiftRight(z: RBNode, ghost t: Tree, ghost path: Path) returns (ghost path': Path)
      requires Focus(t, path) && t.Node? && z == t.n
      requires path.Step? && path.side == Right && path.up.Step? && path.up.side == Right
      modifies `root, `mem, mem.Keys`color, mem.Keys`parent, mem.Keys`left, mem.Keys`right
      ensures mem.Keys == old(mem.Keys) && mem[sentinel] == old(mem[sentinel])
      ensures path' == Lifted(path)
      ensures Focus(t, path')
      ensures InOrder(Plug(t, path')) == InOrder(Plug(t, path))
    {
      ghost var g := path.up;
      ghost var p := Node(path.color, path.sibling, path.n, t);
      Up(mem, sentinel, root, t, path);
      Paint(z.parent, Black, p, g);
      p := p.(color := Black);
      Up(mem, sentinel, root, p, g);
      ghost var q := Node(g.color, g.sibling, g.n, p);
      Paint(z.parent.parent, Red, q, g.up);
      q := q.(color := Red);
      RotateLeftAt(z.parent.parent, q, g.up);
      path' := Lifted(path);
      Up(mem, sentinel, root, t, path');
      RotatedInOrder(q, g.up);
      SameInOrder(q, Node(g.color, g.sibling, g.n, Node(path.color, path.sibling, path.n, t)), g.up);
    }

    /** A round of rebalancing with z's parent a left child. */
    method FixInsertLeft(z: RBNode, ghost t: Tree, ghost path: Path)
      returns (z': RBNode, ghost t': Tree, ghost path': Path)
      requires Focus(t, path) && InsertInv(t, path) && z == t.n
      requires path.Step? && path.color == Red && path.up.side == Left
      modifies `root, `mem, mem.Keys`color, mem.Keys`parent, mem.Keys`left, mem.Keys`right
      ensures mem.Keys == old(mem.Keys) && mem[sentinel] == old(mem[sentinel])
      ensures Focus(t', path') && InsertInv(t', path') && z' == t'.n
      ensures InsertMeasure(path') < InsertMeasure(path)
      ensures InOrder(Plug(t', path')) == InOrder(Plug(t, path))
    {
      InsertView(mem, sentinel, root, t, path);
      var y := z.parent.parent.right;
      if y.color == Red {
        UncleInv(t, path);
        z', t', path' := RecolorUncle(z, y, t, path);
      } else {
        z', t', path' := z, t, path;
        if z == z.parent.right {
          z', t', path' := TurnLeft(z, t, path);
        }
        LiftInv(t', path');
        path' := LiftLeft(z', t', path');
      }
    }

    /** The inner rotation of an insertion, when z is a right child. */
    method TurnLeft(z: RBNode, ghost t: Tree, ghost path: Path)
      returns (z': RBNode, ghost t': Tree, ghost path': Path)
      requires Focus(t, path) && InsertInv(t, path) && z == t.n
      requires path.Step? && path.color == Red && path.side == Right
      modifies `root, `mem, mem.Keys`color, mem.Keys`parent, mem.Keys`left, mem.Keys`right
      ensures mem.Keys == old(mem.Keys) && mem[sentinel] == old(mem[sentinel])
      ensures Focus(t', path') && InsertInv(t', path') && z' == t'.n
      ensures path'.Step? && path'.color == Red && path'.side == Left && path'.up == path.up
      ensures InOrder(Plug(t', path')) == InOrder(Plug(t, path))
    {
      Up(mem, sentinel, root, t, path);
      z' := z.parent;
      ghost var p := Node(path.color, path.sibling, path.n, t);
      RotatedInOrder(p, path.up);
      RotateLeftAt(z', p, path.up);
      t', path' := Node(Red, path.sibling, path.n, t.left), Step(Left, Red, t.n, t.right, path.up);
      Up(mem, sentinel, root, t', path');
      TurnInv(t, path);
    }

    /** A round of rebalancing with z's parent a right child. */
    method FixInsertRight(z: RBNode, ghost t: Tree, ghost path: Path)
      returns (z': RBNode, ghost t': Tree, ghost path': Path)
      requires Focus(t, path) && InsertInv(t, path) && z == t.n
      requires path.Step? && path.color == Red && path.up.side == Right
      modifies `root, `mem, mem.Keys`color, mem.Keys`parent, mem.Keys`left, mem.Keys`right
      ensures mem.Keys == old(mem.Keys) && mem[sentinel] == old(mem[sentinel])
      ensures Focus(t', path') && InsertInv(t', path') && z' == t'.n
      ensures InsertMeasure(path') < InsertMeasure(path)
      ensures InOrder(Plug(t', path')) == InOrder(Plug(t, path))
    {
      InsertView(mem, sentinel, root, t, path);
      var y := z.parent.parent.left;
      if y.color == Red {
        UncleInv(t, path);
        z', t', path' := RecolorUncle(z, y, t, path);
      } else {
        z', t', path' := z, t, path;
        if z == z.parent.left {
          z', t', path' := TurnRight(z, t, path);
        }
        LiftInv(t', path');
        path' := LiftRight(z', t', path');
      }
    }

    /** The inner rotation of an insertion, when z is a left child. */
    method TurnRight(z: RBNode, ghost t: Tree, ghost path: Path)
      returns (z': RBNode, ghost t': Tree, ghost path': Path)
      requires Focus(t, path) && InsertInv(t, path) && z == t.n
      requires path.Step? && path.color == Red && path.side == Left
      modifies `root, `mem, mem.Keys`color, mem.Keys`parent, mem.Keys`left, mem.Keys`right
      ensures mem.Keys == old(mem.Keys) && mem[sentinel] == old(mem[sentinel])
      ensures Focus(t', path') && InsertInv(t', path') && z' == t'.n
      ensures path'.Step? && path'.color == Red && path'.side == Right && path'.up == path.up
      ensures InOrder(Plug(t', path')) == InOrder(Plug(t, path))
    {
      Up(mem, sentinel, root, t, path);
      z' := z.parent;
      ghost var p := Node(path.color, t, path.n, path.sibling);
      RotatedInOrder(p, path.up);
      RotateRightAt(z', p, path.up);
      t', path' := Node(Red, t.right, path.n, path.sibling), Step(Right, Red, t.n, t.left, path.up);
      Up(mem, sentinel, root, t', path');
      TurnInv(t, path);
    }

    method RebalanceAfterInsert(z0: RBNode, ghost t0: Tree, ghost path0: Path) returns (ghost tree': Tree)
      requires Focus(t0, path0) && InsertInv(t0, path0) && z0 == t0.n
      modifies `root, `mem, mem.Keys`color, mem.Keys`parent, mem.Keys`left, mem.Keys`right
      ensures mem.Keys == old(mem.Keys) && mem[sentinel] == old(mem[sentinel])
      ensures Focus(tree', Top) && RedBlack(tree')
      ensures InOrder(tree') == InOrder(Plug(t0, path0))
    {
      var z := z0;
      ghost var t, path := t0, path0;
      InsertView(mem, sentinel, root, t, path);
      while z.parent.color == Red
        invariant mem.Keys == old(mem.Keys) && mem[sentinel] == old(mem[sentinel])
        invariant Focus(t, path) && InsertInv(t, path) && z == t.n
        invariant z.parent == HoleParent(path, sentinel) && z.parent in mem
        invariant z.parent.color == Red <==> path.Step? && path.color == Red
        invariant InOrder(Plug(t, path)) == InOrder(Plug(t0, path0))
        decreases InsertMeasure(path)
      {
        InsertView(mem, sentinel, root, t, path);
        if z.parent == z.parent.parent.left {
          z, t, path := FixInsertLeft(z, t, path);
        } else {
          z, t, path := FixInsertRight(z, t, path);
        }
        InsertView(mem, sentinel, root, t, path);
      }
      InsertDone(t, path);
      PlugAt(mem, sentinel, root, t, path);
      tree' := Plug(t, path);
      Paint(root, Black, tree', Top);
      tree' := tree'.(color := Black);
    }

    /** The parent field of the node in the hole, or of the sentinel there, is kept by storing only elsewhere. */
    lemma HoleLinked(t: Tree, path: Path, x: RBNode)
      requires Focus(t, path) && path.Step? && x == Root(t, sentinel)
      requires mem[sentinel].parent == path.n || t.Node?
      ensures x.parent == path.n
    {
    }

    /** A red sibling on the right is rotated up. */
    method RaiseSiblingLeft(x: RBNode, w: RBNode, ghost t: Tree, ghost path: Path)
      returns (w': RBNode, ghost path': Path)
      requires Focus(t, path) && DeleteInv(t, path) && x == Root(t, sentinel)
      requires path.Step? && path.side == Left && !IsBlack(path.sibling) && w == path.sibling.n
      requires x.parent == path.n
      modifies `root, `mem, mem.Keys`color, mem.Keys`parent, mem.Keys`left, mem.Keys`right
      ensures mem.Keys == old(mem.Keys) && mem[sentinel] == old(mem[sentinel])
      ensures path' == SiblingUp(path) && Focus(t, path') && DeleteInv(t, path') && x.parent == path'.n
      ensures w' == path'.sibling.n
      ensures InOrder(Plug(t, path')) == InOrder(Plug(t, path))
    {
      path' := SiblingUp(path);
      SiblingUpInv(t, path);
      ghost var wt := path.sibling;
      ghost var wp := Step(Right, path.color, path.n, t, path.up);
      ghost var p := Node(path.color, t, path.n, wt);
      Up(mem, sentinel, root, t, path);
      Up(mem, sentinel, root, wt, wp);
      Paint(w, Black, wt, wp);
      wt := wt.(color := Black);
      Up(mem, sentinel, root, wt, wp);
      Paint(x.parent, Red, Node(path.color, t, path.n, wt), path.up);
      ghost var q := Node(Red, t, path.n, wt);
      RotateLeftAt(x.parent, q, path.up);
      Up(mem, sentinel, root, q.(right := wt.left), path'.up);
      Up(mem, sentinel, root, t, path');
      RotatedInOrder(q, path.up);
      SameInOrder(p, q, path.up);
      DeleteView(mem, sentinel, root, t, path');
      HoleLinked(t, path', x);
      w' := x.parent.right;
    }

    /** The nephew on the left is red and the one on the right black: the left one becomes the sibling. */
    method RaiseNephewLeft(x: RBNode, w: RBNode, ghost t: Tree, ghost path: Path)
      returns (w': RBNode, ghost path': Path)
      requires Focus(t, path) && DeleteInv(t, path) && x == Root(t, sentinel)
      requires path.Step? && path.side == Left && path.sibling.Node? && w == path.sibling.n
      requires !IsBlack(path.sibling.left)
      requires x.parent == path.n
      modifies `root, `mem, mem.Keys`color, mem.Keys`parent, mem.Keys`left, mem.Keys`right
      ensures mem.Keys == old(mem.Keys) && mem[sentinel] == old(mem[sentinel])
      ensures path' == NephewUp(path) && Focus(t, path') && x.parent == path'.n
      ensures w' == path'.sibling.n
      ensures InOrder(Plug(t, path')) == InOrder(Plug(t, path))
    {
      ghost var wt := path.sibling;
      ghost var wp := Step(Right, path.color, path.n, t, path.up);
      ghost var vp := Step(Left, wt.color, wt.n, wt.right, wp);
      Up(mem, sentinel, root, t, path);
      Up(mem, sentinel, root, wt, wp);
      Up(mem, sentinel, root, wt.left, vp);
      Paint(w.left, Black, wt.left, vp);
      ghost var vt := wt.left.(color := Black);
      Up(mem, sentinel, root, vt, vp);
      Paint(w, Red, wt.(left := vt), wp);
      ghost var q := wt.(left := vt, color := Red);
      RotateRightAt(w, q, wp);
      path' := path.(sibling := RotatedRight(q));
      Up(mem, sentinel, root, RotatedRight(q), wp);
      Up(mem, sentinel, root, t, path');
      RotatedInOrder(q, wp);
      SameInOrder(wt, q, wp);
      HoleLinked(t, path', x);
      w' := x.parent.right;
    }

    /** The nephew on the right is red: it is rotated into the sibling's place, which ends the rebalancing. */
    method BorrowLeft(x: RBNode, w: RBNode, ghost t: Tree, ghost path: Path) returns (ghost t': Tree)
      requires Focus(t, path) && x == Root(t, sentinel)
      requires path.Step? && path.side == Left && path.sibling.Node? && w == path.sibling.n
      requires !IsBlack(path.sibling.right)
      requires x.parent == path.n
      modifies `root, `mem, mem.Keys`color, mem.Keys`parent, mem.Keys`left, mem.Keys`right
      ensures mem.Keys == old(mem.Keys) && mem[sentinel] == old(mem[sentinel])
      ensures t' == Borrowed(t, path) && Focus(t', path.up)
      ensures InOrder(Plug(t', path.up)) == InOrder(Plug(t, path))
    {
      ghost var wt := path.sibling;
      ghost var wp := Step(Right, path.color, path.n, t, path.up);
      ghost var p := Node(path.color, t, path.n, wt);
      Up(mem, sentinel, root, t, path);
      Up(mem, sentinel, root, wt, wp);
      Paint(w, x.parent.color, wt, wp);
      wt := wt.(color := path.color);
      Up(mem, sentinel, root, wt, wp);
      Paint(x.parent, Black, Node(path.color, t, path.n, wt), path.up);
      wp := wp.(color := Black);
      ghost var vp := Step(Right, wt.color, wt.n, wt.left, wp);
      Up(mem, sentinel, root, wt, wp);
      Up(mem, sentinel, root, wt.right, vp);
      Paint(w.right, Black, wt.right, vp);
      Up(mem, sentinel, root, wt.right.(color := Black), vp);
      wt := wt.(right := wt.right.(color := Black));
      Up(mem, sentinel, root, wt, wp);
      ghost var q := Node(Black, t, path.n, wt);
      assert InOrder(wt) == InOrder(path.sibling);
      RotateLeftAt(x.parent, q, path.up);
      t' := RotatedLeft(q);
      RotatedInOrder(q, path.up);
      SameInOrder(p, q, path.up);
    }

    /** A red sibling on the left is rotated up. */
    method RaiseSiblingRight(x: RBNode, w: RBNode, ghost t: Tree, ghost path: Path)
      returns (w': RBNode, ghost path': Path)
      requires Focus(t, path) && DeleteInv(t, path) && x == Root(t, sentinel)
      requires path.Step? && path.side == Right && !IsBlack(path.sibling) && w == path.sibling.n
      requires x.parent == path.n
      modifies `root, `mem, mem.Keys`color, mem.Keys`parent, mem.Keys`left, mem.Keys`right
      ensures mem.Keys == old(mem.Keys) && mem[sentinel] == old(mem[sentinel])
      ensures path' == SiblingUp(path) && Focus(t, path') && DeleteInv(t, path') && x.parent == path'.n
      ensures w' == path'.sibling.n
      ensures InOrder(Plug(t, path')) == InOrder(Plug(t, path))
    {
      path' := SiblingUp(path);
      SiblingUpInv(t, path);
      ghost var wt := path.sibling;
      ghost var wp := Step(Left, path.color, path.n, t, path.up);
      ghost var p := Node(path.color, wt, path.n, t);
      Up(mem, sentinel, root, t, path);
      Up(mem, sentinel, root, wt, wp);
      Paint(w, Black, wt, wp);
      wt := wt.(color := Black);
      Up(mem, sentinel, root, wt, wp);
      Paint(x.parent, Red, Node(path.color, wt, path.n, t), path.up);
      ghost var q := Node(Red, wt, path.n, t);
      RotateRightAt(x.parent, q, path.up);
      Up(mem, sentinel, root, q.(left := wt.right), path'.up);
      Up(mem, sentinel, root, t, path');
      RotatedInOrder(q, path.up);
      SameInOrder(p, q, path.up);
      DeleteView(mem, sentinel, root, t, path');
      HoleLinked(t, path', x);
      w' := x.parent.left;
    }

    /** The nephew on the right is red and the one on the left black: the right one becomes the sibling. */
    method RaiseNephewRight(x: RBNode, w: RBNode, ghost t: Tree, ghost path: Path)
      returns (w': RBNode, ghost path': Path)
      requires Focus(t, path) && DeleteInv(t, path) && x == Root(t, sentinel)
      requires path.Step? && path.side == Right && path.sibling.Node? && w == path.sibling.n
      requires !IsBlack(path.sibling.right)
      requires x.parent == path.n
      modifies `root, `mem, mem.Keys`color, mem.Keys`parent, mem.Keys`left, mem.Keys`right
      ensures mem.Keys == old(mem.Keys) && mem[sentinel] == old(mem[sentinel])
      ensures path' == NephewUp(path) && Focus(t, path') && x.parent == path'.n
      ensures w' == path'.sibling.n
      ensures InOrder(Plug(t, path')) == InOrder(Plug(t, path))
    {
      ghost var wt := path.sibling;
      ghost var wp := Step(Left, path.color, path.n, t, path.up);
      ghost var vp := Step(Right, wt.color, wt.n, wt.left, wp);
      Up(mem, sentinel, root, t, path);
      Up(mem, sentinel, root, wt, wp);
      Up(mem, sentinel, root, wt.right, vp);
      Paint(w.right, Black, wt.right, vp);
      ghost var vt := wt.right.(color := Black);
      Up(mem, sentinel, root, vt, vp);
      Paint(w, Red, wt.(right := vt), wp);
      ghost var q := wt.(right := vt, color := Red);
      RotateLeftAt(w, q, wp);
      path' := path.(sibling := RotatedLeft(q));
      Up(mem, sentinel, root, RotatedLeft(q), wp);
      Up(mem, sentinel, root, t, path');
      RotatedInOrder(q, wp);
      SameInOrder(wt, q, wp);
      HoleLinked(t, path', x);
      w' := x.parent.left;
    }

    /** The nephew on the left is red: it is rotated into the sibling's place, which ends the rebalancing. */
    method BorrowRight(x: RBNode, w: RBNode, ghost t: Tree, ghost path: Path) returns (ghost t': Tree)
      requires Focus(t, path) && x == Root(t, sentinel)
      requires path.Step? && path.side == Right && path.sibling.Node? && w == path.sibling.n
      requires !IsBlack(path.sibling.left)
      requires x.parent == path.n
      modifies `root, `mem, mem.Keys`color, mem.Keys`parent, mem.Keys`left, mem.Keys`right
      ensures mem.Keys == old(mem.Keys) && mem[sentinel] == old(mem[sentinel])
      ensures t' == Borrowed(t, path) && Focus(t', path.up)
      ensures InOrder(Plug(t', path.up)) == InOrder(Plug(t, path))
    {
      ghost var wt := path.sibling;
      ghost var wp := Step(Left, path.color, path.n, t, path.up);
      ghost var p := Node(path.color, wt, path.n, t);
      Up(mem, sentinel, root, t, path);
      Up(mem, sentinel, root, wt, wp);
      Paint(w, x.parent.color, wt, wp);
      wt := wt.(color := path.color);
      Up(mem, sentinel, root, wt, wp);
      Paint(x.parent, Black, Node(path.color, wt, path.n, t), path.up);
      wp := wp.(color := Black);
      ghost var vp := Step(Left, wt.color, wt.n, wt.right, wp);
      Up(mem, sentinel, root, wt, wp);
      Up(mem, sentinel, root, wt.left, vp);
      Paint(w.left, Black, wt.left, vp);
      Up(mem, sentinel, root, wt.left.(color := Black), vp);
      wt := wt.(left := wt.left.(color := Black));
      Up(mem, sentinel, root, wt, wp);
      ghost var q := Node(Black, wt, path.n, t);
      assert InOrder(wt) == InOrder(path.sibling);
      RotateRightAt(x.parent, q, path.up);
      t' := RotatedRight(q);
      RotatedInOrder(q, path.up);
      SameInOrder(p, q, path.up);
    }

    /** Both nephews are black: the sibling turns red. */
    method PassUp(x: RBNode, w: RBNode, ghost t: Tree, ghost path: Path)
      returns (x': RBNode, ghost t': Tree, ghost path': Path)
      requires Focus(t, path) && x == Root(t, sentinel)
      requires path.Step? && path.sibling.Node? && w == path.sibling.n && x.parent == path.n
      modifies `mem, mem.Keys`color
      ensures mem.Keys == old(mem.Keys) && mem[sentinel] == old(mem[sentinel])
      ensures Focus(t', path') && path' == path.up && x' == path.n
      ensures t' == Join(path.side, path.color, t, path.n, path.sibling.(color := Red))
      ensures InOrder(Plug(t', path')) == InOrder(Plug(t, path))
    {
      ghost var wp := Step(Other(path.side), path.color, path.n, t, path.up);
      Up(mem, sentinel, root, t, path);
      Up(mem, sentinel, root, path.sibling, wp);
      Paint(w, Red, path.sibling, wp);
      Up(mem, sentinel, root, path.sibling.(color := Red), wp);
      x' := x.parent;
      t', path' := Join(path.side, path.color, t, path.n, path.sibling.(color := Red)), path.up;
      SameInOrder(t', Join(path.side, path.color, t, path.n, path.sibling), path.up);
    }

    /** A round of rebalancing with x a left child. */
    method FixDeleteLeft(x: RBNode, ghost t: Tree, ghost path: Path)
      returns (x': RBNode, ghost t': Tree, ghost path': Path)
      requires Focus(t, path) && DeleteInv(t, path) && IsBlack(t) && x == Root(t, sentinel)
      requires path.Step? && path.side == Left && x.parent == path.n
      modifies `root, `mem, mem.Keys`color, mem.Keys`parent, mem.Keys`left, mem.Keys`right
      ensures mem.Keys == old(mem.Keys) && mem[sentinel] == old(mem[sentinel])
      ensures Focus(t', path') && DeleteInv(t', path') && x' == Root(t', sentinel) && t'.Node?
      ensures DeleteMeasure(t', path') < DeleteMeasure(t, path)
      ensures InOrder(Plug(t', path')) == InOrder(Plug(t, path))
    {
      DeleteView(mem, sentinel, root, t, path);
      var w := x.parent.right;
      path' := path;
      if w.color == Red {
        w, path' := RaiseSiblingLeft(x, w, t, path);
      }
      x', t', path' := SettleLeft(x, w, t, path');
    }

    method SettleLeft(x: RBNode, w: RBNode, ghost t: Tree, ghost path: Path)
      returns (x': RBNode, ghost t': Tree, ghost path': Path)
      requires Focus(t, path) && DeleteInv(t, path) && IsBlack(t) && x == Root(t, sentinel)
      requires path.Step? && path.side == Left && x.parent == path.n
      requires path.sibling.Node? && path.sibling.color == Black && w == path.sibling.n
      modifies `root, `mem, mem.Keys`color, mem.Keys`parent, mem.Keys`left, mem.Keys`right
      ensures mem.Keys == old(mem.Keys) && mem[sentinel] == old(mem[sentinel])
      ensures Focus(t', path') && DeleteInv(t', path') && x' == Root(t', sentinel) && t'.Node?
      ensures path' == Top || (path' == path.up && t'.color == path.color)
      ensures InOrder(Plug(t', path')) == InOrder(Plug(t, path))
    {
      DeleteView(mem, sentinel, root, t, path);
      if w.left.color == Black && w.right.color == Black {
        SiblingRedInv(t, path);
        x', t', path' := PassUp(x, w, t, path);
      } else {
        ghost var path'' := path;
        var w' := w;
        if w.right.color == Black {
          NephewInv(t, path);
          w', path'' := RaiseNephewLeft(x, w, t, path);
        }
        BorrowInv(t, path'');
        FittedWhole(Borrowed(t, path''), path''.up);
        t' := BorrowLeft(x, w', t, path'');
        PlugAt(mem, sentinel, root, t', path.up);
        t', path' := Plug(t', path.up), Top;
        x' := root;
      }
    }

    /** A round of rebalancing with x a right child. */
    method FixDeleteRight(x: RBNode, ghost t: Tree, ghost path: Path)
      returns (x': RBNode, ghost t': Tree, ghost path': Path)
      requires Focus(t, path) && DeleteInv(t, path) && IsBlack(t) && x == Root(t, sentinel)
      requires path.Step? && path.side == Right && x.parent == path.n
      modifies `root, `mem, mem.Keys`color, mem.Keys`parent, mem.Keys`left, mem.Keys`right
      ensures mem.Keys == old(mem.Keys) && mem[sentinel] == old(mem[sentinel])
      ensures Focus(t', path') && DeleteInv(t', path') && x' == Root(t', sentinel) && t'.Node?
      ensures DeleteMeasure(t', path') < DeleteMeasure(t, path)
      ensures InOrder(Plug(t', path')) == InOrder(Plug(t, path))
    {
      DeleteView(mem, sentinel, root, t, path);
      var w := x.parent.left;
      path' := path;
      if w.color == Red {
        w, path' := RaiseSiblingRight(x, w, t, path);
      }
      x', t', path' := SettleRight(x, w, t, path');
    }

    method SettleRight(x: RBNode, w: RBNode, ghost t: Tree, ghost path: Path)
      returns (x': RBNode, ghost t': Tree, ghost path': Path)
      requires Focus(t, path) && DeleteInv(t, path) && IsBlack(t) && x == Root(t, sentinel)
      requires path.Step? && path.side == Right && x.parent == path.n
      requires path.sibling.Node? && path.sibling.color == Black && w == path.sibling.n
      modifies `root, `mem, mem.Keys`color, mem.Keys`parent, mem.Keys`left, mem.Keys`right
      ensures mem.Keys == old(mem.Keys) && mem[sentinel] == old(mem[sentinel])
      ensures Focus(t', path') && DeleteInv(t', path') && x' == Root(t', sentinel) && t'.Node?
      ensures path' == Top || (path' == path.up && t'.color == path.color)
      ensures InOrder(Plug(t', path')) == InOrder(Plug(t, path))
    {
      DeleteView(mem, sentinel, root, t, path);
      if w.right.color == Black && w.left.color == Black {
        SiblingRedInv(t, path);
        x', t', path' := PassUp(x, w, t, path);
      } else {
        ghost var path'' := path;
        var w' := w;
        if w.left.color == Black {
          NephewInv(t, path);
          w', path'' := RaiseNephewRight(x, w, t, path);
        }
        BorrowInv(t, path'');
        FittedWhole(Borrowed(t, path''), path''.up);
        t' := BorrowRight(x, w', t, path'');
        PlugAt(mem, sentinel, root, t', path.up);
        t', path' := Plug(t', path.up), Top;
        x' := root;
      }
    }

    /** The last step: x, possibly the sentinel, turns black. */
    method Blacken(x: RBNode, ghost t: Tree, ghost path: Path) returns (ghost tree': Tree)
      requires Focus(t, path) && DeleteInv(t, path) && x == Root(t, sentinel)
      requires path.Top? || !IsBlack(t)
      modifies `mem, mem.Keys`color
      ensures mem.Keys == old(mem.Keys) && mem[sentinel] == old(mem[sentinel])
      ensures Focus(tree', Top) && RedBlack(tree')
      ensures InOrder(tree') == InOrder(Plug(t, path))
    {
      DeleteDone(t, path);
      SameInOrder(t, Blackened(t), path);
      if t.Node? {
        PaintAt(mem, sentinel, root, t, path, Black);
      }
      x.color := Black;
      mem := mem[x := mem[x].(color := Black)];
      tree' := Plug(Blackened(t), path);
      PlugAt(mem, sentinel, root, Blackened(t), path);
    }

    method RebalanceAfterDelete(x0: RBNode, ghost t0: Tree, ghost path0: Path) returns (ghost tree': Tree)
      requires Focus(t0, path0) && DeleteInv(t0, path0) && x0 == Root(t0, sentinel)
      requires path0.Step? ==> x0.parent == path0.n
      modifies `root, `mem, mem.Keys`color, mem.Keys`parent, mem.Keys`left, mem.Keys`right
      ensures mem.Keys == old(mem.Keys) && mem[sentinel] == old(mem[sentinel])
      ensures Focus(tree', Top) && RedBlack(tree')
      ensures InOrder(tree') == InOrder(Plug(t0, path0))
    {
      var x := x0;
      ghost var t, path := t0, path0;
      DeleteView(mem, sentinel, root, t, path);
      while x != root && x.color == Black
        invariant mem.Keys == old(mem.Keys) && mem[sentinel] == old(mem[sentinel])
        invariant Focus(t, path) && DeleteInv(t, path) && x == Root(t, sentinel)
        invariant path.Step? ==> x.parent == path.n
        invariant x == root <==> path.Top?
        invariant x.color == Black <==> IsBlack(t)
        invariant InOrder(Plug(t, path)) == InOrder(Plug(t0, path0))
        decreases DeleteMeasure(t, path)
      {
        DeleteView(mem, sentinel, root, t, path);
        if x == x.parent.left {
          x, t, path := FixDeleteLeft(x, t, path);
        } else {
          x, t, path := FixDeleteRight(x, t, path);
        }
        DeleteView(mem, sentinel, root, t, path);
      }
      tree' := Blacken(x, t, path);
    }

    // ---- Table operations ----

    method Transplant(u: RBNode, v: RBNode, ghost p: RBNode)
      requires Sync() && u in mem && v in mem && p in mem && mem[u].parent == p
      requires v != p || v == sentinel
      requires p != sentinel ==> mem[p].left == u || mem[p].right == u
      modifies `root, `mem, mem.Keys`parent, mem.Keys`left, mem.Keys`right
      ensures Sync() && mem.Keys == old(mem.Keys)
      ensures mem[v] == old(mem)[v].(parent := p)
      ensures p != sentinel ==>
        mem[p] == if old(mem)[p].left == u then old(mem)[p].(left := v) else old(mem)[p].(right := v)
      ensures forall n | n in mem && n != v && (n != p || n == sentinel) :: mem[n] == old(mem)[n]
      ensures root == if p == sentinel then v else old(root)
    {
      if u.parent == sentinel {
        root := v;
      } else if u == u.parent.left {
        u.parent.left := v;
      } else {
        u.parent.right := v;
      }
      v.parent := u.parent;

      mem := Stored(mem);
    }

    /** Transplant, when v is all that hangs below u. */
    method TransplantChild(u: RBNode, v: RBNode, ghost t: Tree, ghost path: Path, ghost child: Tree)
      requires Focus(t, path) && t.Node? && u == t.n && v == Root(child, sentinel)
      requires (t.left.Leaf? && child == t.right) || (t.right.Leaf? && child == t.left)
      modifies `root, `mem, mem.Keys`parent, mem.Keys`left, mem.Keys`right
      ensures mem.Keys == old(mem.Keys)
      ensures Focus(child, path) && mem[v].parent == HoleParent(path, sentinel)
    {
      ghost var m := mem;
      SpliceLinks(m, sentinel, root, t, path, child);
      Transplant(u, v, HoleParent(path, sentinel));
      SpliceAt(m, mem, sentinel, old(root), root, t, path, child);
    }

    method TreeMin(n0: RBNode, ghost t: Tree, ghost path: Path) returns (n: RBNode, ghost ty: Tree, ghost steps: Path)
      requires Focus(t, path) && t.Node? && n0 == t.n
      ensures ty.Node? && ty.left.Leaf? && n == ty.n && Plug(ty, steps) == t && Before(steps) == []
      ensures Focus(ty, Append(steps, path))
      ensures InOrder(t) == [n] + InOrder(Plug(ty.right, steps))
    {
      n, ty, steps := n0, t, Top;
      while n.left != sentinel
        invariant Focus(ty, Append(steps, path)) && ty.Node? && n == ty.n
        invariant Plug(ty, steps) == t && Before(steps) == []
        decreases ty
      {
        View(mem, sentinel, root, ty, Append(steps, path));
        ty, steps := ty.left, Step(Left, ty.color, ty.n, ty.right, steps);
        Up(mem, sentinel, root, ty, Append(steps, path));
        n := n.left;
      }
      View(mem, sentinel, root, ty, Append(steps, path));
      MinInOrder(ty, steps);
    }

    /** y, whose right link is already set, takes over z's place. */
    method TakePlace(z: RBNode, y: RBNode, ghost p: RBNode, ghost l: RBNode)
      requires Sync() && z in mem && y in mem && p in mem && l in mem
      requires sentinel !in {z, y, l} && l !in {z, y, p} && p !in {z, y} && z != y
      requires mem[z].parent == p && mem[z].left == l
      requires p != sentinel ==> mem[p].left == z || mem[p].right == z
      modifies `root, `mem, mem.Keys`color, mem.Keys`parent, mem.Keys`left, mem.Keys`right
      ensures Sync() && mem.Keys == old(mem.Keys)
      ensures mem[y] == Cell(old(mem)[z].color, p, l, old(mem)[y].right)
      ensures mem[l] == old(mem)[l].(parent := y)
      ensures p != sentinel ==>
        mem[p] == if old(mem)[p].left == z then old(mem)[p].(left := y) else old(mem)[p].(right := y)
      ensures forall n | n in mem && n != y && n != l && (n != p || n == sentinel) :: mem[n] == old(mem)[n]
      ensures root == if p == sentinel then y else old(root)
    {
      Transplant(z, y, p);
      y.left := z.left;
      y.left.parent := y;
      y.color := z.color;

      mem := Stored(mem);
    }

    /** The right child r of z becomes that of y. */
    method TakeRight(z: RBNode, y: RBNode, ghost r: RBNode)
      requires Sync() && z in mem && y in mem && r in mem && mem[z].right == r && r != y && z != y
      modifies `mem, y`right, mem.Keys`parent
      ensures Sync() && mem == old(mem)[y := old(mem)[y].(right := r)][r := old(mem)[r].(parent := y)]
    {
      y.right := z.right;
      y.right.parent := y;
      mem := mem[y := mem[y].(right := r)][r := mem[r].(parent := y)];
    }

    /** x hangs below y already, unless it is the sentinel. */
    method LinkHole(x: RBNode, y: RBNode, ghost t: Tree, ghost path: Path)
      requires Focus(t, path) && path.Step? && y == path.n && x == Root(t, sentinel)
      modifies `mem, mem.Keys`parent
      ensures mem.Keys == old(mem.Keys) && Focus(t, path) && x in mem && mem[x].parent == y
    {
      x.parent := y;
      if t.Leaf? {
        SentinelFree(mem, sentinel, root, t, path, y);
        mem := mem[x := mem[x].(parent := y)];
      }
    }

    /** z has two subtrees, and its successor y is the root of the right one. */
    method ReplaceByChild(z: RBNode, y: RBNode, x: RBNode, ghost t: Tree, ghost path: Path)
      requires Focus(t, path) && t.Node? && z == t.n && t.left.Node? && t.right.Node? && t.right.left.Leaf?
      requires y == t.right.n && x == Root(t.right.right, sentinel)
      modifies `root, `mem, mem.Keys`color, mem.Keys`parent, mem.Keys`left, mem.Keys`right
      ensures mem.Keys == old(mem.Keys)
      ensures Focus(Node(t.color, t.left, y, t.right.right), path)
      ensures x in mem && mem[x].parent == y
    {
      ghost var zp := Step(Right, t.color, z, t.left, path);
      ghost var yp := Step(Right, t.right.color, y, Leaf, zp);
      Up(mem, sentinel, root, t.right, zp);
      Up(mem, sentinel, root, t.right.right, yp);
      LinkHole(x, y, t.right.right, yp);
      Up(mem, sentinel, root, t.right.right, yp);
      Up(mem, sentinel, root, t.right, zp);
      TakeChildPlace(z, y, x, t, path);
    }

    method TakeChildPlace(z: RBNode, y: RBNode, ghost x: RBNode, ghost t: Tree, ghost path: Path)
      requires Focus(t, path) && t.Node? && z == t.n && t.left.Node? && t.right.Node? && t.right.left.Leaf?
      requires y == t.right.n && x == Root(t.right.right, sentinel) && x in mem && mem[x].parent == y
      modifies `root, `mem, mem.Keys`color, mem.Keys`parent, mem.Keys`left, mem.Keys`right
      ensures mem.Keys == old(mem.Keys)
      ensures Focus(Node(t.color, t.left, y, t.right.right), path) && mem[x].parent == y
    {
      ghost var m, p := mem, HoleParent(path, sentinel);
      ReplaceLinks(m, sentinel, root, t, path, t.right, Top);
      TakePlace(z, y, p, t.left.n);
      ReplaceChildAt(m, mem, sentinel, old(root), root, t, path);
    }

    /** y, taken out of the right subtree of z before, takes z's place. */
    method TakeDetachedPlace(z: RBNode, y: RBNode, ghost t: Tree, ghost path: Path)
      requires Focus(t, path) && t.Node? && z == t.n && t.left.Node? && t.right.Node?
      requires Apart(mem, t.left, z, t.right, y, Leaf, path) && y in mem && y != sentinel
      modifies `root, `mem, mem.Keys`color, mem.Keys`parent, mem.Keys`left, mem.Keys`right
      ensures mem.Keys == old(mem.Keys) && mem[sentinel] == old(mem[sentinel])
      ensures Focus(Node(t.color, t.left, y, t.right), path)
    {
      ghost var m, p := mem, HoleParent(path, sentinel);
      DetachedLinks(m, sentinel, root, t, path, y);
      TakeRight(z, y, t.right.n);
      ghost var m1 := mem;
      TakePlace(z, y, p, t.left.n);
      ReplaceDetachedAt(m, m1, mem, sentinel, old(root), root, t, path, y);
    }

    /** z has two subtrees: its successor y leaves its place to its right child x and takes z's. */
    method ReplaceBySuccessor(z: RBNode, ghost t: Tree, ghost path: Path)
      returns (x: RBNode, yColor: Color, ghost ty: Tree, ghost steps: Path)
      requires Focus(t, path) && t.Node? && z == t.n && t.left.Node? && t.right.Node?
      modifies `root, `mem, mem.Keys`color, mem.Keys`parent, mem.Keys`left, mem.Keys`right
      ensures mem.Keys == old(mem.Keys)
      ensures ty.Node? && ty.left.Leaf? && Plug(ty, steps) == t.right && Before(steps) == [] && yColor == ty.color
      ensures Focus(ty.right, Append(steps, Step(Right, t.color, ty.n, t.left, path)))
      ensures x == Root(ty.right, sentinel)
      ensures x.parent == HoleParent(Append(steps, Step(Right, t.color, ty.n, t.left, path)), sentinel)
    {
      ghost var zp := Step(Right, t.color, z, t.left, path);
      View(mem, sentinel, root, t, path);
      Up(mem, sentinel, root, t.right, zp);
      var y;
      y, ty, steps := TreeMin(z.right, t.right, zp);
      ghost var yp := Step(Right, t.color, y, t.left, path);
      View(mem, sentinel, root, ty, Append(steps, zp));
      SuccessorApart(mem, sentinel, root, t, path, ty, steps);
      AppendParent(steps, zp, sentinel);
      AppendParent(steps, yp, sentinel);
      yColor := y.color;
      x := y.right;
      if y.parent == z {
        assert steps.Top?;
        ReplaceByChild(z, y, x, t, path);
        Up(mem, sentinel, root, t.right.right, yp);
      } else {
        ReplaceByDescendant(z, y, x, t, path, ty, steps);
      }
    }

    /** z has two subtrees, and its successor y is not the root of the right one. */
    method ReplaceByDescendant(z: RBNode, y: RBNode, x: RBNode, ghost t: Tree, ghost path: Path, ghost ty: Tree,
                               ghost steps: Path)
      requires Focus(t, path) && t.Node? && z == t.n && t.left.Node? && steps.Step?
      requires ty.Node? && ty.left.Leaf? && y == ty.n && Plug(ty, steps) == t.right && x == Root(ty.right, sentinel)
      requires x == y.right
      modifies `root, `mem, mem.Keys`color, mem.Keys`parent, mem.Keys`left, mem.Keys`right
      ensures mem.Keys == old(mem.Keys)
      ensures Focus(ty.right, Append(steps, Step(Right, t.color, y, t.left, path)))
      ensures x.parent == steps.n
    {
      ghost var zp, yp := Step(Right, t.color, z, t.left, path), Step(Right, t.color, y, t.left, path);
      ghost var r := Plug(ty.right, steps);
      SuccessorApart(mem, sentinel, root, t, path, ty, steps);
      Up(mem, sentinel, root, t.right, zp);
      PlugSteps(mem, sentinel, root, ty, steps, zp);
      AppendParent(steps, zp, sentinel);
      AppendParent(steps, yp, sentinel);
      TransplantChild(y, y.right, ty, Append(steps, zp), ty.right);
      PlugSteps(mem, sentinel, root, ty.right, steps, zp);
      Up(mem, sentinel, root, r, zp);
      PlugStep(ty.right, steps);
      TakeDetachedPlace(z, y, Node(t.color, t.left, z, r), path);
      Up(mem, sentinel, root, r, yp);
      PlugSteps(mem, sentinel, root, ty.right, steps, yp);
      if ty.right.Node? {
        View(mem, sentinel, root, ty.right, Append(steps, yp));
      }
    }

    /** Unlinks z; x is what now hangs in the place that lost a node of colour yColor. */
    method Unlink(z: RBNode, ghost t: Tree, ghost path: Path)
      returns (x: RBNode, yColor: Color, ghost tx: Tree, ghost px: Path)
      requires Focus(t, path) && Fits(t, path) && t.Node? && z == t.n
      modifies `root, `mem, mem.Keys`color, mem.Keys`parent, mem.Keys`left, mem.Keys`right
      ensures mem.Keys == old(mem.Keys)
      ensures Focus(tx, px) && x == Root(tx, sentinel) && x.parent == HoleParent(px, sentinel)
      ensures if yColor == Black then DeleteInv(tx, px) else Fits(tx, px)
      ensures IsWithout(InOrder(Plug(t, path)), Rank(t, path), z, InOrder(Plug(tx, px)))
    {
      RankAt(t, path);
      View(mem, sentinel, root, t, path);
      yColor := z.color;
      if z.left == sentinel {
        x := z.right;
        tx, px := t.right, path;
        SpliceInv(t, path, tx);
        SpliceInOrder(t, path, tx);
        TransplantChild(z, z.right, t, path, tx);
      } else if z.right == sentinel {
        x := z.left;
        tx, px := t.left, path;
        SpliceInv(t, path, tx);
        SpliceInOrder(t, path, tx);
        TransplantChild(z, z.left, t, path, tx);
      } else {
        ghost var ty, steps;
        x, yColor, ty, steps := ReplaceBySuccessor(z, t, path);
        tx, px := ty.right, Append(steps, Step(Right, t.color, ty.n, t.left, path));
        SuccessorInv(t, path, ty, steps);
        SuccessorInOrder(t, path, ty, steps);
      }
    }

    /** Unlinks z and rebalances. */
    method TakeOut(z: RBNode, ghost t: Tree, ghost path: Path) returns (ghost tree': Tree)
      requires Focus(t, path) && Fits(t, path) && t.Node? && z == t.n
      modifies `root, `mem, mem.Keys`color, mem.Keys`parent, mem.Keys`left, mem.Keys`right
      ensures mem.Keys == old(mem.Keys)
      ensures Focus(tree', Top) && RedBlack(tree')
      ensures IsWithout(InOrder(Plug(t, path)), Rank(t, path), z, InOrder(tree'))
    {
      var x, yColor;
      ghost var tx, px;
      x, yColor, tx, px := Unlink(z, t, path);
      if yColor == Black {
        tree' := RebalanceAfterDelete(x, tx, px);
      } else {
        PlugAt(mem, sentinel, root, tx, px);
        PlugFits(tx, px);
        tree' := Plug(tx, px);
      }
    }

    /** Takes node i, which is z, out of the tree. */
    method TakeOutAt(z: RBNode, ghost i: nat)
      requires Valid() && i < |Nodes()| && z == Nodes()[i]
      modifies `root, `mem, `tree, mem.Keys`color, mem.Keys`parent, mem.Keys`left, mem.Keys`right
      ensures mem.Keys == old(mem.Keys)
      ensures Focus(tree, Top) && RedBlack(tree)
      ensures IsWithout(old(Nodes()), i, z, Nodes())
    {
      ghost var t, path := FitPlace(i);
      tree := TakeOut(z, t, path);
    }

    lemma FitPlace(i: nat) returns (t: Tree, path: Path)
      requires Valid() && i < |Nodes()|
      ensures Focus(t, path) && Fits(t, path) && InOrder(Plug(t, path)) == Nodes()
      ensures t.Node? && t.n == Nodes()[i] != sentinel && i == Rank(t, path)
    {
      t, path := Place(i);
      PlugFits(t, path);
    }

    method RemoveNode(z: RBNode, ghost i: nat)
      requires Valid() && i < |Nodes()| && z == Nodes()[i]
      modifies `root, `mem, `tree, `size, mem.Keys`color, mem.Keys`parent, mem.Keys`left, mem.Keys`right
      ensures Valid() && mem.Keys == old(mem.Keys) - {z}
      ensures IsWithout(old(Nodes()), i, z, Nodes())
      ensures Nodes() == old(Nodes())[..i] + old(Nodes())[i + 1..]
    {
      ghost var ns := Nodes();
      NodeInMem(z);
      TakeOutAt(z, i);
      Free(z, ns, i);
    }

    method Free(z: RBNode, ghost ns: seq<RBNode>, ghost i: nat)
      requires Focus(tree, Top) && RedBlack(tree)
      requires IsWithout(ns, i, z, Nodes())
      requires TotalPreorder(cmp) && Sorted(cmp, ns) && size == |ns|
      requires z != sentinel && forall n | n in mem :: n == sentinel || n in ns
      requires forall n | n in ns :: n in vals && n.value == vals[n]
      modifies `mem, `size
      ensures Valid() && mem.Keys == old(mem.Keys) - {z}
    {
      SortedWithout(cmp, ns, i);
      OccInOrder(tree, z);
      DropAt(mem, sentinel, root, tree, Top, z);
      mem := mem - {z};
      size := size - 1;
    }

    /** What the table maps, in ascending key order. */
    ghost function Entries(): seq<Entry>
      requires Valued(vals, Nodes())
      reads this
    {
      EntriesOf(vals, Nodes())
    }

    /** The keys ascend strictly. */
    lemma EntriesAscend()
      requires Valid()
      ensures Ascending(cmp, Entries())
      ensures forall i, j | 0 <= i < j < |Entries()| :: cmp(Entries()[i].key, Entries()[j].key) < 0
    {
      forall i, j | 0 <= i < j < |Entries()|
        ensures Less(cmp, Entries()[i].key, Entries()[j].key)
      {
        assert Less(cmp, Nodes()[i].key, Nodes()[j].key);
      }
    }

    /** A search for key has come down to t. */
    ghost predicate Searching(key: Key, t: Tree, path: Path)
      reads this, mem.Keys
    {
      Focus(t, path) && Plug(t, path) == tree && Between(cmp, Before(path), key, After(path))
    }

    lemma Descend(key: Key, t: Tree, path: Path)
      requires Valid() && Searching(key, t, path) && t.Node?
      ensures cmp(key, t.n.key) < 0 ==> Searching(key, t.left, Step(Left, t.color, t.n, t.right, path))
      ensures cmp(key, t.n.key) > 0 ==> Searching(key, t.right, Step(Right, t.color, t.n, t.left, path))
    {
      if cmp(key, t.n.key) < 0 {
        Up(mem, sentinel, root, t.left, Step(Left, t.color, t.n, t.right, path));
        SearchLeft(cmp, key, t, path);
      } else if cmp(key, t.n.key) > 0 {
        Up(mem, sentinel, root, t.right, Step(Right, t.color, t.n, t.left, path));
        SearchRight(cmp, key, t, path);
      }
    }

    lemma SearchMissed(key: Key, path: Path)
      requires Valid() && Searching(key, Leaf, path)
      ensures Lookup(cmp, Entries(), key) == None
    {
      LeafInOrder(Red, sentinel, path);
      NotFound(cmp, key, Entries(), Before(path), After(path));
    }

    lemma SearchHit(key: Key, t: Tree, path: Path)
      requires Valid() && Searching(key, t, path) && t.Node?
      ensures t.n in Nodes()
    {
      PlugInOrder(t, path);
    }

    method GetTreeNodeByKey(key: Key) returns (node: RBNode?, ghost rounds: nat)
      requires Valid()
      ensures node == null ==> Lookup(cmp, Entries(), key) == None
      ensures node != null ==> node in Nodes() && cmp(key, node.key) == 0
      ensures rounds <= Height(tree)
    {
      if size == 0 {
        return null, 0;
      }
      rounds := 0;
      var n := root;
      var s := sentinel;
      ghost var t, path := tree, Top;
      while true
        invariant Searching(key, t, path) && t.Node? && n == t.n
        invariant rounds + Height(t) <= Height(tree)
        decreases t
      {
        View(mem, sentinel, root, t, path);
        Descend(key, t, path);
        var c := cmp(key, n.key);
        rounds := rounds + 1;
        if c < 0 {
          t, path, n := t.left, Step(Left, t.color, t.n, t.right, path), n.left;
        } else if c > 0 {
          t, path, n := t.right, Step(Right, t.color, t.n, t.left, path), n.right;
        } else {
          SearchHit(key, t, path);
          return n, rounds;
        }
        if n == s {
          break;
        }
      }
      SearchMissed(key, path);
      node := null;
    }

    method Get(key: Key) returns (st: Status, out: Option<Value>, ghost rounds: nat)
      requires Valid()
      ensures out == Lookup(cmp, Entries(), key)
      ensures st == if out.Some? then Ok else ErrKeyNotFound
      ensures Pow2((rounds + 1) / 2) <= size + 1
    {
      var node;
      node, rounds := GetTreeNodeByKey(key);
      RoundsBound(tree, rounds);
      if node == null {
        return ErrKeyNotFound, None, rounds;
      }
      Found(cmp, key, vals, Nodes(), node);
      return Ok, Some(node.value), rounds;
    }

    method ContainsKey(key: Key) returns (b: bool)
      requires Valid()
      ensures b <==> Lookup(cmp, Entries(), key) != None
    {
      var node, _ := GetTreeNodeByKey(key);
      if node != null {
        Found(cmp, key, vals, Nodes(), node);
        return true;
      }
      return false;
    }

    /** Links y to the new node n, on the side its key belongs to. */
    method LinkLeaf(n: RBNode, y: RBNode, ghost path: Path)
      requires Focus(Leaf, path) && y == HoleParent(path, sentinel) && n !in mem
      requires n.parent == y && n.left == n.right == sentinel
      requires path.Step? ==> (cmp(n.key, y.key) < 0 <==> path.side == Left)
      modifies `root, `mem, mem.Keys`left, mem.Keys`right, n`color
      ensures mem.Keys == old(mem.Keys) + {n}
      ensures Focus(Node(if path.Top? then Black else Red, Leaf, n, Leaf), path)
    {
      ghost var m := mem;
      if y == sentinel {
        assert path.Top?;
        root := n;
        n.color := Black;
        mem := m[n := Cell(Black, y, sentinel, sentinel)];
      } else {
        n.color := Red;
        LinkBelow(n, y, path);
      }
      InsertLeafAt(m, mem, sentinel, old(root), root, n.color, n, path);
    }

    method LinkBelow(n: RBNode, y: RBNode, ghost path: Path)
      requires Sync() && y in mem && n !in mem && path.Step?
      requires n.color == Red && n.parent == y && n.left == n.right == sentinel
      requires cmp(n.key, y.key) < 0 <==> path.side == Left
      modifies `mem, mem.Keys`left, mem.Keys`right
      ensures Sync() && mem == old(mem)[n := Cell(Red, y, sentinel, sentinel)][y := SetHole(path, old(mem)[y], n)]
    {
      ghost var m := mem;
      if cmp(n.key, y.key) < 0 {
        y.left := n;
      } else {
        y.right := n;
      }
      mem := m[n := Cell(Red, y, sentinel, sentinel)][y := SetHole(path, m[y], n)];
    }

    method Attach(n: RBNode, y: RBNode, ghost path: Path)
      requires RedBlack(tree) && Searching(n.key, Leaf, path) && y == HoleParent(path, sentinel) && n !in mem
      requires n.parent == y && n.left == n.right == sentinel
      modifies `root, `mem, `tree, mem.Keys`color, mem.Keys`parent, mem.Keys`left, mem.Keys`right, n`color, n`parent,
        n`left, n`right
      ensures Focus(tree, Top) && RedBlack(tree) && mem.Keys == old(mem.Keys) + {n}
      ensures Nodes() == Before(path) + [n] + After(path)
    {
      assert path.Step? ==> (path.side == Left && y in After(path)) || (path.side == Right && y in Before(path));
      LinkLeaf(n, y, path);
      ghost var t := Node(if path.Top? then Black else Red, Leaf, n, Leaf);
      LeafInOrder(t.color, n, path);
      if y == sentinel {
        tree := t;
      } else {
        PlugFits(Leaf, path);
        tree := RebalanceAfterInsert(n, t, path);
      }
    }

    /** A new node n, where the search for its key ended. */
    method AddNode(n: RBNode, y: RBNode, ghost path: Path)
      requires Valid() && Searching(n.key, Leaf, path) && y == HoleParent(path, sentinel)
      requires n !in mem && n !in Nodes()
      requires n.parent == y && n.left == n.right == sentinel && Before(path) + After(path) == Nodes()
      modifies this, mem.Keys`color, mem.Keys`parent, mem.Keys`left, mem.Keys`right, n`color, n`parent, n`left, n`right
      ensures Valid() && mem.Keys == old(mem.Keys) + {n}
      ensures Entries() == Put(cmp, old(Entries()), n.key, n.value)
    {
      Attach(n, y, path);
      Count(n, Before(path), After(path));
    }

    /** The new node n, linked between a and b, is counted. */
    method Count(n: RBNode, ghost a: seq<RBNode>, ghost b: seq<RBNode>)
      requires Focus(tree, Top) && RedBlack(tree) && Nodes() == a + [n] + b && n !in a + b
      requires TotalPreorder(cmp) && Sorted(cmp, a + b) && Between(cmp, a, n.key, b) && size == |a + b|
      requires forall k | k in mem :: k == sentinel || k == n || k in a + b
      requires forall k | k in a + b :: k in vals && k.value == vals[k]
      modifies `size, `vals
      ensures Valid()
      ensures Entries() == Put(cmp, EntriesOf(old(vals), a + b), n.key, n.value)
    {
      SortedInsert(cmp, a, n, b);
      PutNew(cmp, vals, a, n, b, n.value);
      size := size + 1;
      vals := vals[n := n.value];
    }

    method Overwrite(x: RBNode, key: Key, val: Value)
      requires Valid() && x in Nodes() && cmp(key, x.key) == 0
      modifies `vals, x`value
      ensures Valid()
      ensures Entries() == Put(cmp, old(Entries()), key, val)
    {
      PutExisting(cmp, vals, Nodes(), x, key, val);
      x.value := val;
      vals := vals[x := val];
    }

    lemma RootLeaf(t: Tree, path: Path)
      requires Focus(t, path)
      ensures Root(t, sentinel) == sentinel <==> t.Leaf?
    {
    }

    /** The descent of add: x is the node under key, or the sentinel with y the node to hang a new one below. */
    method FindPlace(key: Key) returns (x: RBNode, y: RBNode, ghost t: Tree, ghost path: Path)
      requires Valid()
      ensures Searching(key, t, path) && x == Root(t, sentinel) && y == HoleParent(path, sentinel)
      ensures if x == sentinel then t.Leaf? else t.Node? && cmp(key, x.key) == 0
    {
      y := sentinel;
      x := root;
      t, path := tree, Top;
      while x != sentinel
        invariant Searching(key, t, path) && x == Root(t, sentinel) && y == HoleParent(path, sentinel)
        decreases t
      {
        RootLeaf(t, path);
        View(mem, sentinel, root, t, path);
        Descend(key, t, path);
        var c := cmp(key, x.key);
        if c == 0 {
          return;
        }
        y := x;
        if c < 0 {
          t, path, x := t.left, Step(Left, t.color, t.n, t.right, path), x.left;
        } else {
          t, path, x := t.right, Step(Right, t.color, t.n, t.left, path), x.right;
        }
      }
      RootLeaf(t, path);
    }

    method Add(key: Key, val: Value, granted: bool) returns (st: Status)
      requires Valid()
      modifies this, mem.Keys
      ensures Valid() && fresh(mem.Keys - old(mem.Keys))
      ensures st == if Lookup(cmp, old(Entries()), key) == None && !granted then ErrAlloc else Ok
      ensures Entries() == if st == Ok then Put(cmp, old(Entries()), key, val) else old(Entries())
    {
      var x, y;
      ghost var t, path;
      x, y, t, path := FindPlace(key);
      if x != sentinel {
        SearchHit(key, t, path);
        Found(cmp, key, vals, Nodes(), x);
        Overwrite(x, key, val);
        return Ok;
      }
      SearchMissed(key, path);
      st := AddLeaf(key, val, y, path, granted);
    }

    /** A new node below y, at the one place where its key belongs. */
    method AddLeaf(key: Key, val: Value, y: RBNode, ghost path: Path, granted: bool) returns (st: Status)
      requires Valid() && Searching(key, Leaf, path) && y == HoleParent(path, sentinel)
      modifies this, mem.Keys
      ensures Valid() && fresh(mem.Keys - old(mem.Keys))
      ensures st == if granted then Ok else ErrAlloc
      ensures Entries() == if st == Ok then Put(cmp, old(Entries()), key, val) else old(Entries())
    {
      var ok := MemAlloc(NODE_BYTES, granted);
      if !ok {
        return ErrAlloc;
      }
      ghost var n := AddNew(key, val, y, path);
      return Ok;
    }

    method AddNew(key: Key, val: Value, y: RBNode, ghost path: Path) returns (ghost n: RBNode)
      requires Valid() && Searching(key, Leaf, path) && y == HoleParent(path, sentinel)
      modifies this, mem.Keys
      ensures Valid() && fresh(n) && mem.Keys == old(mem.Keys) + {n}
      ensures Entries() == Put(cmp, old(Entries()), key, val)
    {
      LeafInOrder(Red, sentinel, path);
      var leaf := NewLeaf(key, val, y);
      AddNode(leaf, y, path);
      n := leaf;
    }

    method NewLeaf(key: Key, val: Value, y: RBNode) returns (n: RBNode)
      requires Valid()
      ensures Valid() && fresh(n) && n !in mem && n !in Nodes()
      ensures n.key == key && n.value == val && n.parent == y && n.left == n.right == sentinel
    {
      n := new RBNode.Below(key, val, y, sentinel);
    }

    method Remove(key: Key) returns (st: Status, out: Option<Value>)
      requires Valid()
      modifies this, mem.Keys
      ensures Valid() && mem.Keys <= old(mem.Keys)
      ensures Entries() == Without(cmp, old(Entries()), key)
      ensures out == Lookup(cmp, old(Entries()), key)
      ensures st == if out.Some? then Ok else ErrKeyNotFound
    {
      var node, _ := GetTreeNodeByKey(key);
      if node == null {
        WithoutNone(cmp, Entries(), key);
        return ErrKeyNotFound, None;
      }
      Found(cmp, key, vals, Nodes(), node);
      out := Some(node.value);
      RemoveEntry(node, key);
      st := Ok;
    }

    method RemoveEntry(node: RBNode, ghost key: Key)
      requires Valid() && node in Nodes() && cmp(key, node.key) == 0
      modifies `root, `mem, `tree, `size, mem.Keys`color, mem.Keys`parent, mem.Keys`left, mem.Keys`right
      ensures Valid() && mem.Keys <= old(mem.Keys)
      ensures Entries() == Without(cmp, old(Entries()), key)
    {
      ghost var ns := Nodes();
      ghost var i :| 0 <= i < |ns| && ns[i] == node;
      RemoveNode(node, i);
      WithoutNode(cmp, vals, ns, i, key);
    }

    method TreeMax(n0: RBNode, ghost t: Tree, ghost path: Path) returns (n: RBNode, ghost ty: Tree, ghost steps: Path)
      requires Focus(t, path) && t.Node? && n0 == t.n
      ensures ty.Node? && ty.right.Leaf? && n == ty.n && Plug(ty, steps) == t && After(steps) == []
      ensures Focus(ty, Append(steps, path))
      ensures InOrder(t) == InOrder(Plug(ty.left, steps)) + [n]
    {
      n, ty, steps := n0, t, Top;
      while n.right != sentinel
        invariant Focus(ty, Append(steps, path)) && ty.Node? && n == ty.n
        invariant Plug(ty, steps) == t && After(steps) == []
        decreases ty
      {
        View(mem, sentinel, root, ty, Append(steps, path));
        ty, steps := ty.right, Step(Right, ty.color, ty.n, ty.left, steps);
        Up(mem, sentinel, root, ty, Append(steps, path));
        n := n.right;
      }
      View(mem, sentinel, root, ty, Append(steps, path));
      MaxInOrder(ty, steps);
    }

    lemma NodeInMem(n: RBNode)
      requires Valid() && n in Nodes()
      ensures n in mem && n != sentinel
    {
      OccInOrder(tree, n);
      OccInMem(mem, sentinel, tree, sentinel, n);
    }

    /** Where node i of the table stands. */
    lemma Place(i: nat) returns (t: Tree, path: Path)
      requires Valid() && i < |Nodes()|
      ensures Focus(t, path) && Plug(t, path) == tree && t.Node? && t.n == Nodes()[i]
      ensures i == Rank(t, path)
      ensures Nodes()[..i] == Before(path) + InOrder(t.left) && Nodes()[i + 1..] == InOrder(t.right) + After(path)
    {
      OccInOrder(tree, Nodes()[i]);
      t, path := Locate(tree, Top, Nodes()[i]);
      PlugAt(mem, sentinel, root, t, path);
      PlugInOrder(t, path);
      SplitAt(Nodes(), Before(path), InOrder(t.left), t.n, InOrder(t.right), After(path));
      SortedDistinct(cmp, Nodes(), i, |Before(path)| + |InOrder(t.left)|);
    }

    /** The node after x, which is node i; the sentinel if x is the last. */
    method GetSuccessorNode(x0: RBNode, ghost i: nat) returns (y: RBNode)
      requires Valid() && i < |Nodes()| && x0 == Nodes()[i]
      ensures y == First(Nodes()[i + 1..], sentinel)
    {
      ghost var t, path := Place(i);
      View(mem, sentinel, root, t, path);
      var x := x0;
      if x.right != sentinel {
        ghost var p := Step(Right, t.color, t.n, t.left, path);
        Up(mem, sentinel, root, t.right, p);
        ghost var ty, steps;
        y, ty, steps := TreeMin(x.right, t.right, p);
        return;
      }
      ghost var rest := After(path);
      y := x.parent;
      while y != sentinel && x == y.right
        invariant Focus(t, path) && t.Node? && x == t.n && y == HoleParent(path, sentinel)
        invariant After(path) == rest
        decreases path
      {
        View(mem, sentinel, root, t, path);
        ViewUp(mem, sentinel, root, t, path);
        Up(mem, sentinel, root, t, path);
        t, path := Join(path.side, path.color, t, path.n, path.sibling), path.up;
        View(mem, sentinel, root, t, path);
        x := y;
        y := y.parent;
      }
      View(mem, sentinel, root, t, path);
      if path.Step? {
        ViewUp(mem, sentinel, root, t, path);
      }
    }

    /** The key field of a node as the code reads it. That of the sentinel is NULL: its memory was cleared, and
        nothing writes to the field. */
    function KeyField(n: RBNode): Option<Key> {
      if n == sentinel then None else Some(n.key)
    }

    /** The key after key, whose node is node i. For the greatest key of the table the call does not fail:
        it gives out NULL, the key field of the sentinel. */
    method GetGreaterThan(key: Key) returns (st: Status, out: Option<Key>, ghost i: nat)
      requires Valid()
      ensures st == if Lookup(cmp, Entries(), key).Some? then Ok else ErrKeyNotFound
      ensures st == Ok ==> i < |Nodes()| && cmp(key, Nodes()[i].key) == 0
      ensures st == Ok && i + 1 < |Nodes()| ==>
        && out == Some(Nodes()[i + 1].key) && cmp(key, Nodes()[i + 1].key) < 0
        && forall j | i + 1 < j < |Nodes()| :: cmp(Nodes()[i + 1].key, Nodes()[j].key) < 0
      ensures st == Ok && i + 1 == |Nodes()| ==> out == None
      ensures st != Ok ==> out == None
    {
      var n, _ := GetTreeNodeByKey(key);
      i := 0;
      if n == null {
        return ErrKeyNotFound, None, i;
      }
      Found(cmp, key, vals, Nodes(), n);
      i :| i < |Nodes()| && Nodes()[i] == n;
      var s := GetSuccessorNode(n, i);
      NextGreater(cmp, key, Nodes(), i);
      if i + 1 < |Nodes()| {
        NodeInMem(Nodes()[i + 1]);
      }
      return Ok, KeyField(s), i;
    }

    /** The debugging check of the subtree t. It reports the rule that is broken first, in the order in which it looks:
        a node and its own children, the node and its parent, the left subtree, the right one, their black heights.
        It never compares a node with anything further down. */
    method Test(node: RBNode, ghost t: Tree, ghost path: Path) returns (err: RbError, nb: nat)
      requires Focus(t, path) && node == Root(t, sentinel)
      ensures err == FirstError(Violations(cmp, t, HangsRed(path)))
      ensures err == RbErrorOk <==>
        ChildrenOrdered(cmp, t) && RedOk(t) && Balanced(t) && (IsBlack(t) || !HangsRed(path))
      ensures err == RbErrorOk ==> nb == BlackHeight(t) + 1
      decreases t
    {
      NoError(cmp, t, HangsRed(path));
      RootLeaf(t, path);
      if node == sentinel {
        return RbErrorOk, 1;
      }
      ghost var lp, rp := Step(Left, t.color, t.n, t.right, path), Step(Right, t.color, t.n, t.left, path);
      FirstOf(cmp, t, HangsRed(path));
      View(mem, sentinel, root, t, path);
      ParentColor(t, path);
      Up(mem, sentinel, root, t.left, lp);
      Up(mem, sentinel, root, t.right, rp);
      if node.left != sentinel {
        var c := cmp(node.left.key, node.key);
        if c >= 0 {
          return RbErrorTreeStructure, 0;
        }
      }
      if node.right != sentinel {
        var c := cmp(node.right.key, node.key);
        if c <= 0 {
          return RbErrorTreeStructure, 0;
        }
      }
      if node.color == Red && node.parent.color == Red {
        return RbErrorConsecutiveRed, 0;
      }
      var leftErr, nbLeft := Test(node.left, t.left, lp);
      if leftErr != RbErrorOk {
        return leftErr, 0;
      }
      var rightErr, nbRight := Test(node.right, t.right, rp);
      if rightErr != RbErrorOk {
        return rightErr, 0;
      }
      if nbLeft != nbRight {
        return RbErrorBlackHeight, 0;
      }
      return RbErrorOk, if node.color == Black then nbLeft + 1 else nbLeft;
    }

    lemma ParentColor(t: Tree, path: Path)
      requires Focus(t, path) && t.Node?
      ensures HoleParent(path, sentinel) in mem
      ensures mem[HoleParent(path, sentinel)].color == if path.Top? then Black else path.color
    {
    }

    /** The check passes every table. */
    method AssertRbRules() returns (err: RbError)
      requires Valid()
      ensures err == RbErrorOk
    {
      SortedChildren(cmp, tree);
      var nb;
      err, nb := Test(root, tree, Top);
    }

    /** The walks of tree_min and tree_max over the whole table can start exactly if the table is not empty:
        otherwise the root is the sentinel, and their first step leads to NULL. */
    lemma EmptyRoot()
      requires Valid()
      ensures size == 0 <==> root == sentinel
      ensures size == 0 <==> root.left == null
      ensures size == 0 <==> root.right == null
      ensures size == 0 <==> tree.Leaf?
    {
      RootLeaf(tree, Top);
      if tree.Node? {
        View(mem, sentinel, root, tree, Top);
      }
    }

    /** The end nodes of a table that is not empty. */
    method GetFirstNode() returns (node: RBNode)
      requires Valid() && size > 0
      ensures node == Nodes()[0]
    {
      EmptyRoot();
      View(mem, sentinel, root, tree, Top);
      ghost var ty, steps;
      node, ty, steps := TreeMin(root, tree, Top);
    }

    method GetLastNode() returns (node: RBNode)
      requires Valid() && size > 0
      ensures node == Nodes()[size - 1]
    {
      EmptyRoot();
      View(mem, sentinel, root, tree, Top);
      ghost var ty, steps;
      node, ty, steps := TreeMax(root, tree, Top);
    }

    /** Removes node i and gives its value. */
    method RemoveAt(node: RBNode, ghost i: nat) returns (value: Value)
      requires Valid() && i < |Nodes()| && node == Nodes()[i]
      modifies `root, `mem, `tree, `size, mem.Keys`color, mem.Keys`parent, mem.Keys`left, mem.Keys`right
      ensures Valid() && mem.Keys <= old(mem.Keys)
      ensures value == old(Entries())[i].value && Entries() == old(Entries())[..i] + old(Entries())[i + 1..]
    {
      EntriesDropped(vals, Nodes(), i);
      value := node.value;
      RemoveNode(node, i);
    }

    /** Removes the least key. */
    method RemoveFirst() returns (st: Status, out: Option<Value>)
      requires Valid()
      modifies this, mem.Keys
      ensures Valid() && mem.Keys <= old(mem.Keys)
      ensures old(Entries()) == [] ==> st == ErrKeyNotFound && out == None && Entries() == []
      ensures old(Entries()) != [] ==>
        st == Ok && out == Some(old(Entries())[0].value) && Entries() == old(Entries())[1..]
    {
      if size == 0 {
        return ErrKeyNotFound, None;
      }
      var node := GetFirstNode();
      var value := RemoveAt(node, 0);
      return Ok, Some(value);
    }

    /** Removes the greatest key. There is no test for an empty table. */
    method RemoveLast() returns (st: Status, out: Option<Value>)
      requires Valid()
      modifies this, mem.Keys
      ensures Valid() && mem.Keys <= old(mem.Keys)
      ensures st == Fault <==> old(Entries()) == []
      ensures st == Fault ==> out == None && Entries() == []
      ensures st != Fault ==>
        && st == Ok && out == Some(old(Entries())[|old(Entries())| - 1].value)
        && Entries() == old(Entries())[..|old(Entries())| - 1]
    {
      EmptyRoot();
      if root.right == null {
        return Fault, None;
      }
      var node := GetLastNode();
      var value := RemoveAt(node, size - 1);
      return Ok, Some(value);
    }
  }

  // ---- What the debugging check reports ----

  datatype RbError = RbErrorConsecutiveRed | RbErrorBlackHeight | RbErrorTreeStructure | RbErrorOk

  /** The node above the hole of path is red. */
  predicate HangsRed(path: Path) {
    path.Step? && path.color == Red
  }

  function When(b: bool, e: RbError): seq<RbError> {
    if b then [e] else []
  }

  /** t and its own children compare wrongly. */
  predicate Misordered(cmp: Comparator, t: Tree)
    requires t.Node?
  {
    (t.left.Node? && cmp(t.left.n.key, t.n.key) >= 0) || (t.right.Node? && cmp(t.right.n.key, t.n.key) <= 0)
  }

  /** Every broken rule of t, in the order in which the check meets them. */
  function Violations(cmp: Comparator, t: Tree, parentRed: bool): seq<RbError> {
    if t.Leaf? then []
    else
      When(Misordered(cmp, t), RbErrorTreeStructure) + When(t.color == Red && parentRed, RbErrorConsecutiveRed)
      + Violations(cmp, t.left, t.color == Red) + Violations(cmp, t.right, t.color == Red)
      + When(BlackHeight(t.left) != BlackHeight(t.right), RbErrorBlackHeight)
  }

  function FirstError(errors: seq<RbError>): RbError {
    if errors == [] then RbErrorOk else errors[0]
  }

  /** Each of the three codes is on the list exactly if its rule is broken somewhere in t. */
  lemma {:induction false} ViolationsMean(cmp: Comparator, t: Tree, parentRed: bool)
    ensures RbErrorTreeStructure in Violations(cmp, t, parentRed) <==> !ChildrenOrdered(cmp, t)
    ensures RbErrorConsecutiveRed in Violations(cmp, t, parentRed) <==> !(RedOk(t) && (IsBlack(t) || !parentRed))
    ensures RbErrorBlackHeight in Violations(cmp, t, parentRed) <==> !Balanced(t)
    ensures RbErrorOk !in Violations(cmp, t, parentRed)
  {
    if t.Node? {
      var red := t.color == Red;
      ViolationsMean(cmp, t.left, red);
      ViolationsMean(cmp, t.right, red);
      var a, b, e := When(Misordered(cmp, t), RbErrorTreeStructure), When(red && parentRed, RbErrorConsecutiveRed),
                     When(BlackHeight(t.left) != BlackHeight(t.right), RbErrorBlackHeight);
      var c, d := Violations(cmp, t.left, red), Violations(cmp, t.right, red);
      Joined(a, b, c, d, e, RbErrorTreeStructure);
      Joined(a, b, c, d, e, RbErrorConsecutiveRed);
      Joined(a, b, c, d, e, RbErrorBlackHeight);
      Joined(a, b, c, d, e, RbErrorOk);
    }
  }

  /** The check finds no error exactly if no rule is broken. */
  lemma NoError(cmp: Comparator, t: Tree, parentRed: bool)
    ensures FirstError(Violations(cmp, t, parentRed)) == RbErrorOk <==>
            ChildrenOrdered(cmp, t) && RedOk(t) && Balanced(t) && (IsBlack(t) || !parentRed)
  {
    ViolationsMean(cmp, t, parentRed);
    NoneListed(Violations(cmp, t, parentRed));
  }

  /** The first error of a tree, from the first errors of its subtrees. */
  lemma FirstOf(cmp: Comparator, t: Tree, parentRed: bool)
    requires t.Node?
    ensures var red := t.color == Red;
            var l, r := FirstError(Violations(cmp, t.left, red)), FirstError(Violations(cmp, t.right, red));
            FirstError(Violations(cmp, t, parentRed)) ==
            if Misordered(cmp, t) then RbErrorTreeStructure
            else if red && parentRed then RbErrorConsecutiveRed
            else if l != RbErrorOk then l
            else if r != RbErrorOk then r
            else if BlackHeight(t.left) != BlackHeight(t.right) then RbErrorBlackHeight
            else RbErrorOk
  {
    var red := t.color == Red;
    ViolationsMean(cmp, t.left, red);
    ViolationsMean(cmp, t.right, red);
    NoneListed(Violations(cmp, t.left, red));
    NoneListed(Violations(cmp, t.right, red));
  }

  lemma Joined(a: seq<RbError>, b: seq<RbError>, c: seq<RbError>, d: seq<RbError>, e: seq<RbError>, x: RbError)
    ensures x in a + b + c + d + e <==> x in a || x in b || x in c || x in d || x in e
  {
  }

  lemma NoneListed(errors: seq<RbError>)
    ensures errors == [] <==>
            RbErrorTreeStructure !in errors && RbErrorConsecutiveRed !in errors && RbErrorBlackHeight !in errors
            && RbErrorOk !in errors
  {
    if errors != [] {
      var e := errors[0];
      assert e in errors;
      match e
      case RbErrorTreeStructure =>
      case RbErrorConsecutiveRed =>
      case RbErrorBlackHeight =>
      case RbErrorOk =>
    }
  }

  /** The elements of s whose index keep accepts. */
  function Kept<T>(s: seq<T>, keep: nat -> bool): seq<T> {
    if s == [] then []
    else Kept(s[..|s| - 1], keep) + (if keep(|s| - 1) then [s[|s| - 1]] else [])
  }

  class TreeTableIter {
    const table: TreeTable
    var current: RBNode?
    var next: RBNode

    /** How many of the table's nodes lie before next. */
    ghost var idx: nat

    ghost predicate Valid()
      reads this, table, table.mem.Keys, table.Nodes()
    {
      && table.Valid()
      && idx <= |table.Nodes()|
      && next == First(table.Nodes()[idx..], table.sentinel)
      && (current == null || current == table.sentinel || (idx > 0 && current == table.Nodes()[idx - 1]))
    }

    /** treetable_iter_init, which needs a least key to start from. */
    static method Init(table: TreeTable) returns (st: Status, it: TreeTableIter?)
      requires table.Valid()
      ensures st == if table.Entries() == [] then Fault else Ok
      ensures st == Fault ==> it == null
      ensures st == Ok ==>
        it != null && fresh(it) && it.table == table && it.Valid() && it.idx == 0 && it.current == table.sentinel
    {
      table.EmptyRoot();
      if table.root.left == null {
        return Fault, null;
      }
      it := new TreeTableIter(table);
      st := Ok;
    }

    constructor (table: TreeTable)
      requires table.Valid() && table.size > 0
      ensures this.table == table && Valid() && idx == 0 && current == table.sentinel
    {
      this.table := table;
      current := table.sentinel;
      var n := table.GetFirstNode();
      next := n;
      idx := 0;
    }

    method Next() returns (st: Status, entry: Option<Entry>)
      requires Valid()
      modifies this
      ensures Valid()
      ensures if old(idx) < |table.Nodes()|
              then
                && st == Ok && entry == Some(table.Entries()[old(idx)]) && idx == old(idx) + 1
                && current == table.Nodes()[old(idx)]
              else st == IterEnd && entry == None && idx == old(idx) && current == old(current)
    {
      if idx < |table.Nodes()| {
        table.NodeInMem(table.Nodes()[idx]);
      }
      if next == table.sentinel {
        return IterEnd, None;
      }
      entry := Some(Entry(next.key, next.value));
      current := next;
      next := table.GetSuccessorNode(next, idx);
      idx := idx + 1;
      st := Ok;
    }

    /** Removes the entry that Next returned last. Before the first Next that is the sentinel, whose children
        are NULL. */
    method Remove() returns (st: Status, out: Option<Value>)
      requires Valid()
      modifies this, table, table.mem.Keys
      ensures Valid() && table.mem.Keys <= old(table.mem.Keys)
      ensures st == (if old(current) == null then ErrKeyNotFound
                     else if old(current) == table.sentinel then Fault
                     else Ok)
      ensures st != Ok ==>
        out == None && idx == old(idx) && current == old(current) && table.Nodes() == old(table.Nodes())
      ensures st == Ok ==>
        && out == Some(old(table.Entries()[idx - 1].value)) && current == null
        && idx == old(idx) - 1 && table.vals == old(table.vals)
        && table.Nodes() == old(table.Nodes())[..idx] + old(table.Nodes())[idx + 1..]
    {
      if current == null {
        return ErrKeyNotFound, None;
      }
      if current == table.sentinel {
        return Fault, None;
      }
      out := Some(current.value);
      RemoveCurrent();
      StepBack();
      st := Ok;
    }

    /** There is no current entry any more. */
    method StepBack()
      requires table.Valid() && idx > 0 && idx <= |table.Nodes()| + 1
        && next == First(table.Nodes()[idx - 1..], table.sentinel)
      modifies `current, `idx
      ensures Valid() && current == null && idx == old(idx) - 1
    {
      current := null;
      idx := idx - 1;
    }

    method RemoveCurrent()
      requires Valid() && current != null && current != table.sentinel
      modifies table, table.mem.Keys
      ensures table.Valid() && table.mem.Keys <= old(table.mem.Keys) && table.vals == old(table.vals)
      ensures table.Nodes() == Dropped(old(table.Nodes()), idx - 1)
      ensures next == First(table.Nodes()[idx - 1..], table.sentinel)
    {
      DroppedTail(table.Nodes(), idx - 1);
      table.RemoveNode(current, idx - 1);
    }
  }

  lemma DroppedTail(ns: seq<RBNode>, i: nat)
    requires i < |ns|
    ensures Dropped(ns, i)[i..] == ns[i + 1..]
  {
  }

  lemma KeptNext<T>(s: seq<T>, keep: nat -> bool, k: nat)
    requires k < |s|
    ensures Kept(s[..k + 1], keep) == Kept(s[..k], keep) + (if keep(k) then [s[k]] else [])
  {
    assert s[..k + 1][..k] == s[..k];
  }

  lemma {:induction false} KeptEntries(vals: Values, ns: seq<RBNode>, keep: nat -> bool)
    requires Valued(vals, ns)
    ensures Valued(vals, Kept(ns, keep))
    ensures EntriesOf(vals, Kept(ns, keep)) == Kept(EntriesOf(vals, ns), keep)
  {
    if ns != [] {
      var r := ns[..|ns| - 1];
      KeptEntries(vals, r, keep);
      assert EntriesOf(vals, ns)[..|ns| - 1] == EntriesOf(vals, r);
    }
  }

  /** One round of a sweep: node k stays or goes. */
  lemma SweepStep(s: seq<RBNode>, keep: nat -> bool, k: nat, nodes: seq<RBNode>)
    requires k < |s| && nodes == Kept(s[..k], keep) + s[k..]
    ensures var i := |Kept(s[..k], keep)|;
            && i < |nodes| && nodes[i] == s[k]
            && (if keep(k) then nodes else Dropped(nodes, i)) == Kept(s[..k + 1], keep) + s[k + 1..]
            && |Kept(s[..k + 1], keep)| == i + (if keep(k) then 1 else 0)
  {
    var a := Kept(s[..k], keep);
    KeptNext(s, keep, k);
    DroppedAfter(a, s[k..]);
    assert s[k..] == [s[k]] + s[k + 1..];
    assert a + [s[k]] + s[k + 1..] == a + s[k..];
  }

  lemma DroppedAfter(a: seq<RBNode>, b: seq<RBNode>)
    requires b != []
    ensures (a + b)[|a|] == b[0] && Dropped(a + b, |a|) == a + b[1..]
  {
  }

  /** Returns the next entry, and removes it unless it is to stay. */
  method Round(it: TreeTableIter, stay: bool) returns (st: Status, entry: Option<Entry>)
    requires it.Valid()
    modifies it, it.table, it.table.mem.Keys
    ensures it.Valid() && it.table.mem.Keys <= old(it.table.mem.Keys) && it.table.vals == old(it.table.vals)
    ensures old(it.idx == |it.table.Nodes()|) ==>
      st == IterEnd && it.table.Nodes() == old(it.table.Nodes()) && it.idx == old(it.idx)
    ensures old(it.idx < |it.table.Nodes()|) ==>
      && st == Ok && entry == Some(old(it.table.Entries()[it.idx]))
      && it.table.Nodes() == (if stay then old(it.table.Nodes())
                              else Dropped(old(it.table.Nodes()), old(it.idx)))
      && it.idx == old(it.idx) + (if stay then 1 else 0)
  {
    st, entry := it.Next();
    if st == Ok && !stay {
      it.table.NodeInMem(it.current);
      var _, _ := it.Remove();
    }
  }

  lemma TakeNext<T>(s: seq<T>, k: nat)
    requires k < |s|
    ensures s[..k + 1] == s[..k] + [s[k]]
  {
  }

  /** it has swept the first k of the nodes ns. */
  ghost predicate Swept(it: TreeTableIter, ns: seq<RBNode>, keep: nat -> bool, k: nat)
    requires k <= |ns|
    reads it, it.table, it.table.mem.Keys, it.table.Nodes()
  {
    && it.Valid()
    && it.idx == |Kept(ns[..k], keep)|
    && it.table.Nodes() == Kept(ns[..k], keep) + ns[k..]
  }

  method SweepRound(it: TreeTableIter, keep: nat -> bool, k: nat, ghost ns: seq<RBNode>)
    returns (st: Status, entry: Option<Entry>)
    requires k <= |ns| && Swept(it, ns, keep, k)
    modifies it, it.table, it.table.mem.Keys
    ensures it.table.mem.Keys <= old(it.table.mem.Keys) && it.table.vals == old(it.table.vals)
    ensures if k == |ns| then st == IterEnd && Swept(it, ns, keep, k)
            else
              && st == Ok && ns[k] in it.table.vals && entry == Some(Entry(ns[k].key, it.table.vals[ns[k]]))
              && Swept(it, ns, keep, k + 1)
  {
    if k < |ns| {
      SweepStep(ns, keep, k, it.table.Nodes());
    }
    st, entry := Round(it, keep(k));
  }

  /** One round, which adds its entry to those seen. */
  method SweepOn(it: TreeTableIter, keep: nat -> bool, seen: seq<Entry>, ghost ns: seq<RBNode>)
    returns (st: Status, seen': seq<Entry>)
    requires |seen| <= |ns| && Swept(it, ns, keep, |seen|) && Valued(it.table.vals, ns)
      && seen == EntriesOf(it.table.vals, ns)[..|seen|]
    modifies it, it.table, it.table.mem.Keys
    ensures it.table.mem.Keys <= old(it.table.mem.Keys) && it.table.vals == old(it.table.vals)
    ensures |seen'| <= |ns| && Swept(it, ns, keep, |seen'|) && seen' == EntriesOf(it.table.vals, ns)[..|seen'|]
    ensures if |seen| == |ns| then st == IterEnd && seen' == seen else st == Ok && |seen'| == |seen| + 1
  {
    var entry;
    st, entry := SweepRound(it, keep, |seen|, ns);
    seen' := seen;
    if st != IterEnd {
      TakeNext(EntriesOf(it.table.vals, ns), |seen|);
      seen' := seen + [entry.value];
    }
  }

  lemma SweepStarts(it: TreeTableIter, keep: nat -> bool)
    requires it.Valid() && it.idx == 0
    ensures Swept(it, it.table.Nodes(), keep, 0)
  {
  }

  lemma SweepEnds(it: TreeTableIter, ns: seq<RBNode>, keep: nat -> bool)
    requires Swept(it, ns, keep, |ns|) && Valued(it.table.vals, ns)
    ensures it.table.Valid() && it.table.Entries() == Kept(EntriesOf(it.table.vals, ns), keep)
  {
    assert ns[..|ns|] == ns;
    KeptEntries(it.table.vals, ns, keep);
  }

  /** What is kept are the elements whose index keep accepts. */
  lemma {:induction false} KeptIs<T>(s: seq<T>, keep: nat -> bool, x: T)
    ensures x in Kept(s, keep) <==> exists j :: 0 <= j < |s| && keep(j) && s[j] == x
  {
    if s != [] {
      var r := s[..|s| - 1];
      KeptIs(r, keep, x);
      if exists j :: 0 <= j < |s| && keep(j) && s[j] == x {
        var j :| 0 <= j < |s| && keep(j) && s[j] == x;
        assert j < |r| ==> r[j] == x;
      }
    }
  }

  /** Among the kept entries exactly the keys of those are found. */
  lemma KeptLookup(cmp: Comparator, es: seq<Entry>, keep: nat -> bool, i: nat)
    requires TotalPreorder(cmp) && Ascending(cmp, es) && Ascending(cmp, Kept(es, keep)) && i < |es|
    ensures Lookup(cmp, Kept(es, keep), es[i].key) == if keep(i) then Some(es[i].value) else None
  {
    var k := Kept(es, keep);
    if keep(i) {
      Flip(cmp, es[i].key, es[i].key);
      KeptIs(es, keep, es[i]);
      var p :| 0 <= p < |k| && k[p] == es[i];
      LookupAt(cmp, k, es[i].key, p);
    } else {
      forall e | e in k
        ensures cmp(es[i].key, e.key) != 0
      {
        KeptOther(cmp, es, keep, i, e);
      }
      LookupNone(cmp, k, es[i].key);
    }
  }

  /** A kept entry has another key than an entry that is not kept. */
  lemma KeptOther(cmp: Comparator, es: seq<Entry>, keep: nat -> bool, i: nat, e: Entry)
    requires TotalPreorder(cmp) && Ascending(cmp, es) && i < |es| && !keep(i) && e in Kept(es, keep)
    ensures cmp(es[i].key, e.key) != 0
  {
    KeptIs(es, keep, e);
    var j :| 0 <= j < |es| && keep(j) && es[j] == e;
    Flip(cmp, es[i].key, e.key);
    if i < j {
      assert Less(cmp, es[i].key, es[j].key);
    } else {
      assert Less(cmp, es[j].key, es[i].key);
    }
  }

  /** A whole iteration that removes the entries keep rejects, each right after it is returned:
      every entry is returned once, in ascending order, and the kept ones stay. */
  method Sweep(table: TreeTable, keep: nat -> bool) returns (seen: seq<Entry>)
    requires table.Valid()
    modifies table, table.mem.Keys
    ensures table.Valid() && table.mem.Keys <= old(table.mem.Keys)
    ensures seen == old(table.Entries())
    ensures table.Entries() == Kept(seen, keep) && forall e | e in table.Entries() :: e in seen
    ensures forall i | 0 <= i < |seen| ::
              Lookup(table.cmp, table.Entries(), seen[i].key) == if keep(i) then Some(seen[i].value) else None
  {
    if table.size == 0 {
      return [];
    }
    table.EntriesAscend();
    var it := SweepStart(table, keep);
    seen := SweepFrom(it, keep);
    table.EntriesAscend();
    SweptEntries(table, seen, keep);
  }

  lemma SweptEntries(table: TreeTable, seen: seq<Entry>, keep: nat -> bool)
    requires table.Valid() && table.Entries() == Kept(seen, keep) && Ascending(table.cmp, seen)
    ensures forall e | e in table.Entries() :: e in seen
    ensures forall i | 0 <= i < |seen| ::
              Lookup(table.cmp, table.Entries(), seen[i].key) == if keep(i) then Some(seen[i].value) else None
  {
    table.EntriesAscend();
    forall e | e in table.Entries()
      ensures e in seen
    {
      KeptIs(seen, keep, e);
    }
    forall i | 0 <= i < |seen|
      ensures Lookup(table.cmp, table.Entries(), seen[i].key) == if keep(i) then Some(seen[i].value) else None
    {
      KeptLookup(table.cmp, seen, keep, i);
    }
  }

  method SweepStart(table: TreeTable, keep: nat -> bool) returns (it: TreeTableIter)
    requires table.Valid() && table.size > 0
    ensures fresh(it) && it.table == table && Swept(it, table.Nodes(), keep, 0) && table.Valid()
  {
    it := new TreeTableIter(table);
    SweepStarts(it, keep);
  }

  method SweepFrom(it: TreeTableIter, keep: nat -> bool) returns (seen: seq<Entry>)
    requires it.table.Valid() && Swept(it, it.table.Nodes(), keep, 0)
    modifies it, it.table, it.table.mem.Keys
    ensures it.table.Valid() && it.table.mem.Keys <= old(it.table.mem.Keys)
    ensures seen == old(it.table.Entries())
    ensures it.table.Entries() == Kept(seen, keep)
  {
    var table := it.table;
    ghost var ns, vals := table.Nodes(), table.vals;
    ghost var es := EntriesOf(vals, ns);
    seen := [];
    while true
      invariant |seen| <= |ns| && seen == es[..|seen|]
      invariant table.vals == vals && table.mem.Keys <= old(table.mem.Keys)
      invariant Swept(it, ns, keep, |seen|)
      decreases |ns| - |seen|
    {
      var st, next := SweepOn(it, keep, seen, ns);
      seen := next;
      if st == IterEnd {
        break;
      }
    }
    SweepEnds(it, ns, keep);
  }
}
