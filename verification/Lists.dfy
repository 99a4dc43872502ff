/** The doubly linked list of src/collect/list.c. */
module Lists {
  import opened Common
  import opened ListNodes
  import ListSort
  import ListMerge

  /** The allocator functions of a list: which nodes are allocated. */
  class Pool {
    ghost var live: set<Node>

    constructor ()
      ensures live == {}
    {
      live := {};
    }

    /** A new node for data, or NULL. */
    method MemCalloc(data: Element, granted: bool) returns (n: Node?)
      modifies this
      ensures n != null <==> granted
      ensures n == null ==> live == old(live)
      ensures n != null ==> fresh(n) && n.data == data && n.next == null && n.prev == null && live == old(live) + {n}
    {
      if !granted {
        return null;
      }
      n := new Node(data);
      live := live + {n};
    }

    method MemFree(n: Node)
      requires n in live
      modifies this
      ensures live == old(live) - {n}
    {
      live := live - {n};
    }
  }

  /** The nodes of b between the first i nodes of a and the others. */
  function Spliced(a: seq<Node>, b: seq<Node>, i: nat): seq<Node>
    requires i <= |a|
  {
    a[..i] + b + a[i..]
  }

  lemma SplicedAt(a: seq<Node>, b: seq<Node>, i: nat, k: int)
    requires i <= |a|
    ensures At(Spliced(a, b, i), k) == if k < i then At(a, k) else if k < i + |b| then At(b, k - i) else At(a, k - |b|)
  {
  }

  ghost predicate Disjoint(a: seq<Node>, b: seq<Node>) {
    forall n | n in a :: n !in b
  }

  lemma SplicedDistinct(a: seq<Node>, b: seq<Node>, i: nat)
    requires i <= |a| && Distinct(a) && Distinct(b) && Disjoint(a, b)
    ensures Distinct(Spliced(a, b, i))
  {
    var s := Spliced(a, b, i);
    forall k, l | 0 <= k < |s| && 0 <= l < |s|
      ensures Apart(s, k, l)
    {
      SplicedAt(a, b, i, k);
      SplicedAt(a, b, i, l);
      if (k < i || i + |b| <= k) && (l < i || i + |b| <= l) {
        assert Apart(a, if k < i then k else k - |b|, if l < i then l else l - |b|);
      } else if i <= k < i + |b| && i <= l < i + |b| {
        assert Apart(b, k - i, l - i);
      } else if i <= k < i + |b| {
        assert b[k - i] in b && At(a, if l < i then l else l - |b|) in a;
      } else {
        assert b[l - i] in b && At(a, if k < i then k else k - |b|) in a;
      }
    }
  }

  lemma SplicedEnds(a: seq<Node>, b: seq<Node>, i: nat)
    requires i <= |a| && a != [] && b != []
    ensures var s := Spliced(a, b, i);
            && At(s, 0) == (if i == 0 then b[0] else a[0])
            && At(s, |s| - 1) == (if i == |a| then b[|b| - 1] else a[|a| - 1])
  {
    SplicedAt(a, b, i, 0);
    SplicedAt(a, b, i, |a| + |b| - 1);
  }

  /** The neighbours of node k once b is linked between nodes i - 1 and i of a. */
  lemma SplicedNear(a: seq<Node>, b: seq<Node>, i: nat, k: nat)
    requires i <= |a| && b != [] && k < |a| + |b| && Distinct(a) && Distinct(b) && Disjoint(a, b)
    ensures var s, n := Spliced(a, b, i), At(Spliced(a, b, i), k);
            if i <= k < i + |b| then
              && n == b[k - i] && n !in a
              && At(s, k + 1) == (if n == b[|b| - 1] then At(a, i) else At(b, k - i + 1))
              && At(s, k - 1) == (if n == b[0] then At(a, i - 1) else At(b, k - i - 1))
            else
              var k' := if k < i then k else k - |b|;
              && n == a[k'] && n !in b
              && At(s, k + 1) == (if n == At(a, i - 1) then b[0] else At(a, k' + 1))
              && At(s, k - 1) == (if n == At(a, i) then b[|b| - 1] else At(a, k' - 1))
  {
    SplicedAt(a, b, i, k - 1);
    SplicedAt(a, b, i, k);
    SplicedAt(a, b, i, k + 1);
    if i <= k < i + |b| {
      assert Apart(b, k - i, 0) && Apart(b, k - i, |b| - 1);
      assert b[k - i] in b;
    } else {
      var k' := if k < i then k else k - |b|;
      assert Apart(a, k', i) && Apart(a, k', i - 1);
      assert a[k'] in a;
    }
  }

  function Members(s: seq<Node>): set<Node> {
    set n | n in s
  }

  /** Node k of a chain is not among the nodes before it. */
  lemma KthAlive(c: seq<Node>, k: nat)
    requires Distinct(c) && k < |c|
    ensures c[k] !in Members(c[..k]) && Members(c[..k + 1]) == Members(c[..k]) + {c[k]}
  {
    forall j | 0 <= j < k
      ensures c[j] != c[k]
    {
      assert Apart(c, j, k);
    }
    assert c[..k + 1] == c[..k] + [c[k]];
  }

  lemma MembersLast(c: seq<Node>, n: Node)
    ensures With(c, |c|, n) == c + [n] && Members(c + [n]) == Members(c) + {n}
  {
  }

  class List {
    const pool: Pool
    var size: nat
    var head: Node?
    var tail: Node?

    /** The nodes from head to tail. */
    ghost var nodes: seq<Node>

    ghost predicate Valid()
      reads this, nodes`next, nodes`prev, pool
    {
      && Linked(nodes)
      && size == |nodes| && head == At(nodes, 0) && tail == At(nodes, |nodes| - 1)
      && forall n | n in nodes :: n in pool.live
    }

    constructor (pool: Pool)
      ensures Valid() && nodes == [] && this.pool == pool
    {
      this.pool := pool;
      size, head, tail, nodes := 0, null, null, [];
    }

    /** Walks from whichever end is nearer. */
    method GetNodeAt(index: nat) returns (st: Status, out: Node?)
      requires Valid()
      ensures index < |nodes| ==> st == Ok && out == nodes[index]
      ensures index >= |nodes| ==> st == ErrOutOfRange && out == null
    {
      if index >= size {
        return ErrOutOfRange, null;
      }
      var node: Node?;
      if index < size / 2 {
        node := head;
        for i := 0 to index
          invariant node == At(nodes, i)
        {
          assert Hooked(nodes, i);
          node := node.next;
        }
      } else {
        node := tail;
        var i := size - 1;
        while i > index
          invariant index <= i < |nodes| && node == At(nodes, i)
        {
          assert Hooked(nodes, i);
          node := node.prev;
          i := i - 1;
        }
      }
      return Ok, node;
    }

    /** Inserts element before the node at index, which must exist. */
    method AddAt(element: Element, index: nat, granted: bool) returns (st: Status, ghost n: Node?)
      requires Valid()
      modifies this, pool, nodes`next, nodes`prev
      ensures Valid()
      ensures st == if index >= |old(nodes)| then ErrOutOfRange else if granted then Ok else ErrAlloc
      ensures st != Ok ==> nodes == old(nodes) && pool.live == old(pool.live)
      ensures st == Ok ==>
        && n != null && fresh(n) && n.data == element
        && nodes == old(nodes)[..index] + [n] + old(nodes)[index..] && pool.live == old(pool.live) + {n}
    {
      var base: Node?;
      n := null;
      st, base := GetNodeAt(index);
      if st != Ok {
        return;
      }
      var node := pool.MemCalloc(element, granted);
      n := node;
      if node == null {
        st := ErrAlloc;
        return;
      }
      LinkNew(base, node, index);
    }

    /** Links the new node before base, which is node i. */
    method LinkNew(base: Node, node: Node, i: nat)
      requires Valid() && i < |nodes| && base == nodes[i]
      requires node !in nodes && node.next == null && node.prev == null && node in pool.live
      modifies this, nodes`next, nodes`prev, node`next, node`prev
      ensures Valid() && nodes == With(old(nodes), i, node)
    {
      LinkBehind(base, node, nodes, |nodes|, i);
      if i == 0 {
        head := node;
      }
      size := size + 1;
      WithAt(nodes, i, node, 0);
      WithAt(nodes, i, node, |nodes|);
      nodes := With(nodes, i, node);
    }

    method AddLast(element: Element, granted: bool) returns (st: Status, ghost n: Node?)
      requires Valid()
      modifies this, pool, nodes`next
      ensures Valid() && st == if granted then Ok else ErrAlloc
      ensures st != Ok ==> nodes == old(nodes) && pool.live == old(pool.live)
      ensures st == Ok ==>
        && n != null && fresh(n) && n.data == element
        && nodes == old(nodes) + [n] && pool.live == old(pool.live) + {n}
    {
      var node := pool.MemCalloc(element, granted);
      n := node;
      if node == null {
        st := ErrAlloc;
        return;
      }
      MembersLast(nodes, node);
      Append(node);
      st := Ok;
    }

    method Append(node: Node)
      requires Valid() && node !in nodes && node.next == null && node.prev == null && node in pool.live
      modifies this, nodes`next, node`prev
      ensures Valid() && nodes == With(old(nodes), |old(nodes)|, node)
    {
      ghost var w := With(nodes, |nodes|, node);
      MembersLast(nodes, node);
      var h, t := LinkLast(head, tail, node, nodes);
      assert forall n | n in w :: n in pool.live;
      head, tail, size, nodes := h, t, size + 1, w;
    }

    /** Takes node i out of the list and frees it. */
    method Unlink(node: Node, ghost i: nat) returns (data: Element)
      requires Valid() && i < |nodes| && nodes[i] == node
      modifies this, pool, nodes`next, nodes`prev
      ensures Valid() && nodes == old(nodes)[..i] + old(nodes)[i + 1..] && data == node.data
      ensures pool.live == old(pool.live) - {node}
    {
      data := node.data;
      BypassNode(node, i);
      pool.MemFree(node);
      size := size - 1;
      nodes := Without(nodes, i);
    }

    /** The links and the ends of the list skip node i. */
    method BypassNode(node: Node, ghost i: nat)
      requires Valid() && i < |nodes| && nodes[i] == node
      modifies `head, `tail, nodes`next, nodes`prev
      ensures var v := Without(nodes, i);
              Linked(v) && node !in v && head == At(v, 0) && tail == At(v, |v| - 1)
    {
      JoinNeighbours(node, i);
      SkipsLinked(nodes, i);
      WithoutAt(nodes, i, 0);
      WithoutAt(nodes, i, |nodes| - 2);
    }

    /** The neighbours of node i are linked to each other, and head and tail follow. */
    method JoinNeighbours(node: Node, ghost i: nat)
      requires Valid() && i < |nodes| && nodes[i] == node
      modifies `head, `tail, nodes`next, nodes`prev
      ensures Skipping(nodes, i)
      ensures head == At(nodes, if i == 0 then 1 else 0)
      ensures tail == At(nodes, if i == |nodes| - 1 then i - 1 else |nodes| - 1)
    {
      assert Hooked(nodes, i);
      Near(nodes, i, i);
      if node.prev != null {
        node.prev.next := node.next;
      }
      if node.prev == null {
        head := node.next;
      }
      if node.next == null {
        tail := node.prev;
      }
      if node.next != null {
        node.next.prev := node.prev;
      }
      forall k | 0 <= k < |nodes|
        ensures Skips(nodes, i, k)
      {
        assert old(Hooked(nodes, k));
        Near(nodes, k, i);
      }
    }

    // ---- Splicing ----

    /** Moves all nodes of l2 to the place before index. */
    method SpliceAt(l2: List, index: nat) returns (st: Status)
      requires Valid() && l2.Valid() && this != l2 && Disjoint(nodes, l2.nodes) && pool == l2.pool
      modifies this, l2, nodes`next, nodes`prev, l2.nodes`next, l2.nodes`prev
      ensures Valid() && l2.Valid()
      ensures old(l2.nodes) == [] ==> st == Ok
      ensures old(l2.nodes) != [] ==> st == if index <= |old(nodes)| then Ok else ErrOutOfRange
      ensures old(l2.nodes) == [] || st != Ok ==> nodes == old(nodes) && l2.nodes == old(l2.nodes)
      ensures old(l2.nodes) != [] && st == Ok ==>
        nodes == old(nodes)[..index] + old(l2.nodes) + old(nodes)[index..] && l2.nodes == []
    {
      if l2.size == 0 {
        return Ok;
      }
      if index > size {
        return ErrOutOfRange;
      }
      if size == 0 {
        head, tail, size := l2.head, l2.tail, l2.size;
        l2.head, l2.tail, l2.size := null, null, 0;
        assert Spliced(nodes, l2.nodes, index) == l2.nodes;
        nodes, l2.nodes := l2.nodes, [];
        return Ok;
      }
      var base, end := Gap(index);
      SpliceBetween(l2, base, end, index);
      return Ok;
    }

    /** The nodes before and after the place at index. */
    method Gap(index: nat) returns (base: Node?, end: Node?)
      requires Valid() && size > 0 && index <= size
      ensures base == At(nodes, index - 1) && end == At(nodes, index)
    {
      var st;
      st, end := GetNodeAt(index);
      if end != null {
        assert Hooked(nodes, index);
        base := end.prev;
      } else {
        st, base := GetNodeAt(index - 1);
      }
    }

    method SpliceBetween(l2: List, left: Node?, right: Node?, ghost i: nat)
      requires Valid() && l2.Valid() && this != l2 && Disjoint(nodes, l2.nodes) && pool == l2.pool
      requires size > 0 && l2.size > 0 && i <= size && left == At(nodes, i - 1) && right == At(nodes, i)
      modifies this, l2, nodes`next, nodes`prev, l2.nodes`next, l2.nodes`prev
      ensures Valid() && l2.Valid() && nodes == Spliced(old(nodes), old(l2.nodes), i) && l2.nodes == []
    {
      JoinBetween(l2, left, right, i);
      size := size + l2.size;
      SplicedEnds(nodes, l2.nodes, i);
      nodes := Spliced(nodes, l2.nodes, i);
      l2.head, l2.tail, l2.size, l2.nodes := null, null, 0, [];
    }

    method JoinBetween(l2: List, left: Node?, right: Node?, ghost i: nat)
      requires Valid() && l2.Valid() && this != l2 && Disjoint(nodes, l2.nodes)
      requires size > 0 && l2.size > 0 && i <= size && left == At(nodes, i - 1) && right == At(nodes, i)
      modifies `head, `tail, nodes`next, nodes`prev, l2.nodes`next, l2.nodes`prev
      ensures Linked(Spliced(nodes, l2.nodes, i))
      ensures head == (if i == 0 then l2.nodes[0] else nodes[0])
      ensures tail == (if i == |nodes| then l2.nodes[|l2.nodes| - 1] else nodes[|nodes| - 1])
    {
      ghost var a, b := nodes, l2.nodes;
      if left == null {
        head.prev := l2.tail;
        l2.tail.next := head;
        head := l2.head;
      } else if right == null {
        tail.next := l2.head;
        l2.head.prev := tail;
        tail := l2.tail;
      } else {
        left.next := l2.head;
        l2.head.prev := left;
        right.prev := l2.tail;
        l2.tail.next := right;
      }
      SplicedDistinct(a, b, i);
      forall k | 0 <= k < |a| + |b|
        ensures Hooked(Spliced(a, b, i), k)
      {
        SplicedNear(a, b, i, k);
        assert old(Hooked(b, k - i)) && old(Hooked(a, if k < i then k else k - |b|));
      }
    }

    // ---- Bulk insertion ----

    /** A chain of new nodes with the elements of this list. granted gives the answers of the allocator in turn.
        If an allocation fails, the nodes made so far are freed. */
    method LinkAllExternally(granted: nat -> bool) returns (ok: bool, h: Node?, t: Node?, ghost c: seq<Node>)
      requires Valid()
      modifies pool
      ensures ok <==> forall k: nat | k < |nodes| :: granted(k)
      ensures ok ==>
        && Linked(c) && |c| == |nodes| && (forall k | 0 <= k < |c| :: fresh(c[k]) && c[k].data == nodes[k].data)
        && h == At(c, 0) && t == At(c, |c| - 1) && pool.live == old(pool.live) + Members(c)
      ensures !ok ==> pool.live == old(pool.live)
    {
      var insert := head;
      h, t, c := null, null, [];
      for i := 0 to size
        invariant |c| == i && Linked(c) && insert == At(nodes, i)
        invariant forall k | 0 <= k < |c| :: fresh(c[k]) && c[k].data == nodes[k].data
        invariant h == At(c, 0) && t == At(c, i - 1) && forall k: nat | k < i :: granted(k)
        invariant pool.live == old(pool.live) + Members(c)
      {
        var n := pool.MemCalloc(insert.data, granted(i));
        if n == null {
          FreeAll(h, c);
          h := null;
          return false, h, t, c;
        }
        h, t := LinkLast(h, t, n, c);
        assert Hooked(nodes, i);
        insert := insert.next;
        MembersLast(c, n);
        c := With(c, i, n);
      }
      return true, h, t, c;
    }

    /** Links n behind the last node of the chain from h to t. */
    static method LinkLast(h: Node?, t: Node?, n: Node, ghost c: seq<Node>) returns (h': Node?, t': Node)
      requires Linked(c) && h == At(c, 0) && t == At(c, |c| - 1)
      requires n !in c && n.next == null && n.prev == null
      modifies c`next, n`prev
      ensures Linked(With(c, |c|, n)) && h' == At(With(c, |c|, n), 0) && t' == n
    {
      h', t' := h, n;
      if h == null {
        h' := n;
      } else {
        assert Hooked(c, |c| - 1);
        t.next := n;
        n.prev := t;
      }
      ghost var w := With(c, |c|, n);
      WithDistinct(c, |c|, n);
      WithAt(c, |c|, n, 0);
      forall k | 0 <= k < |w|
        ensures Hooked(w, k)
      {
        assert old(Hooked(c, k));
        WithAt(c, |c|, n, k - 1);
        WithAt(c, |c|, n, k);
        WithAt(c, |c|, n, k + 1);
        assert Apart(c, k, |c| - 1);
      }
    }

    /** Frees the nodes of a chain of its own. */
    method FreeAll(h: Node?, ghost c: seq<Node>)
      requires Linked(c) && h == At(c, 0) && forall n | n in c :: n in pool.live
      modifies pool
      ensures pool.live == old(pool.live) - Members(c)
    {
      var h := h;
      ghost var k := 0;
      while h != null
        invariant k <= |c| && h == At(c, k) && pool.live == old(pool.live) - Members(c[..k])
        decreases |c| - k
      {
        assert Hooked(c, k);
        var tmp := h.next;
        KthAlive(c, k);
        pool.MemFree(h);
        h := tmp;
        k := k + 1;
      }
      assert c[..k] == c;
    }

    /** Inserts copies of the elements of l2 before index. With something to insert into an empty list, at its only
        index 0, the code follows the NULL tail once the copies are made. */
    method AddAllAt(l2: List, index: nat, granted: nat -> bool) returns (st: Status, ghost c: seq<Node>)
      requires Valid() && l2.Valid() && pool == l2.pool && (this == l2 || Disjoint(nodes, l2.nodes))
      modifies this, pool, nodes`next, nodes`prev
      ensures Valid() && l2.Valid() && (l2 != this ==> l2.nodes == old(l2.nodes))
      ensures old(l2.nodes) == [] ==> st == Ok && nodes == old(nodes) && pool.live == old(pool.live)
      ensures old(l2.nodes) != [] ==>
        st == if index > |old(nodes)| then ErrOutOfRange
              else if exists k: nat :: k < |old(l2.nodes)| && !granted(k) then ErrAlloc
              else if old(nodes) == [] then Fault
              else Ok
      ensures st != Ok ==> nodes == old(nodes) && (st != Fault ==> pool.live == old(pool.live))
      ensures st == Ok && old(l2.nodes) != [] ==>
        && |c| == |old(l2.nodes)| && (forall k | 0 <= k < |c| :: fresh(c[k]) && c[k].data == old(l2.nodes)[k].data)
        && nodes == old(nodes)[..index] + c + old(nodes)[index..] && pool.live == old(pool.live) + Members(c)
    {
      c := [];
      if l2.size == 0 {
        st := Ok;
        return;
      }
      if index > size {
        st := ErrOutOfRange;
        return;
      }
      var ok, h, t;
      ok, h, t, c := l2.LinkAllExternally(granted);
      if !ok {
        st := ErrAlloc;
        return;
      }
      if tail == null {
        st := Fault;
        return;
      }
      assert this != l2 ==> forall k | 0 <= k < |l2.nodes| :: l2.nodes[k] !in nodes && l2.nodes[k] !in c;
      label before:
      AttachAt(h, t, c, l2.size, index);
      assert this != l2 ==> forall k | 0 <= k < |l2.nodes| :: unchanged@before(l2.nodes[k]);
      st := Ok;
    }

    /** Links the chain c of allocated nodes, count in number, before index. */
    method AttachAt(h: Node?, t: Node?, ghost c: seq<Node>, count: nat, index: nat)
      requires Valid() && size > 0 && Linked(c) && c != [] && Disjoint(nodes, c) && h == c[0] && t == c[|c| - 1]
      requires index <= size && count == |c| && forall n | n in c :: n in pool.live
      modifies this, nodes`next, nodes`prev, c`next, c`prev
      ensures Valid() && nodes == Spliced(old(nodes), c, index)
    {
      var base, end := Gap(index);
      Attach(h, t, c, base, end, index);
      size := size + count;
      SplicedEnds(nodes, c, index);
      nodes := Spliced(nodes, c, index);
    }

    method Attach(h: Node?, t: Node?, ghost c: seq<Node>, base: Node?, end: Node?, ghost i: nat)
      requires Valid() && size > 0 && Linked(c) && c != [] && Disjoint(nodes, c) && h == c[0] && t == c[|c| - 1]
      requires i <= size && base == At(nodes, i - 1) && end == At(nodes, i)
      modifies `head, `tail, nodes`next, nodes`prev, c`next, c`prev
      ensures Linked(Spliced(nodes, c, i))
      ensures head == (if i == 0 then c[0] else nodes[0])
      ensures tail == (if i == |nodes| then c[|c| - 1] else nodes[|nodes| - 1])
    {
      ghost var a := nodes;
      if end == null {
        tail.next := h;
        h.prev := tail;
        tail := t;
      } else if base == null {
        head.prev := t;
        t.next := head;
        head := h;
      } else {
        h.prev := base;
        base.next := h;
        t.next := end;
        end.prev := t;
      }
      SplicedDistinct(a, c, i);
      forall k | 0 <= k < |a| + |c|
        ensures Hooked(Spliced(a, c, i), k)
      {
        SplicedNear(a, c, i, k);
        assert old(Hooked(c, k - i)) && old(Hooked(a, if k < i then k else k - |c|));
      }
    }

    /** Appends copies of the elements of l2. */
    method AddAll(l2: List, granted: nat -> bool) returns (st: Status, ghost c: seq<Node>)
      requires Valid() && l2.Valid() && pool == l2.pool && (this == l2 || Disjoint(nodes, l2.nodes))
      modifies this, pool, nodes`next, nodes`prev
      ensures Valid() && l2.Valid() && (l2 != this ==> l2.nodes == old(l2.nodes))
      ensures st == if forall k: nat | k < |old(l2.nodes)| :: granted(k) then Ok else ErrAlloc
      ensures st == Ok ==>
        && nodes == old(nodes) + c && |c| == |old(l2.nodes)|
        && forall k | 0 <= k < |c| :: fresh(c[k]) && c[k].data == old(l2.nodes)[k].data
      ensures st == Ok ==> pool.live == old(pool.live) + Members(c)
      ensures st != Ok ==> nodes == old(nodes) && pool.live == old(pool.live)
    {
      if size == 0 {
        st, c := AddAllToEmpty(l2, granted);
      } else {
        st, c := AddAllAt(l2, size, granted);
        c := if old(l2.nodes) == [] then [] else c;
      }
    }

    method AddAllToEmpty(l2: List, granted: nat -> bool) returns (st: Status, ghost c: seq<Node>)
      requires Valid() && l2.Valid() && pool == l2.pool && nodes == []
      modifies this, pool
      ensures Valid() && l2.Valid() && (l2 != this ==> l2.nodes == old(l2.nodes))
      ensures st == if forall k: nat | k < |old(l2.nodes)| :: granted(k) then Ok else ErrAlloc
      ensures st == Ok ==>
        && nodes == c && |c| == |old(l2.nodes)|
        && forall k | 0 <= k < |c| :: fresh(c[k]) && c[k].data == old(l2.nodes)[k].data
      ensures st == Ok ==> pool.live == old(pool.live) + Members(c)
      ensures st != Ok ==> nodes == old(nodes) && pool.live == old(pool.live)
    {
      c := [];
      if l2.size == 0 {
        st := Ok;
        return;
      }
      var ok, h, t;
      ok, h, t, c := l2.LinkAllExternally(granted);
      if !ok {
        st := ErrAlloc;
        return;
      }
      head, tail, size, nodes := h, t, l2.size, c;
      st := Ok;
    }

    // ---- Sorting ----

    method SortInPlace(cmp: Comparator)
      requires Valid() && TotalPreorder(cmp)
      modifies this, nodes`next, nodes`prev
      ensures Valid() && ListSort.StableSort(cmp, old(nodes), nodes) && multiset(nodes) == multiset(old(nodes))
      ensures forall i, j | 0 <= i < j < |nodes| :: cmp(nodes[i].data, nodes[j].data) <= 0
      ensures forall i, j, a, b | 0 <= i < j < |old(nodes)| && 0 <= a < |nodes| && 0 <= b < |nodes|
                                  && nodes[a] == old(nodes)[i] && nodes[b] == old(nodes)[j]
                                  && cmp(nodes[a].data, nodes[b].data) == 0 :: a < b
    {
      ghost var s := nodes;
      ListSort.MergeSortSorts(cmp, nodes);
      SortNodes(cmp);
      ListSort.StableSortMeans(cmp, s, nodes);
    }

    method SortNodes(cmp: Comparator)
      requires Valid() && TotalPreorder(cmp)
      modifies this, nodes`next, nodes`prev
      ensures Valid() && nodes == ListSort.MergeSort(cmp, old(nodes))
    {
      ghost var s, t := nodes, ListSort.MergeSort(cmp, nodes);
      ListMerge.MergeSortMembers(cmp, s);
      ListMerge.Bare(s);
      ListMerge.Bare(t);
      var lHead := Split(head, size, cmp, [], s, []);
      nodes := t;
    }

    /** Sorts the count nodes m from b on, between p and q. */
    method Split(b: Node?, count: nat, cmp: Comparator, ghost p: seq<Node>, ghost m: seq<Node>, ghost q: seq<Node>)
      returns (lHead: Node?)
      requires TotalPreorder(cmp) && Linked(p + m + q) && |m| == count && b == At(m, 0)
      modifies `head, `tail, (p + m + q)`next, (p + m + q)`prev
      ensures var s := ListSort.MergeSort(cmp, m);
              && Linked(p + s + q) && lHead == At(s, 0)
              && (if count < 2 then head == old(head) && tail == old(tail)
                  else head == At(s, 0) && tail == At(s, |s| - 1))
      decreases count, 2
    {
      if count < 2 {
        return b;
      }
      lHead := SplitMany(b, count, cmp, p, m, q);
    }

    method SplitMany(b: Node, count: nat, cmp: Comparator, ghost p: seq<Node>, ghost m: seq<Node>, ghost q: seq<Node>)
      returns (lHead: Node?)
      requires TotalPreorder(cmp) && Linked(p + m + q) && |m| == count >= 2 && b == m[0]
      modifies `head, `tail, (p + m + q)`next, (p + m + q)`prev
      ensures var s := ListSort.MergeSort(cmp, m);
              Linked(p + s + q) && |s| > 0 && head == lHead == s[0] && tail == s[|s| - 1]
      decreases count, 1
    {
      ghost var x, y := ListSort.Halves(cmp, m);
      lHead := SplitHalves(b, count / 2, count / 2 + count % 2, cmp, p, x, y, q);
    }

    /** Sorts the halves x and y of a part and merges them. */
    method SplitHalves(b: Node, lSize: nat, rSize: nat, cmp: Comparator,
                       ghost p: seq<Node>, ghost x: seq<Node>, ghost y: seq<Node>, ghost q: seq<Node>)
      returns (lHead: Node)
      requires TotalPreorder(cmp) && Linked(p + (x + y) + q)
      requires 0 < lSize == |x| && lSize <= rSize == |y| && b == x[0]
      modifies `head, `tail, (p + (x + y) + q)`next, (p + (x + y) + q)`prev
      ensures var s := ListSort.Merge(cmp, ListSort.MergeSort(cmp, x), ListSort.MergeSort(cmp, y));
              && Linked(p + s + q) && |s| > 0 && head == lHead == s[0] && tail == s[|s| - 1]
      decreases lSize + rSize, 0
    {
      ghost var x', y' := ListSort.MergeSort(cmp, x), ListSort.MergeSort(cmp, y);
      ListMerge.Halves(cmp, p, x, y, q);
      var center := ListMerge.Advance(b, lSize, p + (x + y) + q, |p|);
      var l := Split(b, lSize, cmp, p, x, y + q);
      var r := Split(center, rSize, cmp, p + x', y, q);
      var rHead;
      lHead, rHead := ListMerge.MergeInPlace(l, r, lSize, rSize, cmp, p, x', y', q);
      head := lHead;
      tail := rHead;
    }

    // ---- Reversal ----

    method Reverse()
      requires Valid()
      modifies this, nodes`next, nodes`prev
      ensures Valid() && nodes == Reversed(old(nodes))
      ensures |nodes| == |old(nodes)| && forall k | 0 <= k < |nodes| :: nodes[k] == old(nodes)[|nodes| - 1 - k]
    {
      assert HalfReversed(nodes, nodes, 0);
      if size == 0 || size == 1 {
        HalvesReversed(nodes, nodes);
        return;
      }
      var headOld, tailOld := head, tail;
      var left, right := head, tail;
      ghost var w := nodes;
      for i := 0 to size / 2
        invariant |w| == |nodes| && Linked(w) && Within(w, nodes)
        invariant HalfReversed(nodes, w, i)
        invariant i < size / 2 ==> left == At(w, i) && right == At(w, size - 1 - i)
        modifies nodes`next, nodes`prev
      {
        left, right := SwapRound(left, right, w, i);
        w := Exchanged(w, i, size - 1 - i);
      }
      head := tailOld;
      tail := headOld;
      HalvesReversed(nodes, w);
      nodes := w;
    }

    /** Exchanges the nodes at i from either end; the next ones are those inside. */
    method SwapRound(left: Node, right: Node, ghost w: seq<Node>, ghost i: nat) returns (left': Node?, right': Node?)
      requires |w| == |nodes| == size && Linked(w) && Within(w, nodes) && HalfReversed(nodes, w, i)
      requires i < size / 2 && left == w[i] && right == w[size - 1 - i]
      modifies nodes`next, nodes`prev
      ensures var w' := Exchanged(w, i, size - 1 - i);
              && Linked(w') && Within(w', nodes) && HalfReversed(nodes, w', i + 1)
              && (i + 1 < size / 2 ==> left' == At(w', i + 1) && right' == At(w', size - 2 - i))
    {
      assert Hooked(w, i) && Hooked(w, size - 1 - i);
      left', right' := left.next, right.prev;
      Swap(left, right, w, i, size - 1 - i);
      ExchangedReverses(nodes, w, i);
    }
  }

  /** The links of node k of s when node i is skipped. */
  ghost predicate Skips(s: seq<Node>, i: nat, k: int)
    reads s`next, s`prev
  {
    0 <= k < |s| && k != i ==>
      && s[k].next == At(s, if k + 1 == i then i + 1 else k + 1)
      && s[k].prev == At(s, if k - 1 == i then i - 1 else k - 1)
  }

  ghost predicate Skipping(s: seq<Node>, i: nat)
    reads s`next, s`prev
  {
    forall k {:trigger Skips(s, i, k)} | 0 <= k < |s| :: Skips(s, i, k)
  }

  lemma SkipsLinked(s: seq<Node>, i: nat)
    requires Distinct(s) && i < |s| && Skipping(s, i)
    ensures Linked(Without(s, i)) && s[i] !in Without(s, i)
  {
    var v := Without(s, i);
    WithoutDistinct(s, i);
    forall k | 0 <= k < |v|
      ensures Hooked(v, k)
    {
      assert Skips(s, i, if k < i then k else k + 1);
      WithoutAt(s, i, k - 1);
      WithoutAt(s, i, k);
      WithoutAt(s, i, k + 1);
    }
  }

  /** w is s with the first and the last i nodes in reversed places. */
  ghost predicate HalfReversed(s: seq<Node>, w: seq<Node>, i: nat)
    requires |w| == |s|
  {
    forall k {:trigger Mirrored(s, w, i, k)} | 0 <= k < |s| :: Mirrored(s, w, i, k)
  }

  predicate Mirrored(s: seq<Node>, w: seq<Node>, i: nat, k: int) {
    At(w, k) == if k < i || k >= |s| - i then At(s, |s| - 1 - k) else At(s, k)
  }

  /** The exchange in round i extends the reversed ends and leaves the nodes of the next round in place. */
  lemma ExchangedReverses(s: seq<Node>, w: seq<Node>, i: nat)
    requires |w| == |s| && HalfReversed(s, w, i) && i < |s| / 2 && Within(w, s)
    ensures var w' := Exchanged(w, i, |s| - 1 - i);
            && HalfReversed(s, w', i + 1) && Within(w', s)
            && (i + 1 < |s| / 2 ==> At(w', i + 1) == At(w, i + 1) && At(w', |s| - 2 - i) == At(w, |s| - 2 - i))
  {
    assert Mirrored(s, w, i, i) && Mirrored(s, w, i, |s| - 1 - i);
    var w', i' := Exchanged(w, i, |s| - 1 - i), i + 1;
    forall k | 0 <= k < |s|
      ensures Mirrored(s, w', i', k)
    {
      assert Mirrored(s, w, i, k);
    }
  }

  lemma HalvesReversed(s: seq<Node>, w: seq<Node>)
    requires |w| == |s| && HalfReversed(s, w, |s| / 2)
    ensures w == Reversed(s)
  {
    var r := Reversed(s);
    forall k | 0 <= k < |s|
      ensures w[k] == r[k]
    {
      assert Mirrored(s, w, |s| / 2, k);
    }
  }
}
