/** The nodes of src/collect/list.c: chains of prev and next links, and the pointer surgery on them. */
module ListNodes {
  import opened Common

  /** Elements are void pointers, like the keys of a tree table. A node keeps its element for life. */
  type Element = Key

  class Node {
    const data: Element
    var next: Node?
    var prev: Node?

    constructor (data: Element)
      ensures this.data == data && next == null && prev == null
    {
      this.data := data;
      next, prev := null, null;
    }
  }

  /** The node at index i of s; NULL outside. */
  function At(s: seq<Node>, i: int): Node? {
    if 0 <= i < |s| then s[i] else null
  }

  predicate Apart(s: seq<Node>, i: int, j: int) {
    0 <= i < |s| && i != j ==> At(s, i) != At(s, j)
  }

  predicate Distinct(s: seq<Node>) {
    forall i, j {:trigger Apart(s, i, j)} | 0 <= i < |s| && 0 <= j < |s| :: Apart(s, i, j)
  }

  predicate Within(w: seq<Node>, s: seq<Node>) {
    forall k | 0 <= k < |w| :: w[k] in s
  }

  /** Node i of s is linked to its neighbours in s, or to NULL at the ends. */
  ghost predicate Hooked(s: seq<Node>, i: int)
    reads s`next, s`prev
  {
    0 <= i < |s| ==> s[i].next == At(s, i + 1) && s[i].prev == At(s, i - 1)
  }

  /** s is a whole chain: next and prev are inverse to each other and end in NULL. */
  ghost predicate Linked(s: seq<Node>)
    reads s`next, s`prev
  {
    && Distinct(s)
    && forall i {:trigger Hooked(s, i)} | 0 <= i < |s| :: Hooked(s, i)
  }

  /** Which of the positions i - 1, i and i + 1 of s hold the node at k. */
  lemma Near(s: seq<Node>, k: int, i: int)
    requires Distinct(s) && 0 <= k < |s|
    ensures At(s, k) == At(s, i - 1) <==> k == i - 1
    ensures At(s, k) == At(s, i) <==> k == i
    ensures At(s, k) == At(s, i + 1) <==> k == i + 1
  {
    assert Apart(s, k, i - 1) && Apart(s, k, i) && Apart(s, k, i + 1);
  }

  /** w with the nodes at i and j exchanged. */
  function Exchanged(w: seq<Node>, i: nat, j: nat): seq<Node>
    requires i < |w| && j < |w|
  {
    w[i := w[j]][j := w[i]]
  }

  lemma ExchangedDistinct(w: seq<Node>, i: nat, j: nat)
    requires Distinct(w) && i < |w| && j < |w|
    ensures Distinct(Exchanged(w, i, j))
  {
    forall k, l | 0 <= k < |w| && 0 <= l < |w|
      ensures Apart(Exchanged(w, i, j), k, l)
    {
      assert Apart(w, k, l) && Apart(w, i, l) && Apart(w, j, l) && Apart(w, k, i) && Apart(w, k, j) && Apart(w, i, j);
    }
  }

  method SwapAdjacent(n1: Node, n2: Node, ghost w: seq<Node>, ghost i: nat, ghost j: nat)
    requires Linked(w) && i < |w| && j < |w| && w[i] == n1 && w[j] == n2 && (j == i + 1 || i == j + 1)
    modifies w`next, w`prev
    ensures Linked(Exchanged(w, i, j))
  {
    assert Hooked(w, i) && Hooked(w, j);
    Near(w, i, j);
    Near(w, j, i);
    Near(w, i, i);
    Near(w, j, j);
    if n1.next == n2 {
      if n2.next != null {
        n2.next.prev := n1;
      }
      n1.next := n2.next;
      if n1.prev != null {
        n1.prev.next := n2;
      }
      n2.prev := n1.prev;
      n1.prev := n2;
      n2.next := n1;
    } else if n2.next == n1 {
      if n1.next != null {
        n1.next.prev := n2;
      }
      n2.next := n1.next;
      if n2.prev != null {
        n2.prev.next := n1;
      }
      n1.prev := n2.prev;
      n2.prev := n1;
      n1.next := n2;
    }
    ExchangedDistinct(w, i, j);
    forall k | 0 <= k < |w|
      ensures Hooked(Exchanged(w, i, j), k)
    {
      assert old(Hooked(w, k));
      Near(w, k, i);
      Near(w, k, j);
    }
  }

  /** The neighbours in the exchanged chain, when i and j are not neighbours. */
  lemma ExchangedAt(w: seq<Node>, i: nat, j: nat, k: nat)
    requires Distinct(w) && i < |w| && j < |w| && k < |w| && i != j && i + 1 != j && j + 1 != i
    ensures var w', n := Exchanged(w, i, j), Exchanged(w, i, j)[k];
            && (n == w[i] ==> At(w', k + 1) == At(w, j + 1) && At(w', k - 1) == At(w, j - 1))
            && (n == w[j] ==> At(w', k + 1) == At(w, i + 1) && At(w', k - 1) == At(w, i - 1))
            && (n != w[i] && n != w[j] ==>
                  && n == w[k]
                  && At(w', k + 1) == (if n == At(w, i - 1) then w[j]
                                    else if n == At(w, j - 1) then w[i]
                                    else At(w, k + 1))
                  && At(w', k - 1) == (if n == At(w, i + 1) then w[j]
                                    else if n == At(w, j + 1) then w[i]
                                    else At(w, k - 1)))
  {
    Near(w, k, i);
    Near(w, k, j);
    Near(w, i, j);
  }

  method Swap(n1: Node, n2: Node, ghost w: seq<Node>, ghost i: nat, ghost j: nat)
    requires Linked(w) && i < |w| && j < |w| && i != j && w[i] == n1 && w[j] == n2
    modifies w`next, w`prev
    ensures Linked(Exchanged(w, i, j))
  {
    assert Hooked(w, i) && Hooked(w, j);
    Near(w, i, j);
    Near(w, j, i);
    Near(w, i, i);
    Near(w, j, j);
    if n1.next == n2 || n2.next == n1 {
      SwapAdjacent(n1, n2, w, i, j);
      return;
    }
    assert Apart(w, i - 1, j - 1) && Apart(w, i + 1, j + 1);
    var n1Left, n1Right, n2Left, n2Right := n1.prev, n1.next, n2.prev, n2.next;
    if n1Left != null {
      n1Left.next := n2;
    }
    n2.prev := n1Left;
    if n1Right != null {
      n1Right.prev := n2;
    }
    n2.next := n1Right;
    if n2Left != null {
      n2Left.next := n1;
    }
    n1.prev := n2Left;
    if n2Right != null {
      n2Right.prev := n1;
    }
    n1.next := n2Right;
    ExchangedDistinct(w, i, j);
    forall k | 0 <= k < |w|
      ensures Hooked(Exchanged(w, i, j), k)
    {
      assert old(Hooked(w, k));
      ExchangedAt(w, i, j, k);
    }
  }

  // ---- Taking a node out of a chain and putting one in ----

  /** s without the node at j, if there is one. */
  function Without(s: seq<Node>, j: nat): seq<Node> {
    if j < |s| then s[..j] + s[j + 1..] else s
  }

  function With(s: seq<Node>, i: nat, n: Node): seq<Node>
    requires i <= |s|
  {
    s[..i] + [n] + s[i..]
  }

  lemma WithoutAt(s: seq<Node>, j: nat, k: int)
    requires j < |s|
    ensures At(Without(s, j), k) == if k < j then At(s, k) else At(s, k + 1)
  {
  }

  lemma WithAt(s: seq<Node>, i: nat, n: Node, k: int)
    requires i <= |s|
    ensures At(With(s, i, n), k) == if k < i then At(s, k) else if k == i then n else At(s, k - 1)
  {
  }

  lemma WithoutDistinct(s: seq<Node>, j: nat)
    requires Distinct(s) && j < |s|
    ensures Distinct(Without(s, j)) && s[j] !in Without(s, j)
  {
    var v := Without(s, j);
    forall k, l | 0 <= k < |v| && 0 <= l < |v|
      ensures Apart(v, k, l)
    {
      WithoutAt(s, j, k);
      WithoutAt(s, j, l);
      assert Apart(s, if k < j then k else k + 1, if l < j then l else l + 1);
    }
    forall k | 0 <= k < |v|
      ensures v[k] != s[j]
    {
      WithoutAt(s, j, k);
      assert Apart(s, if k < j then k else k + 1, j);
    }
  }

  lemma WithDistinct(s: seq<Node>, i: nat, n: Node)
    requires Distinct(s) && i <= |s| && n !in s
    ensures Distinct(With(s, i, n))
  {
    var v := With(s, i, n);
    forall k, l | 0 <= k < |v| && 0 <= l < |v|
      ensures Apart(v, k, l)
    {
      WithAt(s, i, n, k);
      WithAt(s, i, n, l);
      assert Apart(s, if k < i then k else k - 1, if l < i then l else l - 1);
    }
  }

  /** The neighbours in the chain without node j. */
  lemma GapAt(w: seq<Node>, j: nat, k: nat)
    requires Distinct(w) && j < |w| && k < |w| - 1
    ensures var v, k' := Without(w, j), if k < j then k else k + 1;
            && At(v, k) == w[k'] != w[j]
            && At(v, k + 1) == (if w[k'] == At(w, j - 1) then At(w, j + 1) else At(w, k' + 1))
            && At(v, k - 1) == (if w[k'] == At(w, j + 1) then At(w, j - 1) else At(w, k' - 1))
  {
    WithoutAt(w, j, k - 1);
    WithoutAt(w, j, k);
    WithoutAt(w, j, k + 1);
    Near(w, if k < j then k else k + 1, j);
  }

  /** ins is node j of w, or a new node outside of w. */
  ghost predicate Movable(ins: Node, w: seq<Node>, j: nat)
    reads w`next, w`prev, ins`next, ins`prev
  {
    Linked(w) && if j < |w| then ins == w[j] else ins !in w && ins.next == null && ins.prev == null
  }

  /** The neighbours of ins are linked to each other. */
  method CloseGap(ins: Node, ghost w: seq<Node>, ghost j: nat)
    requires Movable(ins, w, j)
    modifies w`next, w`prev
    ensures Linked(Without(w, j)) && ins !in Without(w, j)
  {
    if j < |w| {
      assert Hooked(w, j);
      Near(w, j, j);
      WithoutDistinct(w, j);
    }
    if ins.next != null {
      ins.next.prev := ins.prev;
    }
    if ins.prev != null {
      ins.prev.next := ins.next;
    }
    ghost var v := Without(w, j);
    forall k | 0 <= k < |v|
      ensures Hooked(v, k)
    {
      var k' := if k < j then k else k + 1;
      assert old(Hooked(w, k'));
      if j < |w| {
        GapAt(w, j, k);
      }
    }
  }

  /** ins takes its place before base = v[i]. */
  method PlaceBehind(base: Node, ins: Node, ghost v: seq<Node>, ghost i: nat)
    requires Linked(v) && At(v, i) == base && ins !in v
    modifies v`next, v`prev, ins`next, ins`prev
    ensures Linked(With(v, i, ins))
  {
    assert Hooked(v, i);
    Near(v, i, i);
    if base.prev == null {
      ins.prev := null;
      ins.next := base;
      base.prev := ins;
    } else {
      ins.prev := base.prev;
      ins.prev.next := ins;
      ins.next := base;
      base.prev := ins;
    }
    ghost var w := With(v, i, ins);
    WithDistinct(v, i, ins);
    forall k | 0 <= k < |w|
      ensures Hooked(w, k)
    {
      var k' := if k < i then k else if k == i then i else k - 1;
      assert old(Hooked(v, k'));
      WithAt(v, i, ins, k - 1);
      WithAt(v, i, ins, k);
      WithAt(v, i, ins, k + 1);
      Near(v, k', i);
    }
  }

  /** Moves ins to the place before base, which is node i of the others. */
  method LinkBehind(base: Node, ins: Node, ghost w: seq<Node>, ghost j: nat, ghost i: nat)
    requires Movable(ins, w, j) && At(Without(w, j), i) == base
    modifies w`next, w`prev, ins`next, ins`prev
    ensures Linked(With(Without(w, j), i, ins))
  {
    CloseGap(ins, w, j);
    PlaceBehind(base, ins, Without(w, j), i);
  }
}
