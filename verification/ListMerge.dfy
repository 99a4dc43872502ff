/** The steps of the in-place merge on the chain of a list. */
module ListMerge {
  import opened Common
  import opened ListNodes
  import opened ListSort

  /** The chain in the middle of a merge: the merged nodes m and the rests of both partitions, between p and q. */
  function Whole(p: seq<Node>, m: seq<Node>, a: seq<Node>, b: seq<Node>, q: seq<Node>): seq<Node> {
    p + m + a + b + q
  }

  lemma WholeAt(p: seq<Node>, m: seq<Node>, a: seq<Node>, b: seq<Node>, q: seq<Node>, k: nat)
    ensures k < |a| ==> At(Whole(p, m, a, b, q), |p| + |m| + k) == a[k]
    ensures k < |b| ==> At(Whole(p, m, a, b, q), |p| + |m| + |a| + k) == b[k]
  {
  }

  lemma Regroup(x: seq<Node>, y: seq<Node>, z: seq<Node>)
    ensures x + (y + z) == x + y + z
  {
  }

  lemma Uncons(s: seq<Node>)
    requires s != []
    ensures s == [s[0]] + s[1..]
  {
  }

  lemma TakeLeft(cmp: Comparator, p: seq<Node>, m: seq<Node>, a: seq<Node>, b: seq<Node>, q: seq<Node>)
    requires a != [] && b != [] && cmp(a[0].data, b[0].data) <= 0
    ensures Whole(p, m + [a[0]], a[1..], b, q) == Whole(p, m, a, b, q)
    ensures m + Merge(cmp, a, b) == m + [a[0]] + Merge(cmp, a[1..], b)
  {
    Uncons(a);
    Regroup(p, m, [a[0]]);
    Regroup(p + m, [a[0]], a[1..]);
    Regroup(m, [a[0]], Merge(cmp, a[1..], b));
  }

  /** u is v with node j at the place of the earlier node i. */
  ghost predicate Moved(v: seq<Node>, j: nat, i: nat, u: seq<Node>) {
    && |u| == |v| && i < j < |v|
    && forall k {:trigger MovedAt(v, j, i, u, k)} | 0 <= k < |u| :: MovedAt(v, j, i, u, k)
  }

  predicate MovedAt(v: seq<Node>, j: nat, i: nat, u: seq<Node>, k: int) {
    At(u, k) == At(v, if k < i || k > j then k else if k == i then j else k - 1)
  }

  lemma MovedIff(v: seq<Node>, j: nat, i: nat, u: seq<Node>)
    requires i < j < |v| && i <= |Without(v, j)|
    ensures Moved(v, j, i, u) <==> u == With(Without(v, j), i, v[j])
  {
    var x := With(Without(v, j), i, v[j]);
    forall k | 0 <= k < |v|
      ensures MovedAt(v, j, i, x, k)
    {
      WithAt(Without(v, j), i, v[j], k);
      WithoutAt(v, j, if k < i then k else k - 1);
    }
    if Moved(v, j, i, u) {
      forall k | 0 <= k < |v|
        ensures u[k] == x[k]
      {
        assert MovedAt(v, j, i, u, k) && MovedAt(v, j, i, x, k);
      }
    }
  }

  /** Moving a node inside a chain brings in no other nodes. */
  lemma MovedWithin(v: seq<Node>, j: nat, i: nat, u: seq<Node>, w: seq<Node>)
    requires Within(v, w) && Moved(v, j, i, u)
    ensures Within(u, w)
  {
    forall k | 0 <= k < |u|
      ensures u[k] in w
    {
      assert MovedAt(v, j, i, u, k);
    }
  }

  /** The first node of b goes before the first node of a. */
  lemma TakeRight(p: seq<Node>, m: seq<Node>, a: seq<Node>, b: seq<Node>, q: seq<Node>)
    requires a != [] && b != []
    ensures Moved(Whole(p, m, a, b, q), |p| + |m| + |a|, |p| + |m|, Whole(p, m + [b[0]], a, b[1..], q))
  {
    var v, u := Whole(p, m, a, b, q), Whole(p, m + [b[0]], a, b[1..], q);
    var j, i := |p| + |m| + |a|, |p| + |m|;
    forall k | 0 <= k < |u|
      ensures MovedAt(v, j, i, u, k)
    {
      WholeIndex(p, m, a, b, q, if k < i || k > j then k else if k == i then j else k - 1);
      WholeIndex(p, m + [b[0]], a, b[1..], q, k);
    }
  }

  lemma WholeIndex(p: seq<Node>, m: seq<Node>, a: seq<Node>, b: seq<Node>, q: seq<Node>, k: nat)
    ensures At(Whole(p, m, a, b, q), k) ==
            if k < |p| then p[k]
            else if k - |p| < |m| then m[k - |p|]
            else if k - |p| - |m| < |a| then a[k - |p| - |m|]
            else if k - |p| - |m| - |a| < |b| then b[k - |p| - |m| - |a|]
            else At(q, k - |p| - |m| - |a| - |b|)
  {
  }

  lemma MergeRight(cmp: Comparator, m: seq<Node>, a: seq<Node>, b: seq<Node>)
    requires a != [] && b != [] && cmp(a[0].data, b[0].data) > 0
    ensures m + Merge(cmp, a, b) == m + [b[0]] + Merge(cmp, a, b[1..])
  {
    Regroup(m, [b[0]], Merge(cmp, a, b[1..]));
  }

  lemma EndLeft(cmp: Comparator, p: seq<Node>, m: seq<Node>, b: seq<Node>, q: seq<Node>)
    ensures Whole(p, m, [], b, q) == p + (m + Merge(cmp, [], b)) + q
  {
    assert p + m + [] == p + m;
    Regroup(p, m, b);
  }

  lemma EndRight(cmp: Comparator, p: seq<Node>, m: seq<Node>, a: seq<Node>, q: seq<Node>)
    ensures Whole(p, m, a, [], q) == p + (m + Merge(cmp, a, [])) + q
  {
    assert p + m + a + [] == p + m + a;
    Regroup(p, m, a);
  }

  lemma {:induction false} MergeLength(cmp: Comparator, a: seq<Node>, b: seq<Node>)
    ensures |Merge(cmp, a, b)| == |a| + |b|
    decreases |a| + |b|
  {
    if a != [] && b != [] {
      if cmp(a[0].data, b[0].data) <= 0 {
        MergeLength(cmp, a[1..], b);
      } else {
        MergeLength(cmp, a, b[1..]);
      }
    }
  }

  lemma {:induction false} MergeSortLength(cmp: Comparator, s: seq<Node>)
    ensures |MergeSort(cmp, s)| == |s|
    decreases |s|
  {
    if |s| >= 2 {
      MergeSortLength(cmp, s[..|s| / 2]);
      MergeSortLength(cmp, s[|s| / 2..]);
      MergeLength(cmp, MergeSort(cmp, s[..|s| / 2]), MergeSort(cmp, s[|s| / 2..]));
    }
  }

  /** The node n steps behind node k of w. */
  method Advance(node: Node, n: nat, ghost w: seq<Node>, ghost k: nat) returns (r: Node)
    requires Linked(w) && node == At(w, k) && k + n < |w|
    ensures r == w[k + n]
  {
    r := node;
    for i := 0 to n
      invariant r == At(w, k + i)
    {
      assert Hooked(w, k + i);
      r := r.next;
    }
  }

  /** A merge that is to end in all, in the middle: the chain is made of nodes of w. */
  ghost predicate Partly(cmp: Comparator, p: seq<Node>, m: seq<Node>, a: seq<Node>, b: seq<Node>, q: seq<Node>,
                         w: seq<Node>, all: seq<Node>)
    reads Whole(p, m, a, b, q)`next, Whole(p, m, a, b, q)`prev
  {
    && Linked(Whole(p, m, a, b, q)) && Within(Whole(p, m, a, b, q), w)
    && all == m + Merge(cmp, a, b)
  }

  /** What is behind the first node of a partition. */
  lemma NextOf(p: seq<Node>, m: seq<Node>, a: seq<Node>, b: seq<Node>, q: seq<Node>)
    requires Linked(Whole(p, m, a, b, q))
    ensures a != [] && b != [] ==> a[0].next == if |a| > 1 then a[1] else b[0]
    ensures |b| > 1 ==> b[0].next == b[1]
  {
    var w := Whole(p, m, a, b, q);
    assert Hooked(w, |p| + |m|) && Hooked(w, |p| + |m| + |a|);
  }

  /** As LinkBehind, with the new chain u given. */
  method LinkInto(base: Node, ins: Node, ghost v: seq<Node>, ghost j: nat, ghost i: nat, ghost u: seq<Node>,
                  ghost w: seq<Node>)
    requires Linked(v) && Within(v, w) && i < j < |v| && v[j] == ins && v[i] == base && Moved(v, j, i, u)
    modifies v`next, v`prev
    ensures Linked(u) && Within(u, w)
  {
    MovedIff(v, j, i, u);
    MovedWithin(v, j, i, u, w);
    WithoutAt(v, j, i);
    LinkBehind(base, ins, v, j, i);
  }

  /** The right partition gives its first node. */
  method MoveRight(lPart: Node, rPart: Node, cmp: Comparator, ghost p: seq<Node>, ghost m: seq<Node>,
                   ghost a: seq<Node>, ghost b: seq<Node>,
                   ghost q: seq<Node>, ghost w: seq<Node>, ghost all: seq<Node>)
    requires Partly(cmp, p, m, a, b, q, w, all) && a != [] && b != []
    requires lPart == a[0] && rPart == b[0] && cmp(a[0].data, b[0].data) > 0
    modifies Whole(p, m, a, b, q)`next, Whole(p, m, a, b, q)`prev
    ensures Partly(cmp, p, m + [b[0]], a, b[1..], q, w, all)
  {
    ghost var v, u := Whole(p, m, a, b, q), Whole(p, m + [b[0]], a, b[1..], q);
    TakeRight(p, m, a, b, q);
    WholeAt(p, m, a, b, q, 0);
    LinkInto(lPart, rPart, v, |p| + |m| + |a|, |p| + |m|, u, w);
    MergeRight(cmp, m, a, b);
  }

  /** The last node of the merge, when the left partition is exhausted. */
  method LastRight(rPart: Node, n: nat, cmp: Comparator, ghost p: seq<Node>, ghost m: seq<Node>, ghost b: seq<Node>,
                   ghost q: seq<Node>, ghost w: seq<Node>, ghost all: seq<Node>) returns (last: Node)
    requires Partly(cmp, p, m, [], b, q, w, all) && |b| == n + 1 && rPart == b[0]
    ensures Linked(p + all + q) && all != [] && last == all[|all| - 1]
  {
    EndLeft(cmp, p, m, b, q);
    WholeAt(p, m, [], b, q, 0);
    WholeAt(p, m, [], b, q, n);
    last := Advance(rPart, n, Whole(p, m, [], b, q), |p| + |m|);
  }

  /** The last node of the merge, when the right partition is exhausted. */
  method LastLeft(lPart: Node, n: nat, cmp: Comparator, ghost p: seq<Node>, ghost m: seq<Node>, ghost a: seq<Node>,
                  ghost q: seq<Node>, ghost w: seq<Node>, ghost all: seq<Node>) returns (last: Node)
    requires Partly(cmp, p, m, a, [], q, w, all) && |a| == n + 1 && lPart == a[0]
    ensures Linked(p + all + q) && all != [] && last == all[|all| - 1]
  {
    EndRight(cmp, p, m, a, q);
    WholeAt(p, m, a, [], q, 0);
    WholeAt(p, m, a, [], q, n);
    last := Advance(lPart, n, Whole(p, m, a, [], q), |p| + |m|);
  }

  /** Merges the partitions a, from left, and b, from right. */
  method MergeInPlace(left: Node, right: Node, lSize: nat, rSize: nat, cmp: Comparator,
                      ghost p: seq<Node>, ghost a0: seq<Node>, ghost b0: seq<Node>, ghost q: seq<Node>)
    returns (left': Node, right': Node)
    requires TotalPreorder(cmp) && Linked(Whole(p, [], a0, b0, q))
    requires 0 < lSize <= rSize && |a0| == lSize && |b0| == rSize && left == a0[0] && right == b0[0]
    modifies Whole(p, [], a0, b0, q)`next, Whole(p, [], a0, b0, q)`prev
    ensures Linked(p + Merge(cmp, a0, b0) + q)
    ensures |Merge(cmp, a0, b0)| > 0 && left' == Merge(cmp, a0, b0)[0]
      && right' == Merge(cmp, a0, b0)[|Merge(cmp, a0, b0)| - 1]
  {
    left', right' := left, right;
    var size := rSize + lSize;
    var l, r := 0, 0;
    var lPart, rPart := left, right;
    ghost var w, all := Whole(p, [], a0, b0, q), Merge(cmp, a0, b0);
    ghost var m, a, b := [], a0, b0;
    var i := 0;
    while i < size
      invariant i == l + r == |m| && l + |a| == lSize && r + |b| == rSize && b != []
      invariant Partly(cmp, p, m, a, b, q, w, all)
      invariant rPart == b[0] && lPart == if a != [] then a[0] else rPart
      invariant left' == (if i == 0 then left else m[0]) && (i == 0 ==> a == a0 && right' == b[0])
    {
      var c := cmp(lPart.data, rPart.data);
      Flip(cmp, rPart.data, rPart.data);
      if c < 0 || c == 0 {
        if i == 0 && size == 2 {
          TakeLeft(cmp, p, m, a, b, q);
          EndLeft(cmp, p, m + [a[0]], b, q);
          break;
        }
        if l == lSize {
          right' := LastRight(rPart, rSize - 1 - r, cmp, p, m, b, q, w, all);
          break;
        }
        NextOf(p, m, a, b, q);
        TakeLeft(cmp, p, m, a, b, q);
        lPart := lPart.next;
        l := l + 1;
        m, a := m + [a[0]], a[1..];
      } else {
        NextOf(p, m, a, b, q);
        var tmp := rPart.next;
        MoveRight(lPart, rPart, cmp, p, m, a, b, q, w, all);
        m, b := m + [b[0]], b[1..];
        if i == 0 && size == 2 {
          EndRight(cmp, p, m, a, q);
          right' := lPart;
          left' := rPart;
          break;
        }
        r := r + 1;
        if r == rSize {
          right' := LastLeft(lPart, lSize - 1 - l, cmp, p, m, a, q, w, all);
          break;
        }
        if i == 0 {
          left' := rPart;
        }
        rPart := tmp;
      }
      i := i + 1;
    }
  }

  // ---- The recursion around the merge ----

  lemma MergeSortMembers(cmp: Comparator, s: seq<Node>)
    requires TotalPreorder(cmp)
    ensures |MergeSort(cmp, s)| == |s| && forall n | n in MergeSort(cmp, s) :: n in s
  {
    MergeSortSorts(cmp, s);
    MergeSortLength(cmp, s);
    forall n | n in MergeSort(cmp, s)
      ensures n in s
    {
      assert n in multiset(MergeSort(cmp, s));
    }
  }

  lemma WithinParts(p: seq<Node>, m: seq<Node>, q: seq<Node>, w: seq<Node>)
    ensures Within(p + m + q, w) <==> Within(p, w) && Within(m, w) && Within(q, w)
  {
    var s := p + m + q;
    assert forall k | 0 <= k < |p| :: p[k] == s[k];
    assert forall k | 0 <= k < |m| :: m[k] == s[|p| + k];
    assert forall k | 0 <= k < |q| :: q[k] == s[|p| + |m| + k];
  }

  /** The chain around the left half a, around the right half b, and around both once they are sorted. */
  lemma Halves(cmp: Comparator, p: seq<Node>, a: seq<Node>, b: seq<Node>, q: seq<Node>)
    requires TotalPreorder(cmp)
    ensures var w, a', b' := p + (a + b) + q, MergeSort(cmp, a), MergeSort(cmp, b);
            && |a'| == |a| && |b'| == |b|
            && p + a + (b + q) == w && Within(w, w)
            && p + a' + (b + q) == p + a' + b + q && Within(p + a' + b + q, w)
            && Whole(p, [], a', b', q) == p + a' + b' + q && Within(Whole(p, [], a', b', q), w)
  {
    var w, a', b' := p + (a + b) + q, MergeSort(cmp, a), MergeSort(cmp, b);
    MergeSortMembers(cmp, a);
    MergeSortMembers(cmp, b);
    Regroup(p, a, b);
    Regroup(p + a, b, q);
    Regroup(p + a', b, q);
    assert p + [] == p;
    assert Within(w, w);
    WithinParts(p + a, b, q, w);
    WithinParts(p, a, [], w);
    WithinParts(p, a', [], w);
    WithinParts(p + a', b, q, w);
    WithinParts(p + a', b', q, w);
  }

  lemma Bare(s: seq<Node>)
    ensures [] + s + [] == s
  {
  }
}
