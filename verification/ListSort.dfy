/** Stable merge sort on sequences of nodes, and what makes its result the sorted sequence. */
module ListSort {
  import opened Common
  import opened ListNodes

  predicate AtMost(cmp: Comparator, a: Element, b: Element) {
    cmp(a, b) <= 0
  }

  ghost predicate InOrder(cmp: Comparator, s: seq<Node>) {
    forall i, j {:trigger AtMost(cmp, s[i].data, s[j].data)} | 0 <= i < j < |s| :: AtMost(cmp, s[i].data, s[j].data)
  }

  /** The nodes of s whose elements compare as equal to x, in their order. */
  function Equals(cmp: Comparator, s: seq<Node>, x: Element): seq<Node> {
    if s == [] then []
    else if cmp(x, s[0].data) == 0 then [s[0]] + Equals(cmp, s[1..], x)
    else Equals(cmp, s[1..], x)
  }

  predicate SameEquals(cmp: Comparator, s: seq<Node>, t: seq<Node>, x: Element) {
    Equals(cmp, s, x) == Equals(cmp, t, x)
  }

  /** t is s sorted: in order, the same nodes, and equal elements in the order they had in s. */
  ghost predicate StableSort(cmp: Comparator, s: seq<Node>, t: seq<Node>) {
    && InOrder(cmp, t)
    && multiset(t) == multiset(s)
    && forall x {:trigger SameEquals(cmp, s, t, x)} :: SameEquals(cmp, s, t, x)
  }

  function Merge(cmp: Comparator, a: seq<Node>, b: seq<Node>): seq<Node>
    decreases |a| + |b|
  {
    if a == [] then b
    else if b == [] then a
    else if cmp(a[0].data, b[0].data) <= 0 then [a[0]] + Merge(cmp, a[1..], b)
    else [b[0]] + Merge(cmp, a, b[1..])
  }

  function MergeSort(cmp: Comparator, s: seq<Node>): seq<Node>
    decreases |s|
  {
    if |s| < 2 then s
    else Merge(cmp, MergeSort(cmp, s[..|s| / 2]), MergeSort(cmp, s[|s| / 2..]))
  }

  lemma Halves(cmp: Comparator, s: seq<Node>) returns (x: seq<Node>, y: seq<Node>)
    requires |s| >= 2
    ensures s == x + y && |x| == |s| / 2 && |y| == |s| / 2 + |s| % 2
    ensures MergeSort(cmp, s) == Merge(cmp, MergeSort(cmp, x), MergeSort(cmp, y))
  {
    x, y := s[..|s| / 2], s[|s| / 2..];
  }

  lemma {:induction false} EqualsAppend(cmp: Comparator, a: seq<Node>, b: seq<Node>, x: Element)
    ensures Equals(cmp, a + b, x) == Equals(cmp, a, x) + Equals(cmp, b, x)
  {
    if a == [] {
      assert a + b == b;
    } else {
      assert (a + b)[1..] == a[1..] + b;
      EqualsAppend(cmp, a[1..], b, x);
    }
  }

  lemma {:induction false} EqualsNone(cmp: Comparator, s: seq<Node>, x: Element)
    requires forall i | 0 <= i < |s| :: cmp(x, s[i].data) != 0
    ensures Equals(cmp, s, x) == []
  {
    if s != [] {
      EqualsNone(cmp, s[1..], x);
    }
  }

  lemma InOrderTail(cmp: Comparator, s: seq<Node>)
    requires InOrder(cmp, s) && s != []
    ensures InOrder(cmp, s[1..])
  {
    var t := s[1..];
    forall i, j | 0 <= i < j < |t|
      ensures AtMost(cmp, t[i].data, t[j].data)
    {
      assert AtMost(cmp, s[i + 1].data, s[j + 1].data);
    }
  }

  /** Whatever is equal to x goes into a merge from a first. */
  lemma {:induction false} MergeEquals(cmp: Comparator, a: seq<Node>, b: seq<Node>, x: Element)
    requires TotalPreorder(cmp) && InOrder(cmp, a) && InOrder(cmp, b)
    ensures Equals(cmp, Merge(cmp, a, b), x) == Equals(cmp, a, x) + Equals(cmp, b, x)
    decreases |a| + |b|
  {
    if a != [] && b != [] {
      if cmp(a[0].data, b[0].data) <= 0 {
        InOrderTail(cmp, a);
        MergeEquals(cmp, a[1..], b, x);
      } else {
        InOrderTail(cmp, b);
        MergeEquals(cmp, a, b[1..], x);
        if cmp(x, b[0].data) == 0 {
          NoneBelow(cmp, a, b[0].data, x);
        }
      }
    }
  }

  /** Nothing in a is equal to what goes strictly before its first element. */
  lemma NoneBelow(cmp: Comparator, a: seq<Node>, y: Element, x: Element)
    requires TotalPreorder(cmp) && InOrder(cmp, a) && a != [] && cmp(a[0].data, y) > 0 && cmp(x, y) == 0
    ensures Equals(cmp, a, x) == []
  {
    forall i | 0 <= i < |a|
      ensures cmp(x, a[i].data) != 0
    {
      Flip(cmp, a[0].data, y);
      if i > 0 {
        assert AtMost(cmp, a[0].data, a[i].data);
        Below(cmp, y, a[0].data, a[i].data);
      }
      SameOrder(cmp, x, y, a[i].data);
    }
    EqualsNone(cmp, a, x);
  }

  lemma ConsMembers(s: seq<Node>)
    requires s != []
    ensures multiset(s) == multiset([s[0]]) + multiset(s[1..])
  {
    assert s == [s[0]] + s[1..];
  }

  lemma {:induction false} MergeMembers(cmp: Comparator, a: seq<Node>, b: seq<Node>)
    ensures multiset(Merge(cmp, a, b)) == multiset(a) + multiset(b)
    decreases |a| + |b|
  {
    if a != [] && b != [] {
      if cmp(a[0].data, b[0].data) <= 0 {
        MergeMembers(cmp, a[1..], b);
        ConsMembers(a);
        assert multiset(Merge(cmp, a, b)) == multiset([a[0]]) + multiset(Merge(cmp, a[1..], b));
      } else {
        MergeMembers(cmp, a, b[1..]);
        ConsMembers(b);
        assert multiset(Merge(cmp, a, b)) == multiset([b[0]]) + multiset(Merge(cmp, a, b[1..]));
      }
    }
  }

  /** Everything in s is at least x. */
  ghost predicate Above(cmp: Comparator, x: Element, s: seq<Node>) {
    forall n {:trigger n in s} | n in s :: cmp(x, n.data) <= 0
  }

  lemma InOrderCons(cmp: Comparator, n: Node, s: seq<Node>)
    ensures InOrder(cmp, [n] + s) <==> Above(cmp, n.data, s) && InOrder(cmp, s)
  {
    var t := [n] + s;
    if InOrder(cmp, t) {
      assert t[1..] == s;
      InOrderTail(cmp, t);
      forall m | m in s
        ensures cmp(n.data, m.data) <= 0
      {
        var i :| 0 <= i < |s| && s[i] == m;
        assert AtMost(cmp, t[0].data, t[i + 1].data);
      }
    }
    if Above(cmp, n.data, s) && InOrder(cmp, s) {
      forall i, j | 0 <= i < j < |t|
        ensures AtMost(cmp, t[i].data, t[j].data)
      {
        if i > 0 {
          assert AtMost(cmp, s[i - 1].data, s[j - 1].data);
        } else {
          assert t[j] == s[j - 1] && s[j - 1] in s;
        }
      }
    }
  }

  lemma MergeAbove(cmp: Comparator, x: Element, a: seq<Node>, b: seq<Node>)
    requires Above(cmp, x, a) && Above(cmp, x, b)
    ensures Above(cmp, x, Merge(cmp, a, b))
  {
    MergeMembers(cmp, a, b);
    forall n | n in Merge(cmp, a, b)
      ensures n in a || n in b
    {
      assert n in multiset(Merge(cmp, a, b));
    }
  }

  lemma AboveAll(cmp: Comparator, x: Element, n: Node, s: seq<Node>)
    requires TotalPreorder(cmp) && cmp(x, n.data) <= 0 && Above(cmp, n.data, s)
    ensures Above(cmp, x, [n] + s)
  {
    forall m | m in s
      ensures cmp(x, m.data) <= 0
    {
      assert Law(cmp, x, n.data, m.data);
    }
  }

  lemma {:induction false} MergeInOrder(cmp: Comparator, a: seq<Node>, b: seq<Node>)
    requires TotalPreorder(cmp) && InOrder(cmp, a) && InOrder(cmp, b)
    ensures InOrder(cmp, Merge(cmp, a, b))
    decreases |a| + |b|
  {
    if a != [] && b != [] {
      assert a == [a[0]] + a[1..] && b == [b[0]] + b[1..];
      InOrderCons(cmp, a[0], a[1..]);
      InOrderCons(cmp, b[0], b[1..]);
      if cmp(a[0].data, b[0].data) <= 0 {
        MergeInOrder(cmp, a[1..], b);
        AboveAll(cmp, a[0].data, b[0], b[1..]);
        MergeAbove(cmp, a[0].data, a[1..], b);
        InOrderCons(cmp, a[0], Merge(cmp, a[1..], b));
      } else {
        Flip(cmp, a[0].data, b[0].data);
        MergeInOrder(cmp, a, b[1..]);
        AboveAll(cmp, b[0].data, a[0], a[1..]);
        MergeAbove(cmp, b[0].data, a, b[1..]);
        InOrderCons(cmp, b[0], Merge(cmp, a, b[1..]));
      }
    }
  }

  /** Merge sort sorts, for every total preorder. */
  lemma {:induction false} MergeSortSorts(cmp: Comparator, s: seq<Node>)
    requires TotalPreorder(cmp)
    ensures StableSort(cmp, s, MergeSort(cmp, s))
    decreases |s|
  {
    if |s| >= 2 {
      var a, b := s[..|s| / 2], s[|s| / 2..];
      assert s == a + b;
      MergeSortSorts(cmp, a);
      MergeSortSorts(cmp, b);
      var a', b' := MergeSort(cmp, a), MergeSort(cmp, b);
      MergeInOrder(cmp, a', b');
      MergeMembers(cmp, a', b');
      forall x
        ensures SameEquals(cmp, s, MergeSort(cmp, s), x)
      {
        MergeEquals(cmp, a', b', x);
        EqualsAppend(cmp, a, b, x);
        assert SameEquals(cmp, a, a', x) && SameEquals(cmp, b, b', x);
      }
    }
  }

  /** There is only one way to sort: two sorted sequences with the same equal elements in the same order agree. */
  lemma {:induction false} SortUnique(cmp: Comparator, s: seq<Node>, t: seq<Node>)
    requires TotalPreorder(cmp) && InOrder(cmp, s) && InOrder(cmp, t)
    requires forall x {:trigger SameEquals(cmp, s, t, x)} :: SameEquals(cmp, s, t, x)
    ensures s == t
    decreases |s|
  {
    if s == [] {
      if t != [] {
        assert SameEquals(cmp, s, t, t[0].data);
        Flip(cmp, t[0].data, t[0].data);
      }
    } else {
      SortedHeads(cmp, s, t);
      assert s == [s[0]] + s[1..] && t == [t[0]] + t[1..];
      InOrderTail(cmp, s);
      InOrderTail(cmp, t);
      forall x
        ensures SameEquals(cmp, s[1..], t[1..], x)
      {
        assert SameEquals(cmp, s, t, x);
        var a, b := Equals(cmp, s[1..], x), Equals(cmp, t[1..], x);
        assert ([s[0]] + a)[1..] == a && ([t[0]] + b)[1..] == b;
      }
      SortUnique(cmp, s[1..], t[1..]);
    }
  }

  lemma SortedHeads(cmp: Comparator, s: seq<Node>, t: seq<Node>)
    requires TotalPreorder(cmp) && InOrder(cmp, s) && InOrder(cmp, t) && s != []
    requires forall x {:trigger SameEquals(cmp, s, t, x)} :: SameEquals(cmp, s, t, x)
    ensures t != [] && s[0] == t[0]
  {
    var x := s[0].data;
    Flip(cmp, x, x);
    assert SameEquals(cmp, s, t, x);
    HeadFirst(cmp, t, x);
    var y := t[0].data;
    assert SameEquals(cmp, s, t, y);
    Flip(cmp, y, y);
    HeadFirst(cmp, s, y);
    Flip(cmp, x, y);
    assert Equals(cmp, s, x)[0] == s[0] && Equals(cmp, t, x)[0] == t[0];
  }

  /** The first element equal to x, of a sequence that has one, is not below the first element of all. */
  lemma {:induction false} HeadFirst(cmp: Comparator, t: seq<Node>, x: Element)
    requires TotalPreorder(cmp) && InOrder(cmp, t) && Equals(cmp, t, x) != []
    ensures t != [] && cmp(t[0].data, x) <= 0
  {
    if cmp(t[0].data, x) > 0 {
      Flip(cmp, x, x);
      NoneBelow(cmp, t, x, x);
    }
  }

  // ---- What a stable sorting is, element by element ----

  /** Two equal elements of s appear among the equal ones in their order. */
  lemma {:induction false} EqualsOrder(cmp: Comparator, s: seq<Node>, x: Element, i: nat, j: nat)
    returns (p: nat, q: nat)
    requires i < j < |s| && cmp(x, s[i].data) == 0 && cmp(x, s[j].data) == 0
    ensures p < q < |Equals(cmp, s, x)| && Equals(cmp, s, x)[p] == s[i] && Equals(cmp, s, x)[q] == s[j]
  {
    if i > 0 {
      p, q := EqualsOrder(cmp, s[1..], x, i - 1, j - 1);
      if cmp(x, s[0].data) == 0 {
        p, q := p + 1, q + 1;
      }
    } else {
      p := 0;
      q := EqualsHas(cmp, s[1..], x, j - 1);
      q := q + 1;
    }
  }

  lemma {:induction false} EqualsHas(cmp: Comparator, s: seq<Node>, x: Element, j: nat) returns (q: nat)
    requires j < |s| && cmp(x, s[j].data) == 0
    ensures q < |Equals(cmp, s, x)| && Equals(cmp, s, x)[q] == s[j]
  {
    if j == 0 {
      q := 0;
    } else {
      q := EqualsHas(cmp, s[1..], x, j - 1);
      if cmp(x, s[0].data) == 0 {
        q := q + 1;
      }
    }
  }

  lemma {:induction false} EqualsFrom(cmp: Comparator, s: seq<Node>, x: Element, n: Node)
    requires n in Equals(cmp, s, x)
    ensures n in s
  {
    if s[0] != n {
      EqualsFrom(cmp, s[1..], x, n);
    }
  }

  lemma {:induction false} EqualsDistinct(cmp: Comparator, s: seq<Node>, x: Element, p: nat, q: nat)
    requires Distinct(s) && p < q < |Equals(cmp, s, x)|
    ensures Equals(cmp, s, x)[p] != Equals(cmp, s, x)[q]
  {
    var r := s[1..];
    forall k, l | 0 <= k < |r| && 0 <= l < |r|
      ensures Apart(r, k, l)
    {
      assert Apart(s, k + 1, l + 1);
    }
    if cmp(x, s[0].data) != 0 {
      EqualsDistinct(cmp, r, x, p, q);
    } else if p > 0 {
      EqualsDistinct(cmp, r, x, p - 1, q - 1);
    } else {
      EqualsFrom(cmp, r, x, Equals(cmp, r, x)[q - 1]);
      var l :| 0 <= l < |r| && r[l] == Equals(cmp, r, x)[q - 1];
      assert Apart(s, 0, l + 1);
    }
  }

  /** Equal elements of s, at i and j, are in the sorting t at a and b, in the same order. */
  lemma Stable(cmp: Comparator, s: seq<Node>, t: seq<Node>, i: nat, j: nat, a: nat, b: nat)
    requires TotalPreorder(cmp) && Distinct(t) && StableSort(cmp, s, t)
    requires i < j < |s| && a < |t| && b < |t| && t[a] == s[i] && t[b] == s[j] && cmp(s[i].data, s[j].data) == 0
    requires s[i] != s[j]
    ensures a < b
  {
    var x := s[i].data;
    Flip(cmp, x, x);
    assert SameEquals(cmp, s, t, x);
    var p, q := EqualsOrder(cmp, s, x, i, j);
    if b < a {
      var q', p' := EqualsOrder(cmp, t, x, b, a);
      Twice(cmp, t, x, p, p');
      Twice(cmp, t, x, q, q');
    }
  }

  lemma Twice(cmp: Comparator, t: seq<Node>, x: Element, p: nat, q: nat)
    requires Distinct(t) && p < |Equals(cmp, t, x)| && q < |Equals(cmp, t, x)|
    requires Equals(cmp, t, x)[p] == Equals(cmp, t, x)[q]
    ensures p == q
  {
    if p < q {
      EqualsDistinct(cmp, t, x, p, q);
    } else if q < p {
      EqualsDistinct(cmp, t, x, q, p);
    }
  }

  /** The sorting is in order, has the same nodes, and equal elements keep their order. */
  lemma StableSortMeans(cmp: Comparator, s: seq<Node>, t: seq<Node>)
    requires TotalPreorder(cmp) && Distinct(s) && Distinct(t) && StableSort(cmp, s, t)
    ensures |t| == |s| && multiset(t) == multiset(s)
    ensures forall i, j | 0 <= i < j < |t| :: cmp(t[i].data, t[j].data) <= 0
    ensures forall i, j, a, b | 0 <= i < j < |s| && 0 <= a < |t| && 0 <= b < |t|
                                && t[a] == s[i] && t[b] == s[j] && cmp(s[i].data, s[j].data) == 0 :: a < b
  {
    assert |multiset(t)| == |t| && |multiset(s)| == |s|;
    forall i, j | 0 <= i < j < |t|
      ensures cmp(t[i].data, t[j].data) <= 0
    {
      assert AtMost(cmp, t[i].data, t[j].data);
    }
    forall i, j, a, b | 0 <= i < j < |s| && 0 <= a < |t| && 0 <= b < |t|
                        && t[a] == s[i] && t[b] == s[j] && cmp(s[i].data, s[j].data) == 0
      ensures a < b
    {
      assert Apart(s, i, j);
      Stable(cmp, s, t, i, j, a, b);
    }
  }
}
