/** The map that a TreeTable stands for: a sequence of entries in strictly ascending key order,
    with the reference operations the table's code must agree with. */
module OrderedMap {
  import opened Common
  import opened RbTree

  datatype Entry = Entry(key: Key, value: Value)

  predicate Less(cmp: Comparator, a: Key, b: Key) {
    cmp(a, b) < 0
  }

  ghost predicate Ascending(cmp: Comparator, s: seq<Entry>) {
    forall i, j {:trigger Less(cmp, s[i].key, s[j].key)} | 0 <= i < j < |s| :: Less(cmp, s[i].key, s[j].key)
  }

  ghost predicate Sorted(cmp: Comparator, ns: seq<RBNode>) {
    forall i, j {:trigger Less(cmp, ns[i].key, ns[j].key)} | 0 <= i < j < |ns| :: Less(cmp, ns[i].key, ns[j].key)
  }

  function Lookup(cmp: Comparator, s: seq<Entry>, key: Key): Option<Value> {
    if s == [] then None
    else if cmp(key, s[0].key) == 0 then Some(s[0].value)
    else Lookup(cmp, s[1..], key)
  }

  /** The entry under key, if there is one, keeps its key and takes the value. */
  function Put(cmp: Comparator, s: seq<Entry>, key: Key, value: Value): seq<Entry> {
    if s == [] then [Entry(key, value)]
    else if cmp(key, s[0].key) < 0 then [Entry(key, value)] + s
    else if cmp(key, s[0].key) == 0 then [Entry(s[0].key, value)] + s[1..]
    else [s[0]] + Put(cmp, s[1..], key, value)
  }

  function Without(cmp: Comparator, s: seq<Entry>, key: Key): seq<Entry> {
    if s == [] then []
    else if cmp(key, s[0].key) == 0 then s[1..]
    else [s[0]] + Without(cmp, s[1..], key)
  }

  lemma {:induction false} LookupNone(cmp: Comparator, s: seq<Entry>, key: Key)
    ensures Lookup(cmp, s, key) == None <==> forall i | 0 <= i < |s| :: cmp(key, s[i].key) != 0
  {
    if s != [] {
      LookupNone(cmp, s[1..], key);
      assert forall i | 0 < i < |s| :: s[i] == s[1..][i - 1];
    }
  }

  lemma {:induction false} WithoutNone(cmp: Comparator, s: seq<Entry>, key: Key)
    requires Lookup(cmp, s, key) == None
    ensures Without(cmp, s, key) == s
  {
    if s != [] {
      WithoutNone(cmp, s[1..], key);
    }
  }

  lemma {:induction false} LookupAt(cmp: Comparator, s: seq<Entry>, key: Key, i: nat)
    requires TotalPreorder(cmp) && Ascending(cmp, s) && i < |s| && cmp(key, s[i].key) == 0
    ensures Lookup(cmp, s, key) == Some(s[i].value)
  {
    if i > 0 {
      assert Less(cmp, s[0].key, s[i].key);
      Flip(cmp, key, s[i].key);
      Below(cmp, s[0].key, s[i].key, key);
      LookupAt(cmp, s[1..], key, i - 1);
    }
  }

  // ---- The laws of a map ----

  lemma {:induction false} LookupPut(cmp: Comparator, s: seq<Entry>, key: Key, value: Value, k: Key)
    requires TotalPreorder(cmp) && Ascending(cmp, s)
    ensures Lookup(cmp, Put(cmp, s, key, value), k) == if cmp(k, key) == 0 then Some(value) else Lookup(cmp, s, k)
  {
    if s != [] {
      var c := cmp(key, s[0].key);
      SameOrder(cmp, k, key, s[0].key);
      SameOrder(cmp, key, s[0].key, k);
      Flip(cmp, k, s[0].key);
      Flip(cmp, k, key);
      if c < 0 {
        assert ([Entry(key, value)] + s)[1..] == s;
      } else if c == 0 {
        assert Put(cmp, s, key, value)[1..] == s[1..];
      } else {
        LookupPut(cmp, s[1..], key, value, k);
        assert Put(cmp, s, key, value)[1..] == Put(cmp, s[1..], key, value);
      }
    }
  }

  lemma {:induction false} LookupWithout(cmp: Comparator, s: seq<Entry>, key: Key, k: Key)
    requires TotalPreorder(cmp) && Ascending(cmp, s)
    ensures Lookup(cmp, Without(cmp, s, key), k) == if cmp(k, key) == 0 then None else Lookup(cmp, s, k)
  {
    if s != [] {
      SameOrder(cmp, k, key, s[0].key);
      SameOrder(cmp, key, s[0].key, k);
      Flip(cmp, k, s[0].key);
      Flip(cmp, k, key);
      if cmp(key, s[0].key) == 0 {
        if cmp(k, key) == 0 {
          forall i | 0 <= i < |s[1..]|
            ensures cmp(k, s[1..][i].key) != 0
          {
            assert Less(cmp, s[0].key, s[i + 1].key);
            Below(cmp, k, s[0].key, s[i + 1].key);
          }
          LookupNone(cmp, s[1..], k);
        }
      } else {
        LookupWithout(cmp, s[1..], key, k);
        assert Without(cmp, s, key)[1..] == Without(cmp, s[1..], key);
      }
    }
  }

  // ---- Where Put and Without change a sequence ----

  lemma {:induction false} PutBetween(cmp: Comparator, a: seq<Entry>, b: seq<Entry>, key: Key, value: Value)
    requires forall i | 0 <= i < |a| :: cmp(key, a[i].key) > 0
    requires b != [] ==> cmp(key, b[0].key) < 0
    ensures Put(cmp, a + b, key, value) == a + [Entry(key, value)] + b
  {
    if a == [] {
      assert a + b == b;
    } else {
      assert (a + b)[1..] == a[1..] + b;
      PutBetween(cmp, a[1..], b, key, value);
    }
  }

  lemma {:induction false} PutAt(cmp: Comparator, s: seq<Entry>, i: nat, key: Key, value: Value)
    requires i < |s| && cmp(key, s[i].key) == 0
    requires forall j | 0 <= j < i :: cmp(key, s[j].key) > 0
    ensures Put(cmp, s, key, value) == s[i := Entry(s[i].key, value)]
  {
    if i > 0 {
      PutAt(cmp, s[1..], i - 1, key, value);
    }
  }

  lemma {:induction false} WithoutAt(cmp: Comparator, s: seq<Entry>, i: nat, key: Key)
    requires i < |s| && cmp(key, s[i].key) == 0
    requires forall j | 0 <= j < i :: cmp(key, s[j].key) > 0
    ensures Without(cmp, s, key) == s[..i] + s[i + 1..]
  {
    if i > 0 {
      WithoutAt(cmp, s[1..], i - 1, key);
    }
  }

  /** Keys before the one that compares as 0 are lower, keys after it higher. */
  lemma Around(cmp: Comparator, s: seq<Entry>, i: nat, key: Key)
    requires TotalPreorder(cmp) && Ascending(cmp, s) && i < |s| && cmp(key, s[i].key) == 0
    ensures forall j | 0 <= j < i :: cmp(key, s[j].key) > 0
    ensures forall j | i < j < |s| :: cmp(key, s[j].key) < 0
  {
    forall j | 0 <= j < |s| && j != i
      ensures if j < i then cmp(key, s[j].key) > 0 else cmp(key, s[j].key) < 0
    {
      SameOrder(cmp, key, s[i].key, s[j].key);
      Flip(cmp, s[i].key, s[j].key);
      assert j < i ==> Less(cmp, s[j].key, s[i].key);
      assert i < j ==> Less(cmp, s[i].key, s[j].key);
    }
  }

  lemma SortedWithout(cmp: Comparator, ns: seq<RBNode>, i: nat)
    requires TotalPreorder(cmp) && Sorted(cmp, ns) && i < |ns|
    ensures var r := Dropped(ns, i);
            |r| == |ns| - 1 && Sorted(cmp, r) && ns[i] !in r && forall n | n in ns :: n == ns[i] || n in r
  {
    var r := ns[..i] + ns[i + 1..];
    forall n | n in ns && n != ns[i]
      ensures n in r
    {
      var j :| 0 <= j < |ns| && ns[j] == n;
      assert r[if j < i then j else j - 1] == n;
    }
    forall j | 0 <= j < |r|
      ensures r[j] == ns[if j < i then j else j + 1] && r[j] != ns[i]
    {
      if r[j] == ns[i] {
        SortedDistinct(cmp, ns, if j < i then j else j + 1, i);
      }
    }
  }

  // ---- Entries of a node sequence ----

  type Values = map<RBNode, Value>

  predicate Valued(vals: Values, ns: seq<RBNode>) {
    forall n | n in ns :: n in vals
  }

  /** The entries of the nodes ns, whose values are in vals. */
  function EntriesOf(vals: Values, ns: seq<RBNode>): (es: seq<Entry>)
    requires Valued(vals, ns)
    ensures |es| == |ns| && forall i | 0 <= i < |ns| :: es[i] == Entry(ns[i].key, vals[ns[i]])
  {
    seq(|ns|, i requires 0 <= i < |ns| => Entry(ns[i].key, vals[ns[i]]))
  }

  /** key lies above every node of a and below every node of b. */
  ghost predicate Between(cmp: Comparator, a: seq<RBNode>, key: Key, b: seq<RBNode>) {
    (forall n | n in a :: cmp(key, n.key) > 0) && (forall n | n in b :: cmp(key, n.key) < 0)
  }

  lemma SortedParts(cmp: Comparator, a: seq<RBNode>, b: seq<RBNode>, z: RBNode, c: seq<RBNode>, d: seq<RBNode>)
    requires Sorted(cmp, a + (b + [z] + c) + d)
    ensures forall n | n in b :: cmp(n.key, z.key) < 0
    ensures forall n | n in c :: cmp(z.key, n.key) < 0
  {
    var s := a + (b + [z] + c) + d;
    var k := |a| + |b|;
    assert s[k] == z;
    forall n | n in b
      ensures cmp(n.key, z.key) < 0
    {
      var j :| 0 <= j < |b| && b[j] == n;
      assert s[|a| + j] == n;
      assert Less(cmp, s[|a| + j].key, s[k].key);
    }
    forall n | n in c
      ensures cmp(z.key, n.key) < 0
    {
      var j :| 0 <= j < |c| && c[j] == n;
      assert s[k + 1 + j] == n;
      assert Less(cmp, s[k].key, s[k + 1 + j].key);
    }
  }

  lemma SearchLeft(cmp: Comparator, key: Key, t: Tree, path: Path)
    requires TotalPreorder(cmp) && Sorted(cmp, InOrder(Plug(t, path))) && t.Node? && cmp(key, t.n.key) < 0
    requires Between(cmp, Before(path), key, After(path))
    ensures var p := Step(Left, t.color, t.n, t.right, path); Between(cmp, Before(p), key, After(p))
  {
    PlugInOrder(t, path);
    SortedParts(cmp, Before(path), InOrder(t.left), t.n, InOrder(t.right), After(path));
    forall n | n in InOrder(t.right)
      ensures cmp(key, n.key) < 0
    {
      Below(cmp, key, t.n.key, n.key);
    }
  }

  lemma SearchRight(cmp: Comparator, key: Key, t: Tree, path: Path)
    requires TotalPreorder(cmp) && Sorted(cmp, InOrder(Plug(t, path))) && t.Node? && cmp(key, t.n.key) > 0
    requires Between(cmp, Before(path), key, After(path))
    ensures var p := Step(Right, t.color, t.n, t.left, path); Between(cmp, Before(p), key, After(p))
  {
    PlugInOrder(t, path);
    SortedParts(cmp, Before(path), InOrder(t.left), t.n, InOrder(t.right), After(path));
    forall n | n in InOrder(t.left)
      ensures cmp(key, n.key) > 0
    {
      Flip(cmp, key, t.n.key);
      Below(cmp, n.key, t.n.key, key);
    }
  }

  /** A search that ends at a leaf: key stands between two neighbouring entries. */
  lemma NotFound(cmp: Comparator, key: Key, es: seq<Entry>, a: seq<RBNode>, b: seq<RBNode>)
    requires Between(cmp, a, key, b) && |es| == |a + b| && forall i | 0 <= i < |es| :: es[i].key == (a + b)[i].key
    ensures Lookup(cmp, es, key) == None
  {
    forall i | 0 <= i < |es|
      ensures cmp(key, es[i].key) != 0
    {
      assert (a + b)[i] in a || (a + b)[i] in b;
    }
    LookupNone(cmp, es, key);
  }

  lemma Found(cmp: Comparator, key: Key, vals: Values, ns: seq<RBNode>, n: RBNode)
    requires TotalPreorder(cmp) && Sorted(cmp, ns) && n in ns && cmp(key, n.key) == 0 && Valued(vals, ns)
    ensures Lookup(cmp, EntriesOf(vals, ns), key) == Some(vals[n])
  {
    var i :| 0 <= i < |ns| && ns[i] == n;
    LookupAt(cmp, EntriesOf(vals, ns), key, i);
  }

  lemma SortedDistinct(cmp: Comparator, ns: seq<RBNode>, i: nat, j: nat)
    requires TotalPreorder(cmp) && Sorted(cmp, ns) && i < |ns| && j < |ns| && ns[i] == ns[j]
    ensures i == j
  {
    Flip(cmp, ns[i].key, ns[i].key);
    assert i < j ==> Less(cmp, ns[i].key, ns[j].key);
    assert j < i ==> Less(cmp, ns[j].key, ns[i].key);
  }

  /** Overwriting the value of the node under key. */
  lemma PutExisting(cmp: Comparator, vals: Values, ns: seq<RBNode>, n: RBNode, key: Key, value: Value)
    requires TotalPreorder(cmp) && Sorted(cmp, ns) && n in ns && cmp(key, n.key) == 0 && Valued(vals, ns)
    ensures EntriesOf(vals[n := value], ns) == Put(cmp, EntriesOf(vals, ns), key, value)
  {
    var es := EntriesOf(vals, ns);
    var k :| 0 <= k < |ns| && ns[k] == n;
    assert EntriesOf(vals[n := value], ns) == es[k := Entry(n.key, value)] by {
      forall i | 0 <= i < |ns| && ns[i] == n
        ensures i == k
      {
        SortedDistinct(cmp, ns, i, k);
      }
    }
    Around(cmp, es, k, key);
    PutAt(cmp, es, k, key, value);
  }

  /** Putting the new node n between a and b. */
  lemma PutNew(cmp: Comparator, vals: Values, a: seq<RBNode>, n: RBNode, b: seq<RBNode>, value: Value)
    requires Between(cmp, a, n.key, b) && Valued(vals, a + b) && n !in a + b
    ensures EntriesOf(vals[n := value], a + [n] + b) == Put(cmp, EntriesOf(vals, a + b), n.key, value)
  {
    assert Valued(vals, a) && Valued(vals, b);
    var ea, eb := EntriesOf(vals, a), EntriesOf(vals, b);
    assert EntriesOf(vals, a + b) == ea + eb;
    EntriesNew(vals, a, n, b, value);
    PutBetweenNodes(cmp, a, b, n.key, value, ea, eb);
  }

  lemma EntriesNew(vals: Values, a: seq<RBNode>, n: RBNode, b: seq<RBNode>, value: Value)
    requires Valued(vals, a) && Valued(vals, b) && n !in a && n !in b
    ensures EntriesOf(vals[n := value], a + [n] + b) == EntriesOf(vals, a) + [Entry(n.key, value)] + EntriesOf(vals, b)
  {
  }

  lemma PutBetweenNodes(cmp: Comparator, a: seq<RBNode>, b: seq<RBNode>, key: Key, value: Value, ea: seq<Entry>,
                        eb: seq<Entry>)
    requires Between(cmp, a, key, b)
    requires |ea| == |a| && forall i | 0 <= i < |a| :: ea[i].key == a[i].key
    requires |eb| == |b| && forall i | 0 <= i < |b| :: eb[i].key == b[i].key
    ensures Put(cmp, ea + eb, key, value) == ea + [Entry(key, value)] + eb
  {
    forall i | 0 <= i < |ea|
      ensures cmp(key, ea[i].key) > 0
    {
      assert a[i] in a;
    }
    if b != [] {
      assert b[0] in b;
    }
    PutBetween(cmp, ea, eb, key, value);
  }

  /** Taking out node i. */
  lemma WithoutNode(cmp: Comparator, vals: Values, ns: seq<RBNode>, i: nat, key: Key)
    requires TotalPreorder(cmp) && Sorted(cmp, ns) && i < |ns| && cmp(key, ns[i].key) == 0 && Valued(vals, ns)
    ensures Valued(vals, Dropped(ns, i))
    ensures EntriesOf(vals, Dropped(ns, i)) == Without(cmp, EntriesOf(vals, ns), key)
  {
    var es := EntriesOf(vals, ns);
    Around(cmp, es, i, key);
    WithoutAt(cmp, es, i, key);
    assert EntriesOf(vals, Dropped(ns, i)) == es[..i] + es[i + 1..];
  }

  lemma SortedInsert(cmp: Comparator, a: seq<RBNode>, n: RBNode, b: seq<RBNode>)
    requires TotalPreorder(cmp) && Sorted(cmp, a + b) && Between(cmp, a, n.key, b)
    ensures Sorted(cmp, a + [n] + b)
    ensures forall k | k in a + b :: k in a + [n] + b
    ensures forall k | k in a + [n] + b :: k == n || k in a + b
  {
    var s, r := a + b, a + [n] + b;
    assert forall i | 0 <= i < |r| && i != |a| :: r[i] == s[if i < |a| then i else i - 1];
    forall i | 0 <= i < |r|
      ensures i < |a| ==> cmp(r[i].key, n.key) < 0
      ensures i > |a| ==> cmp(n.key, r[i].key) < 0
    {
      Flip(cmp, r[i].key, n.key);
      if i < |a| {
        assert r[i] in a;
      } else if i > |a| {
        assert r[i] == b[i - |a| - 1];
      }
    }
  }

  /** Every node of t compares rightly with its own children. */
  predicate ChildrenOrdered(cmp: Comparator, t: Tree) {
    t.Node? ==>
      && (t.left.Node? ==> cmp(t.left.n.key, t.n.key) < 0)
      && (t.right.Node? ==> cmp(t.right.n.key, t.n.key) > 0)
      && ChildrenOrdered(cmp, t.left) && ChildrenOrdered(cmp, t.right)
  }

  lemma {:induction false} SortedChildren(cmp: Comparator, t: Tree)
    requires TotalPreorder(cmp) && Sorted(cmp, InOrder(t))
    ensures ChildrenOrdered(cmp, t)
  {
    if t.Node? {
      var l, r := InOrder(t.left), InOrder(t.right);
      assert [] + (l + [t.n] + r) + [] == InOrder(t);
      SortedParts(cmp, [], l, t.n, r, []);
      SortedSlices(cmp, l, t.n, r);
      SortedChildren(cmp, t.left);
      SortedChildren(cmp, t.right);
      if t.left.Node? {
        OccIn(t.left);
      }
      if t.right.Node? {
        OccIn(t.right);
        Flip(cmp, t.n.key, t.right.n.key);
      }
    }
  }

  lemma OccIn(t: Tree)
    requires t.Node?
    ensures t.n in InOrder(t)
  {
  }

  lemma SortedSlices(cmp: Comparator, a: seq<RBNode>, z: RBNode, b: seq<RBNode>)
    requires Sorted(cmp, a + [z] + b)
    ensures Sorted(cmp, a) && Sorted(cmp, b)
  {
    var s := a + [z] + b;
    forall i, j | 0 <= i < j < |a|
      ensures Less(cmp, a[i].key, a[j].key)
    {
      assert Less(cmp, s[i].key, s[j].key);
    }
    forall i, j | 0 <= i < j < |b|
      ensures Less(cmp, b[i].key, b[j].key)
    {
      assert s[|a| + 1 + i] == b[i] && s[|a| + 1 + j] == b[j];
      assert Less(cmp, s[|a| + 1 + i].key, s[|a| + 1 + j].key);
    }
  }

  /** The nodes behind node i are greater than every key that is equal to its own. */
  lemma NextGreater(cmp: Comparator, key: Key, ns: seq<RBNode>, i: nat)
    requires TotalPreorder(cmp) && Sorted(cmp, ns) && i < |ns| && cmp(key, ns[i].key) == 0
    ensures i + 1 < |ns| ==> cmp(key, ns[i + 1].key) < 0
    ensures forall j {:trigger ns[j]} | i + 1 < j < |ns| :: cmp(ns[i + 1].key, ns[j].key) < 0
  {
    if i + 1 < |ns| {
      assert Less(cmp, ns[i].key, ns[i + 1].key);
      SameOrder(cmp, key, ns[i].key, ns[i + 1].key);
    }
    forall j | i + 1 < j < |ns|
      ensures cmp(ns[i + 1].key, ns[j].key) < 0
    {
      assert Less(cmp, ns[i + 1].key, ns[j].key);
    }
  }

  /** Dropping node i drops entry i. */
  lemma EntriesDropped(vals: Values, ns: seq<RBNode>, i: nat)
    requires i < |ns| && Valued(vals, ns)
    ensures Valued(vals, Dropped(ns, i))
    ensures EntriesOf(vals, Dropped(ns, i)) == EntriesOf(vals, ns)[..i] + EntriesOf(vals, ns)[i + 1..]
  {
    var es, ds := EntriesOf(vals, ns), EntriesOf(vals, Dropped(ns, i));
    assert forall k | 0 <= k < |ds| :: ds[k] == if k < i then es[k] else es[k + 1];
  }
}
