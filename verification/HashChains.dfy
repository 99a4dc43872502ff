/** The buckets of a hash table: chains of entries, each entry in the bucket of its hash. */
module HashChains {
  import opened Bits
  import opened Common
  import opened KeyMaps

  /** An entry keeps its key and its hash for life. */
  class TableEntry {
    const key: Slot
    const hash: nat
    var value: Value
    var next: TableEntry?

    constructor (key: Slot, value: Value, hash: nat)
      ensures this.key == key && this.value == value && this.hash == hash && next == null
    {
      this.key := key;
      this.hash := hash;
      this.value := value;
      next := null;
    }
  }

  /** The entry that stores each key. */
  type Index = map<Slot, TableEntry>

  predicate In(at: Index, e: TableEntry) {
    e.key in at && at[e.key] == e
  }

  function At(c: seq<TableEntry>, k: int): TableEntry? {
    if 0 <= k < |c| then c[k] else null
  }

  predicate Apart(c: seq<TableEntry>, p: int, q: int) {
    0 <= p < |c| && p != q ==> At(c, p) != At(c, q)
  }

  ghost predicate Distinct(c: seq<TableEntry>) {
    forall p, q {:trigger Apart(c, p, q)} | 0 <= p < |c| && 0 <= q < |c| :: Apart(c, p, q)
  }

  /** The bucket of a hash in a table of 2^x buckets. */
  function Home(hash: nat, x: nat): (i: nat)
    ensures i < Pow2(x)
  {
    AndMask(hash, x);
    And(hash, Pow2(x) - 1)
  }

  predicate AtHome(c: seq<TableEntry>, at: Index, x: nat, j: nat, p: int) {
    0 <= p < |c| ==> In(at, c[p]) && Home(c[p].hash, x) == j
  }

  /** The entries of c belong into bucket j. */
  ghost predicate Belongs(c: seq<TableEntry>, at: Index, x: nat, j: nat) {
    Distinct(c) && forall p {:trigger AtHome(c, at, x, j, p)} | 0 <= p < |c| :: AtHome(c, at, x, j, p)
  }

  ghost predicate Hooked(c: seq<TableEntry>, p: int)
    reads c`next
  {
    0 <= p < |c| ==> c[p].next == At(c, p + 1)
  }

  /** The links lead from head through c to NULL. */
  ghost predicate Chain(c: seq<TableEntry>, head: TableEntry?)
    reads c`next
  {
    head == At(c, 0) && forall p {:trigger Hooked(c, p)} | 0 <= p < |c| :: Hooked(c, p)
  }

  ghost predicate Bucket(heads: seq<TableEntry?>, chains: seq<seq<TableEntry>>, at: Index, x: nat, j: int)
    reads at.Values`next
  {
    0 <= j < |chains| && j < |heads| ==>
      Belongs(chains[j], at, x, j) && (Within(chains[j], at, x, j); Chain(chains[j], heads[j]))
  }

  lemma Within(c: seq<TableEntry>, at: Index, x: nat, j: nat)
    requires Belongs(c, at, x, j)
    ensures forall p | 0 <= p < |c| :: c[p] in at.Values
  {
    forall p | 0 <= p < |c|
      ensures c[p] in at.Values
    {
      assert AtHome(c, at, x, j, p);
    }
  }

  /** The entry of key k is in its bucket. */
  ghost predicate Filed(chains: seq<seq<TableEntry>>, at: Index, x: nat, k: Slot)
    requires |chains| == Pow2(x)
  {
    k in at ==> at[k].key == k && at[k] in chains[Home(at[k].hash, x)]
  }

  /** 2^x buckets, starting at heads, hold exactly the entries of at. */
  ghost predicate Holds(heads: seq<TableEntry?>, chains: seq<seq<TableEntry>>, at: Index, x: nat)
    reads at.Values`next
  {
    && |heads| == |chains| == Pow2(x)
    && (forall j {:trigger Bucket(heads, chains, at, x, j)} | 0 <= j < |chains| :: Bucket(heads, chains, at, x, j))
    && (forall k {:trigger Filed(chains, at, x, k)} | k in at :: Filed(chains, at, x, k))
  }

  // ---- An entry enters a bucket at its front ----

  lemma Outside(heads: seq<TableEntry?>, chains: seq<seq<TableEntry>>, at: Index, x: nat, e: TableEntry)
    requires Holds(heads, chains, at, x) && !In(at, e)
    ensures e !in at.Values
  {
    forall k | k in at
      ensures at[k] != e
    {
      assert Filed(chains, at, x, k);
    }
  }

  lemma PushBelongs(c: seq<TableEntry>, at: Index, x: nat, e: TableEntry)
    requires Belongs(c, at, x, Home(e.hash, x)) && e.key !in at
    ensures Belongs([e] + c, at[e.key := e], x, Home(e.hash, x))
  {
    var c', at', j := [e] + c, at[e.key := e], Home(e.hash, x);
    forall p | 0 <= p < |c'|
      ensures AtHome(c', at', x, j, p)
    {
      assert AtHome(c, at, x, j, p - 1);
    }
    forall p, q | 0 <= p < |c'| && 0 <= q < |c'|
      ensures Apart(c', p, q)
    {
      assert Apart(c, p - 1, q - 1) && AtHome(c, at, x, j, p - 1) && AtHome(c, at, x, j, q - 1);
    }
  }

  lemma StillBelongs(c: seq<TableEntry>, at: Index, at': Index, x: nat, j: nat)
    requires Belongs(c, at, x, j) && forall p | 0 <= p < |c| :: In(at, c[p]) ==> In(at', c[p])
    ensures Belongs(c, at', x, j)
  {
    forall p | 0 <= p < |c|
      ensures AtHome(c, at', x, j, p)
    {
      assert AtHome(c, at, x, j, p);
    }
  }

  lemma PushHolds(heads: seq<TableEntry?>, chains: seq<seq<TableEntry>>, at: Index, x: nat, e: TableEntry)
    requires Holds(heads, chains, at, x) && e.key !in at && e.next == heads[Home(e.hash, x)]
    ensures var i := Home(e.hash, x); Holds(heads[i := e], chains[i := [e] + chains[i]], at[e.key := e], x)
  {
    var i := Home(e.hash, x);
    var heads', chains', at' := heads[i := e], chains[i := [e] + chains[i]], at[e.key := e];
    forall j | 0 <= j < |chains'|
      ensures Bucket(heads', chains', at', x, j)
    {
      assert Bucket(heads, chains, at, x, j);
      if j == i {
        PushBelongs(chains[i], at, x, e);
        PushChain(chains[i], e);
      } else {
        StillBelongs(chains[j], at, at', x, j);
      }
    }
    forall k | k in at'
      ensures Filed(chains', at', x, k)
    {
      assert Filed(chains, at, x, k);
    }
  }

  lemma PushChain(c: seq<TableEntry>, e: TableEntry)
    requires Chain(c, e.next)
    ensures Chain([e] + c, e)
  {
    var c' := [e] + c;
    forall p | 0 <= p < |c'|
      ensures Hooked(c', p)
    {
      assert Hooked(c, p - 1);
    }
  }

  // ---- An entry leaves a bucket ----

  function Cut(c: seq<TableEntry>, p: nat): seq<TableEntry>
    requires p < |c|
  {
    c[..p] + c[p + 1..]
  }

  lemma CutAt(c: seq<TableEntry>, p: nat, k: int)
    requires p < |c|
    ensures At(Cut(c, p), k) == At(c, if k < p then k else k + 1)
  {
  }

  lemma CutBelongs(c: seq<TableEntry>, at: Index, x: nat, j: nat, p: nat)
    requires Belongs(c, at, x, j) && p < |c|
    ensures Belongs(Cut(c, p), at - {c[p].key}, x, j)
  {
    var c', at' := Cut(c, p), at - {c[p].key};
    assert AtHome(c, at, x, j, p);
    forall k | 0 <= k < |c'|
      ensures AtHome(c', at', x, j, k)
    {
      var k' := if k < p then k else k + 1;
      CutAt(c, p, k);
      assert AtHome(c, at, x, j, k') && Apart(c, p, k');
    }
    forall k, l | 0 <= k < |c'| && 0 <= l < |c'|
      ensures Apart(c', k, l)
    {
      CutAt(c, p, k);
      CutAt(c, p, l);
      assert Apart(c, if k < p then k else k + 1, if l < p then l else l + 1);
    }
  }

  /** Once the links skip entry p of chain i, the buckets hold the other entries. */
  lemma CutHolds(heads: seq<TableEntry?>, chains: seq<seq<TableEntry>>, at: Index, x: nat, i: nat, p: nat,
                 head: TableEntry?)
    requires |heads| == |chains| == Pow2(x) && i < |chains| && p < |chains[i]|
    requires Belongs(chains[i], at, x, i) && Chain(Cut(chains[i], p), head)
    requires forall j | 0 <= j < |chains| && j != i :: Bucket(heads, chains, at, x, j)
    requires forall k {:trigger Filed(chains, at, x, k)} | k in at :: Filed(chains, at, x, k)
    ensures Holds(heads[i := head], chains[i := Cut(chains[i], p)], at - {chains[i][p].key}, x)
  {
    var e := chains[i][p];
    var heads', chains', at' := heads[i := head], chains[i := Cut(chains[i], p)], at - {e.key};
    assert AtHome(chains[i], at, x, i, p);
    forall j | 0 <= j < |chains'|
      ensures Bucket(heads', chains', at', x, j)
    {
      if j == i {
        CutBelongs(chains[i], at, x, i, p);
      } else {
        assert Bucket(heads, chains, at, x, j);
        OthersBelong(chains[j], at, x, j, e);
      }
    }
    forall k | k in at'
      ensures Filed(chains', at', x, k)
    {
      assert Filed(chains, at, x, k);
      if Home(at[k].hash, x) == i {
        var q :| 0 <= q < |chains[i]| && chains[i][q] == at[k];
        CutAt(chains[i], p, if q < p then q else q - 1);
      }
    }
  }

  /** A chain of another bucket does not need e. */
  lemma OthersBelong(c: seq<TableEntry>, at: Index, x: nat, j: nat, e: TableEntry)
    requires Belongs(c, at, x, j) && In(at, e) && Home(e.hash, x) != j
    ensures Belongs(c, at - {e.key}, x, j)
  {
    forall p | 0 <= p < |c|
      ensures In(at, c[p]) ==> In(at - {e.key}, c[p])
    {
      assert AtHome(c, at, x, j, p);
    }
    StillBelongs(c, at, at - {e.key}, x, j);
  }

  lemma TailChain(c: seq<TableEntry>)
    requires c != [] && Chain(c, c[0])
    ensures Chain(Cut(c, 0), c[0].next)
  {
    var c' := Cut(c, 0);
    assert Hooked(c, 0);
    forall k | 0 <= k < |c'|
      ensures Hooked(c', k)
    {
      assert Hooked(c, k + 1);
    }
  }

  /** No bucket without entries, and no entry without bucket. */
  lemma EmptyHolds(heads: seq<TableEntry?>, chains: seq<seq<TableEntry>>, x: nat)
    requires |heads| == |chains| == Pow2(x) && forall j | 0 <= j < |heads| :: heads[j] == null && chains[j] == []
    ensures Holds(heads, chains, map[], x)
  {
    forall j | 0 <= j < |chains|
      ensures Bucket(heads, chains, map[], x, j)
    {
    }
  }
}
