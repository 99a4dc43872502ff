/** The iterator of src/collect/hashtable.c. */
module HashIterators {
  import opened Common
  import opened KeyMaps
  import opened HashChains
  import opened HashTables

  /** The entries of the chains, bucket by bucket. */
  function Flat(chains: seq<seq<TableEntry>>): seq<TableEntry> {
    if chains == [] then [] else chains[0] + Flat(chains[1..])
  }

  lemma {:induction false} FlatHas(chains: seq<seq<TableEntry>>, j: nat, e: TableEntry)
    requires j < |chains| && e in chains[j]
    ensures e in Flat(chains)
  {
    if j > 0 {
      FlatHas(chains[1..], j - 1, e);
    }
  }

  lemma FlatFrom(chains: seq<seq<TableEntry>>, j: nat)
    requires j < |chains|
    ensures Flat(chains[j..]) == chains[j] + Flat(chains[j + 1..])
  {
    assert chains[j..][1..] == chains[j + 1..];
  }

  lemma {:induction false} FlatFacts(heads: seq<TableEntry?>, chains: seq<seq<TableEntry>>, at: Index, x: nat, j: nat)
    requires Holds(heads, chains, at, x) && j <= |chains|
    ensures Distinct(Flat(chains[j..]))
    ensures forall e | e in Flat(chains[j..]) :: In(at, e) && j <= Home(e.hash, x)
    decreases |chains| - j
  {
    if j < |chains| {
      FlatFrom(chains, j);
      FlatFacts(heads, chains, at, x, j + 1);
      assert Bucket(heads, chains, at, x, j);
      forall e | e in chains[j]
        ensures In(at, e) && Home(e.hash, x) == j
      {
        var p :| 0 <= p < |chains[j]| && chains[j][p] == e;
        assert AtHome(chains[j], at, x, j, p);
      }
      JoinDistinct(chains[j], Flat(chains[j + 1..]));
    }
  }

  lemma JoinDistinct(a: seq<TableEntry>, b: seq<TableEntry>)
    requires Distinct(a) && Distinct(b) && forall e | e in a :: e !in b
    ensures Distinct(a + b)
  {
    var s := a + b;
    forall p, q | 0 <= p < |s| && 0 <= q < |s|
      ensures Apart(s, p, q)
    {
      assert Apart(a, p, q) && Apart(b, p - |a|, q - |a|);
      assert p < |a| ==> a[p] in a;
      assert q < |a| ==> a[q] in a;
      assert p >= |a| ==> b[p - |a|] in b;
      assert q >= |a| ==> b[q - |a|] in b;
    }
  }

  /** Every entry of the table is in its flat sequence exactly once, and nothing else is. */
  lemma FlatIs(heads: seq<TableEntry?>, chains: seq<seq<TableEntry>>, at: Index, x: nat)
    requires Holds(heads, chains, at, x)
    ensures Distinct(Flat(chains)) && forall e :: e in Flat(chains) <==> In(at, e)
  {
    assert chains[0..] == chains;
    FlatFacts(heads, chains, at, x, 0);
    forall e | In(at, e)
      ensures e in Flat(chains)
    {
      assert Filed(chains, at, x, e.key);
      FlatHas(chains, Home(e.hash, x), e);
    }
  }

  lemma NoneFlat(table: HashTable)
    requires table.Valid() && Flat(table.chains) == []
    ensures table.at == map[]
  {
    FlatIs(table.buckets[..], table.chains, table.at, table.exponent);
    forall k: Slot
      ensures k !in table.at
    {
      assert Filed(table.chains, table.at, table.exponent, k);
      assert k in table.at ==> In(table.at, table.at[k]);
    }
  }

  class HashTableIter {
    const table: HashTable
    var bucketIndex: nat
    var prevEntry: TableEntry?
    var nextEntry: TableEntry?

    /** The entries still to be returned, and the place of the next one in its chain. */
    ghost var pending: seq<TableEntry>
    ghost var place: nat

    ghost predicate Valid()
      reads this, table
    {
      if nextEntry == null then pending == [] else PendingAt(table.chains)
    }

    ghost predicate PendingAt(chains: seq<seq<TableEntry>>)
      reads this
    {
      && bucketIndex < |chains| && place < |chains[bucketIndex]| && chains[bucketIndex][place] == nextEntry
      && pending == chains[bucketIndex][place..] + Flat(chains[bucketIndex + 1..])
    }

    /** hashtable_iter_init. On an empty table the fields keep whatever the memory held. */
    constructor (table: HashTable)
      requires table.Valid()
      ensures this.table == table
      ensures table.at != map[] ==> Valid() && pending == Flat(table.chains) && prevEntry == null
    {
      this.table := table;
      bucketIndex, prevEntry, nextEntry := *, *, *;
      pending, place := [], 0;
      new;
      InitBucket();
    }

    method InitBucket()
      requires table.Valid()
      modifies this
      ensures table.at != map[] ==> Valid() && pending == Flat(table.chains) && prevEntry == null
    {
      assert table.chains[0..] == table.chains;
      var j, e := FirstBucket(0);
      if e != null {
        bucketIndex, nextEntry, prevEntry := j, e, null;
        pending, place := Flat(table.chains), 0;
      } else {
        NoneFlat(table);
      }
    }

    /** The first bucket from i on that has an entry, and its first entry. */
    method FirstBucket(i: nat) returns (j: nat, e: TableEntry?)
      requires table.Valid() && i <= table.capacity
      ensures e == null ==> Flat(table.chains[i..]) == []
      ensures e != null ==>
        && j < |table.chains| && table.chains[j] != [] && e == table.chains[j][0]
        && Flat(table.chains[i..]) == table.chains[j] + Flat(table.chains[j + 1..])
    {
      j, e := i, null;
      while j < table.capacity
        invariant i <= j <= table.capacity && e == null && Flat(table.chains[i..]) == Flat(table.chains[j..])
      {
        FlatFrom(table.chains, j);
        assert Bucket(table.buckets[..], table.chains, table.at, table.exponent, j);
        e := table.buckets[j];
        if e != null {
          return;
        }
        assert table.chains[j] + Flat(table.chains[j + 1..]) == Flat(table.chains[j + 1..]);
        j := j + 1;
      }
    }

    /** Goes on to the first entry of the first bucket from i on that has one. */
    method FindBucket(i: nat)
      requires table.Valid() && i <= table.capacity && nextEntry == null
      modifies `bucketIndex, `nextEntry, `place, `pending
      ensures Valid() && pending == Flat(table.chains[i..])
    {
      var j, e := FirstBucket(i);
      pending := Flat(table.chains[i..]);
      if e != null {
        nextEntry := e;
        bucketIndex, place := j, 0;
        assert table.chains[j][0..] == table.chains[j];
      }
    }

    method Next() returns (st: Status, te: TableEntry?)
      requires Valid() && table.Valid()
      modifies this
      ensures Valid()
      ensures old(pending) == [] ==> st == IterEnd && te == null && pending == [] && prevEntry == old(prevEntry)
      ensures old(pending) != [] ==>
        st == Ok && te == old(pending)[0] && pending == old(pending)[1..] && prevEntry == te
    {
      if nextEntry == null {
        return IterEnd, null;
      }
      Shift();
      if nextEntry != null {
        pending := pending[1..];
        place := place + 1;
        return Ok, prevEntry;
      }
      FindBucket(bucketIndex + 1);
      return Ok, prevEntry;
    }

    /** The next entry becomes the previous one, and the next one in its chain the next. */
    method Shift()
      requires Valid() && table.Valid() && nextEntry != null
      modifies `prevEntry, `nextEntry
      ensures table.Valid() && prevEntry == old(nextEntry) && bucketIndex < table.capacity
      ensures pending != [] && pending[0] == prevEntry && nextEntry == At(table.chains[bucketIndex], place + 1)
      ensures pending[1..] == table.chains[bucketIndex][place + 1..] + Flat(table.chains[bucketIndex + 1..])
    {
      NextInChain();
      prevEntry := nextEntry;
      nextEntry := nextEntry.next;
    }

    /** What the next entry is followed by. */
    lemma NextInChain()
      requires Valid() && table.Valid() && nextEntry != null
      ensures bucketIndex < table.capacity && pending != [] && pending[0] == nextEntry
      ensures nextEntry.next == At(table.chains[bucketIndex], place + 1)
      ensures pending[1..] == table.chains[bucketIndex][place + 1..] + Flat(table.chains[bucketIndex + 1..])
    {
      var c := table.chains[bucketIndex];
      assert Bucket(table.buckets[..], table.chains, table.at, table.exponent, bucketIndex) && Hooked(c, place);
      NextPending(c, place, Flat(table.chains[bucketIndex + 1..]));
    }

    /** No entry still to be returned has a key equal to k. */
    ghost predicate Returned(k: Slot)
      reads this, table
    {
      var s := Stored(table.cmp, table.contents, k);
      s in table.at ==> table.at[s] !in pending
    }

    /** Removes the key of the entry that was returned last, if it is still there. The key is read from the entry, also
        from one that is freed already; before the first entry there is none to read it from. The iterator can go on
        unless the key was added again and has taken an entry that is still to be returned. */
    method Remove() returns (st: Status, out: Option<Value>)
      requires Valid() && table.Valid()
      modifies this`place, table, table.buckets, table.at.Values`next
      ensures table.Valid() && table.buckets == old(table.buckets)
      ensures old(prevEntry == null || Returned(prevEntry.key)) ==> Valid()
      ensures prevEntry == null ==> st == Fault && out == None && unchanged(table)
      ensures prevEntry != null ==>
        && out == Lookup(table.cmp, old(table.contents), prevEntry.key)
        && st == (if out.Some? then Ok else ErrKeyNotFound)
        && table.contents == Drop(table.cmp, old(table.contents), prevEntry.key)
        && table.at == old(table.at) - {Stored(table.cmp, old(table.contents), prevEntry.key)}
    {
      if prevEntry == null {
        return Fault, None;
      }
      st, out := RemoveKey(prevEntry.key);
    }

    method RemoveKey(key: Slot) returns (st: Status, out: Option<Value>)
      requires Valid() && table.Valid()
      modifies this`place, table, table.buckets, table.at.Values`next
      ensures table.Valid() && table.buckets == old(table.buckets) && (old(Returned(key)) ==> Valid())
      ensures out == Lookup(table.cmp, old(table.contents), key) && st == if out.Some? then Ok else ErrKeyNotFound
      ensures table.contents == Drop(table.cmp, old(table.contents), key)
      ensures table.at == old(table.at) - {Stored(table.cmp, old(table.contents), key)}
    {
      ghost var chains, at, k := table.chains, table.at, Stored(table.cmp, table.contents, key);
      ghost var returned, i, p := Returned(key), 0, 0;
      st, out, i, p := table.Remove(key);
      Reposition(out.Some?, returned, chains, at, k, i, p);
    }

    /** The place of the next entry after entry p of bucket i was cut out of its chain, if any was. */
    method Reposition(ghost found: bool, ghost returned: bool, ghost chains: seq<seq<TableEntry>>, ghost at: Index,
                      ghost k: Slot, ghost i: nat, ghost p: nat)
      requires if found then CutOut(chains, table.chains, at, k, i, p) && (returned ==> at[k] !in pending)
        else table.chains == chains
      requires if nextEntry == null then pending == [] else PendingAt(chains)
      requires table.Valid()
      modifies `place
      ensures table.Valid() && (returned ==> Valid())
    {
      if found && returned && nextEntry != null {
        PendingKept(chains, i, p, bucketIndex, place);
        place := if i == bucketIndex && p < place then place - 1 else place;
      }
    }
  }

  lemma NextPending(c: seq<TableEntry>, p: nat, f: seq<TableEntry>)
    requires p < |c|
    ensures c[p..] + f == [c[p]] + (c[p + 1..] + f)
  {
  }

  lemma InTail(c: seq<TableEntry>, place: nat, p: nat)
    requires place <= p < |c|
    ensures c[p] in c[place..]
  {
    assert c[place..][p - place] == c[p];
  }

  /** Cutting an entry that is not pending leaves the pending ones in their place. */
  lemma PendingKept(chains: seq<seq<TableEntry>>, i: nat, p: nat, b: nat, place: nat)
    requires i < |chains| && p < |chains[i]| && b < |chains| && place < |chains[b]|
    requires chains[i][p] !in chains[b][place..] + Flat(chains[b + 1..])
    ensures var chains', place' := chains[i := Cut(chains[i], p)], if i == b && p < place then place - 1 else place;
            && place' < |chains'[b]| && chains'[b][place'] == chains[b][place]
            && chains'[b][place'..] + Flat(chains'[b + 1..]) == chains[b][place..] + Flat(chains[b + 1..])
  {
    var chains', c := chains[i := Cut(chains[i], p)], chains[b];
    if i > b {
      assert chains[b + 1..][i - b - 1] == chains[i];
      FlatHas(chains[b + 1..], i - b - 1, chains[i][p]);
    } else {
      assert chains'[b + 1..] == chains[b + 1..];
      if i == b {
        if p >= place {
          InTail(c, place, p);
        } else {
          assert Cut(c, p)[place - 1..] == c[place..];
        }
      }
    }
  }

  // ---- A whole iteration ----

  /** Whether key k is left when the entries seen are removed, unless keep holds for their key. */
  ghost predicate LeftAt(m0: map<Slot, Value>, at0: Index, m: map<Slot, Value>, at: Index, keep: Slot -> bool,
                         seen: seq<TableEntry>, k: Slot) {
    && (k in m <==> k in m0 && k in at0 && (keep(k) || at0[k] !in seen))
    && (k in m <==> k in at) && (k in m ==> m[k] == m0[k] && at[k] == at0[k])
  }

  ghost predicate Left(m0: map<Slot, Value>, at0: Index, m: map<Slot, Value>, at: Index, keep: Slot -> bool,
                       seen: seq<TableEntry>) {
    forall k {:trigger LeftAt(m0, at0, m, at, keep, seen, k)} :: LeftAt(m0, at0, m, at, keep, seen, k)
  }

  ghost predicate KeyAt(m0: map<Slot, Value>, at0: Index, k: Slot) {
    k in at0 ==> at0[k].key == k && k in m0
  }

  ghost predicate EntryIn(at0: Index, all: seq<TableEntry>, p: int) {
    0 <= p < |all| ==> In(at0, all[p])
  }

  /** What an iteration starts from: the map m0 with the entries at0, which are all. */
  ghost predicate Origin(m0: map<Slot, Value>, at0: Index, all: seq<TableEntry>) {
    && (forall k {:trigger KeyAt(m0, at0, k)} :: KeyAt(m0, at0, k))
    && (forall p {:trigger EntryIn(at0, all, p)} :: EntryIn(at0, all, p))
  }

  lemma LeftOne(m0: map<Slot, Value>, at0: Index, m: map<Slot, Value>, at: Index, keep: Slot -> bool,
                all: seq<TableEntry>, seen: seq<TableEntry>, e: TableEntry)
    requires Left(m0, at0, m, at, keep, seen) && e !in seen && e in all && Origin(m0, at0, all)
    ensures In(at, e)
    ensures keep(e.key) ==> Left(m0, at0, m, at, keep, seen + [e])
    ensures !keep(e.key) ==> Left(m0, at0, m - {e.key}, at - {e.key}, keep, seen + [e])
  {
    var p :| 0 <= p < |all| && all[p] == e;
    assert EntryIn(at0, all, p) && KeyAt(m0, at0, e.key) && LeftAt(m0, at0, m, at, keep, seen, e.key);
    var m', at', seen' := if keep(e.key) then m else m - {e.key}, if keep(e.key) then at else at - {e.key}, seen + [e];
    forall k
      ensures LeftAt(m0, at0, m', at', keep, seen', k)
    {
      assert LeftAt(m0, at0, m, at, keep, seen, k) && KeyAt(m0, at0, k);
    }
  }

  lemma LeftDone(m0: map<Slot, Value>, at0: Index, m: map<Slot, Value>, at: Index, keep: Slot -> bool,
                 all: seq<TableEntry>)
    requires Left(m0, at0, m, at, keep, all) && at0.Keys == m0.Keys && forall k | k in at0 :: at0[k] in all
    ensures m == map k | k in m0 && keep(k) :: m0[k]
  {
    forall k
      ensures k in m <==> k in m0 && keep(k)
      ensures k in m ==> m[k] == m0[k]
    {
      assert LeftAt(m0, at0, m, at, keep, all, k);
    }
  }

  /** The rest of an iteration of all entries: seen is what was returned so far. */
  ghost predicate Ahead(all: seq<TableEntry>, seen: seq<TableEntry>, pending: seq<TableEntry>) {
    Distinct(all) && all == seen + pending
  }

  lemma AheadOne(all: seq<TableEntry>, seen: seq<TableEntry>, pending: seq<TableEntry>)
    requires Ahead(all, seen, pending) && pending != []
    ensures Ahead(all, seen + [pending[0]], pending[1..]) && pending[0] in all && pending[0] !in seen
      && pending[0] !in pending[1..]
  {
    assert all[|seen|] == pending[0];
    forall k | 0 <= k < |seen|
      ensures seen[k] != pending[0]
    {
      assert Apart(all, k, |seen|);
    }
    forall k | 1 <= k < |pending|
      ensures pending[k] != pending[0]
    {
      assert Apart(all, |seen| + k, |seen|);
    }
  }

  /** An entry of the table is what its key finds. */
  lemma Known(table: HashTable, e: TableEntry)
    requires table.Valid() && In(table.at, e)
    ensures Stored(table.cmp, table.contents, e.key) == e.key && e.key in table.contents
    ensures Lookup(table.cmp, table.contents, e.key).Some?
    ensures Drop(table.cmp, table.contents, e.key) == table.contents - {e.key}
  {
    SameLaws(table.cmp, e.key, e.key, e.key);
    StoredIs(table.cmp, table.contents, e.key, e.key);
  }

  /** In the middle of an iteration, te is the next entry to deal with; at the end it is NULL. */
  ghost predicate Sweeping(it: HashTableIter, m0: map<Slot, Value>, at0: Index, keep: Slot -> bool,
                           all: seq<TableEntry>, seen: seq<TableEntry>, te: TableEntry?)
    reads it, it.table, it.table.buckets, it.table.at.Values
  {
    && it.Valid() && it.table.Valid()
    && Left(m0, at0, it.table.contents, it.table.at, keep, seen)
    && (if te == null then all == seen else Ahead(all, seen, [te] + it.pending) && it.prevEntry == te)
    && Origin(m0, at0, all)
  }

  /** Removes te unless its key is to be kept. */
  method RemoveOrKeep(it: HashTableIter, te: TableEntry, keep: Slot -> bool, ghost m0: map<Slot, Value>,
                      ghost at0: Index,
                      ghost all: seq<TableEntry>, ghost seen: seq<TableEntry>)
    requires Sweeping(it, m0, at0, keep, all, seen, te)
    modifies it`place, it.table, it.table.buckets, it.table.at.Values`next
    ensures it.Valid() && it.table.Valid()
    ensures Left(m0, at0, it.table.contents, it.table.at, keep, seen + [te]) && Ahead(all, seen + [te], it.pending)
    ensures it.table.buckets == old(it.table.buckets) && it.table.at.Values <= old(it.table.at.Values)
  {
    ghost var todo := [te] + it.pending;
    AheadOne(all, seen, todo);
    assert todo[1..] == it.pending;
    LeftOne(m0, at0, it.table.contents, it.table.at, keep, all, seen, te);
    if !keep(te.key) {
      Known(it.table, te);
      assert it.Returned(te.key);
      var removed, value := it.Remove();
    }
  }

  /** Deals with te and goes on to the next entry. */
  method Round(it: HashTableIter, te: TableEntry, keep: Slot -> bool, ghost m0: map<Slot, Value>, ghost at0: Index,
               ghost all: seq<TableEntry>, ghost seen: seq<TableEntry>) returns (te': TableEntry?)
    requires Sweeping(it, m0, at0, keep, all, seen, te)
    modifies it, it.table, it.table.buckets, it.table.at.Values`next
    ensures Sweeping(it, m0, at0, keep, all, seen + [te], te')
    ensures it.table.buckets == old(it.table.buckets) && it.table.at.Values <= old(it.table.at.Values)
  {
    RemoveOrKeep(it, te, keep, m0, at0, all, seen);
    te' := NextOrNull(it);
  }

  method NextOrNull(it: HashTableIter) returns (te: TableEntry?)
    requires it.Valid() && it.table.Valid()
    modifies it
    ensures it.Valid()
    ensures if te == null then old(it.pending) == [] else [te] + it.pending == old(it.pending) && it.prevEntry == te
  {
    var st;
    st, te := it.Next();
  }

  /** The iterator on a table with entries, and the first of them. */
  method Start(table: HashTable, keep: Slot -> bool) returns (it: HashTableIter, te: TableEntry?,
               ghost all: seq<TableEntry>)
    requires table.Valid() && table.at != map[]
    ensures fresh(it) && it.table == table && Sweeping(it, table.contents, table.at, keep, all, [], te)
    ensures Distinct(all) && forall e :: e in all <==> In(table.at, e)
  {
    it := new HashTableIter(table);
    all := it.pending;
    FlatIs(table.buckets[..], table.chains, table.at, table.exponent);
    KeysFiled(table, all);
    StartLeft(table, keep);
    te := NextOrNull(it);
    assert all == [] + all;
  }

  /** Iterates over a table and removes every returned entry whose key keep rejects: each entry is returned
      exactly once, and exactly the kept ones remain. */
  method Sweep(table: HashTable, keep: Slot -> bool) returns (ghost seen: seq<TableEntry>)
    requires table.Valid()
    modifies table, table.buckets, table.at.Values`next
    ensures table.Valid() && table.buckets == old(table.buckets) && table.at.Values <= old(table.at.Values)
    ensures Distinct(seen) && forall e :: e in seen <==> In(old(table.at), e)
    ensures table.contents == map k | k in old(table.contents) && keep(k) :: old(table.contents)[k]
  {
    ghost var m0, at0 := table.contents, table.at;
    seen := [];
    if table.size == 0 {
      return;
    }
    var it, te;
    ghost var all;
    it, te, all := Start(table, keep);
    while te != null
      invariant fresh(it) && it.table == table && table.buckets == old(table.buckets)
        && table.at.Values <= old(table.at.Values)
      invariant Sweeping(it, m0, at0, keep, all, seen, te)
      decreases |all| - |seen|
    {
      ghost var t: TableEntry := te;
      te := Round(it, te, keep, m0, at0, all, seen);
      seen := seen + [t];
    }
    AllKeys(m0, at0, all);
    LeftDone(m0, at0, table.contents, table.at, keep, all);
  }

  lemma AllKeys(m0: map<Slot, Value>, at0: Index, all: seq<TableEntry>)
    requires Origin(m0, at0, all) && forall e :: e in all <==> In(at0, e)
    ensures forall k | k in at0 :: at0[k] in all
  {
    forall k | k in at0
      ensures at0[k] in all
    {
      assert KeyAt(m0, at0, k);
    }
  }

  lemma KeysFiled(table: HashTable, all: seq<TableEntry>)
    requires table.Valid() && forall e | e in all :: In(table.at, e)
    ensures Origin(table.contents, table.at, all)
  {
    forall k
      ensures KeyAt(table.contents, table.at, k)
    {
      assert Filed(table.chains, table.at, table.exponent, k);
    }
  }

  lemma StartLeft(table: HashTable, keep: Slot -> bool)
    requires table.Valid()
    ensures Left(table.contents, table.at, table.contents, table.at, keep, [])
  {
  }
}
