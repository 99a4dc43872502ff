/** The chained hash table of src/collect/hashtable.c. */
module HashTables {
  import opened Bits
  import opened Common
  import opened KeyMaps
  import opened HashChains

  /** The entry of key k, entry p of bucket b, is cut out of its chain. */
  ghost predicate CutOut(c: seq<seq<TableEntry>>, c': seq<seq<TableEntry>>, at: Index, k: Slot, b: nat, p: nat) {
    && b < |c| && p < |c[b]| && c[b][p].key == k && In(at, c[b][p])
    && c' == c[b := Cut(c[b], p)]
  }

  /** The size of an entry. */
  const ENTRY_BYTES := 16

  /** The product of a capacity and a load factor, rounded down. In floating point it is exact too, since the capacity
      is a power of two. */
  function Limit(capacity: nat, loadFactor: real): int {
    (capacity as real * loadFactor).Floor
  }

  /** With the default load factor of 0.75 three quarters of the buckets. */
  lemma DefaultLimit(k: nat)
    ensures k >= 2 ==> Limit(Pow2(k), 0.75) == 3 * Pow2(k - 2)
  {
    if k >= 2 {
      assert Pow2(k) == 4 * Pow2(k - 2);
    }
  }

  class HashTable {
    const cmp: KeyCmp
    const hash: KeyHash
    const loadFactor: real
    var capacity: nat
    var size: nat
    var threshold: int
    var buckets: array<TableEntry?>

    ghost var exponent: nat
    ghost var chains: seq<seq<TableEntry>>
    ghost var at: Index
    /** The map that the table stands for. */
    ghost var contents: map<Slot, Value>

    ghost predicate Lawful() {
      Equivalence(cmp) && HashesAgree(cmp, hash)
    }

    ghost predicate Valid()
      reads this, buckets, at.Values
    {
      && Lawful() && exponent < 32 && capacity == Pow2(exponent) == buckets.Length
      && threshold == Limit(capacity, loadFactor)
      && Holds(buckets[..], chains, at, exponent)
      && KeysApart(cmp, contents) && size == |at| && at.Keys == contents.Keys
      && forall k {:trigger Entered(k)} | k in at :: Entered(k)
    }

    /** The entry of key k has the hash of k and the value that the map has for k. */
    ghost predicate Entered(k: Slot)
      reads `at, `contents, at.Values`value
    {
      k in at && k in contents ==> at[k].hash == HashOf(hash, k) && at[k].value == contents[k]
    }

    constructor (cmp: KeyCmp, hash: KeyHash, initialCapacity: nat, loadFactor: real)
      requires Equivalence(cmp) && HashesAgree(cmp, hash) && initialCapacity < WORD && loadFactor >= 0.0
      ensures Valid() && contents == map[] && at == map[] && size == 0 && fresh(buckets)
      ensures this.cmp == cmp && this.hash == hash && this.loadFactor == loadFactor
      ensures threshold == Limit(capacity, loadFactor) && RoundsUp(initialCapacity, capacity)
    {
      var c;
      ghost var k;
      c, k := UpperPowTwo(initialCapacity);
      this.cmp, this.hash, this.loadFactor := cmp, hash, loadFactor;
      capacity := c;
      size := 0;
      threshold := Limit(c, loadFactor);
      buckets := new TableEntry?[c](_ => null);
      exponent := k;
      chains := seq(Pow2(k), _ => []);
      at := map[];
      contents := map[];
      new;
      EmptyHolds(buckets[..], chains, k);
    }

    /** hashtable_new_conf: the table or its buckets may not be allocated. */
    static method New(cmp: KeyCmp, hash: KeyHash, initialCapacity: nat, loadFactor: real, granted: bool)
      returns (st: Status, table: HashTable?)
      requires Equivalence(cmp) && HashesAgree(cmp, hash) && initialCapacity < WORD && loadFactor >= 0.0
      ensures st == if granted && initialCapacity <= 0x2000_0000 then Ok else ErrAlloc
      ensures table != null <==> st == Ok
      ensures table != null ==>
        fresh(table) && fresh(table.buckets) && table.Valid() && table.contents == map[] && table.at == map[]
      ensures table != null ==> RoundsUp(initialCapacity, table.capacity) && table.capacity < 0x4000_0000
      ensures table != null ==> table.cmp == cmp && table.hash == hash && table.loadFactor == loadFactor
    {
      ghost var k;
      var c;
      c, k := UpperPowTwo(initialCapacity);
      BucketsGranted(initialCapacity, k);
      var ok := MemAlloc(c * SLOT_BYTES % WORD, granted);
      if !ok {
        return ErrAlloc, null;
      }
      table := new HashTable(cmp, hash, initialCapacity, loadFactor);
      SameRound(initialCapacity, c, k, table.capacity, table.exponent);
      st := Ok;
    }

    /** The bucket that a key belongs to; the NULL key has hash 0. */
    method GetTableIndex(key: Slot) returns (i: nat)
      requires Valid()
      ensures i == Home(HashOf(hash, key), exponent) < capacity
      ensures i == (if key.Some? then hash(key.value) else 0) % capacity
    {
      Pow2Positive(exponent);
      AndMask(HashOf(hash, key), exponent);
      i := And(if key.Some? then hash(key.value) else 0, capacity - 1);
      assert i == Home(HashOf(hash, key), exponent);
    }

    /** Every key of the table has its entry in the bucket of its hash. */
    lemma PlaceOf(k: Slot)
      requires Valid() && k in contents
      ensures 0 < capacity == |chains| && k in at && at[k].key == k && at[k].value == contents[k]
      ensures at[k] in chains[(if k.Some? then hash(k.value) else 0) % capacity]
    {
      Pow2Positive(exponent);
      AndMask(HashOf(hash, k), exponent);
      assert Entered(k) && Filed(chains, at, exponent, k);
    }

    /** The entry of bucket i for key, the one before it, and its place in the chain. */
    method FindEntry(i: nat, key: Slot) returns (e: TableEntry?, prev: TableEntry?, ghost p: nat)
      requires Valid() && i == Home(HashOf(hash, key), exponent)
      ensures p <= |chains[i]| && e == At(chains[i], p) && prev == At(chains[i], p - 1)
      ensures e != null ==> In(at, e) && Same(cmp, e.key, key) && Stored(cmp, contents, key) == e.key
      ensures e == null ==> Stored(cmp, contents, key) == key && key !in contents
      ensures e != null ==>
        if e.key.Some? && key.Some? then cmp(e.key.value, key.value) == 0 else e.key == key
      ensures e == null ==>
        forall k | k in contents :: !(if k.Some? && key.Some? then cmp(k.value, key.value) == 0 else k == key)
    {
      ghost var c := chains[i];
      assert Bucket(buckets[..], chains, at, exponent, i);
      e, prev, p := buckets[i], null, 0;
      while e != null
        invariant p <= |c| && e == At(c, p) && prev == At(c, p - 1)
        invariant forall q | 0 <= q < p :: !Same(cmp, c[q].key, key)
        decreases |c| - p
      {
        if Same(cmp, e.key, key) {
          assert AtHome(c, at, exponent, i, p);
          StoredIs(cmp, contents, key, e.key);
          return;
        }
        assert Hooked(c, p);
        prev := e;
        e := e.next;
        p := p + 1;
      }
      NotFound(i, key);
    }

    /** A key that is not in its bucket is not in the map. */
    lemma NotFound(i: nat, key: Slot)
      requires Valid() && i == Home(HashOf(hash, key), exponent)
      requires forall q | 0 <= q < |chains[i]| :: !Same(cmp, chains[i][q].key, key)
      ensures Stored(cmp, contents, key) == key && key !in contents
      ensures forall k | k in contents :: !(if k.Some? && key.Some? then cmp(k.value, key.value) == 0 else k == key)
    {
      forall k | k in contents
        ensures !Same(cmp, k, key)
      {
        assert Entered(k) && Filed(chains, at, exponent, k);
        if HashOf(hash, k) == HashOf(hash, key) {
          var q :| 0 <= q < |chains[i]| && chains[i][q] == at[k];
        } else if Same(cmp, k, key) {
          SameHash(cmp, hash, k, key);
        }
      }
      StoredNone(cmp, contents, key);
    }

    method Get(key: Slot) returns (st: Status, out: Option<Value>)
      requires Valid()
      ensures out == Lookup(cmp, contents, key)
      ensures st == if out.Some? then Ok else ErrKeyNotFound
      ensures forall k | k in contents
                         && (if k.Some? && key.Some? then cmp(k.value, key.value) == 0 else k == key) ::
                out == Some(contents[k])
      ensures (forall k | k in contents ::
                 !(if k.Some? && key.Some? then cmp(k.value, key.value) == 0 else k == key)) ==>
                out == None
    {
      StoredNames(cmp, contents, key);
      var i := GetTableIndex(key);
      var e, prev, p := FindEntry(i, key);
      if e != null {
        assert Entered(e.key);
        return Ok, Some(e.value);
      }
      return ErrKeyNotFound, None;
    }

    /** granted says whether the allocator has the memory for new buckets, entryGranted whether for a new entry. */
    method Add(key: Slot, val: Value, granted: bool, entryGranted: bool) returns (st: Status)
      requires Valid()
      modifies this, buckets, at.Values
      ensures Valid() && (buckets == old(buckets) || fresh(buckets)) && fresh(at.Values - old(at.Values))
      ensures st == if old(size >= threshold) && old(capacity) == MAX_POW_TWO then ErrMaxCapacity
                    else if old(size >= threshold) && !(granted && old(capacity) < 0x2000_0000) then ErrAlloc
                    else if Stored(cmp, old(contents), key) in old(contents) || entryGranted then Ok
                    else ErrAlloc
      ensures capacity ==
        if old(size >= threshold) && granted && old(capacity) < 0x2000_0000 then 2 * old(capacity) else old(capacity)
      ensures if st == Ok then contents == Put(cmp, old(contents), key, val)
              else contents == old(contents) && at == old(at)
      ensures forall k | k in old(contents)
                         && (if k.Some? && key.Some? then cmp(k.value, key.value) == 0 else k == key) ::
                st == Ok ==> contents == old(contents)[k := val]
      ensures (forall k | k in old(contents) ::
                 !(if k.Some? && key.Some? then cmp(k.value, key.value) == 0 else k == key)) ==>
                st == Ok ==> contents == old(contents)[key := val]
    {
      StoredNames(cmp, contents, key);
      if size >= threshold {
        st := Resize(capacity * 2 % WORD, granted);
        if st != Ok {
          return;
        }
      }
      st := AddEntry(key, val, entryGranted);
    }

    method AddEntry(key: Slot, val: Value, granted: bool) returns (st: Status)
      requires Valid()
      modifies this, buckets, at.Values
      ensures Valid() && buckets == old(buckets) && capacity == old(capacity) && fresh(at.Values - old(at.Values))
      ensures st == if Stored(cmp, old(contents), key) in old(contents) || granted then Ok else ErrAlloc
      ensures if st == Ok then contents == Put(cmp, old(contents), key, val)
              else contents == old(contents) && at == old(at)
    {
      var i := GetTableIndex(key);
      var e, prev, p := FindEntry(i, key);
      if e != null {
        Overwrite(e, key, val);
        return Ok;
      }
      var ok := MemAlloc(ENTRY_BYTES, granted);
      if !ok {
        return ErrAlloc;
      }
      PushEntry(i, key, val);
      return Ok;
    }

    method Overwrite(e: TableEntry, key: Slot, val: Value)
      requires Valid() && In(at, e) && Stored(cmp, contents, key) == e.key
      modifies `contents, e`value
      ensures Valid() && contents == Put(cmp, old(contents), key, val)
    {
      LookupPut(cmp, contents, key, val, key);
      e.value := val;
      contents := Put(cmp, contents, key, val);
      forall k | k in at
        ensures Entered(k)
      {
        assert old(Entered(k)) && Filed(chains, at, exponent, k);
      }
    }

    /** A new entry at the front of bucket i, for a key that is not in the table. */
    method PushEntry(i: nat, key: Slot, val: Value)
      requires Valid() && i == Home(HashOf(hash, key), exponent) && key !in contents
        && Stored(cmp, contents, key) == key
      modifies this, buckets
      ensures Valid() && buckets == old(buckets) && capacity == old(capacity) && fresh(at.Values - old(at.Values))
      ensures contents == Put(cmp, old(contents), key, val)
    {
      LookupPut(cmp, contents, key, val, key);
      var h := if key.Some? then hash(key.value) else 0;
      var newEntry := new TableEntry(key, val, h);
      PushFront(buckets, i, newEntry, chains, at, exponent);
      CountEntry(i, newEntry, key, val);
    }

    /** The new entry n of bucket i counts as an entry of the table. */
    method CountEntry(i: nat, n: TableEntry, ghost key: Slot, ghost val: Value)
      requires Lawful() && exponent < 32 && capacity == Pow2(exponent) == buckets.Length && i < |chains|
      requires Holds(buckets[..], chains[i := [n] + chains[i]], at[key := n], exponent)
      requires KeysApart(cmp, contents[key := val]) && size == |at| && at.Keys == contents.Keys && key !in at
      requires n.hash == HashOf(hash, key) && n.value == val && forall k | k in at :: Entered(k)
      requires threshold == Limit(capacity, loadFactor)
      modifies `size, `chains, `at, `contents
      ensures Valid() && contents == old(contents)[key := val] && at == old(at)[key := n]
    {
      size := size + 1;
      chains := chains[i := [n] + chains[i]];
      at := at[key := n];
      contents := contents[key := val];
      forall k | k in at
        ensures Entered(k)
      {
        assert k != key ==> old(Entered(k));
      }
    }

    // ---- Growing ----

    /** Moves the entries to a table of twice the size. */
    method Resize(newCapacity: nat, granted: bool) returns (st: Status)
      requires Valid() && newCapacity == capacity * 2 % WORD
      modifies `buckets, `capacity, `threshold, `exponent, `chains, at.Values`next
      ensures Valid() && contents == old(contents) && at == old(at)
      ensures st == if old(capacity) == MAX_POW_TWO then ErrMaxCapacity
                    else if granted && old(capacity) < 0x2000_0000 then Ok
                    else ErrAlloc
      ensures st == Ok ==> capacity == 2 * old(capacity) < 0x4000_0000 && fresh(buckets)
      ensures st != Ok ==> buckets == old(buckets) && capacity == old(capacity) && threshold == old(threshold)
    {
      if capacity == MAX_POW_TWO {
        return ErrMaxCapacity;
      }
      Doubling(exponent);
      Addressable(exponent + 1);
      var ok := MemAlloc(newCapacity * SLOT_BYTES % WORD, granted);
      if !ok {
        return ErrAlloc;
      }
      Grow(newCapacity);
      return Ok;
    }

    /** New buckets with the entries of the old ones. */
    method Grow(newCapacity: nat)
      requires Valid() && exponent < 31 && newCapacity == Pow2(exponent + 1)
      modifies `buckets, `capacity, `threshold, `exponent, `chains, at.Values`next
      ensures Valid() && contents == old(contents) && at == old(at)
      ensures capacity == newCapacity && fresh(buckets)
    {
      var newBuckets;
      ghost var d;
      newBuckets, d := MoveToNew(buckets, capacity, newCapacity, chains, at, exponent);
      SwitchBuckets(newBuckets, newCapacity, d);
    }

    /** The table uses other buckets with the same entries. */
    method SwitchBuckets(newBuckets: array<TableEntry?>, newCapacity: nat, ghost d: seq<seq<TableEntry>>)
      requires Lawful() && exponent < 31 && newCapacity == Pow2(exponent + 1) == newBuckets.Length
      requires Holds(newBuckets[..], d, at, exponent + 1)
      requires KeysApart(cmp, contents) && size == |at| && at.Keys == contents.Keys && forall k | k in at :: Entered(k)
      modifies `buckets, `capacity, `threshold, `exponent, `chains
      ensures Valid() && buckets == newBuckets && capacity == newCapacity
    {
      buckets := newBuckets;
      capacity := newCapacity;
      threshold := Limit(newCapacity, loadFactor);
      exponent := exponent + 1;
      chains := d;
    }

    // ---- Removal ----

    method RemoveAll()
      requires Valid()
      modifies this, buckets
      ensures Valid() && contents == map[] && size == 0 && capacity == old(capacity) && buckets == old(buckets)
    {
      ghost var heads, c, rest := buckets[..], chains, at;
      for i := 0 to capacity
        invariant Holds(heads, c, rest, exponent) && size == |rest| && rest.Values <= old(at.Values)
        invariant Emptied(c, i) && Unmoved(heads, buckets[..], i) && forall j | 0 <= j < i :: buckets[j] == null
        modifies `size, buckets
      {
        assert UnmovedAt(heads, buckets[..], i);
        var entry := buckets[i];
        ghost var h := heads;
        heads, c, rest := ClearBucket(entry, i, heads, c, rest);
        ghost var b := buckets[..];
        buckets[i] := null;
        ClearedBucket(h, heads, b, i);
        assert buckets[..] == b[i := null];
      }
      AllDone(c);
      NothingLeft(heads, c, rest, exponent);
      chains, at, contents := c, map[], map[];
      EmptyHolds(buckets[..], chains, exponent);
    }

    /** Frees the entries of bucket i. */
    method ClearBucket(entry: TableEntry?, ghost i: nat, ghost heads0: seq<TableEntry?>,
                       ghost c0: seq<seq<TableEntry>>, ghost rest0: Index)
      returns (ghost heads: seq<TableEntry?>, ghost c: seq<seq<TableEntry>>, ghost rest: Index)
      requires Holds(heads0, c0, rest0, exponent) && size == |rest0| && i < |heads0| && entry == heads0[i]
        && Emptied(c0, i)
      modifies `size
      ensures Holds(heads, c, rest, exponent) && size == |rest| && rest.Values <= rest0.Values
      ensures Emptied(c, i + 1) && |heads| == |heads0| && forall j | 0 <= j < |heads| && j != i :: heads[j] == heads0[j]
    {
      var entry := entry;
      heads, c, rest := heads0, c0, rest0;
      while entry != null
        invariant Holds(heads, c, rest, exponent) && size == |rest| && rest.Values <= rest0.Values
        invariant Emptied(c, i) && |heads| == |heads0| && entry == heads[i]
        invariant forall j | 0 <= j < |heads| && j != i :: heads[j] == heads0[j]
        decreases |rest|
      {
        PopHolds(heads, c, rest, exponent, i);
        var next := entry.next;
        size := size - 1;
        StepOn(heads, c, [], i, next);
        heads, c, rest := heads[i := next], c[i := Cut(c[i], 0)], rest - {entry.key};
        entry := next;
      }
      assert Bucket(heads, c, rest, exponent, i);
      BucketDone(c, i);
    }

    /** Removes the entry of a key: entry p of bucket b. */
    method Remove(key: Slot) returns (st: Status, out: Option<Value>, ghost b: nat, ghost p: nat)
      requires Valid()
      modifies this, buckets, at.Values`next
      ensures Valid() && buckets == old(buckets) && capacity == old(capacity)
      ensures contents == Drop(cmp, old(contents), key) && out == Lookup(cmp, old(contents), key)
      ensures st == if out.Some? then Ok else ErrKeyNotFound
      ensures at == old(at) - {Stored(cmp, old(contents), key)}
      ensures forall k | k in old(contents)
                         && (if k.Some? && key.Some? then cmp(k.value, key.value) == 0 else k == key) ::
                contents == old(contents) - {k} && out == Some(old(contents)[k])
      ensures (forall k | k in old(contents) ::
                 !(if k.Some? && key.Some? then cmp(k.value, key.value) == 0 else k == key)) ==>
                contents == old(contents) && out == None
      ensures out.None? ==> chains == old(chains)
      ensures out.Some? ==> CutOut(old(chains), chains, old(at), Stored(cmp, old(contents), key), b, p)
    {
      StoredNames(cmp, contents, key);
      var i := GetTableIndex(key);
      var e, prev;
      b := i;
      e, prev, p := FindEntry(i, key);
      if e == null {
        return ErrKeyNotFound, None, b, p;
      }
      assert Entered(e.key);
      var value := e.value;
      LookupDrop(cmp, contents, key, key);
      Detach(i, e, prev, p);
      return Ok, Some(value), b, p;
    }

    /** Takes entry p of bucket i out of its chain and frees it. */
    method Detach(i: nat, e: TableEntry, prev: TableEntry?, ghost p: nat)
      requires Valid() && i < capacity && p < |chains[i]| && e == chains[i][p] && prev == At(chains[i], p - 1)
      requires In(at, e) && KeysApart(cmp, contents - {e.key})
      modifies this, buckets, at.Values`next
      ensures Valid() && buckets == old(buckets) && capacity == old(capacity)
      ensures contents == old(contents) - {e.key} && at == old(at) - {e.key} && exponent == old(exponent)
      ensures chains == old(chains)[i := Cut(old(chains)[i], p)]
    {
      BypassEntry(i, e, prev, p);
      DiscountEntry(i, e, p);
    }

    /** Entry p of bucket i no longer counts as an entry of the table. */
    method DiscountEntry(i: nat, e: TableEntry, ghost p: nat)
      requires Lawful() && exponent < 32 && capacity == Pow2(exponent) == buckets.Length && i < |chains|
        && p < |chains[i]|
      requires Holds(buckets[..], chains[i := Cut(chains[i], p)], at - {e.key}, exponent)
      requires In(at, e) && KeysApart(cmp, contents - {e.key}) && size == |at| && at.Keys == contents.Keys
      requires threshold == Limit(capacity, loadFactor)
      requires forall k | k in at :: Entered(k)
      modifies `size, `chains, `at, `contents
      ensures Valid() && contents == old(contents) - {e.key} && at == old(at) - {e.key}
      ensures chains == old(chains)[i := Cut(old(chains)[i], p)]
    {
      size := size - 1;
      chains := chains[i := Cut(chains[i], p)];
      at := at - {e.key};
      contents := contents - {e.key};
      forall k | k in at
        ensures Entered(k)
      {
        assert old(Entered(k));
      }
    }

    method BypassEntry(i: nat, e: TableEntry, prev: TableEntry?, ghost p: nat)
      requires Valid() && i < capacity && p < |chains[i]| && e == chains[i][p] && prev == At(chains[i], p - 1)
      modifies buckets, at.Values`next
      ensures Holds(buckets[..], chains[i := Cut(chains[i], p)], at - {e.key}, exponent)
    {
      ghost var heads, c := buckets[..], chains[i];
      assert Bucket(heads, chains, at, exponent, i);
      assert Hooked(c, p) && AtHome(c, at, exponent, i, p);
      var next := e.next;
      if prev == null {
        buckets[i] := next;
      } else {
        assert AtHome(c, at, exponent, i, p - 1);
        prev.next := next;
      }
      forall k | 0 <= k < |c| - 1
        ensures Hooked(Cut(c, p), k)
      {
        CutAt(c, p, k);
        CutAt(c, p, k + 1);
        assert old(Hooked(c, if k < p then k else k + 1)) && Apart(c, p - 1, if k < p then k else k + 1);
      }
      CutAt(c, p, 0);
      forall j | 0 <= j < |chains| && j != i
        ensures Bucket(heads, chains, at, exponent, j)
      {
        assert old(Bucket(heads, chains, at, exponent, j));
        Elsewhere(chains[j], at, exponent, j, i, prev);
      }
      assert forall k | k in at :: Filed(chains, at, exponent, k);
      CutHolds(heads, chains, at, exponent, i, p, buckets[i]);
      assert buckets[..] == heads[i := buckets[i]];
    }
  }

  /** The bytes of the rounded capacity can be counted exactly for requests of up to 2^29. */
  lemma BucketsGranted(size: nat, k: nat)
    requires size < WORD && k < 32 && RoundsUp(size, Pow2(k))
    ensures Pow2(k) * SLOT_BYTES % WORD > 0 <==> size <= 0x2000_0000
    ensures size <= 0x2000_0000 ==> Pow2(k) < 0x4000_0000
  {
    CapacityBound(k);
    Addressable(k);
    RoundedBelow(size, k);
  }

  lemma RoundedBelow(size: nat, k: nat)
    requires k < 32 && RoundsUp(size, Pow2(k))
    ensures size <= 0x2000_0000 <==> Pow2(k) < 0x4000_0000
  {
    Power29();
    if size == 0 {
    } else if size <= 0x2000_0000 {
      LeastPower(size, k, 29);
    } else {
      Pow2Monotone(k, if k <= 29 then 29 else k);
      Pow2Monotone(if k <= 29 then k else 30, k);
    }
  }

  lemma Power29()
    ensures Pow2(29) == 0x2000_0000 && Pow2(30) == 0x4000_0000
  {
    HighPowers();
  }

  /** The rounded capacity is the same at every call. */
  lemma SameRound(size: nat, a: nat, k: nat, b: nat, l: nat)
    requires a == Pow2(k) && b == Pow2(l) && k < 32 && l < 32 && RoundsUp(size, a) && RoundsUp(size, b)
    ensures a == b
  {
    if 0 < size <= MAX_POW_TWO {
      LeastPower(size, k, l);
      LeastPower(size, l, k);
    }
  }

  method NewBuckets(n: nat) returns (b: array<TableEntry?>)
    ensures fresh(b) && b.Length == n && forall j | 0 <= j < n :: b[j] == null
  {
    b := new TableEntry?[n](_ => null);
  }

  /** Links e into the front of bucket i of dest. */
  method PushFront(dest: array<TableEntry?>, i: nat, e: TableEntry, ghost chains: seq<seq<TableEntry>>,
                   ghost at: Index, ghost x: nat)
    requires Holds(dest[..], chains, at, x) && e.key !in at && i == Home(e.hash, x)
    modifies dest, e`next
    ensures Holds(dest[..], chains[i := [e] + chains[i]], at[e.key := e], x)
  {
    ghost var heads := dest[..];
    Outside(heads, chains, at, x, e);
    e.next := dest[i];
    PushHolds(heads, chains, at, x, e);
    dest[i] := e;
    assert dest[..] == heads[i := e];
  }

  /** The first entry of bucket i is taken away. */
  lemma PopHolds(heads: seq<TableEntry?>, chains: seq<seq<TableEntry>>, at: Index, x: nat, i: nat)
    requires Holds(heads, chains, at, x) && i < |heads| && heads[i] != null
    ensures chains[i] != [] && heads[i] == chains[i][0] && In(at, heads[i])
    ensures Holds(heads[i := heads[i].next], chains[i := Cut(chains[i], 0)], at - {heads[i].key}, x)
    ensures heads[i] !in (at - {heads[i].key}).Values
  {
    assert Bucket(heads, chains, at, x, i) && AtHome(chains[i], at, x, i, 0);
    TailChain(chains[i]);
    assert forall j | 0 <= j < |chains| && j != i :: Bucket(heads, chains, at, x, j);
    CutHolds(heads, chains, at, x, i, 0, heads[i].next);
    Outside(heads[i := heads[i].next], chains[i := Cut(chains[i], 0)], at - {heads[i].key}, x, heads[i]);
  }

  lemma NothingLeft(heads: seq<TableEntry?>, chains: seq<seq<TableEntry>>, at: Index, x: nat)
    requires Holds(heads, chains, at, x) && forall j | 0 <= j < |chains| :: chains[j] == []
    ensures at == map[]
  {
    forall k: Slot
      ensures k !in at
    {
      assert Filed(chains, at, x, k);
    }
  }

  /** What is moved and what is not makes up the table. */
  ghost predicate Split(at: Index, rest: Index, done: Index) {
    rest.Keys !! done.Keys && at == rest + done
  }

  lemma SplitOn(at: Index, rest: Index, done: Index, e: TableEntry)
    requires Split(at, rest, done) && In(rest, e)
    ensures Split(at, rest - {e.key}, done[e.key := e]) && In(at, e) && e.key !in done
  {
  }

  /** In the middle of a move: heads still hold rest, and dest holds done. */
  ghost predicate Moving(heads: seq<TableEntry?>, c: seq<seq<TableEntry>>, rest: Index,
                         dest: seq<TableEntry?>, d: seq<seq<TableEntry>>, done: Index, at: Index, x: nat)
    reads rest.Values`next, done.Values`next
  {
    Split(at, rest, done) && Holds(heads, c, rest, x) && Holds(dest, d, done, x + 1)
  }

  /** Moves the first entry of bucket i. */
  method MoveEntry(dest: array<TableEntry?>, destSize: nat, entry: TableEntry, ghost i: nat,
                   ghost heads: seq<TableEntry?>, ghost c: seq<seq<TableEntry>>,
                   ghost rest: Index, ghost d: seq<seq<TableEntry>>, ghost done: Index, ghost at: Index, ghost x: nat)
    returns (next: TableEntry?, ghost d': seq<seq<TableEntry>>)
    requires Moving(heads, c, rest, dest[..], d, done, at, x) && i < |heads| && heads[i] == entry
      && destSize == Pow2(x + 1)
    modifies dest, entry`next
    ensures c[i] != [] && In(rest, entry)
    ensures Moving(heads[i := next], c[i := Cut(c[i], 0)], rest - {entry.key},
                   dest[..], d', done[entry.key := entry], at, x)
  {
    PopHolds(heads, c, rest, x, i);
    SplitOn(at, rest, done, entry);
    Pow2Positive(x + 1);
    next := entry.next;
    var index := And(entry.hash, destSize - 1);
    assert index == Home(entry.hash, x + 1);
    d' := d[index := [entry] + d[index]];
    PushFront(dest, index, entry, d, done, x + 1);
  }

  lemma MovingEntry(heads: seq<TableEntry?>, c: seq<seq<TableEntry>>, rest: Index,
                    dest: seq<TableEntry?>, d: seq<seq<TableEntry>>, done: Index, at: Index, x: nat, i: nat)
    requires Moving(heads, c, rest, dest, d, done, at, x) && i < |heads|
    ensures heads[i] == null ==> c[i] == []
    ensures heads[i] != null ==> heads[i] in at.Values
  {
    assert Bucket(heads, c, rest, x, i) && AtHome(c[i], rest, x, i, 0);
  }

  predicate EmptyAt(c: seq<seq<TableEntry>>, j: int) {
    0 <= j < |c| ==> c[j] == []
  }

  /** The first i buckets are moved. */
  ghost predicate Emptied(c: seq<seq<TableEntry>>, i: nat) {
    forall j {:trigger EmptyAt(c, j)} | 0 <= j < i :: EmptyAt(c, j)
  }

  predicate UnmovedAt(heads: seq<TableEntry?>, src: seq<TableEntry?>, j: int) {
    0 <= j < |src| && j < |heads| ==> heads[j] == src[j]
  }

  /** The buckets from i on are as they were. */
  ghost predicate Unmoved(heads: seq<TableEntry?>, src: seq<TableEntry?>, i: nat) {
    forall j {:trigger UnmovedAt(heads, src, j)} | i <= j < |src| :: UnmovedAt(heads, src, j)
  }

  lemma StepOn(heads: seq<TableEntry?>, c: seq<seq<TableEntry>>, src: seq<TableEntry?>, i: nat, next: TableEntry?)
    requires i < |c| == |heads| && c[i] != [] && Emptied(c, i) && Unmoved(heads, src, i + 1)
    ensures Emptied(c[i := Cut(c[i], 0)], i) && Unmoved(heads[i := next], src, i + 1)
  {
    var c', heads' := c[i := Cut(c[i], 0)], heads[i := next];
    forall j | 0 <= j < i
      ensures EmptyAt(c', j)
    {
      assert EmptyAt(c, j);
    }
    forall j | i + 1 <= j < |src|
      ensures UnmovedAt(heads', src, j)
    {
      assert UnmovedAt(heads, src, j);
    }
  }

  lemma ClearedBucket(h: seq<TableEntry?>, heads: seq<TableEntry?>, b: seq<TableEntry?>, i: nat)
    requires i < |b| && Unmoved(h, b, i) && |heads| == |h| && forall j | 0 <= j < |heads| && j != i :: heads[j] == h[j]
    ensures Unmoved(heads, b[i := null], i + 1)
  {
    var b' := b[i := null];
    forall j | i + 1 <= j < |b'|
      ensures UnmovedAt(heads, b', j)
    {
      assert UnmovedAt(h, b, j);
    }
  }

  lemma BucketDone(c: seq<seq<TableEntry>>, i: nat)
    requires i < |c| && c[i] == [] && Emptied(c, i)
    ensures Emptied(c, i + 1)
  {
  }

  lemma AllDone(c: seq<seq<TableEntry>>)
    requires Emptied(c, |c|)
    ensures forall j | 0 <= j < |c| :: c[j] == []
  {
    forall j | 0 <= j < |c|
      ensures c[j] == []
    {
      assert EmptyAt(c, j);
    }
  }

  /** Where a move stands: the heads and chains of the old buckets, what they hold, the chains of the new ones,
      what these hold. */
  datatype Move = Move(heads: seq<TableEntry?>, c: seq<seq<TableEntry>>, rest: Index,
                       d: seq<seq<TableEntry>>, done: Index)

  /** The first i buckets of src are moved to dest. */
  ghost predicate MovedTo(m: Move, src: seq<TableEntry?>, i: nat, dest: seq<TableEntry?>, at: Index, x: nat)
    reads m.rest.Values`next, m.done.Values`next
  {
    && Moving(m.heads, m.c, m.rest, dest, m.d, m.done, at, x)
    && Emptied(m.c, i) && Unmoved(m.heads, src, i) && |src| == Pow2(x)
  }

  /** Moves all entries of bucket i. */
  method MoveBucket(src: array<TableEntry?>, dest: array<TableEntry?>, destSize: nat, i: nat,
                    ghost m0: Move, ghost at: Index, ghost x: nat) returns (ghost m: Move)
    requires src != dest && i < src.Length && MovedTo(m0, src[..], i, dest[..], at, x) && destSize == Pow2(x + 1)
    modifies dest, at.Values`next
    ensures MovedTo(m, src[..], i + 1, dest[..], at, x)
  {
    m := m0;
    assert UnmovedAt(m.heads, src[..], i);
    var entry := src[i];
    while entry != null
      invariant Moving(m.heads, m.c, m.rest, dest[..], m.d, m.done, at, x) && entry == m.heads[i]
      invariant Emptied(m.c, i) && Unmoved(m.heads, src[..], i + 1)
      decreases |m.rest|
    {
      MovingEntry(m.heads, m.c, m.rest, dest[..], m.d, m.done, at, x, i);
      var next;
      ghost var d;
      next, d := MoveEntry(dest, destSize, entry, i, m.heads, m.c, m.rest, m.d, m.done, at, x);
      StepOn(m.heads, m.c, src[..], i, next);
      m := Move(m.heads[i := next], m.c[i := Cut(m.c[i], 0)], m.rest - {entry.key}, d, m.done[entry.key := entry]);
      entry := next;
    }
    MovingEntry(m.heads, m.c, m.rest, dest[..], m.d, m.done, at, x, i);
    BucketDone(m.c, i);
  }

  /** Moves all entries of src to dest, which is empty. */
  method MoveEntries(src: array<TableEntry?>, dest: array<TableEntry?>, srcSize: nat, destSize: nat,
                     ghost chains: seq<seq<TableEntry>>, ghost at: Index, ghost x: nat)
    returns (ghost d: seq<seq<TableEntry>>)
    requires src != dest && Holds(src[..], chains, at, x) && srcSize == Pow2(x) == src.Length
      && destSize == Pow2(x + 1) == dest.Length
    requires forall j | 0 <= j < dest.Length :: dest[j] == null
    modifies dest, at.Values`next
    ensures Holds(dest[..], d, at, x + 1)
  {
    d := seq(Pow2(x + 1), _ => []);
    EmptyHolds(dest[..], d, x + 1);
    ghost var m := Move(src[..], chains, at, d, map[]);
    for i := 0 to srcSize
      invariant MovedTo(m, src[..], i, dest[..], at, x)
    {
      m := MoveBucket(src, dest, destSize, i, m, at, x);
    }
    AllDone(m.c);
    NothingLeft(m.heads, m.c, m.rest, x);
    assert m.done == at;
    d := m.d;
  }

  /** Moves all entries of src to new buckets. */
  method MoveToNew(src: array<TableEntry?>, srcSize: nat, destSize: nat, ghost chains: seq<seq<TableEntry>>,
                   ghost at: Index, ghost x: nat)
    returns (dest: array<TableEntry?>, ghost d: seq<seq<TableEntry>>)
    requires Holds(src[..], chains, at, x) && srcSize == Pow2(x) == src.Length && destSize == Pow2(x + 1)
    modifies at.Values`next
    ensures fresh(dest) && dest.Length == destSize && Holds(dest[..], d, at, x + 1)
  {
    dest := NewBuckets(destSize);
    d := MoveEntries(src, dest, srcSize, destSize, chains, at, x);
  }

  /** Entries of bucket i are not in the chain of bucket j. */
  lemma Elsewhere(c: seq<TableEntry>, at: Index, x: nat, j: nat, i: nat, e: TableEntry?)
    requires Belongs(c, at, x, j) && (e != null ==> Home(e.hash, x) == i) && i != j
    ensures e !in c
  {
    forall p | 0 <= p < |c|
      ensures c[p] != e
    {
      assert AtHome(c, at, x, j, p);
    }
  }
}
