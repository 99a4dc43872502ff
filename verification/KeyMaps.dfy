/** The map that a hash table stands for: a partial map whose keys are told apart by a comparison function. */
module KeyMaps {
  import opened Common

  /** A key is a pointer; None stands for NULL. */
  type Slot = Option<Key>
  type KeyCmp = (Key, Key) -> int
  type KeyHash = Key -> nat

  predicate EqualLaw(cmp: KeyCmp, a: Key, b: Key, c: Key) {
    && cmp(a, a) == 0
    && (cmp(a, b) == 0 ==> cmp(b, a) == 0)
    && (cmp(a, b) == 0 && cmp(b, c) == 0 ==> cmp(a, c) == 0)
  }

  /** key_cmp decides an equivalence of keys. */
  ghost predicate Equivalence(cmp: KeyCmp) {
    forall a, b, c {:trigger EqualLaw(cmp, a, b, c)} :: EqualLaw(cmp, a, b, c)
  }

  predicate HashLaw(cmp: KeyCmp, hash: KeyHash, a: Key, b: Key) {
    cmp(a, b) == 0 ==> hash(a) == hash(b)
  }

  /** Equal keys hash equally. */
  ghost predicate HashesAgree(cmp: KeyCmp, hash: KeyHash) {
    forall a, b {:trigger HashLaw(cmp, hash, a, b)} :: HashLaw(cmp, hash, a, b)
  }

  /** The same key: both NULL, or equal under the comparison. */
  predicate Same(cmp: KeyCmp, a: Slot, b: Slot) {
    match (a, b)
    case (None, None) => true
    case (Some(x), Some(y)) => cmp(x, y) == 0
    case _ => false
  }

  lemma SameLaws(cmp: KeyCmp, a: Slot, b: Slot, c: Slot)
    requires Equivalence(cmp)
    ensures Same(cmp, a, a)
    ensures Same(cmp, a, b) <==> Same(cmp, b, a)
    ensures Same(cmp, a, b) && Same(cmp, b, c) ==> Same(cmp, a, c)
  {
    var x: Key :| true;
    var a', b', c' := if a.Some? then a.value else x, if b.Some? then b.value else x, if c.Some? then c.value else x;
    assert EqualLaw(cmp, a', b', c') && EqualLaw(cmp, b', a', c');
  }

  /** The hash of an entry; NULL is stored with hash 0. */
  function HashOf(hash: KeyHash, key: Slot): nat {
    if key.Some? then hash(key.value) else 0
  }

  lemma SameHash(cmp: KeyCmp, hash: KeyHash, a: Slot, b: Slot)
    requires HashesAgree(cmp, hash) && Same(cmp, a, b)
    ensures HashOf(hash, a) == HashOf(hash, b)
  {
    if a.Some? {
      assert HashLaw(cmp, hash, a.value, b.value);
    }
  }

  predicate ApartAt<V>(cmp: KeyCmp, m: map<Slot, V>, a: Slot, b: Slot) {
    a in m && b in m && Same(cmp, a, b) ==> a == b
  }

  /** No key appears twice. */
  ghost predicate KeysApart<V>(cmp: KeyCmp, m: map<Slot, V>) {
    forall a, b {:trigger ApartAt(cmp, m, a, b)} :: ApartAt(cmp, m, a, b)
  }

  predicate StoredAs<V>(cmp: KeyCmp, m: map<Slot, V>, key: Slot, k: Slot) {
    k in m && Same(cmp, k, key)
  }

  /** The key under which m stores key: an equal one, if there is one. */
  ghost function Stored<V>(cmp: KeyCmp, m: map<Slot, V>, key: Slot): (r: Slot)
    ensures StoredAs(cmp, m, key, r)
      || (r == key && forall k {:trigger StoredAs(cmp, m, key, k)} :: !StoredAs(cmp, m, key, k))
  {
    if exists k {:trigger StoredAs(cmp, m, key, k)} :: StoredAs(cmp, m, key, k) then
      var k :| StoredAs(cmp, m, key, k); k
    else key
  }

  ghost function Lookup<V>(cmp: KeyCmp, m: map<Slot, V>, key: Slot): Option<V> {
    var k := Stored(cmp, m, key);
    if k in m then Some(m[k]) else None
  }

  ghost function Put<V>(cmp: KeyCmp, m: map<Slot, V>, key: Slot, value: V): map<Slot, V> {
    m[Stored(cmp, m, key) := value]
  }

  ghost function Drop<V>(cmp: KeyCmp, m: map<Slot, V>, key: Slot): map<Slot, V> {
    m - {Stored(cmp, m, key)}
  }

  lemma StoredIs<V>(cmp: KeyCmp, m: map<Slot, V>, key: Slot, k: Slot)
    requires Equivalence(cmp) && KeysApart(cmp, m) && k in m && Same(cmp, k, key)
    ensures Stored(cmp, m, key) == k
  {
    assert StoredAs(cmp, m, key, k);
    var r := Stored(cmp, m, key);
    SameLaws(cmp, k, key, r);
    SameLaws(cmp, key, r, k);
    assert ApartAt(cmp, m, k, r);
  }

  lemma StoredNone<V>(cmp: KeyCmp, m: map<Slot, V>, key: Slot)
    requires forall k | k in m :: !Same(cmp, k, key)
    ensures Stored(cmp, m, key) == key
    ensures Equivalence(cmp) ==> key !in m
  {
    assert forall k :: !StoredAs(cmp, m, key, k);
    if Equivalence(cmp) {
      SameLaws(cmp, key, key, key);
    }
  }

  /** What a key is stored under, by the comparison function itself. */
  lemma StoredNames<V>(cmp: KeyCmp, m: map<Slot, V>, key: Slot)
    requires Equivalence(cmp) && KeysApart(cmp, m)
    ensures forall k | k in m && (if k.Some? && key.Some? then cmp(k.value, key.value) == 0 else k == key) ::
              Stored(cmp, m, key) == k
    ensures (forall k | k in m :: !(if k.Some? && key.Some? then cmp(k.value, key.value) == 0 else k == key)) ==>
              Stored(cmp, m, key) == key && key !in m
  {
    forall k | k in m && (if k.Some? && key.Some? then cmp(k.value, key.value) == 0 else k == key)
      ensures Stored(cmp, m, key) == k
    {
      StoredIs(cmp, m, key, k);
    }
    if forall k | k in m :: !(if k.Some? && key.Some? then cmp(k.value, key.value) == 0 else k == key) {
      StoredNone(cmp, m, key);
    }
  }

  /** After adding, every equal key finds the value, and every other key what it found before. */
  lemma LookupPut<V>(cmp: KeyCmp, m: map<Slot, V>, key: Slot, value: V, other: Slot)
    requires Equivalence(cmp) && KeysApart(cmp, m)
    ensures KeysApart(cmp, Put(cmp, m, key, value))
    ensures Lookup(cmp, Put(cmp, m, key, value), other) ==
      if Same(cmp, other, key) then Some(value) else Lookup(cmp, m, other)
  {
    var k, m' := Stored(cmp, m, key), Put(cmp, m, key, value);
    SameLaws(cmp, key, key, key);
    forall a, b
      ensures ApartAt(cmp, m', a, b)
    {
      assert ApartAt(cmp, m, a, b);
      NewKeyApart(cmp, m, key, a);
      NewKeyApart(cmp, m, key, b);
      SameLaws(cmp, a, b, a);
    }
    SameLaws(cmp, k, key, other);
    SameLaws(cmp, other, key, k);
    SameLaws(cmp, other, k, key);
    if Same(cmp, other, key) {
      StoredIs(cmp, m', other, k);
    } else {
      OtherStored(cmp, m, m', k, other);
    }
  }

  lemma NewKeyApart<V>(cmp: KeyCmp, m: map<Slot, V>, key: Slot, a: Slot)
    requires Equivalence(cmp) && KeysApart(cmp, m)
    ensures a in m && Same(cmp, Stored(cmp, m, key), a) ==> a == Stored(cmp, m, key)
  {
    var k := Stored(cmp, m, key);
    SameLaws(cmp, k, a, k);
    assert ApartAt(cmp, m, k, a);
    assert a in m && Same(cmp, a, key) ==> StoredAs(cmp, m, key, a);
  }

  /** Keys that are not equal to k do not notice a change at k. */
  lemma OtherStored<V>(cmp: KeyCmp, m: map<Slot, V>, m': map<Slot, V>, k: Slot, other: Slot)
    requires Equivalence(cmp) && KeysApart(cmp, m) && KeysApart(cmp, m') && !Same(cmp, k, other)
    requires forall x | x != k :: (x in m <==> x in m') && (x in m ==> m[x] == m'[x])
    ensures Lookup(cmp, m, other) == Lookup(cmp, m', other)
  {
    var r, r' := Stored(cmp, m, other), Stored(cmp, m', other);
    SameLaws(cmp, other, other, other);
    assert r' in m' && Same(cmp, r', other) ==> StoredAs(cmp, m, other, r');
    if r in m {
      StoredIs(cmp, m', other, r);
    }
  }

  /** After removing, equal keys find nothing, and every other key what it found before. */
  lemma LookupDrop<V>(cmp: KeyCmp, m: map<Slot, V>, key: Slot, other: Slot)
    requires Equivalence(cmp) && KeysApart(cmp, m)
    ensures KeysApart(cmp, Drop(cmp, m, key))
    ensures Lookup(cmp, Drop(cmp, m, key), other) == if Same(cmp, other, key) then None else Lookup(cmp, m, other)
  {
    var k, m' := Stored(cmp, m, key), Drop(cmp, m, key);
    SameLaws(cmp, key, key, key);
    forall a, b
      ensures ApartAt(cmp, m', a, b)
    {
      assert ApartAt(cmp, m, a, b);
    }
    SameLaws(cmp, k, key, other);
    SameLaws(cmp, other, key, k);
    SameLaws(cmp, other, k, key);
    if Same(cmp, other, key) {
      var r := Stored(cmp, m', other);
      if r in m' {
        SameLaws(cmp, r, other, key);
        StoredIs(cmp, m, key, r);
      }
    } else {
      OtherStored(cmp, m, m', k, other);
    }
  }

  // ---- Whole runs ----

  datatype Change<V> = Adding(key: Slot, value: V) | Removing(key: Slot) | RemovingAll

  ghost function After<V>(cmp: KeyCmp, m: map<Slot, V>, changes: seq<Change<V>>): map<Slot, V> {
    if changes == [] then m
    else
      var m' := After(cmp, m, changes[..|changes| - 1]);
      match changes[|changes| - 1]
      case Adding(key, value) => Put(cmp, m', key, value)
      case Removing(key) => Drop(cmp, m', key)
      case RemovingAll => map[]
  }

  /** What the changes say about key, the last one that concerns it deciding; first is what was there before. */
  function LastWord<V>(cmp: KeyCmp, changes: seq<Change<V>>, key: Slot, first: Option<V>): Option<V> {
    if changes == [] then first
    else
      var earlier := LastWord(cmp, changes[..|changes| - 1], key, first);
      match changes[|changes| - 1]
      case Adding(k, value) => if Same(cmp, key, k) then Some(value) else earlier
      case Removing(k) => if Same(cmp, key, k) then None else earlier
      case RemovingAll => None
  }

  /** After any run a lookup finds what the last change of an equal key left, and no key is stored twice. */
  lemma {:induction false} RunLookup<V>(cmp: KeyCmp, m: map<Slot, V>, changes: seq<Change<V>>, key: Slot)
    requires Equivalence(cmp) && KeysApart(cmp, m)
    ensures KeysApart(cmp, After(cmp, m, changes))
    ensures Lookup(cmp, After(cmp, m, changes), key) == LastWord(cmp, changes, key, Lookup(cmp, m, key))
  {
    if changes != [] {
      var m' := After(cmp, m, changes[..|changes| - 1]);
      RunLookup(cmp, m, changes[..|changes| - 1], key);
      match changes[|changes| - 1]
      case Adding(k, value) => LookupPut(cmp, m', k, value, key);
      case Removing(k) => LookupDrop(cmp, m', k, key);
      case RemovingAll =>
    }
  }
}
