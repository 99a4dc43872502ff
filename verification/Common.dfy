/** Element types, status codes, options and comparators shared by the collections. */
module Common {
  import opened Bits

  /** Keys, elements and values are void pointers; nothing is known about what they point to. */
  type Key(0, ==, !new)
  type Value(0, ==)

  datatype Option<+T> = None | Some(value: T)

  /** The outcomes of enum cc_stat that the modelled operations can return. Fault is none of them: it stands for
      a call in which the C code follows a NULL pointer or leaves the bounds of a buffer. */
  datatype Status =
    | Ok
    | ErrAlloc
    | ErrMaxCapacity
    | ErrInvalidCapacity
    | ErrKeyNotFound
    | ErrValueNotFound
    | ErrOutOfRange
    | IterEnd
    | Fault

  // ---- Allocation ----

  /** A pointer takes four bytes. */
  const SLOT_BYTES := 4

  /** An allocation may fail at any time. The parameter granted of an operation says whether the allocator has the
      memory that the operation asks for; a request for no bytes, also one that wrapped around to none, fails anyway. */
  method MemAlloc(bytes: nat, granted: bool) returns (ok: bool)
    ensures ok <==> granted && bytes > 0
  {
    ok := granted && bytes > 0;
  }

  /** The slots that are allocated for a request: their bytes are counted in 32 bits. */
  function Slots(requested: nat): nat {
    SLOT_BYTES * requested % WORD / SLOT_BYTES
  }

  lemma SlotsAre(requested: nat)
    requires requested < WORD
    ensures requested < 0x4000_0000 ==> Slots(requested) == requested
    ensures Slots(requested) < 0x4000_0000
  {
  }

  // ---- Sequences and buffers ----

  function Reversed<T>(s: seq<T>): seq<T> {
    seq(|s|, k requires 0 <= k < |s| => s[|s| - 1 - k])
  }

  lemma ReversedTwice<T>(s: seq<T>)
    ensures Reversed(Reversed(s)) == s
  {
    var r := Reversed(Reversed(s));
    assert forall k | 0 <= k < |s| :: r[k] == s[k];
  }

  /** memcpy of n elements between different buffers. */
  method MemCpy<T>(dst: array<T>, d: nat, src: array<T>, s: nat, n: nat)
    requires dst != src && d + n <= dst.Length && s + n <= src.Length
    modifies dst
    ensures dst[d..d + n] == src[s..s + n] && dst[..d] == old(dst[..d]) && dst[d + n..] == old(dst[d + n..])
  {
    for i := 0 to n
      invariant dst[d..d + i] == src[s..s + i] && dst[..d] == old(dst[..d]) && dst[d + i..] == old(dst[d + i..])
    {
      dst[d + i] := src[s + i];
    }
  }

  // ---- Comparators ----

  type Comparator = (Key, Key) -> int

  /** The comparator is antisymmetric on a and b, and transitive on a, b and c. */
  predicate Law(cmp: Comparator, a: Key, b: Key, c: Key) {
    && (cmp(a, b) < 0 <==> cmp(b, a) > 0)
    && (cmp(a, b) <= 0 && cmp(b, c) <= 0 ==> cmp(a, c) <= 0)
  }

  /** What the ordered map and the sort ask of a comparator. Keys that compare as 0 count as the same key. */
  ghost predicate TotalPreorder(cmp: Comparator) {
    forall a, b, c {:trigger Law(cmp, a, b, c)} :: Law(cmp, a, b, c)
  }

  lemma Flip(cmp: Comparator, a: Key, b: Key)
    requires TotalPreorder(cmp)
    ensures cmp(a, b) < 0 <==> cmp(b, a) > 0
    ensures cmp(a, b) > 0 <==> cmp(b, a) < 0
    ensures a == b ==> cmp(a, b) == 0
  {
    assert Law(cmp, a, b, b) && Law(cmp, b, a, a);
  }

  lemma Below(cmp: Comparator, a: Key, b: Key, c: Key)
    requires TotalPreorder(cmp) && cmp(a, b) <= 0 && cmp(b, c) <= 0 && (cmp(a, b) < 0 || cmp(b, c) < 0)
    ensures cmp(a, c) < 0 && cmp(c, a) > 0
  {
    assert Law(cmp, a, b, c) && Law(cmp, c, a, b) && Law(cmp, b, c, a);
    Flip(cmp, a, b);
    Flip(cmp, b, c);
    Flip(cmp, a, c);
  }

  /** Keys that compare as 0 compare alike with every other key. */
  lemma SameOrder(cmp: Comparator, a: Key, b: Key, c: Key)
    requires TotalPreorder(cmp)
    ensures cmp(a, b) == 0 ==> cmp(b, a) == 0
    ensures cmp(a, b) == 0 ==> (cmp(a, c) == 0 <==> cmp(b, c) == 0) && (cmp(a, c) < 0 <==> cmp(b, c) < 0)
  {
    assert Law(cmp, a, b, c) && Law(cmp, b, a, c) && Law(cmp, c, a, b) && Law(cmp, c, b, a);
    Flip(cmp, a, b);
    Flip(cmp, a, c);
    Flip(cmp, b, c);
  }
}
