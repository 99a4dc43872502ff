/** The dynamic array of src/collect/array.c: growing at the end, and filtering in place or into a copy. */
module Arrays {
  import opened Bits
  import opened Common
  import opened Floats

  /** The elements of s that pred accepts, in their order. */
  function Filter<T>(pred: T -> bool, s: seq<T>): seq<T> {
    if s == [] then []
    else if pred(s[0]) then [s[0]] + Filter(pred, s[1..])
    else Filter(pred, s[1..])
  }

  lemma {:induction false} FilterAppend<T>(pred: T -> bool, a: seq<T>, b: seq<T>)
    ensures Filter(pred, a + b) == Filter(pred, a) + Filter(pred, b)
  {
    if a == [] {
      assert a + b == b;
    } else {
      assert (a + b)[1..] == a[1..] + b;
      FilterAppend(pred, a[1..], b);
    }
  }

  /** Each accepted element stays as often as it was there, each rejected one goes. */
  lemma {:induction false} FilterCounts<T>(pred: T -> bool, s: seq<T>, x: T)
    ensures multiset(Filter(pred, s))[x] == if pred(x) then multiset(s)[x] else 0
  {
    if s != [] {
      FilterCounts(pred, s[1..], x);
      assert s == [s[0]] + s[1..];
    }
  }

  /** Filtering from element i on. */
  lemma FilterFrom<T>(pred: T -> bool, s: seq<T>, i: nat)
    requires i < |s|
    ensures Filter(pred, s[i..]) == (if pred(s[i]) then [s[i]] else []) + Filter(pred, s[i + 1..])
    ensures Filter(pred, s[..i + 1]) == Filter(pred, s[..i]) + (if pred(s[i]) then [s[i]] else [])
  {
    assert s[i..][1..] == s[i + 1..];
    assert s[..i + 1] == s[..i] + [s[i]];
    FilterAppend(pred, s[..i], [s[i]]);
  }

  /** While s is filtered from the back: its first i elements are untouched, then come rm rejected slots,
      then the keep elements that the rest of s leaves. */
  ghost predicate Cleared<T>(pred: T -> bool, s: seq<T>, b: seq<T>, i: nat, rm: nat, keep: nat) {
    && i <= |s| && i + rm + keep <= |b|
    && b[..i] == s[..i] && b[i + rm..i + rm + keep] == Filter(pred, s[i..])
  }

  lemma StillThere<T>(pred: T -> bool, s: seq<T>, b: seq<T>, i: nat, rm: nat, keep: nat)
    requires Cleared(pred, s, b, i + 1, rm, keep)
    ensures b[i] == s[i] && b[..i] == s[..i]
  {
    assert b[..i + 1][i] == s[..i + 1][i];
    assert b[..i] == b[..i + 1][..i] && s[..i] == s[..i + 1][..i];
  }

  lemma Reject<T>(pred: T -> bool, s: seq<T>, b: seq<T>, i: nat, rm: nat, keep: nat)
    requires Cleared(pred, s, b, i + 1, rm, keep) && !pred(s[i])
    ensures Cleared(pred, s, b, i, rm + 1, keep)
  {
    StillThere(pred, s, b, i, rm, keep);
    FilterFrom(pred, s, i);
  }

  lemma Accept<T>(pred: T -> bool, s: seq<T>, b: seq<T>, i: nat, keep: nat)
    requires Cleared(pred, s, b, i + 1, 0, keep) && pred(s[i])
    ensures Cleared(pred, s, b, i, 0, keep + 1)
  {
    StillThere(pred, s, b, i, 0, keep);
    FilterFrom(pred, s, i);
    assert b[i..i + 1 + keep] == [b[i]] + b[i + 1..i + 1 + keep];
  }

  /** s with its elements in reverse, but for the two in the middle of an even number of them. */
  function SwappedEnds<T>(s: seq<T>): seq<T> {
    seq(|s|, k requires 0 <= k < |s| =>
      if |s| % 2 == 0 && (k == |s| / 2 || k + 1 == |s| / 2) then s[k] else s[|s| - 1 - k])
  }

  /** Reversal does what it says exactly for an odd number of elements, or when the two in the middle are equal. */
  lemma ReverseIff<T>(s: seq<T>)
    requires s != []
    ensures SwappedEnds(s) == Reversed(s) <==> |s| % 2 == 1 || s[|s| / 2 - 1] == s[|s| / 2]
  {
    var a, b := SwappedEnds(s), Reversed(s);
    if |s| % 2 == 0 {
      assert a[|s| / 2] == s[|s| / 2] && b[|s| / 2] == s[|s| / 2 - 1];
    }
  }

  ghost predicate Swapped<T>(s: seq<T>, b: seq<T>, i: nat, k: int) {
    0 <= k < |s| == |b| ==> b[k] == if k < i || k >= |s| - i then s[|s| - 1 - k] else s[k]
  }

  /** b is s with the first and the last i elements exchanged. */
  ghost predicate SwappedTo<T>(s: seq<T>, b: seq<T>, i: nat) {
    |b| == |s| && forall k {:trigger Swapped(s, b, i, k)} | 0 <= k < |s| :: Swapped(s, b, i, k)
  }

  lemma SwapStep<T>(s: seq<T>, b: seq<T>, i: nat)
    requires SwappedTo(s, b, i) && i < (|s| - 1) / 2
    ensures SwappedTo(s, b[i := b[|s| - 1 - i]][|s| - 1 - i := b[i]], i + 1)
  {
    var b', i' := b[i := b[|s| - 1 - i]][|s| - 1 - i := b[i]], i + 1;
    assert Swapped(s, b, i, i) && Swapped(s, b, i, |s| - 1 - i);
    forall k | 0 <= k < |s|
      ensures Swapped(s, b', i', k)
    {
      assert Swapped(s, b, i, k);
    }
  }

  lemma SwapsDone<T>(s: seq<T>, b: seq<T>)
    requires s != [] && SwappedTo(s, b, (|s| - 1) / 2)
    ensures b == SwappedEnds(s)
  {
    var a := SwappedEnds(s);
    forall k | 0 <= k < |s|
      ensures b[k] == a[k]
    {
      assert Swapped(s, b, (|s| - 1) / 2, k);
    }
  }

  // ---- Growing ----

  const CC_MAX_ELEMENTS := WORD - 2

  /** The capacity times the factor 2.0: the conversion to floating point rounds it, the doubling is exact. */
  function Doubled(c: nat): nat {
    2 * Nearest(c)
  }

  /** How growing from c slots ends: the bytes of the doubled capacity fit into 32 bits, or wrap around
      to 0, or wrap around to a buffer that the elements do not fit into. */
  function GrowthStatus(c: nat, granted: bool): Status {
    if !granted then ErrAlloc
    else if c < 0x1FFF_FFF0 then Ok
    else if 0x2000_0020 < c < 0x3FFF_FFE0 then Fault
    else ErrAlloc
  }

  /** The slots that are granted for the doubled capacity. */
  lemma GrowthIs(c: nat)
    requires 0 < c < 0x4000_0000
    ensures c < Doubled(c) < WORD
    ensures GrowthStatus(c, true) == Ok <==> Slots(Doubled(c)) >= c
    ensures GrowthStatus(c, true) == Ok ==> Slots(Doubled(c)) == Doubled(c)
    ensures GrowthStatus(c, true) == Fault <==> 0 < Slots(Doubled(c)) < c
    ensures GrowthStatus(c, true) == ErrAlloc <==> Slots(Doubled(c)) == 0
    ensures GrowthStatus(c, false) == ErrAlloc
  {
    NearestRanges(c);
    SlotsOfDouble(Nearest(c));
  }

  lemma NearestRanges(c: nat)
    requires 0 < c < 0x4000_0000
    ensures c < 0x1FFF_FFF0 ==> c < 2 * Nearest(c) < 0x4000_0000
    ensures 0x1FFF_FFF0 <= c <= 0x2000_0020 ==> Nearest(c) == 0x2000_0000
    ensures 0x2000_0020 < c < 0x3FFF_FFE0 ==> 0x2000_0000 < Nearest(c) <= 0x3FFF_FFC0 && Nearest(c) <= c + 32
    ensures 0x3FFF_FFE0 <= c ==> Nearest(c) == 0x4000_0000
  {
    if c < 0x1000_0000 {
      NearestLow(c);
    } else if c < 0x2000_0000 {
      SpacingIs(c, 32);
      RoundBy32(c);
    } else {
      SpacingIs(c, 64);
      RoundBy64(c);
    }
  }

  lemma NearestLow(c: nat)
    requires 0 < c < 0x1000_0000
    ensures c < 2 * Nearest(c) < 0x4000_0000
  {
    RoundIs(c, Spacing(c));
    SpacingAtMost(c, 16);
  }

  lemma RoundBy32(c: nat)
    requires 0x1000_0000 <= c < 0x2000_0000
    ensures if c < 0x1FFF_FFF0 then c < 2 * RoundTo(c, 32) < 0x4000_0000 else RoundTo(c, 32) == 0x2000_0000
  {
  }

  lemma RoundBy64(c: nat)
    requires 0x2000_0000 <= c < 0x4000_0000
    ensures c <= 0x2000_0020 ==> RoundTo(c, 64) == 0x2000_0000
    ensures 0x2000_0020 < c < 0x3FFF_FFE0 ==> 0x2000_0000 < RoundTo(c, 64) <= 0x3FFF_FFC0 && RoundTo(c, 64) <= c + 32
    ensures 0x3FFF_FFE0 <= c ==> RoundTo(c, 64) == 0x4000_0000
  {
  }

  lemma SlotsOfDouble(f: nat)
    requires f <= 0x4000_0000
    ensures Slots(2 * f) == if f < 0x2000_0000 then 2 * f else if f < 0x4000_0000 then 2 * f - 0x4000_0000 else 0
  {
  }

  /** The growth is by the factor 2 exactly for the capacities that floating point holds. */
  lemma DoubledExact(c: nat)
    ensures Doubled(c) == 2 * c <==> c % Spacing(c) == 0
    ensures c <= PRECISION ==> Doubled(c) == 2 * c
  {
    NearestExact(c);
  }

  /** The capacity after growing from c to n slots. A product that came out no greater counts as the largest one. */
  function CapacityAfter(c: nat, n: nat): nat {
    if n <= c then CC_MAX_ELEMENTS else n
  }

  /** The largest capacity that fits more than twice into the largest number of elements. */
  lemma Thirds(c: nat)
    ensures c == 0 || CC_MAX_ELEMENTS / c <= 2 <==> c == 0 || c > 0x5555_5554
  {
    if c > 0 {
      var q := CC_MAX_ELEMENTS / c;
      assert q * c <= CC_MAX_ELEMENTS < (q + 1) * c;
    }
  }

  class Array<T(0)> {
    var size: nat
    var capacity: nat
    var buffer: array<T>

    /** A buffer is smaller than the address space. */
    ghost predicate Valid()
      reads this, buffer
    {
      size <= capacity == buffer.Length && 0 < capacity && SLOT_BYTES * capacity < WORD
    }

    ghost function Contents(): seq<T>
      reads this, buffer
      requires Valid()
    {
      buffer[..size]
    }

    /** A new array, which has as many slots as its capacity exactly if their bytes can be counted. */
    constructor (capacity: nat)
      requires 0 < capacity < WORD
      ensures this.capacity == capacity && size == 0 && fresh(buffer) && buffer.Length == Slots(capacity)
      ensures Valid() <==> capacity < 0x4000_0000
      ensures Valid() ==> Contents() == []
    {
      SlotsAre(capacity);
      this.capacity := capacity;
      size := 0;
      buffer := new T[Slots(capacity)];
    }

    /** array_new_conf, with the factor 2. */
    static method New(capacity: nat, granted: bool) returns (st: Status, ar: Array?<T>)
      requires capacity < WORD
      ensures st == (if capacity == 0 || capacity > 0x5555_5554 then ErrInvalidCapacity
                     else if granted && capacity != 0x4000_0000 then Ok
                     else ErrAlloc)
      ensures ar != null <==> st == Ok
      ensures st == Ok ==>
        && fresh(ar) && fresh(ar.buffer) && ar.capacity == capacity && ar.buffer.Length == Slots(capacity)
        && (ar.Valid() <==> capacity < 0x4000_0000) && (ar.Valid() ==> ar.Contents() == [])
    {
      if capacity == 0 || CC_MAX_ELEMENTS / capacity <= 2 {
        Thirds(capacity);
        return ErrInvalidCapacity, null;
      }
      Thirds(capacity);
      var ok := MemAlloc(SLOT_BYTES * capacity % WORD, granted);
      if !ok {
        return ErrAlloc, null;
      }
      ar := new Array(capacity);
      st := Ok;
    }

    method Add(element: T, granted: bool) returns (st: Status)
      requires Valid()
      modifies this, buffer
      ensures Valid() && (buffer == old(buffer) || fresh(buffer))
      ensures Contents() == if st == Ok then old(Contents()) + [element] else old(Contents())
      ensures old(size) < old(capacity) ==> st == Ok && capacity == old(capacity)
      ensures old(size) == old(capacity) ==>
        st == GrowthStatus(old(capacity), granted) && (st == Ok ==> capacity == Doubled(old(capacity)))
      ensures st != Ok ==> capacity == old(capacity)
    {
      if size >= capacity {
        st := ExpandCapacity(granted);
        if st != Ok {
          return;
        }
      }
      buffer[size] := element;
      size := size + 1;
      return Ok;
    }

    /** Doubles the capacity of a full array. A new buffer that came out too small is overrun by the copy. */
    method ExpandCapacity(granted: bool) returns (st: Status)
      requires Valid() && size == capacity
      modifies this
      ensures Valid() && Contents() == old(Contents()) && size == old(size)
      ensures st == Ok ==> capacity == Doubled(old(capacity)) > old(capacity) && fresh(buffer)
      ensures st != Ok ==> unchanged(this)
      ensures st == GrowthStatus(old(capacity), granted)
    {
      GrowthIs(capacity);
      var newCapacity := Doubled(capacity);
      if capacity == CC_MAX_ELEMENTS {
        return ErrMaxCapacity;
      }
      st := Grow(newCapacity, granted);
    }

    method Grow(newCapacity: nat, granted: bool) returns (st: Status)
      requires Valid() && size == capacity < newCapacity < WORD
      requires Slots(newCapacity) >= capacity ==> Slots(newCapacity) == newCapacity
      modifies this
      ensures Valid() && Contents() == old(Contents()) && size == old(size)
      ensures st == if !granted || Slots(newCapacity) == 0 then ErrAlloc
                    else if Slots(newCapacity) < old(capacity) then Fault
                    else Ok
      ensures if st == Ok then capacity == newCapacity && fresh(buffer) else unchanged(this)
    {
      var bytes := newCapacity * SLOT_BYTES % WORD;
      var ok := MemAlloc(bytes, granted);
      if !ok {
        return ErrAlloc;
      }
      if Slots(newCapacity) < size {
        return Fault;
      }
      Enlarge(newCapacity);
      return Ok;
    }

    method Enlarge(newCapacity: nat)
      requires Valid() && capacity < newCapacity == Slots(newCapacity)
      modifies this
      ensures Valid() && Contents() == old(Contents()) && size == old(size)
      ensures capacity == newCapacity && fresh(buffer)
    {
      SlotsAre(newCapacity);
      var newBuff := NewCopy(Slots(newCapacity));
      capacity := CapacityAfter(capacity, newCapacity);
      buffer := newBuff;
    }

    /** A new buffer with the elements at its start. */
    method NewCopy(slots: nat) returns (newBuff: array<T>)
      requires Valid() && slots >= size
      ensures fresh(newBuff) && newBuff.Length == slots && newBuff[..size] == Contents()
    {
      newBuff := new T[slots];
      MemCpy(newBuff, 0, buffer, 0, size);
    }

    /** Swaps from both ends inwards. The loop stops one round early when the size is even, so the two elements
        in the middle keep their places. For an empty array the bounds wrap around, and the first round leaves the
        buffer. */
    method Reverse() returns (st: Status)
      requires Valid()
      modifies buffer
      ensures Valid() && st == if old(Contents()) == [] then Fault else Ok
      ensures Contents() == SwappedEnds(old(Contents()))
      ensures |Contents()| == old(|Contents()|)
      ensures forall k | 0 <= k < size ::
        buffer[k] == old(buffer[if size % 2 == 0 && (k == size / 2 || k + 1 == size / 2) then k else size - 1 - k])
    {
      ghost var s := buffer[..size];
      var i, j := 0, (size + WORD - 1) % WORD;
      while i < (size + WORD - 1) % WORD / 2
        invariant size > 0 ==> 0 <= i <= (|s| - 1) / 2 && j == |s| - 1 - i && SwappedTo(s, buffer[..size], i)
        invariant size == |s| <= buffer.Length && (size == 0 ==> i == 0 && j == WORD - 1)
        decreases WORD - i
        modifies buffer
      {
        if i >= buffer.Length || j >= buffer.Length {
          return Fault;
        }
        SwapRound(i, j, s);
        i := i + 1;
        j := j - 1;
      }
      SwapsDone(s, buffer[..size]);
      return Ok;
    }

    method SwapRound(i: nat, j: nat, ghost s: seq<T>)
      requires Valid() && size > 0 && size == |s| && i < (size - 1) / 2 && j == size - 1 - i
        && SwappedTo(s, buffer[..size], i)
      modifies buffer
      ensures Valid() && SwappedTo(s, buffer[..size], i + 1)
    {
      ghost var b := buffer[..size];
      var tmp := buffer[i];
      buffer[i] := buffer[j];
      buffer[j] := tmp;
      assert buffer[..size] == b[i := b[j]][j := b[i]];
      SwapStep(s, b, i);
    }

    /** Removes the elements that pred rejects. Runs of rejected elements are closed from the back, a block at a time:
        the block of kept elements lies at i + 1 + rm, and what is behind it is already dropped. */
    method FilterMut(pred: T -> bool) returns (st: Status)
      requires Valid()
      modifies this`size, buffer
      ensures Valid()
      ensures old(Contents()) == [] ==> st == ErrOutOfRange && Contents() == []
      ensures old(Contents()) != [] ==> st == Ok && Contents() == Filter(pred, old(Contents()))
    {
      var rm, keep := 0, 0;
      if size == 0 {
        return ErrOutOfRange;
      }
      ghost var s := buffer[..size];
      assert s[|s|..] == [];
      var i: int := size - 1;
      while i != -1
        invariant -1 <= i < |s| && size == i + 1 + rm + keep <= capacity == buffer.Length
        invariant Cleared(pred, s, buffer[..], i + 1, rm, keep)
        modifies this`size, buffer
        decreases i
      {
        StillThere(pred, s, buffer[..], i, rm, keep);
        if !pred(buffer[i]) {
          Reject(pred, s, buffer[..], i, rm, keep);
          rm := rm + 1;
          i := i - 1;
          continue;
        }
        if rm > 0 {
          CloseGap(i + 1, rm, keep, pred, s);
          rm := 0;
        }
        Accept(pred, s, buffer[..], i, keep);
        keep := keep + 1;
        i := i - 1;
      }
      if rm > 0 {
        MemMove(buffer, 0, rm, keep);
        size := size - rm;
      }
      assert s[0..] == s;
      return Ok;
    }

    /** Moves the block of keep elements down over the rm rejected elements before it. */
    method CloseGap(start: nat, rm: nat, keep: nat, pred: T -> bool, ghost s: seq<T>)
      requires Valid() && size == start + rm + keep && Cleared(pred, s, buffer[..], start, rm, keep)
      modifies this`size, buffer
      ensures Valid() && size == start + keep && Cleared(pred, s, buffer[..], start, 0, keep)
    {
      if keep > 0 {
        MemMove(buffer, start, start + rm, keep);
      }
      size := size - rm;
    }

    /** A new array with the elements that pred accepts. */
    method FilterCopy(pred: T -> bool, granted: bool) returns (st: Status, out: Array?<T>)
      requires Valid()
      ensures st == if Contents() == [] then ErrOutOfRange else if granted then Ok else ErrAlloc
      ensures st == Ok ==>
        && out != null && fresh(out) && fresh(out.buffer) && out.Valid() && out.capacity == capacity
        && out.Contents() == Filter(pred, Contents())
      ensures st != Ok ==> out == null
    {
      if size == 0 {
        return ErrOutOfRange, null;
      }
      var ok := MemAlloc(SLOT_BYTES * capacity, granted);
      if !ok {
        return ErrAlloc, null;
      }
      var filtered := new Array(capacity);
      ghost var s := buffer[..size];
      var f := 0;
      for i := 0 to size
        invariant f == filtered.size <= i && filtered.Valid() && fresh(filtered) && fresh(filtered.buffer)
        invariant filtered.capacity == capacity && filtered.Contents() == Filter(pred, s[..i])
      {
        FilterFrom(pred, s, i);
        if pred(buffer[i]) {
          filtered.buffer[f] := buffer[i];
          f := f + 1;
          filtered.size := filtered.size + 1;
        }
      }
      assert s[..size] == s;
      return Ok, filtered;
    }
  }

  /** memmove of n elements towards the start of a buffer. */
  method MemMove<T>(a: array<T>, d: nat, s: nat, n: nat)
    requires d <= s && s + n <= a.Length
    modifies a
    ensures a[d..d + n] == old(a[s..s + n]) && a[..d] == old(a[..d])
  {
    for i := 0 to n
      invariant a[d..d + i] == old(a[s..s + i]) && a[..d] == old(a[..d]) && a[s + i..] == old(a[s + i..])
    {
      assert a[s + i] == old(a[s + i]) by {
        assert a[s + i..][0] == old(a[s + i..])[0];
      }
      a[d + i] := a[s + i];
    }
  }
}
