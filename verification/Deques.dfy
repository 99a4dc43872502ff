/** The ring-buffer deque of src/collect/deque.c and the queue of src/collect/queue.c on top of it. */
module Deques {
  import opened Bits
  import opened Common

  /** The buffer index of element i of a deque. */
  function Slot(first: nat, i: nat, capacity: nat): (r: nat)
    requires first < capacity && i <= capacity
    ensures r == (first + i) % capacity
  {
    var wraps := if first + i < capacity then 0 else 1;
    ModIs(first + i, capacity, wraps, first + i - wraps * capacity);
    if first + i < capacity then first + i else first + i - capacity
  }

  /** The ring buffer buf holds c from index first on. */
  ghost predicate Ring<T>(buf: seq<T>, first: nat, c: seq<T>) {
    && first < |buf| && |c| <= |buf|
    && forall i {:trigger HeldAt(buf, first, c, i)} | 0 <= i < |c| :: HeldAt(buf, first, c, i)
  }

  ghost predicate HeldAt<T>(buf: seq<T>, first: nat, c: seq<T>, i: int)
    requires first < |buf| && |c| <= |buf|
  {
    0 <= i < |c| ==> buf[Slot(first, i, |buf|)] == c[i]
  }

  lemma RingFront<T>(buf: seq<T>, first: nat, c: seq<T>, x: T, f: nat)
    requires Ring(buf, first, c) && |c| < |buf| && f == (if first == 0 then |buf| - 1 else first - 1)
    ensures Ring(buf[f := x], f, [x] + c)
    ensures Slot(f, |c| + 1, |buf|) == Slot(first, |c|, |buf|)
  {
    var buf', c' := buf[f := x], [x] + c;
    forall i | 0 <= i < |c'|
      ensures HeldAt(buf', f, c', i)
    {
      assert HeldAt(buf, first, c, i - 1);
    }
  }

  lemma RingBack<T>(buf: seq<T>, first: nat, c: seq<T>, x: T, l: nat)
    requires Ring(buf, first, c) && |c| < |buf| && l == Slot(first, |c|, |buf|)
    ensures Ring(buf[l := x], first, c + [x])
    ensures Slot(first, |c| + 1, |buf|) == if l + 1 == |buf| then 0 else l + 1
  {
    var buf', c' := buf[l := x], c + [x];
    forall i | 0 <= i < |c'|
      ensures HeldAt(buf', first, c', i)
    {
      assert HeldAt(buf, first, c, i);
    }
  }

  lemma RingDropFront<T>(buf: seq<T>, first: nat, c: seq<T>, f: nat)
    requires Ring(buf, first, c) && c != [] && f == (if first + 1 == |buf| then 0 else first + 1)
    ensures buf[first] == c[0] && Ring(buf, f, c[1..])
    ensures Slot(f, |c| - 1, |buf|) == Slot(first, |c|, |buf|)
  {
    assert HeldAt(buf, first, c, 0);
    var c' := c[1..];
    forall i | 0 <= i < |c'|
      ensures HeldAt(buf, f, c', i)
    {
      assert HeldAt(buf, first, c, i + 1);
    }
  }

  lemma RingDropBack<T>(buf: seq<T>, first: nat, c: seq<T>, last: nat, l: nat)
    requires Ring(buf, first, c) && c != [] && last == Slot(first, |c|, |buf|)
    requires l == (if last == 0 then |buf| - 1 else last - 1)
    ensures buf[l] == c[|c| - 1] && Ring(buf, first, c[..|c| - 1]) && l == Slot(first, |c| - 1, |buf|)
  {
    assert HeldAt(buf, first, c, |c| - 1);
    var c' := c[..|c| - 1];
    forall i | 0 <= i < |c'|
      ensures HeldAt(buf, first, c', i)
    {
      assert HeldAt(buf, first, c, i);
    }
  }

  /** The contents are one stretch of the buffer, or two when they wrap around its end. */
  lemma RingStretches<T>(buf: seq<T>, first: nat, c: seq<T>)
    requires Ring(buf, first, c)
    ensures first + |c| <= |buf| ==> c == buf[first..first + |c|]
    ensures first + |c| >= |buf| ==> c == buf[first..] + buf[..first + |c| - |buf|]
  {
    var d := if first + |c| <= |buf| then buf[first..first + |c|] else buf[first..] + buf[..first + |c| - |buf|];
    forall i | 0 <= i < |c|
      ensures c[i] == d[i]
    {
      assert HeldAt(buf, first, c, i);
    }
    assert c == d;
  }

  lemma RingStraight<T>(buf: seq<T>, first: nat, c: seq<T>, last: nat)
    requires Ring(buf, first, c) && last == Slot(first, |c|, |buf|) && last > first
    ensures first + |c| == last && c == buf[first..last]
  {
    RingStretches(buf, first, c);
  }

  lemma RingWraps<T>(buf: seq<T>, first: nat, c: seq<T>, last: nat)
    requires Ring(buf, first, c) && last == Slot(first, |c|, |buf|) && last <= first && c != []
    ensures |c| == |buf| - first + last && c == buf[first..] + buf[..last]
  {
    RingStretches(buf, first, c);
  }

  lemma RingStart<T>(buf: seq<T>, c: seq<T>)
    requires |c| < |buf| && buf[..|c|] == c
    ensures Ring(buf, 0, c)
  {
    forall i | 0 <= i < |c|
      ensures HeldAt(buf, 0, c, i)
    {
      assert c[i] == buf[..|c|][i];
    }
  }

  /** The slots cover the rounded capacity exactly if the request is a power of two and its bytes can be counted. */
  lemma SlotsGranted(requested: nat, k: nat)
    requires k < 32 && requested < WORD && RoundsUp(requested, Pow2(k))
    ensures Pow2(k) <= Slots(requested) <==> PowerOfTwo(requested) && requested < 0x4000_0000
    ensures PowerOfTwo(requested) ==> Pow2(k) == requested
  {
    forall j {:trigger Pow2(j)}
      ensures 0 < Pow2(j) && (Pow2(j) <= MAX_POW_TWO || Pow2(j) >= WORD)
    {
      NoneBetween(j);
    }
    SlotsAre(requested);
    if 0 < requested <= MAX_POW_TWO {
      PowerGranted(requested, k);
    }
  }

  /** The bytes of twice 2^k slots, unless 2^k is the largest capacity. */
  lemma DoubledBytes(k: nat)
    requires k < 32
    ensures Pow2(k) != MAX_POW_TWO ==> (Pow2(k) * 2 % WORD * SLOT_BYTES % WORD > 0 <==> Pow2(k) < 0x2000_0000)
  {
    if Pow2(k) != MAX_POW_TWO {
      Doubling(k);
      CapacityBound(k + 1);
      Addressable(k + 1);
    }
  }

  lemma BytesOfPower(requested: nat)
    requires requested < WORD && SLOT_BYTES * requested % WORD > 0
    ensures PowerOfTwo(requested) ==> requested < 0x4000_0000
  {
    if PowerOfTwo(requested) {
      var k :| requested == Pow2(k);
      NoneBetween(k);
      Addressable(k);
    }
  }

  lemma MaskSlot(first: nat, i: nat, k: nat)
    requires first < Pow2(k) && i <= Pow2(k)
    ensures And(first + i, Pow2(k) - 1) == Slot(first, i, Pow2(k))
  {
    AndMask(first + i, k);
  }

  class Deque<T(0, ==)> {
    var size: nat
    var capacity: nat
    var first: nat
    var last: nat
    var buffer: array<T>

    /** The elements from first to last. */
    ghost var contents: seq<T>
    ghost var exponent: nat

    ghost predicate Valid()
      reads this, buffer
    {
      && exponent < 32 && capacity == Pow2(exponent) <= buffer.Length
      && size == |contents| && Ring(buffer[..capacity], first, contents)
      && last == Slot(first, size, capacity)
    }

    /** The capacity is rounded up, but only as many slots as requested are allocated. So the deque is usable
        exactly if the request is a power of two, and small enough to count its bytes. */
    constructor (requested: nat)
      requires requested < WORD
      ensures fresh(buffer) && buffer.Length == Slots(requested) && RoundsUp(requested, capacity)
        && PowerOfTwo(capacity)
      ensures size == 0 && contents == []
      ensures Valid() <==> PowerOfTwo(requested) && requested < 0x4000_0000
      ensures PowerOfTwo(requested) ==> capacity == requested
    {
      var c;
      ghost var k;
      c, k := UpperPowTwo(requested);
      CapacityBound(k);
      SlotsGranted(requested, k);
      capacity := c;
      first, last, size := 0, 0, 0;
      buffer := new T[Slots(requested)];
      contents := [];
      exponent := k;
    }

    /** deque_new_conf, whose allocations may fail. */
    static method New(requested: nat, granted: bool) returns (st: Status, d: Deque?<T>)
      requires requested < WORD
      ensures st == (if granted && SLOT_BYTES * requested % WORD > 0 then Ok else ErrAlloc) && (d != null <==> st == Ok)
      ensures d != null ==> fresh(d) && fresh(d.buffer) && d.contents == []
      ensures d != null ==> (d.Valid() <==> PowerOfTwo(requested))
      ensures d != null && PowerOfTwo(requested) ==> d.capacity == requested
    {
      var ok := MemAlloc(SLOT_BYTES * requested % WORD, granted);
      if !ok {
        return ErrAlloc, null;
      }
      BytesOfPower(requested);
      d := new Deque(requested);
      st := Ok;
    }

    method AddFirst(element: T, granted: bool) returns (st: Status)
      requires Valid()
      modifies this, buffer
      ensures Valid() && (buffer == old(buffer) || fresh(buffer))
      ensures st == if old(size < capacity) || (granted && old(capacity) < 0x2000_0000) then Ok else ErrAlloc
      ensures capacity == if st == Ok && old(size == capacity) then 2 * old(capacity) else old(capacity)
      ensures contents == if st == Ok then [element] + old(contents) else old(contents)
    {
      if size >= capacity {
        st := ExpandCapacity(granted);
        if st != Ok {
          return ErrAlloc;
        }
      }
      PutFirst(element);
      st := Ok;
    }

    method PutFirst(element: T)
      requires Valid() && size < capacity
      modifies this, buffer
      ensures Valid() && buffer == old(buffer) && capacity == old(capacity) && contents == [element] + old(contents)
    {
      CapacityBound(exponent);
      MaskPrevious(first, exponent);
      ghost var b, f := buffer[..capacity], first;
      first := And((first + WORD - 1) % WORD, capacity - 1);
      buffer[first] := element;
      size := size + 1;
      RingFront(b, f, contents, element, first);
      assert buffer[..capacity] == b[first := element];
      contents := [element] + contents;
    }

    method AddLast(element: T, granted: bool) returns (st: Status)
      requires Valid()
      modifies this, buffer
      ensures Valid() && (buffer == old(buffer) || fresh(buffer))
      ensures st == if old(size < capacity) || (granted && old(capacity) < 0x2000_0000) then Ok else ErrAlloc
      ensures capacity == if st == Ok && old(size == capacity) then 2 * old(capacity) else old(capacity)
      ensures contents == if st == Ok then old(contents) + [element] else old(contents)
    {
      if capacity == size {
        st := ExpandCapacity(granted);
        if st != Ok {
          return ErrAlloc;
        }
      }
      PutLast(element);
      st := Ok;
    }

    method PutLast(element: T)
      requires Valid() && size < capacity
      modifies this, buffer
      ensures Valid() && buffer == old(buffer) && capacity == old(capacity) && contents == old(contents) + [element]
    {
      MaskNext(last, exponent);
      RingBack(buffer[..capacity], first, contents, element, last);
      ghost var b := buffer[..capacity];
      buffer[last] := element;
      assert buffer[..capacity] == b[last := element];
      last := And(last + 1, capacity - 1);
      size := size + 1;
      contents := contents + [element];
    }

    method RemoveFirst() returns (st: Status, out: Option<T>)
      requires Valid()
      modifies this
      ensures Valid() && buffer == old(buffer)
      ensures old(contents) == [] ==> st == ErrOutOfRange && out == None && contents == []
      ensures old(contents) != [] ==> st == Ok && out == Some(old(contents)[0]) && contents == old(contents)[1..]
    {
      if size == 0 {
        return ErrOutOfRange, None;
      }
      MaskNext(first, exponent);
      var element := buffer[first];
      RingDropFront(buffer[..capacity], first, contents, And(first + 1, capacity - 1));
      first := And(first + 1, capacity - 1);
      size := size - 1;
      contents := contents[1..];
      return Ok, Some(element);
    }

    method RemoveLast() returns (st: Status, out: Option<T>)
      requires Valid()
      modifies this
      ensures Valid() && buffer == old(buffer)
      ensures old(contents) == [] ==> st == ErrOutOfRange && out == None && contents == []
      ensures old(contents) != [] ==>
        st == Ok && out == Some(old(contents)[|old(contents)| - 1]) && contents == old(contents)[..|old(contents)| - 1]
    {
      if size == 0 {
        return ErrOutOfRange, None;
      }
      CapacityBound(exponent);
      MaskPrevious(last, exponent);
      RingDropBack(buffer[..capacity], first, contents, last, And((last + WORD - 1) % WORD, capacity - 1));
      last := And((last + WORD - 1) % WORD, capacity - 1);
      var element := buffer[last];
      size := size - 1;
      contents := contents[..size];
      return Ok, Some(element);
    }

    /** Doubles a full buffer and moves the elements to its start. */
    method ExpandCapacity(granted: bool) returns (st: Status)
      requires Valid() && size == capacity
      modifies this
      ensures Valid() && contents == old(contents) && size == old(size)
      ensures st == if old(capacity) == MAX_POW_TWO then ErrMaxCapacity
                    else if granted && old(capacity) < 0x2000_0000 then Ok
                    else ErrAlloc
      ensures if st == Ok then capacity == 2 * old(capacity) && fresh(buffer) else unchanged(this)
    {
      CapacityBound(exponent);
      DoubledBytes(exponent);
      if capacity == MAX_POW_TWO {
        return ErrMaxCapacity;
      }
      var newCapacity := capacity * 2 % WORD;
      var ok := MemAlloc(newCapacity * SLOT_BYTES % WORD, granted);
      if !ok {
        return ErrAlloc;
      }
      var newBuffer := NewCopy(newCapacity);
      SwitchBuffer(newBuffer, newCapacity);
      return Ok;
    }

    /** A new buffer with the elements at its start. */
    method NewCopy(newCapacity: nat) returns (newBuffer: array<T>)
      requires Valid() && newCapacity >= capacity
      ensures Valid() && fresh(newBuffer) && newBuffer.Length == newCapacity && newBuffer[..size] == contents
    {
      newBuffer := new T[newCapacity];
      CopyBuffer(newBuffer, None);
    }

    /** The deque uses a larger buffer, with the elements at its start. */
    method SwitchBuffer(newBuffer: array<T>, newCapacity: nat)
      requires Valid() && exponent < 31 && newCapacity == Pow2(exponent + 1) == newBuffer.Length
      requires size < newCapacity && newBuffer[..size] == contents
      modifies this
      ensures Valid() && contents == old(contents) && buffer == newBuffer && capacity == newCapacity
    {
      RingStart(newBuffer[..newCapacity], contents);
      first := 0;
      last := size;
      capacity := newCapacity;
      buffer := newBuffer;
      exponent := exponent + 1;
    }

    /** Copies the elements, or the copies that cp makes of them, to the start of buff. */
    method CopyBuffer(buff: array<T>, cp: Option<T -> T>)
      requires Valid() && buff != buffer && buff.Length >= capacity
      modifies buff
      ensures cp == None ==> buff[..size] == contents
      ensures cp.Some? ==> forall i | 0 <= i < size :: buff[i] == cp.value(contents[i])
    {
      if cp == None {
        MoveStretches(buff);
      } else {
        for i := 0 to size
          invariant forall j | 0 <= j < i :: buff[j] == cp.value(contents[j])
        {
          MaskSlot(first, i, exponent);
          assert HeldAt(buffer[..capacity], first, contents, i);
          var p := And(first + i, capacity - 1);
          buff[i] := cp.value(buffer[p]);
        }
      }
    }

    /** The elements lie in one stretch, or in two around the end of the buffer. */
    method MoveStretches(buff: array<T>)
      requires Valid() && buff != buffer && buff.Length >= capacity
      modifies buff
      ensures buff[..size] == contents
    {
      ghost var b := buffer[..capacity];
      if last > first {
        RingStraight(b, first, contents, last);
        assert b[first..last] == buffer[first..last];
        MemCpy(buff, 0, buffer, first, size);
      } else {
        MoveWrapped(buff);
      }
    }

    method MoveWrapped(buff: array<T>)
      requires Valid() && last <= first && buff != buffer && buff.Length >= capacity
      modifies buff
      ensures buff[..size] == contents
    {
      ghost var b := buffer[..capacity];
      var l, e := last, capacity - first;
      MemCpy(buff, 0, buffer, first, e);
      MemCpy(buff, e, buffer, 0, l);
      assert b[first..] == buffer[first..capacity] && b[..l] == buffer[..l];
      if size > 0 {
        RingWraps(b, first, contents, last);
        assert buff[..e + l] == buff[..e] + buff[e..e + l];
      }
    }

    /** The index of the first element equal to element. */
    method IndexOf(element: T) returns (st: Status, index: nat)
      requires Valid()
      ensures element !in contents ==> st == ErrOutOfRange
      ensures element in contents ==>
        st == Ok && index < size && contents[index] == element && element !in contents[..index]
    {
      for i := 0 to size
        invariant element !in contents[..i]
      {
        MaskSlot(first, i, exponent);
        assert HeldAt(buffer[..capacity], first, contents, i);
        var p := And(first + i, capacity - 1);
        if buffer[p] == element {
          return Ok, i;
        }
      }
      return ErrOutOfRange, 0;
    }

    /** The element at index. The index equal to the size is not refused: it reads the slot behind the last element. */
    method GetAt(index: nat) returns (st: Status, out: Option<T>)
      requires Valid() && index < WORD
      ensures st == (if index <= size then Ok else ErrOutOfRange)
      ensures index < size ==> out == Some(contents[index])
      ensures index == size ==> out == Some(buffer[last])
      ensures index > size ==> out == None
    {
      if index > size {
        return ErrOutOfRange, None;
      }
      var i := MaskedSlot(index);
      assert HeldAt(buffer[..capacity], first, contents, index);
      return Ok, Some(buffer[i]);
    }

    method MaskedSlot(index: nat) returns (i: nat)
      requires Valid() && index <= size
      ensures i == Slot(first, index, capacity) < capacity
    {
      MaskSlot(first, index, exponent);
      i := And(first + index, capacity - 1);
    }
  }

  /** A queue takes elements in at the first end of a deque and gives them out at the last end. */
  class Queue<T(0, ==)> {
    const d: Deque<T>

    /** Everything that was ever enqueued, and everything that was ever polled. */
    ghost var sent: seq<T>
    ghost var received: seq<T>

    ghost predicate Valid()
      reads this, d, d.buffer
    {
      d.Valid() && sent == received + Reversed(d.contents)
    }

    constructor (d: Deque<T>)
      requires d.Valid() && d.contents == []
      ensures Valid() && this.d == d && sent == [] && received == []
    {
      this.d := d;
      sent, received := [], [];
    }

    method Enqueue(element: T, granted: bool) returns (st: Status)
      requires Valid()
      modifies this, d, d.buffer
      ensures st == if old(d.size < d.capacity) || (granted && old(d.capacity) < 0x2000_0000) then Ok else ErrAlloc
      ensures Valid() && (d.buffer == old(d.buffer) || fresh(d.buffer))
      ensures received == old(received) && sent == if st == Ok then old(sent) + [element] else old(sent)
    {
      st := d.AddFirst(element, granted);
      if st == Ok {
        sent := sent + [element];
      }
    }

    /** The next element in the order of enqueueing. */
    method Poll() returns (st: Status, out: Option<T>)
      requires Valid()
      modifies this, d
      ensures Valid() && d.buffer == old(d.buffer) && sent == old(sent)
      ensures old(received) == old(sent) ==> st == ErrOutOfRange && out == None && received == old(received)
      ensures old(received) != old(sent) ==>
        && |old(received)| < |sent| && st == Ok && out == Some(sent[|old(received)|])
        && received == sent[..|old(received)| + 1]
    {
      ghost var c := d.contents;
      st, out := d.RemoveLast();
      if st == Ok {
        received := received + [out.value];
      }
    }
  }
}
