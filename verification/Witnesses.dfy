/** One input for each place where the code does not do what its documentation says. */
module Witnesses {
  import opened Bits
  import opened Common
  import opened OrderedMap
  import opened TreeTable
  import opened Lists
  import Deques
  import Arrays
  import Floats

  /** The reversal of an array with two different elements changes nothing. */
  lemma PairNotReversed()
    ensures Arrays.SwappedEnds([0, 1]) == [0, 1] != Reversed([0, 1])
  {
    Arrays.ReverseIff([0, 1]);
  }

  method ReverseNothing() returns (st: Status)
    ensures st == Fault
  {
    var ar := new Arrays.Array<int>(8);
    st := ar.Reverse();
  }

  /** Of 2^29 - 16 slots the bytes of twice as many can be counted, but not after rounding: the array does not grow. */
  lemma RoundedToNothing()
    ensures SLOT_BYTES * 2 * 0x1FFF_FFF0 < WORD && Arrays.GrowthStatus(0x1FFF_FFF0, true) == ErrAlloc
    ensures SLOT_BYTES * Arrays.Doubled(0x1FFF_FFF0) % WORD == 0
  {
    Arrays.NearestRanges(0x1FFF_FFF0);
  }

  /** A full array of 2^29 + 33 slots grows to no more than 128, which the copy overruns. */
  method Overrun() returns (st: Status, slots: nat)
    ensures st == Fault && 0 < slots <= 128
  {
    var ar := new Arrays.Array<int>(0x2000_0021);
    while ar.size < ar.capacity
      invariant ar.Valid() && ar.capacity == 0x2000_0021 && fresh(ar) && fresh(ar.buffer)
    {
      st := ar.Add(0, true);
    }
    st := ar.Add(0, true);
    Arrays.GrowthIs(0x2000_0021);
    Arrays.NearestRanges(0x2000_0021);
    Arrays.SlotsOfDouble(Floats.Nearest(0x2000_0021));
    slots := Slots(Arrays.Doubled(0x2000_0021));
  }

  /** 2^24 + 1 slots grow to 2^25. */
  lemma OneSlotLost()
    ensures Arrays.Doubled(0x100_0001) == 0x200_0000
  {
    Floats.SpacingIs(0x100_0001, 2);
  }

  /** An array of 2^30 + 1 slots has one. */
  method OneSlot() returns (st: Status, capacity: nat, slots: nat)
    ensures st == Ok && capacity == 0x4000_0001 && slots == 1
  {
    var ar: Arrays.Array?<int>;
    st, ar := Arrays.Array<int>.New(0x4000_0001, true);
    capacity, slots := ar.capacity, ar.buffer.Length;
  }

  /** A deque without elements gives out an element at index 0. */
  method GetFromNothing() returns (st: Status, out: Option<int>)
    ensures st == Ok && out.Some?
  {
    assert 8 == Pow2(3);
    var d := new Deques.Deque<int>(8);
    st, out := d.GetAt(0);
  }

  /** A deque for three elements has the capacity 4 and three slots. */
  method ThreeSlots() returns (capacity: nat, slots: nat)
    ensures capacity == 4 && slots == 3
  {
    var d := new Deques.Deque<int>(3);
    FourForThree(d.capacity);
    capacity, slots := d.capacity, d.buffer.Length;
  }

  lemma FourForThree(n: nat)
    requires RoundsUp(3, n) && PowerOfTwo(n)
    ensures n == 4
  {
    var k :| n == Pow2(k);
    Pow2Monotone(if k < 3 then 0 else 3, k);
  }

  /** In a table with one key there is none greater than that, but the search for one succeeds and gives out NULL. */
  method GreaterThanTheOnly(cmp: Comparator, key: Key, val: Value)
    returns (st: Status, out: Option<Key>, ghost table: TreeTable)
    requires TotalPreorder(cmp)
    ensures table.Valid() && table.Entries() == [Entry(key, val)] && st == Ok && out == None
  {
    var t := new TreeTable(cmp);
    table := t;
    var added := t.Add(key, val, true);
    Flip(cmp, key, key);
    ghost var i;
    st, out, i := t.GetGreaterThan(key);
  }

  /** The last entry of an empty table. */
  method RemoveLastOfNone(cmp: Comparator) returns (st: Status)
    requires TotalPreorder(cmp)
    ensures st == Fault
  {
    var table := new TreeTable(cmp);
    var out;
    st, out := table.RemoveLast();
  }

  /** A copy of a list with one element into an empty list, at index 0. */
  method AddOneToNone(element: Key) returns (st: Status)
    ensures st == Fault
  {
    var pool := new Pool();
    var l := new List(pool);
    var m := new List(pool);
    ghost var n, c;
    st, n := m.AddLast(element, true);
    st, c := l.AddAllAt(m, 0, _ => true);
  }
}
