/** The heap of src/mem/lib_mem.c as the sequence of blocks that tile it. */
module HeapBlocks {

  /** Sizes and addresses are unsigned 32-bit words, below WORD. */
  const TOP_BIT := 0x8000_0000

  const ALIGNMENT := 8
  const STRUCT_SIZE := 8
  const MINIMUM_BLOCK_SIZE := 16

  /** Where the array ucHeap lies, and how many of its bytes the heap uses once its start is aligned. */
  const UC_HEAP := 0x6800_0000
  const UC_HEAP_SIZE := 1000000
  const TOTAL_HEAP_SIZE := 999992

  /** The first block and the end marker behind the last one. */
  const START := 0x6800_0008
  const END := 0x680F_4238

  datatype Block = Block(addr: nat, size: nat, free: bool)

  /** A block starts with its header and keeps the alignment. */
  predicate Sound(b: Block) {
    b.size % ALIGNMENT == 0 && b.size >= MINIMUM_BLOCK_SIZE
  }

  /** bs covers the addresses from from to to without gap or overlap. */
  predicate Tiles(bs: seq<Block>, from: nat, to: nat) {
    if bs == [] then from == to
    else bs[0].addr == from && Sound(bs[0]) && Tiles(bs[1..], from + bs[0].size, to)
  }

  /** No two neighbours are both free. */
  predicate Coalesced(bs: seq<Block>) {
    forall i {:trigger bs[i].free} | 0 <= i < |bs| - 1 :: !(bs[i].free && bs[i + 1].free)
  }

  ghost predicate Inv(bs: seq<Block>) {
    Tiles(bs, START, END) && Coalesced(bs)
  }

  function FreeBytes(bs: seq<Block>): nat {
    if bs == [] then 0 else (if bs[0].free then bs[0].size else 0) + FreeBytes(bs[1..])
  }

  // ---- Splitting and joining ----

  function Span(bs: seq<Block>): nat {
    if bs == [] then 0 else bs[0].size + Span(bs[1..])
  }

  lemma {:induction false} TilesAppend(a: seq<Block>, b: seq<Block>, from: nat, to: nat)
    ensures Tiles(a + b, from, to) <==> Tiles(a, from, from + Span(a)) && Tiles(b, from + Span(a), to)
  {
    if a == [] {
      assert a + b == b;
    } else {
      assert (a + b)[1..] == a[1..] + b;
      TilesAppend(a[1..], b, from + a[0].size, to);
    }
  }

  lemma {:induction false} TilesSpan(bs: seq<Block>, from: nat, to: nat)
    requires Tiles(bs, from, to)
    ensures to == from + Span(bs)
  {
    if bs != [] {
      TilesSpan(bs[1..], from + bs[0].size, to);
    }
  }

  lemma {:induction false} FreeBytesAppend(a: seq<Block>, b: seq<Block>)
    ensures FreeBytes(a + b) == FreeBytes(a) + FreeBytes(b)
    ensures Span(a + b) == Span(a) + Span(b)
  {
    if a == [] {
      assert a + b == b;
    } else {
      assert (a + b)[1..] == a[1..] + b;
      FreeBytesAppend(a[1..], b);
    }
  }

  /** Every block lies inside the covered range, on an aligned address. */
  lemma {:induction false} TilesBounds(bs: seq<Block>, from: nat, to: nat, i: nat)
    requires Tiles(bs, from, to) && i < |bs| && from % ALIGNMENT == 0
    ensures Sound(bs[i]) && from <= bs[i].addr && bs[i].addr + bs[i].size <= to && bs[i].addr % ALIGNMENT == 0
  {
    TilesSpan(bs[1..], from + bs[0].size, to);
    if i > 0 {
      TilesBounds(bs[1..], from + bs[0].size, to, i - 1);
    }
  }

  /** Two blocks of a tiling do not overlap. */
  lemma {:induction false} TilesDisjoint(bs: seq<Block>, from: nat, to: nat, i: nat, j: nat)
    requires Tiles(bs, from, to) && i < j < |bs| && from % ALIGNMENT == 0
    ensures bs[i].addr + bs[i].size <= bs[j].addr
  {
    if i == 0 {
      TilesBounds(bs[1..], from + bs[0].size, to, j - 1);
    } else {
      TilesDisjoint(bs[1..], from + bs[0].size, to, i - 1, j - 1);
    }
  }

  // ---- The operations ----

  /** The block size for a request: header added, rounded up to the alignment. */
  function Rounded(wanted: nat): nat {
    (wanted + STRUCT_SIZE + ALIGNMENT - 1) / ALIGNMENT * ALIGNMENT
  }

  /** The first free block of at least n bytes, or |bs|. */
  function FirstFit(bs: seq<Block>, n: nat): (i: nat)
    ensures i <= |bs|
    ensures i < |bs| ==> bs[i].free && bs[i].size >= n
    ensures forall k | 0 <= k < i :: !(bs[k].free && bs[k].size >= n)
  {
    if bs == [] then 0
    else if bs[0].free && bs[0].size >= n then 0
    else 1 + FirstFit(bs[1..], n)
  }

  /** The free block b between a and c, merged with free neighbours. */
  function Coalesce(a: seq<Block>, b: Block, c: seq<Block>): seq<Block> {
    var (a', b') := MergeLeft(a, b);
    var (b'', c') := MergeRight(b', c);
    a' + [b''] + c'
  }

  function MergeLeft(a: seq<Block>, b: Block): (seq<Block>, Block) {
    if a != [] && a[|a| - 1].free then (a[..|a| - 1], Block(a[|a| - 1].addr, a[|a| - 1].size + b.size, true))
    else (a, b.(free := true))
  }

  function MergeRight(b: Block, c: seq<Block>): (Block, seq<Block>) {
    if c != [] && c[0].free then (Block(b.addr, b.size + c[0].size, true), c[1..])
    else (b, c)
  }

  /** Block i, which is free, becomes an allocated block of n bytes; the rest stays free if it is big enough. */
  function Allocate(bs: seq<Block>, i: nat, n: nat): seq<Block>
    requires i < |bs| && n <= bs[i].size
  {
    var b := bs[i];
    if b.size - n > MINIMUM_BLOCK_SIZE then
      Coalesce(bs[..i] + [Block(b.addr, n, false)], Block(b.addr + n, b.size - n, true), bs[i + 1..])
    else
      bs[i := b.(free := false)]
  }

  /** Block i, which is allocated, becomes free. */
  function Release(bs: seq<Block>, i: nat): seq<Block>
    requires i < |bs|
  {
    Coalesce(bs[..i], bs[i], bs[i + 1..])
  }

  // ---- What the operations keep ----

  predicate EndsFree(bs: seq<Block>) {
    bs != [] && bs[|bs| - 1].free
  }

  predicate StartsFree(bs: seq<Block>) {
    bs != [] && bs[0].free
  }

  lemma CoalescedParts(a: seq<Block>, b: Block, c: seq<Block>)
    ensures Coalesced(a + [b] + c) <==>
            && Coalesced(a) && Coalesced(c)
            && !(b.free && EndsFree(a)) && !(b.free && StartsFree(c))
  {
    var s := a + [b] + c;
    assert forall i | 0 <= i < |a| :: s[i] == a[i];
    assert forall i | 0 <= i < |c| :: s[|a| + 1 + i] == c[i];
    assert s[|a|] == b;
    if Coalesced(s) {
      forall i | 0 <= i < |c| - 1
        ensures !(c[i].free && c[i + 1].free)
      {
        assert !(s[|a| + 1 + i].free && s[|a| + 1 + i + 1].free);
      }
      if a != [] {
        assert !(s[|a| - 1].free && s[|a| - 1 + 1].free);
      }
      if c != [] {
        assert !(s[|a|].free && s[|a| + 1].free);
      }
    } else {
      var i :| 0 <= i < |s| - 1 && s[i].free && s[i + 1].free;
      if i > |a| {
        assert c[i - |a| - 1].free && c[i - |a| - 1 + 1].free;
      } else if i < |a| - 1 {
        assert a[i].free && a[i + 1].free;
      }
    }
  }

  lemma TilesSplit(a: seq<Block>, b: Block, c: seq<Block>, from: nat, to: nat)
    ensures Tiles(a + [b] + c, from, to) <==>
            && Tiles(a, from, from + Span(a)) && b.addr == from + Span(a) && Sound(b)
            && Tiles(c, from + Span(a) + b.size, to)
    ensures FreeBytes(a + [b] + c) == FreeBytes(a) + (if b.free then b.size else 0) + FreeBytes(c)
  {
    assert a + [b] + c == a + ([b] + c);
    TilesAppend(a, [b] + c, from, to);
    FreeBytesAppend(a, [b] + c);
    assert ([b] + c)[1..] == c;
  }

  lemma Unsnoc(a: seq<Block>, from: nat, to: nat)
    requires a != [] && Tiles(a, from, to) && Coalesced(a)
    ensures var a', l := a[..|a| - 1], a[|a| - 1];
            && Tiles(a', from, from + Span(a')) && l.addr == from + Span(a') && Sound(l) && to == l.addr + l.size
            && Coalesced(a') && !(l.free && EndsFree(a'))
            && FreeBytes(a) == FreeBytes(a') + (if l.free then l.size else 0) && Span(a) == Span(a') + l.size
  {
    var a', l := a[..|a| - 1], a[|a| - 1];
    assert a == a' + [l] + [];
    TilesSplit(a', l, [], from, to);
    CoalescedParts(a', l, []);
    assert a == a' + [l];
    FreeBytesAppend(a', [l]);
  }

  lemma Uncons(c: seq<Block>)
    requires c != []
    ensures c == [] + [c[0]] + c[1..]
  {
  }

  lemma MergeLeftInv(a: seq<Block>, b: Block, c: seq<Block>, from: nat, to: nat)
    requires Tiles(a + [b] + c, from, to) && Coalesced(a)
    ensures var (a', b') := MergeLeft(a, b);
            && b'.free && Tiles(a' + [b'] + c, from, to) && Coalesced(a') && !EndsFree(a')
            && FreeBytes(a') + b'.size == FreeBytes(a) + b.size
  {
    TilesSplit(a, b, c, from, to);
    var (a', b') := MergeLeft(a, b);
    if EndsFree(a) {
      Unsnoc(a, from, from + Span(a));
    }
    TilesSplit(a', b', c, from, to);
  }

  lemma MergeRightInv(a: seq<Block>, b: Block, c: seq<Block>, from: nat, to: nat)
    requires Tiles(a + [b] + c, from, to) && Coalesced(c) && b.free
    ensures var (b', c') := MergeRight(b, c);
            && b'.free && Tiles(a + [b'] + c', from, to) && Coalesced(c') && !StartsFree(c')
            && b'.size + FreeBytes(c') == b.size + FreeBytes(c)
  {
    TilesSplit(a, b, c, from, to);
    if StartsFree(c) {
      Uncons(c);
      CoalescedParts([], c[0], c[1..]);
      TilesSplit(a, Block(b.addr, b.size + c[0].size, true), c[1..], from, to);
    }
  }

  lemma CoalesceInv(a: seq<Block>, b: Block, c: seq<Block>)
    requires Tiles(a + [b] + c, START, END) && Coalesced(a) && Coalesced(c)
    ensures Inv(Coalesce(a, b, c))
    ensures FreeBytes(Coalesce(a, b, c)) == FreeBytes(a) + b.size + FreeBytes(c)
  {
    MergeLeftInv(a, b, c, START, END);
    var (a', b') := MergeLeft(a, b);
    MergeRightInv(a', b', c, START, END);
    var (b'', c') := MergeRight(b', c);
    CoalescedParts(a', b'', c');
    TilesSplit(a', b'', c', START, END);
  }

  lemma SplitAt(bs: seq<Block>, i: nat)
    requires i < |bs|
    ensures bs == bs[..i] + [bs[i]] + bs[i + 1..]
  {
  }

  lemma ReleaseInv(bs: seq<Block>, i: nat)
    requires Inv(bs) && i < |bs| && !bs[i].free
    ensures Inv(Release(bs, i))
    ensures FreeBytes(Release(bs, i)) == FreeBytes(bs) + bs[i].size
  {
    SplitAt(bs, i);
    CoalescedParts(bs[..i], bs[i], bs[i + 1..]);
    TilesSplit(bs[..i], bs[i], bs[i + 1..], START, END);
    CoalesceInv(bs[..i], bs[i], bs[i + 1..]);
  }

  /** A block that is split has no free neighbour for its rest to merge with. */
  lemma AllocateSplit(bs: seq<Block>, i: nat, n: nat)
    requires Inv(bs) && i < |bs| && bs[i].free && n + MINIMUM_BLOCK_SIZE < bs[i].size
    ensures var b := bs[i];
            Allocate(bs, i, n) ==
            bs[..i] + [Block(b.addr, n, false)] + [Block(b.addr + n, b.size - n, true)] + bs[i + 1..]
  {
    SplitAt(bs, i);
    CoalescedParts(bs[..i], bs[i], bs[i + 1..]);
  }

  lemma TwoParts(a: seq<Block>, u: Block, r: Block, c: seq<Block>)
    requires Tiles(a, START, START + Span(a)) && Tiles(c, r.addr + r.size, END) && Sound(u) && Sound(r)
    requires u.addr == START + Span(a) && r.addr == u.addr + u.size
    requires Coalesced(a) && Coalesced(c) && !u.free && !StartsFree(c)
    ensures Inv(a + [u] + [r] + c)
    ensures FreeBytes(a + [u] + [r] + c) == FreeBytes(a) + (if r.free then r.size else 0) + FreeBytes(c)
  {
    assert a + [u] == a + [u] + [];
    CoalescedParts(a, u, []);
    CoalescedParts(a + [u], r, c);
    TilesSplit(a, u, [], START, START + Span(a) + u.size);
    FreeBytesAppend(a, [u]);
    TilesSplit(a + [u], r, c, START, END);
  }

  /** The allocated part of a free block b when n bytes are taken from it, and what follows it. */
  function UsedPart(b: Block, n: nat): Block {
    Block(b.addr, if b.size - n > MINIMUM_BLOCK_SIZE then n else b.size, false)
  }

  function Rest(b: Block, c: seq<Block>, n: nat): seq<Block>
    requires n <= b.size
  {
    if b.size - n > MINIMUM_BLOCK_SIZE then [Block(b.addr + n, b.size - n, true)] + c else c
  }

  lemma AllocateParts(bs: seq<Block>, i: nat, n: nat)
    requires Inv(bs) && i < |bs| && bs[i].free && n <= bs[i].size
    ensures Allocate(bs, i, n) == bs[..i] + [UsedPart(bs[i], n)] + Rest(bs[i], bs[i + 1..], n)
  {
    var a, b, c := bs[..i], bs[i], bs[i + 1..];
    if b.size - n > MINIMUM_BLOCK_SIZE {
      AllocateSplit(bs, i, n);
      Regroup(a + [UsedPart(b, n)], [Block(b.addr + n, b.size - n, true)], c);
    }
  }

  lemma Regroup(a: seq<Block>, b: seq<Block>, c: seq<Block>)
    ensures a + b + c == a + (b + c)
  {
  }

  lemma TakenInv(a: seq<Block>, b: Block, c: seq<Block>, n: nat)
    requires Inv(a + [b] + c) && b.free && n <= b.size && n % ALIGNMENT == 0 && n >= MINIMUM_BLOCK_SIZE
    ensures Inv(a + [UsedPart(b, n)] + Rest(b, c, n))
    ensures FreeBytes(a + [UsedPart(b, n)] + Rest(b, c, n)) == FreeBytes(a + [b] + c) - UsedPart(b, n).size
    ensures Tiles(a, START, b.addr) && b.addr + b.size <= END
  {
    CoalescedParts(a, b, c);
    TilesSplit(a, b, c, START, END);
    TilesSpan(c, b.addr + b.size, END);
    var u := UsedPart(b, n);
    if b.size - n > MINIMUM_BLOCK_SIZE {
      var r := Block(b.addr + n, b.size - n, true);
      TwoParts(a, u, r, c);
      Regroup(a + [u], [r], c);
    } else {
      CoalescedParts(a, u, c);
      TilesSplit(a, u, c, START, END);
    }
  }

  lemma AllocateInv(bs: seq<Block>, i: nat, n: nat)
    requires Inv(bs) && i < |bs| && bs[i].free && n <= bs[i].size && n % ALIGNMENT == 0 && n >= MINIMUM_BLOCK_SIZE
    ensures Inv(Allocate(bs, i, n))
    ensures |Allocate(bs, i, n)| > i && Allocate(bs, i, n)[i] == UsedPart(bs[i], n)
    ensures FreeBytes(Allocate(bs, i, n)) == FreeBytes(bs) - UsedPart(bs[i], n).size
  {
    SplitAt(bs, i);
    AllocateParts(bs, i, n);
    TakenInv(bs[..i], bs[i], bs[i + 1..], n);
  }

  /** b between blocks that are not free next to it. */
  ghost predicate Gap(a: seq<Block>, b: Block, c: seq<Block>) {
    && Tiles(a, START, b.addr) && Sound(b) && Tiles(c, b.addr + b.size, END)
    && Coalesced(a) && Coalesced(c) && !EndsFree(a) && !StartsFree(c)
    && START <= b.addr && b.addr + b.size <= END
  }

  lemma FreeGap(a: seq<Block>, b: Block, c: seq<Block>)
    requires Inv(a + [b] + c) && b.free
    ensures Gap(a, b, c)
  {
    CoalescedParts(a, b, c);
    TilesSplit(a, b, c, START, END);
    TilesSpan(c, b.addr + b.size, END);
  }

  // ---- What undoes what ----

  /** Freeing a block right after it was allocated restores every block. */
  lemma AllocateRelease(bs: seq<Block>, i: nat, n: nat)
    requires Inv(bs) && i < |bs| && bs[i].free && n <= bs[i].size && n % ALIGNMENT == 0 && n >= MINIMUM_BLOCK_SIZE
    ensures |Allocate(bs, i, n)| > i && Release(Allocate(bs, i, n), i) == bs
  {
    var a, b, c := bs[..i], bs[i], bs[i + 1..];
    SplitAt(bs, i);
    CoalescedParts(a, b, c);
    var bs' := Allocate(bs, i, n);
    if b.size - n > MINIMUM_BLOCK_SIZE {
      AllocateSplit(bs, i, n);
      var r := Block(b.addr + n, b.size - n, true);
      assert bs'[..i] == a && bs'[i + 1..] == [r] + c;
      assert ([r] + c)[1..] == c;
    } else {
      assert bs'[..i] == a && bs'[i + 1..] == c;
    }
  }

  /** A heap without allocated blocks is one free block. */
  lemma AllFree(bs: seq<Block>)
    requires Inv(bs) && forall i | 0 <= i < |bs| :: bs[i].free
    ensures bs == [Block(START, END - START, true)]
  {
    if |bs| < 2 {
      assert Tiles(bs[1..], START + bs[0].size, END) && bs[1..] == [];
      assert bs == [bs[0]];
    }
  }
}
