/** The allocator of src/mem/lib_mem.c. */
module Heap {
  import opened Bits
  import opened HeapBlocks
  import opened HeapLinks
  import opened HeapRuns

  class Heap {
    /** The address of the variable xStart, which lies outside the heap array. */
    const xStart: nat
    var hdr: Store
    var pxEnd: nat
    var xFreeBytesRemaining: nat
    var xBlockAllocatedBit: nat

    /** The blocks of the heap, once it is initialised. */
    ghost var blocks: seq<Block>

    ghost predicate Valid()
      reads this
    {
      && 0 < xStart && (xStart + STRUCT_SIZE <= UC_HEAP || UC_HEAP + UC_HEAP_SIZE <= xStart)
      && (if pxEnd == 0 then
            xFreeBytesRemaining == TOTAL_HEAP_SIZE && xBlockAllocatedBit == 0 && blocks == []
          else
            && pxEnd == END && xBlockAllocatedBit == TOP_BIT
            && Inv(blocks) && xFreeBytesRemaining == FreeBytes(blocks)
            && Linked(hdr, blocks, xStart, END)
            && xStart in hdr && hdr[xStart].size == 0 && END in hdr && hdr[END] == Header(0, 0))
    }

    constructor (xStart: nat)
      requires 0 < xStart && (xStart + STRUCT_SIZE <= UC_HEAP || UC_HEAP + UC_HEAP_SIZE <= xStart)
      ensures Valid() && pxEnd == 0
    {
      this.xStart := xStart;
      hdr := map[];
      pxEnd := 0;
      xFreeBytesRemaining := TOTAL_HEAP_SIZE;
      xBlockAllocatedBit := 0;
      blocks := [];
    }

    /** b has its place between the blocks a, which reach up to lo, and c, but is not in the list yet. */
    ghost predicate Insertable(block: nat, a: seq<Block>, b: Block, c: seq<Block>, lo: nat)
      reads this
    {
      && 0 < xStart && (xStart + STRUCT_SIZE <= UC_HEAP || UC_HEAP + UC_HEAP_SIZE <= xStart)
      && Tiles(a, START, lo) && lo <= b.addr && Tiles(c, b.addr + b.size, END) && Sound(b) && Coalesced(a)
      && Coalesced(c)
      && (EndsFree(a) ==> lo == b.addr)
      && Linked(hdr, a, xStart, HeapLinks.First(c, END)) && Linked(hdr, c, HeapLinks.Last(a, xStart), END)
      && block == b.addr && block in hdr && hdr[block].size == b.size && xStart in hdr && hdr[xStart].size == 0
      && pxEnd == END
    }

    /** The walk to the last list node below block. */
    method FindSlot(block: nat, ghost a: seq<Block>, ghost b: Block, ghost c: seq<Block>, ghost lo: nat)
      returns (pxIterator: nat)
      requires Insertable(block, a, b, c, lo)
      ensures pxIterator == Last(a, xStart)
    {
      pxIterator := xStart;
      ghost var rest := a;
      TilesSpan(c, b.addr + b.size, END);
      TouchesRight(c, b.addr + b.size);
      while hdr[pxIterator].next < block
        invariant pxIterator in hdr && Linked(hdr, rest, pxIterator, First(c, END))
          && Last(rest, pxIterator) == Last(a, xStart)
        invariant |rest| <= |a| && rest == a[|a| - |rest|..]
        decreases |rest|
      {
        ghost var j := NextFree(hdr, rest, pxIterator, First(c, END));
        pxIterator := hdr[pxIterator].next;
        rest := rest[j + 1..];
      }
      ghost var j := NextFree(hdr, rest, pxIterator, First(c, END));
      if j < |rest| {
        TilesBounds(a, START, lo, |a| - |rest| + j);
        assert false;
      }
    }

    method PrvInsertBlockIntoFreeList(block: nat, ghost a: seq<Block>, ghost b: Block, ghost c: seq<Block>,
                                      ghost lo: nat)
      requires Insertable(block, a, b, c, lo)
      modifies `hdr
      ensures hdr == Inserted(old(hdr), a, b, c, xStart)
    {
      var pxBlockToInsert := block;
      var pxIterator := FindSlot(block, a, b, c, lo);
      TilesSpan(c, b.addr + b.size, END);
      MergeView(hdr, a, b, c, xStart, lo);

      var puc := pxIterator;
      if puc + hdr[pxIterator].size == pxBlockToInsert {
        hdr := hdr[pxIterator := hdr[pxIterator].(size := hdr[pxIterator].size + hdr[pxBlockToInsert].size)];
        pxBlockToInsert := pxIterator;
      }
      ghost var b' := MergeLeft(a, b).1;
      assert pxBlockToInsert == b'.addr && hdr[pxBlockToInsert].size == b'.size;
      puc := pxBlockToInsert;
      if puc + hdr[pxBlockToInsert].size == hdr[pxIterator].next {
        if hdr[pxIterator].next != pxEnd {
          hdr := hdr[pxBlockToInsert :=
            hdr[pxBlockToInsert].(size := hdr[pxBlockToInsert].size + hdr[hdr[pxIterator].next].size)];
          hdr := hdr[pxBlockToInsert := hdr[pxBlockToInsert].(next := hdr[hdr[pxIterator].next].next)];
        } else {
          hdr := hdr[pxBlockToInsert := hdr[pxBlockToInsert].(next := pxEnd)];
        }
      } else {
        hdr := hdr[pxBlockToInsert := hdr[pxBlockToInsert].(next := hdr[pxIterator].next)];
      }
      assert hdr[pxBlockToInsert] == Header(First(MergeRight(b', c).1, END), MergeRight(b', c).0.size);
      if pxIterator != pxBlockToInsert {
        hdr := hdr[pxIterator := hdr[pxIterator].(next := pxBlockToInsert)];
      }
    }

    // ---- Initialisation ----

    /** The blocks a call of pvPortMalloc starts from. */
    ghost function Ready(): seq<Block>
      reads this
    {
      if pxEnd == 0 then Initial() else blocks
    }

    method PrvHeapInit()
      requires Valid() && pxEnd == 0
      modifies this
      ensures Valid() && pxEnd == END && blocks == Initial() == [Block(0x6800_0008, 999984, true)]
      ensures forall x | x in old(hdr) && x !in {xStart, START, END} :: x in hdr && hdr[x] == old(hdr)[x]
    {
      var pucAlignedHeap := AlignDown(UC_HEAP + ALIGNMENT);
      hdr := hdr[xStart := Header(pucAlignedHeap, 0)];
      var pucHeapEnd := pucAlignedHeap + TOTAL_HEAP_SIZE;
      pucHeapEnd := pucHeapEnd - STRUCT_SIZE;
      pxEnd := pucHeapEnd;
      hdr := hdr[pxEnd := Header(0, 0)];
      hdr := hdr[pucAlignedHeap := Header(pxEnd, TOTAL_HEAP_SIZE - STRUCT_SIZE)];
      xFreeBytesRemaining := xFreeBytesRemaining - STRUCT_SIZE;
      xBlockAllocatedBit := TOP_BIT;
      blocks := Initial();
      InitialInv();
      assert blocks[1..] == [];
    }

    /** pvPortMemDeinit: the heap is as before its first use. */
    method PvPortMemDeinit()
      requires Valid()
      modifies this
      ensures Valid() && pxEnd == 0 && xFreeBytesRemaining == TOTAL_HEAP_SIZE
    {
      hdr := hdr[xStart := Header(0, 0)];
      pxEnd := 0;
      xFreeBytesRemaining := TOTAL_HEAP_SIZE;
      xBlockAllocatedBit := 0;
      blocks := [];
    }

    method XPortGetFreeHeapSize() returns (r: nat)
      requires Valid()
      ensures r == if pxEnd == 0 then 999992 else FreeBytes(blocks)
    {
      r := xFreeBytesRemaining;
    }

    // ---- Allocation ----

    /** The walk to the first block that is large enough. */
    method FindFit(n: nat) returns (pxPreviousBlock: nat, pxBlock: nat)
      requires Valid() && pxEnd == END && n > 0
      ensures var i := FirstFit(blocks, n);
              && (i == |blocks| ==> pxBlock == END)
              && (i < |blocks| ==> pxBlock == blocks[i].addr < END && pxPreviousBlock == Last(blocks[..i], xStart))
    {
      ghost var j: nat := StartWalk(hdr, blocks, xStart);
      ghost var a, rest := [], blocks;
      pxPreviousBlock := xStart;
      pxBlock := hdr[xStart].next;
      while hdr[pxBlock].size < n && hdr[pxBlock].next != 0
        invariant pxBlock in hdr
        invariant blocks == a + rest && Standing(hdr, a, rest, j, pxPreviousBlock, pxBlock, xStart) && NoFit(a, n)
        decreases |rest|
      {
        ghost var j': nat := WalkOn(hdr, a, rest, j, pxPreviousBlock, pxBlock, xStart);
        pxPreviousBlock := pxBlock;
        pxBlock := hdr[pxBlock].next;
        a, rest, j := a + rest[..j + 1], rest[j + 1..], j';
      }
      WalkStops(hdr, blocks, a, rest, j, pxPreviousBlock, pxBlock, xStart, n);
    }

    /** The list skips the free block b. */
    method Unlink(pxPreviousBlock: nat, pxBlock: nat, ghost a: seq<Block>, ghost b: Block, ghost c: seq<Block>)
      requires Valid() && pxEnd == END && blocks == a + [b] + c && b.free
      requires pxBlock == b.addr && pxPreviousBlock == Last(a, xStart)
      modifies `hdr
      ensures Gap(a, b, c)
      ensures Linked(hdr, a, xStart, HeapLinks.First(c, END)) && Linked(hdr, c, HeapLinks.Last(a, xStart), END)
      ensures pxBlock in hdr && hdr[pxBlock].size == b.size
      ensures xStart in hdr && hdr[xStart].size == 0 && END in hdr && hdr[END] == Header(0, 0)
    {
      ghost var m := hdr;
      AroundFree(hdr, a, b, c, xStart);
      hdr := hdr[pxPreviousBlock := hdr[pxPreviousBlock].(next := hdr[pxBlock].next)];
      Unlinked(m, hdr, a, b, c, xStart);
      FreeGap(a, b, c);
      LastBounds(a, xStart, START, b.addr);
    }

    /** The headers of the two blocks that b is cut into; the link of the new one is not set yet. */
    method Cut(pxBlock: nat, n: nat, ghost a: seq<Block>, ghost b: Block, ghost c: seq<Block>)
      returns (pxNewBlockLink: nat)
      requires 0 < xStart && (xStart + STRUCT_SIZE <= UC_HEAP || UC_HEAP + UC_HEAP_SIZE <= xStart) && pxEnd == END
      requires Gap(a, b, c) && b.free && pxBlock == b.addr
      requires MINIMUM_BLOCK_SIZE <= n && n % ALIGNMENT == 0 && n + MINIMUM_BLOCK_SIZE < b.size
      requires Linked(hdr, a, xStart, HeapLinks.First(c, END)) && Linked(hdr, c, HeapLinks.Last(a, xStart), END)
      requires pxBlock in hdr && hdr[pxBlock].size == b.size
      requires xStart in hdr && hdr[xStart].size == 0 && END in hdr && hdr[END] == Header(0, 0)
      modifies `hdr
      ensures Linked(hdr, a, xStart, HeapLinks.First(c, END)) && Linked(hdr, c, HeapLinks.Last(a, xStart), END)
      ensures pxNewBlockLink == b.addr + n && pxNewBlockLink in hdr && hdr[pxNewBlockLink].size == b.size - n
      ensures pxBlock in hdr && hdr[pxBlock].size == n
      ensures xStart in hdr && hdr[xStart].size == 0 && END in hdr && hdr[END] == Header(0, 0)
    {
      ghost var m := hdr;
      pxNewBlockLink := pxBlock + n;
      var garbage: nat := *;
      hdr := hdr[pxNewBlockLink := Header(garbage, hdr[pxBlock].size - n)];
      hdr := hdr[pxBlock := hdr[pxBlock].(size := n)];
      LinkedFirst(m, a, xStart, HeapLinks.First(c, END));
      StillLinked(m, hdr, a, c, xStart, b.addr, b.addr + b.size);
    }

    /** The part of block b behind its first n bytes becomes a block of the free list. */
    method SplitOff(pxBlock: nat, n: nat, ghost a: seq<Block>, ghost b: Block, ghost c: seq<Block>)
      requires 0 < xStart && (xStart + STRUCT_SIZE <= UC_HEAP || UC_HEAP + UC_HEAP_SIZE <= xStart) && pxEnd == END
      requires Gap(a, b, c) && b.free && pxBlock == b.addr
      requires MINIMUM_BLOCK_SIZE <= n && n % ALIGNMENT == 0 && n + MINIMUM_BLOCK_SIZE < b.size
      requires Linked(hdr, a, xStart, HeapLinks.First(c, END)) && Linked(hdr, c, HeapLinks.Last(a, xStart), END)
      requires pxBlock in hdr && hdr[pxBlock].size == b.size
      requires xStart in hdr && hdr[xStart].size == 0 && END in hdr && hdr[END] == Header(0, 0)
      modifies `hdr
      ensures var r := Block(b.addr + n, b.size - n, true);
              Linked(hdr, a, xStart, r.addr) && Linked(hdr, [r] + c, HeapLinks.Last(a, xStart), END)
      ensures pxBlock in hdr && hdr[pxBlock].size == n
      ensures xStart in hdr && hdr[xStart].size == 0 && END in hdr && hdr[END] == Header(0, 0)
    {
      var pxNewBlockLink := Cut(pxBlock, n, a, b, c);
      ghost var r := Block(b.addr + n, b.size - n, true);
      assert r.addr + r.size == b.addr + b.size;
      LastBounds(a, xStart, START, b.addr);
      InsertedAlone(hdr, a, r, c, xStart, b.addr);
      PrvInsertBlockIntoFreeList(pxNewBlockLink, a, r, c, b.addr);
    }

    /** Unlinks the block b, splits it if it is big enough, and marks it allocated. */
    method Take(pxPreviousBlock: nat, pxBlock: nat, n: nat, ghost a: seq<Block>, ghost b: Block, ghost c: seq<Block>)
      requires Valid() && pxEnd == END && blocks == a + [b] + c && b.free && MINIMUM_BLOCK_SIZE <= n <= b.size
        && n % ALIGNMENT == 0
      requires pxBlock == b.addr && pxPreviousBlock == Last(a, xStart)
      modifies `hdr, `xFreeBytesRemaining, `blocks
      ensures Valid() && blocks == a + [UsedPart(b, n)] + Rest(b, c, n)
    {
      TakenInv(a, b, c, n);
      Unlink(pxPreviousBlock, pxBlock, a, b, c);
      if hdr[pxBlock].size - n > MINIMUM_BLOCK_SIZE {
        SplitOff(pxBlock, n, a, b, c);
      }
      Mark(pxBlock, a, UsedPart(b, n), Rest(b, c, n));
      blocks := a + [UsedPart(b, n)] + Rest(b, c, n);
    }

    /** u is handed to the application. */
    method Mark(pxBlock: nat, ghost a: seq<Block>, ghost u: Block, ghost c: seq<Block>)
      requires !u.free && Tiles(a + [u] + c, START, END) && pxBlock == u.addr && u.size <= xFreeBytesRemaining
      requires 0 < xStart && (xStart + STRUCT_SIZE <= UC_HEAP || UC_HEAP + UC_HEAP_SIZE <= xStart)
        && xBlockAllocatedBit == TOP_BIT
      requires Linked(hdr, a, xStart, HeapLinks.First(c, END)) && Linked(hdr, c, HeapLinks.Last(a, xStart), END)
      requires pxBlock in hdr && hdr[pxBlock].size == u.size
      modifies `hdr, `xFreeBytesRemaining
      ensures Linked(hdr, a + [u] + c, xStart, END) && xFreeBytesRemaining == old(xFreeBytesRemaining) - u.size
      ensures hdr == old(hdr)[u.addr := Header(0, u.size + TOP_BIT)] && START <= u.addr < END
    {
      TilesSplit(a, u, c, START, END);
      TilesSpan(c, u.addr + u.size, END);
      xFreeBytesRemaining := xFreeBytesRemaining - hdr[pxBlock].size;
      ghost var m := hdr;
      hdr := hdr[pxBlock := Header(0, SetBit(hdr[pxBlock].size, xBlockAllocatedBit))];
      UsedBetween(m, hdr, a, u, c, xStart);
    }

    /** xWantedSize with room for a header, rounded up in 32-bit arithmetic. */
    method BlockSize(xWantedSize: nat) returns (n: nat)
      requires 0 < xWantedSize < TOP_BIT
      ensures n == Rounded(xWantedSize) < WORD && n % ALIGNMENT == 0 && n >= MINIMUM_BLOCK_SIZE
    {
      RoundedBounds(xWantedSize);
      n := (xWantedSize + STRUCT_SIZE) % WORD;
      assert n == xWantedSize + STRUCT_SIZE;
      if n % ALIGNMENT != 0 {
        n := (n + (ALIGNMENT - n % ALIGNMENT)) % WORD;
      }
    }

    method PvPortMalloc(xWantedSize: nat) returns (pvReturn: nat)
      requires Valid() && xWantedSize < WORD
      modifies this
      ensures Valid() && pxEnd == END
      ensures pvReturn == Served(old(Ready()), xWantedSize)
      ensures blocks == AfterMalloc(old(Ready()), xWantedSize)
      ensures pvReturn == 0 && old(pxEnd) != 0 ==> hdr == old(hdr) && xFreeBytesRemaining == old(xFreeBytesRemaining)
    {
      pvReturn := 0;
      if pxEnd == 0 {
        PrvHeapInit();
      }
      if xBlockAllocatedBit == 0 || !HasBit(xWantedSize, xBlockAllocatedBit) {
        if xWantedSize > 0 {
          var n := BlockSize(xWantedSize);
          if n <= xFreeBytesRemaining {
            pvReturn := TakeFirstFit(n);
          } else {
            NoneRemaining(blocks, n);
          }
        }
      }
    }

    /** The first fit for n bytes, taken from the free list. */
    method TakeFirstFit(n: nat) returns (pvReturn: nat)
      requires Valid() && pxEnd == END && MINIMUM_BLOCK_SIZE <= n && n % ALIGNMENT == 0
      modifies `hdr, `xFreeBytesRemaining, `blocks
      ensures Valid()
      ensures var i := FirstFit(old(blocks), n);
              if i == |old(blocks)| then
                pvReturn == 0 && hdr == old(hdr) && blocks == old(blocks)
                && xFreeBytesRemaining == old(xFreeBytesRemaining)
              else
                pvReturn == old(blocks)[i].addr + STRUCT_SIZE && blocks == Allocate(old(blocks), i, n)
    {
      pvReturn := 0;
      var pxPreviousBlock, pxBlock := FindFit(n);
      if pxBlock != pxEnd {
        ghost var i := FirstFit(blocks, n);
        SplitAt(blocks, i);
        AroundFree(hdr, blocks[..i], blocks[i], blocks[i + 1..], xStart);
        AllocateParts(blocks, i, n);
        pvReturn := hdr[pxPreviousBlock].next + STRUCT_SIZE;
        Take(pxPreviousBlock, pxBlock, n, blocks[..i], blocks[i], blocks[i + 1..]);
      }
    }

    // ---- Release ----

    /** pv is NULL or the memory of block i of the heap. A block that is free already stays as it is. */
    method VPortFree(pv: nat, ghost i: nat)
      requires Valid() && (pv == 0 || (i < |blocks| && pv == blocks[i].addr + STRUCT_SIZE))
      modifies `hdr, `xFreeBytesRemaining, `blocks
      ensures Valid()
      ensures pv == 0 || old(blocks)[i].free ==>
        hdr == old(hdr) && blocks == old(blocks) && xFreeBytesRemaining == old(xFreeBytesRemaining)
      ensures pv != 0 ==> blocks == AfterFree(old(blocks), pv)
    {
      if pv != 0 {
        var pxLink := pv - STRUCT_SIZE;
        BlockHeader(hdr, blocks, i, xStart);
        BlockAtIs(blocks, i);
        if HasBit(hdr[pxLink].size, xBlockAllocatedBit) {
          if hdr[pxLink].next == 0 {
            Give(pxLink, i);
          }
        }
      }
    }

    /** The allocated block i goes back to the free list. */
    method Give(pxLink: nat, ghost i: nat)
      requires Valid() && pxEnd == END && i < |blocks| && !blocks[i].free && pxLink == blocks[i].addr
      modifies `hdr, `xFreeBytesRemaining, `blocks
      ensures Valid() && blocks == Release(old(blocks), i)
    {
      ghost var a, b, c := blocks[..i], blocks[i], blocks[i + 1..];
      UsedView(hdr, blocks, i, xStart);
      ReleaseInv(blocks, i);
      Unmark(pxLink, a, b, c);
      xFreeBytesRemaining := xFreeBytesRemaining + hdr[pxLink].size;
      InsertedAll(hdr, a, b, c, xStart);
      PrvInsertBlockIntoFreeList(pxLink, a, b, c, b.addr);
      blocks := Coalesce(a, b, c);
    }

    /** The allocated bit of the block b is cleared. */
    method Unmark(pxLink: nat, ghost a: seq<Block>, ghost b: Block, ghost c: seq<Block>)
      requires 0 < xStart && (xStart + STRUCT_SIZE <= UC_HEAP || UC_HEAP + UC_HEAP_SIZE <= xStart)
        && xBlockAllocatedBit == TOP_BIT
      requires Tiles(a, START, b.addr) && Sound(b) && Tiles(c, b.addr + b.size, END) && START <= b.addr
        && b.addr + b.size <= END
      requires Linked(hdr, a, xStart, HeapLinks.First(c, END)) && Linked(hdr, c, HeapLinks.Last(a, xStart), END)
      requires pxLink == b.addr && pxLink in hdr && hdr[pxLink] == Header(0, b.size + TOP_BIT)
      modifies `hdr
      ensures Linked(hdr, a, xStart, HeapLinks.First(c, END)) && Linked(hdr, c, HeapLinks.Last(a, xStart), END)
      ensures hdr == old(hdr)[pxLink := Header(0, b.size)]
    {
      ghost var m := hdr;
      hdr := hdr[pxLink := hdr[pxLink].(size := ClearBit(hdr[pxLink].size, xBlockAllocatedBit))];
      LinkedFirst(m, a, xStart, HeapLinks.First(c, END));
      StillLinked(m, hdr, a, c, xStart, b.addr, b.addr + b.size);
    }
  }

  /** Whether the bit of the power of two bit is set in x. */
  predicate HasBit(x: nat, bit: nat)
    requires bit > 0
  {
    x / bit % 2 == 1
  }

  /** x without the bit of the power of two bit. */
  function ClearBit(x: nat, bit: nat): nat
    requires bit > 0
  {
    if HasBit(x, bit) && x >= bit then x - bit else x
  }

  /** x with the bit of the power of two bit set. */
  function SetBit(x: nat, bit: nat): nat
    requires bit > 0
  {
    if HasBit(x, bit) then x else x + bit
  }

  function AlignDown(x: nat): nat {
    x - x % ALIGNMENT
  }
}
