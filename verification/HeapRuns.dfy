/** Calls of the allocator as functions on the blocks, and what holds over every run of them. */
module HeapRuns {
  import opened Bits
  import opened HeapBlocks

  datatype Call = Malloc(wanted: nat) | Free(pv: nat)

  /** The heap right after its initialisation. */
  function Initial(): seq<Block> {
    [Block(START, END - START, true)]
  }

  /** The pointer that a request gets; 0 stands for NULL. */
  function Served(bs: seq<Block>, wanted: nat): nat {
    var i := FirstFit(bs, Rounded(wanted));
    if wanted == 0 || wanted >= TOP_BIT || i == |bs| then 0 else bs[i].addr + STRUCT_SIZE
  }

  function AfterMalloc(bs: seq<Block>, wanted: nat): seq<Block> {
    if Served(bs, wanted) == 0 then bs
    else Allocate(bs, FirstFit(bs, Rounded(wanted)), Rounded(wanted))
  }

  /** The block whose memory starts at pv, or |bs|. */
  function BlockAt(bs: seq<Block>, pv: nat): (i: nat)
    ensures i <= |bs| && (i < |bs| ==> bs[i].addr + STRUCT_SIZE == pv)
    ensures forall k | 0 <= k < i :: bs[k].addr + STRUCT_SIZE != pv
  {
    if bs == [] then 0
    else if bs[0].addr + STRUCT_SIZE == pv then 0
    else 1 + BlockAt(bs[1..], pv)
  }

  function AfterFree(bs: seq<Block>, pv: nat): seq<Block> {
    var i := BlockAt(bs, pv);
    if i < |bs| && !bs[i].free then Release(bs, i) else bs
  }

  function Step(bs: seq<Block>, call: Call): seq<Block> {
    match call
    case Malloc(wanted) => AfterMalloc(bs, wanted)
    case Free(pv) => AfterFree(bs, pv)
  }

  function Run(bs: seq<Block>, calls: seq<Call>): seq<Block>
    decreases |calls|
  {
    if calls == [] then bs else Run(Step(bs, calls[0]), calls[1..])
  }

  /** The allocated blocks. */
  ghost function Live(bs: seq<Block>): set<Block> {
    set b | b in bs && !b.free
  }

  // ---- One call ----

  /** A block for a request is the least aligned size that holds a header and the request, within 32 bits. */
  lemma RoundedLeast(wanted: nat, n: nat)
    requires n >= wanted + 8 && n % 8 == 0
    ensures Rounded(wanted) <= n && Rounded(wanted) % 8 == 0 && Rounded(wanted) >= wanted + 8
    ensures 0 < wanted < 0x8000_0000 ==> 16 <= Rounded(wanted) < WORD
  {
  }

  lemma RoundedBounds(wanted: nat)
    ensures Rounded(wanted) % ALIGNMENT == 0
      && wanted + STRUCT_SIZE <= Rounded(wanted) < wanted + STRUCT_SIZE + ALIGNMENT
    ensures 0 < wanted < TOP_BIT ==> MINIMUM_BLOCK_SIZE <= Rounded(wanted) < WORD
  {
  }

  /** The number of free bytes never hides a block that would do. */
  lemma {:induction false} FitsRemaining(bs: seq<Block>, i: nat)
    requires i < |bs| && bs[i].free
    ensures bs[i].size <= FreeBytes(bs)
  {
    if i > 0 {
      FitsRemaining(bs[1..], i - 1);
    }
  }

  lemma NoneRemaining(bs: seq<Block>, n: nat)
    requires FreeBytes(bs) < n
    ensures FirstFit(bs, n) == |bs|
  {
    var i := FirstFit(bs, n);
    if i < |bs| {
      FitsRemaining(bs, i);
    }
  }

  /** A request is refused exactly when it is zero, too large for a block size, or no free block holds it. */
  lemma ServedIff(bs: seq<Block>, wanted: nat)
    ensures Served(bs, wanted) == 0 <==>
            || wanted == 0 || wanted >= 0x8000_0000
            || forall b | b in bs && b.free :: b.size < Rounded(wanted)
    ensures Served(bs, wanted) == 0 ==> AfterMalloc(bs, wanted) == bs
  {
    var i := FirstFit(bs, Rounded(wanted));
    if i < |bs| {
      assert bs[i] in bs && bs[i].free;
    }
  }

  lemma LiveAppend(a: seq<Block>, b: seq<Block>)
    ensures Live(a + b) == Live(a) + Live(b)
  {
  }

  lemma LiveCoalesce(a: seq<Block>, b: Block, c: seq<Block>)
    ensures Live(Coalesce(a, b, c)) == Live(a) + Live(c)
  {
    var (a', b') := MergeLeft(a, b);
    var (b'', c') := MergeRight(b', c);
    LiveAppend(a' + [b''], c');
    LiveAppend(a', [b'']);
    if EndsFree(a) {
      assert a == a' + [a[|a| - 1]];
    }
    if StartsFree(c) {
      assert c == [c[0]] + c';
    }
  }

  /** Allocated blocks overlap nothing. */
  lemma LiveApart(bs: seq<Block>, b: Block, b': Block)
    requires Inv(bs) && b in bs && b' in bs && b != b'
    ensures b.addr + b.size <= b'.addr || b'.addr + b'.size <= b.addr
  {
    var i :| 0 <= i < |bs| && bs[i] == b;
    var j :| 0 <= j < |bs| && bs[j] == b';
    if i < j {
      TilesDisjoint(bs, START, END, i, j);
    } else {
      TilesDisjoint(bs, START, END, j, i);
    }
  }

  /** Whether b holds memory of wanted bytes at pv, behind its header and inside the heap. */
  predicate Holds(b: Block, pv: nat, wanted: nat) {
    && !b.free && pv == b.addr + STRUCT_SIZE && pv % ALIGNMENT == 0
    && START < pv && pv + wanted <= b.addr + b.size <= END
  }

  /** A served request adds one block that holds it; every other allocated block stays where it is. */
  lemma MallocLive(bs: seq<Block>, wanted: nat) returns (b: Block)
    requires Inv(bs) && Served(bs, wanted) != 0
    ensures Inv(AfterMalloc(bs, wanted))
    ensures Holds(b, Served(bs, wanted), wanted) && b !in Live(bs) && b.size >= Rounded(wanted)
    ensures Served(bs, wanted) == b.addr + 8 && Served(bs, wanted) % 8 == 0
    ensures forall f | f in bs && f.free && f.size >= Rounded(wanted) :: b.addr <= f.addr
    ensures exists f :: f in bs && f.free && f.addr == b.addr
    ensures forall f | f in bs && f.addr == b.addr ::
              f.free && b.size == if f.size > Rounded(wanted) + 16 then Rounded(wanted) else f.size
    ensures Live(AfterMalloc(bs, wanted)) == Live(bs) + {b}
    ensures FreeBytes(AfterMalloc(bs, wanted)) == FreeBytes(bs) - b.size
  {
    var n := Rounded(wanted);
    var i := FirstFit(bs, n);
    RoundedBounds(wanted);
    AllocateInv(bs, i, n);
    var bs' := AfterMalloc(bs, wanted);
    b := bs'[i];
    TilesBounds(bs', START, END, i);
    AllocateLive(bs, i, n);
    LowestFit(bs, n);
    UsedSize(bs, n);
  }

  /** The first fit is the fit of the lowest address, and no other block starts there. */
  lemma LowestFit(bs: seq<Block>, n: nat)
    requires Inv(bs) && FirstFit(bs, n) < |bs|
    ensures forall f | f in bs && f.free && f.size >= n :: bs[FirstFit(bs, n)].addr <= f.addr
    ensures forall f | f in bs && f.addr == bs[FirstFit(bs, n)].addr :: f == bs[FirstFit(bs, n)]
  {
    var i := FirstFit(bs, n);
    forall f | f in bs
      ensures f.free && f.size >= n ==> bs[i].addr <= f.addr
      ensures f.addr == bs[i].addr ==> f == bs[i]
    {
      var k :| 0 <= k < |bs| && bs[k] == f;
      TilesBounds(bs, START, END, k);
      TilesBounds(bs, START, END, i);
      if i < k {
        TilesDisjoint(bs, START, END, i, k);
      } else if k < i {
        TilesDisjoint(bs, START, END, k, i);
      }
    }
  }

  /** What a request takes of the block it is given. */
  lemma UsedSize(bs: seq<Block>, n: nat)
    requires Inv(bs) && FirstFit(bs, n) < |bs| && n % ALIGNMENT == 0 && n >= MINIMUM_BLOCK_SIZE
    ensures var i, bs' := FirstFit(bs, n), Allocate(bs, FirstFit(bs, n), n);
            && i < |bs'| && bs'[i].addr == bs[i].addr
            && bs'[i].size == if bs[i].size > n + 16 then n else bs[i].size
  {
    var i := FirstFit(bs, n);
    if bs[i].size - n > MINIMUM_BLOCK_SIZE {
      AllocateSplit(bs, i, n);
    }
  }

  lemma AllocateLive(bs: seq<Block>, i: nat, n: nat)
    requires Inv(bs) && i < |bs| && bs[i].free && n <= bs[i].size && n % ALIGNMENT == 0 && n >= MINIMUM_BLOCK_SIZE
    ensures |Allocate(bs, i, n)| > i && Live(Allocate(bs, i, n)) == Live(bs) + {Allocate(bs, i, n)[i]}
  {
    var a, b, c := bs[..i], bs[i], bs[i + 1..];
    SplitAt(bs, i);
    AllocateInv(bs, i, n);
    LiveAppend(a + [b], c);
    LiveAppend(a, [b]);
    if b.size - n > MINIMUM_BLOCK_SIZE {
      var u, r := Block(b.addr, n, false), Block(b.addr + n, b.size - n, true);
      AllocateSplit(bs, i, n);
      LiveAppend(a + [u] + [r], c);
      LiveAppend(a + [u], [r]);
      LiveAppend(a, [u]);
    } else {
      var u := b.(free := false);
      assert Allocate(bs, i, n) == a + [u] + c;
      LiveAppend(a + [u], c);
      LiveAppend(a, [u]);
    }
  }

  /** Freeing removes one allocated block; the others stay where they are. */
  lemma FreeLive(bs: seq<Block>, i: nat)
    requires Inv(bs) && i < |bs| && !bs[i].free
    ensures Inv(Release(bs, i))
    ensures Live(Release(bs, i)) == Live(bs) - {bs[i]}
    ensures FreeBytes(Release(bs, i)) == FreeBytes(bs) + bs[i].size
  {
    var a, b, c := bs[..i], bs[i], bs[i + 1..];
    ReleaseInv(bs, i);
    LiveCoalesce(a, b, c);
    SplitAt(bs, i);
    LiveAppend(a + [b], c);
    LiveAppend(a, [b]);
    OnlyOnce(bs, i);
  }

  lemma OnlyOnce(bs: seq<Block>, i: nat)
    requires Inv(bs) && i < |bs|
    ensures bs[i] !in bs[..i] && bs[i] !in bs[i + 1..]
  {
    TilesBounds(bs, START, END, i);
    forall j | 0 <= j < |bs| && j != i
      ensures bs[j] != bs[i]
    {
      if j < i {
        TilesDisjoint(bs, START, END, j, i);
      } else {
        TilesDisjoint(bs, START, END, i, j);
      }
      TilesBounds(bs, START, END, j);
    }
  }

  // ---- Every run ----

  /** No run breaks the tiling or leaves two free neighbours. A run may free any pointer: here one that is no block of
      the heap changes nothing, where the code would take what lies before it for a header. Heap.VPortFree, which ties
      the code to AfterFree, takes only NULL and the memory of a block. */
  lemma {:induction false} RunInv(bs: seq<Block>, calls: seq<Call>)
    requires Inv(bs)
    ensures Inv(Run(bs, calls))
    decreases |calls|
  {
    if calls != [] {
      StepInv(bs, calls[0]);
      RunInv(Step(bs, calls[0]), calls[1..]);
    }
  }

  lemma StepInv(bs: seq<Block>, call: Call)
    requires Inv(bs)
    ensures Inv(Step(bs, call))
  {
    match call
    case Malloc(wanted) =>
      if Served(bs, wanted) != 0 {
        var b := MallocLive(bs, wanted);
      }
    case Free(pv) =>
      var i := BlockAt(bs, pv);
      if i < |bs| && !bs[i].free {
        FreeLive(bs, i);
      }
  }

  lemma InitialInv()
    ensures Inv(Initial()) && FreeBytes(Initial()) == 999984 && Live(Initial()) == {}
  {
    assert Tiles(Initial()[1..], END, END);
    assert Initial()[1..] == [];
  }

  /** A block that no call frees keeps its place and its size, whatever else is allocated and freed. */
  lemma {:induction false} RunKeeps(bs: seq<Block>, calls: seq<Call>, b: Block)
    requires Inv(bs) && b in Live(bs)
    requires Free(b.addr + STRUCT_SIZE) !in calls
    ensures b in Live(Run(bs, calls))
    decreases |calls|
  {
    if calls != [] {
      StepInv(bs, calls[0]);
      match calls[0] {
        case Malloc(wanted) =>
          if Served(bs, wanted) != 0 {
            var b' := MallocLive(bs, wanted);
          }
        case Free(pv) =>
          var i := BlockAt(bs, pv);
          if i < |bs| && !bs[i].free {
            FreeLive(bs, i);
          }
      }
      RunKeeps(Step(bs, calls[0]), calls[1..], b);
    }
  }

  /** Freeing the block of a request at once restores every block of the heap. */
  lemma MallocFree(bs: seq<Block>, wanted: nat)
    requires Inv(bs) && Served(bs, wanted) != 0
    ensures AfterFree(AfterMalloc(bs, wanted), Served(bs, wanted)) == bs
  {
    var n := Rounded(wanted);
    var i := FirstFit(bs, n);
    RoundedBounds(wanted);
    AllocateInv(bs, i, n);
    AllocateRelease(bs, i, n);
    var bs' := AfterMalloc(bs, wanted);
    BlockAtIs(bs', i);
  }

  lemma BlockAtIs(bs: seq<Block>, i: nat)
    requires Inv(bs) && i < |bs|
    ensures BlockAt(bs, bs[i].addr + STRUCT_SIZE) == i
  {
    var j := BlockAt(bs, bs[i].addr + STRUCT_SIZE);
    if j < i {
      TilesDisjoint(bs, START, END, j, i);
      TilesBounds(bs, START, END, j);
    }
  }

  function Frees(ps: seq<nat>): (calls: seq<Call>)
    ensures |calls| == |ps| && forall k | 0 <= k < |ps| :: calls[k] == Free(ps[k])
  {
    seq(|ps|, k requires 0 <= k < |ps| => Free(ps[k]))
  }

  /** Freeing all allocated blocks, in any order, leaves the heap as it was initialised. */
  lemma {:induction false} FreeAll(bs: seq<Block>, ps: seq<nat>)
    requires Inv(bs) && forall b | b in Live(bs) :: b.addr + STRUCT_SIZE in ps
    ensures Run(bs, Frees(ps)) == Initial()
    decreases |ps|
  {
    if ps == [] {
      assert forall b | b in bs :: b.free || b in Live(bs);
      AllFree(bs);
    } else {
      StepInv(bs, Free(ps[0]));
      FreeRemoves(bs, ps[0]);
      var bs' := AfterFree(bs, ps[0]);
      forall b | b in Live(bs')
        ensures b.addr + STRUCT_SIZE in ps[1..]
      {
        assert b.addr + STRUCT_SIZE in ps && ps == [ps[0]] + ps[1..];
      }
      FreeAll(bs', ps[1..]);
      assert Frees(ps)[1..] == Frees(ps[1..]);
    }
  }

  /** After a call of free for pv no allocated block starts at pv, and none is new. */
  lemma FreeRemoves(bs: seq<Block>, pv: nat)
    requires Inv(bs)
    ensures forall b | b in Live(AfterFree(bs, pv)) :: b in Live(bs) && b.addr + STRUCT_SIZE != pv
  {
    var i := BlockAt(bs, pv);
    if i < |bs| && !bs[i].free {
      FreeLive(bs, i);
    }
    forall b | b in Live(AfterFree(bs, pv))
      ensures b in Live(bs) && b.addr + STRUCT_SIZE != pv
    {
      var k :| 0 <= k < |bs| && bs[k] == b;
      BlockAtIs(bs, k);
    }
  }
}
