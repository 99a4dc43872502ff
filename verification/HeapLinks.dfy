/** How the blocks of the heap lie in memory: a header at the start of each block,
    the free ones chained in address order. */
module HeapLinks {
  import opened HeapBlocks

  /** struct A_BLOCK_LINK. The address 0 stands for NULL. */
  datatype Header = Header(next: nat, size: nat)

  type Store = map<nat, Header>

  /** The last free block of bs, or p. */
  function Last(bs: seq<Block>, p: nat): nat {
    if bs == [] then p else Last(bs[1..], if bs[0].free then bs[0].addr else p)
  }

  /** The first free block of bs, or q. */
  function First(bs: seq<Block>, q: nat): nat {
    if bs == [] then q else if bs[0].free then bs[0].addr else First(bs[1..], q)
  }

  /** The headers of bs, with the links running from p through the free blocks of bs to q. */
  ghost predicate Linked(m: Store, bs: seq<Block>, p: nat, q: nat) {
    if bs == [] then p in m && m[p].next == q
    else if bs[0].free then
      && p in m && m[p].next == bs[0].addr
      && bs[0].addr in m && m[bs[0].addr].size == bs[0].size
      && Linked(m, bs[1..], bs[0].addr, q)
    else
      && bs[0].addr in m && m[bs[0].addr] == Header(0, bs[0].size + TOP_BIT)
      && Linked(m, bs[1..], p, q)
  }

  /** m' agrees with m on the headers between from and to. */
  ghost predicate Kept(m: Store, m': Store, from: nat, to: nat) {
    forall x {:trigger m'[x]} {:trigger x in m'} | x in m && from <= x < to :: x in m' && m'[x] == m[x]
  }

  lemma {:induction false} LinkedAppend(m: Store, a: seq<Block>, c: seq<Block>, p: nat, q: nat)
    ensures Linked(m, a + c, p, q) <==> Linked(m, a, p, First(c, q)) && Linked(m, c, Last(a, p), q)
  {
    if a == [] {
      assert a + c == c;
      if Linked(m, c, p, q) {
        LinkedFirst(m, c, p, q);
      }
    } else {
      assert (a + c)[1..] == a[1..] + c;
      LinkedAppend(m, a[1..], c, if a[0].free then a[0].addr else p, q);
    }
  }

  lemma {:induction false} LinkedFirst(m: Store, c: seq<Block>, p: nat, q: nat)
    requires Linked(m, c, p, q)
    ensures p in m && m[p].next == First(c, q)
  {
    if c != [] && !c[0].free {
      LinkedFirst(m, c[1..], p, q);
    }
  }

  /** The same headers, with the links started from another node. */
  lemma {:induction false} LinkedFrom(m: Store, m': Store, c: seq<Block>, p: nat, p': nat, q: nat, from: nat, to: nat)
    requires Linked(m, c, p, q) && Tiles(c, from, to) && Kept(m, m', from, to)
    requires p' in m' && m'[p'].next == First(c, q)
    ensures Linked(m', c, p', q)
  {
    if c != [] {
      TilesSpan(c[1..], from + c[0].size, to);
      assert c[0].addr in m' && m'[c[0].addr] == m[c[0].addr];
      if c[0].free {
        LinkedFirst(m, c[1..], c[0].addr, q);
        LinkedFrom(m, m', c[1..], c[0].addr, c[0].addr, q, from + c[0].size, to);
      } else {
        LinkedFrom(m, m', c[1..], p, p', q, from + c[0].size, to);
      }
    }
  }

  lemma {:induction false} LastBounds(bs: seq<Block>, p: nat, from: nat, to: nat)
    requires Tiles(bs, from, to)
    ensures Last(bs, p) == p || from <= Last(bs, p) < to
    ensures First(bs, to) == to || from <= First(bs, to) < to
  {
    if bs != [] {
      TilesSpan(bs[1..], from + bs[0].size, to);
      LastBounds(bs[1..], if bs[0].free then bs[0].addr else p, from + bs[0].size, to);
    }
  }

  /** The last link of bs set to another target. */
  lemma {:induction false} LinkedTo(m: Store, m': Store, bs: seq<Block>, p: nat, q: nat, q': nat, from: nat, to: nat)
    requires Linked(m, bs, p, q) && Tiles(bs, from, to) && !(from <= p < to)
    requires m' == m[Last(bs, p) := Header(q', if Last(bs, p) in m then m[Last(bs, p)].size else 0)]
    ensures Linked(m', bs, p, q')
  {
    if bs != [] {
      TilesSpan(bs[1..], from + bs[0].size, to);
      var n := if bs[0].free then bs[0].addr else p;
      LastBounds(bs[1..], n, from + bs[0].size, to);
      LinkedTo(m, m', bs[1..], n, q, q', from + bs[0].size, to);
    }
  }

  // ---- Inserting a block into the free list ----

  /** m with the free block b, between a and c, merged and linked into the list that starts at p0. */
  function Inserted(m: Store, a: seq<Block>, b: Block, c: seq<Block>, p0: nat): Store {
    var (a', b') := MergeLeft(a, b);
    var (b'', c') := MergeRight(b', c);
    var p := Last(a', p0);
    m[p := Header(b''.addr, if p in m then m[p].size else 0)][b''.addr := Header(First(c', END), b''.size)]
  }

  lemma {:induction false} LastSnoc(a: seq<Block>, p: nat)
    requires a != []
    ensures var l := a[|a| - 1]; Last(a, p) == if l.free then l.addr else Last(a[..|a| - 1], p)
  {
    if |a| > 1 {
      assert a[1..][..|a| - 2] == a[..|a| - 1][1..];
      LastSnoc(a[1..], if a[0].free then a[0].addr else p);
    }
  }

  /** The links before the block that b merges into, if a ends with a free block. */
  lemma LinkedLeft(m: Store, a: seq<Block>, b: Block, p: nat, q: nat)
    requires Linked(m, a, p, q)
    ensures var (a', b') := MergeLeft(a, b);
            && Last(a', p) in m
            && (EndsFree(a) ==>
                  && Linked(m, a', p, b'.addr) && Last(a, p) == b'.addr && b'.addr in m
                  && m[b'.addr] == Header(q, b'.size - b.size))
            && (!EndsFree(a) ==> Linked(m, a', p, q))
  {
    if EndsFree(a) {
      var a', l := a[..|a| - 1], a[|a| - 1];
      assert a == a' + [l];
      LinkedAppend(m, a', [l], p, q);
      LastSnoc(a, p);
      LinkedFirst(m, [l], Last(a', p), q);
      assert Linked(m, [l][1..], l.addr, q);
    } else {
      LinkedAppend(m, a, [], p, q);
      assert a + [] == a;
    }
  }

  /** Insertion links exactly the coalesced blocks. */
  lemma InsertedLinked(m: Store, a: seq<Block>, b: Block, c: seq<Block>, p0: nat, lo: nat)
    requires Tiles(a, START, lo) && lo <= b.addr && Tiles(c, b.addr + b.size, END) && Sound(b) && Coalesced(a)
      && Coalesced(c)
    requires EndsFree(a) ==> lo == b.addr
    requires Linked(m, a, p0, First(c, END)) && Linked(m, c, Last(a, p0), END)
    requires !(START <= p0 < END)
    ensures var (a', b') := MergeLeft(a, b);
            var (b'', c') := MergeRight(b', c);
            var m' := Inserted(m, a, b, c, p0);
            && Linked(m', a', p0, b''.addr) && b''.addr in m' && m'[b''.addr] == Header(First(c', END), b''.size)
            && Linked(m', c', b''.addr, END)
  {
    var (a', b') := MergeLeft(a, b);
    var (b'', c') := MergeRight(b', c);
    var m' := Inserted(m, a, b, c, p0);
    TilesSpan(c, b.addr + b.size, END);
    InsertedBefore(m, m', a, b, m'[b''.addr], p0, First(c, END), lo);
    MergedTiles(a, b, START, lo);
    LastBounds(a', p0, START, START + Span(a'));
    if StartsFree(c) {
      LinkedFrom(m, m', c[1..], c[0].addr, b''.addr, END, b.addr + b.size + c[0].size, END);
    } else {
      LinkedFrom(m, m', c, Last(a, p0), b''.addr, END, b.addr + b.size, END);
    }
  }

  lemma MergedTiles(a: seq<Block>, b: Block, from: nat, lo: nat)
    requires Tiles(a, from, lo) && lo <= b.addr && Coalesced(a) && (EndsFree(a) ==> lo == b.addr)
    ensures var (a', b') := MergeLeft(a, b);
            Tiles(a', from, from + Span(a')) && from + Span(a') <= b'.addr <= b.addr
            && b'.addr + b'.size == b.addr + b.size
  {
    TilesSpan(a, from, lo);
    if EndsFree(a) {
      Unsnoc(a, from, lo);
    }
  }

  lemma InsertedBefore(m: Store, m': Store, a: seq<Block>, b: Block, h: Header, p0: nat, q: nat, lo: nat)
    requires Tiles(a, START, lo) && lo <= b.addr && Coalesced(a) && (EndsFree(a) ==> lo == b.addr)
    requires Linked(m, a, p0, q) && !(START <= p0 < b.addr + b.size)
    requires var (a', b') := MergeLeft(a, b);
             var p := Last(a', p0);
             b'.size > 0 && m' == m[p := Header(b'.addr, if p in m then m[p].size else 0)][b'.addr := h]
    ensures Linked(m', MergeLeft(a, b).0, p0, MergeLeft(a, b).1.addr)
  {
    var (a', b') := MergeLeft(a, b);
    var p, to := Last(a', p0), START + Span(a');
    var m1 := m[p := Header(b'.addr, if p in m then m[p].size else 0)];
    MergedTiles(a, b, START, lo);
    LinkedLeft(m, a, b, p0, q);
    LinkedTo(m, m1, a', p0, if EndsFree(a) then b'.addr else q, b'.addr, START, to);
    LinkedFirst(m1, a', p0, b'.addr);
    LinkedFrom(m1, m', a', p0, p0, b'.addr, START, to);
  }

  // ---- Walking the free list ----

  /** The next free block in a walk along bs that stands at node p. */
  lemma {:induction false} NextFree(m: Store, bs: seq<Block>, p: nat, q: nat) returns (j: nat)
    requires Linked(m, bs, p, q) && p in m
    ensures j <= |bs| && forall i | 0 <= i < j :: !bs[i].free
    ensures j == |bs| ==> m[p].next == q == First(bs, q) && Last(bs, p) == p
    ensures j < |bs| ==>
      && bs[j].free && m[p].next == bs[j].addr == First(bs, q) && bs[j].addr in m && m[bs[j].addr].size == bs[j].size
      && Linked(m, bs[j + 1..], bs[j].addr, q) && Last(bs, p) == Last(bs[j + 1..], bs[j].addr)
  {
    if bs == [] || bs[0].free {
      return 0;
    }
    j := NextFree(m, bs[1..], p, q);
    j := j + 1;
    assert forall i | 0 < i < |bs| :: bs[i] == bs[1..][i - 1];
    if j < |bs| {
      assert bs[1..][j..] == bs[j + 1..];
    }
  }

  /** Which block the last free one of a is; |a| if there is none. */
  lemma {:induction false} LastBlock(m: Store, a: seq<Block>, p: nat, q: nat) returns (i: nat)
    requires Linked(m, a, p, q)
    ensures i <= |a| && (i == |a| ==> Last(a, p) == p)
    ensures i < |a| ==> a[i].free && a[i].addr == Last(a, p) && a[i].addr in m && m[a[i].addr].size == a[i].size
  {
    if a == [] {
      return 0;
    }
    i := LastBlock(m, a[1..], if a[0].free then a[0].addr else p, q);
    i := if i < |a| - 1 then i + 1 else if a[0].free then 0 else |a|;
  }

  /** The list node before b touches b exactly when a ends with a free block. */
  lemma TouchesLeft(m: Store, a: seq<Block>, b: Block, p0: nat, q: nat, lo: nat)
    requires Tiles(a, START, lo) && lo <= b.addr && (EndsFree(a) ==> lo == b.addr)
    requires Linked(m, a, p0, q) && p0 in m && m[p0].size == 0 && p0 != b.addr
    ensures Last(a, p0) in m && m[Last(a, p0)].next == q
    ensures Last(a, p0) + m[Last(a, p0)].size == b.addr <==> EndsFree(a)
    ensures EndsFree(a) ==> Last(a, p0) == a[|a| - 1].addr && m[Last(a, p0)].size == a[|a| - 1].size
  {
    LinkedAppend(m, a, [], p0, q);
    assert a + [] == a;
    LinkedLeft(m, a, b, p0, q);
    if a != [] {
      TilesBounds(a, START, lo, |a| - 1);
      LastSnoc(a, p0);
      var i := LastBlock(m, a, p0, q);
      if i < |a| - 1 {
        TilesDisjoint(a, START, lo, i, |a| - 1);
      }
    }
    if EndsFree(a) {
      LastEnd(a, START, lo);
    }
  }

  lemma {:induction false} LastEnd(a: seq<Block>, from: nat, lo: nat)
    requires Tiles(a, from, lo) && a != []
    ensures a[|a| - 1].addr + a[|a| - 1].size == lo
  {
    if |a| == 1 {
      assert Tiles(a[1..], from + a[0].size, lo) && a[1..] == [];
    } else {
      LastEnd(a[1..], from + a[0].size, lo);
    }
  }

  /** b touches the next list node exactly when c starts with a free block, or with the end marker. */
  lemma TouchesRight(c: seq<Block>, from: nat)
    requires Tiles(c, from, END)
    ensures First(c, END) == from <==> c == [] || c[0].free
    ensures from <= First(c, END) <= END && (First(c, END) == END <==> forall i | 0 <= i < |c| :: !c[i].free)
  {
    TilesSpan(c, from, END);
    if c != [] {
      TilesSpan(c[1..], from + c[0].size, END);
      LastBounds(c[1..], 0, from + c[0].size, END);
      NoneFree(c, from);
    }
  }

  lemma {:induction false} NoneFree(c: seq<Block>, from: nat)
    requires Tiles(c, from, END)
    ensures First(c, END) == END <==> forall i | 0 <= i < |c| :: !c[i].free
  {
    if c != [] {
      TilesSpan(c[1..], from + c[0].size, END);
      NoneFree(c[1..], from + c[0].size);
      assert forall i | 0 < i < |c| :: c[i] == c[1..][i - 1];
    }
  }

  lemma LastNext(m: Store, a: seq<Block>, p: nat, q: nat)
    requires Linked(m, a, p, q)
    ensures Last(a, p) in m && m[Last(a, p)].next == q
  {
    LinkedAppend(m, a, [], p, q);
    assert a + [] == a;
  }

  /** The headers that merging b at its place between a and c reads. */
  lemma MergeView(m: Store, a: seq<Block>, b: Block, c: seq<Block>, p0: nat, lo: nat)
    requires Tiles(a, START, lo) && lo <= b.addr && Tiles(c, b.addr + b.size, END) && Sound(b) && Coalesced(a)
    requires EndsFree(a) ==> lo == b.addr
    requires Linked(m, a, p0, First(c, END)) && Linked(m, c, Last(a, p0), END)
    requires p0 in m && m[p0].size == 0 && !(START <= p0 <= END) && b.addr in m && m[b.addr].size == b.size
    ensures var it := Last(a, p0);
            && it in m && m[it].next == First(c, END)
            && (it + m[it].size == b.addr <==> EndsFree(a)) && it != b.addr
            && (EndsFree(a) ==> it == MergeLeft(a, b).1.addr && m[it].size + b.size == MergeLeft(a, b).1.size)
            && (!EndsFree(a) ==> MergeLeft(a, b) == (a, b.(free := true)))
    ensures var p := Last(MergeLeft(a, b).0, p0);
            p in m && (EndsFree(a) ==> m[p].next == Last(a, p0))
    ensures First(c, END) == b.addr + b.size <==> c == [] || StartsFree(c)
    ensures c == [] || StartsFree(c) ==> (First(c, END) == END <==> c == [])
    ensures StartsFree(c) ==>
      c[0].addr in m && m[c[0].addr] == Header(First(c[1..], END), c[0].size) && c[0].addr == First(c, END)
    ensures First(c, END) > b.addr && p0 != First(c, END)
  {
    TouchesLeft(m, a, b, p0, First(c, END), lo);
    LinkedLeft(m, a, b, p0, First(c, END));
    LastNext(m, MergeLeft(a, b).0, p0, if EndsFree(a) then Last(a, p0) else First(c, END));
    TouchesRight(c, b.addr + b.size);
    if StartsFree(c) {
      LinkedFirst(m, c[1..], c[0].addr, END);
    }
    LastBounds(a, p0, START, lo);
    TilesSpan(a, START, lo);
  }

  // ---- Taking a block out of the free list, putting one in its place ----

  /** The links around the free block b of the list. */
  lemma AroundFree(m: Store, a: seq<Block>, b: Block, c: seq<Block>, p0: nat)
    requires b.free && Linked(m, a + [b] + c, p0, END)
    ensures Linked(m, a, p0, b.addr) && Linked(m, c, b.addr, END)
    ensures b.addr in m && m[b.addr] == Header(First(c, END), b.size)
    ensures Last(a, p0) in m && m[Last(a, p0)].next == b.addr
  {
    assert a + [b] + c == a + ([b] + c);
    LinkedAppend(m, a, [b] + c, p0, END);
    assert ([b] + c)[1..] == c;
    LastNext(m, a, p0, b.addr);
    LinkedFirst(m, c, b.addr, END);
  }

  /** The link that led to b set to the free block behind it. */
  lemma Unlinked(m: Store, m': Store, a: seq<Block>, b: Block, c: seq<Block>, p0: nat)
    requires b.free && Linked(m, a + [b] + c, p0, END) && Tiles(a + [b] + c, START, END) && !(START <= p0 < END)
    requires Last(a, p0) in m && m' == m[Last(a, p0) := Header(First(c, END), m[Last(a, p0)].size)]
    ensures Linked(m', a, p0, First(c, END)) && Linked(m', c, Last(a, p0), END)
    ensures b.addr in m' && m'[b.addr] == Header(First(c, END), b.size)
  {
    AroundFree(m, a, b, c, p0);
    TilesSplit(a, b, c, START, END);
    TilesSpan(c, b.addr + b.size, END);
    LinkedTo(m, m', a, p0, b.addr, First(c, END), START, START + Span(a));
    LastBounds(a, p0, START, START + Span(a));
    LinkedFrom(m, m', c, b.addr, Last(a, p0), END, b.addr + b.size, END);
  }

  /** An allocated block between a and c, neither of which mentions it. */
  lemma UsedBetween(m: Store, m': Store, a: seq<Block>, u: Block, c: seq<Block>, p0: nat)
    requires !u.free && Tiles(a + [u] + c, START, END) && !(START <= p0 < END)
    requires Linked(m, a, p0, First(c, END)) && Linked(m, c, Last(a, p0), END)
    requires m' == m[u.addr := Header(0, u.size + TOP_BIT)]
    ensures Linked(m', a + [u] + c, p0, END)
  {
    TilesSplit(a, u, c, START, END);
    TilesSpan(c, u.addr + u.size, END);
    LinkedFirst(m, a, p0, First(c, END));
    LinkedFrom(m, m', a, p0, p0, First(c, END), START, START + Span(a));
    LastBounds(a, p0, START, START + Span(a));
    LastNext(m, a, p0, First(c, END));
    LinkedFrom(m, m', c, Last(a, p0), Last(a, p0), END, u.addr + u.size, END);
    assert ([u] + c)[1..] == c;
    LinkedAppend(m', a, [u] + c, p0, END);
    assert a + [u] + c == a + ([u] + c);
  }

  /** A free block between a and c, linked on both sides. */
  lemma FreeBetween(m: Store, a: seq<Block>, b: Block, c: seq<Block>, p0: nat)
    requires b.free && Linked(m, a, p0, b.addr) && Linked(m, c, b.addr, END)
    requires b.addr in m && m[b.addr].size == b.size
    ensures Linked(m, a + [b] + c, p0, END)
  {
    LastNext(m, a, p0, b.addr);
    assert ([b] + c)[1..] == c;
    LinkedAppend(m, a, [b] + c, p0, END);
    assert a + [b] + c == a + ([b] + c);
  }

  /** The links around the allocated block u skip it. */
  lemma AroundUsed(m: Store, a: seq<Block>, u: Block, c: seq<Block>, p0: nat)
    requires !u.free && Linked(m, a + [u] + c, p0, END)
    ensures Linked(m, a, p0, First(c, END)) && Linked(m, c, Last(a, p0), END)
    ensures u.addr in m && m[u.addr] == Header(0, u.size + TOP_BIT)
  {
    assert a + [u] + c == a + ([u] + c);
    LinkedAppend(m, a, [u] + c, p0, END);
    assert ([u] + c)[1..] == c;
  }

  /** Allocated blocks do not move the end of the list. */
  lemma {:induction false} LastSkips(a: seq<Block>, u: seq<Block>, p: nat)
    requires forall k | 0 <= k < |u| :: !u[k].free
    ensures Last(a + u, p) == Last(a, p)
  {
    if a != [] {
      assert (a + u)[1..] == a[1..] + u;
      LastSkips(a[1..], u, if a[0].free then a[0].addr else p);
    } else if u != [] {
      assert a + u == u && [] + u[1..] == u[1..];
      LastSkips([], u[1..], p);
    }
  }

  /** Inserting b where neither neighbour is free links just b. */
  lemma InsertedAlone(m: Store, a: seq<Block>, b: Block, c: seq<Block>, p0: nat, lo: nat)
    requires Tiles(a, START, lo) && lo <= b.addr && Tiles(c, b.addr + b.size, END) && Sound(b) && Coalesced(a)
      && Coalesced(c)
    requires b.free && !EndsFree(a) && !StartsFree(c)
    requires Linked(m, a, p0, First(c, END)) && Linked(m, c, Last(a, p0), END)
    requires !(START <= p0 < END)
    ensures var m' := Inserted(m, a, b, c, p0);
            && Linked(m', a, p0, b.addr) && Linked(m', [b] + c, Last(a, p0), END)
            && forall x | x in m && x != Last(a, p0) && x != b.addr :: x in m' && m'[x] == m[x]
    ensures Last(a, p0) in m && Inserted(m, a, b, c, p0)[Last(a, p0)].size == m[Last(a, p0)].size
  {
    InsertedLinked(m, a, b, c, p0, lo);
    var m' := Inserted(m, a, b, c, p0);
    TilesSpan(a, START, lo);
    LastNext(m, a, p0, First(c, END));
    LastNext(m', a, p0, b.addr);
    assert ([b] + c)[1..] == c;
    LastBounds(a, p0, START, lo);
    TilesSpan(c, b.addr + b.size, END);
  }

  /** Writes between lo and hi leave the links of the blocks before and after. */
  lemma StillLinked(m: Store, m': Store, a: seq<Block>, c: seq<Block>, p0: nat, lo: nat, hi: nat)
    requires Tiles(a, START, lo) && Tiles(c, hi, END) && lo <= hi
    requires Linked(m, a, p0, First(c, END)) && Linked(m, c, Last(a, p0), END)
    requires Kept(m, m', START, lo) && Kept(m, m', hi, END)
    requires p0 in m && p0 in m' && m'[p0] == m[p0] && !(START <= p0 < END)
    ensures Linked(m', a, p0, First(c, END)) && Linked(m', c, Last(a, p0), END)
  {
    LinkedFirst(m, a, p0, First(c, END));
    LinkedFrom(m, m', a, p0, p0, First(c, END), START, lo);
    LastNext(m', a, p0, First(c, END));
    LinkedFrom(m, m', c, Last(a, p0), Last(a, p0), END, hi, END);
  }

  /** A walk along a + rest whose previous node is the last free block of a; block is the next one, rest[j], or END. */
  ghost predicate Standing(m: Store, a: seq<Block>, rest: seq<Block>, j: nat, prev: nat, block: nat, p0: nat) {
    && Linked(m, rest, prev, END) && prev == Last(a, p0) && prev in m && m[prev].next == block
    && j <= |rest| && (forall k | 0 <= k < j :: !rest[k].free)
    && (j == |rest| ==> block == END)
    && (j < |rest| ==>
          && rest[j].free && block == rest[j].addr && block in m && m[block].size == rest[j].size
          && Linked(m, rest[j + 1..], block, END))
  }

  lemma StartWalk(m: Store, bs: seq<Block>, p0: nat) returns (j: nat)
    requires Linked(m, bs, p0, END)
    ensures p0 in m && Standing(m, [], bs, j, p0, m[p0].next, p0)
  {
    LinkedFirst(m, bs, p0, END);
    j := NextFree(m, bs, p0, END);
  }

  lemma WalkOn(m: Store, a: seq<Block>, rest: seq<Block>, j: nat, prev: nat, block: nat, p0: nat) returns (j': nat)
    requires Standing(m, a, rest, j, prev, block, p0) && j < |rest|
    ensures Standing(m, a + rest[..j + 1], rest[j + 1..], j', block, m[block].next, p0)
    ensures a + rest == a + rest[..j + 1] + rest[j + 1..]
  {
    LinkedFirst(m, rest[j + 1..], block, END);
    j' := NextFree(m, rest[j + 1..], block, END);
    assert (a + rest[..j + 1])[|a| + j] == rest[j];
    LastSnoc(a + rest[..j + 1], p0);
  }

  /** No free block of bs has n bytes. */
  ghost predicate NoFit(bs: seq<Block>, n: nat) {
    forall k | 0 <= k < |bs| :: !(bs[k].free && bs[k].size >= n)
  }

  /** Where a walk over blocks without a fit stops: at the first fit, or at the end. */
  lemma WalkEnds(m: Store, bs: seq<Block>, a: seq<Block>, rest: seq<Block>, j: nat, prev: nat, block: nat, p0: nat,
                 n: nat)
    requires bs == a + rest && Standing(m, a, rest, j, prev, block, p0) && NoFit(a, n) && Tiles(bs, START, END)
    requires j < |rest| ==> rest[j].size >= n
    ensures var i := FirstFit(bs, n);
            && (i == |bs| ==> block == END)
            && (i < |bs| ==> block == bs[i].addr < END && prev == Last(bs[..i], p0))
  {
    FitAt(a, rest, j, n);
    if j < |rest| {
      WalkLast(bs, a, rest, j, p0);
      TilesBounds(bs, START, END, |a| + j);
    }
  }

  /** The allocated blocks that were skipped leave the last free one as it was. */
  lemma WalkLast(bs: seq<Block>, a: seq<Block>, rest: seq<Block>, j: nat, p0: nat)
    requires bs == a + rest && j < |rest| && forall k | 0 <= k < j :: !rest[k].free
    ensures bs[|a| + j] == rest[j] && Last(bs[..|a| + j], p0) == Last(a, p0)
  {
    assert bs[..|a| + j] == a + rest[..j];
    LastSkips(a, rest[..j], p0);
  }

  lemma FitAt(a: seq<Block>, rest: seq<Block>, j: nat, n: nat)
    requires NoFit(a, n) && j <= |rest| && forall k | 0 <= k < j :: !rest[k].free
    requires j < |rest| ==> rest[j].free && rest[j].size >= n
    ensures FirstFit(a + rest, n) == |a| + j
  {
    var bs := a + rest;
    assert forall k | 0 <= k < |a| :: bs[k] == a[k];
    assert forall k | |a| <= k < |a| + j :: bs[k] == rest[k - |a|];
    assert j < |rest| ==> bs[|a| + j] == rest[j];
  }

  /** A block has a successor on the list, the end marker has none. */
  lemma BlockNext(m: Store, bs: seq<Block>, a: seq<Block>, rest: seq<Block>, j: nat, prev: nat, block: nat, p0: nat)
    requires bs == a + rest && Standing(m, a, rest, j, prev, block, p0) && Tiles(bs, START, END) && j < |rest|
    ensures block in m && m[block].next >= START && m[block].size == rest[j].size
  {
    assert bs == (a + rest[..j]) + [rest[j]] + rest[j + 1..];
    LinkedFirst(m, rest[j + 1..], block, END);
    TilesSplit(a + rest[..j], rest[j], rest[j + 1..], START, END);
    TilesSpan(rest[j + 1..], START + Span(a + rest[..j]) + rest[j].size, END);
    LastBounds(rest[j + 1..], 0, START + Span(a + rest[..j]) + rest[j].size, END);
  }

  /** What the condition that ends the walk for n bytes says about where it stands. */
  lemma WalkStops(m: Store, bs: seq<Block>, a: seq<Block>, rest: seq<Block>, j: nat, prev: nat, block: nat, p0: nat,
                  n: nat)
    requires Standing(m, a, rest, j, prev, block, p0) && NoFit(a, n)
    requires bs == a + rest && Tiles(bs, START, END)
    requires block in m && (m[block].size >= n || m[block].next == 0)
    ensures var i := FirstFit(bs, n);
            && (i == |bs| ==> block == END)
            && (i < |bs| ==> block == bs[i].addr < END && prev == Last(bs[..i], p0))
  {
    if j < |rest| {
      BlockNext(m, bs, a, rest, j, prev, block, p0);
    }
    WalkEnds(m, bs, a, rest, j, prev, block, p0, n);
  }

  /** Freed at its place, b leaves the coalesced blocks linked, and only headers of the heap and of the list start
      change. */
  lemma InsertedAll(m: Store, a: seq<Block>, b: Block, c: seq<Block>, p0: nat)
    requires Tiles(a, START, b.addr) && Tiles(c, b.addr + b.size, END) && Sound(b) && Coalesced(a) && Coalesced(c)
    requires Linked(m, a, p0, First(c, END)) && Linked(m, c, Last(a, p0), END)
    requires !(START <= p0 <= END) && p0 in m && m[p0].size == 0 && END in m
    ensures var m' := Inserted(m, a, b, c, p0);
            && Linked(m', Coalesce(a, b, c), p0, END)
            && p0 in m' && m'[p0].size == 0 && END in m' && m'[END] == m[END]
  {
    InsertedLinked(m, a, b, c, p0, b.addr);
    var (a', b') := MergeLeft(a, b);
    var (b'', c') := MergeRight(b', c);
    MergedTiles(a, b, START, b.addr);
    LastBounds(a', p0, START, START + Span(a'));
    TilesSpan(c, b.addr + b.size, END);
    TilesSpan(a, START, b.addr);
    FreeBetween(Inserted(m, a, b, c, p0), a', b'', c', p0);
  }

  /** The header of block i says whether it is allocated. */
  lemma BlockHeader(m: Store, bs: seq<Block>, i: nat, p0: nat)
    requires Linked(m, bs, p0, END) && i < |bs| && Tiles(bs, START, END)
    ensures bs[i].addr in m && bs[i].size < TOP_BIT
    ensures !bs[i].free ==> m[bs[i].addr] == Header(0, bs[i].size + TOP_BIT)
    ensures bs[i].free ==> m[bs[i].addr].size == bs[i].size
  {
    SplitAt(bs, i);
    if bs[i].free {
      AroundFree(m, bs[..i], bs[i], bs[i + 1..], p0);
    } else {
      AroundUsed(m, bs[..i], bs[i], bs[i + 1..], p0);
    }
    TilesBounds(bs, START, END, i);
  }

  /** The neighbourhood of the allocated block i. */
  lemma UsedView(m: Store, bs: seq<Block>, i: nat, p0: nat)
    requires Inv(bs) && i < |bs| && !bs[i].free && Linked(m, bs, p0, END)
    ensures var a, b, c := bs[..i], bs[i], bs[i + 1..];
            && Linked(m, a, p0, First(c, END)) && Linked(m, c, Last(a, p0), END)
            && b.addr in m && m[b.addr] == Header(0, b.size + TOP_BIT) && b.size < TOP_BIT
            && Tiles(a, START, b.addr) && Sound(b) && Tiles(c, b.addr + b.size, END)
            && Coalesced(a) && Coalesced(c) && START <= b.addr && b.addr + b.size <= END
  {
    SplitAt(bs, i);
    AroundUsed(m, bs[..i], bs[i], bs[i + 1..], p0);
    CoalescedParts(bs[..i], bs[i], bs[i + 1..]);
    TilesSplit(bs[..i], bs[i], bs[i + 1..], START, END);
    TilesBounds(bs, START, END, i);
  }
}
