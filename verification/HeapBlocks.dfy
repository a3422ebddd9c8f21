/**
 The kernel heap, kernel/memory/heap.c, as a list of blocks: first-fit allocation with splitting and
 freeing with coalescing.  A block is a 40-byte header followed by its payload.
 */
module HeapBlocks {
  datatype Block = Block(addr: nat, size: nat, free: bool) {
    function End(): nat {
      addr + 40 + size
    }
  }

  /** The blocks lie end to end from start on and fill `bytes` bytes. */
  ghost predicate Tiled(bs: seq<Block>, start: nat, bytes: nat) {
    && |bs| > 0 && bs[0].addr == start
    && (forall i :: 0 <= i < |bs| - 1 ==> bs[i].End() == bs[i + 1].addr)
    && bs[|bs| - 1].End() == start + bytes
  }

  /** No two neighbours are both free. */
  ghost predicate Coalesced(bs: seq<Block>) {
    forall i :: 0 <= i < |bs| - 1 ==> !(bs[i].free && bs[i + 1].free)
  }

  ghost predicate Good(bs: seq<Block>, start: nat, bytes: nat) {
    Tiled(bs, start, bytes) && Coalesced(bs)
  }

  /** Later blocks begin after earlier ones end. */
  lemma {:induction false} InOrder(bs: seq<Block>, start: nat, bytes: nat, i: nat, j: nat)
    requires Tiled(bs, start, bytes) && i < j < |bs|
    ensures bs[i].End() <= bs[j].addr && bs[j].End() <= start + bytes && start <= bs[i].addr
    decreases j - i
  {
    Inside(bs, start, bytes, j);
    Below(bs, start, bytes, i);
    if i + 1 < j {
      InOrder(bs, start, bytes, i + 1, j);
    }
  }

  lemma {:induction false} Inside(bs: seq<Block>, start: nat, bytes: nat, j: nat)
    requires Tiled(bs, start, bytes) && j < |bs|
    ensures bs[j].End() <= start + bytes
    decreases |bs| - j
  {
    if j + 1 < |bs| { Inside(bs, start, bytes, j + 1); }
  }

  lemma {:induction false} Below(bs: seq<Block>, start: nat, bytes: nat, i: nat)
    requires Tiled(bs, start, bytes) && i < |bs|
    ensures start <= bs[i].addr
  {
    if i > 0 { Below(bs, start, bytes, i - 1); }
  }

  // ---------------------------------------------------------------- allocation

  predicate Fits(b: Block, aligned: nat) {
    b.free && b.size >= aligned
  }

  /** Block i taken for a request, its tail split off when it can hold a header and 16 bytes more. */
  function Taken(bs: seq<Block>, i: nat, aligned: nat): (r: seq<Block>)
    requires i < |bs| && Fits(bs[i], aligned)
  {
    if bs[i].size > aligned + 56 then
      bs[..i] + [Block(bs[i].addr, aligned, false), Block(bs[i].addr + 40 + aligned, bs[i].size - aligned - 40, true)]
      + bs[i + 1..]
    else bs[i := bs[i].(free := false)]
  }

  lemma TakenIs(bs: seq<Block>, i: nat, a: nat)
    requires i < |bs| && Fits(bs[i], a)
    ensures var b := bs[i];
      if b.size > a + 56 then
        Taken(bs, i, a) == bs[..i]
        + [Block(b.addr, a, false), Block(b.addr + 40 + a, b.size - a - 40, true)] + bs[i + 1..]
      else Taken(bs, i, a) == bs[..i] + [Block(b.addr, b.size, false)] + bs[i + 1..]
  {
    if bs[i].size <= a + 56 {
      assert bs[i := bs[i].(free := false)] == bs[..i] + [Block(bs[i].addr, bs[i].size, false)] + bs[i + 1..];
    }
  }

  lemma TakenGood(bs: seq<Block>, start: nat, bytes: nat, i: nat, aligned: nat)
    requires Good(bs, start, bytes) && i < |bs| && Fits(bs[i], aligned)
    ensures Good(Taken(bs, i, aligned), start, bytes)
  {
    var r := Taken(bs, i, aligned);
    if bs[i].size > aligned + 56 {
      forall j | 0 <= j < |r| - 1 ensures r[j].End() == r[j + 1].addr && !(r[j].free && r[j + 1].free) {
        if j > i { assert r[j] == if j == i + 1 then r[i + 1] else bs[j - 1]; assert r[j + 1] == bs[j]; }
      }
      assert r[|r| - 1].End() == start + bytes;
    }
  }

  // ---------------------------------------------------------------- freeing

  /** Blocks i and i + 1 as one free block. */
  function Joined(bs: seq<Block>, i: nat): (r: seq<Block>)
    requires i + 1 < |bs|
  {
    bs[..i] + [Block(bs[i].addr, bs[i].size + 40 + bs[i + 1].size, true)] + bs[i + 2..]
  }

  /** Block i freed and joined with the next block, if that is free. */
  function FreedNext(bs: seq<Block>, i: nat): (r: seq<Block>)
    requires i < |bs|
  {
    if i + 1 < |bs| && bs[i + 1].free then Joined(bs, i) else bs[i := bs[i].(free := true)]
  }

  /** Block i freed and joined with its free neighbours. */
  function Released(bs: seq<Block>, i: nat): (r: seq<Block>)
    requires i < |bs|
  {
    var r := FreedNext(bs, i);
    if i > 0 && bs[i - 1].free then Joined(r, i - 1) else r
  }

  lemma JoinedTiled(bs: seq<Block>, start: nat, bytes: nat, i: nat)
    requires Tiled(bs, start, bytes) && i + 1 < |bs|
    ensures Tiled(Joined(bs, i), start, bytes)
  {
    var r := Joined(bs, i);
    forall j | 0 <= j < |r| - 1 ensures r[j].End() == r[j + 1].addr {
      if j >= i { assert r[j + 1] == bs[j + 2]; }
    }
  }

  /** After the first step only block i - 1 and block i may be free neighbours. */
  lemma FreedNextGood(bs: seq<Block>, start: nat, bytes: nat, i: nat)
    requires Good(bs, start, bytes) && i < |bs| && !bs[i].free
    ensures var r := FreedNext(bs, i);
      && Tiled(r, start, bytes) && i < |r| && r[i].free && (i > 0 ==> r[i - 1] == bs[i - 1])
      && forall j :: 0 <= j < |r| - 1 && j != i - 1 ==> !(r[j].free && r[j + 1].free)
  {
    var r := FreedNext(bs, i);
    if i + 1 < |bs| && bs[i + 1].free {
      JoinedTiled(bs, start, bytes, i);
      forall j | 0 <= j < |r| - 1 && j != i - 1 ensures !(r[j].free && r[j + 1].free) {
        if j >= i { assert r[j + 1] == bs[j + 2]; assert j > i ==> r[j] == bs[j + 1]; }
      }
    }
  }

  lemma ReleasedGood(bs: seq<Block>, start: nat, bytes: nat, i: nat)
    requires Good(bs, start, bytes) && i < |bs| && !bs[i].free
    ensures Good(Released(bs, i), start, bytes)
  {
    var r := FreedNext(bs, i);
    FreedNextGood(bs, start, bytes, i);
    hide FreedNext;
    if i > 0 && bs[i - 1].free {
      hide Tiled;
      JoinedTiled(r, start, bytes, i - 1);
      assert i >= 2 ==> !r[i - 2].free;
      JoinedCoalesced(r, i - 1);
    }
  }

  /** Joining the only two free neighbours leaves none. */
  lemma JoinedCoalesced(bs: seq<Block>, i: nat)
    requires i + 1 < |bs| && bs[i + 1].free && (i > 0 ==> !bs[i - 1].free)
    requires forall j :: 0 <= j < |bs| - 1 && j != i ==> !(bs[j].free && bs[j + 1].free)
    ensures Coalesced(Joined(bs, i))
  {
    var s := Joined(bs, i);
    assert forall j :: 0 <= j < i ==> s[j] == bs[j];
    assert forall j :: i < j < |s| ==> s[j] == bs[j + 1];
    hide Joined;
    forall j | 0 <= j < |s| - 1 ensures !(s[j].free && s[j + 1].free) {
      if j == i { assert !bs[i + 2].free; }
    }
  }

  /** kfree straight after kmalloc restores the block list. */
  lemma ReleaseUndoesTake(bs: seq<Block>, i: nat, aligned: nat)
    requires Coalesced(bs) && i < |bs| && Fits(bs[i], aligned)
    ensures Released(Taken(bs, i, aligned), i) == bs
  {
    var t := Taken(bs, i, aligned);
    if bs[i].size > aligned + 56 {
      assert t[i + 1].free && t[i + 2..] == bs[i + 1..] && t[..i] == bs[..i];
      assert FreedNext(t, i) == bs[..i] + [bs[i]] + bs[i + 1..] == bs;
    } else {
      assert FreedNext(t, i) == bs;
    }
  }

  lemma NotBothFree(bs: seq<Block>, i: nat)
    requires Coalesced(bs) && i + 1 < |bs|
    ensures !(bs[i].free && bs[i + 1].free)
  {
  }

  /** A heap in which every block is free is the single initial block. */
  lemma AllFree(bs: seq<Block>, start: nat, bytes: nat)
    requires Good(bs, start, bytes) && forall i :: 0 <= i < |bs| ==> bs[i].free
    ensures bytes >= 40 && bs == [Block(start, bytes - 40, true)]
  {
    if |bs| > 1 {
      NotBothFree(bs, 0);
      assert false;
    }
  }

  // ---------------------------------------------------------------- live blocks

  /** The blocks in use. */
  ghost function Used(bs: seq<Block>): set<Block> {
    set b | b in bs && !b.free
  }

  /** The block a request gets. */
  function Given(b: Block, aligned: nat): Block {
    Block(b.addr, if b.size > aligned + 56 then aligned else b.size, false)
  }

  /** Taking a block adds it to those in use and leaves the others, addresses and sizes, alone. */
  lemma TakenUsed(bs: seq<Block>, i: nat, aligned: nat)
    requires i < |bs| && Fits(bs[i], aligned)
    ensures Used(Taken(bs, i, aligned)) == Used(bs) + {Given(bs[i], aligned)}
  {
    var t := Taken(bs, i, aligned);
    if bs[i].size > aligned + 56 {
      SwapMember(bs, i, bs[i]);
      PairMember(bs[..i], t[i], t[i + 1], bs[i + 1..]);
    } else {
      SwapMember(bs, i, bs[i].(free := false));
    }
  }

  lemma PairMember(a: seq<Block>, x: Block, y: Block, c: seq<Block>)
    ensures forall b :: b in a + [x, y] + c <==> b in a || b == x || b == y || b in c
  {
  }

  lemma SwapMember(bs: seq<Block>, i: nat, x: Block)
    requires i < |bs|
    ensures forall b :: b in bs[i := x] <==> b in bs[..i] || b == x || b in bs[i + 1..]
    ensures forall b :: b in bs <==> b in bs[..i] || b == bs[i] || b in bs[i + 1..]
  {
    assert bs == bs[..i] + [bs[i]] + bs[i + 1..];
    assert bs[i := x] == bs[..i] + [x] + bs[i + 1..];
  }

  /** Joining two free neighbours, or a block being freed with a free neighbour, keeps the others. */
  lemma JoinedUsed(bs: seq<Block>, i: nat)
    requires i + 1 < |bs|
    ensures forall b: Block :: !b.free ==> (b in Joined(bs, i) <==> b in bs[..i] || b in bs[i + 2..])
  {
  }

  lemma Occurs(bs: seq<Block>, start: nat, bytes: nat, i: nat)
    requires Tiled(bs, start, bytes) && i < |bs|
    ensures bs[i] !in bs[..i] && bs[i] !in bs[i + 1..]
  {
    forall j: nat | j < |bs| && j != i ensures bs[j] != bs[i] {
      if j < i { InOrder(bs, start, bytes, j, i); } else { InOrder(bs, start, bytes, i, j); }
    }
  }

  lemma FreedNextUsed(bs: seq<Block>, start: nat, bytes: nat, i: nat)
    requires Tiled(bs, start, bytes) && i < |bs| && !bs[i].free
    ensures var r := FreedNext(bs, i);
      Used(r) == Used(bs) - {bs[i]} && i < |r| && r[i].free && r[..i] == bs[..i]
  {
    Occurs(bs, start, bytes, i);
    hide Tiled, Used;
    var r := FreedNext(bs, i);
    if i + 1 < |bs| && bs[i + 1].free {
      assert r[..i] == bs[..i];
      JoinedUsed(bs, i);
      hide FreedNext, Joined;
      forall b: Block | !b.free ensures b in r <==> b in bs && b != bs[i] {
        Around(bs, i, b);
        Around(bs[i + 1..], 0, b);
        assert bs[i + 1..][1..] == bs[i + 2..];
      }
    } else {
      hide FreedNext;
      assert r == bs[i := bs[i].(free := true)] && r[..i] == bs[..i] && r[i + 1..] == bs[i + 1..];
      forall b: Block | !b.free ensures b in r <==> b in bs && b != bs[i] {
        Around(bs, i, b);
        Around(r, i, b);
      }
    }
    UsedLess(bs, r, bs[i]);
  }

  lemma Around(bs: seq<Block>, i: nat, b: Block)
    requires i < |bs|
    ensures b in bs <==> b in bs[..i] || b == bs[i] || b in bs[i + 1..]
  {
    assert bs == bs[..i] + [bs[i]] + bs[i + 1..];
  }

  lemma UsedLess(bs: seq<Block>, r: seq<Block>, x: Block)
    requires forall b: Block :: !b.free ==> (b in r <==> b in bs && b != x)
    ensures Used(r) == Used(bs) - {x}
  {
  }

  /** Freeing a block removes it from those in use and leaves the others alone. */
  lemma ReleasedUsed(bs: seq<Block>, start: nat, bytes: nat, i: nat)
    requires Tiled(bs, start, bytes) && i < |bs| && !bs[i].free
    ensures Used(Released(bs, i)) == Used(bs) - {bs[i]}
  {
    FreedNextUsed(bs, start, bytes, i);
    hide FreedNext, Tiled, Used;
    var r := FreedNext(bs, i);
    if i > 0 && bs[i - 1].free {
      assert r[i - 1] == r[..i][i - 1] == bs[i - 1];
      JoinedFreeUsed(r, i - 1);
    }
  }

  /** Joining two free blocks leaves those in use alone. */
  lemma JoinedFreeUsed(bs: seq<Block>, i: nat)
    requires i + 1 < |bs| && bs[i].free && bs[i + 1].free
    ensures Used(Joined(bs, i)) == Used(bs)
  {
    JoinedUsed(bs, i);
    hide Joined;
    assert bs == bs[..i] + [bs[i], bs[i + 1]] + bs[i + 2..];
  }

  /** Once everything is freed, whatever the run was, the heap is the single initial block again. */
  lemma NothingUsed(bs: seq<Block>, start: nat, bytes: nat)
    requires Good(bs, start, bytes) && Used(bs) == {}
    ensures bytes >= 40 && bs == [Block(start, bytes - 40, true)]
  {
    forall i | 0 <= i < |bs| ensures bs[i].free {
      assert bs[i] in bs && bs[i] !in Used(bs);
    }
    AllFree(bs, start, bytes);
  }

  /** The payloads of two used blocks do not overlap. */
  lemma UsedApart(bs: seq<Block>, start: nat, bytes: nat, b: Block, c: Block)
    requires Tiled(bs, start, bytes) && b in Used(bs) && c in Used(bs) && b != c
    ensures b.End() <= c.addr || c.End() <= b.addr
  {
    var i: nat :| i < |bs| && bs[i] == b;
    var j: nat :| j < |bs| && bs[j] == c;
    if i < j { InOrder(bs, start, bytes, i, j); } else { InOrder(bs, start, bytes, j, i); }
  }

  /** The payload addresses of the blocks in use: the live pointers. */
  ghost function Pointers(bs: seq<Block>): set<nat> {
    set b | b in Used(bs) :: b.addr + 40
  }

  lemma TakenPointers(bs: seq<Block>, i: nat, aligned: nat)
    requires i < |bs| && Fits(bs[i], aligned)
    ensures Pointers(Taken(bs, i, aligned)) == Pointers(bs) + {bs[i].addr + 40}
  {
    TakenUsed(bs, i, aligned);
    var b := Given(bs[i], aligned);
    assert b.addr + 40 == bs[i].addr + 40 && b in Used(Taken(bs, i, aligned));
  }

  lemma ReleasedPointers(bs: seq<Block>, start: nat, bytes: nat, i: nat)
    requires Tiled(bs, start, bytes) && i < |bs| && !bs[i].free
    ensures Pointers(Released(bs, i)) == Pointers(bs) - {bs[i].addr + 40}
  {
    ReleasedUsed(bs, start, bytes, i);
    assert bs[i] in Used(bs);
    forall b | b in Used(bs) && b != bs[i] ensures b.addr != bs[i].addr {
      UsedApart(bs, start, bytes, b, bs[i]);
    }
  }

  /** A live pointer belongs to a used block of the list. */
  lemma PointerBlock(bs: seq<Block>, p: nat) returns (i: nat)
    requires p in Pointers(bs)
    ensures i < |bs| && bs[i].addr + 40 == p && !bs[i].free
  {
    var b :| b in Used(bs) && b.addr + 40 == p;
    i :| 0 <= i < |bs| && bs[i] == b;
  }

  // ---------------------------------------------------------------- searching

  /** The lowest block that fits, |bs| if none does. */
  function FirstFit(bs: seq<Block>, aligned: nat): (i: nat)
    ensures i <= |bs| && (i < |bs| ==> Fits(bs[i], aligned)) && forall j :: 0 <= j < i ==> !Fits(bs[j], aligned)
  {
    if bs == [] || Fits(bs[0], aligned) then 0 else
      var i := FirstFit(bs[1..], aligned);
      assert forall j :: 0 < j < i + 1 ==> bs[j] == bs[1..][j - 1];
      i + 1
  }

  /** The used block with this payload address, |bs| if there is none. */
  function Holder(bs: seq<Block>, ptr: nat): (i: nat)
    ensures i <= |bs| && (i < |bs| ==> bs[i].addr + 40 == ptr && !bs[i].free)
    ensures forall j :: 0 <= j < i ==> bs[j].addr + 40 != ptr || bs[j].free
  {
    if bs == [] || (bs[0].addr + 40 == ptr && !bs[0].free) then 0 else
      var i := Holder(bs[1..], ptr);
      assert forall j :: 0 < j < i + 1 ==> bs[j] == bs[1..][j - 1];
      i + 1
  }

  lemma HolderIs(bs: seq<Block>, start: nat, bytes: nat, ptr: nat)
    requires Tiled(bs, start, bytes)
    ensures Holder(bs, ptr) < |bs| <==> ptr in Pointers(bs)
  {
    var i := Holder(bs, ptr);
    if i < |bs| {
      assert bs[i] in Used(bs);
    } else if ptr in Pointers(bs) {
      var j := PointerBlock(bs, ptr);
      assert false;
    }
  }
}
