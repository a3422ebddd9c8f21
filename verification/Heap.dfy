/**
 kmalloc and kfree, kernel/memory/heap.c, on doubly linked block headers in memory.  Headers that a
 merge absorbed stay in memory, unused.
 */
module Heap {
  import opened Arith
  import opened Sequences
  import opened HeapBlocks

  const MAGIC: nat := 0x12345678

  datatype Header = Header(size: nat, next: nat, prev: nat, free: bool, magic: nat)

  /** The links of the i-th header name its neighbours in the list, 0 at both ends. */
  ghost predicate NodeOk(mem: map<nat, Header>, order: seq<nat>, i: nat)
    requires i < |order|
  {
    && order[i] in mem && order[i] != 0 && mem[order[i]].magic == MAGIC
    && mem[order[i]].next == (if i + 1 < |order| then order[i + 1] else 0)
    && mem[order[i]].prev == (if i > 0 then order[i - 1] else 0)
  }

  ghost predicate Linked(mem: map<nat, Header>, order: seq<nat>) {
    && (forall i: nat {:trigger NodeOk(mem, order, i)} :: i < |order| ==> NodeOk(mem, order, i))
    && (forall i :: 0 <= i < |order| ==> order[i] in mem)
  }

  /** The block list that the headers describe. */
  ghost function Blocks(mem: map<nat, Header>, order: seq<nat>): (bs: seq<Block>)
    requires forall i :: 0 <= i < |order| ==> order[i] in mem
    ensures |bs| == |order|
    ensures forall i :: 0 <= i < |order| ==> bs[i] == Block(order[i], mem[order[i]].size, mem[order[i]].free)
  {
    seq(|order|, i requires 0 <= i < |order| => Block(order[i], mem[order[i]].size, mem[order[i]].free))
  }

  lemma TiledDistinct(mem: map<nat, Header>, order: seq<nat>, start: nat, bytes: nat)
    requires (forall i :: 0 <= i < |order| ==> order[i] in mem) && Tiled(Blocks(mem, order), start, bytes)
    ensures Unique(order)
  {
    forall i, j | 0 <= i < j < |order| ensures order[i] != order[j] {
      InOrder(Blocks(mem, order), start, bytes, i, j);
    }
  }

  /** (size + 7) & ~7 in 64-bit arithmetic. */
  function Align8(size: U64): U64 {
    (size + 7) % TWO64 / 8 * 8
  }

  /** Alignment rounds up, except for the seven largest sizes, which wrap around to zero. */
  lemma AlignRoundsUp(size: U64)
    ensures Align8(size) >= size <==> size <= TWO64 - 8
    ensures size > TWO64 - 8 ==> Align8(size) == 0
    ensures size <= TWO64 - 8 ==> Align8(size) < size + 8 && Align8(size) % 8 == 0
  {
    if size <= TWO64 - 8 {
      assert (size + 7) % TWO64 == size + 7;
    } else {
      assert (size + 7) % TWO64 == size + 7 - TWO64;
    }
  }

  /** The block taken for a request holds that many bytes, except for the seven largest sizes. */
  lemma TakenHolds(bs: seq<Block>, start: nat, bytes: nat, i: nat, size: U64)
    requires Good(bs, start, bytes) && start + bytes < TWO64 / 2 && i < |bs| && Fits(bs[i], Align8(size))
    ensures var r := Taken(bs, i, Align8(size));
      i < |r| && r[i].addr == bs[i].addr && !r[i].free && (r[i].size >= size <==> size <= TWO64 - 8)
  {
    AlignRoundsUp(size);
    Inside(bs, start, bytes, i);
  }

  // ---------------------------------------------------------------- splitting and joining headers

  /** The headers after the block at c was cut to `aligned` bytes, with a free block at n for the rest. */
  function SplitMem(mem: map<nat, Header>, c: nat, n: nat, aligned: nat): map<nat, Header>
    requires c in mem && mem[c].size >= aligned + 40
  {
    var next := mem[c].next;
    var mem1 := mem[n := Header(mem[c].size - aligned - 40, next, c, true, MAGIC)];
    var mem2 := if next in mem1 then mem1[next := mem1[next].(prev := n)] else mem1;
    mem2[c := mem2[c].(size := aligned, next := n, free := false)]
  }

  lemma SplitLinked(mem: map<nat, Header>, order: seq<nat>, i: nat, n: nat, aligned: nat)
    requires Linked(mem, order) && Unique(order) && i < |order| && n !in order && n != 0 && 0 !in mem
    requires mem[order[i]].size >= aligned + 40
    ensures Linked(SplitMem(mem, order[i], n, aligned), order[..i + 1] + [n] + order[i + 1..])
  {
    var mem' := SplitMem(mem, order[i], n, aligned);
    var order' := order[..i + 1] + [n] + order[i + 1..];
    assert NodeOk(mem, order, i);
    forall j: nat | j < |order'| ensures NodeOk(mem', order', j) {
      if j > i + 1 {
        assert order'[j] == order[j - 1] && NodeOk(mem, order, j - 1);
      } else if j <= i {
        assert order'[j] == order[j] && NodeOk(mem, order, j);
      }
    }
    assert forall j :: 0 <= j < |order'| ==> NodeOk(mem', order', j) ==> order'[j] in mem';
  }

  lemma SplitBlocks(mem: map<nat, Header>, order: seq<nat>, i: nat, aligned: nat)
    requires Linked(mem, order) && Unique(order) && i < |order| && order[i] + 40 + aligned !in order
    requires mem[order[i]].free && mem[order[i]].size > aligned + 56
    requires Linked(SplitMem(mem, order[i], order[i] + 40 + aligned, aligned),
                    order[..i + 1] + [order[i] + 40 + aligned] + order[i + 1..])
    ensures var n := order[i] + 40 + aligned;
      Blocks(SplitMem(mem, order[i], n, aligned), order[..i + 1] + [n] + order[i + 1..])
      == Taken(Blocks(mem, order), i, aligned)
  {
    var n := order[i] + 40 + aligned;
    var mem' := SplitMem(mem, order[i], n, aligned);
    var order' := order[..i + 1] + [n] + order[i + 1..];
    var bs, bs' := Blocks(mem, order), Blocks(mem', order');
    assert NodeOk(mem, order, i);
    forall j | 0 <= j < |order'| ensures bs'[j] == Taken(bs, i, aligned)[j] {
      if j > i + 1 { assert order'[j] == order[j - 1]; } else if j <= i { assert order'[j] == order[j]; }
    }
  }

  /** The headers after the block at c has absorbed the block at d behind it. */
  function JoinMem(mem: map<nat, Header>, c: nat, d: nat): map<nat, Header>
    requires c in mem && d in mem
  {
    var mem1 := mem[c := mem[c].(size := mem[c].size + 40 + mem[d].size, next := mem[d].next)];
    var next := mem[d].next;
    if next in mem1 then mem1[next := mem1[next].(prev := c)] else mem1
  }

  lemma JoinLinked(mem: map<nat, Header>, order: seq<nat>, i: nat)
    requires Linked(mem, order) && Unique(order) && i + 1 < |order| && 0 !in mem
    ensures Linked(JoinMem(mem, order[i], order[i + 1]), order[..i + 1] + order[i + 2..])
  {
    var mem' := JoinMem(mem, order[i], order[i + 1]);
    var order' := order[..i + 1] + order[i + 2..];
    assert NodeOk(mem, order, i) && NodeOk(mem, order, i + 1);
    forall j: nat | j < |order'| ensures NodeOk(mem', order', j) {
      if j > i {
        assert order'[j] == order[j + 1] && NodeOk(mem, order, j + 1);
      } else {
        assert order'[j] == order[j] && NodeOk(mem, order, j);
      }
    }
    assert forall j :: 0 <= j < |order'| ==> NodeOk(mem', order', j) ==> order'[j] in mem';
  }

  lemma JoinBlocks(mem: map<nat, Header>, order: seq<nat>, i: nat)
    requires Linked(mem, order) && Unique(order) && i + 1 < |order| && mem[order[i]].free
    requires Linked(JoinMem(mem, order[i], order[i + 1]), order[..i + 1] + order[i + 2..])
    ensures Blocks(JoinMem(mem, order[i], order[i + 1]), order[..i + 1] + order[i + 2..]) ==
            Joined(Blocks(mem, order), i)
  {
    var mem' := JoinMem(mem, order[i], order[i + 1]);
    var order' := order[..i + 1] + order[i + 2..];
    var bs, bs' := Blocks(mem, order), Blocks(mem', order');
    assert NodeOk(mem, order, i + 1);
    forall j | 0 <= j < |order'| ensures bs'[j] == Joined(bs, i)[j] {
      if j > i { assert order'[j] == order[j + 1]; } else { assert order'[j] == order[j]; }
    }
  }

  class KernelHeap {
    const start: nat
    const bytes: nat
    var freeList: nat
    var mem: map<nat, Header>
    ghost var order: seq<nat>

    /** The blocks in address order. */
    ghost function List(): (bs: seq<Block>)
      requires Linked(mem, order)
      reads this
    {
      Blocks(mem, order)
    }

    ghost predicate Valid()
      reads this
    {
      && 0 < start && 40 <= bytes && start + bytes < TWO64 / 2 && 0 !in mem
      && Linked(mem, order) && Good(List(), start, bytes)
      && |order| > 0 && freeList == order[0]
    }

    /** heap_init: one free block that fills the heap. */
    constructor (start: nat, bytes: nat)
      requires 0 < start && 40 <= bytes && start + bytes < TWO64 / 2
      ensures Valid() && this.start == start && this.bytes == bytes && List() == [Block(start, bytes - 40, true)]
    {
      this.start, this.bytes := start, bytes;
      freeList := start;
      mem := map[start := Header(bytes - 40, 0, 0, true, MAGIC)];
      order := [start];
      new;
      assert NodeOk(mem, order, 0);
    }

    /** The header writes of kmalloc that split the chosen block. */
    method Split(curr: nat, aligned: nat, ghost i: nat)
      requires Valid() && i < |order| && curr == order[i] && Fits(List()[i], aligned) && List()[i].size > aligned + 56
      modifies this`mem, this`order
      ensures Linked(mem, order) && List() == Taken(old(List()), i, aligned) && 0 !in mem && |order| > 0
      ensures order[0] == old(order[0])
    {
      hide Good, Linked, Taken, NodeOk, Tiled;
      ghost var mem0 := mem;
      var rest := curr + 40 + aligned;
      SplitFacts(mem, order, i, aligned, start, bytes);
      mem := mem[rest := Header(mem[curr].size - aligned - 40, mem[curr].next, curr, true, MAGIC)];
      if mem[curr].next != 0 {
        mem := mem[mem[curr].next := mem[mem[curr].next].(prev := rest)];
      }
      mem := mem[curr := mem[curr].(size := aligned, next := rest)];
      mem := mem[curr := mem[curr].(free := false)];
      assert mem == SplitMem(mem0, curr, rest, aligned);
      order := order[..i + 1] + [rest] + order[i + 1..];
    }

    /** Set or clear the free flag of one header. */
    method SetFree(curr: nat, free: bool, ghost i: nat)
      requires Linked(mem, order) && i < |order| && curr == order[i] && Unique(order)
      modifies this`mem
      ensures Linked(mem, order) && mem.Keys == old(mem.Keys)
      ensures List() == old(List())[i := old(List())[i].(free := free)]
    {
      ghost var mem0 := mem;
      mem := mem[curr := mem[curr].(free := free)];
      forall j: nat | j < |order| ensures NodeOk(mem, order, j) { assert NodeOk(mem0, order, j); }
    }

    /** Take the chosen block, splitting it when the rest is large enough. */
    method Take(curr: nat, aligned: nat, ghost i: nat)
      requires Valid() && i < |order| && curr == order[i] && Fits(List()[i], aligned)
      modifies this`mem, this`order
      ensures Valid() && List() == Taken(old(List()), i, aligned)
    {
      hide Good, Linked;
      TakenGood(List(), start, bytes, i, aligned);
      ValidParts(i);
      if mem[curr].size > aligned + 56 {
        Split(curr, aligned, i);
      } else {
        SetFree(curr, false, i);
      }
    }

    /** kmalloc: the lowest free block that fits, or 0 exactly when the size is 0 or no block fits.  More than
        56 spare bytes are split off as a free block of their own; no other block changes. */
    method Kmalloc(size: U64) returns (ptr: nat, ghost i: nat)
      requires Valid()
      modifies this`mem, this`order
      ensures Valid()
      ensures ptr == 0 <==> size == 0 || forall b :: b in old(List()) ==> !(b.free && b.size >= Align8(size))
      ensures ptr == 0 ==> List() == old(List())
      ensures ptr != 0 ==> i < |old(List())| && Fits(old(List())[i], Align8(size)) && ptr == old(List())[i].addr + 40
      ensures ptr != 0 ==> forall j :: 0 <= j < i ==> !(old(List())[j].free && old(List())[j].size >= Align8(size))
      ensures ptr != 0 ==> List() == Taken(old(List()), i, Align8(size))
      ensures ptr != 0 ==> i < |List()| && List()[i].addr + 40 == ptr && !List()[i].free
      ensures ptr != 0 ==> var b, a := old(List())[i], Align8(size);
                if b.size > a + 56 then
                  List() == old(List())[..i]
                  + [Block(b.addr, a, false), Block(b.addr + 40 + a, b.size - a - 40, true)] + old(List())[i + 1..]
                else List() == old(List())[..i] + [Block(b.addr, b.size, false)] + old(List())[i + 1..]
      ensures ptr != 0 ==> (List()[i].size >= size <==> size <= TWO64 - 8)
    {
      hide Good, Taken;
      i := 0;
      if size == 0 { return 0, 0; }
      var aligned := Align8(size);
      hide Align8;
      var curr := freeList;
      while curr != 0
        invariant i <= |order| && curr == (if i < |order| then order[i] else 0)
        invariant forall j :: 0 <= j < i ==> !Fits(List()[j], aligned)
        decreases |order| - i
      {
        assert NodeOk(mem, order, i);
        if mem[curr].free && mem[curr].size >= aligned {
          ptr := curr + 40;
          TakenHolds(List(), start, bytes, i, size);
          TakenIs(List(), i, aligned);
          Take(curr, aligned, i);
          return;
        }
        curr := mem[curr].next;
        i := i + 1;
      }
      return 0, i;
    }

    /** The block at c absorbs the block at d behind it. */
    method Absorb(c: nat, d: nat, ghost i: nat)
      requires Linked(mem, order) && Unique(order) && 0 !in mem && i + 1 < |order| && c == order[i] && d == order[i + 1]
      requires mem[c].free
      modifies this`mem, this`order
      ensures Linked(mem, order) && 0 !in mem && order == old(order)[..i + 1] + old(order)[i + 2..]
      ensures List() == Joined(old(List()), i)
    {
      ghost var mem0 := mem;
      JoinLinked(mem, order, i);
      JoinBlocks(mem, order, i);
      assert NodeOk(mem, order, i + 1);
      mem := mem[c := mem[c].(size := mem[c].size + 40 + mem[d].size)];
      mem := mem[c := mem[c].(next := mem[d].next)];
      if mem[c].next != 0 {
        mem := mem[mem[c].next := mem[mem[c].next].(prev := c)];
      }
      assert mem == JoinMem(mem0, c, d);
      order := order[..i + 1] + order[i + 2..];
    }

    /** The pointer was handed out and not freed since. */
    ghost predicate LivePtr(ptr: nat, i: nat)
      requires Linked(mem, order)
      reads this
    {
      i < |order| && order[i] + 40 == ptr && !List()[i].free
    }

    /** kfree of a live pointer: the block is free and joined with its free neighbours.  A null pointer
        and a header without the magic number change nothing. */
    method Kfree(ptr: nat, ghost i: nat)
      requires Valid() && (ptr != 0 ==> ptr >= 40 && ptr - 40 in mem)
      requires ptr != 0 && mem[ptr - 40].magic == MAGIC ==> LivePtr(ptr, i)
      modifies this`mem, this`order
      ensures Valid()
      ensures List() == if ptr == 0 || old(mem[ptr - 40].magic) != MAGIC then old(List()) else Released(old(List()), i)
    {
      hide Released;
      if ptr == 0 { return; }
      var block := ptr - 40;
      if mem[block].magic != MAGIC { return; }
      Release(block, i);
    }

    method Release(block: nat, ghost i: nat)
      requires Valid() && i < |order| && order[i] == block && !List()[i].free
      modifies this`mem, this`order
      ensures Valid() && List() == Released(old(List()), i)
    {
      hide Good, Joined;
      ghost var bs := List();
      ReleasedGood(bs, start, bytes, i);
      ValidParts(i);
      SetFree(block, true, i);
      MergeNext(block, i);
      JoinedFlag(bs, i);
      MergePrev(block, i);
    }

    /** The first merge of kfree: with the next block, if that is free. */
    method MergeNext(block: nat, ghost i: nat)
      requires Linked(mem, order) && Unique(order) && 0 !in mem && i < |order| && order[i] == block && mem[block].free
      modifies this`mem, this`order
      ensures Linked(mem, order) && Unique(order) && 0 !in mem && i < |order| && order[..i + 1] == old(order)[..i + 1]
      ensures List() == if i + 1 < |old(List())| && old(List())[i + 1].free then Joined(old(List()), i) else old(List())
      ensures mem[block].free
    {
      hide Joined;
      assert NodeOk(mem, order, i);
      if i + 1 < |order| { assert NodeOk(mem, order, i + 1); }
      if mem[block].next != 0 && mem[mem[block].next].free {
        ghost var bs := List();
        Absorb(block, mem[block].next, i);
        JoinedFree(bs, i);
        assert List()[i].free;
      }
    }

    /** The second merge of kfree: into the previous block, if that is free. */
    method MergePrev(block: nat, ghost i: nat)
      requires Linked(mem, order) && Unique(order) && 0 !in mem && i < |order| && order[i] == block
      modifies this`mem, this`order
      ensures Linked(mem, order) && 0 !in mem && |order| > 0 && order[0] == old(order[0])
      ensures List() == if i > 0 && old(List())[i - 1].free then Joined(old(List()), i - 1) else old(List())
    {
      hide Joined;
      assert NodeOk(mem, order, i);
      if i > 0 { assert NodeOk(mem, order, i - 1); }
      if mem[block].prev != 0 && mem[mem[block].prev].free {
        Absorb(mem[block].prev, block, i - 1);
      }
    }

    lemma LiveHeader(i: nat)
      requires Valid() && i < |order|
      ensures Tiled(List(), start, bytes)
      ensures order[i] != 0 && order[i] in mem && mem[order[i]].magic == MAGIC && order[i] == List()[i].addr
    {
      assert NodeOk(mem, order, i);
    }

    lemma Tiles()
      requires Valid()
      ensures Tiled(List(), start, bytes)
    {
    }

    lemma Drained()
      requires Valid() && Pointers(List()) == {}
      ensures List() == [Block(start, bytes - 40, true)]
    {
      assert Used(List()) == {} by {
        assert forall b :: b in Used(List()) ==> b.addr + 40 in Pointers(List());
      }
      NothingUsed(List(), start, bytes);
    }

    lemma ValidParts(i: nat)
      requires Valid() && i < |order|
      ensures Unique(order) && order[i] in mem && |order| > 0
      ensures mem[order[i]].size == List()[i].size && mem[order[i]].free == List()[i].free
    {
      TiledDistinct(mem, order, start, bytes);
    }
  }

  lemma JoinedFlag(bs: seq<Block>, i: nat)
    requires i < |bs|
    ensures var freed := bs[i := bs[i].(free := true)];
      FreedNext(bs, i) == if i + 1 < |bs| && freed[i + 1].free then Joined(freed, i) else freed
    ensures i < |FreedNext(bs, i)| && FreedNext(bs, i)[..i] == bs[..i]
    ensures i > 0 ==> FreedNext(bs, i)[i - 1] == bs[i - 1]
  {
  }

  lemma JoinedFree(bs: seq<Block>, i: nat)
    requires i + 1 < |bs|
    ensures i < |Joined(bs, i)| && Joined(bs, i)[i].free
  {
  }

  /** What splitting block i needs and does. */
  lemma SplitFacts(mem: map<nat, Header>, order: seq<nat>, i: nat, aligned: nat, start: nat, bytes: nat)
    requires 0 < start && 0 !in mem && Linked(mem, order) && Good(Blocks(mem, order), start, bytes) && i < |order|
    requires mem[order[i]].free && mem[order[i]].size > aligned + 56
    ensures var rest := order[i] + 40 + aligned;
      var next := mem[order[i]].next;
      && order[i] in mem && rest != 0 && rest != order[i]
      && (next != 0 ==> next in mem && next != order[i] && next != rest)
      && Linked(SplitMem(mem, order[i], rest, aligned), order[..i + 1] + [rest] + order[i + 1..])
      && Blocks(SplitMem(mem, order[i], rest, aligned), order[..i + 1] + [rest] + order[i + 1..])
         == Taken(Blocks(mem, order), i, aligned)
  {
    var bs := Blocks(mem, order);
    TiledDistinct(mem, order, start, bytes);
    RestUnused(bs, start, bytes, i, aligned);
    assert NodeOk(mem, order, i);
    assert order[i] + 40 + aligned !in order by { assert forall j :: 0 <= j < |order| ==> order[j] == bs[j].addr; }
    SplitLinked(mem, order, i, order[i] + 40 + aligned, aligned);
    SplitBlocks(mem, order, i, aligned);
  }

  /** The address of the split-off block lies strictly inside block i. */
  lemma RestUnused(bs: seq<Block>, start: nat, bytes: nat, i: nat, aligned: nat)
    requires Tiled(bs, start, bytes) && i < |bs| && bs[i].size > aligned
    ensures forall j :: 0 <= j < |bs| ==> bs[j].addr != bs[i].addr + 40 + aligned
  {
    forall j | 0 <= j < |bs| ensures bs[j].addr != bs[i].addr + 40 + aligned {
      if j < i { InOrder(bs, start, bytes, j, i); } else if i < j { InOrder(bs, start, bytes, i, j); }
    }
  }

  // ---------------------------------------------------------------- whole runs

  datatype Op = Malloc(size: U64) | Free(ptr: nat)

  /** The block list after one request: first fit, or freeing and joining; a request to free what is not a
      live pointer is not made. */
  ghost function After(bs: seq<Block>, op: Op): seq<Block> {
    match op
    case Malloc(size) =>
      var i := FirstFit(bs, Align8(size));
      if size == 0 || i == |bs| then bs else Taken(bs, i, Align8(size))
    case Free(ptr) =>
      var i := Holder(bs, ptr);
      if i == |bs| then bs else Released(bs, i)
  }

  ghost function Run(start: nat, bytes: nat, ops: seq<Op>): seq<Block>
    requires bytes >= 40
  {
    if ops == [] then [Block(start, bytes - 40, true)] else After(Run(start, bytes, ops[..|ops| - 1]), ops[|ops| - 1])
  }

  /** Every run of kmalloc and kfree that frees only live pointers leaves the block list of first-fit
      allocation and coalescing, tiled and coalesced, with exactly the live pointers in use; when none is left
      the heap is the single initial block. */
  method Replay(heap: KernelHeap, ops: seq<Op>) returns (live: set<nat>)
    requires heap.Valid() && heap.List() == [Block(heap.start, heap.bytes - 40, true)]
    modifies heap
    ensures heap.Valid() && heap.List() == Run(heap.start, heap.bytes, ops) && live == Pointers(heap.List())
    ensures live == {} ==> heap.List() == [Block(heap.start, heap.bytes - 40, true)]
  {
    hide Good, Linked, After;
    live := {};
    InitialPointers(heap.start, heap.bytes);
    for n := 0 to |ops|
      invariant heap.Valid() && heap.List() == Run(heap.start, heap.bytes, ops[..n]) && live == Pointers(heap.List())
    {
      assert ops[..n + 1][..n] == ops[..n];
      live := Do(heap, ops[n], live);
    }
    assert ops[..|ops|] == ops;
    if live == {} {
      heap.Drained();
    }
  }

  /** One request. */
  method Do(heap: KernelHeap, op: Op, live: set<nat>) returns (live': set<nat>)
    requires heap.Valid() && live == Pointers(heap.List())
    modifies heap
    ensures heap.Valid() && heap.List() == After(old(heap.List()), op) && live' == Pointers(heap.List())
  {
    hide Good, Linked, Taken, Released, Align8, Used;
    ghost var bs := heap.List();
    live' := live;
    match op {
      case Malloc(size) =>
        live' := DoMalloc(heap, size, live);
      case Free(ptr) =>
        heap.Tiles();
        HolderIs(bs, heap.start, heap.bytes, ptr);
        if ptr in live {
          ghost var i := Holder(bs, ptr);
          heap.LiveHeader(i);
          ReleasedPointers(bs, heap.start, heap.bytes, i);
          heap.Kfree(ptr, i);
          live' := live - {ptr};
        }
    }
  }

  method DoMalloc(heap: KernelHeap, size: U64, live: set<nat>) returns (live': set<nat>)
    requires heap.Valid() && live == Pointers(heap.List())
    modifies heap
    ensures heap.Valid() && heap.List() == After(old(heap.List()), Malloc(size)) && live' == Pointers(heap.List())
  {
    hide Good, Linked, Taken, Align8, Used, FirstFit, Pointers;
    ghost var bs := heap.List();
    live' := live;
    var ptr;
    ghost var i;
    ptr, i := heap.Kmalloc(size);
    if ptr != 0 {
      FirstFitIs(bs, Align8(size), i);
      TakenPointers(bs, i, Align8(size));
      live' := live + {ptr};
    } else if size != 0 {
      NothingFits(bs, Align8(size));
    }
  }

  lemma FirstFitIs(bs: seq<Block>, aligned: nat, i: nat)
    requires i < |bs| && Fits(bs[i], aligned)
    requires forall j :: 0 <= j < i ==> !(bs[j].free && bs[j].size >= aligned)
    ensures FirstFit(bs, aligned) == i
  {
  }

  lemma NothingFits(bs: seq<Block>, aligned: nat)
    requires forall b :: b in bs ==> !(b.free && b.size >= aligned)
    ensures FirstFit(bs, aligned) == |bs|
  {
  }

  lemma InitialPointers(start: nat, bytes: nat)
    requires bytes >= 40
    ensures Pointers([Block(start, bytes - 40, true)]) == {}
  {
  }

  /** A request for 2^64 - 1 bytes is served, with a block of none. */
  method MallocHuge() returns (heap: KernelHeap, ptr: nat)
    ensures heap.Valid() && ptr == heap.start + 40 && heap.List() == Taken([Block(heap.start, 4056, true)], 0, 0)
    ensures heap.List()[0] == Block(heap.start, 0, false)
  {
    hide Good, Linked;
    heap := new KernelHeap(4096, 4096);
    ghost var i;
    ptr, i := heap.Kmalloc(0xFFFF_FFFF_FFFF_FFFF);
  }
}
