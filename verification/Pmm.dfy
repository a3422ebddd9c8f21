/**
 The physical frame allocator, kernel/memory/pmm.c: a byte array used as a bitmap, a byte count of
 free memory and a hint below which every frame is in use.
 */
module Pmm {
  // ---------------------------------------------------------------- bits of a byte

  /** 1 << i */
  function Mask(i: nat): bv8
    requires i < 8
  {
    if i == 0 then 1 else if i == 1 then 2 else if i == 2 then 4 else if i == 3 then 8
    else if i == 4 then 16 else if i == 5 then 32 else if i == 6 then 64 else 128
  }

  predicate BitSet(b: bv8, i: nat)
    requires i < 8
  {
    b & Mask(i) != 0
  }

  /** Frame i of a byte is its bit i, counted from the low end. */
  lemma BitSetIs(b: bv8, i: nat)
    requires i < 8
    ensures Mask(i) == 1 << i && (BitSet(b, i) <==> (b >> i) & 1 == 1)
  {
  }

  lemma SetOne(b: bv8, i: nat, j: nat)
    requires i < 8 && j < 8
    ensures BitSet(b | Mask(i), j) <==> i == j || BitSet(b, j)
  {
  }

  lemma ClearOne(b: bv8, i: nat, j: nat)
    requires i < 8 && j < 8
    ensures BitSet(b & !Mask(i), j) <==> i != j && BitSet(b, j)
  {
  }

  // ---------------------------------------------------------------- the bitmap as a sequence of flags

  function Flags(bytes: seq<bv8>): (u: seq<bool>)
    ensures |u| == |bytes| * 8 && forall n: nat :: n < |u| ==> u[n] == BitSet(bytes[n / 8], n % 8)
  {
    seq(|bytes| * 8, n requires 0 <= n < |bytes| * 8 => BitSet(bytes[n / 8], n % 8))
  }

  /** The number of free frames. */
  function Clear(used: seq<bool>): (n: nat)
    ensures n <= |used|
  {
    if used == [] then 0 else (if used[0] then 0 else 1) + Clear(used[1..])
  }

  lemma {:induction false} ClearUpdate(used: seq<bool>, i: nat, u: bool)
    requires i < |used|
    ensures Clear(used[i := u]) == Clear(used) + (if used[i] then 1 else 0) - (if u then 1 else 0)
  {
    if i == 0 {
      assert used[i := u][1..] == used[1..];
    } else {
      assert used[i := u][1..] == used[1..][i - 1 := u];
      ClearUpdate(used[1..], i - 1, u);
    }
  }

  lemma {:induction false} ClearZero(used: seq<bool>)
    ensures Clear(used) == 0 <==> forall i :: 0 <= i < |used| ==> used[i]
  {
    if used != [] {
      ClearZero(used[1..]);
      assert forall i :: 1 <= i < |used| ==> used[i] == used[1..][i - 1];
      if Clear(used) == 0 {
        forall i | 0 <= i < |used| ensures used[i] { assert i > 0 ==> used[i] == used[1..][i - 1]; }
      }
    }
  }

  /** Frames s .. s + n - 1 exist and are free. */
  predicate FreeRun(used: seq<bool>, s: nat, n: nat) {
    s + n <= |used| && forall j :: s <= j < s + n ==> !used[j]
  }

  /** Frames s .. s + n - 1 exist, are in use, and do not include the reserved frame 0. */
  predicate Allocated(used: seq<bool>, s: nat, n: nat) {
    n > 0 ==> s > 0 && s + n <= |used| && forall j :: s <= j < s + n ==> used[j]
  }

  /** The flags with frames s .. s + n - 1 set to u; frames past the end are left out. */
  function Marked(used: seq<bool>, s: nat, n: nat, u: bool): (r: seq<bool>)
    ensures |r| == |used|
    ensures forall j :: 0 <= j < |used| ==> r[j] == if s <= j < s + n then u else used[j]
  {
    seq(|used|, j requires 0 <= j < |used| => if s <= j < s + n then u else used[j])
  }

  lemma MarkedStep(used: seq<bool>, s: nat, n: nat, u: bool)
    ensures Marked(used, s, 0, u) == used
    ensures s + n < |used| ==> Marked(used, s, n + 1, u) == Marked(used, s, n, u)[s + n := u]
    ensures s + n >= |used| ==> Marked(used, s, n + 1, u) == Marked(used, s, n, u)
  {
  }

  /** Reserving a free run takes exactly n frames. */
  lemma {:induction false} MarkedClear(used: seq<bool>, s: nat, n: nat)
    requires FreeRun(used, s, n)
    ensures Clear(Marked(used, s, n, true)) == Clear(used) - n
    decreases n
  {
    if n == 0 {
      MarkedStep(used, s, 0, true);
    } else {
      MarkedClear(used, s, n - 1);
      MarkedStep(used, s, n - 1, true);
      ClearUpdate(Marked(used, s, n - 1, true), s + n - 1, true);
    }
  }

  /** Releasing n frames frees at most n, and exactly n if and only if all of them were in use. */
  lemma {:induction false} ReleasedClear(used: seq<bool>, s: nat, n: nat)
    ensures Clear(Marked(used, s, n, false)) <= Clear(used) + n
    ensures Clear(Marked(used, s, n, false)) == Clear(used) + n
            <==> (n > 0 ==> s + n <= |used| && forall j :: s <= j < s + n ==> used[j])
    decreases n
  {
    hide Clear, Marked;
    MarkedStep(used, s, 0, false);
    if n > 0 {
      ReleasedClear(used, s, n - 1);
      MarkedStep(used, s, n - 1, false);
      if s + n <= |used| {
        ClearUpdate(Marked(used, s, n - 1, false), s + n - 1, false);
      }
    }
  }

  class Allocator {
    const bitmap: array<bv8>
    const total: nat
    var freeMemory: nat
    var lastFree: nat

    ghost predicate Shape() {
      total == bitmap.Length * 8
    }

    /** pmm_test_bit */
    predicate Test(bit: nat)
      requires Shape() && bit < total
      reads bitmap
    {
      BitSet(bitmap[bit / 8], bit % 8)
    }

    /** Which frames are in use. */
    ghost function Used(): (u: seq<bool>)
      requires Shape()
      reads bitmap
      ensures |u| == total && forall n: nat :: n < total ==> u[n] == Test(n)
    {
      Flags(bitmap[..])
    }

    /** The state as numbers and flags: frame 0 reserved, every frame below the hint in use, and the
        free byte count exact. */
    ghost predicate Good(used: seq<bool>, bytes: nat, hint: nat) {
      && |used| > 0 && used[0]
      && hint <= |used| && (forall n :: 0 <= n < hint ==> used[n])
      && bytes == 4096 * Clear(used)
    }

    ghost predicate Valid()
      reads this, bitmap
    {
      Shape() && Good(Used(), freeMemory, lastFree)
    }

    ghost function FreeFrames(): nat
      requires Shape()
      reads bitmap
    {
      Clear(Used())
    }

    /** The state pmm_init starts from: every frame marked used. */
    constructor (bytes: nat)
      requires bytes > 0
      ensures Valid() && fresh(bitmap) && total == bytes * 8 && FreeFrames() == 0
    {
      bitmap := new bv8[bytes](_ => 0xFF);
      total, freeMemory, lastFree := bytes * 8, 0, 0;
      new;
      ClearZero(Used());
    }

    /** pmm_set_bit */
    method SetBit(bit: nat)
      requires Shape() && bit < total
      modifies bitmap
      ensures Used() == old(Used())[bit := true]
    {
      ghost var b := bitmap[bit / 8];
      bitmap[bit / 8] := bitmap[bit / 8] | Mask(bit % 8);
      forall n: nat | n < total ensures Test(n) == if n == bit then true else old(Test(n)) {
        SetOne(b, bit % 8, n % 8);
      }
    }

    /** pmm_clear_bit */
    method ClearBit(bit: nat)
      requires Shape() && bit < total
      modifies bitmap
      ensures Used() == old(Used())[bit := false]
    {
      ghost var b := bitmap[bit / 8];
      bitmap[bit / 8] := bitmap[bit / 8] & !Mask(bit % 8);
      forall n: nat | n < total ensures Test(n) == if n == bit then false else old(Test(n)) {
        ClearOne(b, bit % 8, n % 8);
      }
    }

    /** pmm_find_first_free: the hinted search finds what a scan from zero would find.  Its second
        loop, from zero up to the hint, finds nothing. */
    method FindFirstFree() returns (r: int)
      requires Valid()
      modifies this`lastFree
      ensures Valid()
      ensures r == -1 <==> forall n :: 0 <= n < total ==> Used()[n]
      ensures r != -1 ==> 0 < r < total && !Used()[r] && forall n :: 0 <= n < r ==> Used()[n]
      ensures lastFree == if r == -1 then old(lastFree) else r
    {
      var i := lastFree;
      while i < total
        invariant lastFree <= i <= total
        invariant forall n :: 0 <= n < i ==> Used()[n]
      {
        if !Test(i) {
          lastFree := i;
          return i;
        }
        i := i + 1;
      }
      i := 0;
      while i < lastFree
        invariant 0 <= i <= lastFree
      {
        if !Test(i) {
          assert false;
        }
        i := i + 1;
      }
      return -1;
    }

    /** pmm_alloc_page: the lowest free frame, or 0 exactly when none is free. */
    method AllocPage() returns (addr: nat)
      requires Valid()
      modifies this`lastFree, this`freeMemory, bitmap
      ensures Valid()
      ensures addr == 0 <==> old(FreeFrames()) == 0
      ensures addr == 0 ==> Used() == old(Used())
      ensures addr != 0 ==> addr % 4096 == 0 && addr / 4096 < total && !old(Used())[addr / 4096]
      ensures addr != 0 ==> forall n :: 0 <= n < addr / 4096 ==> old(Used())[n]
      ensures addr != 0 ==> Used() == old(Used())[addr / 4096 := true] && FreeFrames() == old(FreeFrames()) - 1
    {
      hide Clear, Flags, BitSet, Good;
      ClearZero(Used());
      var bit := FindFirstFree();
      if bit == -1 { return 0; }
      if bit == 0 {
        assert false;
      }
      TakenGood(Used(), freeMemory, lastFree, bit);
      SetBit(bit);
      freeMemory := freeMemory - 4096;
      addr := bit * 4096;
      assert addr / 4096 == bit && addr % 4096 == 0;
    }

    lemma TakenGood(used: seq<bool>, bytes: nat, hint: nat, bit: nat)
      requires Good(used, bytes, hint) && bit < |used| && !used[bit]
      ensures bytes >= 4096 && Good(used[bit := true], bytes - 4096, hint)
      ensures Clear(used[bit := true]) == Clear(used) - 1
    {
      ClearUpdate(used, bit, true);
      hide Clear;
    }

    /** Set or clear n bits from s on, as the loops of pmm_alloc_pages and pmm_free_pages do. */
    method MarkRun(s: nat, n: nat, u: bool)
      requires Shape()
      modifies bitmap
      ensures Used() == Marked(old(Used()), s, n, u)
    {
      MarkedStep(Used(), s, 0, u);
      for j := 0 to n
        invariant Used() == Marked(old(Used()), s, j, u)
      {
        MarkedStep(old(Used()), s, j, u);
        if s + j < total {
          if u { SetBit(s + j); } else { ClearBit(s + j); }
        }
      }
    }

    /** The inner test loop of pmm_alloc_pages: the number of free frames from i on, up to count. */
    method FreeStretch(i: nat, count: nat) returns (j: nat)
      requires Shape() && i + count <= total
      ensures j <= count && FreeRun(Used(), i, j)
      ensures j < count ==> Used()[i + j]
    {
      j := 0;
      while j < count
        invariant j <= count && FreeRun(Used(), i, j)
      {
        if Test(i + j) { return; }
        j := j + 1;
      }
    }

    /** Reserve a free run. */
    method TakeRun(i: nat, count: nat)
      requires Valid() && FreeRun(Used(), i, count) && count > 0
      modifies this`freeMemory, bitmap
      ensures Valid() && Used() == Marked(old(Used()), i, count, true) && i > 0
    {
      hide BitSet, Flags;
      MarkedClear(Used(), i, count);
      MarkRun(i, count, true);
      freeMemory := freeMemory - count * 4096;
    }

    /** pmm_alloc_pages: the lowest free run of count frames, or 0 exactly when there is none.  A used
        frame inside a candidate run lets the search skip past it. */
    method AllocPages(count: nat) returns (addr: nat)
      requires Valid() && count <= total
      modifies this`freeMemory, bitmap
      ensures Valid()
      ensures addr == 0 <==> count == 0 || forall s: nat :: !FreeRun(old(Used()), s, count)
      ensures addr == 0 ==> Used() == old(Used())
      ensures addr != 0 ==> addr % 4096 == 0 && FreeRun(old(Used()), addr / 4096, count)
      ensures addr != 0 ==> forall s: nat :: s < addr / 4096 ==> !FreeRun(old(Used()), s, count)
      ensures addr != 0 ==> Used() == Marked(old(Used()), addr / 4096, count, true)
    {
      hide BitSet, Flags, Clear;
      if count == 0 { return 0; }
      var i := 0;
      while i <= total - count
        invariant 0 <= i && Used() == old(Used()) && freeMemory == old(freeMemory)
        invariant forall s: nat :: s < i ==> !FreeRun(Used(), s, count)
        decreases total - i
      {
        var j := FreeStretch(i, count);
        if j == count {
          TakeRun(i, count);
          return i * 4096;
        }
        i := i + j + 1;
      }
      return 0;
    }

    /** pmm_free_page: the frame is free again.  The bookkeeping stays right exactly when the frame was
        allocated; an address past the end of memory changes nothing. */
    method FreePage(addr: nat)
      requires Valid()
      modifies this`lastFree, this`freeMemory, bitmap
      ensures Shape() && Used() == Marked(old(Used()), addr / 4096, 1, false)
      ensures freeMemory == old(freeMemory) + if addr / 4096 < total then 4096 else 0
      ensures Valid() <==> addr / 4096 >= total || Allocated(old(Used()), addr / 4096, 1)
    {
      var bit := addr / 4096;
      ghost var used := Used();
      MarkedStep(used, bit, 0, false);
      ReleasedClear(used, bit, 1);
      if bit < total {
        ClearBit(bit);
        freeMemory := freeMemory + 4096;
        if bit < lastFree {
          lastFree := bit;
        }
      }
    }

    /** pmm_free_pages: count frames are free again.  The bookkeeping stays right exactly when all of
        them were allocated. */
    method FreePages(addr: nat, count: nat)
      requires Valid()
      modifies this`lastFree, this`freeMemory, bitmap
      ensures Shape() && Used() == Marked(old(Used()), addr / 4096, count, false)
      ensures freeMemory == old(freeMemory) + count * 4096
      ensures Valid() <==> Allocated(old(Used()), addr / 4096, count)
    {
      var start := addr / 4096;
      ReleasedClear(Used(), start, count);
      MarkRun(start, count, false);
      freeMemory := freeMemory + count * 4096;
      if start < lastFree {
        lastFree := start;
      }
    }
  }

  /** Freeing a frame twice: one frame is free, and the count says two. */
  method FreeTwice() returns (a: Allocator)
    ensures fresh(a) && a.Shape() && a.FreeFrames() == 1 && a.freeMemory == 2 * 4096 && !a.Valid()
  {
    a := new Allocator(1);
    ClearZero(a.Used());
    ReleasedClear(a.Used(), 1, 1);
    a.FreePage(4096);
    ghost var used := a.Used();
    a.FreePage(4096);
    assert a.Used() == used;
  }

  /** The same with pmm_free_pages, for a run that overlaps one already freed. */
  method FreeRunTwice() returns (a: Allocator)
    ensures fresh(a) && a.Shape() && a.FreeFrames() == 3 && a.freeMemory == 4 * 4096 && !a.Valid()
  {
    a := new Allocator(1);
    ghost var used := a.Used();
    ClearZero(used);
    ReleasedClear(used, 1, 2);
    ReleasedClear(used, 1, 3);
    a.FreePages(4096, 2);
    a.FreePages(8192, 2);
    assert a.Used() == Marked(used, 1, 3, false);
  }
}
