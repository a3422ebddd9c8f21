/**
 The page-table walker, kernel/memory/vmm.c, on top of the frame allocator.  Table frames come from
 the allocator and stay marked used; when it has none left the walker goes on with frame 0.
 */
module Vmm {
  import opened Arith
  import opened Bits
  import opened Pmm
  import opened PageTables

  /** The 36-bit page number of an address; bits 48 to 63 are ignored. */
  function PageOf(virt: U64): nat {
    virt / 4096 % 0x10_0000_0000
  }

  /** The four table indices, cut out of the address, are the digits of the page number. */
  lemma Indices(virt: U64)
    ensures virt / 0x80_0000_0000 % 512 == PageOf(virt) / 512 / 512 / 512
    ensures virt / 0x4000_0000 % 512 == PageOf(virt) / 512 / 512 % 512
    ensures virt / 0x20_0000 % 512 == PageOf(virt) / 512 % 512
    ensures virt / 0x1000 % 512 == PageOf(virt) % 512
  {
    var m := virt / 4096;
    assert virt / 0x20_0000 == m / 512;
    assert virt / 0x4000_0000 == m / 512 / 512;
    assert virt / 0x80_0000_0000 == m / 512 / 512 / 512;
    Digits(m, PageOf(virt));
  }

  lemma Digits(m: nat, n: nat)
    requires n == m % 0x10_0000_0000
    ensures n % 512 == m % 512 && n / 512 % 512 == m / 512 % 512 && n / 512 / 512 % 512 == m / 512 / 512 % 512
    ensures n / 512 / 512 / 512 == m / 512 / 512 / 512 % 512
  {
    var q := m / 0x10_0000_0000;
    assert m == n + 0x10_0000_0000 * q;
    assert m / 512 == n / 512 + 0x800_0000 * q;
    assert m / 512 / 512 == n / 512 / 512 + 0x4_0000 * q;
    assert m / 512 / 512 / 512 == n / 512 / 512 / 512 + 512 * q;
  }

  /** The page is not below root slot 0, which the boot code fills with 2 MiB pages. */
  predicate Mappable(virt: U64) {
    virt / 0x80_0000_0000 % 512 > 0
  }

  /** Frame 0 is in use as a table, whose entries are null or point to frame 0. */
  ghost predicate ZeroFrameTables(mem: map<nat, seq<U64>>) {
    && (forall a :: a in mem ==> |mem[a]| == 512)
    && 0 in mem && (forall i :: 0 <= i < 512 ==> mem[0][i] == 0 || mem[0][i] == 7)
  }

  lemma InstallZero(mem: map<nat, seq<U64>>, table: nat, idx: nat)
    requires idx < 512
    requires if table == 0 then ZeroFrameTables(mem)
             else 0 !in mem && table in mem && forall a :: a in mem ==> |mem[a]| == 512
    ensures var mem' := mem[0 := ZeroTable()];
      idx < |mem'[table]| && ZeroFrameTables(mem'[table := Put(mem'[table], idx, 7)])
  {
  }

  lemma TableLengths(t: Tables)
    requires Inv(t)
    ensures Placed(t) && !ZeroFrameTables(t.mem)
    ensures 0 !in t.mem && t.root in t.mem && forall a :: a in t.mem ==> |t.mem[a]| == 512
    ensures forall c :: c in t.at ==> t.at[c] in t.mem
  {
  }

  /** Every table sits in a frame that is marked used. */
  ghost predicate Owned(tables: set<nat>, used: seq<bool>) {
    forall a :: a in tables ==> a / 4096 < |used| && used[a / 4096]
  }

  /** A frame from the allocator is not a table yet, and may become one once it is marked used. */
  lemma FreshFrame(tables: set<nat>, used: seq<bool>, frame: nat)
    requires Owned(tables, used) && frame / 4096 < |used| && !used[frame / 4096]
    ensures frame !in tables && Owned(tables + {frame}, used[frame / 4096 := true])
  {
  }

  /** The physical address that an entry gives to an address of its page, 0 when it is not present. */
  function Decode(e: U64, virt: U64): nat {
    if Present(e) then FrameOf(e) + virt % 4096 else 0
  }

  class AddressSpace {
    const pmm: Allocator
    const pml4: nat
    var mem: map<nat, seq<U64>>
    ghost var at: map<Cell, nat>
    ghost var pos: map<nat, Cell>

    ghost function Value(): Tables
      reads this
    {
      Tables(pml4, mem, at, pos)
    }

    ghost predicate Valid()
      reads this, pmm, pmm.bitmap
    {
      pmm.Valid() && pmm.total <= 0x100_0000_0000 && Inv(Value()) && Owned(mem.Keys, pmm.Used())
    }

    /** The allocator ran dry and a table was put into frame 0. */
    ghost predicate Broken()
      reads this, pmm, pmm.bitmap
    {
      pmm.Valid() && pmm.FreeFrames() == 0 && ZeroFrameTables(mem)
    }

    /** vmm_init: a root table whose only entry, if any, is the boot mapping in slot 0. */
    constructor (pmm: Allocator, root: nat, boot: U64)
      requires pmm.Valid() && pmm.total <= 0x100_0000_0000
      requires root != 0 && root % 4096 == 0 && root / 4096 < pmm.total && pmm.Used()[root / 4096]
      ensures Valid() && this.pmm == pmm && at.Keys == {Cell(4, 0)} && forall n: nat :: Pte(Value(), n) == 0
    {
      this.pmm, pml4 := pmm, root;
      mem := map[root := Put(ZeroTable(), 0, boot)];
      at, pos := map[Cell(4, 0) := root], map[root := Cell(4, 0)];
      new;
      forall l: nat, p: nat ensures Link(Value(), l, p) {
        if l == 3 && p / 512 == 0 && RootSlot(l, p) > 0 { assert p % 512 > 0; }
      }
    }

    /** The branch of vmm_map_page for an entry that is not present: a zeroed frame becomes the table
        of cell (l, p), or frame 0 does when the allocator has none. */
    method AddTable(table: nat, idx: nat, ghost l: nat, ghost p: nat)
      requires if Broken() then table == 0 && idx < 512 else Valid() && OnPath(table, idx, l, p) && Cell(l, p) !in at
      requires table in mem && idx < |mem[table]| == 512 && !Present(mem[table][idx])
      modifies this, pmm, pmm.bitmap
      ensures Kept(old(mem), mem)
      ensures Broken() <==> old(Broken()) || old(pmm.FreeFrames()) == 0
      ensures Broken() ==> table in mem && idx < |mem[table]| && mem[table][idx] == 7
      ensures !Broken() ==> Valid() && table in mem && idx < |mem[table]| && at.Keys == old(at.Keys) + {Cell(l, p)}
      ensures !Broken() ==> FrameOf(mem[table][idx]) == at[Cell(l, p)] && mem[table][idx] == at[Cell(l, p)] + 7
      ensures !Broken() ==> pmm.FreeFrames() == old(pmm.FreeFrames()) - 1
      ensures !Broken() ==> forall n: nat :: Pte(Value(), n) == Pte(old(Value()), n)
    {
      hide FrameOf, Clear, Flags, Inv, ZeroFrameTables, Allocator.Good, Owned, Pte, Placed, OnPath, Kept, Present;
      ghost var broken, tables, used := Broken(), mem.Keys, pmm.Used();
      if !broken { TableLengths(Value()); }
      var frame := pmm.AllocPage();
      if frame == 0 {
        FillZeroFrame(table, idx);
      } else {
        FreshFrame(tables, used, frame);
        InstallTable(table, idx, frame, l, p);
        TableLengths(Value());
      }
    }

    /** A zeroed frame as the table of cell (l, p). */
    method InstallTable(table: nat, idx: nat, frame: nat, ghost l: nat, ghost p: nat)
      requires Inv(Value()) && OnPath(table, idx, l, p) && Cell(l, p) !in at && table in mem
      requires idx < |mem[table]| == 512
      requires frame != 0 && frame !in mem && frame % 4096 == 0 && frame < 0x10_0000_0000_0000
      requires !Present(mem[table][idx])
      modifies this`mem, this`at, this`pos
      ensures Inv(Value()) && mem.Keys == old(mem.Keys) + {frame} && at.Keys == old(at.Keys) + {Cell(l, p)}
      ensures table in mem && idx < |mem[table]| && FrameOf(mem[table][idx]) == frame == at[Cell(l, p)]
      ensures mem[table][idx] == frame + 7
      ensures Placed(old(Value())) && Placed(Value()) && forall n: nat :: Pte(Value(), n) == Pte(old(Value()), n)
      ensures Kept(old(mem), mem)
    {
      hide FrameOf, BitOr, Inv, Pte, Placed, RootSlot, ZeroTable, Kept, Present, WithTable;
      ghost var t := Value();
      TableLengths(t);
      FlaggedFrame(frame, 7);
      WithTableFacts(t, l, p, frame);
      WithTableInv(t, l, p, frame);
      KeptInstall(mem, frame, table, idx, BitOr(frame, 7));
      mem := mem[frame := ZeroTable()];
      mem := mem[table := Put(mem[table], idx, BitOr(frame, 7))];
      at, pos := at[Cell(l, p) := frame], pos[frame := Cell(l, p)];
      assert Value() == WithTable(t, l, p, frame);
      TableLengths(Value());
    }

    /** The same writes when the allocator had no frame: frame 0 is the table. */
    method FillZeroFrame(table: nat, idx: nat)
      requires table in mem && idx < |mem[table]| == 512 && !Present(mem[table][idx])
      requires if table == 0 then ZeroFrameTables(mem) else 0 !in mem && forall a :: a in mem ==> |mem[a]| == 512
      modifies this`mem
      ensures ZeroFrameTables(mem) && table in mem && idx < |mem[table]| && mem[table][idx] == 7
      ensures Kept(old(mem), mem)
    {
      hide ZeroFrameTables, Kept, Present;
      FlaggedSum(0, 7);
      InstallZero(mem, table, idx);
      KeptInstall(mem, 0, table, idx, BitOr(0, 7));
      mem := mem[0 := ZeroTable()];
      mem := mem[table := Put(mem[table], idx, BitOr(0, 7))];
    }

    /** Table is the table above cell (l, p), and idx the entry that names the cell. */
    ghost predicate OnPath(table: nat, idx: nat, l: nat, p: nat)
      reads this
    {
      && 1 <= l < 4 && RootSlot(l, p) > 0 && idx == p % 512
      && Cell(l + 1, p / 512) in at && table == at[Cell(l + 1, p / 512)]
    }

    /** One level of vmm_map_page: the table below an entry, created when the entry is not present. */
    method Child(table: nat, idx: nat, ghost l: nat, ghost p: nat) returns (child: nat)
      requires if Broken() then table == 0 && idx < 512 else Valid() && OnPath(table, idx, l, p)
      modifies this, pmm, pmm.bitmap
      ensures Kept(old(mem), mem)
      ensures Broken() <==> old(Broken()) || (Cell(l, p) !in old(at) && old(pmm.FreeFrames()) == 0)
      ensures Broken() ==> child == 0
      ensures !Broken() ==> Valid() && at.Keys == old(at.Keys) + {Cell(l, p)} && child == at[Cell(l, p)]
      ensures !Broken() ==> pmm.FreeFrames() == old(pmm.FreeFrames()) - if Cell(l, p) in old(at) then 0 else 1
      ensures !Broken() ==> forall n: nat :: Pte(Value(), n) == Pte(old(Value()), n)
    {
      hide Clear, Flags, Inv, Allocator.Good, Owned, Pte, Placed, RootSlot;
      ghost var broken := Broken();
      if !broken { Walk(Value(), l, p); TableLengths(Value()); }
      assert FrameOf(7) == 0;
      if !Present(mem[table][idx]) {
        AddTable(table, idx, l, p);
      }
      child := FrameOf(mem[table][idx]);
    }

    /** The frames vmm_map_page needs for the tables of page n. */
    ghost function Missing(n: nat): nat
      reads this
    {
      Lacking(n, at.Keys)
    }

    /** vmm_map_page: exactly the entry of that page changes.  The tables stay a tree of distinct frames
        owned by the kernel exactly when there are enough free frames for the missing tables, which is
        what `ok` tells; else a table went to frame 0, and no present entry of any table has changed. */
    method MapPage(virt: U64, phys: U64, flags: U64) returns (ok: bool)
      requires Valid() && Mappable(virt)
      modifies this, pmm, pmm.bitmap
      ensures Valid() <==> old(Missing(PageOf(virt))) <= old(pmm.FreeFrames())
      ensures ok <==> Valid()
      ensures ok || (Kept(old(mem), mem) && 0 in mem && pmm.Valid() && pmm.FreeFrames() == 0)
      ensures Valid() ==> BitOr(phys, flags) < TWO64
      ensures Valid() ==> forall n: nat ::
                Pte(Value(), n) == if n == PageOf(virt) then BitOr(phys, flags) else Pte(old(Value()), n)
      ensures Valid() ==> at.Keys == old(at.Keys) + Path(PageOf(virt))
      ensures Valid() ==> pmm.FreeFrames() == old(pmm.FreeFrames()) - old(Missing(PageOf(virt)))
    {
      hide Valid, Broken, Inv, Pte, Placed, BitOr, Kept;
      ghost var n := PageOf(virt);
      ValidParts();
      Indices(virt);
      EntryBound(phys, flags);
      var pt := MakePath(virt / 0x80_0000_0000 % 512, virt / 0x4000_0000 % 512, virt / 0x20_0000 % 512, n);
      ghost var mem1 := mem;
      ok := pt != 0;
      if !ok { BrokenParts(); }
      SetEntry(pt, virt / 0x1000 % 512, BitOr(phys, flags), n);
      if !ok { KeptTrans(old(mem), mem1, mem); }
    }

    /** The three levels of vmm_map_page above the last table. */
    method MakePath(i4: nat, i3: nat, i2: nat, ghost n: nat) returns (pt: nat)
      requires Valid() && 0 < i4 < 512 && i4 == n / 512 / 512 / 512 && i3 == n / 512 / 512 % 512 && i2 == n / 512 % 512
      modifies this, pmm, pmm.bitmap
      ensures Kept(old(mem), mem)
      ensures Broken() <==> old(Missing(n)) > old(pmm.FreeFrames())
      ensures Broken() ==> pt == 0
      ensures !Broken() ==> Valid() && Cell(1, n / 512) in at && pt == at[Cell(1, n / 512)] && pt != 0
      ensures !Broken() ==> forall k: nat :: Pte(Value(), k) == Pte(old(Value()), k)
      ensures !Broken() ==> at.Keys == old(at.Keys) + Path(n)
      ensures !Broken() ==> pmm.FreeFrames() == old(pmm.FreeFrames()) - old(Missing(n))
    {
      hide Valid, Broken, Inv, Pte, Placed, Allocator.FreeFrames, Kept;
      ValidParts();
      ghost var p1 := n / 512;
      ghost var p2 := p1 / 512;
      ghost var p3 := p2 / 512;
      assert p3 / 512 == 0 && p3 % 512 == i4;
      PathCount(Cell(3, p3), Cell(2, p2), Cell(1, p1), at.Keys);
      var pd := MakeTop(i4, i3, p2);
      ghost var mem1 := mem;
      pt := Child(pd, i2, 1, p1);
      if !Broken() { PteFoundAt(n); }
      KeptTrans(old(mem), mem1, mem);
    }

    /** 1 for a cell without a table, else 0. */
    ghost function Absent(c: Cell): nat
      reads this
    {
      if c in at then 0 else 1
    }

    /** The two upper levels. */
    method MakeTop(i4: nat, i3: nat, ghost p2: nat) returns (pd: nat)
      requires Valid() && 0 < i4 < 512 && i4 == p2 / 512 && i3 == p2 % 512
      modifies this, pmm, pmm.bitmap
      ensures Kept(old(mem), mem)
      ensures Broken() <==> old(Absent(Cell(3, p2 / 512)) + Absent(Cell(2, p2))) > old(pmm.FreeFrames())
      ensures Broken() ==> pd == 0
      ensures !Broken() ==> Valid() && at.Keys == old(at.Keys) + {Cell(3, p2 / 512)} + {Cell(2, p2)}
      ensures !Broken() ==> pd == at[Cell(2, p2)]
      ensures !Broken() ==> forall k: nat :: Pte(Value(), k) == Pte(old(Value()), k)
      ensures !Broken() ==>
                pmm.FreeFrames() == old(pmm.FreeFrames()) - old(Absent(Cell(3, p2 / 512)) + Absent(Cell(2, p2)))
    {
      hide Valid, Broken, Inv, Pte, Placed, Allocator.FreeFrames, Kept;
      ValidParts();
      var pdp := Child(pml4, i4, 3, p2 / 512);
      ghost var mem1 := mem;
      pd := Child(pdp, i3, 2, p2);
      KeptTrans(old(mem), mem1, mem);
    }

    lemma PteFoundAt(n: nat)
      requires Valid()
      ensures Cell(1, n / 512) in at ==> at[Cell(1, n / 512)] != 0
    {
      PteFound(Value(), n);
    }

    lemma BrokenParts()
      requires Broken()
      ensures pmm.Valid() && pmm.FreeFrames() == 0
    {
    }

    lemma ValidParts()
      requires Valid()
      ensures !Broken() && pmm.Shape() && Inv(Value()) && Placed(Value()) && Cell(4, 0) in at && at[Cell(4, 0)] == pml4
    {
      TableLengths(Value());
      RootCell(Value());
    }

    /** The last step of vmm_map_page. */
    method SetEntry(pt: nat, idx: nat, e: U64, ghost n: nat)
      requires if Broken() then pt == 0 && idx < 512
               else Valid() && idx == n % 512 && Cell(1, n / 512) in at && pt == at[Cell(1, n / 512)]
      modifies this`mem
      ensures Valid() <==> !old(Broken())
      ensures Valid() || (Kept(old(mem), mem) && 0 in mem)
      ensures Valid() ==> forall k: nat :: Pte(Value(), k) == if k == n then e else Pte(old(Value()), k)
    {
      hide Clear, Flags, Allocator.Good, FrameOf;
      ghost var broken, t := Broken(), Value();
      if !broken { TableLengths(t); WithPteInv(t, n, e); }
      mem := mem[pt := Put(mem[pt], idx, e)];
      if !broken {
        assert Value() == WithPte(t, n, e) && mem.Keys == t.mem.Keys;
      }
    }

    /** The three lookups that vmm_unmap_page, vmm_get_pte and vmm_get_phys share: the last table of the
        page, or 0 when a level is not present. */
    method FindTable(virt: U64) returns (pt: nat)
      requires Valid() && Mappable(virt)
      ensures pt == TableAt(Value(), 1, PageOf(virt) / 512)
      ensures pt == 0 ==> Pte(Value(), PageOf(virt)) == 0
      ensures pt != 0 ==> pt in mem && |mem[pt]| == 512 && mem[pt][PageOf(virt) % 512] == Pte(Value(), PageOf(virt))
    {
      hide Pte, Allocator.Valid, PageOf, FrameOf, Present, Inv, Owned;
      ghost var t := Value();
      ghost var n := PageOf(virt);
      Indices(virt);
      RootCell(t);
      TableLengths(t);
      PteFound(t, n);
      Walk(t, 3, n / 512 / 512 / 512);
      if !Present(mem[pml4][virt / 0x80_0000_0000 % 512]) { NoPath(t, n, 3); return 0; }
      var pdp := FrameOf(mem[pml4][virt / 0x80_0000_0000 % 512]);
      Walk(t, 2, n / 512 / 512);
      if !Present(mem[pdp][virt / 0x4000_0000 % 512]) { NoPath(t, n, 2); return 0; }
      var pd := FrameOf(mem[pdp][virt / 0x4000_0000 % 512]);
      Walk(t, 1, n / 512);
      if !Present(mem[pd][virt / 0x20_0000 % 512]) { NoPath(t, n, 1); return 0; }
      pt := FrameOf(mem[pd][virt / 0x20_0000 % 512]);
    }

    /** vmm_unmap_page: exactly the entry of that page becomes null, and no table goes away. */
    method UnmapPage(virt: U64)
      requires Valid() && Mappable(virt)
      modifies this`mem
      ensures Valid()
      ensures forall n: nat :: Pte(Value(), n) == if n == PageOf(virt) then 0 else Pte(old(Value()), n)
    {
      hide Broken, Allocator.Valid, Inv, Pte, PageOf, Owned;
      Indices(virt);
      ValidParts();
      var pt := FindTable(virt);
      if pt == 0 { return; }
      SetEntry(pt, virt / 0x1000 % 512, 0, PageOf(virt));
    }

    /** vmm_get_pte: the map at that page. */
    method GetPte(virt: U64) returns (e: U64)
      requires Valid() && Mappable(virt)
      ensures e == Pte(Value(), PageOf(virt))
    {
      hide Valid, Pte, PageOf;
      Indices(virt);
      var pt := FindTable(virt);
      if pt == 0 { return 0; }
      e := mem[pt][virt / 0x1000 % 512];
    }

    /** What an address translates to, 0 when its page is not mapped. */
    ghost function Translate(virt: U64): nat
      requires Valid()
      reads this, pmm, pmm.bitmap
    {
      Decode(Pte(Value(), PageOf(virt)), virt)
    }

    /** vmm_get_phys */
    method GetPhys(virt: U64) returns (phys: nat)
      requires Valid() && Mappable(virt)
      ensures phys == Translate(virt)
      ensures var e := Pte(Value(), PageOf(virt));
                phys == if e % 2 == 1 then e / 0x1000 % 0x100_0000_0000 * 0x1000 + virt % 0x1000 else 0
    {
      hide Pte, PageOf, FrameOf, Present, BitOr, Inv, Allocator.Valid, Owned;
      Indices(virt);
      ValidParts();
      assert !Present(0) by { NullEntry(); }
      EntryIs(Pte(Value(), PageOf(virt)));
      var pt := FindTable(virt);
      if pt == 0 { return 0; }
      var e := mem[pt][virt / 0x1000 % 512];
      if !Present(e) { return 0; }
      FrameAligned(e);
      EntryIs(e);
      FlaggedSum(FrameOf(e), virt % 4096);
      phys := BitOr(FrameOf(e), virt % 4096);
    }
  }

  /** Bit 0 of an entry says that it is present, bits 12 to 51 are the frame. */
  lemma EntryIs(e: U64)
    ensures Present(e) <==> e % 2 == 1
    ensures FrameOf(e) == e / 0x1000 % 0x100_0000_0000 * 0x1000
  {
  }

  lemma RootCell(t: Tables)
    requires Inv(t)
    ensures Cell(4, 0) in t.at && t.at[Cell(4, 0)] == t.root
  {
  }

  lemma EntryBound(phys: U64, flags: U64)
    ensures BitOr(phys, flags) < TWO64
  {
    assert Pow2(10) == 0x400;
    assert Pow2(20) == 0x10_0000;
    assert Pow2(30) == 0x4000_0000;
    assert Pow2(40) == 0x100_0000_0000;
    assert Pow2(50) == 0x4_0000_0000_0000;
    assert Pow2(60) == 0x1000_0000_0000_0000;
    assert Pow2(64) == TWO64;
    BitOrBound(phys, flags, 64);
  }

  lemma PathCount(a: Cell, b: Cell, c: Cell, keys: set<Cell>)
    requires a != b && b != c && a != c
    ensures |{a} + {b} + {c} - keys| ==
            (if a in keys then 0 else 1) + (if b in keys then 0 else 1) + (if c in keys then 0 else 1)
  {
    CountOne({}, a, keys);
    CountOne({} + {a}, b, keys);
    CountOne({} + {a} + {b}, c, keys);
    assert {} + {a} == {a};
  }

  lemma CountOne(s: set<Cell>, a: Cell, keys: set<Cell>)
    requires a !in s
    ensures |s + {a} - keys| == |s - keys| + if a in keys then 0 else 1
  {
    if a in keys {
      assert s + {a} - keys == s - keys;
    } else {
      assert s + {a} - keys == (s - keys) + {a};
    }
  }

  lemma PteFound(t: Tables, n: nat)
    requires Inv(t)
    ensures Cell(1, n / 512) in t.at ==>
              t.at[Cell(1, n / 512)] != 0 && t.at[Cell(1, n / 512)] in t.mem
              && |t.mem[t.at[Cell(1, n / 512)]]| == 512 && Pte(t, n) == t.mem[t.at[Cell(1, n / 512)]][n % 512]
  {
  }

  lemma NullEntry()
    ensures !Present(0)
  {
  }

  lemma FrameAligned(e: U64)
    ensures FrameOf(e) % 4096 == 0
  {
  }

  /** Mapping the first page of the upper half with no frame left for its tables puts them into frame 0. */
  method MapWithoutFrames() returns (space: AddressSpace, ok: bool)
    ensures !ok && !space.Valid() && space.pmm.Valid() && space.pmm.FreeFrames() == 0 && 0 in space.mem
  {
    hide Pte, Inv, Placed, Clear, Flags;
    var pmm := new Allocator(1);
    ClearZero(pmm.Used());
    space := new AddressSpace(pmm, 4096, 0);
    assert Mappable(0xFFFF_8000_0000_0000) && PageOf(0xFFFF_8000_0000_0000) == 0x8_0000_0000;
    assert Cell(3, 256) in Path(0x8_0000_0000) - space.at.Keys;
    ok := space.MapPage(0xFFFF_8000_0000_0000, 0x1000, 3);
  }
}
