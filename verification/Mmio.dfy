/** ioremap, kernel/memory/vmm.c: device memory mapped at ever higher addresses of the upper half. */
module Mmio {
  import opened Arith
  import opened Bits
  import opened Pmm
  import opened PageTables
  import opened Vmm

  const MMIO_START: nat := 0xFFFF_8000_0000_0000

  /** A region handed out: virt + k stands for phys + k, for k < size. */
  datatype Region = Region(virt: nat, phys: nat, size: nat)

  /** The tables that k pages from page n on need. */
  ghost function Needed(n: nat, k: nat): set<Cell>
    decreases k
  {
    if k == 0 then {} else Path(n) + Needed(n + 1, k - 1)
  }

  /** In the upper half the page number is the address, shifted, minus a constant. */
  lemma UpperPage(virt: U64)
    requires virt >= MMIO_START
    ensures PageOf(virt) == virt / 4096 - 0xF_FFF0_0000_0000 && Mappable(virt)
  {
    var m := virt / 4096;
    assert 0xF_FFF8_0000_0000 <= m < 0x10_0000_0000_0000;
    assert m == 0xFFFF * 0x10_0000_0000 + (m - 0xF_FFF0_0000_0000);
    assert m % 0x10_0000_0000 == m - 0xF_FFF0_0000_0000;
    assert virt / 0x80_0000_0000 == m / 0x800_0000;
    assert 0x1_FFFF00 <= m / 0x800_0000 < 0x200_0000;
  }

  /** How many of them are not among the given ones. */
  ghost function Lack(n: nat, k: nat, keys: set<Cell>): nat {
    |Needed(n, k) - keys|
  }

  /** The missing tables are those of the first page and those of the rest. */
  lemma LackStep(n: nat, k: nat, keys: set<Cell>)
    requires k > 0
    ensures Lack(n, k, keys) == Lacking(n, keys) + Lack(n + 1, k - 1, keys + Path(n))
  {
    var here, rest := Path(n) - keys, Needed(n + 1, k - 1) - (keys + Path(n));
    assert here !! rest && Needed(n, k) - keys == here + rest;
  }

  /** The number of pages that cover size bytes from phys on. */
  function PagesFor(phys: nat, size: nat): nat {
    (size + phys % 4096 + 0xFFF) / 0x1000
  }

  /** That many pages are enough, and one less is not. */
  lemma PagesForIs(phys: nat, size: nat)
    ensures size + phys % 4096 <= PagesFor(phys, size) * 4096 < size + phys % 4096 + 4096
  {
  }

  /** The pages n0 .. n0 + i - 1 lead to consecutive frames from `frame` on, all other entries are as in t. */
  ghost predicate Lined(t: Tables, w: Tables, n0: nat, i: nat, frame: nat)
    requires Placed(t) && Placed(w)
  {
    forall n: nat :: Pte(w, n) == if n0 <= n < n0 + i then frame + (n - n0) * 4096 + 3 else Pte(t, n)
  }

  lemma LinedStart(t: Tables, n0: nat, frame: nat)
    requires Placed(t)
    ensures Lined(t, t, n0, 0, frame)
  {
  }

  lemma LinedOne(t: Tables, w: Tables, n: nat, frame: nat)
    requires Placed(t) && Placed(w)
    requires forall k: nat :: Pte(w, k) == if k == n then frame + 3 else Pte(t, k)
    ensures Lined(t, w, n, 1, frame)
  {
    hide Placed, Pte;
  }

  lemma LinedStep(t: Tables, w: Tables, w': Tables, n0: nat, i: nat, frame: nat)
    requires Placed(t) && Placed(w) && Placed(w') && Lined(t, w, n0, i, frame)
    requires Lined(w, w', n0 + i, 1, frame + i * 4096)
    ensures Lined(t, w', n0, i + 1, frame)
  {
    hide Placed, Pte;
  }

  /** Regions in address order, one after the other, below a base. */
  ghost predicate Stacked(regions: seq<Region>, base: U64) {
    && (forall i :: 0 <= i < |regions| ==> MMIO_START <= regions[i].virt && regions[i].virt + regions[i].size <= base)
    && (forall i, j :: 0 <= i < j < |regions| ==> regions[i].virt + regions[i].size <= regions[j].virt)
  }

  lemma StackOne(regions: seq<Region>, base: U64, r: Region, base': U64)
    requires Stacked(regions, base) && MMIO_START <= base <= r.virt && r.virt + r.size <= base'
    ensures Stacked(regions + [r], base')
  {
  }

  /** In the tables t the address v stands for what region r says. */
  ghost predicate Leads(t: Tables, r: Region, v: U64)
    requires Placed(t)
  {
    Present(Pte(t, PageOf(v))) && Decode(Pte(t, PageOf(v)), v) == r.phys + (v - r.virt)
  }

  /** In the tables t the bytes of a region below `end` stand for what the region says. */
  ghost predicate Covers(t: Tables, r: Region, end: nat)
    requires Placed(t)
  {
    forall v: U64 :: r.virt <= v < r.virt + r.size && v < end ==> Leads(t, r, v)
  }

  class Window {
    const space: AddressSpace
    var base: U64
    ghost var regions: seq<Region>

    /** Regions come in address order below the base, and each still translates as it was handed out. */
    ghost predicate Valid()
      reads this, space, space.pmm, space.pmm.bitmap
    {
      && space.Valid() && MMIO_START <= base && base % 4096 == 0
      && Stacked(regions, base)
      && (forall i :: 0 <= i < |regions| ==> Covers(space.Value(), regions[i], base))
    }

    /** A walk through memory takes the bytes of a region below `end` to where the region says. */
    ghost predicate Reached(r: Region, end: nat)
      reads space
    {
      forall v: U64 :: r.virt <= v < r.virt + r.size && v < end ==> Walks(r, v)
    }

    ghost predicate Walks(r: Region, v: U64)
      reads space
    {
      && Present(Hardware(space.mem, space.pml4, PageOf(v)))
      && Decode(Hardware(space.mem, space.pml4, PageOf(v)), v) == r.phys + (v - r.virt)
    }

    constructor (space: AddressSpace)
      requires space.Valid()
      ensures Valid() && this.space == space && regions == [] && base == 0xFFFF_8000_0000_0000
    {
      this.space := space;
      base, regions := MMIO_START, [];
    }

    /** Enough frames are left for the tables of k pages from page n on. */
    ghost predicate Enough(n: nat, k: nat)
      requires space.pmm.Shape()
      reads space, space.pmm, space.pmm.bitmap
    {
      Lack(n, k, space.at.Keys) <= space.pmm.FreeFrames()
    }

    /** The mapping loop has mapped i of its pages, and the tables of the rest are within reach or not. */
    ghost predicate Mapping(t: Tables, n0: nat, frame: nat, i: nat, pages: nat, enough: bool)
      reads space, space.pmm, space.pmm.bitmap
    {
      && space.Valid() && space.pmm.Shape() && Placed(t) && Placed(space.Value()) && i <= pages
      && Lined(t, space.Value(), n0, i, frame) && (Enough(n0 + i, pages - i) <==> enough)
    }

    /** One round of the mapping loop of ioremap. */
    method MapOne(virt: U64, frame: nat, i: nat, pages: nat, ghost t: Tables, ghost enough: bool) returns (ok: bool)
      requires virt >= MMIO_START && i < pages && virt + pages * 4096 < TWO64
      requires frame % 4096 == 0 && frame + i * 4096 < 0x10_0000_0000_0000
      requires Mapping(t, PageOf(virt), frame, i, pages, enough)
      modifies space, space.pmm, space.pmm.bitmap
      ensures ok ==> Mapping(t, PageOf(virt), frame, i + 1, pages, enough)
      ensures !ok ==> !enough && !space.Valid() && Kept(old(space.mem), space.mem)
    {
      hide AddressSpace.Valid, Inv, Placed, PageOf, Pte, Path, BitOr, Allocator.FreeFrames, Mappable, Kept, Lined,
        Lack, Lacking, Mapping;
      ghost var n, w := PageOf(virt) + i, space.Value();
      ghost var keys, free := MapNeeds(t, PageOf(virt), frame, i, pages, enough);
      NextPage(virt, i);
      var page: U64 := virt + i * 4096;
      var target: nat := frame + i * 4096;
      Aligned(frame, i);
      FlaggedFrame(target, 3);
      ok := space.MapPage(page, target, 3);
      if ok {
        space.ValidParts();
        MapNext(t, w, PageOf(virt), frame, i, pages, enough, keys, free);
      }
    }

    /** The tables and frames there are, and whether they suffice. */
    lemma MapNeeds(t: Tables, n0: nat, frame: nat, i: nat, pages: nat, enough: bool)
        returns (keys: set<Cell>, free: nat)
      requires Mapping(t, n0, frame, i, pages, enough) && i < pages
      ensures space.Valid() && space.pmm.Shape() && keys == space.at.Keys && free == space.pmm.FreeFrames()
      ensures Placed(t) && Placed(space.Value()) && Lined(t, space.Value(), n0, i, frame)
      ensures enough <==> Lack(n0 + i, pages - i, keys) <= free
      ensures enough ==> Lacking(n0 + i, keys) <= free
    {
      hide AddressSpace.Valid, Placed, Lined, Path, Lack, Lacking, Allocator.FreeFrames;
      keys, free := space.at.Keys, space.pmm.FreeFrames();
      LackStep(n0 + i, pages - i, keys);
    }

    lemma MapNext(t: Tables, w: Tables, n0: nat, frame: nat, i: nat, pages: nat, enough: bool, keys: set<Cell>,
                  free: nat)
      requires space.Valid() && Placed(t) && Placed(w) && Placed(space.Value()) && Lined(t, w, n0, i, frame)
      requires i < pages
      requires enough <==> Lack(n0 + i, pages - i, keys) <= free
      requires space.pmm.Shape() && space.at.Keys == keys + Path(n0 + i)
      requires space.pmm.FreeFrames() == free - Lacking(n0 + i, keys)
      requires forall n: nat ::
                 Pte(space.Value(), n) == if n == n0 + i then frame + i * 4096 + 3 else Pte(w, n)
      ensures Mapping(t, n0, frame, i + 1, pages, enough)
    {
      hide AddressSpace.Valid, Placed, Lined, Path, Lack, Lacking, Allocator.FreeFrames, Pte;
      LackStep(n0 + i, pages - i, keys);
      LinedOne(w, space.Value(), n0 + i, frame + i * 4096);
      LinedStep(t, w, space.Value(), n0, i, frame);
    }

    /** The mapping loop of ioremap, up to the first page that has no frame for a table.  The tables w are
        those before that page; what they led to is still reached afterwards. */
    method MapRun(virt: U64, frame: nat, pages: nat) returns (mapped: nat, ghost w: Tables)
      requires space.Valid() && virt >= MMIO_START && virt % 4096 == 0 && virt + pages * 4096 < TWO64
      requires frame % 4096 == 0 && (pages > 0 ==> frame + (pages - 1) * 4096 < 0x10_0000_0000_0000)
      modifies space, space.pmm, space.pmm.bitmap
      ensures mapped <= pages && (mapped == pages <==> old(Enough(PageOf(virt), pages)))
      ensures space.Valid() <==> mapped == pages
      ensures Inv(w) && w.root == space.pml4 && Lined(old(space.Value()), w, PageOf(virt), mapped, frame)
      ensures if mapped == pages then w == space.Value() else Kept(w.mem, space.mem)
    {
      hide AddressSpace.Valid, Inv, Placed, PageOf, Pte, Enough, Kept, Lined, Mapping;
      ghost var n0, t := PageOf(virt), space.Value();
      ghost var enough := MapStart(n0, frame, pages);
      mapped, w := 0, t;
      while mapped < pages
        invariant Mapping(t, n0, frame, mapped, pages, enough) && mapped <= pages
      {
        MapParts(t, n0, frame, mapped, pages, enough);
        w := space.Value();
        var ok := MapOne(virt, frame, mapped, pages, t, enough);
        if !ok { return; }
        mapped := mapped + 1;
      }
      w := space.Value();
      MapParts(t, n0, frame, mapped, pages, enough);
    }

    lemma MapStart(n0: nat, frame: nat, pages: nat) returns (enough: bool)
      requires space.Valid()
      ensures Placed(space.Value()) && Mapping(space.Value(), n0, frame, 0, pages, enough)
      ensures space.pmm.Shape() && (enough <==> Enough(n0, pages))
    {
      hide AddressSpace.Valid, Inv, Placed;
      space.ValidParts();
      enough := Enough(n0, pages);
      LinedStart(space.Value(), n0, frame);
    }

    lemma MapParts(t: Tables, n0: nat, frame: nat, i: nat, pages: nat, enough: bool)
      requires Mapping(t, n0, frame, i, pages, enough)
      ensures space.Valid() && Inv(space.Value()) && Placed(t) && Placed(space.Value())
      ensures Lined(t, space.Value(), n0, i, frame) && (i == pages ==> enough)
    {
      hide AddressSpace.Valid, Inv, Placed;
      space.ValidParts();
      if i == pages { NothingNeeded(n0 + i); }
    }

    lemma NothingNeeded(n: nat)
      requires space.pmm.Shape()
      ensures Enough(n, 0)
    {
    }

    /** ioremap: a new region above all earlier ones.  It is complete exactly when there are frames for
        the tables it needs.  The bytes of the pages mapped so far reach their physical addresses, and so
        does every byte of every earlier region, whether it is complete or not. */
    method Ioremap(phys: nat, size: nat) returns (virt: nat, ghost mapped: nat)
      requires Valid() && phys + size <= 0x10_0000_0000_0000
      requires base + PagesFor(phys, size) * 4096 < TWO64
      modifies this, space, space.pmm, space.pmm.bitmap
      ensures virt == old(base) + phys % 4096 && base == old(base) + PagesFor(phys, size) * 4096
      ensures size + phys % 4096 <= base - old(base) < size + phys % 4096 + 4096
      ensures Valid() ==> forall j: nat :: j < PagesFor(phys, size) ==>
                Pte(space.Value(), PageOf(old(base)) + j) == phys - phys % 4096 + j * 4096 + 3
      ensures mapped <= PagesFor(phys, size)
      ensures mapped == PagesFor(phys, size) <==> old(Enough(PageOf(base), PagesFor(phys, size)))
      ensures Valid() <==> mapped == PagesFor(phys, size)
      ensures regions == if Valid() then old(regions) + [Region(virt, phys, size)] else old(regions)
      ensures Valid() ==> forall n: nat :: !(PageOf(old(base)) <= n < PageOf(old(base)) + PagesFor(phys, size))
                                           ==> Pte(space.Value(), n) == Pte(old(space.Value()), n)
      ensures Reached(Region(virt, phys, size), old(base) + mapped * 4096)
      ensures forall i :: 0 <= i < |old(regions)| ==> Reached(old(regions)[i], base)
    {
      hide AddressSpace.Valid, Inv, Placed, PageOf, Pte, Enough, Covers, Reached, Kept;
      ghost var t := space.Value();
      space.ValidParts();
      var offset := phys % 4096;
      var pages := PagesFor(phys, size);
      PagesForIs(phys, size);
      var start := base;
      var done, w := MapRun(start, phys - offset, pages);
      mapped := done;
      base := base + pages * 4096;
      virt := start + offset;
      WellPlaced(w);
      forall i | 0 <= i < |regions| ensures Covers(w, regions[i], base) && Reached(regions[i], base) {
        OldRegion(t, w, start, mapped, phys - offset, regions[i], base);
        StillReached(w, regions[i], base);
      }
      NewRegion(t, w, start, phys, size, mapped);
      StillReached(w, Region(virt, phys, size), start + mapped * 4096);
      if mapped == pages {
        StackOne(regions, start, Region(virt, phys, size), base);
        regions := regions + [Region(virt, phys, size)];
      }
    }

    lemma StillReached(w: Tables, r: Region, end: nat)
      requires Inv(w) && Placed(w) && w.root == space.pml4 && r.virt >= MMIO_START && Covers(w, r, end)
      requires w.mem == space.mem || Kept(w.mem, space.mem)
      ensures Reached(r, end)
    {
      hide Leads, Walks, Inv, Kept, Placed;
      forall v: U64 | r.virt <= v < r.virt + r.size && v < end ensures Walks(r, v) {
        StillWalks(w, r, v);
      }
    }

    lemma StillWalks(w: Tables, r: Region, v: U64)
      requires Inv(w) && Placed(w) && w.root == space.pml4 && v >= MMIO_START && Leads(w, r, v)
      requires w.mem == space.mem || Kept(w.mem, space.mem)
      ensures Walks(r, v)
    {
      UpperPage(v);
      Indices(v);
      HardwareIs(w, PageOf(v));
      TableLengths(w);
      hide Kept, Hardware, Inv, Pte, Present, PageOf;
      if Kept(w.mem, space.mem) { HardwareKept(w.mem, space.mem, w.root, PageOf(v)); }
    }
  }

  lemma WellPlaced(w: Tables)
    requires Inv(w)
    ensures Placed(w)
  {
    TableLengths(w);
  }

  lemma Aligned(frame: nat, i: nat)
    requires frame % 4096 == 0
    ensures (frame + i * 4096) % 4096 == 0
  {
  }

  lemma NextPage(virt: U64, i: nat)
    requires MMIO_START <= virt && virt + i * 4096 < TWO64
    ensures PageOf(virt + i * 4096) == PageOf(virt) + i && Mappable(virt + i * 4096)
  {
    UpperPage(virt);
    UpperPage(virt + i * 4096);
  }

  /** The page of an address of a new region, and the frame behind it. */
  lemma RegionPage(start: U64, phys: nat, size: nat, v: U64) returns (j: nat, frame: nat)
    requires start >= MMIO_START && start % 4096 == 0 && phys + size <= 0x10_0000_0000_0000
    requires start + phys % 4096 <= v < start + phys % 4096 + size
    ensures PageOf(v) == PageOf(start) + j && j == (v - start) / 4096 && j < PagesFor(phys, size)
    ensures frame == phys - phys % 4096 + j * 4096 && frame % 4096 == 0 && frame < 0x10_0000_0000_0000
    ensures frame + v % 4096 == phys + (v - (start + phys % 4096))
  {
    j := (v - start) / 4096;
    frame := phys - phys % 4096 + j * 4096;
    UpperPage(start);
    UpperPage(v);
    hide PageOf, Mappable;
    assert v / 4096 == start / 4096 + j;
    assert v % 4096 == (v - start) % 4096;
  }

  lemma NewRegion(t: Tables, w: Tables, start: U64, phys: nat, size: nat, mapped: nat)
    requires Placed(t) && Placed(w) && start >= MMIO_START && start % 4096 == 0
    requires phys + size <= 0x10_0000_0000_0000
    requires Lined(t, w, PageOf(start), mapped, phys - phys % 4096)
    ensures Covers(w, Region(start + phys % 4096, phys, size), start + mapped * 4096)
  {
    hide PageOf, Pte, FrameOf, Present, PagesFor, BitOr, Placed;
    var virt := start + phys % 4096;
    forall v: U64 | virt <= v < virt + size && v < start + mapped * 4096 ensures Leads(w, Region(virt, phys, size), v) {
      var j, frame := RegionPage(start, phys, size, v);
      assert Pte(w, PageOf(v)) == frame + 3;
      FlaggedFrame(frame, 3);
    }
  }

  lemma OldRegion(t: Tables, w: Tables, start: U64, n: nat, frame: nat, r: Region, end: U64)
    requires Placed(t) && Placed(w) && MMIO_START <= r.virt && r.virt + r.size <= start <= end && start % 4096 == 0
    requires Lined(t, w, PageOf(start), n, frame) && Covers(t, r, start)
    ensures Covers(w, r, end)
  {
    hide PageOf, Pte, Placed;
    forall v: U64 | r.virt <= v < r.virt + r.size ensures Leads(w, r, v) {
      assert Leads(t, r, v);
      UpperPage(start);
      UpperPage(v);
    }
  }
}
