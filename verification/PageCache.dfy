/**
 The page cache of kernel/mm/page_cache.c: struct pages indexed by the radix tree, each backed by
 its own 4096-byte frame.  Page structs and frames live in maps from address to contents.
 */
module PageCache {
  import opened Arith
  import opened RadixView
  import opened RadixTree

  type Byte = U8

  datatype Page = Page(mapped: bool, dirty: bool, index: nat, virt: Ptr)

  /** The index, the page structs and the frames agree, and no two pages share a frame. */
  ghost predicate Consistent(index: map<nat, Ptr>, nrpages: nat, pages: map<Ptr, Page>, frames: map<Ptr, seq<Byte>>) {
    Indexed(index, nrpages, pages) && Framed(pages, frames)
  }

  /** The index holds exactly the pages that are marked as cached, each at its index. */
  ghost predicate Indexed(index: map<nat, Ptr>, nrpages: nat, pages: map<Ptr, Page>) {
    && nrpages == |index|
    && 0 !in pages
    && (forall k :: k in index ==> index[k] in pages && pages[index[k]].mapped && pages[index[k]].index == k)
    && (forall a :: a in pages && pages[a].mapped ==> pages[a].index in index && index[pages[a].index] == a)
  }

  /** Every page has a frame of its own. */
  ghost predicate Framed(pages: map<Ptr, Page>, frames: map<Ptr, seq<Byte>>) {
    && (forall a :: a in pages ==> pages[a].virt in frames && |frames[pages[a].virt]| == 4096)
    && (forall a, b :: a in pages && b in pages && a != b ==> pages[a].virt != pages[b].virt)
  }

  /** The byte of the file at position q: zero where no page is cached. */
  ghost function ByteOf(index: map<nat, Ptr>, pages: map<Ptr, Page>, frames: map<Ptr, seq<Byte>>, q: nat): Byte {
    if && q / 4096 in index && index[q / 4096] in pages
       && pages[index[q / 4096]].virt in frames && |frames[pages[index[q / 4096]].virt]| == 4096
    then frames[pages[index[q / 4096]].virt][q % 4096] else 0
  }

  lemma AddConsistent(index: map<nat, Ptr>, n: nat, pages: map<Ptr, Page>, frames: map<Ptr, seq<Byte>>, a: Ptr, k: nat)
    requires Consistent(index, n, pages, frames) && a in pages && k !in index
    ensures Consistent(index[k := a], n + 1, pages[a := pages[a].(mapped := true, index := k)], frames) <==>
              !pages[a].mapped
  {
    if pages[a].mapped {
      assert pages[a].index in index[k := a] && index[k := a][pages[a].index] == a;
    }
  }

  lemma RemoveConsistent(index: map<nat, Ptr>, n: nat, pages: map<Ptr, Page>, frames: map<Ptr, seq<Byte>>, a: Ptr)
    requires Consistent(index, n, pages, frames) && a in pages && pages[a].mapped
    ensures pages[a].index in index && index[pages[a].index] == a != 0
    ensures n > 0 && Consistent(index - {pages[a].index}, n - 1, pages[a := pages[a].(mapped := false)], frames)
    ensures forall q: nat ::
              ByteOf(index - {pages[a].index}, pages[a := pages[a].(mapped := false)], frames, q) ==
              if q / 4096 == pages[a].index then 0 else ByteOf(index, pages, frames, q)
  {
    RemovedIndex(index, n, pages, frames, a);
    hide ByteOf, Consistent;
    var index' := index - {pages[a].index};
    forall q: nat
      ensures ByteOf(index', pages[a := pages[a].(mapped := false)], frames, q) ==
              if q / 4096 == pages[a].index then 0 else ByteOf(index, pages, frames, q)
    {
      RemovedByte(index, n, pages, frames, a, q);
    }
  }

  lemma RemovedIndex(index: map<nat, Ptr>, n: nat, pages: map<Ptr, Page>, frames: map<Ptr, seq<Byte>>, a: Ptr)
    requires Consistent(index, n, pages, frames) && a in pages && pages[a].mapped
    ensures pages[a].index in index && index[pages[a].index] == a != 0
    ensures n > 0 && Consistent(index - {pages[a].index}, n - 1, pages[a := pages[a].(mapped := false)], frames)
  {
    hide Framed;
    var index' := index - {pages[a].index};
    assert index'[pages[a].index := a] == index;
    assert |index'| == |index| - 1;
    SameFrames(pages, frames, a, pages[a].(mapped := false));
  }

  lemma SameFrames(pages: map<Ptr, Page>, frames: map<Ptr, seq<Byte>>, a: Ptr, x: Page)
    requires Framed(pages, frames) && a in pages && x.virt == pages[a].virt
    ensures Framed(pages[a := x], frames)
  {
  }

  lemma RemovedByte(index: map<nat, Ptr>, n: nat, pages: map<Ptr, Page>, frames: map<Ptr, seq<Byte>>, a: Ptr, q: nat)
    requires Consistent(index, n, pages, frames) && a in pages && pages[a].mapped
    ensures ByteOf(index - {pages[a].index}, pages[a := pages[a].(mapped := false)], frames, q) ==
            if q / 4096 == pages[a].index then 0 else ByteOf(index, pages, frames, q)
  {
    var index' := index - {pages[a].index};
    if q / 4096 in index' { assert pages[index[q / 4096]].index == q / 4096; }
  }

  class Mapping {
    const tree: Tree
    var nrpages: nat
    var i_size: U64
    var pages: map<Ptr, Page>
    var frames: map<Ptr, seq<Byte>>

    ghost predicate Valid()
      reads this`nrpages, this`pages, this`frames, tree
    {
      tree.Valid() && Consistent(tree.Contents(), nrpages, pages, frames)
    }

    ghost function ByteAt(q: nat): Byte
      requires Valid()
      reads this`nrpages, this`pages, this`frames, tree
    {
      ByteOf(tree.Contents(), pages, frames, q)
    }

    constructor (plenty: bool)
      ensures Valid() && fresh(tree) && tree.plenty == plenty && nrpages == 0 && i_size == 0
      ensures forall q: nat :: ByteAt(q) == 0
    {
      tree := new Tree(plenty);
      nrpages, i_size, pages, frames := 0, 0, map[], map[];
    }

    /** find_get_page */
    method FindGetPage(offset: nat) returns (page: Ptr)
      requires Valid()
      ensures page == if offset in tree.Contents() then tree.Contents()[offset] else 0
    {
      page := tree.Lookup(offset);
    }

    /** add_to_page_cache: the page becomes the one cached at the offset, unless the offset is taken or a node
        allocation fails in this call.  The cache stays consistent exactly when the page was not cached at
        another offset already. */
    method AddToPageCache(page: Ptr, offset: nat) returns (ret: int, ghost failed: bool)
      requires Valid() && (page != 0 ==> page in pages) && offset < Pow64(MAX_HEIGHT)
      modifies this`nrpages, this`pages, tree
      ensures tree.Valid() && tree.starved == (old(tree.starved) || failed) && (failed ==> !tree.plenty)
      ensures ret == if page == 0 || offset in old(tree.Contents()) || failed then -1 else 0
      ensures ret != 0 ==> tree.Contents() == old(tree.Contents()) && pages == old(pages) && nrpages == old(nrpages)
      ensures ret == 0 ==> tree.Contents() == old(tree.Contents())[offset := page] && nrpages == old(nrpages) + 1
      ensures ret == 0 ==> pages == old(pages)[page := old(pages)[page].(mapped := true, index := offset)]
      ensures Valid() <==> ret != 0 || !old(pages[page].mapped)
    {
      hide Inv, Canonical, Items, Consistent, Pow64;
      if page == 0 { return -1, false; }
      if offset !in tree.Contents() { AddConsistent(tree.Contents(), nrpages, pages, frames, page, offset); }
      ret, failed := tree.Insert(offset, page);
      if ret == 0 {
        pages := pages[page := pages[page].(mapped := true, index := offset)];
        nrpages := nrpages + 1;
      }
    }

    /** delete_from_page_cache: the page leaves the cache, its bytes read as zero, no other byte changes. */
    method DeleteFromPageCache(page: Ptr)
      requires Valid() && page in pages
      modifies this`nrpages, this`pages, tree
      ensures Valid() && pages.Keys == old(pages.Keys) && !pages[page].mapped
      ensures tree.Contents() ==
              if old(pages[page].mapped) then old(tree.Contents()) - {old(pages[page].index)} else old(tree.Contents())
      ensures forall q: nat ::
                ByteAt(q) == if old(pages[page].mapped) && q / 4096 == old(pages[page].index) then 0 else old(ByteAt(q))
    {
      hide Inv, Canonical, Items, Consistent;
      if !pages[page].mapped { return; }
      ghost var index := tree.Contents();
      RemoveConsistent(index, nrpages, pages, frames, page);
      var item := tree.Delete(pages[page].index);
      if item != 0 {
        nrpages := nrpages - 1;
      }
      pages := pages[page := pages[page].(mapped := false)];
      assert tree.Contents() == index - {old(pages[page].index)};
    }
  }
}
