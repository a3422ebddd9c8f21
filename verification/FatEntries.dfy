/** Directory entries as the driver reads them, and what a write does to a volume and to its directory. */
module FatEntries {
  import opened Arith
  import opened FatDisk
  import opened FatVolume

  /** The first-cluster field of entry e of a directory; entries are 32 bytes. */
  ghost function DirCluster(v: Volume, dir: nat, e: nat): nat
    requires Chained(v.disk, v.g, v.chains)
  {
    var h0: int, h1: int := FileByte(v, dir, 32 * e + 20), FileByte(v, dir, 32 * e + 21);
    var l0: int, l1: int := FileByte(v, dir, 32 * e + 26), FileByte(v, dir, 32 * e + 27);
    (h0 + 0x100 * h1) * 0x1_0000 + l0 + 0x100 * l1
  }

  /** Entry e of the directory is in use and is no long-name entry. */
  ghost predicate Live(v: Volume, dir: nat, e: nat)
    requires Chained(v.disk, v.g, v.chains)
  {
    FileByte(v, dir, 32 * e) != 0 && FileByte(v, dir, 32 * e) != 0xE5 && FileByte(v, dir, 32 * e + 11) != 0x0F
  }

  /** Entry e of the directory is in use and names the file with first cluster h. */
  ghost predicate Names(v: Volume, dir: nat, e: nat, h: nat)
    requires Chained(v.disk, v.g, v.chains)
  {
    Live(v, dir, e) && DirCluster(v, dir, e) == h
  }

  /** Entry e of the directory, byte by byte, is that of a regular file: its 11-byte name, attribute 0x20, its
      first cluster in two halves, its size modulo 2^32, and zeros in between. */
  ghost predicate FileEntry(v: Volume, dir: nat, e: nat, name: seq<U8>, h: nat, size: nat)
    requires Chained(v.disk, v.g, v.chains)
  {
    && |name| == 11 && (forall i: nat :: i < 11 ==> FileByte(v, dir, 32 * e + i) == name[i])
    && FileByte(v, dir, 32 * e + 11) == 0x20
    && (forall q: nat :: 32 * e + 12 <= q < 32 * e + 20 || 32 * e + 22 <= q < 32 * e + 26 ==> FileByte(v, dir, q) == 0)
    && FileByte(v, dir, 32 * e + 26) + FileByte(v, dir, 32 * e + 27) as int * 0x100
       + FileByte(v, dir, 32 * e + 20) as int * 0x1_0000 + FileByte(v, dir, 32 * e + 21) as int * 0x100_0000 == h
    && FileByte(v, dir, 32 * e + 28) + FileByte(v, dir, 32 * e + 29) as int * 0x100
       + FileByte(v, dir, 32 * e + 30) as int * 0x1_0000 + FileByte(v, dir, 32 * e + 31) as int * 0x100_0000
       == size % 0x1_0000_0000
  }

  /** A regular file's entry is that of its bytes. */
  lemma SameEntry(v: Volume, w: Volume, dir: nat, e: nat, name: seq<U8>, h: nat, size: nat)
    requires Chained(v.disk, v.g, v.chains) && Chained(w.disk, w.g, w.chains) && FileEntry(v, dir, e, name, h, size)
    requires forall q: nat :: 32 * e <= q < 32 * e + 32 ==> FileByte(w, dir, q) == FileByte(v, dir, q)
    ensures FileEntry(w, dir, e, name, h, size)
  {
    hide Chained, FileByte;
    forall i: nat | i < 11 ensures FileByte(w, dir, 32 * e + i) == name[i] {
      assert FileByte(v, dir, 32 * e + i) == name[i];
    }
  }

  /** A new size in a regular file's entry. */
  lemma ResizedEntry(v: Volume, w: Volume, dir: nat, e: nat, name: seq<U8>, h: nat, size: nat, size': nat)
    requires Chained(v.disk, v.g, v.chains) && Chained(w.disk, w.g, w.chains) && FileEntry(v, dir, e, name, h, size)
    requires forall q: nat :: 32 * e <= q < 32 * e + 28 ==> FileByte(w, dir, q) == FileByte(v, dir, q)
    requires forall o: nat :: o < 4 ==> FileByte(w, dir, 32 * e + 28 + o) == SizeByte(size', o)
    ensures FileEntry(w, dir, e, name, h, size')
  {
    hide Chained, FileByte;
    forall i: nat | i < 11 ensures FileByte(w, dir, 32 * e + i) == name[i] {
      assert FileByte(v, dir, 32 * e + i) == name[i];
    }
    assert FileByte(w, dir, 32 * e + 28 + 0) == SizeByte(size', 0);
    assert FileByte(w, dir, 32 * e + 28 + 1) == SizeByte(size', 1);
    assert FileByte(w, dir, 32 * e + 28 + 2) == SizeByte(size', 2);
    assert FileByte(w, dir, 32 * e + 28 + 3) == SizeByte(size', 3);
  }

  /** Neither the end of the directory nor an entry that names h comes before entry n. */
  ghost predicate Searched(v: Volume, dir: nat, h: nat, n: nat)
    requires Chained(v.disk, v.g, v.chains)
  {
    forall e: nat :: e < n ==> FileByte(v, dir, 32 * e) != 0 && !Names(v, dir, e, h)
  }

  /** Entry e is the one that a search for h from the start of the directory finds. */
  ghost predicate First(v: Volume, dir: nat, h: nat, e: nat)
    requires Chained(v.disk, v.g, v.chains)
  {
    Searched(v, dir, h, e) && Names(v, dir, e, h)
  }

  /** The entry a search for h finds, by its bytes: not free, not deleted, no long name, with first cluster h,
      and before it neither the end of the directory nor another such entry. */
  lemma FirstIs(v: Volume, dir: nat, h: nat, e: nat)
    requires Chained(v.disk, v.g, v.chains)
    ensures First(v, dir, h, e) <==> Found(v, dir, h, e) && forall e': nat :: e' < e ==>
              FileByte(v, dir, 32 * e') != 0 && !Found(v, dir, h, e')
  {
    hide FileByte, Chained;
  }

  ghost predicate Found(v: Volume, dir: nat, h: nat, e: nat)
    requires Chained(v.disk, v.g, v.chains)
  {
    && FileByte(v, dir, 32 * e) != 0 && FileByte(v, dir, 32 * e) != 0xE5 && FileByte(v, dir, 32 * e + 11) != 0x0F
    && FileByte(v, dir, 32 * e + 26) + FileByte(v, dir, 32 * e + 27) as int * 0x100
       + FileByte(v, dir, 32 * e + 20) as int * 0x1_0000 + FileByte(v, dir, 32 * e + 21) as int * 0x100_0000 == h
  }

  lemma FirstUnique(v: Volume, dir: nat, h: nat, e: nat, e': nat)
    requires Chained(v.disk, v.g, v.chains) && First(v, dir, h, e) && First(v, dir, h, e')
    ensures e == e'
  {
    hide FileByte, Chained;
  }

  /** The directory has the same names, attributes, times and first clusters; sizes may differ. */
  ghost predicate SameNames(v: Volume, w: Volume, dir: nat)
    requires Chained(v.disk, v.g, v.chains) && Chained(w.disk, w.g, w.chains)
  {
    forall q: nat :: q % 32 < 28 ==> FileByte(w, dir, q) == FileByte(v, dir, q)
  }

  lemma SameLive(v: Volume, w: Volume, dir: nat, e: nat)
    requires Chained(v.disk, v.g, v.chains) && Chained(w.disk, w.g, w.chains) && SameNames(v, w, dir)
    ensures FileByte(w, dir, 32 * e) == FileByte(v, dir, 32 * e)
    ensures Live(w, dir, e) == Live(v, dir, e) && DirCluster(w, dir, e) == DirCluster(v, dir, e)
  {
    hide FileByte, Chained, SameNames;
    SameAt(v, w, dir, e, 0);
    SameAt(v, w, dir, e, 11);
    SameAt(v, w, dir, e, 20);
    SameAt(v, w, dir, e, 21);
    SameAt(v, w, dir, e, 26);
    SameAt(v, w, dir, e, 27);
  }

  lemma SameAt(v: Volume, w: Volume, dir: nat, e: nat, o: nat)
    requires Chained(v.disk, v.g, v.chains) && Chained(w.disk, w.g, w.chains) && SameNames(v, w, dir) && o < 28
    ensures FileByte(w, dir, 32 * e + o) == FileByte(v, dir, 32 * e + o)
  {
    hide FileByte, Chained;
    assert (32 * e + o) % 32 == o;
  }

  /** A search only looks at names, attributes and first clusters. */
  lemma SameFirst(v: Volume, w: Volume, dir: nat, h: nat, e: nat)
    requires Chained(v.disk, v.g, v.chains) && Chained(w.disk, w.g, w.chains) && SameNames(v, w, dir)
    ensures Searched(w, dir, h, e) <==> Searched(v, dir, h, e)
    ensures First(w, dir, h, e) <==> First(v, dir, h, e)
  {
    hide FileByte, Chained, DirCluster, Live, SameNames;
    forall e': nat ensures FileByte(w, dir, 32 * e') == FileByte(v, dir, 32 * e')
      ensures Names(w, dir, e', h) == Names(v, dir, e', h)
    {
      SameLive(v, w, dir, e');
    }
  }

  /** Byte o of the size field of an entry: the size modulo 2^32, low byte first. */
  function SizeByte(size: nat, o: nat): U8
    requires o < 4
  {
    Le32Bytes(size % TWO32)[o]
  }

  /** Byte q of directory dir once the first entry that names h, if any, holds a size. */
  ghost function DirByte(v: Volume, dir: nat, h: nat, size: nat, q: nat): U8
    requires Chained(v.disk, v.g, v.chains)
  {
    if q % 32 >= 28 && First(v, dir, h, q / 32) then SizeByte(size, q % 32 - 28) else FileByte(v, dir, q)
  }

  /** The directory after a write to h: when the file has grown, its size is in the first entry that names
      it; nothing else has changed. */
  ghost predicate DirWrote(v: Volume, w: Volume, h: nat, dir: nat)
    requires Chained(v.disk, v.g, v.chains) && Chained(w.disk, w.g, w.chains) && h in v.sizes && h in w.sizes
  {
    forall q: nat ::
      FileByte(w, dir, q) ==
      if w.sizes[h] == v.sizes[h] then FileByte(v, dir, q) else DirByte(v, dir, h, w.sizes[h], q)
  }

  ghost predicate SameExcept(v: Volume, w: Volume, dir: nat)
    requires Chained(v.disk, v.g, v.chains) && Chained(w.disk, w.g, w.chains)
  {
    forall h, q: nat :: h in v.chains && h != dir ==> FileByte(w, h, q) == FileByte(v, h, q)
  }

  // ---------------------------------------------------------------- writes

  /** w is v after the bytes of `data` were written to file h at an offset.  The chain of h may have
      grown and its size may have; nothing else outside the directory dir has changed. */
  ghost predicate WroteFile(v: Volume, w: Volume, h: nat, dir: nat, offset: nat, data: seq<U8>) {
    && Chained(v.disk, v.g, v.chains) && Chained(w.disk, w.g, w.chains) && w.g == v.g
    && w.chains.Keys == v.chains.Keys && h in v.chains && h in v.sizes && h in w.sizes
    && v.chains[h] <= w.chains[h]
    && (forall h' :: h' in v.chains && h' != h ==> w.chains[h'] == v.chains[h'])
    && (forall h', q: nat :: h' in v.chains && h' != dir ==>
          FileByte(w, h', q) ==
          if h' == h && offset <= q < offset + |data| then data[q - offset] else FileByte(v, h', q))
    && w.sizes == (if data != [] && offset + |data| > v.sizes[h] then v.sizes[h := offset + |data|] else v.sizes)
  }

  /** The same, with the entry of h in the directory following its size. */
  ghost predicate Wrote(v: Volume, w: Volume, h: nat, dir: nat, offset: nat, data: seq<U8>) {
    WroteFile(v, w, h, dir, offset, data) && DirWrote(v, w, h, dir)
  }

  lemma WroteInv(v: Volume, w: Volume, h: nat, dir: nat, offset: nat, data: seq<U8>)
    requires Inv(v) && Wrote(v, w, h, dir, offset, data) && dir !in v.sizes
    requires data != [] ==> ClusterOf(v.g, offset + |data| - 1) < |w.chains[h]|
    ensures Inv(w)
  {
    hide Chained, FileByte, ClusterOf, DirWrote;
  }

  /** Names and first clusters of the directory survive a write. */
  lemma WroteNames(v: Volume, w: Volume, h: nat, dir: nat)
    requires Chained(v.disk, v.g, v.chains) && Chained(w.disk, w.g, w.chains) && h in v.sizes && h in w.sizes
    requires DirWrote(v, w, h, dir)
    ensures SameNames(v, w, dir) && SameSizes(v, w, h, dir)
  {
    hide FileByte, Chained, First;
  }

  /** The size of h is in the entry of the directory that a search finds first, or no entry names h. */
  ghost predicate Refreshed(v: Volume, w: Volume, h: nat, dir: nat)
    requires Chained(v.disk, v.g, v.chains) && Chained(w.disk, w.g, w.chains) && h in v.sizes
  {
    forall q: nat :: FileByte(w, dir, q) == DirByte(v, dir, h, v.sizes[h], q)
  }

  /** Size fields, except in the first entry that names h, are the same. */
  ghost predicate SameSizes(v: Volume, w: Volume, h: nat, dir: nat)
    requires Chained(v.disk, v.g, v.chains) && Chained(w.disk, w.g, w.chains)
  {
    forall q: nat :: q % 32 >= 28 && !First(v, dir, h, q / 32) ==> FileByte(w, dir, q) == FileByte(v, dir, q)
  }

  /** Storing a later size after an earlier one leaves the later one. */
  lemma DirWroteAgain(v: Volume, w: Volume, w': Volume, h: nat, dir: nat)
    requires Chained(v.disk, v.g, v.chains) && Chained(w.disk, w.g, w.chains) && Chained(w'.disk, w'.g, w'.chains)
    requires h in v.sizes && h in w.sizes && h in w'.sizes && w'.sizes[h] == w.sizes[h]
    requires w.sizes[h] != v.sizes[h] && SameNames(v, w, dir) && Refreshed(w, w', h, dir)
    requires SameSizes(v, w, h, dir)
    ensures DirWrote(v, w', h, dir)
  {
    hide FileByte, Chained, First, SameNames;
    forall q: nat ensures FileByte(w', dir, q) == DirByte(v, dir, h, w'.sizes[h], q) {
      SameFirst(v, w, dir, h, q / 32);
      if q % 32 < 28 { SameByte(v, w, dir, q); }
    }
  }

  lemma SameByte(v: Volume, w: Volume, dir: nat, q: nat)
    requires Chained(v.disk, v.g, v.chains) && Chained(w.disk, w.g, w.chains) && SameNames(v, w, dir) && q % 32 < 28
    ensures FileByte(w, dir, q) == FileByte(v, dir, q)
  {
  }
}
