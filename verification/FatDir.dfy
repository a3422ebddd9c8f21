/** Directory growth and file creation: fat32_add_entry and fat32_create. */
module FatDir {
  import opened Arith
  import opened Sequences
  import opened FatDisk
  import opened FatVolume
  import opened Fat32
  import opened FatFile
  import opened FatIo

  /** A directory entry whose first byte marks it as never used or deleted. */
  predicate FreeMark(b: U8) {
    b == 0 || b == 0xE5
  }

  /** w is v with `entry` stored in the first free 32-byte slot e of directory dir, whose chain may
      have grown by one cluster to make room. */
  ghost predicate EntryAdded(v: Volume, w: Volume, dir: nat, e: nat, entry: seq<U8>) {
    && Chained(v.disk, v.g, v.chains) && Chained(w.disk, w.g, w.chains) && w.g == v.g && w.sizes == v.sizes
    && w.chains.Keys == v.chains.Keys && dir in v.chains
    && v.chains[dir] <= w.chains[dir] && |w.chains[dir]| <= |v.chains[dir]| + 1
    && (forall h :: h in v.chains && h != dir ==> w.chains[h] == v.chains[h])
    && FreeMark(FileByte(v, dir, 32 * e)) && (forall e': nat :: e' < e ==> !FreeMark(FileByte(v, dir, 32 * e')))
    && (forall h, q: nat :: h in v.chains ==>
          FileByte(w, h, q) ==
          if h == dir && 32 * e <= q < 32 * e + |entry| then entry[q - 32 * e] else FileByte(v, h, q))
  }

  /** No slot of the directory, as long as its chain is, is free. */
  ghost predicate Packed(v: Volume, dir: nat)
    requires Chained(v.disk, v.g, v.chains) && dir in v.chains
  {
    forall e: nat :: e < Ordinal(v.g, |v.chains[dir]|, 0) * 16 ==> !FreeMark(FileByte(v, dir, 32 * e))
  }

  /** The same as far as bytes go: `entry` is in the first free slot e of dir, and no other byte of any chain
      of v has changed. */
  ghost predicate Entered(v: Volume, w: Volume, dir: nat, e: nat, entry: seq<U8>) {
    && Chained(v.disk, v.g, v.chains) && Chained(w.disk, w.g, w.chains) && dir in v.chains
    && FreeMark(FileByte(v, dir, 32 * e)) && (forall e': nat :: e' < e ==> !FreeMark(FileByte(v, dir, 32 * e')))
    && (forall h, q: nat :: h in v.chains ==>
          FileByte(w, h, q) ==
          if h == dir && 32 * e <= q < 32 * e + |entry| then entry[q - 32 * e] else FileByte(v, h, q))
  }

  /** The walk so far: no free slot before slot n, and at most one, still empty, cluster added. */
  ghost predicate Scanning(v: Volume, w: Volume, dir: nat, n: nat) {
    && Chained(v.disk, v.g, v.chains) && Inv(w) && w.g == v.g && w.sizes == v.sizes
    && w.chains.Keys == v.chains.Keys && dir in v.chains
    && v.chains[dir] <= w.chains[dir] && |w.chains[dir]| <= |v.chains[dir]| + 1
    && (forall h :: h in v.chains && h != dir ==> w.chains[h] == v.chains[h])
    && SameBytes(v, w)
    && (forall e: nat :: e < n ==> !FreeMark(FileByte(v, dir, 32 * e)))
  }

  lemma ScanningParts(v: Volume, w: Volume, dir: nat, n: nat)
    requires Scanning(v, w, dir, n)
    ensures Inv(w) && w.g == v.g && w.sizes == v.sizes && dir in w.chains && dir in v.chains
    ensures Chained(v.disk, v.g, v.chains) && Chained(w.disk, w.g, w.chains)
    ensures forall q: nat :: FileByte(w, dir, q) == FileByte(v, dir, q)
    ensures |v.chains[dir]| <= |w.chains[dir]| <= |v.chains[dir]| + 1
  {
    hide Chained, FileByte;
  }

  /** The cluster after the last one of a chain holds zero bytes, as far as the file is concerned. */
  lemma BeyondIsZero(v: Volume, dir: nat)
    requires Chained(v.disk, v.g, v.chains) && dir in v.chains
    ensures FileByte(v, dir, Ordinal(v.g, |v.chains[dir]|, 0) * 512) == 0
  {
    InCluster(v.g, |v.chains[dir]|, 0, Ordinal(v.g, |v.chains[dir]|, 0) * 512);
  }

  /** The entry loop of fat32_add_entry over sector i of the k-th cluster. */
  method AddInSector(d: Driver, dir: nat, n: nat, entry: seq<U8>, ghost k: nat, ghost i: nat, ghost v: Volume)
      returns (found: bool, ghost e: nat)
    requires Scanning(v, d.Value(), dir, Ordinal(d.g, k, i) * 16) && |entry| == 32 && dir !in d.sizes
    requires Chained(d.disk, d.g, d.chains) && dir in d.chains && k < |d.chains[dir]| && i < d.g.spc
    requires n == FileSector(d.disk, d.g, d.chains[dir], k, i)
    modifies d`disk
    ensures found ==> d.Valid() && EntryAdded(v, d.Value(), dir, e, entry) && e < Ordinal(d.g, k, i) * 16 + 16
    ensures !found ==> d.disk == old(d.disk) && Scanning(v, d.Value(), dir, Ordinal(d.g, k, i) * 16 + 16)
    ensures !found ==> n < |d.disk| && |d.disk[n]| > 0 && !FreeMark(d.disk[n][0])
  {
    hide Ordinal, FileByte, Chained, FileSector, ClusterOf, Scanning, EntryAdded;
    ghost var w := d.Value();
    SectorFull(w, dir, k, i);
    for j := 0 to 16
      invariant d.Value() == w && Scanning(v, w, dir, Ordinal(d.g, k, i) * 16 + j)
      invariant j > 0 ==> !FreeMark(d.disk[n][0])
    {
      EntryBytes(w, dir, k, i, j, 0);
      if FreeMark(d.disk[n][32 * j]) {
        StoreEntry(d, dir, n, j, entry, k, i, v);
        return true, Ordinal(d.g, k, i) * 16 + j;
      }
      ScanOn(v, w, dir, Ordinal(d.g, k, i) * 16 + j);
    }
    return false, 0;
  }

  /** The sector loop of fat32_add_entry over the k-th cluster. */
  method AddInCluster(d: Driver, dir: nat, cluster: nat, entry: seq<U8>, ghost k: nat, ghost v: Volume)
      returns (found: bool, ghost e: nat)
    requires Scanning(v, d.Value(), dir, Ordinal(d.g, k, 0) * 16) && |entry| == 32 && dir !in d.sizes
    requires dir in d.chains && k < |d.chains[dir]| && cluster == d.chains[dir][k]
    modifies d`disk
    ensures found ==> d.Valid() && EntryAdded(v, d.Value(), dir, e, entry) && e < Ordinal(d.g, k + 1, 0) * 16
    ensures !found ==> d.disk == old(d.disk) && Scanning(v, d.Value(), dir, Ordinal(d.g, k + 1, 0) * 16)
    ensures FreeMark(FileByte(v, dir, Ordinal(d.g, k, 0) * 512)) ==> found
  {
    hide Ordinal, FileByte, ClusterOf, Chained, FileSector, ClusterSector, Scanning, EntryAdded;
    ghost var w := d.Value();
    ScanningParts(v, w, dir, Ordinal(d.g, k, 0) * 16);
    OrdinalNext(d.g, k);
    SectorIs(w, dir, k, cluster);
    EntryBytes(w, dir, k, 0, 0, 0);
    var sector := ClusterSector(d.g, cluster);
    for i := 0 to d.g.spc
      invariant d.Value() == w && Scanning(v, w, dir, Ordinal(d.g, k, i) * 16)
      invariant i > 0 ==> !FreeMark(FileByte(v, dir, Ordinal(d.g, k, 0) * 512))
    {
      found, e := AddInSector(d, dir, sector + i, entry, k, i, v);
      if found { return; }
    }
    return false, 0;
  }

  lemma ScanOn(v: Volume, w: Volume, dir: nat, n: nat)
    requires Scanning(v, w, dir, n) && !FreeMark(FileByte(w, dir, 32 * n))
    ensures Scanning(v, w, dir, n + 1)
  {
    hide Chained, FileByte;
  }

  /** Store the entry in slot j of a sector of the directory. */
  method StoreEntry(d: Driver, dir: nat, n: nat, j: nat, entry: seq<U8>, ghost k: nat, ghost i: nat, ghost v: Volume)
    requires Scanning(v, d.Value(), dir, Ordinal(d.g, k, i) * 16 + j) && |entry| == 32 && dir !in d.sizes
    requires dir in d.chains && k < |d.chains[dir]| && i < d.g.spc && j < 16
    requires n == FileSector(d.disk, d.g, d.chains[dir], k, i) && FreeMark(d.disk[n][32 * j])
    modifies d`disk
    ensures d.Valid() && EntryAdded(v, d.Value(), dir, Ordinal(d.g, k, i) * 16 + j, entry)
  {
    hide Ordinal, FileByte, Chained, FileSector, ClusterOf;
    ghost var w := d.Value();
    ghost var e := Ordinal(d.g, k, i) * 16 + j;
    SectorFull(w, dir, k, i);
    EntryBytes(w, dir, k, i, j, 0);
    d.disk := d.disk[n := Splice(d.disk[n], 32 * j, entry)];
    assert d.Value() == WithChunk(w, dir, k, i, 32 * j, entry, 0);
    ChunkByte(w, dir, k, i, 32 * j, entry, 0, dir, 0);
    forall h, q: nat | h in d.chains
      ensures FileByte(d.Value(), h, q) ==
              if h == dir && 32 * e <= q < 32 * e + 32 then entry[q - 32 * e] else FileByte(w, h, q)
    {
      ChunkByte(w, dir, k, i, 32 * j, entry, 0, h, q);
    }
  }

  /** Growing the directory by one zeroed cluster, which then is the next to be scanned. */
  lemma ScanGrown(v: Volume, w: Volume, w': Volume, dir: nat, n: nat, c: nat)
    requires Scanning(v, w, dir, n) && w.chains == v.chains && Inv(w')
    requires w'.g == w.g && w'.sizes == w.sizes && w'.chains == Grown(w.chains, dir, c) && SameBytes(w, w')
    ensures Scanning(v, w', dir, n)
  {
    hide Chained, FileByte;
  }

  /** fat32_add_entry: it ends because a newly allocated cluster is all free slots. */
  method AddEntry(d: Driver, dir: nat, entry: seq<U8>) returns (r: int, ghost e: nat)
    requires d.Valid() && dir in d.chains && dir !in d.sizes && |entry| == 32
    modifies d`disk, d`chains
    ensures d.Valid()
    ensures r == 0 || r == -1
    ensures r == 0 ==> EntryAdded(old(d.Value()), d.Value(), dir, e, entry)
    ensures r == -1 ==> d.disk == old(d.disk) && d.chains == old(d.chains)
    ensures r == -1 <==> DiskFull(old(d.disk), d.g) && Packed(old(d.Value()), dir)
  {
    hide Ordinal, Inv, Chained, FileByte, Scanning, EntryAdded, SameBytes, DiskFull, Packed;
    ghost var v := d.Value();
    ScanStart(v, dir);
    var cluster: nat := dir;
    ghost var k: nat, grown := 0, false;
    while true
      invariant Scanning(v, d.Value(), dir, Ordinal(d.g, k, 0) * 16) && d.Valid()
      invariant dir in d.chains && k < |d.chains[dir]| && cluster == d.chains[dir][k]
      invariant !grown ==> d.Value() == v
      invariant grown ==> Chained(v.disk, v.g, v.chains) && FileByte(v, dir, Ordinal(d.g, k, 0) * 512) == 0
      invariant Fits(v.disk, v.g) && (grown ==> !DiskFull(v.disk, v.g))
      decreases !grown, |d.chains[dir]| - k
    {
      var found: bool;
      found, e := AddInCluster(d, dir, cluster, entry, k, v);
      if found {
        if !grown { SlotFree(v, d.Value(), dir, k, e, entry); }
        return 0, e;
      }
      ScanningParts(v, d.Value(), dir, Ordinal(d.g, k + 1, 0) * 16);
      ghost var w := d.Value();
      var next := NextOrAlloc(d, cluster, dir, k);
      if next == 0 {
        NoSlotFree(v, w, dir);
        return -1, 0;
      }
      if d.chains != w.chains {
        BeyondIsZero(v, dir);
        ScanGrown(v, w, d.Value(), dir, Ordinal(d.g, k + 1, 0) * 16, next);
        grown := true;
      }
      cluster, k := next, k + 1;
    }
  }

  /** An entry that fits into the chain as it was took a slot that was free. */
  lemma SlotFree(v: Volume, w: Volume, dir: nat, k: nat, e: nat, entry: seq<U8>)
    requires EntryAdded(v, w, dir, e, entry) && k < |v.chains[dir]| && e < Ordinal(v.g, k + 1, 0) * 16
    ensures !Packed(v, dir)
  {
    hide Chained, FileByte;
    MulMonotone(k + 1, |v.chains[dir]|, v.g.spc);
  }

  lemma NoSlotFree(v: Volume, w: Volume, dir: nat)
    requires dir in v.chains && Scanning(v, w, dir, Ordinal(v.g, |v.chains[dir]|, 0) * 16)
    ensures Packed(v, dir)
  {
    hide Chained, FileByte, Ordinal;
  }

  lemma ScanStart(v: Volume, dir: nat)
    requires Inv(v) && dir in v.chains
    ensures Ordinal(v.g, 0, 0) == 0 && Scanning(v, v, dir, 0) && |v.chains[dir]| > 0 && v.chains[dir][0] == dir
    ensures Fits(v.disk, v.g)
  {
    OrdinalNext(v.g, 0);
    assert IsChain(v.disk, v.g, v.chains[dir]);
  }
}
