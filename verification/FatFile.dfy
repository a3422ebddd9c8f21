/** Reading and writing files through their cluster chains: fat32_read and fat32_write. */
module FatFile {
  import opened Arith
  import opened Sequences
  import opened FatDisk
  import opened FatVolume
  import opened FatEntries
  import opened Fat32

  // ---------------------------------------------------------------- steps of a write, on values

  lemma WroteNothing(v: Volume, h: nat, dir: nat, offset: nat)
    requires Chained(v.disk, v.g, v.chains) && h in v.chains && h in v.sizes
    ensures Wrote(v, v, h, dir, offset, [])
  {
  }

  /** Growing the chain by a zeroed cluster does not count as writing. */
  lemma WroteGrow(v: Volume, w: Volume, w': Volume, h: nat, dir: nat, offset: nat, data: seq<U8>, c: nat)
    requires Wrote(v, w, h, dir, offset, data) && Chained(w'.disk, w'.g, w'.chains)
    requires w'.g == w.g && w'.sizes == w.sizes && SameBytes(w, w')
    requires w'.chains == w.chains || w'.chains == Grown(w.chains, h, c)
    ensures Wrote(v, w', h, dir, offset, data)
    ensures |w.chains[h]| <= |w'.chains[h]|
  {
    hide Chained, FileByte, First;
    assert forall q: nat :: FileByte(w', dir, q) == FileByte(w, dir, q) by { SameDirectory(w, w', dir); }
  }

  lemma SameDirectory(w: Volume, w': Volume, dir: nat)
    requires Chained(w.disk, w.g, w.chains) && Chained(w'.disk, w'.g, w'.chains) && SameBytes(w, w')
    requires dir in w'.chains ==> dir in w.chains
    ensures forall q: nat :: FileByte(w', dir, q) == FileByte(w, dir, q)
  {
  }

  /** i_size after a write that ends at a position. */
  function Enlarged(sizes: map<nat, nat>, h: nat, end: nat): map<nat, nat> {
    if h in sizes && end > sizes[h] then sizes[h := end] else sizes
  }

  /** The volume after a chunk was copied into one sector of file h, ending at a position. */
  ghost function WithChunk(w: Volume, h: nat, k: nat, i: nat, off: nat, chunk: seq<U8>, end: nat): Volume
    requires Chained(w.disk, w.g, w.chains) && h in w.chains && k < |w.chains[h]| && i < w.g.spc && off + |chunk| <= 512
  {
    var n := FileSector(w.disk, w.g, w.chains[h], k, i);
    w.(disk := w.disk[n := Splice(w.disk[n], off, chunk)], sizes := Enlarged(w.sizes, h, end))
  }

  lemma ChunkByte(w: Volume, h: nat, k: nat, i: nat, off: nat, chunk: seq<U8>, end: nat, h': nat, q: nat)
    requires Chained(w.disk, w.g, w.chains) && h in w.chains && k < |w.chains[h]| && i < w.g.spc && off + |chunk| <= 512
    requires h' in w.chains
    ensures var w' := WithChunk(w, h, k, i, off, chunk, end);
      var p := Ordinal(w.g, k, i) * 512 + off;
      && Chained(w'.disk, w'.g, w'.chains)
      && FileByte(w', h', q) == if h' == h && p <= q < p + |chunk| then chunk[q - p] else FileByte(w, h', q)
  {
    hide Geometry.MaxCluster, Disjoint, Ordinal, ClusterOf, SectorOf, ClusterSector, Byte;
    var n := FileSector(w.disk, w.g, w.chains[h], k, i);
    var s := Ordinal(w.g, k, i);
    SectorWrite(w, h, k, i, Splice(w.disk[n], off, chunk));
    SectorAt(w.g, k, i, q);
    InChunk(s, off, |chunk|, q);
    if h' == h && q / 512 == s {
      OldByte(w, h, k, i, q);
    }
  }

  lemma OldByte(w: Volume, h: nat, k: nat, i: nat, q: nat)
    requires Chained(w.disk, w.g, w.chains) && h in w.chains && k < |w.chains[h]| && i < w.g.spc
    requires ClusterOf(w.g, q) == k && SectorOf(w.g, q) == i
    ensures FileByte(w, h, q) == w.disk[FileSector(w.disk, w.g, w.chains[h], k, i)][q % 512]
  {
  }

  /** Copying the next chunk of the data into the sector that holds the current position. */
  lemma WroteChunk(v: Volume, w: Volume, h: nat, dir: nat, offset: nat, data: seq<U8>,
                   k: nat, i: nat, off: nat, chunk: seq<U8>)
    requires WroteFile(v, w, h, dir, offset, data) && h != dir
    requires k < |w.chains[h]| && i < w.g.spc && 0 < |chunk| <= 512 - off
    requires offset + |data| == Ordinal(w.g, k, i) * 512 + off
    ensures var w' := WithChunk(w, h, k, i, off, chunk, offset + |data| + |chunk|);
      && WroteFile(v, w', h, dir, offset, data + chunk)
      && forall q: nat :: FileByte(w', dir, q) == FileByte(w, dir, q)
  {
    hide Ordinal, Chained, FileByte;
    var end := offset + |data| + |chunk|;
    ChunkByte(w, h, k, i, off, chunk, end, h, 0);
    var w' := WithChunk(w, h, k, i, off, chunk, end);
    forall h', q: nat | h' in v.chains && h' != dir
      ensures FileByte(w', h', q) ==
              if h' == h && offset <= q < offset + |data + chunk| then (data + chunk)[q - offset]
              else FileByte(v, h', q)
    {
      ChunkByte(w, h, k, i, off, chunk, end, h', q);
    }
    forall q: nat ensures FileByte(w', dir, q) == FileByte(w, dir, q) {
      if dir in w.chains { ChunkByte(w, h, k, i, off, chunk, end, dir, q); } else { NoChain(w, w', dir, q); }
    }
  }

  lemma NoChain(w: Volume, w': Volume, dir: nat, q: nat)
    requires Chained(w.disk, w.g, w.chains) && Chained(w'.disk, w'.g, w'.chains)
    requires dir !in w.chains && dir !in w'.chains
    ensures FileByte(w, dir, q) == 0 == FileByte(w', dir, q)
  {
  }

  // ---------------------------------------------------------------- the driver's loops

  /** No cluster is free. */
  ghost predicate DiskFull(d: Disk, g: Geometry)
    requires Fits(d, g)
  {
    forall k: nat :: InRange(g, k) ==> Next(d, g, k) != 0
  }

  /** The next cluster of a chain, allocated if the chain ends here; 0 when the disk is full. */
  method NextOrAlloc(d: Driver, cluster: nat, ghost h: nat, ghost k: nat) returns (next: nat)
    requires d.Valid() && h in d.chains && k < |d.chains[h]| && cluster == d.chains[h][k]
    modifies d`disk, d`chains
    ensures d.Valid() && SameBytes(old(d.Value()), d.Value())
    ensures d.chains == old(d.chains) || d.chains == Grown(old(d.chains), h, next)
    ensures d.chains == old(d.chains) ==> d.disk == old(d.disk)
    ensures d.chains != old(d.chains) ==> k + 1 == |old(d.chains[h])|
    ensures d.chains != old(d.chains) ==> !DiskFull(old(d.disk), d.g)
    ensures next == 0 ==> d.chains == old(d.chains) && DiskFull(d.disk, d.g) && k + 1 == |d.chains[h]|
    ensures next != 0 ==> h in d.chains && k + 1 < |d.chains[h]| && d.chains[h][k + 1] == next
  {
    hide Geometry.MaxCluster, Disjoint, DataFits, Raw, Low28, FileByte;
    ghost var ch := d.chains[h];
    assert IsChain(d.disk, d.g, ch) && InRange(d.g, cluster);
    next := d.NextCluster(cluster);
    if next >= EOC {
      assert k == |ch| - 1;
      next := d.AllocCluster(cluster, h);
      assert next != 0 ==> |d.chains[h]| == |ch| + 1;
    } else {
      assert k < |ch| - 1 && next == ch[k + 1] && InRange(d.g, ch[k + 1]);
    }
  }

  // ---------------------------------------------------------------- the size field of a directory entry

  /** The fields of directory entry j of a sector that the driver looks at; entries are 32 bytes. */
  function EntryCluster(sector: seq<U8>, j: nat): nat
    requires |sector| == 512 && j < 16
  {
    var h0: int, h1: int, l0: int, l1: int :=
      sector[32 * j + 20], sector[32 * j + 21], sector[32 * j + 26], sector[32 * j + 27];
    (h0 + 0x100 * h1) * 0x1_0000 + l0 + 0x100 * l1
  }

  /** w is v with the size of file h stored in entry e of directory dir, which names h. */
  ghost predicate SizeStored(v: Volume, w: Volume, h: nat, dir: nat, e: nat)
    requires Chained(v.disk, v.g, v.chains) && Chained(w.disk, w.g, w.chains)
  {
    && h in v.sizes && dir in v.chains && DirCluster(v, dir, e) == h
    && forall q: nat ::
         FileByte(w, dir, q) ==
         if 32 * e + 28 <= q < 32 * e + 32 then SizeByte(v.sizes[h], q - (32 * e + 28)) else FileByte(v, dir, q)
  }

  lemma EntryBytes(v: Volume, dir: nat, k: nat, i: nat, j: nat, o: nat)
    requires Chained(v.disk, v.g, v.chains) && dir in v.chains && k < |v.chains[dir]| && i < v.g.spc && j < 16 && o < 32
    ensures v.disk[FileSector(v.disk, v.g, v.chains[dir], k, i)][32 * j + o] ==
            FileByte(v, dir, 32 * (Ordinal(v.g, k, i) * 16 + j) + o)
  {
    hide Ordinal, ClusterOf, SectorOf, Geometry.MaxCluster, FileByte;
    var q := 32 * (Ordinal(v.g, k, i) * 16 + j) + o;
    assert q / 512 == Ordinal(v.g, k, i) && q % 512 == 32 * j + o;
    SectorAt(v.g, k, i, q);
    OldByte(v, dir, k, i, q);
  }

  lemma SectorFull(v: Volume, dir: nat, k: nat, i: nat)
    requires Chained(v.disk, v.g, v.chains) && dir in v.chains && k < |v.chains[dir]| && i < v.g.spc
    ensures |v.disk[FileSector(v.disk, v.g, v.chains[dir], k, i)]| == 512
  {
  }

  /** The first-cluster field in the sector is that of the directory's bytes. */
  lemma EntryClusterIs(v: Volume, dir: nat, k: nat, i: nat, j: nat)
    requires Chained(v.disk, v.g, v.chains) && dir in v.chains && k < |v.chains[dir]| && i < v.g.spc && j < 16
    ensures var n := FileSector(v.disk, v.g, v.chains[dir], k, i);
      |v.disk[n]| == 512 && EntryCluster(v.disk[n], j) == DirCluster(v, dir, Ordinal(v.g, k, i) * 16 + j)
  {
    hide Ordinal, FileByte, FileSector, Chained;
    SectorFull(v, dir, k, i);
    EntryBytes(v, dir, k, i, j, 20);
    EntryBytes(v, dir, k, i, j, 21);
    EntryBytes(v, dir, k, i, j, 26);
    EntryBytes(v, dir, k, i, j, 27);
  }

  /** The driver's test of an entry in a sector. */
  lemma EntryNames(v: Volume, dir: nat, k: nat, i: nat, j: nat, h: nat)
    requires Chained(v.disk, v.g, v.chains) && dir in v.chains && k < |v.chains[dir]| && i < v.g.spc && j < 16
    ensures var n, e := FileSector(v.disk, v.g, v.chains[dir], k, i), Ordinal(v.g, k, i) * 16 + j;
      && |v.disk[n]| == 512 && v.disk[n][32 * j] == FileByte(v, dir, 32 * e)
      && (v.disk[n][32 * j] != 0 ==>
            (v.disk[n][32 * j] != 0xE5 && v.disk[n][32 * j + 11] != 0x0F && EntryCluster(v.disk[n], j) == h
             <==> Names(v, dir, e, h)))
  {
    hide Ordinal, FileByte, FileSector, Chained, EntryCluster, DirCluster;
    EntryClusterIs(v, dir, k, i, j);
    EntryBytes(v, dir, k, i, j, 0);
    EntryBytes(v, dir, k, i, j, 11);
  }

  datatype Hunt = Hit | Ended | Onward

  /** How the hunt for the entry of h stands: the size is stored in entry e, the first that names h; or the
      directory ended at e before it; or entries before e have been looked at. */
  ghost predicate Hunted(v: Volume, w: Volume, dir: nat, h: nat, o: Hunt, e: nat) {
    && Chained(v.disk, v.g, v.chains) && Chained(w.disk, w.g, w.chains) && Searched(v, dir, h, e)
    && match o
       case Hit => Names(v, dir, e, h) && SameExcept(v, w, dir) && SizeStored(v, w, h, dir, e)
       case Ended => w == v && FileByte(v, dir, 32 * e) == 0
       case Onward => w == v
  }

  /** The entry loop of fat32_update_inode_size over sector i of the k-th cluster. */
  method HuntInSector(d: Driver, h: nat, dir: nat, n: nat, ghost k: nat, ghost i: nat) returns (o: Hunt, ghost e: nat)
    requires h in d.sizes && Hunted(d.Value(), d.Value(), dir, h, Onward, Ordinal(d.g, k, i) * 16)
    requires dir in d.chains && k < |d.chains[dir]| && i < d.g.spc && n == FileSector(d.disk, d.g, d.chains[dir], k, i)
    modifies d`disk
    ensures Hunted(old(d.Value()), d.Value(), dir, h, o, e)
    ensures o.Onward? ==> e == Ordinal(d.g, k, i) * 16 + 16
  {
    hide Ordinal, FileByte, FileSector, Chained, SizeStored, Names, SameExcept;
    ghost var v := d.Value();
    for j := 0 to 16
      invariant d.Value() == v && Searched(v, dir, h, Ordinal(d.g, k, i) * 16 + j)
    {
      e := Ordinal(d.g, k, i) * 16 + j;
      EntryNames(v, dir, k, i, j, h);
      var bytes := d.disk[n];
      if bytes[32 * j] == 0 { return Ended, e; }
      if bytes[32 * j] != 0xE5 && bytes[32 * j + 11] != 0x0F && EntryCluster(bytes, j) == h {
        StoreSize(d, h, dir, n, k, i, j);
        return Hit, e;
      }
    }
    return Onward, Ordinal(d.g, k, i) * 16 + 16;
  }

  /** The sector loop of fat32_update_inode_size over the k-th cluster. */
  method HuntInCluster(d: Driver, h: nat, dir: nat, cluster: nat, ghost k: nat) returns (o: Hunt, ghost e: nat)
    requires h in d.sizes && Hunted(d.Value(), d.Value(), dir, h, Onward, Ordinal(d.g, k, 0) * 16)
    requires dir in d.chains && k < |d.chains[dir]| && cluster == d.chains[dir][k]
    modifies d`disk
    ensures Hunted(old(d.Value()), d.Value(), dir, h, o, e)
    ensures o.Onward? ==> e == Ordinal(d.g, k + 1, 0) * 16
  {
    hide Hunted, Ordinal, FileByte, Chained, FileSector, ClusterSector;
    ghost var v := d.Value();
    HuntParts(v, dir, h, Ordinal(d.g, k, 0) * 16);
    SectorIs(v, dir, k, cluster);
    var sector := ClusterSector(d.g, cluster);
    for i := 0 to d.g.spc
      invariant d.Value() == v && Hunted(v, v, dir, h, Onward, Ordinal(d.g, k, i) * 16)
    {
      OrdinalSector(d.g, k, i);
      o, e := HuntInSector(d, h, dir, sector + i, k, i);
      if !o.Onward? { return; }
      SameHunt(v, d.Value(), dir, h, e);
    }
    OrdinalSector(d.g, k, 0);
    return Onward, Ordinal(d.g, k + 1, 0) * 16;
  }

  lemma SectorIs(w: Volume, h: nat, k: nat, cluster: nat)
    requires Chained(w.disk, w.g, w.chains) && h in w.chains && k < |w.chains[h]| && cluster == w.chains[h][k]
    ensures w.g.spc > 0 && cluster >= 2
    ensures forall i: nat :: i < w.g.spc ==>
              FileSector(w.disk, w.g, w.chains[h], k, i) == ClusterSector(w.g, cluster) + i
  {
    assert IsChain(w.disk, w.g, w.chains[h]) && InRange(w.g, cluster);
  }

  lemma HuntParts(v: Volume, dir: nat, h: nat, e: nat)
    requires Hunted(v, v, dir, h, Onward, e)
    ensures Chained(v.disk, v.g, v.chains)
  {
  }

  lemma SameHunt(v: Volume, w: Volume, dir: nat, h: nat, e: nat)
    requires Hunted(v, w, dir, h, Onward, e)
    ensures w == v
  {
  }

  lemma OrdinalSector(g: Geometry, k: nat, i: nat)
    ensures Ordinal(g, k, i + 1) == Ordinal(g, k, i) + 1 && Ordinal(g, k, g.spc) == Ordinal(g, k + 1, 0)
  {
    MulSucc(k, g.spc);
  }

  /** fat32_update_inode_size: i_size goes into the first entry of the directory that names h, unless the
      directory ends before one; nothing but that size field changes. */
  method UpdateInodeSize(d: Driver, h: nat, dir: nat) returns (r: int, ghost e: nat)
    requires Chained(d.disk, d.g, d.chains) && h in d.sizes
    requires dir != 0 ==> dir in d.chains
    modifies d`disk
    ensures Chained(d.disk, d.g, d.chains) && (r == 0 || r == -1)
    ensures dir == 0 ==> r == -1 && d.disk == old(d.disk)
    ensures dir != 0 ==> Hunted(old(d.Value()), d.Value(), dir, h, if r == 0 then Hit else Ended, e)
    ensures SameExcept(old(d.Value()), d.Value(), dir) && Refreshed(old(d.Value()), d.Value(), h, dir)
  {
    hide Geometry.MaxCluster, Chained, Fits, Ordinal, FileByte, Hunted, Refreshed;
    e := 0;
    if dir == 0 { NoDirectory(d.Value(), h); return -1, 0; }
    ghost var k: nat, v := 0, d.Value();
    var cluster := dir;
    HuntStart(v, dir, h);
    while cluster < EOC
      invariant d.Value() == v && k <= |d.chains[dir]| && Hunted(v, v, dir, h, Onward, Ordinal(d.g, k, 0) * 16)
      invariant if cluster < EOC then k < |d.chains[dir]| && cluster == d.chains[dir][k] else k == |d.chains[dir]|
      decreases |d.chains[dir]| - k
    {
      ChainStep(v, dir, k);
      var o;
      o, e := HuntInCluster(d, h, dir, cluster, k);
      if !o.Onward? {
        HuntOver(v, d.Value(), dir, h, o, e);
        return if o.Hit? then 0 else -1, e;
      }
      SameHunt(v, d.Value(), dir, h, e);
      cluster := d.NextCluster(cluster);
      k := k + 1;
    }
    HuntEnd(v, dir, h);
    HuntOver(v, v, dir, h, Ended, Ordinal(d.g, k, 0) * 16);
    return -1, Ordinal(d.g, k, 0) * 16;
  }

  /** A link of the chain, or the end mark behind its last cluster. */
  lemma ChainStep(v: Volume, dir: nat, k: nat)
    requires Chained(v.disk, v.g, v.chains) && dir in v.chains && k < |v.chains[dir]|
    ensures Fits(v.disk, v.g) && v.chains[dir][k] < v.g.MaxCluster()
    ensures var next := Next(v.disk, v.g, v.chains[dir][k]);
      if k + 1 < |v.chains[dir]| then next == v.chains[dir][k + 1] < EOC else next >= EOC
  {
    assert IsChain(v.disk, v.g, v.chains[dir]);
  }

  lemma HuntStart(v: Volume, dir: nat, h: nat)
    requires Chained(v.disk, v.g, v.chains) && dir in v.chains
    ensures Hunted(v, v, dir, h, Onward, Ordinal(v.g, 0, 0) * 16)
    ensures |v.chains[dir]| > 0 && v.chains[dir][0] == dir && dir < EOC
  {
    assert IsChain(v.disk, v.g, v.chains[dir]);
  }

  lemma HuntOver(v: Volume, w: Volume, dir: nat, h: nat, o: Hunt, e: nat)
    requires Hunted(v, w, dir, h, o, e) && !o.Onward? && h in v.sizes
    ensures Chained(w.disk, w.g, w.chains) && SameExcept(v, w, dir) && Refreshed(v, w, h, dir)
  {
    hide Chained, FileByte, First;
    forall q: nat ensures FileByte(w, dir, q) == DirByte(v, dir, h, v.sizes[h], q) {
      HuntByte(v, w, dir, h, o, e, q);
    }
  }

  lemma HuntByte(v: Volume, w: Volume, dir: nat, h: nat, o: Hunt, e: nat, q: nat)
    requires Hunted(v, w, dir, h, o, e) && !o.Onward? && h in v.sizes
    ensures FileByte(w, dir, q) == DirByte(v, dir, h, v.sizes[h], q)
  {
    hide Chained, FileByte, DirCluster;
    assert o.Hit? ==> First(v, dir, h, e);
    if First(v, dir, h, q / 32) && o.Hit? { FirstUnique(v, dir, h, e, q / 32); }
  }

  lemma NoDirectory(v: Volume, h: nat)
    requires Chained(v.disk, v.g, v.chains) && h in v.sizes
    ensures Refreshed(v, v, h, 0)
  {
    ZeroUnchained(v);
  }

  /** Past the last cluster the bytes of the directory are zero, which ends the hunt. */
  lemma HuntEnd(v: Volume, dir: nat, h: nat)
    requires Chained(v.disk, v.g, v.chains) && dir in v.chains
    requires Hunted(v, v, dir, h, Onward, Ordinal(v.g, |v.chains[dir]|, 0) * 16)
    ensures Hunted(v, v, dir, h, Ended, Ordinal(v.g, |v.chains[dir]|, 0) * 16)
  {
    SectorAt(v.g, |v.chains[dir]|, 0, 32 * (Ordinal(v.g, |v.chains[dir]|, 0) * 16));
  }

  /** Overwrite the size field of entry j in sector i of the k-th cluster of the directory. */
  method StoreSize(d: Driver, h: nat, dir: nat, n: nat, ghost k: nat, ghost i: nat, j: nat)
    requires Chained(d.disk, d.g, d.chains) && h in d.sizes && dir in d.chains
    requires k < |d.chains[dir]| && i < d.g.spc && j < 16
    requires n == FileSector(d.disk, d.g, d.chains[dir], k, i) && EntryCluster(d.disk[n], j) == h
    modifies d`disk
    ensures Chained(d.disk, d.g, d.chains)
    ensures SameExcept(old(d.Value()), d.Value(), dir)
    ensures SizeStored(old(d.Value()), d.Value(), h, dir, Ordinal(d.g, k, i) * 16 + j)
  {
    hide Ordinal, FileByte, IsChain;
    ghost var v := d.Value();
    var chunk := Le32Bytes(d.sizes[h] % TWO32);
    EntryBytes(v, dir, k, i, j, 20);
    EntryBytes(v, dir, k, i, j, 21);
    EntryBytes(v, dir, k, i, j, 26);
    EntryBytes(v, dir, k, i, j, 27);
    d.disk := d.disk[n := Splice(d.disk[n], 32 * j + 28, chunk)];
    assert d.Value() == WithChunk(v, dir, k, i, 32 * j + 28, chunk, 0);
    forall h', q: nat | h' in d.chains
      ensures Chained(d.disk, d.g, d.chains)
      ensures FileByte(d.Value(), h', q) ==
              var p := Ordinal(d.g, k, i) * 512 + 32 * j + 28;
              if h' == dir && p <= q < p + 4 then chunk[q - p] else FileByte(v, h', q)
    {
      ChunkByte(v, dir, k, i, 32 * j + 28, chunk, 0, h', q);
    }
  }
}
