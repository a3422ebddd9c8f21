/** fat32_write and fat32_read: a file of the driver is a byte sequence. */
module FatIo {
  import opened Arith
  import opened Sequences
  import opened FatDisk
  import opened FatVolume
  import opened FatEntries
  import opened Fat32
  import opened FatFile

  /** A change inside the directory chain keeps what a write has done to the files so far. */
  lemma WroteDir(v: Volume, w: Volume, w': Volume, h: nat, dir: nat, offset: nat, data: seq<U8>)
    requires WroteFile(v, w, h, dir, offset, data) && Chained(w'.disk, w'.g, w'.chains)
    requires w'.g == w.g && w'.chains == w.chains && w'.sizes == w.sizes && SameExcept(w, w', dir)
    ensures WroteFile(v, w', h, dir, offset, data)
  {
    hide Chained, FileByte;
  }

  /** The directory after a write to h, seen before the size of h is stored. */
  lemma DirBefore(v: Volume, w: Volume, w1: Volume, h: nat, dir: nat)
    requires Chained(v.disk, v.g, v.chains) && Chained(w.disk, w.g, w.chains) && Chained(w1.disk, w1.g, w1.chains)
    requires h in v.sizes && h in w.sizes && h in w1.sizes && DirWrote(v, w, h, dir)
    requires forall q: nat :: FileByte(w1, dir, q) == FileByte(w, dir, q)
    ensures SameNames(v, w1, dir) && SameSizes(v, w1, h, dir)
    ensures w1.sizes[h] == w.sizes[h] ==> DirWrote(v, w1, h, dir)
  {
    hide Chained, FileByte, First;
    WroteNames(v, w, h, dir);
  }

  lemma LastInCluster(g: Geometry, k: nat, i: nat, end: nat)
    requires i < g.spc && Ordinal(g, k, i) * 512 < end <= Ordinal(g, k, i) * 512 + 512
    ensures ClusterOf(g, end - 1) == k
  {
    hide Ordinal, ClusterOf, SectorOf;
    assert (end - 1) / 512 == Ordinal(g, k, i);
    SectorAt(g, k, i, end - 1);
  }

  /** One round of the inner loop of fat32_write: copy a chunk into a sector of file h, and when the
      file grows, update its size in memory and in its directory entry. */
  method PutChunk(d: Driver, h: nat, dir: nat, n: nat, off: nat, chunk: seq<U8>, pos: nat,
                  ghost k: nat, ghost i: nat, ghost v: Volume, ghost offset: nat, ghost data: seq<U8>)
    requires d.Valid() && Inv(v) && Wrote(v, d.Value(), h, dir, offset, data) && h != dir && dir !in v.sizes
    requires dir != 0 ==> dir in d.chains
    requires h in d.chains && k < |d.chains[h]| && i < d.g.spc && n == FileSector(d.disk, d.g, d.chains[h], k, i)
    requires 0 < |chunk| <= 512 - off && pos == offset + |data| == Ordinal(d.g, k, i) * 512 + off
    modifies d`disk, d`sizes
    ensures d.Valid() && Wrote(v, d.Value(), h, dir, offset, data + chunk)
  {
    hide Ordinal, Chained, FileByte, ClusterOf, WroteFile, DirWrote, FileSector, SameNames, SameSizes, Refreshed;
    ghost var w := d.Value();
    WroteParts(v, w, h, dir, offset, data);
    assert n < |d.disk| && |d.disk[n]| == 512 by { SectorFull(w, h, k, i); }
    WroteChunk(v, w, h, dir, offset, data, k, i, off, chunk);
    d.disk := d.disk[n := Splice(d.disk[n], off, chunk)];
    var end := pos + |chunk|;
    ghost var w1 := WithChunk(w, h, k, i, off, chunk, end);
    WroteParts(v, w1, h, dir, offset, data + chunk);
    DirBefore(v, w, w1, h, dir);
    if end > d.sizes[h] {
      d.sizes := d.sizes[h := end];
      assert d.Value() == w1;
      ghost var e;
      var r;
      r, e := UpdateInodeSize(d, h, dir);
      WroteDir(v, w1, d.Value(), h, dir, offset, data + chunk);
      DirWroteAgain(v, w1, d.Value(), h, dir);
    } else {
      assert d.Value() == w1;
    }
    LastInCluster(d.g, k, i, end);
    WroteInv(v, d.Value(), h, dir, offset, data + chunk);
  }

  lemma WroteParts(v: Volume, w: Volume, h: nat, dir: nat, offset: nat, data: seq<U8>)
    requires WroteFile(v, w, h, dir, offset, data)
    ensures Chained(v.disk, v.g, v.chains) && Chained(w.disk, w.g, w.chains) && w.g == v.g
    ensures w.chains.Keys == v.chains.Keys && h in v.sizes && h in w.sizes && h in w.chains
    ensures v.sizes[h] <= w.sizes[h]
  {
    hide Chained, FileByte;
  }

  /** The sector loop of fat32_write over the k-th cluster of the file. */
  method WriteCluster(d: Driver, h: nat, dir: nat, cluster: nat, target: nat, buf: seq<U8>, count: nat, start: nat,
                      offset: nat, ghost k: nat, ghost v: Volume) returns (written: nat)
    requires d.Valid() && Inv(v) && start < count <= |buf| && Wrote(v, d.Value(), h, dir, offset, buf[..start])
    requires h != dir && dir !in v.sizes && (dir != 0 ==> dir in d.chains)
    requires h in d.chains && k < |d.chains[h]| && cluster == d.chains[h][k]
    requires target < d.g.spc * 512 && offset + start == Ordinal(d.g, k, 0) * 512 + target
    modifies d`disk, d`sizes
    ensures d.Valid() && start < written <= count && Wrote(v, d.Value(), h, dir, offset, buf[..written])
    ensures written < count ==> offset + written == Ordinal(d.g, k + 1, 0) * 512
  {
    hide Ordinal, FileByte, ClusterOf, WroteFile, DirWrote, Chained, FileSector, ClusterSector;
    written := start;
    var off: nat := target;
    OrdinalNext(d.g, k);
    SectorIs(d.Value(), h, k, cluster);
    var sector := ClusterSector(d.g, cluster);
    var i: nat := 0;
    while i < d.g.spc && written < count
      invariant i <= d.g.spc && start <= written <= count
      invariant d.Valid() && Wrote(v, d.Value(), h, dir, offset, buf[..written])
      invariant written < count ==> offset + written == Ordinal(d.g, k, 0) * 512 + i * 512 + off
      invariant off == 0 || (written == start && i * 512 + off == target)
      invariant written == start ==> i * 512 + off == target
      decreases d.g.spc - i
    {
      if off >= 512 {
        off := off - 512;
      } else {
        var n := 512 - off;
        if n > count - written { n := count - written; }
        SectorIs(d.Value(), h, k, cluster);
        PutChunk(d, h, dir, sector + i, off, buf[written..written + n], offset + written, k, i, v, offset,
                 buf[..written]);
        assert buf[..written] + buf[written..written + n] == buf[..written + n];
        written := written + n;
        off := 0;
      }
      i := i + 1;
    }
  }

  /** A write whose last byte is at `last` adds no cluster that begins after it. */
  ghost predicate Needed(v: Volume, w: Volume, h: nat, last: nat) {
    && h in v.chains && h in w.chains
    && (|w.chains[h]| > |v.chains[h]| ==> Ordinal(w.g, |w.chains[h]| - 1, 0) * 512 <= last)
  }

  /** The first loop of fat32_write: walk to the cluster that holds the offset, allocating zeroed
      clusters past the end of the chain.  Returns cluster 0 when the disk is full. */
  method Seek(d: Driver, h: nat, offset: nat, ghost dir: nat, ghost v: Volume)
      returns (cluster: nat, target: nat, ghost k: nat)
    requires d.Valid() && Wrote(v, d.Value(), h, dir, offset, []) && Needed(v, d.Value(), h, offset)
    modifies d`disk, d`chains
    ensures d.Valid() && Wrote(v, d.Value(), h, dir, offset, []) && Needed(v, d.Value(), h, offset)
    ensures cluster == 0 ==> DiskFull(d.disk, d.g) && Ordinal(d.g, |d.chains[h]|, 0) * 512 <= offset
    ensures cluster != 0 ==> h in d.chains && k < |d.chains[h]| && cluster == d.chains[h][k]
    ensures cluster != 0 ==> target < d.g.spc * 512 && offset == Ordinal(d.g, k, 0) * 512 + target
  {
    hide Ordinal, FileByte, WroteFile, DirWrote, Disjoint, DataFits, Geometry.MaxCluster, Grown, Chained, ClusterOf;
    WroteParts(v, d.Value(), h, dir, offset, []);
    ChainHead(d, h);
    cluster, target, k := h, offset, 0;
    OrdinalNext(d.g, 0);
    while target >= d.g.spc * 512
      invariant d.Valid() && Wrote(v, d.Value(), h, dir, offset, []) && Needed(v, d.Value(), h, offset)
      invariant h in d.chains && k < |d.chains[h]| && cluster == d.chains[h][k] && cluster != 0
      invariant offset == Ordinal(d.g, k, 0) * 512 + target
      decreases target
    {
      ghost var w := d.Value();
      var next := NextOrAlloc(d, cluster, h, k);
      WroteGrow(v, w, d.Value(), h, dir, offset, [], next);
      OrdinalNext(d.g, k);
      if next == 0 { return 0, 0, 0; }
      GrownLength(w.chains, d.chains, h, next);
      cluster, target, k := next, target - d.g.spc * 512, k + 1;
    }
  }

  lemma ChainHead(d: Driver, h: nat)
    requires d.Valid() && h in d.chains
    ensures |d.chains[h]| > 0 && d.chains[h][0] == h != 0 && d.g.spc > 0
  {
    assert IsChain(d.disk, d.g, d.chains[h]) && d.chains[h][0] == h;
  }

  /** A write in progress: `data` has reached the file, and the driver is at the k-th cluster. */
  ghost predicate Writing(d: Driver, v: Volume, h: nat, dir: nat, offset: nat, data: seq<U8>, k: nat, cluster: nat)
    reads d
  {
    && d.Valid() && Inv(v) && Wrote(v, d.Value(), h, dir, offset, data)
    && h != dir && dir !in v.sizes && (dir != 0 ==> dir in d.chains)
    && h in d.chains && k < |d.chains[h]| && cluster == d.chains[h][k]
  }

  /** The end of a round of fat32_write that has not written everything: on to the next cluster. */
  method NextForWrite(d: Driver, h: nat, dir: nat, cluster: nat, ghost offset: nat, ghost data: seq<U8>,
                      ghost k: nat, ghost v: Volume) returns (next: nat)
    requires Writing(d, v, h, dir, offset, data, k, cluster)
    modifies d`disk, d`chains
    ensures d.Valid() && Wrote(v, d.Value(), h, dir, offset, data)
    ensures next == 0 ==> DiskFull(d.disk, d.g) && d.chains == old(d.chains)
    ensures next != 0 ==> Writing(d, v, h, dir, offset, data, k + 1, next)
    ensures next != 0 ==> |d.chains[h]| == |old(d.chains[h])| || |d.chains[h]| == k + 2
  {
    hide FileByte, WroteFile, DirWrote, Chained, ClusterOf;
    ghost var w := d.Value();
    WroteParts(v, w, h, dir, offset, data);
    next := NextOrAlloc(d, cluster, h, k);
    WroteGrow(v, w, d.Value(), h, dir, offset, data, next);
    if next != 0 { GrownLength(w.chains, d.chains, h, next); }
  }

  lemma GrownLength(chains: map<nat, seq<nat>>, chains': map<nat, seq<nat>>, h: nat, c: nat)
    requires h in chains && h in chains' && (chains' == chains || chains' == Grown(chains, h, c))
    ensures |chains'[h]| == |chains[h]| || |chains'[h]| == |chains[h]| + 1
    ensures chains' != chains ==> |chains'[h]| == |chains[h]| + 1
  {
  }

  /** The outer loop of fat32_write. */
  method WriteLoop(d: Driver, h: nat, dir: nat, first: nat, start: nat, buf: seq<U8>, count: int, offset: nat,
                   ghost k0: nat, ghost v: Volume) returns (written: nat)
    requires Writing(d, v, h, dir, offset, [], k0, first) && count <= |buf|
    requires start < d.g.spc * 512 && offset == Ordinal(d.g, k0, 0) * 512 + start
    requires Needed(v, d.Value(), h, if count > 0 then offset + count - 1 else offset)
    modifies d
    ensures Needed(v, d.Value(), h, if count > 0 then offset + count - 1 else offset) && k0 < |d.chains[h]|
    ensures (written == 0 <==> count <= 0)
    ensures written <= |buf| && d.Valid() && Wrote(v, d.Value(), h, dir, offset, buf[..written])
    ensures written == (if count > 0 then count else 0) || (written < count && DiskFull(d.disk, d.g))
  {
    hide Ordinal, Inv, WroteFile, DirWrote, DiskFull;
    ghost var k: nat := k0;
    var cluster: nat, target: nat := first, start;
    written := 0;
    assert buf[..0] == [] && d.g.spc > 0;
    while written < count
      invariant written <= |buf| && (written <= count || written == 0)
      invariant k0 <= k && (written == 0 ==> k == k0 && d.chains == old(d.chains))
      invariant Needed(v, d.Value(), h, if count > 0 then offset + count - 1 else offset)
      invariant Writing(d, v, h, dir, offset, buf[..written], k, cluster)
      invariant target < d.g.spc * 512
      invariant written < count ==> offset + written == Ordinal(d.g, k, 0) * 512 + target
    {
      written := WriteCluster(d, h, dir, cluster, target, buf, count, written, offset, k, v);
      target := 0;
      if written < count {
        cluster := NextForWrite(d, h, dir, cluster, offset, buf[..written], k, v);
        if cluster == 0 { return; }
        k := k + 1;
      }
    }
  }

  /** fat32_write on the inode with first cluster h, opened in directory dir.

      `done` bytes were written at the offset: all of them, or a prefix when the disk is full.  The
      result is -1 exactly when not even the first cluster could be reached, and the file grows by no cluster
      that the write does not reach. */
  method Write(d: Driver, h: nat, dir: nat, buf: seq<U8>, count: I32, offset: U32)
      returns (r: int, offset': nat, ghost done: nat)
    requires d.Valid() && h in d.sizes && count <= |buf|
    requires dir !in d.sizes && (dir != 0 ==> dir in d.chains)
    modifies d
    ensures d.Valid() && done <= |buf| && Wrote(old(d.Value()), d.Value(), h, dir, offset, buf[..done])
    ensures offset' == offset + done
    ensures r == done || (r == -1 && done == 0)
    ensures done == (if count > 0 then count else 0) || (done < count && DiskFull(d.disk, d.g))
    ensures r == -1 ==> DiskFull(d.disk, d.g)
    ensures h in d.chains && (r == -1 <==> count != 0 && Ordinal(d.g, |d.chains[h]|, 0) * 512 <= offset)
    ensures Needed(old(d.Value()), d.Value(), h, if count > 0 then offset + count - 1 else offset)
  {
    hide Ordinal, WroteFile, DirWrote, DiskFull, FileByte, ClusterOf, IsChain, DataFits, Geometry.MaxCluster;
    ghost var v := d.Value();
    WroteNothing(v, h, dir, offset);
    assert buf[..0] == [];
    if count == 0 { return 0, offset, 0; }
    var cluster: nat, target: nat;
    ghost var k: nat;
    cluster, target, k := Seek(d, h, offset, dir, v);
    if cluster == 0 { return -1, offset, 0; }
    WroteParts(v, d.Value(), h, dir, offset, buf[..0]);
    var written := WriteLoop(d, h, dir, cluster, target, buf, count, offset, k, v);
    OrdinalAbove(d.g, k, |d.chains[h]|);
    return written, offset + written, written;
  }

  lemma OrdinalAbove(g: Geometry, k: nat, n: nat)
    requires k < n
    ensures Ordinal(g, n, 0) >= Ordinal(g, k, 0) + g.spc
  {
    MulSucc(k, g.spc);
    MulMonotone(k + 1, n, g.spc);
  }

  // ---------------------------------------------------------------- reading

  lemma InCluster(g: Geometry, k: nat, off: nat, q: nat)
    requires g.spc > 0 && q == Ordinal(g, k, 0) * 512 + off && off < g.spc * 512
    ensures ClusterOf(g, q) == k
  {
    OrdinalNext(g, k);
    hide Ordinal, ClusterOf, SectorOf;
    assert q / 512 == Ordinal(g, k, 0) + off / 512;
    SectorAt(g, k, off / 512, q);
  }

  lemma ClusterOfMonotone(g: Geometry, q: nat, q': nat)
    requires g.spc > 0 && q <= q'
    ensures ClusterOf(g, q) <= ClusterOf(g, q')
  {
    var a, b := q / 512, q' / 512;
    DivModEq(a, g.spc);
    DivModEq(b, g.spc);
    if a / g.spc > b / g.spc {
      MulMonotone(b / g.spc + 1, a / g.spc, g.spc);
      MulSucc(b / g.spc, g.spc);
      assert false;
    }
  }

  /** A position of the file that is below its size lies in the k-th cluster of its chain. */
  lemma Reachable(v: Volume, h: nat, k: nat, off: nat, q: nat)
    requires Inv(v) && h in v.sizes && q < v.sizes[h] && q == Ordinal(v.g, k, 0) * 512 + off && off < v.g.spc * 512
    ensures k < |v.chains[h]|
  {
    hide Ordinal, ClusterOf, FileByte;
    InCluster(v.g, k, off, q);
    ClusterOfMonotone(v.g, q, v.sizes[h] - 1);
  }

  lemma SectorBytes(v: Volume, h: nat, k: nat, i: nat, o: nat)
    requires Chained(v.disk, v.g, v.chains) && h in v.chains && k < |v.chains[h]| && i < v.g.spc && o < 512
    ensures v.disk[FileSector(v.disk, v.g, v.chains[h], k, i)][o] == FileByte(v, h, Ordinal(v.g, k, i) * 512 + o)
  {
    hide Ordinal, ClusterOf, SectorOf, Geometry.MaxCluster, FileByte;
    var q := Ordinal(v.g, k, i) * 512 + o;
    assert q / 512 == Ordinal(v.g, k, i) && q % 512 == o;
    SectorAt(v.g, k, i, q);
    OldByte(v, h, k, i, q);
  }

  /** The bytes read so far are the bytes of the file. */
  ghost predicate HasRead(d: Driver, h: nat, buf: seq<U8>, was: seq<U8>, offset: nat, n: nat)
    requires Chained(d.disk, d.g, d.chains)
    reads d
  {
    && n <= |buf| == |was|
    && (forall j: nat :: j < n ==> buf[j] == FileByte(d.Value(), h, offset + j))
    && (forall j: nat :: n <= j < |buf| ==> buf[j] == was[j])
  }

  lemma NothingRead(d: Driver, h: nat, was: seq<U8>, offset: nat)
    requires Chained(d.disk, d.g, d.chains)
    ensures HasRead(d, h, was, was, offset, 0)
  {
  }

  /** One round of the inner loop of fat32_read: memcpy from a sector. */
  method GetChunk(d: Driver, h: nat, n: nat, off: nat, buf: array<U8>, at: nat, len: nat,
                  ghost k: nat, ghost i: nat, ghost was: seq<U8>, ghost offset: nat)
    requires Chained(d.disk, d.g, d.chains) && h in d.chains && k < |d.chains[h]| && i < d.g.spc
    requires n == FileSector(d.disk, d.g, d.chains[h], k, i)
    requires off + len <= 512 && at + len <= buf.Length && offset + at == Ordinal(d.g, k, i) * 512 + off
    requires HasRead(d, h, buf[..], was, offset, at)
    modifies buf
    ensures HasRead(d, h, buf[..], was, offset, at + len)
  {
    hide Ordinal, FileByte, Chained, FileSector;
    SectorFull(d.Value(), h, k, i);
    var sector := d.disk[n];
    ghost var before := buf[..];
    forall j: nat | at <= j < at + len {
      buf[j] := sector[off + j - at];
    }
    forall j: nat | j < at + len ensures buf[j] == FileByte(d.Value(), h, offset + j) {
      if j >= at {
        SectorBytes(d.Value(), h, k, i, off + j - at);
      } else {
        assert buf[j] == before[j];
      }
    }
  }

  /** The sector loop of fat32_read over the k-th cluster of the file. */
  method ReadCluster(d: Driver, h: nat, cluster: nat, start: nat, buf: array<U8>, from: nat, count: nat,
                     ghost k: nat, ghost was: seq<U8>, ghost offset: nat) returns (read: nat)
    requires Chained(d.disk, d.g, d.chains) && h in d.chains && k < |d.chains[h]| && cluster == d.chains[h][k]
    requires from < count <= buf.Length && start < d.g.spc * 512 && offset + from == Ordinal(d.g, k, 0) * 512 + start
    requires HasRead(d, h, buf[..], was, offset, from)
    modifies buf
    ensures from < read <= count && HasRead(d, h, buf[..], was, offset, read)
    ensures read < count ==> offset + read == Ordinal(d.g, k + 1, 0) * 512
  {
    hide Ordinal, HasRead, ClusterOf, Chained, FileSector, ClusterSector;
    read := from;
    var off: nat := start;
    OrdinalNext(d.g, k);
    SectorIs(d.Value(), h, k, cluster);
    var sector := ClusterSector(d.g, cluster);
    var i: nat := 0;
    while i < d.g.spc && read < count
      invariant i <= d.g.spc && from <= read <= count
      invariant HasRead(d, h, buf[..], was, offset, read)
      invariant read < count ==> offset + read == Ordinal(d.g, k, 0) * 512 + i * 512 + off
      invariant off == 0 || (read == from && i * 512 + off == start)
      invariant read == from ==> i * 512 + off == start
      decreases d.g.spc - i
    {
      if off >= 512 {
        off := off - 512;
      } else {
        var n := 512 - off;
        if n > count - read { n := count - read; }
        GetChunk(d, h, sector + i, off, buf, read, n, k, i, was, offset);
        read := read + n;
        off := 0;
      }
      i := i + 1;
    }
  }

  /** skip_clusters and cluster_offset of a file offset. */
  method SplitOffset(g: Geometry, offset: nat) returns (skip: nat, off: nat)
    requires g.spc > 0
    ensures offset == Ordinal(g, skip, 0) * 512 + off && off < g.spc * 512
  {
    hide Ordinal;
    var bytesPerCluster := g.spc * 512;
    skip, off := DivRem(offset, bytesPerCluster);
    SkipClusters(g, skip, bytesPerCluster);
  }

  method DivRem(n: nat, d: nat) returns (q: nat, r: nat)
    requires d > 0
    ensures n == q * d + r && r < d
  {
    q, r := n / d, n % d;
  }

  lemma SkipClusters(g: Geometry, skip: nat, b: nat)
    requires b == g.spc * 512
    ensures skip * b == Ordinal(g, skip, 0) * 512
  {
    assert skip * (g.spc * 512) == skip * g.spc * 512;
  }

  /** The first loop of fat32_read: follow `skip` links from the first cluster. */
  method SkipTo(d: Driver, h: nat, skip: nat) returns (cluster: nat)
    requires Chained(d.disk, d.g, d.chains) && h in d.chains && skip < |d.chains[h]|
    ensures cluster == d.chains[h][skip]
  {
    hide Disjoint, DataFits, Geometry.MaxCluster;
    cluster := h;
    assert IsChain(d.disk, d.g, d.chains[h]) && d.chains[h][0] == h;
    for i := 0 to skip
      invariant cluster == d.chains[h][i]
    {
      assert InRange(d.g, d.chains[h][i + 1]);
      cluster := d.NextCluster(cluster);
    }
  }

  /** A file is shorter than 2^45 bytes: no chain is longer than the table. */
  lemma SizeBound(v: Volume, h: nat)
    requires Inv(v) && h in v.sizes
    ensures v.sizes[h] < 0x2000_0000_0000
  {
    hide ClusterOf, FileByte, Next;
    var n, ch := v.sizes[h], v.chains[h];
    assert IsChain(v.disk, v.g, ch);
    UniqueBound(ch, EOC) by { assert forall i :: 0 <= i < |ch| ==> InRange(v.g, ch[i]); }
    if n > 0 { ClusterStart(v.g, n - 1, |ch|); }
  }

  lemma ClusterStart(g: Geometry, q: nat, k: nat)
    requires 0 < g.spc < 256 && ClusterOf(g, q) < k <= EOC
    ensures q < 0x1FFF_FFFF_0000
  {
    DivModEq(q / 512, g.spc);
    var c := q / 512 / g.spc;
    MulMonotone(c, EOC - 1, g.spc);
    MulMonotone(g.spc, 255, EOC - 1);
  }

  /** The count that fat32_read goes on with: an `int` compared as an unsigned 64-bit sum, and cut to the rest
      of the file. */
  function ReadCount(len: I32, offset: U64, size: nat): int {
    if offset >= size then 0
    else if (offset + len) % TWO64 > size then
      var rest := (size - offset) % TWO32;
      if rest < 0x8000_0000 then rest else rest - TWO32
    else len
  }

  /** For a count that is not negative this is the count cut at the end of the file.  A negative count that
      reaches back before the start of the file asks for the whole rest of it. */
  lemma ReadCountIs(len: I32, offset: U64, size: nat)
    requires offset < size < 0x2000_0000_0000
    ensures len >= 0 ==> ReadCount(len, offset, size) == if offset + len > size then size - offset else len
    ensures len < 0 && offset + len < 0 && size - offset < 0x8000_0000 ==> ReadCount(len, offset, size) == size - offset
    ensures len < 0 && offset + len < 0 ==>
              (ReadCount(len, offset, size) - (size - offset)) % 0x1_0000_0000 == 0
    ensures -0x8000_0000 <= ReadCount(len, offset, size) < 0x8000_0000
    ensures len < 0 && offset + len >= 0 ==> ReadCount(len, offset, size) == len
    ensures ReadCount(len, offset, size) <= size - offset
  {
    if offset + len < 0 {
      assert (offset + len) % TWO64 == offset + len + TWO64;
    } else {
      assert (offset + len) % TWO64 == offset + len;
    }
  }

  /** fat32_read on the inode with first cluster h: the bytes of the file at the offset, cut at i_size. */
  method Read(d: Driver, h: nat, buf: array<U8>, len: I32, offset: U64) returns (r: int, offset': nat)
    requires d.Valid() && h in d.sizes && ReadCount(len, offset, d.sizes[h]) <= buf.Length
    modifies buf
    ensures r == if ReadCount(len, offset, d.sizes[h]) > 0 then ReadCount(len, offset, d.sizes[h]) else 0
    ensures 0 <= r <= buf.Length && (0 < r ==> offset + r <= d.sizes[h] < 0x2000_0000_0000)
    ensures offset' == offset + r
    ensures forall j: nat :: j < r ==> buf[j] == FileByte(d.Value(), h, offset + j)
    ensures forall j: nat :: r <= j < buf.Length ==> buf[j] == old(buf[j])
  {
    hide Ordinal, ClusterOf, Chained, ReadCount;
    var count := len;
    if offset >= d.sizes[h] { NoRest(len, offset, d.sizes[h]); return 0, offset; }
    SizeBound(d.Value(), h);
    ReadCountIs(len, offset, d.sizes[h]);
    count := ReadCount(len, offset, d.sizes[h]);
    assert d.g.spc > 0 by { SpcPositive(d.Value()); }
    var skip, off := SplitOffset(d.g, offset);
    Reachable(d.Value(), h, skip, off, offset);
    var cluster := SkipTo(d, h, skip);
    if count <= 0 { return 0, offset; }
    var read := ReadLoop(d, h, cluster, off, buf, count, skip, offset);
    return read, offset + read;
  }

  lemma NoRest(len: I32, offset: U64, size: nat)
    requires offset >= size
    ensures ReadCount(len, offset, size) == 0
  {
  }

  lemma SpcPositive(v: Volume)
    requires Chained(v.disk, v.g, v.chains)
    ensures v.g.spc > 0
  {
  }

  /** The outer loop of fat32_read. */
  method ReadLoop(d: Driver, h: nat, first: nat, start: nat, buf: array<U8>, count: nat,
                  ghost k0: nat, ghost offset: nat) returns (read: nat)
    requires d.Valid() && h in d.sizes && count <= buf.Length && offset + count <= d.sizes[h]
    requires k0 < |d.chains[h]| && first == d.chains[h][k0]
    requires start < d.g.spc * 512 && offset == Ordinal(d.g, k0, 0) * 512 + start
    modifies buf
    ensures read == count && HasRead(d, h, buf[..], old(buf[..]), offset, count)
  {
    hide Ordinal, ClusterOf, DataFits, Disjoint, Geometry.MaxCluster, FileByte, HasRead;
    ghost var was := buf[..];
    NothingRead(d, h, was, offset);
    ghost var k: nat := k0;
    var cluster: nat, off: nat := first, start;
    read := 0;
    while read < count
      invariant read <= count && HasRead(d, h, buf[..], was, offset, read)
      invariant off < d.g.spc * 512
      invariant read < count ==> offset + read == Ordinal(d.g, k, 0) * 512 + off
      invariant read < count ==> k < |d.chains[h]| && cluster == d.chains[h][k]
    {
      assert IsChain(d.disk, d.g, d.chains[h]) && InRange(d.g, cluster);
      if cluster >= EOC { break; }
      read := ReadCluster(d, h, cluster, off, buf, read, count, k, was, offset);
      off := 0;
      if read < count { Reachable(d.Value(), h, k + 1, 0, offset + read); }
      cluster := d.NextCluster(cluster);
      k := k + 1;
    }
  }
}
