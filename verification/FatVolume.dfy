/**
 A FAT32 volume as a value: chains, file sizes and file bytes.  The bytes of a file are a total
 function that is zero past the clusters of its chain.
 */
module FatVolume {
  import opened Arith
  import opened FatDisk

  datatype Volume = Volume(g: Geometry, disk: Disk, chains: map<nat, seq<nat>>, sizes: map<nat, nat>)

  ghost predicate Ranged(g: Geometry, ch: seq<nat>)
    requires g.spc > 0
  {
    forall i :: 0 <= i < |ch| ==> InRange(g, ch[i])
  }

  /** The disk sector behind sector i of the k-th cluster of a file. */
  ghost function FileSector(d: Disk, g: Geometry, ch: seq<nat>, k: nat, i: nat): (n: nat)
    requires Fits(d, g) && Ranged(g, ch) && k < |ch| && i < g.spc
    ensures g.dataStart <= n < |d|
  {
    ClusterBounds(d, g, ch[k]);
    ClusterSector(g, ch[k]) + i
  }

  /** Which cluster of a file, and which of its sectors, holds byte q. */
  ghost function ClusterOf(g: Geometry, q: nat): (k: nat)
    requires g.spc > 0
  {
    q / 512 / g.spc
  }

  ghost function SectorOf(g: Geometry, q: nat): (i: nat)
    requires g.spc > 0
    ensures i < g.spc
  {
    q / 512 % g.spc
  }

  ghost function Byte(d: Disk, g: Geometry, ch: seq<nat>, q: nat): U8
    requires Fits(d, g) && Ranged(g, ch)
  {
    if ClusterOf(g, q) < |ch| then d[FileSector(d, g, ch, ClusterOf(g, q), SectorOf(g, q))][q % 512] else 0
  }

  /** Well-formed chains, long enough for their file, and files whose bytes past their size are zero. */
  ghost predicate Inv(v: Volume) {
    && Chained(v.disk, v.g, v.chains)
    && (forall h :: h in v.sizes ==> h in v.chains)
    && (forall h :: h in v.sizes && v.sizes[h] > 0 ==> ClusterOf(v.g, v.sizes[h] - 1) < |v.chains[h]|)
    && (forall h, q: nat :: h in v.sizes && q >= v.sizes[h] ==> FileByte(v, h, q) == 0)
  }

  ghost function FileByte(v: Volume, h: nat, q: nat): U8
    requires Chained(v.disk, v.g, v.chains)
  {
    if h in v.chains then Byte(v.disk, v.g, v.chains[h], q) else 0
  }

  ghost predicate SameBytes(v: Volume, w: Volume)
    requires Chained(v.disk, v.g, v.chains) && Chained(w.disk, w.g, w.chains)
  {
    forall h, q: nat :: h in v.chains ==> FileByte(w, h, q) == FileByte(v, h, q)
  }

  /** Chains and bytes look at the disk in disjoint places: table writes change no byte. */
  lemma TableWriteBytes(d: Disk, d': Disk, g: Geometry, ch: seq<nat>, q: nat)
    requires Fits(d, g) && Fits(d', g) && Ranged(g, ch) && |d| == |d'|
    requires forall s :: g.dataStart <= s < |d| ==> d'[s] == d[s]
    ensures Byte(d', g, ch, q) == Byte(d, g, ch, q)
  {
  }

  /** The sectors of all chains are different disk sectors. */
  lemma SectorApart(v: Volume, h: nat, k: nat, i: nat, h': nat, k': nat, i': nat)
    requires Chained(v.disk, v.g, v.chains) && h in v.chains && h' in v.chains
    requires k < |v.chains[h]| && k' < |v.chains[h']| && i < v.g.spc && i' < v.g.spc
    requires FileSector(v.disk, v.g, v.chains[h], k, i) == FileSector(v.disk, v.g, v.chains[h'], k', i')
    ensures h == h' && k == k' && i == i'
  {
    ClusterApart(v.g, v.chains[h][k], i, v.chains[h'][k'], i');
  }

  /** Writing one sector of file h changes the 512 bytes of that sector of that file, and nothing else. */
  lemma SectorWrite(v: Volume, h: nat, k: nat, i: nat, data: seq<U8>)
    requires Chained(v.disk, v.g, v.chains) && h in v.chains && k < |v.chains[h]| && i < v.g.spc && |data| == 512
    ensures var w := v.(disk := v.disk[FileSector(v.disk, v.g, v.chains[h], k, i) := data]);
      && Chained(w.disk, w.g, w.chains)
      && forall h', q: nat :: h' in v.chains ==>
           FileByte(w, h', q) ==
           if h' == h && ClusterOf(v.g, q) == k && SectorOf(v.g, q) == i then data[q % 512] else FileByte(v, h', q)
  {
    hide Geometry.MaxCluster, ClusterSector, ClusterOf, SectorOf, Disjoint, Next;
    var n := FileSector(v.disk, v.g, v.chains[h], k, i);
    var w := v.(disk := v.disk[n := data]);
    DataWrite(v.disk, v.g, n, data);
    ChainedSame(v.disk, w.disk, v.g, v.chains);
    forall h', q: nat | h' in v.chains
      ensures FileByte(w, h', q) ==
              if h' == h && ClusterOf(v.g, q) == k && SectorOf(v.g, q) == i then data[q % 512] else FileByte(v, h', q)
    {
      var k', i' := ClusterOf(v.g, q), SectorOf(v.g, q);
      if k' < |v.chains[h']| && FileSector(v.disk, v.g, v.chains[h'], k', i') == n {
        SectorApart(v, h, k, i, h', k', i');
      }
    }
  }

  ghost predicate ZeroSector(d: Disk, n: nat) {
    n < |d| && forall o :: 0 <= o < |d[n]| ==> d[n][o] == 0
  }

  /** A chain that grows by a zeroed cluster keeps the bytes of its file. */
  lemma ZeroClusterBytes(d: Disk, g: Geometry, ch: seq<nat>, c: nat, q: nat)
    requires Fits(d, g) && Ranged(g, ch) && InRange(g, c)
    requires forall n :: ClusterSector(g, c) <= n < ClusterSector(g, c) + g.spc ==> ZeroSector(d, n)
    ensures Ranged(g, ch + [c]) && Byte(d, g, ch + [c], q) == Byte(d, g, ch, q)
  {
    if ClusterOf(g, q) == |ch| {
      assert FileSector(d, g, ch + [c], |ch|, SectorOf(g, q)) == ClusterSector(g, c) + SectorOf(g, q);
      assert ZeroSector(d, ClusterSector(g, c) + SectorOf(g, q));
    }
  }

  /** The chains after the free cluster c was appended to chain h, or made a chain of its own. */
  ghost function Grown(chains: map<nat, seq<nat>>, h: nat, c: nat): map<nat, seq<nat>> {
    if h in chains then chains[h := chains[h] + [c]] else chains[c := [c]]
  }

  /** Data sectors outside cluster c are as before, those of cluster c are zero. */
  ghost predicate OnlyZeroed(d: Disk, d': Disk, g: Geometry, c: nat)
    requires c >= 2
  {
    && |d'| == |d|
    && (forall n :: g.dataStart <= n < |d| && !(ClusterSector(g, c) <= n < ClusterSector(g, c) + g.spc) ==>
          d'[n] == d[n])
    && (forall n :: ClusterSector(g, c) <= n < ClusterSector(g, c) + g.spc ==> ZeroSector(d', n))
  }

  /** Appending a zeroed free cluster keeps every byte of every file. */
  lemma GrownBytes(v: Volume, w: Volume, h: nat, c: nat)
    requires Chained(v.disk, v.g, v.chains) && Chained(w.disk, w.g, w.chains) && w.g == v.g && InRange(v.g, c)
    requires w.chains == Grown(v.chains, h, c) && Next(v.disk, v.g, c) == 0
    requires OnlyZeroed(v.disk, w.disk, v.g, c)
    ensures SameBytes(v, w)
    ensures h !in v.chains ==> c !in v.chains && forall q: nat :: FileByte(w, c, q) == 0
  {
    hide Geometry.MaxCluster, ClusterSector, ClusterOf, SectorOf;
    forall h', q: nat | h' in v.chains ensures FileByte(w, h', q) == FileByte(v, h', q) {
      GrownByte(v, w, h, c, h', q);
    }
    if h !in v.chains {
      NotChained(v, c);
      forall q: nat ensures FileByte(w, c, q) == 0 {
        ZeroClusterBytes(w.disk, w.g, [], c, q);
        assert [] + [c] == [c];
      }
    }
  }

  lemma NotChained(v: Volume, c: nat)
    requires Chained(v.disk, v.g, v.chains) && InRange(v.g, c) && Next(v.disk, v.g, c) == 0
    ensures c !in v.chains
  {
    if c in v.chains {
      FreeUnchained(v.disk, v.g, v.chains, c, c, 0);
    }
  }

  lemma KeptSector(v: Volume, d: Disk, c: nat, h: nat, k: nat, i: nat)
    requires Chained(v.disk, v.g, v.chains) && InRange(v.g, c) && Next(v.disk, v.g, c) == 0
    requires OnlyZeroed(v.disk, d, v.g, c) && h in v.chains && k < |v.chains[h]| && i < v.g.spc
    ensures d[FileSector(v.disk, v.g, v.chains[h], k, i)] == v.disk[FileSector(v.disk, v.g, v.chains[h], k, i)]
  {
    FreeUnchained(v.disk, v.g, v.chains, c, h, k);
    var n := FileSector(v.disk, v.g, v.chains[h], k, i);
    if ClusterSector(v.g, c) <= n < ClusterSector(v.g, c) + v.g.spc {
      ClusterApart(v.g, v.chains[h][k], i, c, n - ClusterSector(v.g, c));
    }
  }

  lemma GrownByte(v: Volume, w: Volume, h: nat, c: nat, h': nat, q: nat)
    requires Chained(v.disk, v.g, v.chains) && Chained(w.disk, w.g, w.chains) && w.g == v.g && InRange(v.g, c)
    requires w.chains == Grown(v.chains, h, c) && Next(v.disk, v.g, c) == 0
    requires OnlyZeroed(v.disk, w.disk, v.g, c) && h' in v.chains
    ensures FileByte(w, h', q) == FileByte(v, h', q)
  {
    hide Geometry.MaxCluster, ClusterSector, ClusterOf, SectorOf, Disjoint, Next, OnlyZeroed, FileSector;
    NotChained(v, c);
    var ch := v.chains[h'];
    assert IsChain(v.disk, v.g, ch);
    assert w.chains[h'] == if h' == h then ch + [c] else ch;
    SameByteBelow(v, w.disk, c, h', q);
    if h' == h { ZeroTail(v.disk, w.disk, v.g, ch, c, q); }
  }

  lemma ZeroedSince(d: Disk, d1: Disk, d2: Disk, g: Geometry, c: nat)
    requires c >= 2 && |d1| == |d| && (forall s :: g.dataStart <= s < |d| ==> d1[s] == d[s]) && OnlyZeroed(d1, d2, g, c)
    ensures OnlyZeroed(d, d2, g, c)
  {
    hide ClusterSector;
  }

  lemma ZeroUnchained(v: Volume)
    requires Chained(v.disk, v.g, v.chains)
    ensures 0 !in v.chains
  {
    assert forall h :: h in v.chains ==> InRange(v.g, v.chains[h][0]);
  }

  lemma SameByteBelow(v: Volume, d: Disk, c: nat, h: nat, q: nat)
    requires Chained(v.disk, v.g, v.chains) && Fits(d, v.g) && InRange(v.g, c) && Next(v.disk, v.g, c) == 0
    requires OnlyZeroed(v.disk, d, v.g, c) && h in v.chains && Ranged(v.g, v.chains[h])
    ensures Byte(d, v.g, v.chains[h], q) == Byte(v.disk, v.g, v.chains[h], q)
  {
    hide Geometry.MaxCluster, ClusterSector, ClusterOf, SectorOf, Next, OnlyZeroed, Chained, FileSector;
    var k, i := ClusterOf(v.g, q), SectorOf(v.g, q);
    assert Fits(v.disk, v.g) by { ChainedFits(v); }
    if k < |v.chains[h]| {
      KeptSector(v, d, c, h, k, i);
      SameSector(v.disk, d, v.g, v.chains[h], k, i);
    }
  }

  lemma ChainedFits(v: Volume)
    requires Chained(v.disk, v.g, v.chains)
    ensures Fits(v.disk, v.g)
  {
  }

  lemma SameSector(d: Disk, d': Disk, g: Geometry, ch: seq<nat>, k: nat, i: nat)
    requires Fits(d, g) && Fits(d', g) && Ranged(g, ch) && k < |ch| && i < g.spc
    ensures FileSector(d, g, ch, k, i) == FileSector(d', g, ch, k, i)
  {
  }

  lemma ZeroTail(d: Disk, d': Disk, g: Geometry, ch: seq<nat>, c: nat, q: nat)
    requires Fits(d', g) && Ranged(g, ch) && InRange(g, c) && OnlyZeroed(d, d', g, c)
    ensures Ranged(g, ch + [c]) && Byte(d', g, ch + [c], q) == Byte(d', g, ch, q)
  {
    hide Byte;
    ZeroClusterBytes(d', g, ch, c, q);
  }

  /** The table changes an allocation makes: an end mark in the free cluster, and a link to it. */
  ghost predicate Linked(d: Disk, d': Disk, g: Geometry, prev: nat, c: nat)
    requires Fits(d, g) && Fits(d', g)
  {
    && (forall k: nat :: k < g.MaxCluster() && k != c && (k != prev || prev == 0) ==> Raw(d', g, k) == Raw(d, g, k))
    && (forall k: nat :: k < g.MaxCluster() ==> High(d', g, k) == High(d, g, k))
    && (c < g.MaxCluster() ==> Next(d', g, c) == 0x0FFF_FFFF)
    && (0 < prev < g.MaxCluster() ==> Next(d', g, prev) == c)
  }

  lemma LinkedSame(d: Disk, d1: Disk, d2: Disk, g: Geometry, prev: nat, c: nat)
    requires Fits(d, g) && Fits(d1, g) && Fits(d2, g) && Linked(d, d1, g, prev, c)
    requires forall k: nat :: k < g.MaxCluster() ==> Raw(d2, g, k) == Raw(d1, g, k)
    ensures Linked(d, d2, g, prev, c)
  {
    hide Raw;
    assert forall k: nat :: k < g.MaxCluster() ==> High(d2, g, k) == High(d1, g, k);
  }

  /** The chain to extend: none for prev == 0, else the chain h whose last cluster is prev. */
  ghost predicate EndsAt(chains: map<nat, seq<nat>>, h: nat, prev: nat) {
    if prev == 0 then h == 0 else h in chains && |chains[h]| > 0 && prev == chains[h][|chains[h]| - 1]
  }

  lemma GrownChained(v: Volume, d: Disk, h: nat, prev: nat, c: nat)
    requires Chained(v.disk, v.g, v.chains) && Fits(d, v.g) && InRange(v.g, c) && Next(v.disk, v.g, c) == 0
    requires EndsAt(v.chains, h, prev) && Linked(v.disk, d, v.g, prev, c)
    ensures Chained(d, v.g, Grown(v.chains, h, c))
  {
    hide Geometry.MaxCluster;
    if prev == 0 {
      ZeroUnchained(v);
      NewChain(v.disk, d, v.g, v.chains, c);
    } else {
      ExtendChain(v.disk, d, v.g, v.chains, h, c);
    }
  }

  // ---------------------------------------------------------------- positions

  lemma MulSucc(k: nat, d: nat)
    ensures (k + 1) * d == k * d + d
  {
  }

  /** The number, within a file, of sector i of its k-th cluster. */
  ghost function Ordinal(g: Geometry, k: nat, i: nat): nat {
    k * g.spc + i
  }

  lemma OrdinalNext(g: Geometry, k: nat)
    ensures Ordinal(g, k + 1, 0) == Ordinal(g, k, 0) + g.spc
    ensures forall i: nat :: Ordinal(g, k, i) == Ordinal(g, k, 0) + i
    ensures Ordinal(g, 0, 0) == 0
  {
    MulSucc(k, g.spc);
  }

  /** Byte q lies in sector i of cluster k exactly when it lies in the file sector numbered so. */
  lemma SectorAt(g: Geometry, k: nat, i: nat, q: nat)
    requires i < g.spc
    ensures ClusterOf(g, q) == k && SectorOf(g, q) == i <==> q / 512 == Ordinal(g, k, i)
  {
    if q / 512 == k * g.spc + i {
      DivModUnique(q / 512, g.spc, k, i);
    } else {
      DivModEq(q / 512, g.spc);
    }
  }

  /** Where the bytes of a file are on the disk: the chain gives the clusters, numbered from 2 at dataStart. */
  lemma ByteOnDisk(v: Volume, h: nat, k: nat, i: nat, o: nat, n: int)
    requires Chained(v.disk, v.g, v.chains) && h in v.chains && k < |v.chains[h]| && i < v.g.spc && o < 512
    requires n == v.g.dataStart + (v.chains[h][k] - 2) * v.g.spc + i
    ensures 0 <= n < |v.disk| && |v.disk[n]| == 512 && FileByte(v, h, (k * v.g.spc + i) * 512 + o) == v.disk[n][o]
  {
    hide Geometry.MaxCluster, Chained, FileByte;
    SectorByte(v, h, k, i, o);
  }

  lemma SectorByte(v: Volume, h: nat, k: nat, i: nat, o: nat)
    requires Chained(v.disk, v.g, v.chains) && h in v.chains && k < |v.chains[h]| && i < v.g.spc && o < 512
    ensures Fits(v.disk, v.g) && Ranged(v.g, v.chains[h]) && v.chains[h][k] >= 2
    ensures |v.disk[FileSector(v.disk, v.g, v.chains[h], k, i)]| == 512
    ensures FileByte(v, h, Ordinal(v.g, k, i) * 512 + o) == v.disk[FileSector(v.disk, v.g, v.chains[h], k, i)][o]
  {
    hide Geometry.MaxCluster, Disjoint, Next, ClusterOf, SectorOf, Ordinal, FileSector;
    var q := Ordinal(v.g, k, i) * 512 + o;
    assert q / 512 == Ordinal(v.g, k, i) && q % 512 == o;
    SectorAt(v.g, k, i, q);
  }

  /** Past the last cluster of its chain a file reads as zero. */
  lemma ByteBeyond(v: Volume, h: nat, q: nat)
    requires Chained(v.disk, v.g, v.chains) && h in v.chains && q >= |v.chains[h]| * v.g.spc * 512
    ensures FileByte(v, h, q) == 0
  {
    hide Geometry.MaxCluster, Disjoint, Next, SectorOf;
    if ClusterOf(v.g, q) < |v.chains[h]| {
      DivModEq(q / 512, v.g.spc);
      MulMonotone(ClusterOf(v.g, q) + 1, |v.chains[h]|, v.g.spc);
      MulSucc(ClusterOf(v.g, q), v.g.spc);
    }
  }

  lemma InChunk(s: nat, off: nat, n: nat, q: nat)
    requires off + n <= 512
    ensures q / 512 == s && off <= q % 512 < off + n <==> s * 512 + off <= q < s * 512 + off + n
    ensures q / 512 == s ==> q % 512 - off == q - (s * 512 + off)
  {
  }
}
