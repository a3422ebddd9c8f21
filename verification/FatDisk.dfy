/**
 The on-disk side of kernel/fs/fat32.c as values: the sector array, the file allocation table kept
 in it, and the cluster chains.  Entries are 32 bits little endian, of which the driver uses the
 low 28, as in the section "FAT Data Structure" of the Microsoft FAT32 File System Specification.
 */
module FatDisk {
  import opened Arith

  const EOC: nat := 0x0FFF_FFF8

  type Disk = seq<seq<U8>>

  /** The part of fat32_sb_info that the operations use. */
  datatype Geometry = Geometry(fatStart: nat, dataStart: nat, spc: nat, total: nat) {
    function MaxCluster(): nat
      requires spc > 0
    {
      total / spc
    }
  }

  /** Every cluster below MaxCluster has a table slot and data sectors, table and data do not overlap. */
  ghost predicate Fits(d: Disk, g: Geometry) {
    && 0 < g.spc < 256
    && g.MaxCluster() <= EOC
    && g.fatStart + (g.MaxCluster() + 127) / 128 <= g.dataStart
    && DataFits(g, |d|)
    && g.dataStart <= |d| <= TWO32
    && forall s :: 0 <= s < |d| ==> |d[s]| == 512
  }

  /** The sectors of clusters 2 .. MaxCluster - 1, from dataStart on, lie below sector n. */
  ghost predicate DataFits(g: Geometry, n: nat)
    requires g.spc > 0
  {
    g.dataStart + g.MaxCluster() * g.spc <= n + 2 * g.spc
  }

  predicate InRange(g: Geometry, c: nat)
    requires g.spc > 0
  {
    2 <= c < g.MaxCluster()
  }

  /** The sector of the table that holds the entry of cluster c; the entry is at offset c * 4 % 512. */
  function TableSector(g: Geometry, c: nat): nat {
    g.fatStart + c * 4 / 512
  }

  /** The four bytes at an offset as a little-endian number. */
  function Le32(s: seq<U8>, off: nat): (v: U32)
    requires off + 4 <= |s|
  {
    var b0: int, b1: int, b2: int, b3: int := s[off], s[off + 1], s[off + 2], s[off + 3];
    b0 + 0x100 * b1 + 0x1_0000 * b2 + 0x100_0000 * b3
  }

  /** A number as four little-endian bytes written at an offset. */
  function PutLe32(s: seq<U8>, off: nat, v: U32): (t: seq<U8>)
    requires off + 4 <= |s|
  {
    s[off := v % 0x100][off + 1 := v / 0x100 % 0x100][off + 2 := v / 0x1_0000 % 0x100][off + 3 := v / 0x100_0000]
  }

  /** value & 0x0FFFFFFF */
  function Low28(value: U32): nat {
    value % 0x1000_0000
  }

  lemma Low28Small(value: U32)
    requires value < 0x1000_0000
    ensures Low28(value) == value
  {
  }

  /** An entry with its low 28 bits replaced and its high four bits kept. */
  function Merge28(entry: U32, value: U32): (v: U32)
    ensures Low28(v) == Low28(value) && v / 0x1000_0000 == entry / 0x1000_0000
  {
    entry / 0x1000_0000 * 0x1000_0000 + Low28(value)
  }

  lemma PutLe32Get(s: seq<U8>, off: nat, v: U32)
    requires off + 4 <= |s|
    ensures |PutLe32(s, off, v)| == |s| && Le32(PutLe32(s, off, v), off) == v
    ensures forall o: nat :: o + 4 <= |s| && (o + 4 <= off || off + 4 <= o) ==>
              Le32(PutLe32(s, off, v), o) == Le32(s, o)
  {
    LowBytes(v);
  }

  lemma TableBounds(d: Disk, g: Geometry, c: nat)
    requires Fits(d, g) && c < g.MaxCluster()
    ensures TableSector(g, c) < g.dataStart <= |d| && c * 4 % 512 + 4 <= 512
    ensures TableSector(g, c) == g.fatStart + c / 128 && c * 4 % 512 == c % 128 * 4
  {
  }

  /** The raw table entry of cluster c, all 32 bits. */
  ghost function Raw(d: Disk, g: Geometry, c: nat): U32
    requires Fits(d, g) && c < g.MaxCluster()
  {
    TableBounds(d, g, c);
    Le32(d[TableSector(g, c)], c * 4 % 512)
  }

  /** The link in the low 28 bits. */
  ghost function Next(d: Disk, g: Geometry, c: nat): nat
    requires Fits(d, g) && c < g.MaxCluster()
  {
    Low28(Raw(d, g, c))
  }

  /** The high four bits, which the driver leaves alone. */
  ghost function High(d: Disk, g: Geometry, c: nat): nat
    requires Fits(d, g) && c < g.MaxCluster()
  {
    Raw(d, g, c) / 0x1000_0000
  }

  /** Where the table keeps the link of cluster c: 128 entries to a sector, each of four bytes, low byte first,
      without the four high bits. */
  lemma LinkOnDisk(d: Disk, g: Geometry, c: nat)
    requires Fits(d, g) && c < g.MaxCluster()
    ensures g.fatStart + c / 128 < |d| && |d[g.fatStart + c / 128]| == 512
    ensures var s, o := d[g.fatStart + c / 128], c % 128 * 4;
      && Next(d, g, c) == (s[o] + s[o + 1] as int * 0x100 + s[o + 2] as int * 0x1_0000
                           + s[o + 3] as int * 0x100_0000) % 0x1000_0000
      && High(d, g, c) == s[o + 3] / 0x10
  {
    TableBounds(d, g, c);
    var s, o := d[g.fatStart + c / 128], c % 128 * 4;
    HighNibble(s[o], s[o + 1], s[o + 2], s[o + 3]);
  }

  lemma HighNibble(b0: U8, b1: U8, b2: U8, b3: U8)
    ensures (b0 + b1 as int * 0x100 + b2 as int * 0x1_0000 + b3 as int * 0x100_0000) / 0x1000_0000 == b3 / 0x10
  {
    var low := b0 + b1 as int * 0x100 + b2 as int * 0x1_0000;
    assert 0 <= low < 0x100_0000;
  }

  /** The clusters in use: numbered from 2, and whole within the volume's sectors. */
  lemma RangeIs(g: Geometry, c: nat)
    requires g.spc > 0
    ensures InRange(g, c) <==> c >= 2 && (c + 1) * g.spc <= g.total
  {
    DivModEq(g.total, g.spc);
    if c < g.MaxCluster() {
      MulMonotone(c + 1, g.MaxCluster(), g.spc);
    } else {
      MulMonotone(g.MaxCluster() + 1, c + 1, g.spc);
      assert (g.MaxCluster() + 1) * g.spc == g.MaxCluster() * g.spc + g.spc;
    }
  }

  /** Writing one entry changes that entry only, and no data sector. */
  lemma PutEntry(d: Disk, g: Geometry, c: nat, v: U32)
    requires Fits(d, g) && c < g.MaxCluster()
    ensures TableSector(g, c) < |d| && |d[TableSector(g, c)]| == 512 && c * 4 % 512 + 4 <= 512
    ensures var d' := d[TableSector(g, c) := PutLe32(d[TableSector(g, c)], c * 4 % 512, v)];
      && Fits(d', g)
      && (forall k: nat :: k < g.MaxCluster() ==> Raw(d', g, k) == if k == c then v else Raw(d, g, k))
      && (forall s :: g.dataStart <= s < |d| ==> d'[s] == d[s])
  {
    TableBounds(d, g, c);
    var sec, off := TableSector(g, c), c * 4 % 512;
    PutLe32Get(d[sec], off, v);
    var d' := d[sec := PutLe32(d[sec], off, v)];
    forall k: nat | k < g.MaxCluster() ensures Raw(d', g, k) == if k == c then v else Raw(d, g, k) {
      TableBounds(d, g, k);
      if k != c && k / 128 == c / 128 {
        assert k % 128 != c % 128;
      }
    }
  }

  // ---------------------------------------------------------------- data sectors

  /** cluster_to_sector */
  function ClusterSector(g: Geometry, c: nat): nat
    requires c >= 2
  {
    g.dataStart + (c - 2) * g.spc
  }

  lemma ClusterBounds(d: Disk, g: Geometry, c: nat)
    requires Fits(d, g) && InRange(g, c)
    ensures g.dataStart <= ClusterSector(g, c) && ClusterSector(g, c) + g.spc <= |d|
  {
    MulMonotone(c + 1, g.MaxCluster(), g.spc);
    assert (c + 1) * g.spc == (c - 2) * g.spc + 3 * g.spc;
    assert 0 <= (c - 2) * g.spc;
  }

  /** Sectors of different clusters are different. */
  lemma ClusterApart(g: Geometry, c: nat, i: nat, c': nat, i': nat)
    requires c >= 2 && c' >= 2 && i < g.spc && i' < g.spc
    requires ClusterSector(g, c) + i == ClusterSector(g, c') + i'
    ensures c == c' && i == i'
  {
    DivModUnique((c - 2) * g.spc + i, g.spc, c - 2, i);
    DivModUnique((c' - 2) * g.spc + i', g.spc, c' - 2, i');
  }

  /** A data sector write leaves the table as it is. */
  lemma DataWrite(d: Disk, g: Geometry, s: nat, data: seq<U8>)
    requires Fits(d, g) && g.dataStart <= s < |d| && |data| == 512
    ensures Fits(d[s := data], g)
    ensures forall k: nat :: k < g.MaxCluster() ==> Raw(d[s := data], g, k) == Raw(d, g, k)
  {
    forall k: nat | k < g.MaxCluster() ensures Raw(d[s := data], g, k) == Raw(d, g, k) {
      TableBounds(d, g, k);
    }
  }

  // ---------------------------------------------------------------- chains

  /** The clusters from a first cluster to an end mark, following the links. */
  ghost predicate IsChain(d: Disk, g: Geometry, ch: seq<nat>)
    requires Fits(d, g)
  {
    && |ch| > 0
    && (forall i :: 0 <= i < |ch| ==> InRange(g, ch[i]))
    && (forall i :: 0 <= i < |ch| - 1 ==> Next(d, g, ch[i]) == ch[i + 1])
    && Next(d, g, ch[|ch| - 1]) >= EOC
  }

  /** No cluster occurs twice, in one chain or in two. */
  ghost predicate Disjoint(chains: map<nat, seq<nat>>) {
    forall h, h', i, j :: h in chains && h' in chains && 0 <= i < |chains[h]| && 0 <= j < |chains[h']| ==>
      (chains[h][i] == chains[h'][j] ==> h == h' && i == j)
  }

  /** All chains end in an end mark, and they share no cluster. */
  ghost predicate Chained(d: Disk, g: Geometry, chains: map<nat, seq<nat>>) {
    && Fits(d, g)
    && (forall h :: h in chains ==> IsChain(d, g, chains[h]) && chains[h][0] == h)
    && Disjoint(chains)
  }

  lemma DisjointExtend(chains: map<nat, seq<nat>>, h: nat, c: nat)
    requires Disjoint(chains)
    requires forall h', i :: h' in chains && 0 <= i < |chains[h']| ==> chains[h'][i] != c
    ensures Disjoint(chains[h := (if h in chains then chains[h] else []) + [c]])
  {
  }

  /** A chain from its first cluster over the links in the table to an end mark. */
  lemma ChainOnDisk(d: Disk, g: Geometry, chains: map<nat, seq<nat>>, h: nat, k: nat)
    requires Chained(d, g, chains) && h in chains && k < |chains[h]|
    ensures chains[h][0] == h && 2 <= chains[h][k] && (chains[h][k] + 1) * g.spc <= g.total
    ensures chains[h][k] < g.MaxCluster()
    ensures if k + 1 < |chains[h]| then Next(d, g, chains[h][k]) == chains[h][k + 1]
            else Next(d, g, chains[h][k]) >= 0x0FFF_FFF8
  {
    hide Next, DataFits;
    assert IsChain(d, g, chains[h]) && InRange(g, chains[h][k]);
    RangeIs(g, chains[h][k]);
  }

  /** Chains only depend on the links of their own clusters. */
  lemma ChainedSame(d: Disk, d': Disk, g: Geometry, chains: map<nat, seq<nat>>)
    requires Chained(d, g, chains) && Fits(d', g)
    requires forall k: nat :: k < g.MaxCluster() ==> Raw(d', g, k) == Raw(d, g, k)
    ensures Chained(d', g, chains)
  {
  }

  /** A cluster whose entry is zero belongs to no chain. */
  lemma FreeUnchained(d: Disk, g: Geometry, chains: map<nat, seq<nat>>, c: nat, h: nat, i: nat)
    requires Chained(d, g, chains) && InRange(g, c) && Next(d, g, c) == 0
    requires h in chains && i < |chains[h]|
    ensures chains[h][i] != c
  {
    if i < |chains[h]| - 1 {
      assert Next(d, g, chains[h][i]) == chains[h][i + 1] && InRange(g, chains[h][i + 1]);
    }
  }

  /** Ending a free cluster with an end mark starts a new chain. */
  lemma NewChain(d: Disk, d': Disk, g: Geometry, chains: map<nat, seq<nat>>, c: nat)
    requires Chained(d, g, chains) && Fits(d', g) && InRange(g, c) && Next(d, g, c) == 0
    requires forall k: nat :: k < g.MaxCluster() && k != c ==> Raw(d', g, k) == Raw(d, g, k)
    requires Next(d', g, c) >= EOC
    ensures c !in chains && Chained(d', g, chains[c := [c]])
  {
    hide Raw, Geometry.MaxCluster, DataFits, Disjoint;
    forall h, i: nat | h in chains && i < |chains[h]| ensures chains[h][i] != c {
      FreeUnchained(d, g, chains, c, h, i);
    }
    forall h | h in chains ensures h != c && IsChain(d', g, chains[h]) {
      assert chains[h][0] == h;
      OtherChain(d, d', g, chains[h], c, c);
    }
    assert c !in chains && IsChain(d', g, [c]);
    DisjointExtend(chains, c, c);
    assert [] + [c] == [c];
  }

  /** A chain that has neither of two clusters stays a chain when only their entries change. */
  lemma OtherChain(d: Disk, d': Disk, g: Geometry, ch: seq<nat>, c: nat, last: nat)
    requires Fits(d, g) && Fits(d', g) && IsChain(d, g, ch)
    requires forall i :: 0 <= i < |ch| ==> ch[i] != c && ch[i] != last
    requires forall k: nat :: k < g.MaxCluster() && k != c && k != last ==> Raw(d', g, k) == Raw(d, g, k)
    ensures IsChain(d', g, ch)
  {
    hide Raw, Geometry.MaxCluster, DataFits;
  }

  /** Linking the last cluster of a chain to an end-marked free cluster extends that chain by it. */
  lemma ExtendChain(d: Disk, d': Disk, g: Geometry, chains: map<nat, seq<nat>>, h: nat, c: nat)
    requires Chained(d, g, chains) && Fits(d', g) && InRange(g, c) && Next(d, g, c) == 0 && h in chains
    requires var last := chains[h][|chains[h]| - 1];
      && (forall k: nat :: k < g.MaxCluster() && k != c && k != last ==> Raw(d', g, k) == Raw(d, g, k))
      && Next(d', g, c) >= EOC && Next(d', g, last) == c
    ensures Chained(d', g, chains[h := chains[h] + [c]])
  {
    hide Raw, Geometry.MaxCluster, DataFits;
    assert IsChain(d, g, chains[h]);
    var last := chains[h][|chains[h]| - 1];
    forall h', i: nat | h' in chains && i < |chains[h']| ensures chains[h'][i] != c {
      FreeUnchained(d, g, chains, c, h', i);
    }
    forall h' | h' in chains && h' != h ensures IsChain(d', g, chains[h']) {
      OtherChain(d, d', g, chains[h'], c, last);
    }
    LongerChain(d, d', g, chains[h], c);
    DisjointExtend(chains, h, c);
  }

  lemma LongerChain(d: Disk, d': Disk, g: Geometry, ch: seq<nat>, c: nat)
    requires Fits(d, g) && Fits(d', g) && IsChain(d, g, ch) && InRange(g, c)
    requires forall i :: 0 <= i < |ch| ==> ch[i] != c && (i < |ch| - 1 ==> ch[i] != ch[|ch| - 1])
    requires var last := ch[|ch| - 1];
      && (forall k: nat :: k < g.MaxCluster() && k != c && k != last ==> Raw(d', g, k) == Raw(d, g, k))
      && Next(d', g, c) >= EOC && Next(d', g, last) == c
    ensures IsChain(d', g, ch + [c])
  {
    hide Raw, Geometry.MaxCluster, DataFits;
  }

  /** Unlinking a one-cluster chain frees its cluster. */
  lemma DropChain(d: Disk, d': Disk, g: Geometry, chains: map<nat, seq<nat>>, c: nat)
    requires Chained(d, g, chains) && Fits(d', g) && c in chains && |chains[c]| == 1
    requires forall k: nat :: k < g.MaxCluster() && k != c ==> Raw(d', g, k) == Raw(d, g, k)
    ensures Chained(d', g, chains - {c})
  {
    forall h | h in chains && h != c ensures IsChain(d', g, chains[h]) {
      assert IsChain(d, g, chains[h]);
      assert chains[c][0] == c;
    }
  }
}
