/**
 The FAT32 driver, kernel/fs/fat32.c: cluster allocation, chain-walking reads and chain-extending
 writes on a sector array.
 */
module Fat32 {
  import opened Arith
  import opened FatDisk
  import opened FatVolume

  function ZeroBytes(n: nat): (s: seq<U8>)
    ensures |s| == n && forall i :: 0 <= i < n ==> s[i] == 0
  {
    seq(n, _ => 0)
  }

  class Driver {
    const g: Geometry
    var disk: Disk
    /** i_size of every file inode, by its first cluster i_ino. */
    var sizes: map<nat, nat>
    ghost var chains: map<nat, seq<nat>>

    ghost function Value(): Volume
      reads this
    {
      Volume(g, disk, chains, sizes)
    }

    ghost predicate Valid()
      reads this
    {
      Inv(Value())
    }

    /** fat32_mount, after the boot sector gave the geometry: no inode but those of directories. */
    constructor (g: Geometry, disk: Disk, ghost chains: map<nat, seq<nat>>)
      requires Chained(disk, g, chains)
      ensures Valid() && Value() == Volume(g, disk, chains, map[])
    {
      this.g, this.disk, this.chains, sizes := g, disk, chains, map[];
    }

    /** fat32_next_cluster */
    method NextCluster(cluster: nat) returns (next: nat)
      requires Fits(disk, g) && cluster < g.MaxCluster()
      ensures next == Next(disk, g, cluster)
    {
      TableBounds(disk, g, cluster);
      var sector := disk[TableSector(g, cluster)];
      next := Low28(Le32(sector, cluster * 4 % 512));
    }

    /** fat32_write_fat_entry: the low 28 bits are replaced, the high four bits stay. */
    method WriteFatEntry(cluster: nat, value: U32)
      requires Fits(disk, g) && cluster < g.MaxCluster()
      modifies this`disk
      ensures Fits(disk, g) && |disk| == |old(disk)|
      ensures forall k: nat :: k < g.MaxCluster() && k != cluster ==> Raw(disk, g, k) == Raw(old(disk), g, k)
      ensures forall k: nat :: k < g.MaxCluster() ==>
                Next(disk, g, k) == if k == cluster then Low28(value) else Next(old(disk), g, k)
      ensures forall k: nat :: k < g.MaxCluster() ==> High(disk, g, k) == High(old(disk), g, k)
      ensures forall s :: g.dataStart <= s < |disk| ==> disk[s] == old(disk)[s]
    {
      TableBounds(disk, g, cluster);
      var n, off := TableSector(g, cluster), cluster * 4 % 512;
      var v := Merge28(Le32(disk[n], off), value);
      PutEntry(disk, g, cluster, v);
      disk := disk[n := PutLe32(disk[n], off, v)];
    }

    /** fat32_find_free_cluster: the lowest free cluster, or 0 when there is none. */
    method FindFreeCluster() returns (cluster: nat)
      requires Fits(disk, g)
      ensures cluster == 0 ==> forall k: nat :: InRange(g, k) ==> Next(disk, g, k) != 0
      ensures cluster != 0 ==> InRange(g, cluster) && Next(disk, g, cluster) == 0
      ensures cluster != 0 ==> forall k: nat :: 2 <= k < cluster ==> Next(disk, g, k) != 0
    {
      cluster := 2;
      while cluster < g.MaxCluster()
        invariant cluster >= 2
        invariant forall k: nat :: 2 <= k < cluster && k < g.MaxCluster() ==> Next(disk, g, k) != 0
      {
        var val := NextCluster(cluster);
        if val == 0 { return; }
        cluster := cluster + 1;
      }
      cluster := 0;
    }

    /** The loop of fat32_alloc_cluster that clears the sectors of a cluster. */
    method ZeroCluster(cluster: nat)
      requires Fits(disk, g) && InRange(g, cluster)
      modifies this`disk
      ensures Fits(disk, g) && OnlyZeroed(old(disk), disk, g, cluster)
      ensures forall k: nat :: k < g.MaxCluster() ==> Raw(disk, g, k) == Raw(old(disk), g, k)
    {
      hide Geometry.MaxCluster;
      ClusterBounds(disk, g, cluster);
      var sector := ClusterSector(g, cluster);
      hide ClusterSector;
      for i := 0 to g.spc
        invariant Fits(disk, g) && |disk| == |old(disk)|
        invariant forall k: nat :: k < g.MaxCluster() ==> Raw(disk, g, k) == Raw(old(disk), g, k)
        invariant forall n :: g.dataStart <= n < |disk| && !(sector <= n < sector + i) ==> disk[n] == old(disk)[n]
        invariant forall n :: sector <= n < sector + i ==> ZeroSector(disk, n)
      {
        ghost var before := disk;
        DataWrite(disk, g, sector + i, ZeroBytes(512));
        disk := disk[sector + i := ZeroBytes(512)];
        assert forall n :: sector <= n < sector + i ==> (ZeroSector(before, n) ==> ZeroSector(disk, n));
      }
    }

    /** The table writes of fat32_alloc_cluster: the end mark, then the link from the previous cluster. */
    method LinkCluster(prev: nat, cluster: nat, ghost h: nat)
      requires Chained(disk, g, chains) && EndsAt(chains, h, prev) && InRange(g, cluster) && Next(disk, g, cluster) == 0
      modifies this`disk
      ensures Fits(disk, g) && Linked(old(disk), disk, g, prev, cluster) && |disk| == |old(disk)|
      ensures forall s :: g.dataStart <= s < |disk| ==> disk[s] == old(disk)[s]
    {
      hide Geometry.MaxCluster, Disjoint, DataFits, Raw, High, Next, Low28;
      Low28Small(0x0FFF_FFFF);
      Low28Small(cluster);
      WriteFatEntry(cluster, 0x0FFF_FFFF);
      if prev != 0 {
        FreeUnchained(old(disk), g, chains, cluster, h, |chains[h]| - 1);
        WriteFatEntry(prev, cluster);
      }
    }

    /** fat32_alloc_cluster: the lowest free cluster, zeroed, ends the chain h of `prev` or a new chain.
        Returns 0 and changes nothing exactly when no cluster is free. */
    method AllocCluster(prev: nat, ghost h: nat) returns (cluster: nat)
      requires Valid() && EndsAt(chains, h, prev)
      modifies this`disk, this`chains
      ensures Valid() && SameBytes(old(Value()), Value())
      ensures cluster == 0 <==> forall k: nat :: InRange(g, k) ==> Next(old(disk), g, k) != 0
      ensures cluster == 0 ==> disk == old(disk) && chains == old(chains)
      ensures cluster != 0 ==> InRange(g, cluster) && Next(old(disk), g, cluster) == 0
      ensures cluster != 0 ==> forall k: nat :: 2 <= k < cluster ==> Next(old(disk), g, k) != 0
      ensures cluster != 0 ==> chains == Grown(old(chains), h, cluster) && Linked(old(disk), disk, g, prev, cluster)
      ensures cluster != 0 && prev == 0 ==>
                cluster !in old(chains) && forall q: nat :: FileByte(Value(), cluster, q) == 0
    {
      hide Geometry.MaxCluster, Disjoint, ClusterSector, DataFits, Raw, Linked, IsChain, FileByte, OnlyZeroed,
        ClusterOf;
      ghost var v := Value();
      cluster := FindFreeCluster();
      if cluster == 0 { return; }
      LinkCluster(prev, cluster, h);
      GrownChained(v, disk, h, prev, cluster);
      chains := Grown(chains, h, cluster);
      ghost var d := disk;
      ZeroCluster(cluster);
      ZeroedSince(v.disk, d, disk, g, cluster);
      ZeroUnchained(v);
      ChainedSame(d, disk, g, chains);
      LinkedSame(v.disk, d, disk, g, prev, cluster);
      GrownBytes(v, Value(), h, cluster);
    }
  }
}
