/** File creation, and whole runs of create, write and read: every file is a byte sequence of its own. */
module FatRuns {
  import opened Arith
  import opened FatDisk
  import opened FatVolume
  import opened FatEntries
  import opened Fat32
  import opened FatFile
  import opened FatIo
  import opened FatDir
  import opened FatCatalog

  // ---------------------------------------------------------------- contents

  /** The contents of a file: its bytes up to its size. */
  ghost function Content(v: Volume, h: nat): (s: seq<U8>)
    requires Inv(v) && h in v.sizes
    ensures |s| == v.sizes[h] && forall q: nat :: q < |s| ==> s[q] == FileByte(v, h, q)
  {
    seq(v.sizes[h], q requires 0 <= q => FileByte(v, h, q))
  }

  ghost function Contents(v: Volume): (m: map<nat, seq<U8>>)
    requires Inv(v)
  {
    map h | h in v.sizes :: Content(v, h)
  }

  /** s with data written over it at an offset; a gap past the end of s reads as zero. */
  function Overlay(s: seq<U8>, offset: nat, data: seq<U8>): (t: seq<U8>)
    ensures data == [] ==> t == s
  {
    if data == [] then s
    else seq(if offset + |data| > |s| then offset + |data| else |s|, q requires 0 <= q =>
           if offset <= q < offset + |data| then data[q - offset] else if q < |s| then s[q] else 0)
  }

  /** A write overlays its data on the contents of its file and leaves the contents of every other
      file alone. */
  lemma WriteContents(v: Volume, w: Volume, h: nat, dir: nat, offset: nat, data: seq<U8>)
    requires Inv(v) && Inv(w) && Wrote(v, w, h, dir, offset, data) && dir !in v.sizes
    ensures Contents(w) == Contents(v)[h := Overlay(Content(v, h), offset, data)]
  {
    hide Chained, FileByte, ClusterOf, DirWrote, Overlay, Content;
    WriteContent(v, w, h, dir, offset, data);
    forall h' | h' in v.sizes && h' != h ensures Content(w, h') == Content(v, h') {
      assert w.sizes[h'] == v.sizes[h'];
    }
  }

  lemma WriteContent(v: Volume, w: Volume, h: nat, dir: nat, offset: nat, data: seq<U8>)
    requires Inv(v) && Inv(w) && Wrote(v, w, h, dir, offset, data) && dir !in v.sizes
    ensures h in w.sizes && Content(w, h) == Overlay(Content(v, h), offset, data)
  {
    hide Chained, FileByte, ClusterOf, DirWrote, Overlay;
    OverlayIs(Content(v, h), offset, data);
    forall q: nat | q < w.sizes[h] ensures Content(w, h)[q] == Overlay(Content(v, h), offset, data)[q] {
      assert q >= v.sizes[h] ==> FileByte(v, h, q) == 0;
    }
  }

  lemma OverlayIs(s: seq<U8>, offset: nat, data: seq<U8>)
    ensures var t := Overlay(s, offset, data);
      && |t| == (if data != [] && offset + |data| > |s| then offset + |data| else |s|)
      && forall q: nat :: q < |t| ==>
           t[q] == if offset <= q < offset + |data| then data[q - offset] else if q < |s| then s[q] else 0
  {
  }

  lemma SameContents(v: Volume, w: Volume)
    requires Inv(v) && Inv(w) && w.sizes == v.sizes
    requires forall h, q: nat :: h in v.sizes ==> FileByte(w, h, q) == FileByte(v, h, q)
    ensures Contents(w) == Contents(v)
  {
    hide Chained, FileByte, ClusterOf;
    forall h | h in v.sizes ensures Content(w, h) == Content(v, h) {
    }
  }

  /** A new file of size zero is empty and leaves the others alone. */
  lemma NewFile(v: Volume, c: nat)
    requires Inv(v) && c in v.chains && c !in v.sizes && forall q: nat :: FileByte(v, c, q) == 0
    ensures Inv(v.(sizes := v.sizes[c := 0]))
    ensures Contents(v.(sizes := v.sizes[c := 0])) == Contents(v)[c := []]
  {
    hide Chained, ClusterOf;
    var w := v.(sizes := v.sizes[c := 0]);
    assert forall h, q: nat :: h in v.chains ==> FileByte(w, h, q) == FileByte(v, h, q);
    forall h | h in v.sizes ensures Content(w, h) == Content(v, h) {
    }
    assert Content(w, c) == [];
  }

  /** Freeing the one-cluster chain that was just allocated. */
  method Unalloc(d: Driver, cluster: nat)
    requires d.Valid() && cluster in d.chains && cluster !in d.sizes && |d.chains[cluster]| == 1
    modifies d`disk, d`chains
    ensures d.Valid() && d.chains == old(d.chains) - {cluster}
    ensures forall h, q: nat :: h in d.chains ==> FileByte(d.Value(), h, q) == FileByte(old(d.Value()), h, q)
    ensures Contents(d.Value()) == Contents(old(d.Value()))
  {
    hide Geometry.MaxCluster, Disjoint, DataFits, Raw, ClusterOf, FileSector;
    ghost var v := d.Value();
    assert IsChain(d.disk, d.g, d.chains[cluster]) && d.chains[cluster][0] == cluster;
    d.WriteFatEntry(cluster, 0);
    DropChain(v.disk, d.disk, d.g, d.chains, cluster);
    d.chains := d.chains - {cluster};
    forall h, q: nat | h in d.chains ensures FileByte(d.Value(), h, q) == FileByte(v, h, q) {
      TableWriteBytes(v.disk, d.disk, d.g, v.chains[h], q);
    }
    SameContents(v, d.Value());
  }

  /** An entry added to a directory leaves the bytes of all files alone. */
  lemma EntryContents(v: Volume, w: Volume, dir: nat, e: nat, entry: seq<U8>)
    requires Inv(v) && Inv(w) && EntryAdded(v, w, dir, e, entry) && dir !in v.sizes
    ensures w.sizes == v.sizes && w.chains.Keys == v.chains.Keys && Contents(w) == Contents(v)
    ensures forall h, q: nat :: h in v.chains && h != dir ==> FileByte(w, h, q) == FileByte(v, h, q)
  {
    hide Chained, FileByte, ClusterOf;
    SameContents(v, w);
  }

  /** At most one cluster is free. */
  ghost predicate Crowded(d: Disk, g: Geometry) {
    && Fits(d, g)
    && forall j: nat, k: nat ::
         InRange(g, j) && InRange(g, k) && Next(d, g, j) == 0 && Next(d, g, k) == 0 ==> j == k
  }

  /** With all clusters taken after one allocation, at most that one was free. */
  lemma WasCrowded(d: Disk, d': Disk, g: Geometry, c: nat)
    requires Fits(d, g) && Fits(d', g) && DiskFull(d', g) && Linked(d, d', g, 0, c)
    ensures Crowded(d, g)
  {
    hide Raw, Geometry.MaxCluster, Low28;
    forall k: nat | InRange(g, k) && k != c ensures Next(d, g, k) != 0 {
      assert Raw(d', g, k) == Raw(d, g, k);
    }
  }

  /** With at most one free cluster, all are taken once that one is. */
  lemma NowFull(d: Disk, d': Disk, g: Geometry, c: nat)
    requires Fits(d, g) && Fits(d', g) && Crowded(d, g) && Linked(d, d', g, 0, c) && InRange(g, c) && Next(d, g, c) == 0
    ensures DiskFull(d', g)
  {
    hide Raw, Geometry.MaxCluster, Low28;
    forall k: nat | InRange(g, k) && k != c ensures Next(d', g, k) != 0 {
      assert Raw(d', g, k) == Raw(d, g, k);
    }
  }

  /** There is no room for a new file in directory dir: no cluster is free, or one is and the directory needs
      it for the entry. */
  ghost predicate Cramped(v: Volume, dir: nat)
    requires Chained(v.disk, v.g, v.chains) && dir in v.chains
  {
    DiskFull(v.disk, v.g) || (Crowded(v.disk, v.g) && Packed(v, dir))
  }

  /** A new chain of one cluster leaves the slots of a directory as they are. */
  lemma PackedSame(v: Volume, w: Volume, dir: nat)
    requires Chained(v.disk, v.g, v.chains) && Chained(w.disk, w.g, w.chains) && w.g == v.g
    requires dir in v.chains && dir in w.chains && w.chains[dir] == v.chains[dir] && SameBytes(v, w)
    ensures Packed(w, dir) <==> Packed(v, dir)
  {
    hide Chained, FileByte, Ordinal;
  }

  /** The new entry is the only change to the bytes of the chains there were before the allocation. */
  lemma EnteredSince(v: Volume, v1: Volume, v2: Volume, dir: nat, e: nat, entry: seq<U8>)
    requires Chained(v.disk, v.g, v.chains) && Chained(v1.disk, v1.g, v1.chains) && SameBytes(v, v1)
    requires EntryAdded(v1, v2, dir, e, entry) && dir in v.chains && v.chains.Keys <= v1.chains.Keys
    ensures Entered(v, v2, dir, e, entry)
  {
    hide Chained, FileByte;
  }

  lemma EnteredSizes(v: Volume, w: Volume, w': Volume, dir: nat, e: nat, entry: seq<U8>)
    requires Entered(v, w, dir, e, entry) && w' == w.(sizes := w'.sizes)
    ensures Entered(v, w', dir, e, entry)
  {
    hide Chained;
    assert forall h, q: nat :: FileByte(w', h, q) == FileByte(w, h, q);
  }

  /** fat32_create in directory dir: an entry that names a new file goes into the first free slot of the
      directory, and no other byte of any chain changes.  Nothing changes exactly when there is no room for it.
      The file is there when there is memory for its inode; else its cluster and its entry stay behind. */
  method Create(d: Driver, dir: nat, name: seq<U8>, memory: bool)
      returns (r: int, cluster: nat, ghost made: bool, ghost e: nat)
    requires d.Valid() && dir in d.chains && dir !in d.sizes && |name| == 11
    modifies d
    ensures d.Valid() && r == (if made && memory then 0 else -1)
    ensures Chained(old(d.disk), d.g, old(d.chains)) && (made <==> !Cramped(old(d.Value()), dir))
    ensures !made ==> d.chains == old(d.chains) && SameBytes(old(d.Value()), d.Value())
    ensures made ==> 2 <= cluster < TWO32 && cluster !in old(d.chains)
    ensures made ==> d.chains.Keys == old(d.chains).Keys + {cluster}
    ensures made ==> Entered(old(d.Value()), d.Value(), dir, e, DirEntry(name, cluster, 0, false))
    ensures made ==> FileEntered(old(d.Value()), d.Value(), dir, e, name, cluster)
    ensures made ==> var attr := FileByte(d.Value(), dir, 32 * e + 11);
              attr == 0x20 && attr / 0x10 % 2 == 0
    ensures r == 0 ==> cluster !in old(d.sizes)
    ensures d.sizes == if r == 0 then old(d.sizes)[cluster := 0] else old(d.sizes)
    ensures Contents(d.Value()) ==
            if r == 0 then Contents(old(d.Value()))[cluster := []] else Contents(old(d.Value()))
  {
    hide Inv, Chained, FileByte, Entered, Contents, Cramped, SameBytes, DirEntry, FileEntered;
    ghost var v := d.Value();
    cluster, made, e := Enter(d, dir, name);
    if cluster == 0 { return -1, 0, made, e; }
    EnteredFile(v, d.Value(), dir, e, name, cluster);
    if !memory { return -1, cluster, made, e; }
    ghost var v2 := d.Value();
    SizesChained(v);
    NewFile(v2, cluster);
    d.sizes := d.sizes[cluster := 0];
    assert d.Value() == v2.(sizes := v2.sizes[cluster := 0]);
    EnteredSizes(v, v2, d.Value(), dir, e, DirEntry(name, cluster, 0, false));
    EnteredFile(v, d.Value(), dir, e, name, cluster);
    r := 0;
  }

  /** The first two steps of fat32_create: a cluster for the file, and its entry in the directory; without room
      for the entry the cluster is given back. */
  method Enter(d: Driver, dir: nat, name: seq<U8>) returns (cluster: nat, ghost made: bool, ghost e: nat)
    requires d.Valid() && dir in d.chains && dir !in d.sizes && |name| == 11
    modifies d`disk, d`chains
    ensures d.Valid() && Contents(d.Value()) == Contents(old(d.Value())) && (made <==> cluster != 0)
    ensures Chained(old(d.disk), d.g, old(d.chains)) && (made <==> !Cramped(old(d.Value()), dir))
    ensures !made ==> d.chains == old(d.chains) && SameBytes(old(d.Value()), d.Value())
    ensures made ==> 2 <= cluster < TWO32 && cluster !in old(d.chains)
    ensures made ==> d.chains.Keys == old(d.chains).Keys + {cluster}
    ensures made ==> Entered(old(d.Value()), d.Value(), dir, e, DirEntry(name, cluster, 0, false))
    ensures made ==> FileEntered(old(d.Value()), d.Value(), dir, e, name, cluster)
    ensures made ==> forall q: nat :: FileByte(d.Value(), cluster, q) == 0
  {
    hide Inv, Chained, FileByte, EntryAdded, Entered, Contents, DiskFull, Linked, Crowded, SameBytes, DirEntry, Packed;
    hide FileEntered;
    ghost var v := d.Value();
    ChainedParts(v);
    made, e := false, 0;
    cluster := AllocEmpty(d);
    if cluster == 0 { return 0, false, 0; }
    ghost var v1 := d.Value();
    ChainedParts(v1);
    PackedSame(v, v1, dir);
    if DiskFull(v1.disk, d.g) { WasCrowded(v.disk, v1.disk, d.g, cluster); }
    if Crowded(v.disk, d.g) { NowFull(v.disk, v1.disk, d.g, cluster); }
    var r;
    r, e := AddEntry(d, dir, DirEntry(name, cluster, 0, false));
    if r < 0 {
      Unalloc(d, cluster);
      ChainedParts(d.Value());
      assert d.chains == v.chains;
      SameSince(v, v1, d.Value());
      return 0, false, 0;
    }
    made := true;
    ChainedParts(d.Value());
    EntryContents(v1, d.Value(), dir, e, DirEntry(name, cluster, 0, false));
    EnteredSince(v, v1, d.Value(), dir, e, DirEntry(name, cluster, 0, false));
    EnteredFile(v, d.Value(), dir, e, name, cluster);
  }

  lemma SameSince(v: Volume, v1: Volume, w: Volume)
    requires Chained(v.disk, v.g, v.chains) && Chained(v1.disk, v1.g, v1.chains) && Chained(w.disk, w.g, w.chains)
    requires SameBytes(v, v1) && v.chains.Keys <= v1.chains.Keys && v.chains.Keys <= w.chains.Keys
    requires forall h, q: nat :: h in w.chains ==> FileByte(w, h, q) == FileByte(v1, h, q)
    ensures SameBytes(v, w)
  {
    hide Chained, FileByte;
  }

  /** fat32_alloc_cluster(sb, 0): a new chain of one zeroed cluster. */
  method AllocEmpty(d: Driver) returns (cluster: nat)
    requires d.Valid()
    modifies d`disk, d`chains
    ensures d.Valid() && Contents(d.Value()) == Contents(old(d.Value())) && SameBytes(old(d.Value()), d.Value())
    ensures cluster == 0 ==> d.chains == old(d.chains)
    ensures Fits(old(d.disk), d.g) && Fits(d.disk, d.g) && (cluster == 0 <==> DiskFull(old(d.disk), d.g))
    ensures cluster != 0 ==> InRange(d.g, cluster) && Next(old(d.disk), d.g, cluster) == 0
    ensures cluster != 0 ==> Linked(old(d.disk), d.disk, d.g, 0, cluster)
    ensures cluster != 0 ==> cluster !in old(d.chains) && d.chains == old(d.chains)[cluster := [cluster]]
    ensures cluster != 0 ==> cluster !in d.sizes && 2 <= cluster < TWO32
    ensures cluster != 0 ==> forall q: nat :: FileByte(d.Value(), cluster, q) == 0
  {
    hide Geometry.MaxCluster, Disjoint, DataFits, Raw, ClusterOf, FileByte, Linked;
    ghost var v := d.Value();
    cluster := d.AllocCluster(0, 0);
    ZeroUnchained(v);
    SameContents(v, d.Value());
  }

  // ---------------------------------------------------------------- whole runs

  /** The 11-byte names are those fat32_format_name makes, which never begin with a zero byte. */
  datatype FatOp =
    | New(dir: nat, name: seq<U8>, memory: bool)
    | Put(file: nat, at: U32, data: seq<U8>)
    | Get(file: nat, from: U64, len: nat)

  predicate Legal(dirs: set<nat>, op: FatOp) {
    match op
    case New(dir, name, _) => dir in dirs && |name| == 11 && name[0] != 0
    case Put(_, _, data) => |data| < 0x8000_0000
    case Get(_, _, len) => len < 0x8000_0000
  }

  /** What an operation returned: the file it made, how many bytes it wrote, or the bytes it read. */
  datatype Event = Made(file: nat) | Failed | Stored(n: nat) | Fetched(bytes: seq<U8>)

  ghost predicate NoRoom(d: Disk, g: Geometry) {
    Fits(d, g) && DiskFull(d, g)
  }

  /** The effect of one operation on the contents of all files.  Creating fails exactly without memory or
      without room, and a write stops short only on a full disk. */
  ghost predicate Step(v: Volume, op: FatOp, ev: Event, w: Volume) {
    && Inv(v) && Inv(w)
    && var m, m' := Contents(v), Contents(w);
       match op
       case New(dir, _, memory) =>
         && dir in v.chains && (ev.Failed? <==> !memory || Cramped(v, dir))
         && if ev.Failed? then m' == m else ev.Made? && ev.file !in m && m' == m[ev.file := []]
       case Put(h, offset, data) =>
         if h !in m then ev == Failed && m' == m
         else
           && ev.Stored? && ev.n <= |data| && (ev.n < |data| ==> NoRoom(w.disk, w.g))
           && m' == m[h := Overlay(m[h], offset, data[..ev.n])]
       case Get(h, offset, len) =>
         && m' == m
         && ev == if h !in m then Failed else Fetched(Slice(m[h], offset, len))
  }

  /** At most len elements of s from an offset on. */
  function Slice(s: seq<U8>, offset: nat, len: nat): seq<U8> {
    if offset >= |s| then [] else if offset + len > |s| then s[offset..] else s[offset..offset + len]
  }

  /** The directories that files were opened in, after an operation: a new file is at home where it was made. */
  function Homes(homes: map<nat, nat>, op: FatOp, ev: Event): map<nat, nat> {
    if op.New? && ev.Made? then homes[ev.file := op.dir] else homes
  }

  /** Every file made under a name that does not begin with the mark of a deleted entry has a slot from then
      on, and no slot is ever lost or moved. */
  ghost predicate Slots(slots: map<nat, Slot>, op: FatOp, ev: Event, slots': map<nat, Slot>) {
    if op.New? && ev.Made? && |op.name| == 11 && op.name[0] != 0xE5 then
      ev.file in slots' && slots'[ev.file].name == op.name && slots' == slots[ev.file := slots'[ev.file]]
    else slots' == slots
  }

  method Do(d: Driver, op: FatOp, ghost dirs: set<nat>, homes: map<nat, nat>, ghost slots: map<nat, Slot>)
      returns (ev: Event, ghost slots': map<nat, Slot>)
    requires Catalog(d.Value(), dirs, homes, slots) && Legal(dirs, op)
    modifies d
    ensures Catalog(d.Value(), dirs, Homes(homes, op, ev), slots') && Slots(slots, op, ev, slots')
    ensures d.Valid() && Step(old(d.Value()), op, ev, d.Value())
  {
    hide Inv, FileByte, Content, DiskFull, Cramped, Tidy, Listed, Entered, SameBytes;
    ghost var v := d.Value();
    slots' := slots;
    match op {
      case New(dir, name, memory) =>
        ev, slots' := DoCreate(d, dir, name, memory, dirs, homes, slots);
      case Put(h, offset, data) =>
        if h !in d.sizes { return Failed, slots; }
        var n := DoWrite(d, h, offset, data, dirs, homes, slots);
        ev := Stored(n);
      case Get(h, offset, len) =>
        if h !in d.sizes { return Failed, slots; }
        var bytes := DoRead(d, h, offset, len);
        ev := Fetched(bytes);
    }
  }

  method DoCreate(d: Driver, dir: nat, name: seq<U8>, memory: bool,
                  ghost dirs: set<nat>, ghost homes: map<nat, nat>, ghost slots: map<nat, Slot>)
      returns (ev: Event, ghost slots': map<nat, Slot>)
    requires Catalog(d.Value(), dirs, homes, slots) && dir in dirs && |name| == 11 && name[0] != 0
    modifies d
    ensures d.Valid() && (ev.Failed? || ev.Made?) && Chained(old(d.disk), d.g, old(d.chains)) && dir in old(d.chains)
    ensures ev.Failed? <==> !memory || Cramped(old(d.Value()), dir)
    ensures ev.Failed? ==> Contents(d.Value()) == Contents(old(d.Value()))
    ensures ev.Made? ==> ev.file !in homes && Contents(d.Value()) == Contents(old(d.Value()))[ev.file := []]
    ensures Catalog(d.Value(), dirs, Homes(homes, New(dir, name, memory), ev), slots')
    ensures Slots(slots, New(dir, name, memory), ev, slots')
  {
    hide Inv, Chained, FileByte, Contents, Cramped, Catalog, Entered, SameBytes, DirEntry;
    ghost var v := d.Value();
    CatalogParts(v, dirs, homes, slots, dir);
    slots' := slots;
    var r, c;
    ghost var made, e;
    r, c, made, e := Create(d, dir, name, memory);
    if made {
      AddCatalog(v, d.Value(), dir, e, name, c, dirs, homes, slots);
    } else {
      QuietCatalog(v, d.Value(), dirs, homes, slots);
    }
    if r == 0 && name[0] != 0xE5 { slots' := slots[c := Slot(e, name)]; }
    ev := if r == 0 then Made(c) else Failed;
  }

  lemma CatalogParts(v: Volume, dirs: set<nat>, homes: map<nat, nat>, slots: map<nat, Slot>, dir: nat)
    requires Catalog(v, dirs, homes, slots) && dir in dirs
    ensures Inv(v) && Chained(v.disk, v.g, v.chains) && dir in v.chains && dir !in v.sizes && homes.Keys == v.sizes.Keys
  {
  }

  lemma QuietCatalog(v: Volume, w: Volume, dirs: set<nat>, homes: map<nat, nat>, slots: map<nat, Slot>)
    requires Catalog(v, dirs, homes, slots) && Inv(w) && w.sizes == v.sizes && w.chains == v.chains && SameBytes(v, w)
    ensures Catalog(w, dirs, homes, slots)
  {
    hide Inv, FileByte, Chained, Catalog;
    SameCatalog(v, w, dirs, homes, slots);
  }

  /** The number of bytes a write reports; -1, for a write that could not start, counts as none. */
  method DoWrite(d: Driver, h: nat, offset: U32, data: seq<U8>,
                 ghost dirs: set<nat>, homes: map<nat, nat>, ghost slots: map<nat, Slot>) returns (n: nat)
    requires Catalog(d.Value(), dirs, homes, slots) && h in d.sizes && |data| < 0x8000_0000
    modifies d
    ensures Catalog(d.Value(), dirs, homes, slots)
    ensures d.Valid() && n <= |data| && (n < |data| ==> NoRoom(d.disk, d.g))
    ensures Contents(d.Value()) == Contents(old(d.Value()))[h := Overlay(Content(old(d.Value()), h), offset, data[..n])]
  {
    hide Inv, FileByte, Content, Contents, DiskFull, Tidy, Listed, WroteFile, DirWrote;
    ghost var v := d.Value();
    var r, offset';
    ghost var done;
    r, offset', done := Write(d, h, homes[h], data, |data|, offset);
    n := if r == -1 then 0 else r;
    ChainedParts(d.Value());
    WriteContents(v, d.Value(), h, homes[h], offset, data[..done]);
    WriteCatalog(v, d.Value(), h, offset, data[..done], dirs, homes, slots);
  }

  method DoRead(d: Driver, h: nat, offset: U64, len: nat) returns (bytes: seq<U8>)
    requires d.Valid() && h in d.sizes && len < 0x8000_0000
    ensures bytes == Slice(Content(d.Value(), h), offset, len)
  {
    hide FileByte, Inv, ReadCount;
    var buf := new U8[len];
    SizeBound(d.Value(), h);
    if offset >= d.sizes[h] { return []; }
    ReadCountIs(len, offset, d.sizes[h]);
    var r, offset' := Read(d, h, buf, len, offset);
    bytes := buf[..r];
  }

  /** Every run of create, write and read on a well-formed volume keeps the chains well formed, treats each
      file as a byte sequence of its own, and keeps every file listed in its directory: the entry that a
      search finds has its name and its size. */
  method Replay(d: Driver, ops: seq<FatOp>, ghost dirs: set<nat>, homes: map<nat, nat>, ghost slots: map<nat, Slot>)
      returns (ghost trace: seq<Volume>, events: seq<Event>, homes': map<nat, nat>,
               ghost listings: seq<map<nat, Slot>>)
    requires Catalog(d.Value(), dirs, homes, slots) && forall op :: op in ops ==> Legal(dirs, op)
    modifies d
    ensures d.Valid() && |trace| == |listings| == |ops| + 1 && |events| == |ops|
    ensures trace[0] == old(d.Value()) && trace[|ops|] == d.Value()
    ensures forall i :: 0 <= i < |ops| ==> Step(trace[i], ops[i], events[i], trace[i + 1])
    ensures listings[0] == slots && Catalog(d.Value(), dirs, homes', listings[|ops|])
    ensures forall i :: 0 <= i < |ops| ==> Slots(listings[i], ops[i], events[i], listings[i + 1])
    ensures forall h :: h in listings[|ops|] ==>
              var s := listings[|ops|][h];
              h in homes' && h in d.sizes && FileEntry(d.Value(), homes'[h], s.e, s.name, h, d.sizes[h])
  {
    hide Inv, Step, Slots, Homes, Tidy, FileEntry, First;
    trace, events, homes', listings := [d.Value()], [], homes, [slots];
    for k := 0 to |ops|
      invariant d.Valid() && |trace| == |listings| == k + 1 && |events| == k
      invariant trace[0] == old(d.Value()) && trace[k] == d.Value()
      invariant forall i :: 0 <= i < k ==> Step(trace[i], ops[i], events[i], trace[i + 1])
      invariant listings[0] == slots && Catalog(d.Value(), dirs, homes', listings[k])
      invariant forall i :: 0 <= i < k ==> Slots(listings[i], ops[i], events[i], listings[i + 1])
    {
      assert ops[k] in ops;
      var ev;
      ghost var slots';
      ev, slots' := Do(d, ops[k], dirs, homes', listings[k]);
      homes' := Homes(homes', ops[k], ev);
      trace, events, listings := trace + [d.Value()], events + [ev], listings + [slots'];
    }
  }

  // ---------------------------------------------------------------- an empty volume to start from

  /** A disk of n sectors that is zero but for the end mark of the root directory, cluster 2. */
  function Blank(g: Geometry, n: nat): Disk {
    seq(n, i => if i == g.fatStart then PutLe32(ZeroBytes(512), 8, 0x0FFF_FFFF) else ZeroBytes(512))
  }

  ghost predicate Sane(g: Geometry, n: nat) {
    && 0 < g.spc < 256 && 2 < g.MaxCluster() <= EOC
    && g.fatStart + (g.MaxCluster() + 127) / 128 <= g.dataStart
    && DataFits(g, n) && g.dataStart <= n <= TWO32
  }

  /** The blank disk is a volume with an empty root directory. */
  lemma BlankVolume(g: Geometry, n: nat)
    requires Sane(g, n)
    ensures Chained(Blank(g, n), g, map[2 := [2]])
    ensures Catalog(Volume(g, Blank(g, n), map[2 := [2]], map[]), {2}, map[], map[])
  {
    hide Geometry.MaxCluster, DataFits, PutLe32, ClusterOf, SectorOf, Listed;
    PutLe32Get(ZeroBytes(512), 8, 0x0FFF_FFFF);
    var d := Blank(g, n);
    assert Fits(d, g);
    BlankEntry(g, n);
    var v := Volume(g, d, map[2 := [2]], map[]);
    assert Chained(d, g, v.chains) by { assert IsChain(d, g, [2]); }
    forall e: nat ensures !Live(v, 2, e) {
      assert FileByte(v, 2, 32 * e) == 0;
    }
  }

  lemma BlankEntry(g: Geometry, n: nat)
    requires Sane(g, n) && Fits(Blank(g, n), g)
    ensures Next(Blank(g, n), g, 2) >= EOC
  {
    PutLe32Get(ZeroBytes(512), 8, 0x0FFF_FFFF);
    TableBounds(Blank(g, n), g, 2);
  }

  /** Every cluster but that of the root directory is free. */
  lemma BlankFree(g: Geometry, n: nat, k: nat)
    requires Sane(g, n) && Fits(Blank(g, n), g) && 3 <= k < g.MaxCluster()
    ensures Next(Blank(g, n), g, k) == 0
  {
    hide PutLe32, DataFits, Geometry.MaxCluster;
    TableBounds(Blank(g, n), g, k);
    PutLe32Get(ZeroBytes(512), 8, 0x0FFF_FFFF);
    assert k / 128 == 0 ==> k % 128 * 4 >= 12;
  }

  lemma BlankRoomy(g: Geometry, n: nat)
    requires Sane(g, n) && Fits(Blank(g, n), g) && g.MaxCluster() >= 5
    ensures !Crowded(Blank(g, n), g)
  {
    hide Geometry.MaxCluster, DataFits, Blank, Next;
    BlankFree(g, n, 3);
    BlankFree(g, n, 4);
    assert InRange(g, 3) && InRange(g, 4);
  }

  /** A volume with room for m clusters, mounted: runs can start here. */
  method Fresh(spc: nat, m: nat) returns (d: Driver)
    requires 0 < spc < 256 && 2 < m <= EOC && 32 + m + m * spc <= TWO32
    ensures fresh(d) && Catalog(d.Value(), {2}, map[], map[]) && Contents(d.Value()) == map[]
    ensures m >= 5 ==> !Crowded(d.disk, d.g)
  {
    var g := Geometry(32, 32 + (m + 127) / 128, spc, m * spc);
    var n := g.dataStart + m * spc;
    assert Sane(g, n) by { DivModUnique(m * spc, spc, m, 0); }
    assert g.MaxCluster() == m by { DivModUnique(m * spc, spc, m, 0); }
    hide Sane, Blank, Crowded, Catalog, Geometry.MaxCluster;
    BlankVolume(g, n);
    if m >= 5 { BlankRoomy(g, n); }
    d := new Driver(g, Blank(g, n), map[2 := [2]]);
  }

  /** A file whose name begins with the mark of a deleted entry is made, and no search finds it. */
  method MarkedName(spc: nat, m: nat) returns (d: Driver, r: int, cluster: nat)
    requires 0 < spc < 256 && 5 <= m <= EOC && 32 + m + m * spc <= TWO32
    ensures d.Valid() && Chained(d.disk, d.g, d.chains) && r == 0 && cluster in d.sizes
    ensures forall e: nat :: !First(d.Value(), 2, cluster, e)
  {
    hide Inv, FileByte, Tidy, Listed, Entered, SameBytes, Contents, Crowded, Chained, First, DiskFull;
    var name: seq<U8> := [0xE5] + seq(10, _ => 0x20);
    d := Fresh(spc, m);
    ghost var v := d.Value();
    ChainedParts(v);
    if DiskFull(v.disk, v.g) { FullCrowded(v.disk, v.g); }
    ghost var made, e;
    r, cluster, made, e := Create(d, 2, name, true);
    ChainedParts(d.Value());
    NewListed(v, d.Value(), 2, e, name, cluster);
  }

  lemma FullCrowded(d: Disk, g: Geometry)
    requires Fits(d, g) && DiskFull(d, g)
    ensures Crowded(d, g)
  {
  }
}
