/** What the directories say about the files, and that writes and new entries keep it true. */
module FatCatalog {
  import opened Arith
  import opened FatDisk
  import opened FatVolume
  import opened FatEntries
  import opened FatDir

  /** Where a file is listed: entry e of its directory, under an 11-byte name. */
  datatype Slot = Slot(e: nat, name: seq<U8>)

  /** A search of dir for h finds the entry of the slot, and it is that of a regular file with the name and the
      size. */
  ghost predicate Listed(v: Volume, dir: nat, s: Slot, h: nat, size: nat)
    requires Chained(v.disk, v.g, v.chains)
  {
    First(v, dir, h, s.e) && FileEntry(v, dir, s.e, s.name, h, size)
  }

  /** Every live entry names a chain of the volume, or cluster 0 or 1. */
  ghost predicate Tidy(v: Volume, dir: nat)
    requires Chained(v.disk, v.g, v.chains)
  {
    forall e: nat :: Live(v, dir, e) ==> DirCluster(v, dir, e) in v.chains || DirCluster(v, dir, e) < 2
  }

  /** The directories are chains and no files; every file has a home among them; and the files with a slot
      are listed there. */
  ghost predicate Catalog(v: Volume, dirs: set<nat>, homes: map<nat, nat>, slots: map<nat, Slot>) {
    && Inv(v) && dirs <= v.chains.Keys && dirs !! v.sizes.Keys
    && homes.Keys == v.sizes.Keys && (forall h :: h in homes ==> homes[h] in dirs)
    && (forall dir :: dir in dirs ==> Tidy(v, dir))
    && (forall h :: h in slots ==> h in homes && Listed(v, homes[h], slots[h], h, v.sizes[h]))
  }

  // ---------------------------------------------------------------- writes

  lemma SameBytesListed(v: Volume, w: Volume, dir: nat, s: Slot, h: nat, size: nat)
    requires Chained(v.disk, v.g, v.chains) && Chained(w.disk, w.g, w.chains) && Listed(v, dir, s, h, size)
    requires forall q: nat :: FileByte(w, dir, q) == FileByte(v, dir, q)
    ensures Listed(w, dir, s, h, size)
  {
    hide Chained, FileByte, First, FileEntry;
    SameFirst(v, w, dir, h, s.e);
    SameEntry(v, w, dir, s.e, s.name, h, size);
  }

  /** A write to h, through its directory, keeps every listing and brings the one of h up to date. */
  lemma WriteListed(v: Volume, w: Volume, h: nat, dir: nat, h': nat, s: Slot)
    requires Chained(v.disk, v.g, v.chains) && Chained(w.disk, w.g, w.chains)
    requires h in v.sizes && h in w.sizes && h' in v.sizes && h' in w.sizes && (h' != h ==> w.sizes[h'] == v.sizes[h'])
    requires DirWrote(v, w, h, dir) && Listed(v, dir, s, h', v.sizes[h'])
    ensures Listed(w, dir, s, h', w.sizes[h'])
  {
    hide Chained, FileByte, Searched, SizeByte, DirCluster, Live, FileEntry;
    WroteNames(v, w, h, dir);
    SameFirst(v, w, dir, h', s.e);
    forall q: nat | 32 * s.e <= q < 32 * s.e + 28 ensures FileByte(w, dir, q) == FileByte(v, dir, q) {
      assert q % 32 == q - 32 * s.e;
    }
    if h' == h && w.sizes[h] != v.sizes[h] {
      forall o: nat | o < 4 ensures FileByte(w, dir, 32 * s.e + 28 + o) == SizeByte(w.sizes[h], o) {
        var q := 32 * s.e + 28 + o;
        assert q % 32 == 28 + o && q / 32 == s.e;
      }
      ResizedEntry(v, w, dir, s.e, s.name, h, v.sizes[h], w.sizes[h]);
    } else {
      forall q: nat | 32 * s.e + 28 <= q < 32 * s.e + 32 ensures FileByte(w, dir, q) == FileByte(v, dir, q) {
        assert q / 32 == s.e && (h' != h ==> !First(v, dir, h, s.e));
      }
      SameEntry(v, w, dir, s.e, s.name, h', v.sizes[h']);
    }
  }

  lemma WriteTidy(v: Volume, w: Volume, dir: nat)
    requires Chained(v.disk, v.g, v.chains) && Chained(w.disk, w.g, w.chains) && w.chains.Keys == v.chains.Keys
    requires SameNames(v, w, dir) && Tidy(v, dir)
    ensures Tidy(w, dir)
  {
    hide Chained, FileByte, DirCluster, Live, SameNames;
    forall e: nat | Live(w, dir, e) ensures DirCluster(w, dir, e) in w.chains || DirCluster(w, dir, e) < 2 {
      SameLive(v, w, dir, e);
    }
  }

  lemma WriteCatalog(v: Volume, w: Volume, h: nat, offset: nat, data: seq<U8>,
                     dirs: set<nat>, homes: map<nat, nat>, slots: map<nat, Slot>)
    requires Catalog(v, dirs, homes, slots) && Inv(w) && h in homes && Wrote(v, w, h, homes[h], offset, data)
    ensures Catalog(w, dirs, homes, slots)
  {
    hide Inv, Chained, FileByte, Listed, Tidy, DirWrote, SameNames;
    ChainedParts(v);
    ChainedParts(w);
    WroteNames(v, w, h, homes[h]);
    forall dir | dir in dirs ensures Tidy(w, dir) {
      if dir != homes[h] { OtherDirectory(v, w, dir); }
      WriteTidy(v, w, dir);
    }
    forall h' | h' in slots ensures Listed(w, homes[h'], slots[h'], h', w.sizes[h']) {
      if homes[h'] == homes[h] {
        WriteListed(v, w, h, homes[h], h', slots[h']);
      } else {
        SameBytesListed(v, w, homes[h'], slots[h'], h', v.sizes[h']);
      }
    }
  }

  lemma ChainedParts(v: Volume)
    requires Inv(v)
    ensures Chained(v.disk, v.g, v.chains)
  {
  }

  lemma OtherDirectory(v: Volume, w: Volume, dir: nat)
    requires Chained(v.disk, v.g, v.chains) && Chained(w.disk, w.g, w.chains)
    requires forall q: nat :: FileByte(w, dir, q) == FileByte(v, dir, q)
    ensures SameNames(v, w, dir)
  {
  }

  // ---------------------------------------------------------------- new entries

  /** The entry fat32_add_entry stores: name, attributes, first cluster and size, all else zero. */
  function DirEntry(name: seq<U8>, cluster: U32, size: U32, isDir: bool): (s: seq<U8>)
    requires |name| == 11
    ensures |s| == 32
  {
    name + [if isDir then 0x10 else 0x20] + [0, 0, 0, 0, 0, 0, 0, 0]
    + [cluster / 0x1_0000 % 0x100, cluster / 0x100_0000] + [0, 0, 0, 0]
    + [cluster % 0x100, cluster / 0x100 % 0x100] + Le32Bytes(size)
  }

  /** The stored entry byte by byte. */
  lemma DirEntryBytes(name: seq<U8>, cluster: U32, size: U32, isDir: bool)
    requires |name| == 11
    ensures var s := DirEntry(name, cluster, size, isDir);
      && s[..11] == name && s[11] == (if isDir then 0x10 else 0x20)
      && (forall i :: 12 <= i < 20 || 22 <= i < 26 ==> s[i] == 0)
      && s[26] + s[27] as int * 0x100 + s[20] as int * 0x1_0000 + s[21] as int * 0x100_0000 == cluster
      && s[28] + s[29] as int * 0x100 + s[30] as int * 0x1_0000 + s[31] as int * 0x100_0000 == size
  {
    Recombine(cluster);
  }

  lemma Recombine(c: U32)
    ensures (c / 0x1_0000 % 0x100 + 0x100 * (c / 0x100_0000)) * 0x1_0000 + c % 0x100 + 0x100 * (c / 0x100 % 0x100) == c
  {
    var high, low := c / 0x1_0000, c % 0x1_0000;
    UpperDigits(c);
    LowerDigits(c);
    assert high == high % 0x100 + 0x100 * (high / 0x100) && low == low % 0x100 + 0x100 * (low / 0x100);
  }

  lemma UpperDigits(c: nat)
    ensures c / 0x100_0000 == c / 0x1_0000 / 0x100
  {
  }

  lemma LowerDigits(c: nat)
    ensures c % 0x100 == c % 0x1_0000 % 0x100 && c / 0x100 % 0x100 == c % 0x1_0000 / 0x100
  {
    var q, r := c / 0x1_0000, c % 0x1_0000;
    assert c == 0x1_0000 * q + r;
    assert c / 0x100 == 0x100 * q + r / 0x100;
  }

  /** Byte i of entry e, once the entry is stored. */
  lemma EnteredByte(v: Volume, w: Volume, dir: nat, e: nat, entry: seq<U8>, i: nat)
    requires Entered(v, w, dir, e, entry) && i < |entry|
    ensures FileByte(w, dir, 32 * e + i) == entry[i]
  {
    hide Chained, FileByte;
  }

  /** A file is new in directory dir: slot e was never used or was deleted, and is the first such slot; it
      holds the entry of an empty regular file, and no other byte of any chain of v has changed. */
  ghost predicate FileEntered(v: Volume, w: Volume, dir: nat, e: nat, name: seq<U8>, cluster: nat) {
    && Chained(v.disk, v.g, v.chains) && Chained(w.disk, w.g, w.chains)
    && (FileByte(v, dir, 32 * e) == 0 || FileByte(v, dir, 32 * e) == 0xE5)
    && (forall e': nat :: e' < e ==> FileByte(v, dir, 32 * e') != 0 && FileByte(v, dir, 32 * e') != 0xE5)
    && FileEntry(w, dir, e, name, cluster, 0)
    && forall h, q: nat :: h in v.chains && (h != dir || q / 32 != e) ==> FileByte(w, h, q) == FileByte(v, h, q)
  }

  /** Where fat32_add_entry puts the entry of a new file, and what it puts there, byte by byte. */
  lemma EnteredFile(v: Volume, w: Volume, dir: nat, e: nat, name: seq<U8>, cluster: U32)
    requires |name| == 11 && Entered(v, w, dir, e, DirEntry(name, cluster, 0, false))
    ensures FileEntered(v, w, dir, e, name, cluster)
    ensures FileByte(w, dir, 32 * e + 11) == 0x20 && FileByte(w, dir, 32 * e + 11) / 0x10 % 2 == 0
  {
    hide Chained, FileByte, DirEntry;
    var s := DirEntry(name, cluster, 0, false);
    DirEntryBytes(name, cluster, 0, false);
    forall q: nat | 32 * e <= q < 32 * e + 32 ensures FileByte(w, dir, q) == s[q - 32 * e] {
      EnteredByte(v, w, dir, e, s, q - 32 * e);
    }
    forall i: nat | i < 11 ensures FileByte(w, dir, 32 * e + i) == name[i] {
      assert s[..11][i] == s[i];
    }
  }

  /** The driver's decoding of a stored entry undoes its encoding, and takes the entry as in use unless its
      name begins with the mark of a deleted one. */
  lemma Decoded(v: Volume, w: Volume, dir: nat, e: nat, name: seq<U8>, cluster: U32)
    requires |name| == 11 && name[0] != 0 && Entered(v, w, dir, e, DirEntry(name, cluster, 0, false))
    ensures DirCluster(w, dir, e) == cluster && FileByte(w, dir, 32 * e) == name[0]
    ensures Live(w, dir, e) <==> name[0] != 0xE5
    ensures FileEntry(w, dir, e, name, cluster, 0)
  {
    hide Chained, FileByte, Entered, DirEntry;
    EnteredFile(v, w, dir, e, name, cluster);
    assert FileByte(w, dir, 32 * e + 0) == name[0];
  }

  /** Entries other than the new one read as before. */
  lemma OtherEntry(v: Volume, w: Volume, dir: nat, e: nat, entry: seq<U8>, dir': nat, e': nat)
    requires Entered(v, w, dir, e, entry) && |entry| == 32 && dir' in v.chains && (dir' != dir || e' != e)
    ensures forall q: nat :: 32 * e' <= q < 32 * e' + 32 ==> FileByte(w, dir', q) == FileByte(v, dir', q)
    ensures FileByte(w, dir', 32 * e') == FileByte(v, dir', 32 * e')
    ensures Live(w, dir', e') == Live(v, dir', e') && DirCluster(w, dir', e') == DirCluster(v, dir', e')
  {
    hide Chained, FileByte;
    assert forall q: nat :: 32 * e' <= q < 32 * e' + 32 ==> FileByte(w, dir', q) == FileByte(v, dir', q);
  }

  /** A new entry keeps the listing of every other file. */
  lemma AddListed(v: Volume, w: Volume, dir: nat, e: nat, name: seq<U8>, c: U32, dir': nat, h: nat, s: Slot, size: nat)
    requires |name| == 11 && name[0] != 0 && Entered(v, w, dir, e, DirEntry(name, c, 0, false))
    requires dir' in v.chains && h != c && Listed(v, dir', s, h, size)
    ensures Listed(w, dir', s, h, size)
  {
    hide Chained, FileByte, DirCluster, DirEntry, Entered;
    EnteredParts(v, w, dir, e, DirEntry(name, c, 0, false));
    Decoded(v, w, dir, e, name, c);
    OtherEntry(v, w, dir, e, DirEntry(name, c, 0, false), dir', s.e);
    forall e': nat | e' < s.e ensures FileByte(w, dir', 32 * e') != 0 && !Names(w, dir', e', h) {
      if dir' != dir || e' != e { OtherEntry(v, w, dir, e, DirEntry(name, c, 0, false), dir', e'); }
    }
    SameEntry(v, w, dir', s.e, s.name, h, size);
  }

  lemma EnteredParts(v: Volume, w: Volume, dir: nat, e: nat, entry: seq<U8>)
    requires Entered(v, w, dir, e, entry)
    ensures Chained(v.disk, v.g, v.chains) && Chained(w.disk, w.g, w.chains) && dir in v.chains
    ensures FreeMark(FileByte(v, dir, 32 * e)) && forall e': nat :: e' < e ==> !FreeMark(FileByte(v, dir, 32 * e'))
  {
  }

  /** The new file is listed, unless its name begins with the mark of a deleted entry. */
  lemma NewListed(v: Volume, w: Volume, dir: nat, e: nat, name: seq<U8>, c: U32)
    requires |name| == 11 && name[0] != 0 && Entered(v, w, dir, e, DirEntry(name, c, 0, false))
    requires c >= 2 && c !in v.chains && Chained(v.disk, v.g, v.chains) && Tidy(v, dir)
    ensures Chained(w.disk, w.g, w.chains) && (Listed(w, dir, Slot(e, name), c, 0) <==> name[0] != 0xE5)
    ensures name[0] == 0xE5 ==> forall e': nat :: !First(w, dir, c, e')
  {
    hide Chained, FileByte, DirCluster, DirEntry, Entered;
    EnteredParts(v, w, dir, e, DirEntry(name, c, 0, false));
    Decoded(v, w, dir, e, name, c);
    forall e': nat | e' != e ensures !Names(w, dir, e', c) && (e' < e ==> FileByte(w, dir, 32 * e') != 0) {
      OtherEntry(v, w, dir, e, DirEntry(name, c, 0, false), dir, e');
    }
  }

  lemma AddTidy(v: Volume, w: Volume, dir: nat, e: nat, name: seq<U8>, c: U32, dir': nat)
    requires |name| == 11 && name[0] != 0 && Entered(v, w, dir, e, DirEntry(name, c, 0, false))
    requires Chained(v.disk, v.g, v.chains) && w.chains.Keys == v.chains.Keys + {c} && dir' in v.chains && Tidy(v, dir')
    ensures Chained(w.disk, w.g, w.chains) && Tidy(w, dir')
  {
    hide Chained, FileByte, DirCluster, DirEntry, Entered, Live;
    EnteredParts(v, w, dir, e, DirEntry(name, c, 0, false));
    Decoded(v, w, dir, e, name, c);
    forall e': nat | Live(w, dir', e') ensures DirCluster(w, dir', e') in w.chains || DirCluster(w, dir', e') < 2 {
      if dir' != dir || e' != e { OtherEntry(v, w, dir, e, DirEntry(name, c, 0, false), dir', e'); }
    }
  }

  /** A new entry for the file c, which is a file when the inode could be made. */
  lemma AddCatalog(v: Volume, w: Volume, dir: nat, e: nat, name: seq<U8>, c: U32,
                   dirs: set<nat>, homes: map<nat, nat>, slots: map<nat, Slot>)
    requires Catalog(v, dirs, homes, slots) && Inv(w) && dir in dirs && |name| == 11 && name[0] != 0
    requires Entered(v, w, dir, e, DirEntry(name, c, 0, false))
    requires c >= 2 && c !in v.chains && w.chains.Keys == v.chains.Keys + {c}
    requires w.sizes == v.sizes || w.sizes == v.sizes[c := 0]
    ensures w.sizes == v.sizes ==> Catalog(w, dirs, homes, slots)
    ensures w.sizes == v.sizes[c := 0] ==>
              Catalog(w, dirs, homes[c := dir], if name[0] == 0xE5 then slots else slots[c := Slot(e, name)])
  {
    hide Inv, Chained, FileByte, Listed, Tidy, Entered, DirEntry;
    ChainedParts(v);
    ChainedParts(w);
    SizesChained(v);
    forall dir' | dir' in dirs ensures Tidy(w, dir') { AddTidy(v, w, dir, e, name, c, dir'); }
    forall h | h in slots ensures Listed(w, homes[h], slots[h], h, v.sizes[h]) {
      AddListed(v, w, dir, e, name, c, homes[h], h, slots[h], v.sizes[h]);
    }
    NewListed(v, w, dir, e, name, c);
  }

  lemma SizesChained(v: Volume)
    requires Inv(v)
    ensures v.sizes.Keys <= v.chains.Keys
  {
  }

  /** A change that no byte of a directory shows. */
  lemma SameCatalog(v: Volume, w: Volume, dirs: set<nat>, homes: map<nat, nat>, slots: map<nat, Slot>)
    requires Catalog(v, dirs, homes, slots) && Inv(w) && w.sizes == v.sizes && w.chains.Keys == v.chains.Keys
    requires forall h, q: nat :: h in v.chains ==> FileByte(w, h, q) == FileByte(v, h, q)
    ensures Catalog(w, dirs, homes, slots)
  {
    hide Inv, Chained, FileByte, Listed, Tidy, SameNames;
    ChainedParts(v);
    ChainedParts(w);
    forall dir | dir in dirs ensures Tidy(w, dir) {
      OtherDirectory(v, w, dir);
      WriteTidy(v, w, dir);
    }
    forall h | h in slots ensures Listed(w, homes[h], slots[h], h, w.sizes[h]) {
      SameBytesListed(v, w, homes[h], slots[h], h, v.sizes[h]);
    }
  }
}
