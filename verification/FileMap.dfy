/**
 Buffered file I/O, kernel/fs/filemap.c: reads and writes split at page boundaries, over the page
 cache.  File positions are 64-bit and wrap around.
 */
module FileMap {
  import opened Arith
  import opened Sequences
  import opened RadixView
  import opened RadixTree
  import opened PageCache

  /** How far q lies after pos in the circular 64-bit position space. */
  function Dist(pos: U64, q: U64): U64 {
    if q >= pos then q - pos else q + TWO64 - pos
  }

  /** pos + n in 64-bit arithmetic. */
  function Advance(pos: U64, n: U64): U64 {
    if pos + n < TWO64 then pos + n else pos + n - TWO64
  }

  /** Positions modulo 2^64, and the distance back. */
  lemma Circular(pos: U64, n: U64)
    ensures Advance(pos, n) == (pos + n) % 0x1_0000_0000_0000_0000 && Dist(pos, Advance(pos, n)) == n
  {
  }

  /** Without a wrap the positions at a distance below n are the next n positions. */
  lemma Straight(pos: U64, n: nat, q: U64)
    requires pos + n <= 0x1_0000_0000_0000_0000
    ensures Dist(pos, q) < n <==> pos <= q < pos + n
  {
  }

  function ZeroFrame(): (s: seq<Byte>)
    ensures |s| == 4096 && forall i :: 0 <= i < 4096 ==> s[i] == 0
  {
    seq(4096, _ => 0)
  }

  // ---------------------------------------------------------------- pages and frames as values

  /** A new page struct with a frame of its own changes no byte of the file. */
  lemma NewPage(index: map<nat, Ptr>, n: nat, pages: map<Ptr, Page>, frames: map<Ptr, seq<Byte>>,
                a: Ptr, f: Ptr, data: seq<Byte>)
    requires Consistent(index, n, pages, frames) && a != 0 && a !in pages && f !in frames && |data| == 4096
    ensures Consistent(index, n, pages[a := Page(false, false, 0, f)], frames[f := data])
    ensures forall q: nat ::
              ByteOf(index, pages[a := Page(false, false, 0, f)], frames[f := data], q) ==
              ByteOf(index, pages, frames, q)
  {
  }

  /** Freeing an uncached page together with its frame changes no byte of the file. */
  lemma DropPage(index: map<nat, Ptr>, n: nat, pages: map<Ptr, Page>, frames: map<Ptr, seq<Byte>>, a: Ptr)
    requires Consistent(index, n, pages, frames) && a in pages && !pages[a].mapped
    ensures Consistent(index, n, pages - {a}, frames - {pages[a].virt})
    ensures forall q: nat ::
              ByteOf(index, pages - {a}, frames - {pages[a].virt}, q) == ByteOf(index, pages, frames, q)
  {
    forall q: nat
      ensures ByteOf(index, pages - {a}, frames - {pages[a].virt}, q) == ByteOf(index, pages, frames, q)
    {
      if q / 4096 in index { assert index[q / 4096] != a; }
    }
  }

  /** Caching a page at an index that had none shows the bytes of its frame there and nowhere else. */
  lemma AddedBytes(index: map<nat, Ptr>, n: nat, pages: map<Ptr, Page>, frames: map<Ptr, seq<Byte>>, a: Ptr, k: nat)
    requires Consistent(index, n, pages, frames) && a in pages && !pages[a].mapped && k !in index
    ensures var pages' := pages[a := pages[a].(mapped := true, index := k)];
      forall q: nat :: q / 4096 != k ==> ByteOf(index[k := a], pages', frames, q) == ByteOf(index, pages, frames, q)
  {
  }

  /** Replacing the frame of the page cached at k changes exactly the bytes of that page. */
  lemma SetFrame(index: map<nat, Ptr>, n: nat, pages: map<Ptr, Page>, frames: map<Ptr, seq<Byte>>,
                 k: nat, data: seq<Byte>)
    requires Consistent(index, n, pages, frames) && k in index && |data| == 4096
    ensures var frames' := frames[pages[index[k]].virt := data];
      && Consistent(index, n, pages, frames')
      && forall q: nat :: ByteOf(index, pages, frames', q) ==
                          if q / 4096 == k then data[q % 4096] else ByteOf(index, pages, frames, q)
  {
    var frames' := frames[pages[index[k]].virt := data];
    forall q: nat
      ensures ByteOf(index, pages, frames', q) ==
              if q / 4096 == k then data[q % 4096] else ByteOf(index, pages, frames, q)
    {
      if q / 4096 in index && q / 4096 != k { assert index[q / 4096] != index[k]; }
    }
  }

  lemma SetDirty(index: map<nat, Ptr>, n: nat, pages: map<Ptr, Page>, frames: map<Ptr, seq<Byte>>, a: Ptr)
    requires Consistent(index, n, pages, frames) && a in pages
    ensures Consistent(index, n, pages[a := pages[a].(dirty := true)], frames)
    ensures forall q: nat ::
              ByteOf(index, pages[a := pages[a].(dirty := true)], frames, q) == ByteOf(index, pages, frames, q)
  {
  }

  // ---------------------------------------------------------------- the operations

  /** pmm_alloc_page as seen from here: no frame, or an unused one with arbitrary contents. */
  method AllocFrame(m: Mapping) returns (phys: Ptr, junk: seq<Byte>)
    ensures |junk| == 4096
    ensures if phys == 0 then !m.tree.plenty else phys !in m.frames
  {
    assert |ZeroFrame()| == 4096;
    junk :| |junk| == 4096;
    if !m.tree.plenty {
      if * { return 0, junk; }
    }
    FreshExists(m.frames.Keys);
    phys :| phys != 0 && phys !in m.frames;
  }

  /** kmalloc(sizeof(struct page)): null, or an unused address. */
  method AllocPageStruct(m: Mapping) returns (page: Ptr)
    ensures if page == 0 then !m.tree.plenty else page !in m.pages
  {
    if !m.tree.plenty {
      if * { return 0; }
    }
    FreshExists(m.pages.Keys);
    page :| page != 0 && page !in m.pages;
  }

  lemma IndexFits(pos: U64)
    ensures pos / 4096 < Pow64(MAX_HEIGHT)
  {
    assert Pow64(10) == 0x1000_0000_0000_0000;
  }

  /** Find the page at an index or create it, cleared if `wipe`; null exactly when an allocation of this call
      fails, for the frame, the page structure or a tree node. */
  method GrabPage(m: Mapping, index: nat, wipe: bool) returns (page: Ptr, ghost failed: bool)
    requires m.Valid() && index < Pow64(MAX_HEIGHT)
    modifies m`nrpages, m`pages, m`frames, m.tree
    ensures m.Valid() && (failed <==> page == 0) && (failed ==> !m.tree.plenty)
    ensures page != 0 ==> index in m.tree.Contents() && m.tree.Contents()[index] == page
    ensures forall q: nat :: q / 4096 != index || wipe || page == 0 || index in old(m.tree.Contents())
                             ==> m.ByteAt(q) == old(m.ByteAt(q))
  {
    hide Inv, Canonical, Items, Consistent;
    page := m.FindGetPage(index);
    if page != 0 { return page, false; }
    var phys, junk := AllocFrame(m);
    if phys == 0 { return 0, true; }
    page := AllocPageStruct(m);
    if page == 0 { return 0, true; }
    page, failed := Cache(m, index, page, phys, junk, wipe);
  }

  /** Enter a new page struct and frame into the cache, or free both when the index cannot grow. */
  method Cache(m: Mapping, index: nat, page: Ptr, phys: Ptr, junk: seq<Byte>, wipe: bool)
      returns (got: Ptr, ghost failed: bool)
    requires m.Valid() && index < Pow64(MAX_HEIGHT) && index !in m.tree.Contents()
    requires page != 0 && page !in m.pages && phys !in m.frames && |junk| == 4096
    modifies m`nrpages, m`pages, m`frames, m.tree
    ensures m.Valid() && (failed <==> got == 0) && (failed ==> !m.tree.plenty)
    ensures got != 0 ==> index in m.tree.Contents() && m.tree.Contents()[index] == got
    ensures forall q: nat :: q / 4096 != index || wipe || got == 0 ==> m.ByteAt(q) == old(m.ByteAt(q))
  {
    hide Inv, Canonical, Items, Consistent, Pow64;
    ghost var was := m.tree.Contents();
    NewPage(was, m.nrpages, m.pages, m.frames, page, phys, junk);
    m.pages := m.pages[page := Page(false, false, 0, phys)];
    m.frames := m.frames[phys := junk];
    AddedBytes(was, m.nrpages, m.pages, m.frames, page, index);
    var ret;
    ret, failed := m.AddToPageCache(page, index);
    if ret != 0 {
      DropPage(was, m.nrpages, m.pages, m.frames, page);
      m.pages := m.pages - {page};
      m.frames := m.frames - {phys};
      got := m.FindGetPage(index);
    } else {
      if wipe {
        SetFrame(m.tree.Contents(), m.nrpages, m.pages, m.frames, index, ZeroFrame());
        m.frames := m.frames[phys := ZeroFrame()];
      }
      got := page;
    }
  }

  /** A chunk that ends within its page covers the next stretch of the circular range. */
  lemma ChunkStep(pos: U64, w: nat, b: nat, q: U64)
    requires w + b < TWO64 && b <= 4096 - Advance(pos, w) % 4096
    ensures var p := Advance(pos, w);
      && (p <= q < p + b <==> w <= Dist(pos, q) < w + b)
      && (p <= q < p + b ==> Dist(pos, q) - w == q - p)
      && Advance(p, b) == Advance(pos, w + b)
  {
  }

  /** A cached page has a frame, which holds the bytes of the file there. */
  lemma PageFacts(m: Mapping, index: nat)
    requires m.Valid() && index in m.tree.Contents()
    ensures var page := m.tree.Contents()[index];
      && page in m.pages && m.pages[page].virt in m.frames && |m.frames[m.pages[page].virt]| == 4096
      && forall q: nat :: q / 4096 == index ==> m.frames[m.pages[page].virt][q % 4096] == m.ByteAt(q)
  {
    hide Inv, Canonical, Items;
  }

  /** memcpy into a cached page, which becomes dirty. */
  method CopyIn(m: Mapping, page: Ptr, index: nat, off: nat, chunk: seq<Byte>)
    requires m.Valid() && index in m.tree.Contents() && m.tree.Contents()[index] == page && off + |chunk| <= 4096
    modifies m`frames, m`pages
    ensures m.Valid()
    ensures forall q: nat ::
              m.ByteAt(q) == if q / 4096 == index && off <= q % 4096 < off + |chunk| then chunk[q % 4096 - off]
                             else old(m.ByteAt(q))
  {
    hide Inv, Canonical, Items, Consistent, ByteOf;
    PageFacts(m, index);
    var virt := m.pages[page].virt;
    var frame := Splice(m.frames[virt], off, chunk);
    SetFrame(m.tree.Contents(), m.nrpages, m.pages, m.frames, index, frame);
    ghost var bytes := m.frames[virt];
    m.frames := m.frames[virt := frame];
    SetDirty(m.tree.Contents(), m.nrpages, m.pages, m.frames, page);
    m.pages := m.pages[page := m.pages[page].(dirty := true)];
    forall q: nat
      ensures m.ByteAt(q) == if q / 4096 == index && off <= q % 4096 < off + |chunk| then chunk[q % 4096 - off]
                             else old(m.ByteAt(q))
    {
      if q / 4096 == index {
        assert m.ByteAt(q) == frame[q % 4096];
        assert bytes[q % 4096] == old(m.ByteAt(q));
      }
    }
  }

  lemma InPage(pos: nat, n: nat, q: nat)
    requires 0 < n <= 4096 - pos % 4096
    ensures pos <= q < pos + n <==> q / 4096 == pos / 4096 && pos % 4096 <= q % 4096 < pos % 4096 + n
    ensures q / 4096 == pos / 4096 ==> q % 4096 - pos % 4096 == q - pos
    ensures n == 4096 ==> pos % 4096 == 0
  {
  }

  /** One round of the generic_file_write loop: a chunk that stays within its page. */
  method WriteChunk(m: Mapping, pos: U64, chunk: seq<Byte>) returns (ok: bool, ghost failed: bool)
    requires m.Valid() && 0 < |chunk| <= 4096 - pos % 4096
    modifies m, m.tree
    ensures m.Valid() && ok == !failed && (failed ==> !m.tree.plenty)
    ensures forall q: nat ::
              m.ByteAt(q) == if ok && pos <= q < pos + |chunk| then chunk[q - pos] else old(m.ByteAt(q))
    ensures m.i_size ==
            if ok && Advance(pos, |chunk|) > old(m.i_size) then Advance(pos, |chunk|) else old(m.i_size)
  {
    hide Inv, Canonical, Items, Pow64, Consistent, ByteOf, Advance;
    IndexFits(pos);
    var page;
    page, failed := GrabPage(m, pos / 4096, |chunk| < 4096);
    if page == 0 { return false, true; }
    label Grabbed:
    CopyIn(m, page, pos / 4096, pos % 4096, chunk);
    forall q: nat ensures m.ByteAt(q) == if pos <= q < pos + |chunk| then chunk[q - pos] else old(m.ByteAt(q)) {
      InPage(pos, |chunk|, q);
      if pos <= q < pos + |chunk| {
        assert m.ByteAt(q) == chunk[q % 4096 - pos % 4096];
      } else {
        assert m.ByteAt(q) == old@Grabbed(m.ByteAt(q));
        assert q / 4096 != pos / 4096 || |chunk| < 4096;
      }
    }
    if Advance(pos, |chunk|) > m.i_size {
      m.i_size := Advance(pos, |chunk|);
    }
    return true, false;
  }

  /** i_size after `done` bytes were written at pos: the largest of its old value and the chunk ends, which wrap
      around 2^64 with the position. */
  function NewSize(size: U64, pos: U64, done: nat): nat {
    if done == 0 then size
    else if pos + done < TWO64 then Max(size, pos + done)
    else Max(size, Max(if pos < TWO64 - 4096 then TWO64 - 4096 else 0, pos + done - TWO64))
  }

  function Max(a: nat, b: nat): nat {
    if a > b then a else b
  }

  lemma SizeStart(size: U64, pos: U64)
    ensures NewSize(size, pos, 0) == size
  {
  }

  /** One more chunk, which ends within its page. */
  lemma SizeStep(size: U64, pos: U64, w: nat, b: nat)
    requires w + b < 0x8000_0000 && 0 < b <= 4096 - Advance(pos, w) % 4096 && (w > 0 ==> Advance(pos, w) % 4096 == 0)
    ensures NewSize(size, pos, w + b) == Max(NewSize(size, pos, w), Advance(Advance(pos, w), b))
  {
  }

  /** The size reaches the end of the write exactly when that end does not wrap around. */
  lemma SizeReaches(size: U64, pos: U64, done: nat)
    requires 0 < done < 0x8000_0000
    ensures 0 <= NewSize(size, pos, done) < TWO64
    ensures NewSize(size, pos, done) >= pos + done <==> pos + done < TWO64
  {
  }

  /** Without a wrap the size is the larger one of the old size and the end of the write. */
  lemma SizeIs(size: U64, pos: U64, done: nat)
    requires pos + done < 0x1_0000_0000_0000_0000
    ensures NewSize(size, pos, done) == if done > 0 && pos + done > size then pos + done else size
  {
  }

  lemma PageEnd(pos: U64, b: nat)
    requires 0 < b <= 4096 - pos % 4096
    ensures b == 4096 - pos % 4096 ==> Advance(pos, b) % 4096 == 0
  {
  }

  /** generic_file_write.  `done` bytes of the buffer were written: all of them, or a prefix when an allocation
      of this call failed. */
  method GenericFileWrite(m: Mapping?, buf: seq<Byte>, count: I32, ppos: U64)
      returns (r: int, ppos': U64, ghost done: nat, ghost failed: bool)
    requires m != null ==> m.Valid()
    requires count <= |buf|
    modifies m, if m != null then {m.tree} else {}
    ensures m == null ==> r == -1 && ppos' == ppos && done == 0
    ensures m != null ==> m.Valid()
    ensures r == -1 <==> m == null || failed
    ensures m != null && failed ==> !m.tree.plenty
    ensures done <= if count > 0 then count else 0
    ensures m != null ==> forall q: U64 ::
              m.ByteAt(q) == if Dist(ppos, q) < done then buf[Dist(ppos, q)] else old(m.ByteAt(q))
    ensures if r == -1 then ppos' == ppos
            else r == done == (if count > 0 then count else 0) && ppos' == Advance(ppos, done)
    ensures m != null ==> m.i_size == NewSize(old(m.i_size), ppos, done)
    ensures m != null && done > 0 ==> (m.i_size >= ppos + done <==> ppos + done < TWO64)
  {
    hide Inv, Canonical, Items, Consistent, ByteOf, NewSize, Dist, Advance;
    done, failed := 0, false;
    Start(ppos);
    SizeStart(if m == null then 0 else m.i_size, ppos);
    if m == null { return -1, ppos, 0, false; }
    var written: nat := 0;
    var pos: U64 := ppos;
    var left: int := count;
    while left > 0
      invariant m.Valid() && !failed
      invariant written + left == count || (written == 0 && left == count)
      invariant left >= 0 || written == 0
      invariant pos == Advance(ppos, written) && done == written
      invariant forall q: U64 ::
                  m.ByteAt(q) == if Dist(ppos, q) < written then buf[Dist(ppos, q)] else old(m.ByteAt(q))
      invariant written > 0 && left > 0 ==> pos % 4096 == 0
      invariant m.i_size == NewSize(old(m.i_size), ppos, written)
    {
      var bytes: nat := 4096 - pos % 4096;
      if bytes > left { bytes := left; }
      var ok;
      ok, failed := WriteChunk(m, pos, buf[written..written + bytes]);
      if !ok {
        if done > 0 { SizeReaches(old(m.i_size), ppos, done); }
        return -1, ppos, done, true;
      }
      forall q: U64
        ensures m.ByteAt(q) == if Dist(ppos, q) < written + bytes then buf[Dist(ppos, q)] else old(m.ByteAt(q))
      {
        ChunkStep(ppos, written, bytes, q);
      }
      ChunkStep(ppos, written, bytes, 0);
      SizeStep(old(m.i_size), ppos, written, bytes);
      PageEnd(pos, bytes);
      written := written + bytes;
      pos := Advance(pos, bytes);
      left := left - bytes;
      done := written;
    }
    if done > 0 { SizeReaches(old(m.i_size), ppos, done); }
    return written, pos, done, false;
  }

  lemma Start(pos: U64)
    ensures Advance(pos, 0) == pos
  {
  }

  /** A write, without a failure and without a wrap: the bytes of the buffer are in the file from the position
      on, all others are as before, the position is past them, and so is the end of the file at least. */
  method WritePlain(m: Mapping, buf: seq<Byte>, ppos: U64) returns (r: int, ppos': U64)
    requires m.Valid() && m.tree.plenty && |buf| < 0x8000_0000 && ppos + |buf| < 0x1_0000_0000_0000_0000
    modifies m, m.tree
    ensures m.Valid() && r == |buf| && ppos' == ppos + |buf|
    ensures forall i: nat :: i < |buf| ==> m.ByteAt(ppos + i) == buf[i]
    ensures forall q: U64 :: q < ppos || q >= ppos + |buf| ==> m.ByteAt(q) == old(m.ByteAt(q))
    ensures m.i_size == if |buf| > 0 && ppos + |buf| > old(m.i_size) then ppos + |buf| else old(m.i_size)
  {
    hide Inv, Canonical, Items, Consistent, ByteOf, NewSize, Dist, Advance;
    ghost var done, failed;
    SizeIs(m.i_size, ppos, |buf|);
    r, ppos', done, failed := GenericFileWrite(m, buf, |buf|, ppos);
    Circular(ppos, |buf|);
    forall i: nat | i < |buf| ensures m.ByteAt(ppos + i) == buf[i] { Circular(ppos, i); }
    forall q: U64 | q < ppos || q >= ppos + |buf| ensures m.ByteAt(q) == old(m.ByteAt(q)) {
      Straight(ppos, |buf|, q);
    }
  }

  /** A write of two bytes at the last position wraps around: the file ends up one byte long, far below the end
      of the write. */
  method WriteAtTheEnd() returns (m: Mapping, r: int, after: U64)
    ensures fresh(m) && m.Valid() && r == 2 && m.i_size == 1 && after == 1
    ensures m.ByteAt(TWO64 - 1) == 7 && m.ByteAt(0) == 9
  {
    m := new Mapping(true);
    ghost var done, failed;
    r, after, done, failed := GenericFileWrite(m, [7, 9], 2, TWO64 - 1);
    assert m.ByteAt(TWO64 - 1) == [7, 9][Dist(TWO64 - 1, TWO64 - 1)];
    assert m.ByteAt(0) == [7, 9][Dist(TWO64 - 1, 0)];
  }

  /** memcpy out of a cached page. */
  method CopyOut(m: Mapping, page: Ptr, pos: U64, bytes: nat, buf: array<Byte>, at: nat)
    requires m.Valid() && pos / 4096 in m.tree.Contents() && m.tree.Contents()[pos / 4096] == page
    requires bytes <= 4096 - pos % 4096 && at + bytes <= buf.Length
    modifies buf
    ensures forall i: nat :: at <= i < at + bytes ==> buf[i] == m.ByteAt(pos + i - at)
    ensures forall i: nat :: i < buf.Length && !(at <= i < at + bytes) ==> buf[i] == old(buf[i])
  {
    hide Inv, Canonical, Items;
    var frame := m.frames[m.pages[page].virt];
    var off := pos % 4096;
    forall i: nat | at <= i < at + bytes {
      buf[i] := frame[off + i - at];
    }
    forall i: nat | at <= i < at + bytes ensures buf[i] == m.ByteAt(pos + i - at) {
      assert (pos + i - at) / 4096 == pos / 4096 && (pos + i - at) % 4096 == off + i - at;
    }
  }

  /** One round of the generic_file_read loop. */
  method ReadChunk(m: Mapping, pos: U64, bytes: nat, buf: array<Byte>, at: nat) returns (ok: bool, ghost failed: bool)
    requires m.Valid() && bytes <= 4096 - pos % 4096 && at + bytes <= buf.Length
    modifies buf, m, m.tree
    ensures m.Valid() && m.i_size == old(m.i_size) && forall q: nat :: m.ByteAt(q) == old(m.ByteAt(q))
    ensures ok == !failed && (failed ==> !m.tree.plenty)
    ensures ok ==> forall i: nat :: at <= i < at + bytes ==> buf[i] == m.ByteAt(pos + i - at)
    ensures forall i: nat :: i < buf.Length && !(at <= i < at + bytes) ==> buf[i] == old(buf[i])
  {
    hide Inv, Canonical, Items, Consistent, ByteOf, Pow64;
    IndexFits(pos);
    var page;
    page, failed := GrabPage(m, pos / 4096, true);
    if page == 0 { return false, true; }
    CopyOut(m, page, pos, bytes, buf, at);
    return true, false;
  }

  /** generic_file_read: the bytes of the file at the position, and no byte of the file changes. */
  method GenericFileRead(m: Mapping?, buf: array<Byte>, count: I32, ppos: U64)
      returns (r: int, ppos': U64, ghost failed: bool)
    requires m != null ==> m.Valid()
    requires count <= buf.Length
    modifies buf, m, if m != null then {m.tree} else {}
    ensures r == -1 <==> m == null || failed
    ensures m != null && failed ==> !m.tree.plenty
    ensures m != null ==> m.Valid() && m.i_size == old(m.i_size) && forall q: nat :: m.ByteAt(q) == old(m.ByteAt(q))
    ensures if r == -1 then ppos' == ppos else r == (if count > 0 then count else 0) && ppos' == Advance(ppos, r)
    ensures r >= 0 && m != null ==> forall i: nat :: i < r ==> buf[i] == m.ByteAt(Advance(ppos, i))
    ensures forall i: nat :: i < buf.Length && i >= count ==> buf[i] == old(buf[i])
  {
    hide Inv, Canonical, Items, Consistent, ByteOf;
    failed := false;
    if m == null { return -1, ppos, false; }
    var read: nat := 0;
    var pos: U64 := ppos;
    var left: int := count;
    while left > 0
      invariant m.Valid() && m.i_size == old(m.i_size) && forall q: nat :: m.ByteAt(q) == old(m.ByteAt(q))
      invariant !failed
      invariant read + left == count && (left >= 0 || read == 0)
      invariant pos == Advance(ppos, read)
      invariant forall i: nat :: i < read ==> buf[i] == m.ByteAt(Advance(ppos, i))
      invariant forall i: nat :: i < buf.Length && i >= read ==> buf[i] == old(buf[i])
    {
      var bytes: nat := 4096 - pos % 4096;
      if bytes > left { bytes := left; }
      var ok;
      ok, failed := ReadChunk(m, pos, bytes, buf, read);
      if !ok { return -1, ppos, true; }
      ChunkStep(ppos, read, bytes, 0);
      read := read + bytes;
      pos := Advance(pos, bytes);
      left := left - bytes;
    }
    return read, pos, false;
  }
}
