/** Whole runs of buffered reads and writes: a file is one flat, zero-initialised array of bytes. */
module FileRuns {
  import opened Arith
  import opened RadixView
  import opened PageCache
  import opened FileMap

  datatype FileOp = Write(pos: U64, data: seq<Byte>) | Read(pos: U64, n: nat)

  predicate Legal(op: FileOp) {
    match op
    case Write(_, data) => |data| < 0x8000_0000
    case Read(_, n) => n < 0x8000_0000
  }

  /** What an operation did: `done` is the length of the prefix of the data that reached the file, `after` the
      caller's position afterwards, and `failed` says that an allocation failed in that very call. */
  datatype Event = Wrote(pos: U64, data: seq<Byte>, done: nat, ret: int, after: U64, failed: bool)
                 | Got(pos: U64, n: nat, bytes: seq<Byte>, ret: int, after: U64, failed: bool)

  /** The byte at q after a run: the newest write that reached q, or zero. */
  ghost function Flat(h: seq<Event>, q: U64): Byte {
    if h == [] then 0
    else
      var e := h[|h| - 1];
      if e.Wrote? && Dist(e.pos, q) < e.done <= |e.data| then e.data[Dist(e.pos, q)]
      else Flat(h[..|h| - 1], q)
  }

  /** A write returns the length of its data and moves the position, or -1 after writing a prefix and leaves
      it; a read returns the flat bytes at its position.  Either fails exactly when an allocation did. */
  ghost predicate Faithful(h: seq<Event>, e: Event, op: FileOp) {
    match op
    case Write(pos, data) =>
      && e.Wrote? && e.pos == pos && e.data == data && e.done <= |data| < 0x8000_0000
      && (if e.failed then e.ret == -1 && e.after == pos
          else e.ret == e.done == |data| && e.after == Advance(pos, |data|))
    case Read(pos, n) =>
      && e.Got? && e.pos == pos && e.n == n < TWO64
      && (if e.failed then e.ret == -1 && e.after == pos
          else && e.ret == |e.bytes| == n && e.after == Advance(pos, n)
               && forall j: nat :: j < n ==> e.bytes[j] == Flat(h, Advance(pos, j)))
  }

  ghost predicate History(ops: seq<FileOp>, h: seq<Event>) {
    |h| == |ops| && forall i: nat :: i < |ops| ==> Faithful(h[..i], h[i], ops[i])
  }

  /** Where a write ended, 0 if it wrote nothing. */
  function EndOf(e: Event): nat {
    if e.Wrote? && e.done > 0 then e.pos + e.done else 0
  }

  /** i_size after a run. */
  ghost function SizeAfter(h: seq<Event>): U64 {
    if h == [] then 0 else
      var n := |h| - 1;
      if h[n].Wrote? && h[n].done < 0x8000_0000 then NewSize(SizeAfter(h[..n]), h[n].pos, h[n].done)
      else SizeAfter(h[..n])
  }

  /** i_size reaches the end of every write that did not wrap around 2^64. */
  lemma {:induction false} SizeCovers(h: seq<Event>, i: nat)
    requires i < |h| && (h[i].Wrote? ==> h[i].done < 0x8000_0000) && EndOf(h[i]) < TWO64
    ensures EndOf(h[i]) <= SizeAfter(h)
  {
    var n := |h| - 1;
    if i < n { SizeCovers(h[..n], i); }
  }

  /** When no write wrapped around, i_size is the largest end of them all. */
  lemma {:induction false} SizeIsMax(h: seq<Event>)
    requires forall i :: 0 <= i < |h| ==> EndOf(h[i]) < TWO64 && (h[i].Wrote? ==> h[i].done < 0x8000_0000)
    ensures SizeAfter(h) == 0 || exists i :: 0 <= i < |h| && SizeAfter(h) == EndOf(h[i])
  {
    if h != [] {
      var n := |h| - 1;
      SizeIsMax(h[..n]);
      if SizeAfter(h) != 0 {
        if SizeAfter(h) == SizeAfter(h[..n]) {
          var i :| 0 <= i < n && SizeAfter(h[..n]) == EndOf(h[..n][i]);
          assert h[..n][i] == h[i];
        } else {
          assert SizeAfter(h) == EndOf(h[n]);
        }
      }
    }
  }

  method Step(m: Mapping, op: FileOp, ghost h: seq<Event>) returns (ghost e: Event)
    requires m.Valid() && Legal(op) && m.i_size == SizeAfter(h) && forall q: U64 :: m.ByteAt(q) == Flat(h, q)
    modifies m, m.tree
    ensures m.Valid() && Faithful(h, e, op) && m.i_size == SizeAfter(h + [e]) && (e.failed ==> !m.tree.plenty)
    ensures forall q: U64 :: m.ByteAt(q) == Flat(h + [e], q)
  {
    hide Inv, Canonical, Items, ByteOf, Consistent, NewSize;
    match op {
      case Write(pos, data) =>
        var r, after;
        ghost var n, failed;
        r, after, n, failed := GenericFileWrite(m, data, |data|, pos);
        e := Wrote(pos, data, n, r, after, failed);
      case Read(pos, n) =>
        var r, out, after;
        ghost var failed;
        r, out, after, failed := ReadSeq(m, pos, n);
        e := Got(pos, n, out, r, after, failed);
    }
    assert (h + [e])[..|h|] == h;
  }

  /** What was written is what is read back, also across the end of the 64-bit positions. */
  method WriteThenRead(m: Mapping, data: seq<Byte>, pos: U64) returns (r: int, out: seq<Byte>, after: U64)
    requires m.Valid() && m.tree.plenty && |data| < 0x8000_0000
    modifies m, m.tree
    ensures m.Valid() && r == |data| && out == data && after == (pos + |data|) % 0x1_0000_0000_0000_0000
  {
    hide Inv, Canonical, Items, ByteOf, Consistent, NewSize, Dist, Advance;
    ghost var done, failed;
    r, after, done, failed := GenericFileWrite(m, data, |data|, pos);
    r, out, after, failed := ReadSeq(m, pos, |data|);
    forall i: nat | i < |data| ensures out[i] == data[i] { Circular(pos, i); }
    Circular(pos, |data|);
  }

  /** Every run, with failures anywhere, or nowhere with plenty of memory, leaves the flat file and the size its
      history describes. */
  method Replay(ops: seq<FileOp>, plenty: bool) returns (m: Mapping, ghost h: seq<Event>)
    requires forall op :: op in ops ==> Legal(op)
    ensures fresh(m) && m.Valid() && History(ops, h)
    ensures forall q: U64 :: m.ByteAt(q) == Flat(h, q)
    ensures m.nrpages == |m.tree.Contents()| && m.i_size == SizeAfter(h)
    ensures plenty ==> forall e :: e in h ==> !e.failed
  {
    hide Inv, Canonical, Items, ByteOf, Faithful, Flat, SizeAfter, History, Consistent;
    m := new Mapping(plenty);
    h := [];
    Nothing();
    Counted(m);
    for k := 0 to |ops|
      invariant fresh(m) && fresh(m.tree) && m.Valid() && m.i_size == SizeAfter(h) && History(ops[..k], h)
      invariant forall q: U64 :: m.ByteAt(q) == Flat(h, q)
      invariant m.tree.plenty == plenty && (plenty ==> forall e :: e in h ==> !e.failed)
    {
      assert ops[k] in ops && ops[..k + 1] == ops[..k] + [ops[k]];
      ghost var e := Step(m, ops[k], h);
      HistorySnoc(ops[..k], h, ops[k], e);
      h := h + [e];
    }
    assert ops[..|ops|] == ops;
    Counted(m);
  }

  lemma Nothing()
    ensures SizeAfter([]) == 0 && History([], []) && forall q: U64 :: Flat([], q) == 0
  {
  }

  lemma HistorySnoc(ops: seq<FileOp>, h: seq<Event>, op: FileOp, e: Event)
    requires History(ops, h) && Faithful(h, e, op)
    ensures History(ops + [op], h + [e])
  {
    hide Faithful;
    var ops', h' := ops + [op], h + [e];
    forall i: nat | i < |ops'| ensures Faithful(h'[..i], h'[i], ops'[i]) {
      assert i < |ops| ==> h'[..i] == h[..i] && Faithful(h[..i], h[i], ops[i]);
      assert i == |ops| ==> h'[..i] == h;
    }
  }

  lemma Counted(m: Mapping)
    requires m.Valid()
    ensures m.nrpages == |m.tree.Contents()|
  {
  }

  /** generic_file_read into a buffer of its own. */
  method ReadSeq(m: Mapping, pos: U64, size: nat) returns (r: int, out: seq<Byte>, after: U64, ghost failed: bool)
    requires m.Valid() && size < 0x8000_0000
    modifies m, m.tree
    ensures m.Valid() && m.i_size == old(m.i_size) && forall q: nat :: m.ByteAt(q) == old(m.ByteAt(q))
    ensures failed ==> r == -1 && out == [] && after == pos && !m.tree.plenty
    ensures !failed ==> r == |out| == size && after == Advance(pos, size)
    ensures !failed ==> forall j: nat :: j < size ==> out[j] == m.ByteAt(Advance(pos, j))
  {
    hide Inv, Canonical, Items, ByteOf, Consistent;
    var buf := new Byte[size];
    r, after, failed := GenericFileRead(m, buf, size, pos);
    out := if r == -1 then [] else buf[..];
  }
}
