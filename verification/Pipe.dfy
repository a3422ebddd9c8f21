/**
 kernel/ipc/pipe.c: a 4096-byte ring between any number of reading and writing threads, one byte per
 critical section.
 */
module Pipe {
  import opened Arith

  /** A byte put in or taken out, and the call that did it. */
  datatype Event = Event(thread: nat, byte: U8)

  function Bytes(es: seq<Event>): (s: seq<U8>)
    ensures |s| == |es| && forall i :: 0 <= i < |es| ==> s[i] == es[i].byte
  {
    seq(|es|, i requires 0 <= i < |es| => es[i].byte)
  }

  lemma BytesSnoc(es: seq<Event>, e: Event)
    ensures Bytes(es + [e]) == Bytes(es) + [e.byte]
  {
  }

  lemma Joined(a: seq<U8>, b: seq<U8>, x: U8)
    ensures a + (b + [x]) == a + b + [x]
  {
  }

  /** The bytes of one call, in order. */
  function Of(es: seq<Event>, t: nat): seq<U8> {
    if es == [] then [] else
      var e := es[|es| - 1];
      Of(es[..|es| - 1], t) + (if e.thread == t then [e.byte] else [])
  }

  lemma OfSnoc(es: seq<Event>, e: Event, t: nat)
    ensures Of(es + [e], t) == Of(es, t) + if e.thread == t then [e.byte] else []
  {
    assert (es + [e])[..|es|] == es;
  }

  lemma {:induction false} OfAll(es: seq<Event>, t: nat)
    requires forall i :: 0 <= i < |es| ==> es[i].thread == t
    ensures Of(es, t) == Bytes(es)
  {
    if es != [] {
      var r := es[..|es| - 1];
      OfAll(r, t);
      assert Bytes(es) == Bytes(r) + [es[|es| - 1].byte];
    }
  }

  // ---------------------------------------------------------------- the ring

  /** The n bytes from position r on, around the end. */
  function Ring(b: seq<U8>, r: nat, n: nat): (s: seq<U8>)
    requires |b| == 4096
    ensures |s| == n
  {
    seq(n, i requires 0 <= i < n => b[(r + i) % 4096])
  }

  lemma RingPut(b: seq<U8>, r: nat, n: nat, x: U8)
    requires |b| == 4096 && n < 4096
    ensures Ring(b[(r + n) % 4096 := x], r, n + 1) == Ring(b, r, n) + [x]
  {
    var b' := b[(r + n) % 4096 := x];
    forall i | 0 <= i < n ensures Ring(b', r, n + 1)[i] == Ring(b, r, n)[i] {
      assert (r + i) % 4096 != (r + n) % 4096;
    }
  }

  lemma RingGet(b: seq<U8>, r: nat, n: nat)
    requires |b| == 4096 && r < 4096 && n > 0
    ensures Ring(b, r, n) == [b[r]] + Ring(b, (r + 1) % 4096, n - 1)
  {
    forall i | 0 < i < n ensures Ring(b, r, n)[i] == Ring(b, (r + 1) % 4096, n - 1)[i - 1] {
      assert ((r + 1) % 4096 + (i - 1)) % 4096 == (r + i) % 4096;
    }
  }

  datatype Got = Byte(value: U8) | MustWait | EndOfFile
  datatype Put = Stored | Full | Broken

  class Ends {
    const buffer: array<U8>
    var readPos: nat
    var writePos: nat
    var available: nat
    var readers: int
    var writers: int
    /** The structure has not been freed. */
    var live: bool
    ghost var inserted: seq<Event>
    ghost var removed: seq<Event>

    ghost function Contents(): seq<U8>
      requires buffer.Length == 4096
      reads this, buffer
    {
      Ring(buffer[..], readPos, available)
    }

    /** Bytes removed so far followed by the ring contents are the bytes inserted so far. */
    ghost predicate Valid()
      reads this, buffer
    {
      && buffer.Length == 4096 && readPos < 4096 && available <= 4096 && writePos == (readPos + available) % 4096
      && Bytes(removed) + Contents() == Bytes(inserted)
    }

    /** pipe_create: an empty ring with one end each. */
    constructor ()
      ensures Valid() && fresh(buffer) && inserted == [] && removed == [] && available == 0
      ensures live && readers == 1 && writers == 1
    {
      buffer := new U8[4096](_ => 0);
      readPos, writePos, available, readers, writers, live := 0, 0, 0, 1, 1, true;
      inserted, removed := [], [];
    }

    /** One turn of pipe_read: the oldest byte, or end of file when the ring is empty and no writer is left. */
    method ReadByte(ghost t: nat) returns (g: Got)
      requires Valid() && live
      modifies this`readPos, this`available, this`removed
      ensures Valid()
      ensures g == if old(Contents()) != [] then Byte(old(Contents())[0])
                   else if writers == 0 then EndOfFile else MustWait
      ensures g.Byte? ==> removed == old(removed) + [Event(t, g.value)] && Contents() == old(Contents())[1..]
      ensures !g.Byte? ==> removed == old(removed) && Contents() == old(Contents())
    {
      if available == 0 {
        return if writers == 0 then EndOfFile else MustWait;
      }
      RingGet(buffer[..], readPos, available);
      var x := buffer[readPos];
      readPos := (readPos + 1) % 4096;
      available := available - 1;
      ghost var rest := Ring(buffer[..], readPos, available);
      assert Bytes(removed + [Event(t, x)]) + rest == Bytes(removed) + ([x] + rest);
      removed := removed + [Event(t, x)];
      return Byte(x);
    }

    /** One turn of pipe_write: the byte is stored unless the ring is full. */
    method WriteByte(ghost t: nat, x: U8) returns (p: Put)
      requires Valid() && live
      modifies this`writePos, this`available, this`inserted, buffer
      ensures Valid()
      ensures p == if |old(Contents())| < 4096 then Stored else if readers == 0 then Broken else Full
      ensures p.Stored? ==> inserted == old(inserted) + [Event(t, x)] && Contents() == old(Contents()) + [x]
      ensures !p.Stored? ==> inserted == old(inserted) && Contents() == old(Contents())
    {
      if available == 4096 {
        return if readers == 0 then Broken else Full;
      }
      hide Ring, Bytes;
      ghost var before := buffer[..];
      RingPut(before, readPos, available, x);
      BytesSnoc(inserted, Event(t, x));
      buffer[writePos] := x;
      assert buffer[..] == before[writePos := x];
      writePos := (writePos + 1) % 4096;
      available := available + 1;
      Joined(Bytes(removed), Ring(before, readPos, available - 1), x);
      inserted := inserted + [Event(t, x)];
      return Stored;
    }

    /** pipe_close: one end less; the last one frees the pipe. */
    method Close(reader: bool)
      requires Valid() && live
      modifies this`readers, this`writers, this`live
      ensures Valid() && Contents() == old(Contents())
      ensures readers == old(readers) - (if reader then 1 else 0) && writers == old(writers) - (if reader then 0 else 1)
      ensures live <==> readers != 0 || writers != 0
    {
      if reader { readers := readers - 1; } else { writers := writers - 1; }
      var freePipe := readers == 0 && writers == 0;
      if freePipe { live := false; }
    }
  }

  // ---------------------------------------------------------------- every interleaving

  /** A call of pipe_read for size bytes, or of pipe_write with the data, and what it has returned. */
  datatype Call =
    | Reading(size: nat, got: seq<U8>, status: Status)
    | Writing(data: seq<U8>, written: nat, status: Status)

  datatype Status = Running | Returned(value: int)

  function Ended(c: Call, value: int): Call {
    match c
    case Reading(size, got, _) => Reading(size, got, Returned(value))
    case Writing(data, written, _) => Writing(data, written, Returned(value))
  }

  /** What each call has moved so far is its share of the two logs, and what it returned is the number of its
      bytes, or -1 for a write that found the pipe broken. */
  ghost predicate Tracked(calls: map<nat, Call>, inserted: seq<Event>, removed: seq<Event>) {
    forall t :: t in calls ==> OnTrack(calls[t], Of(inserted, t), Of(removed, t))
  }

  ghost predicate OnTrack(c: Call, put: seq<U8>, taken: seq<U8>) {
    match c
    case Reading(size, got, status) =>
      got == taken && |got| <= size && (status.Returned? ==> status.value == |got|)
    case Writing(data, written, status) =>
      && written <= |data| && data[..written] == put
      && (status.Returned? ==> status.value == if written == |data| then written else -1)
  }

  /** A byte more for reader t, or one more inserted by writer t, keeps every call on track. */
  lemma TrackedRead(calls: map<nat, Call>, inserted: seq<Event>, removed: seq<Event>, t: nat, x: U8)
    requires Tracked(calls, inserted, removed) && t in calls
    requires calls[t].Reading? && calls[t].status.Running? && |calls[t].got| < calls[t].size
    ensures Tracked(calls[t := calls[t].(got := calls[t].got + [x])], inserted, removed + [Event(t, x)])
  {
    hide Of;
    forall u ensures Of(removed + [Event(t, x)], u) == Of(removed, u) + if u == t then [x] else [] {
      OfSnoc(removed, Event(t, x), u);
    }
  }

  lemma TrackedWrite(calls: map<nat, Call>, inserted: seq<Event>, removed: seq<Event>, t: nat)
    requires Tracked(calls, inserted, removed) && t in calls
    requires calls[t].Writing? && calls[t].status.Running? && calls[t].written < |calls[t].data|
    ensures Tracked(calls[t := calls[t].(written := calls[t].written + 1)],
                    inserted + [Event(t, calls[t].data[calls[t].written])], removed)
  {
    hide Of, OnTrack;
    var data, n := calls[t].data, calls[t].written;
    var calls', put := calls[t := calls[t].(written := n + 1)], inserted + [Event(t, data[n])];
    forall u | u in calls' ensures OnTrack(calls'[u], Of(put, u), Of(removed, u)) {
      assert OnTrack(calls[u], Of(inserted, u), Of(removed, u));
      OfSnoc(inserted, Event(t, data[n]), u);
      if u == t { OneMore(calls[t], Of(inserted, t), Of(removed, t)); } else { assert Of(put, u) == Of(inserted, u); }
    }
  }

  lemma OneMore(c: Call, put: seq<U8>, taken: seq<U8>)
    requires OnTrack(c, put, taken) && c.Writing? && c.status.Running? && c.written < |c.data|
    ensures OnTrack(c.(written := c.written + 1), put + [c.data[c.written]], taken)
  {
    assert c.data[..c.written + 1] == c.data[..c.written] + [c.data[c.written]];
  }

  /** What a call returns when it stops here. */
  function Value(c: Call): int {
    match c
    case Reading(_, got, _) => |got|
    case Writing(data, written, _) => if written < |data| then -1 else written
  }

  lemma TrackedReturn(calls: map<nat, Call>, inserted: seq<Event>, removed: seq<Event>, t: nat)
    requires Tracked(calls, inserted, removed) && t in calls
    ensures Tracked(calls[t := Ended(calls[t], Value(calls[t]))], inserted, removed)
  {
    hide Of;
  }

  datatype Op = Step(t: nat) | Close(reader: bool)

  /** The pipe as a queue, with the calls on it. */
  datatype Queue = Queue(contents: seq<U8>, inserted: seq<Event>, removed: seq<Event>, readers: int, writers: int,
                         live: bool, calls: map<nat, Call>)

  /** One critical section on the queue: a call that can go on moves one byte; one that is done, or never can
      go on, returns.  Nothing happens to a freed pipe. */
  function After(q: Queue, op: Op): Queue {
    if !q.live then q else
    match op
    case Close(reader) =>
      if reader then Closed(q, q.readers - 1, q.writers) else Closed(q, q.readers, q.writers - 1)
    case Step(t) =>
      if t !in q.calls || q.calls[t].status.Returned? then q else
      match q.calls[t]
      case Reading(size, got, _) =>
        if |got| >= size || (q.contents == [] && q.writers == 0) then
          q.(calls := q.calls[t := Reading(size, got, Returned(|got|))])
        else if q.contents == [] then q
        else
          q.(contents := q.contents[1..], removed := q.removed + [Event(t, q.contents[0])],
             calls := q.calls[t := Reading(size, got + [q.contents[0]], Running)])
      case Writing(data, written, _) =>
        if written >= |data| then q.(calls := q.calls[t := Writing(data, written, Returned(written))])
        else if |q.contents| < 4096 then
          q.(contents := q.contents + [data[written]], inserted := q.inserted + [Event(t, data[written])],
             calls := q.calls[t := Writing(data, written + 1, Running)])
        else if q.readers == 0 then q.(calls := q.calls[t := Writing(data, written, Returned(-1))])
        else q
  }

  function Closed(q: Queue, readers: int, writers: int): Queue {
    q.(readers := readers, writers := writers, live := readers != 0 || writers != 0)
  }

  function Run(start: map<nat, Call>, ops: seq<Op>): Queue {
    if ops == [] then Queue([], [], [], 1, 1, true, start) else After(Run(start, ops[..|ops| - 1]), ops[|ops| - 1])
  }

  ghost function View(p: Ends, calls: map<nat, Call>): Queue
    requires p.buffer.Length == 4096
    reads p, p.buffer
  {
    Queue(p.Contents(), p.inserted, p.removed, p.readers, p.writers, p.live, calls)
  }

  /** One critical section of call t is one step of the queue. */
  method Turn(p: Ends, calls: map<nat, Call>, t: nat) returns (calls': map<nat, Call>)
    requires p.Valid() && p.live && t in calls && Tracked(calls, p.inserted, p.removed)
    modifies p, p.buffer
    ensures p.Valid() && Tracked(calls', p.inserted, p.removed)
    ensures View(p, calls') == After(old(View(p, calls)), Step(t))
  {
    hide Tracked, Ring, Bytes;
    calls' := calls;
    TrackedReturn(calls, p.inserted, p.removed, t);
    var call := calls[t];
    if call.status.Returned? { return; }
    if call.Reading? && |call.got| < call.size {
      var g := p.ReadByte(t);
      match g {
        case Byte(x) =>
          TrackedRead(calls, p.inserted, old(p.removed), t, x);
          calls' := calls[t := call.(got := call.got + [x])];
        case EndOfFile => calls' := calls[t := Ended(call, |call.got|)];
        case MustWait =>
      }
    } else if call.Writing? && call.written < |call.data| {
      var w := p.WriteByte(t, call.data[call.written]);
      match w {
        case Stored =>
          TrackedWrite(calls, old(p.inserted), p.removed, t);
          calls' := calls[t := call.(written := call.written + 1)];
        case Broken => calls' := calls[t := Ended(call, -1)];
        case Full =>
      }
    } else {
      calls' := calls[t := Ended(call, if call.Reading? then |call.got| else call.written)];
    }
  }

  ghost predicate Fresh(calls: map<nat, Call>) {
    forall t :: t in calls ==> match calls[t]
                               case Reading(_, got, status) => got == [] && status.Running?
                               case Writing(_, written, status) => written == 0 && status.Running?
  }

  /** Under every interleaving of any number of calls and closes the ring is a queue: the bytes removed
      followed by its contents are the bytes inserted; each reader has its share of the removed bytes and
      each writer has inserted a prefix of its data; and each call returns the number of its bytes, or -1 for a
      write cut short. */
  method Replay(start: map<nat, Call>, ops: seq<Op>) returns (p: Ends, calls: map<nat, Call>)
    requires Fresh(start)
    ensures fresh(p) && p.Valid() && Tracked(calls, p.inserted, p.removed) && View(p, calls) == Run(start, ops)
    ensures Bytes(p.removed) + p.Contents() == Bytes(p.inserted)
    ensures p.writePos == (p.readPos + p.available) % 4096 && p.available <= 4096
  {
    hide Ring, Bytes;
    p := new Ends();
    calls := start;
    for n := 0 to |ops|
      invariant fresh(p) && fresh(p.buffer) && p.Valid() && Tracked(calls, p.inserted, p.removed)
      invariant View(p, calls) == Run(start, ops[..n])
    {
      assert ops[..n + 1][..n] == ops[..n];
      match ops[n] {
        case Step(t) =>
          if p.live && t in calls { calls := Turn(p, calls, t); } else { NoCall(View(p, calls), t); }
        case Close(reader) =>
          if p.live { p.Close(reader); }
      }
    }
    assert ops[..|ops|] == ops;
  }

  lemma NoCall(q: Queue, t: nat)
    requires !q.live || t !in q.calls
    ensures After(q, Step(t)) == q
  {
  }

  // ---------------------------------------------------------------- when calls stop, and when they wait

  /** The ring is never overfull, and no call moves more than it was asked to. */
  ghost predicate Bounded(q: Queue) {
    && |q.contents| <= 4096
    && forall t :: t in q.calls ==> match q.calls[t]
                                    case Reading(size, got, _) => |got| <= size
                                    case Writing(data, written, _) => written <= |data|
  }

  lemma {:induction false} RunBounded(start: map<nat, Call>, ops: seq<Op>)
    requires Fresh(start)
    ensures Bounded(Run(start, ops)) && Run(start, ops).calls.Keys == start.Keys
  {
    if ops != [] { RunBounded(start, ops[..|ops| - 1]); }
  }

  lemma RunStep(start: map<nat, Call>, ops: seq<Op>, op: Op)
    ensures Run(start, ops + [op]) == After(Run(start, ops), op)
  {
    assert (ops + [op])[..|ops|] == ops;
  }

  lemma OtherCall(q: Queue, op: Op, t: nat)
    requires op != Step(t) && t in q.calls
    ensures t in After(q, op).calls && After(q, op).calls[t] == q.calls[t]
  {
  }

  /** In every run a write returns -1 exactly in a step of its own that finds the ring full and no reader left, and
      its length exactly in one that finds all of its data written. */
  lemma WriteStops(start: map<nat, Call>, ops: seq<Op>, op: Op, t: nat)
    requires Fresh(start) && t in start && t in Run(start, ops).calls
    requires Run(start, ops).calls[t].Writing? && Run(start, ops).calls[t].status == Running
    ensures var q, r := Run(start, ops), Run(start, ops + [op]);
      var n, written := |q.calls[t].data|, q.calls[t].written;
      && t in r.calls
      && (r.calls[t].status == Returned(-1) <==>
            op == Step(t) && q.live && written < n && |q.contents| == 4096 && q.readers == 0)
      && (r.calls[t].status == Returned(n) <==> op == Step(t) && q.live && written == n)
      && (r.calls[t].status in {Running, Returned(-1), Returned(n)})
  {
    RunBounded(start, ops);
    RunStep(start, ops, op);
    hide Run;
    if op != Step(t) { OtherCall(Run(start, ops), op, t); }
  }

  /** In every run a read returns exactly in a step of its own that finds it complete, or finds the ring empty and no
      writer left; it returns the number of its bytes. */
  lemma ReadStops(start: map<nat, Call>, ops: seq<Op>, op: Op, t: nat)
    requires Fresh(start) && t in start && t in Run(start, ops).calls
    requires Run(start, ops).calls[t].Reading? && Run(start, ops).calls[t].status == Running
    ensures var q, r := Run(start, ops), Run(start, ops + [op]);
      var size, n := q.calls[t].size, |q.calls[t].got|;
      && t in r.calls
      && (r.calls[t].status == Returned(n) <==>
            op == Step(t) && q.live && (n == size || (q.contents == [] && q.writers == 0)))
      && (r.calls[t].status in {Running, Returned(n)})
  {
    RunBounded(start, ops);
    RunStep(start, ops, op);
    hide Run;
    if op != Step(t) { OtherCall(Run(start, ops), op, t); }
  }

  /** In every run a step of an unfinished call changes nothing exactly when it is a read on an empty ring with a
      writer left, or a write on a full ring with a reader left. */
  lemma Waits(start: map<nat, Call>, ops: seq<Op>, t: nat)
    requires Fresh(start) && t in start && t in Run(start, ops).calls
    requires Run(start, ops).calls[t].status == Running && Run(start, ops).live
    ensures var q := Run(start, ops);
      Run(start, ops + [Step(t)]) == q <==>
        match q.calls[t]
        case Reading(size, got, _) => |got| < size && q.contents == [] && q.writers != 0
        case Writing(data, written, _) => written < |data| && |q.contents| == 4096 && q.readers != 0
  {
    RunBounded(start, ops);
    RunStep(start, ops, Step(t));
    hide Run;
  }

  /** With one writer and one reader the reader's bytes are a prefix of the writer's data, and the ring holds
      what lies between them. */
  lemma OneStream(calls: map<nat, Call>, inserted: seq<Event>, removed: seq<Event>, contents: seq<U8>, w: nat, r: nat)
    requires Tracked(calls, inserted, removed) && Bytes(removed) + contents == Bytes(inserted)
    requires w in calls && calls[w].Writing? && forall i :: 0 <= i < |inserted| ==> inserted[i].thread == w
    requires r in calls && calls[r].Reading? && forall i :: 0 <= i < |removed| ==> removed[i].thread == r
    ensures calls[r].got <= calls[w].data
    ensures calls[r].got + contents == calls[w].data[..calls[w].written]
  {
    hide Of, Bytes;
    OfAll(inserted, w);
    OfAll(removed, r);
    assert OnTrack(calls[w], Of(inserted, w), Of(removed, w));
    assert OnTrack(calls[r], Of(inserted, r), Of(removed, r));
    hide Tracked;
    FrontOf(calls[r].got, contents, calls[w].data, calls[w].written);
  }

  lemma FrontOf(a: seq<U8>, b: seq<U8>, data: seq<U8>, n: nat)
    requires n <= |data| && a + b == data[..n]
    ensures a <= data
  {
    assert a == (a + b)[..|a|] == data[..|a|];
  }
}
