/**
 The scheduler of kernel/process/process.c and sched_mlfq.c as an abstract machine: one current process,
 four ready queues and a sleep queue, all plain sequences.  The linked lists of module Mlfq refine it.
 */
module MlfqSpec {
  import opened Arith
  import opened Sequences

  /** What the scheduler keeps per process; base is the level it was created or forked at. */
  datatype Task = Task(level: int, slice: int, quantum: int, cpu: nat, until: U64, base: int)

  datatype Sched = Sched(current: nat, ready: seq<seq<nat>>, asleep: seq<nat>, tasks: map<nat, Task>, now: nat,
                         idle: nat)

  function Quantum(level: int): int {
    if level <= 0 then 2 else if level == 1 then 5 else if level == 2 then 10 else 20
  }

  // ---------------------------------------------------------------- where processes are

  ghost predicate Queued(v: Sched, l: int)
    requires 0 <= l < |v.ready|
  {
    && Unique(v.ready[l])
    && forall p :: p in v.ready[l] ==> p in v.tasks && v.tasks[p].level == l && p !in v.asleep
  }

  /** Every process other than the current one is in exactly one queue, its own. */
  ghost predicate Filed(v: Sched, p: nat)
    requires |v.ready| == 4 && p in v.tasks
  {
    p in v.asleep || (0 <= v.tasks[p].level < 4 && p in v.ready[v.tasks[p].level])
  }

  ghost predicate Queues(v: Sched) {
    && |v.ready| == 4 && Unique(v.asleep)
    && (forall l :: 0 <= l < 4 ==> Queued(v, l))
    && (forall p :: p in v.asleep ==> p in v.tasks)
    && v.idle in v.tasks && v.idle !in v.asleep
  }

  /** Between two dispatches: all live processes are queued. */
  ghost predicate Detached(v: Sched) {
    Queues(v) && forall p :: p in v.tasks ==> Filed(v, p)
  }

  /** Each live process is in exactly one place: current, the ready queue of its level, or asleep. */
  ghost predicate Proper(v: Sched) {
    && Queues(v) && v.current in v.tasks && v.current !in v.asleep
    && 0 <= v.tasks[v.current].level < 4
    && (forall l :: 0 <= l < 4 ==> v.current !in v.ready[l])
    && (forall p :: p in v.tasks && p != v.current ==> Filed(v, p))
  }

  // ---------------------------------------------------------------- the steps

  function Enqueue(ready: seq<seq<nat>>, l: int, p: nat): seq<seq<nat>>
    requires 0 <= l < |ready|
  {
    ready[l := ready[l] + [p]]
  }

  /** A process whose slice ran out moves one level down, if it can, with a new slice. */
  function Refill(t: Task): Task {
    if t.slice <= 0 then
      var l := if t.level < 3 then t.level + 1 else t.level;
      t.(level := l, quantum := Quantum(l), slice := Quantum(l))
    else t
  }

  /** The least non-empty level, 4 if there is none. */
  function Best(ready: seq<seq<nat>>): (l: int)
    requires |ready| == 4
    ensures 0 <= l <= 4 && (l < 4 ==> ready[l] != []) && forall k :: 0 <= k < l ==> ready[k] == []
  {
    if ready[0] != [] then 0 else if ready[1] != [] then 1 else if ready[2] != [] then 2
    else if ready[3] != [] then 3 else 4
  }

  /** Run the head of the best non-empty level. */
  function Dispatch(v: Sched): Sched
    requires |v.ready| == 4 && Best(v.ready) < 4
  {
    var l := Best(v.ready);
    v.(current := v.ready[l][0], ready := v.ready[l := v.ready[l][1..]])
  }

  function Requeue(v: Sched): Sched
    requires |v.ready| == 4 && v.current in v.tasks && 0 <= v.tasks[v.current].level < 4
  {
    var t := Refill(v.tasks[v.current]);
    v.(tasks := v.tasks[v.current := t], ready := Enqueue(v.ready, t.level, v.current))
  }

  /** The current process goes to the sleep queue for n ticks; the sum is taken modulo 2^64. */
  function Bed(v: Sched, n: I32): Sched
    requires v.current in v.tasks
  {
    v.(asleep := v.asleep + [v.current],
       tasks := v.tasks[v.current := v.tasks[v.current].(until := (v.now + n) % 0x1_0000_0000_0000_0000)])
  }

  function Drop(v: Sched): Sched {
    v.(tasks := map p | p in v.tasks && p != v.current :: v.tasks[p])
  }

  function Charge(v: Sched): Sched
    requires v.current in v.tasks
  {
    var t := v.tasks[v.current];
    v.(now := v.now + 1, tasks := v.tasks[v.current := t.(cpu := t.cpu + 1, slice := t.slice - 1)])
  }

  predicate Due(v: Sched, p: nat) {
    p in v.tasks && v.tasks[p].until <= v.now
  }

  /** The sleepers that are not due, in order. */
  function Still(v: Sched, s: seq<nat>): seq<nat> {
    if s == [] then [] else Still(v, s[..|s| - 1]) + (if Due(v, s[|s| - 1]) then [] else [s[|s| - 1]])
  }

  /** The sleepers of level l that are due, in order. */
  function Woken(v: Sched, s: seq<nat>, l: int): seq<nat> {
    if s == [] then [] else
      Woken(v, s[..|s| - 1], l)
      + (if Due(v, s[|s| - 1]) && v.tasks[s[|s| - 1]].level == l then [s[|s| - 1]] else [])
  }

  function Rejoin(v: Sched, s: seq<nat>): (r: seq<seq<nat>>)
    requires |v.ready| == 4
    ensures |r| == 4 && forall l :: 0 <= l < 4 ==> r[l] == v.ready[l] + Woken(v, s, l)
  {
    [v.ready[0] + Woken(v, s, 0), v.ready[1] + Woken(v, s, 1), v.ready[2] + Woken(v, s, 2), v.ready[3] + Woken(v, s, 3)]
  }

  /** All sleepers of s that are due become ready. */
  function Wake(v: Sched, s: seq<nat>): Sched
    requires |v.ready| == 4
  {
    v.(asleep := Still(v, s),
       ready := Rejoin(v, s),
       tasks := Awake(v, s))
  }

  /** The tasks once the sleepers of s that are due have woken. */
  function Awake(v: Sched, s: seq<nat>): map<nat, Task> {
    map p | p in v.tasks :: if p in s && Due(v, p) then v.tasks[p].(until := 0) else v.tasks[p]
  }

  datatype Op = Create(p: nat) | Fork(p: nat) | Yield | Tick | Sleep(n: I32) | Exit

  /** Process 0 never sleeps or exits, new processes have fresh addresses, and the tick counter does not wrap. */
  ghost predicate Allowed(v: Sched, op: Op) {
    match op
    case Create(p) => p !in v.tasks && p !in v.asleep && p != v.current
    case Fork(p) => p !in v.tasks && p !in v.asleep && p != v.current
    case Yield => true
    case Tick => v.now + 1 < TWO64
    case Sleep(n) => v.current != v.idle
    case Exit => v.current != v.idle
  }

  function Admit(v: Sched, p: nat, t: Task): Sched
    requires |v.ready| == 4 && 0 <= t.level < 4
  {
    v.(tasks := v.tasks[p := t], ready := Enqueue(v.ready, t.level, p))
  }

  function NewTask(): Task {
    Task(0, 2, 2, 0, 0, 0)
  }

  function Child(t: Task): Task {
    t.(cpu := 0, slice := t.quantum, base := t.level)
  }

  /** The queues from which the next process is taken, for the steps that schedule. */
  ghost function Before(v: Sched, op: Op): Sched
    requires Proper(v)
  {
    match op
    case Yield => Requeue(v)
    case Sleep(n) => Bed(v, n)
    case Exit => Drop(v)
    case Tick => if Expired(v) then Requeue(Ticking(v)) else Ticking(v)
    case Create(p) => Admit(v, p, NewTask())
    case Fork(p) => Admit(v, p, Child(v.tasks[v.current]))
  }

  function Ticking(v: Sched): Sched
    requires v.current in v.tasks && |v.ready| == 4
  {
    Wake(Charge(v), v.asleep)
  }

  predicate Expired(v: Sched)
    requires v.current in v.tasks
  {
    v.tasks[v.current].slice - 1 <= 0
  }

  ghost predicate Schedules(v: Sched, op: Op)
    requires v.current in v.tasks
  {
    op.Yield? || op.Sleep? || op.Exit? || (op.Tick? && Expired(v))
  }

  ghost function Step(v: Sched, op: Op): Sched
    requires Good(v) && Allowed(v, op)
  {
    if Schedules(v, op) then
      NeverHalts(v, op);
      Dispatch(Before(v, op))
    else Before(v, op)
  }

  // ---------------------------------------------------------------- every step keeps every process in one place

  lemma RequeueDetached(v: Sched)
    requires Proper(v)
    ensures Detached(Requeue(v))
  {
    var w := Requeue(v);
    var t := Refill(v.tasks[v.current]);
    assert Queued(v, t.level);
    UniquePush(v.ready[t.level], v.current);
    forall l | 0 <= l < 4 ensures Queued(w, l) {
      assert Queued(v, l);
    }
    forall p | p in w.tasks ensures Filed(w, p) {
      if p != v.current { assert Filed(v, p); } else { assert w.ready[t.level][|v.ready[t.level]|] == p; }
    }
  }

  lemma BedDetached(v: Sched, n: I32)
    requires Proper(v) && v.current != v.idle
    ensures Detached(Bed(v, n))
  {
    var w := Bed(v, n);
    UniquePush(v.asleep, v.current);
    forall l | 0 <= l < 4 ensures Queued(w, l) { assert Queued(v, l); }
    forall p | p in w.tasks ensures Filed(w, p) {
      if p != v.current { assert Filed(v, p); } else { assert w.asleep[|v.asleep|] == p; }
    }
  }

  lemma DropDetached(v: Sched)
    requires Proper(v) && v.current != v.idle
    ensures Detached(Drop(v))
  {
    var w := Drop(v);
    forall l | 0 <= l < 4 ensures Queued(w, l) { assert Queued(v, l); }
    forall p | p in w.tasks ensures Filed(w, p) { assert Filed(v, p); }
  }

  lemma DispatchProper(v: Sched)
    requires Detached(v)
    ensures Best(v.ready) < 4 && Proper(Dispatch(v))
  {
    assert Filed(v, v.idle);
    var b := Best(v.ready);
    var w := Dispatch(v);
    assert Queued(v, b);
    assert v.ready[b] == [w.current] + v.ready[b][1..];
    forall l | 0 <= l < 4 ensures Queued(w, l) && w.current !in w.ready[l] {
      assert Queued(v, l);
    }
    forall p | p in w.tasks && p != w.current ensures Filed(w, p) { assert Filed(v, p); }
  }

  lemma {:induction false} StillMembers(v: Sched, s: seq<nat>)
    ensures forall p :: p in Still(v, s) <==> p in s && !Due(v, p)
    ensures Unique(s) ==> Unique(Still(v, s))
  {
    if s != [] {
      var r, x := s[..|s| - 1], s[|s| - 1];
      assert s == r + [x];
      StillMembers(v, r);
      if Unique(s) && !Due(v, x) { UniquePush(Still(v, r), x); }
    }
  }

  lemma {:induction false} WokenMembers(v: Sched, s: seq<nat>, l: int)
    ensures forall p :: p in Woken(v, s, l) <==> p in s && Due(v, p) && v.tasks[p].level == l
    ensures Unique(s) ==> Unique(Woken(v, s, l))
  {
    if s != [] {
      var r, x := s[..|s| - 1], s[|s| - 1];
      assert s == r + [x];
      WokenMembers(v, r, l);
      if Unique(s) && Due(v, x) && v.tasks[x].level == l { UniquePush(Woken(v, r, l), x); }
    }
  }

  lemma WakeQueues(v: Sched)
    requires Queues(v)
    ensures Queues(Wake(v, v.asleep))
  {
    var w := Wake(v, v.asleep);
    StillMembers(v, v.asleep);
    forall l | 0 <= l < 4 ensures Queued(w, l) {
      hide Still, Woken;
      assert Queued(v, l);
      WokenMembers(v, v.asleep, l);
      UniqueAppend(v.ready[l], Woken(v, v.asleep, l));
    }
  }

  lemma WakeProper(v: Sched)
    requires Proper(v) && forall p :: p in v.asleep ==> 0 <= v.tasks[p].level < 4
    ensures Proper(Wake(v, v.asleep))
  {
    hide Still, Woken;
    var w := Wake(v, v.asleep);
    WakeQueues(v);
    StillMembers(v, v.asleep);
    forall l | 0 <= l < 4 ensures w.current !in w.ready[l] { WokenMembers(v, v.asleep, l); }
    forall p | p in w.tasks && p != w.current ensures Filed(w, p) {
      assert Filed(v, p);
      if p in v.asleep { WokenMembers(v, v.asleep, v.tasks[p].level); }
    }
  }

  // ---------------------------------------------------------------- level and slice

  /** CPU ticks a process needs to fall from level 0 to level l. */
  function Start(l: int): nat {
    if l <= 0 then 0 else if l == 1 then 2 else if l == 2 then 7 else 17
  }

  function LevelAt(c: nat): int {
    if c < 2 then 0 else if c < 7 then 1 else if c < 17 then 2 else 3
  }

  /** Ticks left until the next threshold: 2, 7, 17, then every 20. */
  function Left(c: nat): int {
    if c < 2 then 2 - c else if c < 7 then 7 - c else if c < 17 then 17 - c else 20 - (c - 17) % 20
  }

  /** Level and slice are a function of the base level and the CPU ticks alone. */
  ghost predicate Paced(t: Task) {
    && 0 <= t.base < 4 && t.level == LevelAt(Start(t.base) + t.cpu)
    && t.quantum == Quantum(t.level) && t.slice == Left(Start(t.base) + t.cpu)
  }

  ghost predicate AllPaced(v: Sched) {
    forall p :: p in v.tasks ==> Paced(v.tasks[p]) && v.tasks[p].cpu <= v.now
  }

  ghost predicate Good(v: Sched) {
    Proper(v) && AllPaced(v)
  }

  /** One charged tick and the refill that follows it. */
  lemma PacedTick(t: Task)
    requires Paced(t)
    ensures Paced(Refill(t.(cpu := t.cpu + 1, slice := t.slice - 1)))
    ensures t.slice - 1 > 0 ==> Paced(t.(cpu := t.cpu + 1, slice := t.slice - 1))
    ensures t.slice > 0 && Refill(t) == t
  {
  }

  /** The halting branch of process_schedule is never reached: some level is not empty. */
  lemma NeverHalts(v: Sched, op: Op)
    requires Proper(v) && Allowed(v, op) && Schedules(v, op)
    requires op.Tick? ==> AllPaced(v)
    ensures Detached(Before(v, op)) && |Before(v, op).ready| == 4 && Best(Before(v, op).ready) < 4
  {
    match op
    case Yield => RequeueDetached(v); DispatchProper(Requeue(v));
    case Sleep(n) => BedDetached(v, n); DispatchProper(Bed(v, n));
    case Exit => DropDetached(v); DispatchProper(Drop(v));
    case Tick =>
      TickingProper(v);
      RequeueDetached(Ticking(v));
      DispatchProper(Requeue(Ticking(v)));
  }

  lemma ChargeProper(v: Sched)
    requires Proper(v)
    ensures Proper(Charge(v))
  {
    var w := Charge(v);
    forall l | 0 <= l < 4 ensures Queued(w, l) { assert Queued(v, l); }
    forall p | p in w.tasks && p != w.current ensures Filed(w, p) { assert Filed(v, p); }
  }

  lemma TickingProper(v: Sched)
    requires Proper(v) && AllPaced(v)
    ensures Proper(Ticking(v))
  {
    ChargeProper(v);
    WakeProper(Charge(v));
  }

  lemma AdmitProper(v: Sched, p: nat, t: Task)
    requires Proper(v) && 0 <= t.level < 4 && p !in v.tasks && p !in v.asleep && p != v.current
    ensures Proper(Admit(v, p, t))
  {
    var w := Admit(v, p, t);
    assert Queued(v, t.level);
    UniquePush(v.ready[t.level], p);
    forall l | 0 <= l < 4 ensures Queued(w, l) { assert Queued(v, l); }
    forall q | q in w.tasks && q != w.current ensures Filed(w, q) {
      if q != p { assert Filed(v, q); } else { assert w.ready[t.level][|v.ready[t.level]|] == p; }
    }
  }

  lemma BeforePaced(v: Sched, op: Op)
    requires Good(v) && Allowed(v, op)
    ensures AllPaced(Before(v, op))
  {
    PacedTick(v.tasks[v.current]);
    if op.Tick? { TickPaced(v); }
  }

  lemma TickPaced(v: Sched)
    requires Good(v)
    ensures AllPaced(Before(v, Tick))
  {
    hide Queues, Rejoin, Still, Paced, Refill;
    var t := v.tasks[v.current];
    PacedTick(t);
    RefillKeeps(t.(cpu := t.cpu + 1, slice := t.slice - 1));
    Four(v);
    var w := Ticking(v);
    forall p | p in w.tasks && p != v.current ensures Paced(w.tasks[p]) && w.tasks[p].cpu <= w.now {
      Untimed(v.tasks[p]);
    }
  }

  lemma Untimed(t: Task)
    requires Paced(t)
    ensures Paced(t.(until := 0))
  {
  }

  lemma RefillKeeps(t: Task)
    ensures Refill(t).cpu == t.cpu && (0 <= t.level < 4 ==> 0 <= Refill(t).level < 4)
  {
  }

  /** Every step keeps each live process in exactly one place and its level on schedule. */
  lemma StepGood(v: Sched, op: Op)
    requires Good(v) && Allowed(v, op)
    ensures Good(Step(v, op))
  {
    BeforePaced(v, op);
    if Schedules(v, op) {
      NeverHalts(v, op);
      DispatchProper(Before(v, op));
    } else {
      match op
      case Tick => TickingProper(v);
      case Create(p) => AdmitProper(v, p, NewTask());
      case Fork(p) => AdmitProper(v, p, Child(v.tasks[v.current]));
    }
  }

  // ---------------------------------------------------------------- whole runs

  ghost predicate Legal(v: Sched, ops: seq<Op>)
    requires Good(v)
    decreases |ops|
  {
    ops == [] || (Allowed(v, ops[0]) && (StepGood(v, ops[0]); Legal(Step(v, ops[0]), ops[1..])))
  }

  ghost function Run(v: Sched, ops: seq<Op>): (w: Sched)
    requires Good(v) && Legal(v, ops)
    ensures Good(w)
    decreases |ops|
  {
    if ops == [] then v else
      StepGood(v, ops[0]);
      Run(Step(v, ops[0]), ops[1..])
  }

  lemma {:induction false} RunSnoc(v: Sched, ops: seq<Op>, op: Op)
    requires Good(v) && Legal(v, ops + [op])
    ensures Legal(v, ops) && Allowed(Run(v, ops), op)
    ensures Run(v, ops + [op]) == Step(Run(v, ops), op)
    decreases |ops|
  {
    hide Step, Good, Allowed;
    if ops == [] {
      assert Legal(v, [op]);
      assert ops + [op] == [op] && [op][1..] == [];
    } else {
      assert (ops + [op])[1..] == ops[1..] + [op];
      StepGood(v, ops[0]);
      RunSnoc(Step(v, ops[0]), ops[1..], op);
    }
  }

  lemma {:induction false} LegalPrefix(v: Sched, ops: seq<Op>, k: nat)
    requires Good(v) && Legal(v, ops) && k <= |ops|
    ensures Legal(v, ops[..k])
    decreases |ops|
  {
    hide Step, Good, Allowed;
    if k > 0 {
      assert ops[..k][1..] == ops[1..][..k - 1];
      StepGood(v, ops[0]);
      LegalPrefix(Step(v, ops[0]), ops[1..], k - 1);
    }
  }

  /** The scheduler at boot: process 0 runs alone. */
  function Boot(idle: nat): Sched {
    Sched(idle, [[], [], [], []], [], map[idle := NewTask()], 0, idle)
  }

  predicate Makes(op: Op) {
    op.Create? || op.Fork?
  }

  /** Process structures are never freed, so the addresses of new ones are all different. */
  ghost predicate NewAddresses(idle: nat, ops: seq<Op>) {
    forall i :: 0 <= i < |ops| && Makes(ops[i]) ==>
      ops[i].p != 0 && ops[i].p != idle && forall j :: 0 <= j < i && Makes(ops[j]) ==> ops[j].p != ops[i].p
  }

  /** The places of all processes, with multiplicity. */
  ghost function Places(v: Sched): multiset<nat>
    requires |v.ready| == 4
  {
    multiset{v.current} + multiset(v.ready[0]) + multiset(v.ready[1]) + multiset(v.ready[2]) + multiset(v.ready[3])
    + multiset(v.asleep)
  }

  /** At the end of every run the current process, the ready queues and the sleep queue together hold each
      live process exactly once and nothing else. */
  lemma ExactlyOnePlace(v: Sched, ops: seq<Op>)
    requires Good(v) && Legal(v, ops)
    ensures Places(Run(v, ops)) == multiset(Run(v, ops).tasks.Keys)
  {
    var w := Run(v, ops);
    forall p ensures Places(w)[p] == multiset(w.tasks.Keys)[p] { OnePlace(w, p); }
  }

  lemma OnePlace(w: Sched, p: nat)
    requires Proper(w)
    ensures Places(w)[p] == if p in w.tasks then 1 else 0
  {
    forall l | 0 <= l < 4
      ensures multiset(w.ready[l])[p] == if p in w.ready[l] then 1 else 0
      ensures p in w.ready[l] ==> p in w.tasks && w.tasks[p].level == l && p !in w.asleep
    {
      assert Queued(w, l);
      UniqueCount(w.ready[l], p);
    }
    UniqueCount(w.asleep, p);
    if p in w.tasks && p != w.current { assert Filed(w, p); }
  }

  /** For a process made by process_create the level depends on its CPU ticks alone. */
  lemma LevelByTicks(v: Sched, ops: seq<Op>, p: nat)
    requires Good(v) && Legal(v, ops) && p in Run(v, ops).tasks && Run(v, ops).tasks[p].base == 0
    ensures var t := Run(v, ops).tasks[p];
      && t.level == (if t.cpu < 2 then 0 else if t.cpu < 7 then 1 else if t.cpu < 17 then 2 else 3)
      && (t.cpu < 17 ==> t.cpu + t.slice == Start(t.level + 1))
      && 1 <= t.slice <= t.quantum == Quantum(t.level)
  {
  }

  // ---------------------------------------------------------------- sleeping

  function TicksIn(ops: seq<Op>): nat {
    if ops == [] then 0 else (if ops[0].Tick? then 1 else 0) + TicksIn(ops[1..])
  }

  /** A sleeper leaves the sleep queue exactly at the first tick that reaches its time. */
  lemma SleepStep(v: Sched, op: Op, p: nat)
    requires Good(v) && Allowed(v, op) && p in v.asleep
    ensures var w := Step(v, op);
      && w.now == v.now + (if op.Tick? then 1 else 0)
      && (p in w.asleep <==> !(op.Tick? && v.tasks[p].until <= v.now + 1))
      && p in w.tasks && (p in w.asleep ==> w.tasks[p] == v.tasks[p])
  {
    hide Still, Woken;
    StepGood(v, op);
    if op.Tick? { StillMembers(Charge(v), v.asleep); }
  }

  lemma {:induction false} SleepsOn(v: Sched, ops: seq<Op>, p: nat)
    requires Good(v) && Legal(v, ops) && p in v.asleep && v.now + TicksIn(ops) < v.tasks[p].until
    ensures p in Run(v, ops).asleep && Run(v, ops).tasks[p] == v.tasks[p] && Run(v, ops).now == v.now + TicksIn(ops)
    decreases |ops|
  {
    hide Step, Good, Allowed;
    if ops != [] {
      SleepStep(v, ops[0], p);
      StepGood(v, ops[0]);
      SleepsOn(Step(v, ops[0]), ops[1..], p);
    }
  }

  lemma {:induction false} TicksSnoc(ops: seq<Op>, op: Op)
    ensures TicksIn(ops + [op]) == TicksIn(ops) + if op.Tick? then 1 else 0
  {
    if ops != [] {
      assert (ops + [op])[1..] == ops[1..] + [op];
      TicksSnoc(ops[1..], op);
    }
  }

  lemma WakesNow(w: Sched, pre: seq<Op>, p: nat)
    requires Good(w) && p in w.asleep && Legal(w, pre + [Tick]) && w.now + TicksIn(pre) + 1 == w.tasks[p].until
    ensures p in Run(w, pre + [Tick]).tasks && p !in Run(w, pre + [Tick]).asleep
  {
    hide Step, Good, Allowed;
    RunSnoc(w, pre, Tick);
    SleepsOn(w, pre, p);
    SleepStep(Run(w, pre), Tick, p);
  }

  lemma FallsAsleep(v: Sched, n: I32)
    requires Good(v) && v.current != v.idle && 0 <= v.now + n < TWO64
    ensures var w := Step(v, Sleep(n));
      v.current in w.asleep && v.current in w.tasks && w.tasks[v.current].until == v.now + n && w.now == v.now
  {
    NeverHalts(v, Sleep(n));
    var w := Step(v, Sleep(n));
    hide Good, Detached;
    assert w.asleep == v.asleep + [v.current] && w.asleep[|v.asleep|] == v.current;
  }

  /** A process that sleeps n >= 1 ticks sleeps, and is not current, in every run with fewer than n ticks,
      and is awake again at the n-th tick. */
  lemma WakesAtNthTick(v: Sched, n: I32, ops: seq<Op>)
    requires Good(v) && v.current != v.idle && 1 <= n && v.now + n < TWO64
    requires Good(Step(v, Sleep(n))) && Legal(Step(v, Sleep(n)), ops)
    ensures var w := Run(Step(v, Sleep(n)), ops);
      && (TicksIn(ops) < n ==> v.current in w.asleep && w.current != v.current)
      && (TicksIn(ops) == n && ops[|ops| - 1].Tick? ==> v.current in w.tasks && v.current !in w.asleep)
  {
    hide Step, Queues, AllPaced;
    FallsAsleep(v, n);
    var p, w := v.current, Step(v, Sleep(n));
    if TicksIn(ops) < n {
      SleepsOn(w, ops, p);
    } else if TicksIn(ops) == n && ops[|ops| - 1].Tick? {
      assert ops == ops[..|ops| - 1] + [Tick];
      TicksSnoc(ops[..|ops| - 1], Tick);
      WakesNow(w, ops[..|ops| - 1], p);
    }
  }

  // ---------------------------------------------------------------- what each step does to the tasks

  /** A new process starts at level 0 with two ticks and waits behind all others there. */
  lemma CreateEffect(v: Sched, p: nat)
    requires Good(v) && Allowed(v, Create(p))
    ensures var w := Step(v, Create(p));
      && |v.ready| == 4 && w.ready == v.ready[0 := v.ready[0] + [p]] && w.asleep == v.asleep
      && w.current == v.current && w.now == v.now && w.tasks.Keys == v.tasks.Keys + {p}
      && w.tasks[p].level == 0 && w.tasks[p].slice == 2 == w.tasks[p].quantum && w.tasks[p].cpu == 0
      && forall q :: q in v.tasks ==> w.tasks[q] == v.tasks[q]
  {
  }

  /** A forked process starts at the level of its parent with a full slice, and waits behind all others there. */
  lemma ForkEffect(v: Sched, p: nat)
    requires Good(v) && Allowed(v, Fork(p))
    ensures var w, t := Step(v, Fork(p)), v.tasks[v.current];
      && |v.ready| == 4 && 0 <= t.level < 4 && w.ready == v.ready[t.level := v.ready[t.level] + [p]]
      && w.asleep == v.asleep && w.current == v.current && w.now == v.now && w.tasks.Keys == v.tasks.Keys + {p}
      && w.tasks[p].level == t.level && w.tasks[p].slice == t.quantum == w.tasks[p].quantum && w.tasks[p].cpu == 0
      && forall q :: q in v.tasks ==> w.tasks[q] == v.tasks[q]
  {
  }

  /** A process that exits is gone, and no other task changes. */
  lemma ExitEffect(v: Sched)
    requires Good(v) && Allowed(v, Exit)
    ensures var w := Step(v, Exit);
      && w.tasks.Keys == v.tasks.Keys - {v.current} && w.asleep == v.asleep && w.now == v.now
      && forall q :: q in w.tasks ==> w.tasks[q] == v.tasks[q]
  {
  }

  /** A process that sleeps is the last of the sleepers, with its time modulo 2^64; nothing else of any task
      changes. */
  lemma SleepEffect(v: Sched, n: I32)
    requires Good(v) && Allowed(v, Sleep(n))
    ensures var w := Step(v, Sleep(n));
      && w.asleep == v.asleep + [v.current] && w.now == v.now && w.tasks.Keys == v.tasks.Keys
      && w.tasks[v.current].until == (v.now + n) % 0x1_0000_0000_0000_0000
      && w.tasks[v.current] == v.tasks[v.current].(until := w.tasks[v.current].until)
      && forall q :: q in v.tasks && q != v.current ==> w.tasks[q] == v.tasks[q]
  {
  }

  /** One level down as far as the last, with the slice of that level: 2, 5, 10 or 20 ticks. */
  ghost predicate Demoted(t: Task, u: Task) {
    && u.level == (if t.level < 3 then t.level + 1 else t.level) && u.slice == u.quantum
    && u.quantum == (if u.level == 1 then 5 else if u.level == 2 then 10 else if u.level == 0 then 2 else 20)
  }

  /** Yielding keeps what is left of the slice; only a used-up one costs a level. */
  lemma YieldEffect(v: Sched)
    requires Good(v)
    ensures var w, t := Step(v, Yield), v.tasks[v.current];
      && w.asleep == v.asleep && w.now == v.now && w.tasks.Keys == v.tasks.Keys
      && (if t.slice > 0 then w.tasks[v.current] == t else Demoted(t, w.tasks[v.current]))
      && w.tasks[v.current].cpu == t.cpu
      && forall q :: q in v.tasks && q != v.current ==> w.tasks[q] == v.tasks[q]
  {
  }

  /** A tick charges the current process; with its last tick it goes a level down and another one runs. */
  lemma TickEffect(v: Sched)
    requires Good(v) && Allowed(v, Tick)
    ensures var w, t := Step(v, Tick), v.tasks[v.current];
      && w.now == v.now + 1 && w.tasks.Keys == v.tasks.Keys && w.tasks[v.current].cpu == t.cpu + 1
      && (if t.slice > 1 then w.current == v.current && w.tasks[v.current].slice == t.slice - 1
            && w.tasks[v.current].level == t.level
          else Demoted(t, w.tasks[v.current]))
      && forall q :: q in v.tasks && q != v.current ==>
           && w.tasks[q].level == v.tasks[q].level && w.tasks[q].slice == v.tasks[q].slice
           && w.tasks[q].cpu == v.tasks[q].cpu
  {
    hide Still, Woken, Rejoin, Ticking, Proper, AllPaced, Step;
    TickIs(v);
    CurrentIn(v);
    TickingTasks(v);
  }

  lemma TickingTasks(v: Sched)
    requires Good(v)
    ensures v.current in v.tasks && |v.ready| == 4
    ensures var w, t := Ticking(v), v.tasks[v.current];
      && w.current == v.current && w.now == v.now + 1 && w.tasks.Keys == v.tasks.Keys
      && w.tasks[v.current].cpu == t.cpu + 1 && w.tasks[v.current].slice == t.slice - 1
      && w.tasks[v.current].level == t.level
      && forall q :: q in v.tasks && q != v.current ==>
           && w.tasks[q].level == v.tasks[q].level && w.tasks[q].slice == v.tasks[q].slice
           && w.tasks[q].cpu == v.tasks[q].cpu
  {
    hide Still, Woken, Rejoin, AllPaced;
  }

  lemma {:induction false} WokenAppend(v: Sched, a: seq<nat>, b: seq<nat>, l: int)
    ensures Woken(v, a + b, l) == Woken(v, a, l) + Woken(v, b, l)
  {
    if b == [] {
      assert a + b == a;
    } else {
      var n := |b| - 1;
      assert (a + b)[..|a + b| - 1] == a + b[..n];
      WokenAppend(v, a, b[..n], l);
    }
  }

  lemma CurrentIn(v: Sched)
    requires Good(v)
    ensures v.current in v.tasks && |v.ready| == 4 && 0 <= v.tasks[v.current].level < 4
  {
  }

  lemma WokenOne(v: Sched, p: nat, l: int)
    requires Due(v, p) && v.tasks[p].level == l
    ensures Woken(v, [p], l) == [p]
  {
    assert [p][..0] == [];
  }

  /** Of two processes of one level that a tick wakes, the one that went to sleep first is ready first, and both
      behind those that were ready before. */
  lemma WakeOrder(v: Sched, a: seq<nat>, p: nat, b: seq<nat>, q: nat, c: seq<nat>, l: int)
    requires Good(v) && Allowed(v, Tick) && v.tasks[v.current].slice > 1 && v.asleep == a + [p] + b + [q] + c
    requires p in v.tasks && v.tasks[p].until <= v.now + 1 && v.tasks[p].level == l && 0 <= l < 4
    requires q in v.tasks && v.tasks[q].until <= v.now + 1 && v.tasks[q].level == l && p != v.current && q != v.current
    ensures var w := Step(v, Tick);
      && |v.ready| == |w.ready| == 4
      && exists i, j ::
           |v.ready[l]| <= i < j < |w.ready[l]| && w.ready[l][i] == p && w.ready[l][j] == q
  {
    hide Rejoin, Still, Awake, Woken, AllPaced, Proper;
    TickIs(v);
    CurrentIn(v);
    var u := Charge(v);
    assert Due(u, p) && Due(u, q);
    WokenAppend(u, a + [p] + b + [q], c, l);
    WokenAppend(u, a + [p] + b, [q], l);
    WokenAppend(u, a + [p], b, l);
    WokenAppend(u, a, [p], l);
    WokenOne(u, p, l);
    WokenOne(u, q, l);
    var i := |v.ready[l]| + |Woken(u, a, l)|;
    var j := i + 1 + |Woken(u, b, l)|;
    assert Step(v, Tick).ready[l][i] == p && Step(v, Tick).ready[l][j] == q;
  }

  // ---------------------------------------------------------------- first in, first out

  /** The processes that join ready queue l in one step, in order. */
  ghost function Joins(v: Sched, op: Op, l: int): seq<nat>
    requires Proper(v)
  {
    match op
    case Create(p) => if l == 0 then [p] else []
    case Fork(p) => if l == v.tasks[v.current].level then [p] else []
    case Yield => if l == Refill(v.tasks[v.current]).level then [v.current] else []
    case Sleep(n) => []
    case Exit => []
    case Tick =>
      Woken(Charge(v), v.asleep, l)
      + (if Expired(v) && l == Refill(Charge(v).tasks[v.current]).level then [v.current] else [])
  }

  /** The process that a step takes from ready queue l, if any. */
  ghost function Leaves(v: Sched, op: Op, l: int): seq<nat>
    requires Good(v) && Allowed(v, op)
  {
    if Schedules(v, op) && (NeverHalts(v, op); Best(Before(v, op).ready) == l) then [Step(v, op).current] else []
  }

  lemma BeforeJoins(v: Sched, op: Op, l: int)
    requires Good(v) && Allowed(v, op) && 0 <= l < 4
    ensures |Before(v, op).ready| == 4 && Before(v, op).ready[l] == v.ready[l] + Joins(v, op, l)
  {
    if op.Tick? { TickJoins(v, l); }
  }

  lemma TickJoins(v: Sched, l: int)
    requires Good(v) && 0 <= l < 4
    ensures |Before(v, Tick).ready| == 4 && Before(v, Tick).ready[l] == v.ready[l] + Joins(v, Tick, l)
  {
    hide Still, Woken, AllPaced, Queues;
    assert |v.ready| == 4 by { Four(v); }
    var w, k := Ticking(v), Woken(Charge(v), v.asleep, l);
    assert w.ready[l] == v.ready[l] + k && w.tasks[v.current] == Charge(v).tasks[v.current];
    assert v.ready[l] + k + [v.current] == v.ready[l] + (k + [v.current]) && k + [] == k;
  }

  lemma Four(v: Sched)
    requires Proper(v)
    ensures |v.ready| == 4
  {
  }

  /** In one step queue l loses at most its head and gains at its tail. */
  lemma FifoStep(v: Sched, op: Op, l: int)
    requires Good(v) && Allowed(v, op) && 0 <= l < 4
    ensures |Step(v, op).ready| == 4
    ensures Leaves(v, op, l) + Step(v, op).ready[l] == v.ready[l] + Joins(v, op, l)
  {
    BeforeJoins(v, op, l);
    if Schedules(v, op) { NeverHalts(v, op); }
    hide Joins, Before, Good, Proper, Allowed, Schedules;
    var b := Before(v, op);
    if Schedules(v, op) {
      assert b.ready[Best(b.ready)] == [b.ready[Best(b.ready)][0]] + b.ready[Best(b.ready)][1..];
    }
  }

  /** The processes that join and leave ready queue l over a run. */
  ghost function JoinsAll(v: Sched, ops: seq<Op>, l: int): seq<nat>
    requires Good(v) && Legal(v, ops)
    decreases |ops|
  {
    if ops == [] then [] else
      StepGood(v, ops[0]);
      Joins(v, ops[0], l) + JoinsAll(Step(v, ops[0]), ops[1..], l)
  }

  ghost function LeavesAll(v: Sched, ops: seq<Op>, l: int): seq<nat>
    requires Good(v) && Legal(v, ops)
    decreases |ops|
  {
    if ops == [] then [] else
      StepGood(v, ops[0]);
      Leaves(v, ops[0], l) + LeavesAll(Step(v, ops[0]), ops[1..], l)
  }

  /** Over every run each level is a first-in first-out queue: what was dispatched from it, followed by
      what still waits in it, is what waited at first followed by all that joined since. */
  lemma {:induction false} Fifo(v: Sched, ops: seq<Op>, l: int)
    requires Good(v) && Legal(v, ops) && 0 <= l < 4
    ensures |v.ready| == |Run(v, ops).ready| == 4
    ensures LeavesAll(v, ops, l) + Run(v, ops).ready[l] == v.ready[l] + JoinsAll(v, ops, l)
    decreases |ops|
  {
    assert |v.ready| == 4;
    hide Step, Good, Allowed, Joins, Leaves;
    if ops != [] {
      var op, w := ops[0], Step(v, ops[0]);
      FifoStep(v, op, l);
      StepGood(v, op);
      Fifo(w, ops[1..], l);
      Regroup(v.ready[l], Joins(v, op, l), Leaves(v, op, l), w.ready[l],
              LeavesAll(w, ops[1..], l), Run(w, ops[1..]).ready[l], JoinsAll(w, ops[1..], l));
    }
  }

  lemma Regroup(v: seq<nat>, j: seq<nat>, a: seq<nat>, w: seq<nat>, b: seq<nat>, r: seq<nat>, k: seq<nat>)
    requires a + w == v + j && b + r == w + k
    ensures (a + b) + r == v + (j + k)
  {
    assert (a + b) + r == a + (b + r) == a + (w + k) == (a + w) + k == (v + j) + k == v + (j + k);
  }

  /** All that waited in queue l at first or joined it in a run and in one more step, in order of arrival. */
  ghost function Arrivals(v: Sched, ops: seq<Op>, op: Op, l: int): seq<nat>
    requires Good(v) && Legal(v, ops) && 0 <= l < 4
  {
    Four(v);
    v.ready[l] + JoinsAll(v, ops, l) + Joins(Run(v, ops), op, l)
  }

  /** In w, level l has dispatched all that arrived before the current process and holds all that arrived after
      it, and better levels have dispatched all arrivals. */
  ghost predicate InTurn(v: Sched, ops: seq<Op>, op: Op, w: Sched, l: int)
    requires Good(v) && Legal(v, ops)
  {
    && 0 <= l < 4 && |w.ready| == 4
    && Arrivals(v, ops, op, l) == LeavesAll(v, ops, l) + [w.current] + w.ready[l]
    && forall k :: 0 <= k < l ==> Arrivals(v, ops, op, k) == LeavesAll(v, ops, k)
  }

  /** A scheduling step after any run takes the longest-waiting process of the best non-empty level.  Of the
      arrivals at that level, those before it have been dispatched already and those after it still wait; of
      the arrivals at better levels all have been dispatched. */
  lemma PicksLongestWaiting(v: Sched, ops: seq<Op>, op: Op)
    requires Good(v) && Legal(v, ops) && Allowed(Run(v, ops), op) && Schedules(Run(v, ops), op)
    ensures exists l :: InTurn(v, ops, op, Step(Run(v, ops), op), l)
  {
    hide Before, Proper, AllPaced, Allowed, Schedules, Step, Arrivals, LeavesAll, Legal, Run, Best;
    var u := Run(v, ops);
    PicksHead(u, op);
    var l, w := Best(Before(u, op).ready), Step(u, op);
    ArrivalsAre(v, ops, op, l);
    Regrouped(LeavesAll(v, ops, l), w.current, w.ready[l]);
    forall k | 0 <= k < l ensures Arrivals(v, ops, op, k) == LeavesAll(v, ops, k) {
      ArrivalsAre(v, ops, op, k);
    }
    assert InTurn(v, ops, op, w, l);
  }

  lemma Regrouped(a: seq<nat>, p: nat, b: seq<nat>)
    ensures a + ([p] + b) == a + [p] + b
  {
  }

  lemma ArrivalsAre(v: Sched, ops: seq<Op>, op: Op, l: int)
    requires Good(v) && Legal(v, ops) && Allowed(Run(v, ops), op) && 0 <= l < 4
    ensures |Before(Run(v, ops), op).ready| == 4
    ensures Arrivals(v, ops, op, l) == LeavesAll(v, ops, l) + Before(Run(v, ops), op).ready[l]
  {
    hide Before, Proper, AllPaced, Allowed, Joins, JoinsAll, LeavesAll, Legal, Run;
    Fifo(v, ops, l);
    BeforeJoins(Run(v, ops), op, l);
    var a, b, c := LeavesAll(v, ops, l), Run(v, ops).ready[l], Joins(Run(v, ops), op, l);
    assert a + (b + c) == a + b + c;
  }

  /** The step takes the head of the first non-empty queue. */
  lemma PicksHead(v: Sched, op: Op)
    requires Good(v) && Allowed(v, op) && Schedules(v, op)
    ensures var w, b := Step(v, op), Before(v, op);
      && |b.ready| == 4 && |w.ready| == 4 && 0 <= Best(b.ready) < 4
      && b.ready[Best(b.ready)] == [w.current] + w.ready[Best(b.ready)]
      && forall k :: 0 <= k < Best(b.ready) ==> b.ready[k] == []
  {
    NeverHalts(v, op);
    hide Before, Good, Allowed, Schedules, Detached;
    var w, b := Step(v, op), Before(v, op);
    assert b.ready[Best(b.ready)] == [w.current] + w.ready[Best(b.ready)];
  }

  // ---------------------------------------------------------------- waking one sleeper at a time

  /** The first n sleepers have been looked at. */
  ghost function Partly(v: Sched, n: nat): Sched
    requires |v.ready| == 4 && n <= |v.asleep|
  {
    Wake(v, v.asleep[..n]).(asleep := Still(v, v.asleep[..n]) + v.asleep[n..])
  }

  /** The sleeper at position k becomes ready. */
  function WakeOne(v: Sched, k: nat): Sched
    requires |v.ready| == 4 && k < |v.asleep| && v.asleep[k] in v.tasks && 0 <= v.tasks[v.asleep[k]].level < 4
  {
    var p := v.asleep[k];
    v.(asleep := Without(v.asleep, k), ready := Enqueue(v.ready, v.tasks[p].level, p),
       tasks := v.tasks[p := v.tasks[p].(until := 0)])
  }

  lemma RejoinStep(v: Sched, s: seq<nat>, p: nat)
    requires |v.ready| == 4 && p in v.tasks && 0 <= v.tasks[p].level < 4
    ensures Rejoin(v, s + [p]) == if Due(v, p) then Enqueue(Rejoin(v, s), v.tasks[p].level, p) else Rejoin(v, s)
  {
    hide Rejoin;
    var t := s + [p];
    assert t[..|t| - 1] == s;
    var r := if Due(v, p) then Enqueue(Rejoin(v, s), v.tasks[p].level, p) else Rejoin(v, s);
    forall l | 0 <= l < 4 ensures Rejoin(v, t)[l] == r[l] {
      if Due(v, p) && v.tasks[p].level == l {
        assert v.ready[l] + (Woken(v, s, l) + [p]) == v.ready[l] + Woken(v, s, l) + [p];
      } else {
        assert Woken(v, t, l) == Woken(v, s, l) + [] == Woken(v, s, l);
      }
    }
  }

  lemma SleeperOnce(v: Sched, n: nat)
    requires Queues(v) && n < |v.asleep|
    ensures |v.ready| == 4 && v.asleep[n] !in v.asleep[..n] && v.asleep[n] in v.tasks
  {
  }

  lemma PartlyStep(v: Sched, n: nat)
    requires Queues(v) && n < |v.asleep| && 0 <= v.tasks[v.asleep[n]].level < 4
    ensures var p, k := v.asleep[n], |Still(v, v.asleep[..n])|;
      && k < |Partly(v, n).asleep| && Partly(v, n).asleep[k] == p && p in v.tasks && p in Partly(v, n).tasks
      && Partly(v, n).tasks[p] == v.tasks[p]
      && (Due(v, p) ==> Partly(v, n + 1) == WakeOne(Partly(v, n), k) && |Still(v, v.asleep[..n + 1])| == k)
      && (!Due(v, p) ==> Partly(v, n + 1) == Partly(v, n) && |Still(v, v.asleep[..n + 1])| == k + 1)
  {
    hide Rejoin, Woken, Enqueue, Still, Queues, Due, Awake, Without;
    SleeperOnce(v, n);
    var p := v.asleep[n];
    var s, t := v.asleep[..n], v.asleep[..n + 1];
    assert t == s + [p];
    RejoinStep(v, s, p);
    StillStep(v, n);
    AwakeStep(v, s, p);
  }

  lemma AwakeStep(v: Sched, s: seq<nat>, p: nat)
    requires p in v.tasks && p !in s
    ensures p in Awake(v, s) && Awake(v, s)[p] == v.tasks[p]
    ensures Awake(v, s + [p]) == if Due(v, p) then Awake(v, s)[p := v.tasks[p].(until := 0)] else Awake(v, s)
  {
    hide Due;
  }

  lemma StillStep(v: Sched, n: nat)
    requires n < |v.asleep|
    ensures var p, k := v.asleep[n], |Still(v, v.asleep[..n])|;
      var a, b := Still(v, v.asleep[..n]) + v.asleep[n..], Still(v, v.asleep[..n + 1]) + v.asleep[n + 1..];
      && k < |a| && a[k] == p && b == (if Due(v, p) then Without(a, k) else a)
      && |Still(v, v.asleep[..n + 1])| == if Due(v, p) then k else k + 1
  {
    var t, s, p, rest := v.asleep[..n + 1], Still(v, v.asleep[..n]), v.asleep[n], v.asleep[n + 1..];
    assert t[..|t| - 1] == v.asleep[..n] && t[|t| - 1] == p;
    assert Still(v, t) == s + (if Due(v, p) then [] else [p]);
    hide Still;
    assert v.asleep[n..] == [p] + rest;
    MiddleOut(s, p, rest);
  }

  lemma MiddleOut(s: seq<nat>, p: nat, rest: seq<nat>)
    ensures Without(s + ([p] + rest), |s|) == s + [] + rest && s + [p] + rest == s + ([p] + rest)
    ensures (s + ([p] + rest))[|s|] == p
  {
  }

  lemma RejoinNone(v: Sched)
    requires |v.ready| == 4
    ensures Rejoin(v, []) == v.ready
  {
    hide Rejoin;
    var r := Rejoin(v, []);
    forall j | 0 <= j < 4 ensures r[j] == v.ready[j] { assert v.ready[j] + [] == v.ready[j]; }
  }

  lemma PartlyEnds(v: Sched)
    requires |v.ready| == 4
    ensures Partly(v, 0) == v && Partly(v, |v.asleep|) == Wake(v, v.asleep) && Still(v, v.asleep[..0]) == []
  {
    hide Rejoin, Woken, Still, Due;
    StillNone(v);
    RejoinNone(v);
    WakeNone(v);
    assert v.asleep[..0] == [] && [] + v.asleep[0..] == v.asleep;
    assert v.asleep[..|v.asleep|] == v.asleep && v.asleep[|v.asleep|..] == [];
    assert Still(v, v.asleep) + [] == Still(v, v.asleep);
  }

  lemma StillNone(v: Sched)
    ensures Still(v, []) == []
  {
  }

  lemma WakeNone(v: Sched)
    requires |v.ready| == 4
    ensures Wake(v, []).tasks == v.tasks
  {
  }

  lemma AdmitStep(v: Sched, p: nat, t: Task, op: Op)
    requires Good(v) && p !in v.tasks && p != v.current && (op == Create(p) || op == Fork(p))
    requires t == if op.Create? then NewTask() else Child(v.tasks[v.current])
    ensures 0 <= t.level < 4 && |v.ready| == 4
    ensures Allowed(v, op) && Step(v, op) == Admit(v, p, t) && Good(Step(v, op))
  {
    StepGood(v, op);
  }

  lemma SleepIs(v: Sched, n: I32)
    requires Good(v) && v.current != v.idle
    ensures Detached(Bed(v, n)) && |v.ready| == 4 && Best(v.ready) < 4
    ensures Step(v, Sleep(n)) == Dispatch(Bed(v, n)) && Good(Step(v, Sleep(n)))
  {
    StepGood(v, Sleep(n));
    NeverHalts(v, Sleep(n));
  }

  lemma PartlyShape(v: Sched, n: nat)
    requires |v.ready| == 4 && n <= |v.asleep|
    ensures |Partly(v, n).asleep| == |Still(v, v.asleep[..n])| + |v.asleep| - n && Partly(v, n).now == v.now
  {
  }

  lemma QueuesReady(v: Sched)
    requires Queues(v)
    ensures |v.ready| == 4
  {
  }

  lemma TickIs(v: Sched)
    requires Good(v) && v.now + 1 < TWO64
    ensures Queues(Charge(v)) && Proper(Ticking(v)) && Good(Step(v, Tick)) && |v.ready| == 4
    ensures forall p :: p in v.asleep ==> p in v.tasks && p != v.current && 0 <= v.tasks[p].level < 4
    ensures Ticking(v).tasks[v.current].slice == v.tasks[v.current].slice - 1
    ensures Expired(v) ==> |Requeue(Ticking(v)).ready| == 4 && Best(Requeue(Ticking(v)).ready) < 4
                           && Step(v, Tick) == Dispatch(Requeue(Ticking(v)))
    ensures !Expired(v) ==> Step(v, Tick) == Ticking(v)
  {
    hide Still, Rejoin;
    ChargeProper(v);
    TickingProper(v);
    StepGood(v, Tick);
    if Expired(v) { NeverHalts(v, Tick); }
  }
}
