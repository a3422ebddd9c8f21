/**
 kernel/process/process.c and sched_mlfq.c: process structures with one next_ready link shared by the
 ready queues and the sleep queue.
 */
module Mlfq {
  import opened Arith
  import opened MlfqSpec
  import opened Sequences

  datatype State = Ready | Running | Blocked | Terminated | Sleeping

  datatype Process = Process(state: State, priority: int, timeSlice: int, quantum: int, cpuTime: nat, waitingOn: U64,
                             nextReady: nat)

  // ---------------------------------------------------------------- linked lists over next_ready

  ghost predicate Link(procs: map<nat, Process>, s: seq<nat>, i: nat)
    requires i < |s|
  {
    s[i] != 0 && s[i] in procs && procs[s[i]].nextReady == Nth(s, i + 1)
  }

  /** The list from head through next_ready is s. */
  ghost predicate Chain(procs: map<nat, Process>, head: nat, s: seq<nat>) {
    && head == Nth(s, 0) && Unique(s)
    && forall i: nat {:trigger Link(procs, s, i)} :: i < |s| ==> Link(procs, s, i)
  }

  lemma ChainFrame(a: map<nat, Process>, b: map<nat, Process>, head: nat, s: seq<nat>)
    requires Chain(a, head, s)
    requires forall p :: p in s && p in a ==> p in b && b[p].nextReady == a[p].nextReady
    ensures Chain(b, head, s)
  {
    forall i: nat | i < |s| ensures Link(b, s, i) { assert Link(a, s, i); }
  }

  function SetNext(procs: map<nat, Process>, p: nat, next: nat): map<nat, Process>
    requires p in procs
  {
    procs[p := procs[p].(nextReady := next)]
  }

  /** Append p to the list, as enqueue_task_mlfq and process_sleep do. */
  function Pushed(procs: map<nat, Process>, tail: nat, p: nat): map<nat, Process>
    requires p in procs && (tail != 0 ==> tail in procs)
  {
    var q := SetNext(procs, p, 0);
    if tail == 0 then q else SetNext(q, tail, p)
  }

  lemma ChainPush(procs: map<nat, Process>, head: nat, s: seq<nat>, p: nat)
    requires Chain(procs, head, s) && p != 0 && p in procs && p !in s
    ensures s != [] ==> s[|s| - 1] in procs && s[|s| - 1] != 0
    ensures Chain(Pushed(procs, if s == [] then 0 else s[|s| - 1], p), if s == [] then p else head, s + [p])
  {
    if s != [] { assert Link(procs, s, |s| - 1); }
    var b := Pushed(procs, if s == [] then 0 else s[|s| - 1], p);
    UniquePush(s, p);
    forall i: nat | i < |s| + 1 ensures Link(b, s + [p], i) {
      if i < |s| { assert Link(procs, s, i); }
    }
  }

  lemma ChainPop(procs: map<nat, Process>, head: nat, s: seq<nat>)
    requires Chain(procs, head, s) && s != []
    ensures head == s[0] && head != 0 && head in procs
    ensures Chain(SetNext(procs, head, 0), procs[head].nextReady, s[1..])
  {
    assert Link(procs, s, 0);
    var t := s[1..];
    forall i: nat | i < |t| ensures Link(SetNext(procs, head, 0), t, i) { assert Link(procs, s, i + 1); }
  }

  /** Unlink the element at k, whose predecessor is prev. */
  lemma ChainCut(procs: map<nat, Process>, head: nat, s: seq<nat>, k: nat)
    requires Chain(procs, head, s) && k < |s|
    ensures s[k] in procs && (k > 0 ==> s[k - 1] in procs && s[k - 1] != 0) && s[k] !in Without(s, k)
    ensures var next := procs[s[k]].nextReady;
      Chain(if k > 0 then SetNext(procs, s[k - 1], next) else procs, if k > 0 then head else next, Without(s, k))
  {
    assert Link(procs, s, k);
    if k > 0 { assert Link(procs, s, k - 1); }
    var next := procs[s[k]].nextReady;
    var t, b := Without(s, k), if k > 0 then SetNext(procs, s[k - 1], next) else procs;
    forall i: nat | i < |t| ensures Link(b, t, i) {
      if i < k { assert Link(procs, s, i); } else { assert Link(procs, s, i + 1); }
    }
  }

  // ---------------------------------------------------------------- the queues

  function Clamp(priority: int): (l: int)
    ensures 0 <= l < 4
  {
    if priority >= 4 then 3 else if priority < 0 then 0 else priority
  }

  /** The queue of level l: head, tail, links, and members that are ready at that level. */
  ghost predicate Level(procs: map<nat, Process>, head: nat, tail: nat, s: seq<nat>, l: int) {
    && Chain(procs, head, s) && tail == (if s == [] then 0 else s[|s| - 1])
    && forall p :: p in s ==> p in procs && procs[p].state == Ready && Clamp(procs[p].priority) == l
  }

  ghost predicate Levels(procs: map<nat, Process>, heads: seq<nat>, tails: seq<nat>, ready: seq<seq<nat>>) {
    && |heads| == |tails| == |ready| == 4
    && forall l {:trigger ready[l]} :: 0 <= l < 4 ==> Level(procs, heads[l], tails[l], ready[l], l)
  }

  ghost predicate Asleep(procs: map<nat, Process>, head: nat, s: seq<nat>) {
    Chain(procs, head, s) && forall p :: p in s ==> p in procs && procs[p].state == Sleeping
  }

  /** The two maps differ in next_ready links only. */
  ghost predicate Alike(a: map<nat, Process>, b: map<nat, Process>) {
    a.Keys == b.Keys && forall p :: p in a ==> a[p].(nextReady := 0) == b[p].(nextReady := 0)
  }

  ghost predicate Lists(procs: map<nat, Process>, heads: seq<nat>, tails: seq<nat>, ready: seq<seq<nat>>,
                        sleepQueue: nat, asleep: seq<nat>) {
    0 !in procs && Levels(procs, heads, tails, ready) && Asleep(procs, sleepQueue, asleep)
  }

  /** p is on none of the lists. */
  ghost predicate Loose(ready: seq<seq<nat>>, asleep: seq<nat>, p: nat) {
    p !in asleep && forall l {:trigger ready[l]} :: 0 <= l < |ready| ==> p !in ready[l]
  }

  lemma LevelFrame(a: map<nat, Process>, b: map<nat, Process>, head: nat, tail: nat, s: seq<nat>, l: int)
    requires Level(a, head, tail, s, l) && forall p :: p in s ==> p in b && b[p] == a[p]
    ensures Level(b, head, tail, s, l)
  {
    ChainFrame(a, b, head, s);
  }

  lemma AsleepFrame(a: map<nat, Process>, b: map<nat, Process>, head: nat, s: seq<nat>)
    requires Asleep(a, head, s) && forall p :: p in s ==> p in b && b[p] == a[p]
    ensures Asleep(b, head, s)
  {
    ChainFrame(a, b, head, s);
  }

  /** Changing a process that is on no list changes no list. */
  lemma LooseFrame(procs: map<nat, Process>, heads: seq<nat>, tails: seq<nat>, ready: seq<seq<nat>>, sleepQueue: nat,
                   asleep: seq<nat>, p: nat, x: Process)
    requires Lists(procs, heads, tails, ready, sleepQueue, asleep) && Loose(ready, asleep, p) && p != 0
    ensures Lists(procs[p := x], heads, tails, ready, sleepQueue, asleep)
  {
    hide Chain, Level;
    var b := procs[p := x];
    forall l | 0 <= l < 4 ensures Level(b, heads[l], tails[l], ready[l], l) {
      LevelMembers(procs, heads, tails, ready, l);
      LevelFrame(procs, b, heads[l], tails[l], ready[l], l);
    }
    AsleepFrame(procs, b, sleepQueue, asleep);
  }

  lemma LevelMembers(procs: map<nat, Process>, heads: seq<nat>, tails: seq<nat>, ready: seq<seq<nat>>, l: int)
    requires Levels(procs, heads, tails, ready) && 0 <= l < 4
    ensures forall p :: p in ready[l] ==> p in procs && procs[p].state == Ready && Clamp(procs[p].priority) == l
    ensures Chain(procs, heads[l], ready[l]) && tails[l] == if ready[l] == [] then 0 else ready[l][|ready[l]| - 1]
  {
  }

  lemma NoNull(procs: map<nat, Process>, head: nat, s: seq<nat>)
    requires Chain(procs, head, s)
    ensures 0 !in s
  {
    forall i: nat | i < |s| ensures s[i] != 0 { assert Link(procs, s, i); }
  }

  lemma ChainHead(procs: map<nat, Process>, head: nat, s: seq<nat>)
    requires Chain(procs, head, s)
    ensures head == 0 <==> s == []
    ensures s != [] ==> head == s[0] && s[|s| - 1] != 0
  {
    if s != [] { assert Link(procs, s, 0) && Link(procs, s, |s| - 1); }
  }

  lemma PushLists(procs: map<nat, Process>, heads: seq<nat>, tails: seq<nat>, ready: seq<seq<nat>>, sleepQueue: nat,
                  asleep: seq<nat>, p: nat)
    requires Lists(procs, heads, tails, ready, sleepQueue, asleep) && p in procs && Loose(ready, asleep, p)
    requires procs[p].state == Ready
    ensures |heads| == |tails| == |ready| == 4
    ensures var l := Clamp(procs[p].priority);
      && (heads[l] == 0 <==> tails[l] == 0) && tails[l] != p && (tails[l] != 0 ==> tails[l] in procs)
      && var b := Pushed(procs, tails[l], p);
      && Alike(b, procs)
      && Lists(b, if heads[l] == 0 then heads[l := p] else heads, tails[l := p], Enqueue(ready, l, p),
               sleepQueue, asleep)
  {
    hide Chain, Asleep;
    var k := Clamp(procs[p].priority);
    LevelMembers(procs, heads, tails, ready, k);
    PushLevel(procs, heads[k], tails[k], ready[k], k, p);
    hide Level, Levels, Loose;
    var b := Pushed(procs, tails[k], p);
    var head := if heads[k] == 0 then p else heads[k];
    LevelSwap(procs, b, heads, tails, ready, sleepQueue, asleep, k, p, head, p, ready[k] + [p]);
    assert heads[k := heads[k]] == heads;
  }

  lemma PushLevel(procs: map<nat, Process>, head: nat, tail: nat, s: seq<nat>, l: int, p: nat)
    requires Level(procs, head, tail, s, l) && p in procs && p != 0 && p !in s
    requires procs[p].state == Ready && Clamp(procs[p].priority) == l
    ensures (head == 0 <==> tail == 0) && tail != p && (tail != 0 ==> tail in procs && tail in s)
    ensures Alike(Pushed(procs, tail, p), procs)
    ensures Level(Pushed(procs, tail, p), if head == 0 then p else head, p, s + [p], l)
  {
    hide Chain;
    ChainHead(procs, head, s);
    ChainPush(procs, head, s, p);
  }

  /** A change to one process p on no list, and to members of queue k, concerns that queue alone. */
  lemma LevelSwap(procs: map<nat, Process>, b: map<nat, Process>, heads: seq<nat>, tails: seq<nat>,
                  ready: seq<seq<nat>>, sleepQueue: nat, asleep: seq<nat>, k: int, p: nat,
                  head: nat, tail: nat, s: seq<nat>)
    requires Lists(procs, heads, tails, ready, sleepQueue, asleep) && 0 <= k < 4 && b.Keys == procs.Keys
    requires p in ready[k] || Loose(ready, asleep, p)
    requires forall q :: q in procs && q != p && q !in ready[k] ==> b[q] == procs[q]
    requires Level(b, head, tail, s, k)
    ensures Lists(b, heads[k := head], tails[k := tail], ready[k := s], sleepQueue, asleep)
  {
    hide Chain, Level;
    LevelMembers(procs, heads, tails, ready, k);
    forall l | 0 <= l < 4 && l != k ensures Level(b, heads[l], tails[l], ready[l], l) {
      LevelMembers(procs, heads, tails, ready, l);
      LevelFrame(procs, b, heads[l], tails[l], ready[l], l);
    }
    AsleepFrame(procs, b, sleepQueue, asleep);
  }

  lemma PopLists(procs: map<nat, Process>, heads: seq<nat>, tails: seq<nat>, ready: seq<seq<nat>>, sleepQueue: nat,
                 asleep: seq<nat>, k: int)
    requires Lists(procs, heads, tails, ready, sleepQueue, asleep) && 0 <= k < 4 && ready[k] != []
    ensures |heads| == |tails| == |ready| == 4 && heads[k] == ready[k][0] && heads[k] in procs
    ensures var next := procs[heads[k]].nextReady;
      var rest := ready[k := ready[k][1..]];
      && Alike(SetNext(procs, heads[k], 0), procs) && Loose(rest, asleep, heads[k])
      && Lists(SetNext(procs, heads[k], 0), heads[k := next], if next == 0 then tails[k := 0] else tails, rest,
               sleepQueue, asleep)
  {
    hide Chain;
    LevelMembers(procs, heads, tails, ready, k);
    ChainHead(procs, heads[k], ready[k]);
    ChainPop(procs, heads[k], ready[k]);
    ChainUnique(procs, heads[k], ready[k]);
    var p, next, b := heads[k], procs[heads[k]].nextReady, SetNext(procs, heads[k], 0);
    ChainHead(b, next, ready[k][1..]);
    forall l | 0 <= l < 4 && l != k ensures Level(b, heads[l], tails[l], ready[l], l) && p !in ready[l] {
      LevelMembers(procs, heads, tails, ready, l);
      LevelFrame(procs, b, heads[l], tails[l], ready[l], l);
    }
    AsleepFrame(procs, b, sleepQueue, asleep);
  }

  /** Append p to the sleep queue. */
  lemma BedLists(procs: map<nat, Process>, heads: seq<nat>, tails: seq<nat>, ready: seq<seq<nat>>, sleepQueue: nat,
                 asleep: seq<nat>, p: nat)
    requires Lists(procs, heads, tails, ready, sleepQueue, asleep) && p in procs && Loose(ready, asleep, p)
    requires procs[p].state == Sleeping
    ensures var tail := if asleep == [] then 0 else asleep[|asleep| - 1];
      && tail != p && (tail != 0 ==> tail in procs) && (asleep == [] <==> tail == 0)
      && Alike(Pushed(procs, tail, p), procs)
      && Lists(Pushed(procs, tail, p), heads, tails, ready, if asleep == [] then p else sleepQueue, asleep + [p])
  {
    hide Chain;
    ChainHead(procs, sleepQueue, asleep);
    ChainPush(procs, sleepQueue, asleep, p);
    var b := Pushed(procs, if asleep == [] then 0 else asleep[|asleep| - 1], p);
    forall l | 0 <= l < 4 ensures Level(b, heads[l], tails[l], ready[l], l) {
      LevelMembers(procs, heads, tails, ready, l);
      LevelFrame(procs, b, heads[l], tails[l], ready[l], l);
    }
  }

  /** Unlink the sleeper at k. */
  lemma CutLists(procs: map<nat, Process>, heads: seq<nat>, tails: seq<nat>, ready: seq<seq<nat>>, sleepQueue: nat,
                 asleep: seq<nat>, k: nat)
    requires Lists(procs, heads, tails, ready, sleepQueue, asleep) && k < |asleep|
    ensures asleep[k] in procs && asleep[k] != 0 && (k > 0 ==> asleep[k - 1] in procs && asleep[k - 1] != 0)
    ensures procs[asleep[k]].nextReady == Nth(asleep, k + 1)
    ensures Loose(ready, Without(asleep, k), asleep[k])
    ensures var next := procs[asleep[k]].nextReady;
      var b := if k > 0 then SetNext(procs, asleep[k - 1], next) else procs;
      Alike(b, procs) && Lists(b, heads, tails, ready, if k > 0 then sleepQueue else next, Without(asleep, k))
  {
    assert Link(procs, asleep, k);
    hide Chain;
    ChainCut(procs, sleepQueue, asleep, k);
    var next := procs[asleep[k]].nextReady;
    var b := if k > 0 then SetNext(procs, asleep[k - 1], next) else procs;
    forall l | 0 <= l < 4 ensures Level(b, heads[l], tails[l], ready[l], l) && asleep[k] !in ready[l] {
      LevelMembers(procs, heads, tails, ready, l);
      LevelFrame(procs, b, heads[l], tails[l], ready[l], l);
    }
    assert forall p :: p in Without(asleep, k) ==> p in asleep;
  }

  lemma ChainUnique(procs: map<nat, Process>, head: nat, s: seq<nat>)
    requires Chain(procs, head, s) && s != []
    ensures s[0] !in s[1..]
  {
  }

  // ---------------------------------------------------------------- the abstract view

  ghost function TaskOf(p: Process, base: int): Task {
    Task(p.priority, p.timeSlice, p.quantum, p.cpuTime, p.waitingOn, base)
  }

  /** The live processes. */
  ghost function Tasks(procs: map<nat, Process>, base: map<nat, int>): map<nat, Task>
    requires procs.Keys == base.Keys
  {
    map p | p in procs && procs[p].state != Terminated :: TaskOf(procs[p], base[p])
  }

  lemma TasksAlike(a: map<nat, Process>, b: map<nat, Process>, base: map<nat, int>)
    requires Alike(a, b) && b.Keys == base.Keys
    ensures a.Keys == base.Keys && Tasks(a, base) == Tasks(b, base)
  {
    forall p | p in a ensures (a[p].state == b[p].state) && TaskOf(a[p], base[p]) == TaskOf(b[p], base[p]) {
      assert a[p].(nextReady := 0) == b[p].(nextReady := 0);
    }
  }

  lemma TasksPut(procs: map<nat, Process>, base: map<nat, int>, p: nat, x: Process)
    requires procs.Keys == base.Keys && p in procs && procs[p].state != Terminated && x.state != Terminated
    ensures procs[p := x].Keys == base.Keys && Tasks(procs[p := x], base) == Tasks(procs, base)[p := TaskOf(x, base[p])]
  {
  }

  lemma TasksNew(procs: map<nat, Process>, base: map<nat, int>, p: nat, x: Process, level: int)
    requires procs.Keys == base.Keys && p !in procs && x.state != Terminated
    ensures procs[p := x].Keys == base[p := level].Keys
    ensures Tasks(procs[p := x], base[p := level]) == Tasks(procs, base)[p := TaskOf(x, level)]
  {
  }

  class Scheduler {
    const idle: nat
    var current: nat
    var heads: seq<nat>
    var tails: seq<nat>
    var sleepQueue: nat
    var globalTicks: nat
    var procs: map<nat, Process>
    ghost var ready: seq<seq<nat>>
    ghost var asleep: seq<nat>
    ghost var base: map<nat, int>

    ghost predicate Linked()
      reads this
    {
      Lists(procs, heads, tails, ready, sleepQueue, asleep)
    }

    /** enqueue_task_mlfq: p becomes ready at the tail of its level. */
    method EnqueueTask(p: nat)
      requires Linked() && p in procs && Loose(ready, asleep, p)
      modifies this`heads, this`tails, this`procs, this`ready
      ensures Linked() && ready == Enqueue(old(ready), Clamp(old(procs)[p].priority), p)
      ensures Alike(procs, old(procs)[p := old(procs)[p].(state := Ready)])
    {
      hide Levels, Asleep, Loose;
      LooseFrame(procs, heads, tails, ready, sleepQueue, asleep, p, procs[p].(state := Ready));
      procs := procs[p := procs[p].(state := Ready)];
      ghost var procs0 := procs;
      PushLists(procs, heads, tails, ready, sleepQueue, asleep, p);
      procs := SetNext(procs, p, 0);
      var level := Clamp(procs[p].priority);
      if heads[level] == 0 {
        heads := heads[level := p];
        tails := tails[level := p];
      } else {
        procs := SetNext(procs, tails[level], p);
        tails := tails[level := p];
      }
      ready := Enqueue(ready, level, p);
      assert procs == Pushed(procs0, old(tails)[level], p);
    }

    /** pick_next_task_mlfq: the head of the best non-empty level, or 0 if all levels are empty. */
    method PickNext() returns (next: nat)
      requires Linked()
      modifies this`heads, this`tails, this`procs, this`ready
      ensures |old(ready)| == 4 && Linked() && Alike(procs, old(procs))
      ensures next == 0 <==> Best(old(ready)) == 4
      ensures next == 0 ==> ready == old(ready)
      ensures next != 0 ==> next in procs && Loose(ready, asleep, next)
      ensures next != 0 ==>
                var l := Best(old(ready)); next == old(ready)[l][0] && ready == old(ready)[l := old(ready)[l][1..]]
    {
      hide Asleep, Loose, Chain;
      for i := 0 to 4
        invariant unchanged(`heads) && unchanged(`tails) && unchanged(`procs) && unchanged(`ready)
        invariant forall k :: 0 <= k < i ==> ready[k] == []
      {
        LevelMembers(procs, heads, tails, ready, i);
        ChainHead(procs, heads[i], ready[i]);
        if heads[i] != 0 {
          PopLists(procs, heads, tails, ready, sleepQueue, asleep, i);
          hide Levels;
          next := heads[i];
          heads := heads[i := procs[next].nextReady];
          if heads[i] == 0 {
            tails := tails[i := 0];
          }
          procs := SetNext(procs, next, 0);
          ready := ready[i := ready[i][1..]];
          return;
        }
      }
      next := 0;
    }

    ghost function View(): Sched
      requires procs.Keys == base.Keys
      reads this
    {
      Sched(current, ready, asleep, Tasks(procs, base), globalTicks, idle)
    }

    ghost predicate Valid()
      reads this
    {
      && Linked() && procs.Keys == base.Keys && Good(View()) && globalTicks < TWO64
      && current in procs && procs[current].state == Running
    }

    /** The first half of process_schedule: the running process is refilled if its slice is used up and requeued. */
    method RequeueCurrent()
      requires Linked() && procs.Keys == base.Keys && Proper(View()) && current in procs
      requires procs[current].state == Running
      modifies this`heads, this`tails, this`procs, this`ready
      ensures Linked() && procs.Keys == base.Keys && View() == Requeue(old(View()))
    {
      hide Lists, Alike, Tasks;
      CurrentLoose(View());
      ghost var t := View().tasks[current];
      CurrentTask();
      var c := procs[current];
      c := c.(state := Ready);
      if c.timeSlice <= 0 {
        if c.priority < 3 {
          c := c.(priority := c.priority + 1);
        }
        c := c.(quantum := Quantum(c.priority));
        c := c.(timeSlice := c.quantum);
      }
      LooseFrame(procs, heads, tails, ready, sleepQueue, asleep, current, c);
      TasksPut(procs, base, current, c);
      procs := procs[current := c];
      ghost var mid := procs;
      EnqueueTask(current);
      assert mid[current := mid[current].(state := Ready)] == mid;
      TasksAlike(procs, mid, base);
    }

    lemma CurrentTask()
      requires Linked() && procs.Keys == base.Keys && Proper(View())
      ensures current in procs && current != 0 && View().tasks[current] == TaskOf(procs[current], base[current])
      ensures procs[current].state != Terminated
    {
    }

    /** process_schedule: requeue the running process, then run the head of the best non-empty level. */
    method Schedule()
      requires Linked() && procs.Keys == base.Keys && current in procs
      requires if procs[current].state == Running then Proper(View()) else Detached(View())
      modifies this`current, this`heads, this`tails, this`procs, this`ready
      ensures Linked() && procs.Keys == base.Keys && current in procs && procs[current].state == Running
      ensures var v := if old(procs[current].state) == Running then Requeue(old(View())) else old(View());
        |v.ready| == 4 && Best(v.ready) < 4 && View() == Dispatch(v)
    {
      hide Lists, Tasks, Alike, Loose;
      if procs[current].state == Running {
        RequeueDetached(View());
        RequeueCurrent();
      }
      ghost var v, mid := View(), procs;
      DispatchProper(v);
      var next := PickNext();
      if next == 0 {
        assert false;
      }
      TasksAlike(procs, mid, base);
      NextTask(v, procs, base, next);
      LooseFrame(procs, heads, tails, ready, sleepQueue, asleep, next, procs[next].(state := Running));
      TasksPut(procs, base, next, procs[next].(state := Running));
      current := next;
      procs := procs[next := procs[next].(state := Running)];
      assert View().tasks == v.tasks;
    }

    /** process_init: process 0 runs and all queues are empty. */
    constructor (idle: nat)
      requires idle != 0
      ensures Valid() && View() == Boot(idle) && base.Keys == {idle}
    {
      this.idle, current, sleepQueue, globalTicks := idle, idle, 0, 0;
      heads, tails := [0, 0, 0, 0], [0, 0, 0, 0];
      procs := map[idle := Process(Running, 0, 2, 2, 0, 0, 0)];
      ready, asleep, base := [[], [], [], []], [], map[idle := 0];
      new;
      hide Lists, Good, Tasks;
      BootLists(idle);
      BootTasks(idle);
    }

    /** process_create: the new process waits at level 0.  Without memory nothing is queued. */
    method Create(p: nat, stack: bool) returns (r: nat)
      requires Valid() && (p != 0 ==> p !in procs)
      modifies this`heads, this`tails, this`procs, this`ready, this`base
      ensures Valid() && r == (if stack then p else 0) && base.Keys == old(base.Keys) + (if r == 0 then {} else {p})
      ensures if r == 0 then View() == old(View())
              else Allowed(old(View()), Op.Create(p)) && View() == Step(old(View()), Op.Create(p))
    {
      hide Lists, Alike, Tasks, AllPaced;
      if p == 0 { return 0; }
      if !stack { return 0; }
      Admitted(p, Process(Ready, 0, Quantum(0), Quantum(0), 0, 0, 0), 0, Op.Create(p));
      return p;
    }

    /** process_fork: the child waits at its parent's level with a full slice and no CPU time. */
    method Fork(p: nat, stack: bool) returns (r: int)
      requires Valid() && (p != 0 ==> p !in procs)
      modifies this`heads, this`tails, this`procs, this`ready, this`base
      ensures Valid() && r == (if stack && p != 0 then p else -1)
      ensures base.Keys == old(base.Keys) + (if r == -1 then {} else {p})
      ensures if r == -1 then View() == old(View())
              else Allowed(old(View()), Op.Fork(p)) && View() == Step(old(View()), Op.Fork(p))
    {
      hide Lists, Alike, Tasks, AllPaced;
      if p == 0 { return -1; }
      var child := procs[current];
      child := child.(state := Ready, nextReady := 0);
      child := child.(cpuTime := 0);
      child := child.(timeSlice := child.quantum);
      if !stack { return -1; }
      CurrentTask();
      Admitted(p, child, procs[current].priority, Op.Fork(p));
      return p;
    }

    /** The shared tail of process_create and process_fork: link the new structure and enqueue it. */
    method Admitted(p: nat, child: Process, ghost level: int, ghost op: Op)
      requires Valid() && p != 0 && p !in procs && child.state == Ready
      requires op == Op.Create(p) || op == Op.Fork(p)
      requires TaskOf(child, level) == if op.Create? then NewTask() else Child(View().tasks[current])
      modifies this`heads, this`tails, this`procs, this`ready, this`base
      ensures Valid() && Allowed(old(View()), op) && View() == Step(old(View()), op)
      ensures base.Keys == old(base.Keys) + {p}
    {
      hide Lists, Alike, Good, Allowed, Step, Loose, Tasks;
      NewLoose(p);
      ghost var v := View();
      AdmitStep(v, p, TaskOf(child, level), op);
      LooseFrame(procs, heads, tails, ready, sleepQueue, asleep, p, child);
      TasksNew(procs, base, p, child, level);
      procs, base := procs[p := child], base[p := level];
      ghost var mid := procs;
      EnqueueTask(p);
      assert mid[p := mid[p].(state := Ready)] == mid;
      TasksAlike(procs, mid, base);
      StateAlike(procs, mid, current);
    }

    lemma NewLoose(p: nat)
      requires Valid() && p !in procs && p != 0
      ensures Loose(ready, asleep, p) && p !in View().tasks && p != current
    {
    }

    /** process_yield. */
    method Yield()
      requires Valid()
      modifies this`current, this`heads, this`tails, this`procs, this`ready
      ensures Valid() && View() == Step(old(View()), Op.Yield)
    {
      hide Lists, Tasks, AllPaced, Proper, Dispatch, Requeue;
      StepGood(View(), Op.Yield);
      Schedule();
    }

    /** process_sleep: to the tail of the sleep queue, through the same link, and on to the next process. */
    method Sleep(ticks: I32)
      requires Valid() && current != idle
      modifies this`current, this`heads, this`tails, this`procs, this`ready, this`sleepQueue, this`asleep
      ensures Valid() && View() == Step(old(View()), Op.Sleep(ticks))
    {
      hide Lists, Tasks, AllPaced, Dispatch, Alike, Loose, Queues, Step, Detached, Proper;
      ghost var v := View();
      SleepIs(v, ticks);
      CurrentLoose(v);
      CurrentTask();
      var c := procs[current].(state := Sleeping);
      c := c.(waitingOn := (globalTicks + ticks) % 0x1_0000_0000_0000_0000);
      TasksPut(procs, base, current, c);
      Bed(c);
      Schedule();
    }

    /** The current process, as c, at the tail of the sleep queue. */
    method Bed(c: Process)
      requires Linked() && procs.Keys == base.Keys && current in procs && Loose(ready, asleep, current)
      requires c.state == Sleeping
      modifies this`procs, this`sleepQueue, this`asleep
      ensures Linked() && procs.Keys == base.Keys && current in procs && procs[current].state == Sleeping
      ensures asleep == old(asleep) + [current] && Tasks(procs, base) == Tasks(old(procs)[current := c], base)
    {
      hide Lists, Tasks, Alike, Loose;
      NotNull(current);
      LooseFrame(procs, heads, tails, ready, sleepQueue, asleep, current, c);
      procs := procs[current := c];
      ghost var mid := procs;
      BedLists(procs, heads, tails, ready, sleepQueue, asleep, current);
      var s := LastSleeper();
      if s == 0 {
        sleepQueue := current;
      } else {
        procs := SetNext(procs, s, current);
      }
      procs := SetNext(procs, current, 0);
      assert procs == Pushed(mid, s, current);
      asleep := asleep + [current];
      TasksAlike(procs, mid, base);
      StateAlike(procs, mid, current);
    }

    lemma NotNull(p: nat)
      requires Linked() && p in procs
      ensures p != 0
    {
    }

    /** The walk to the end of the sleep queue. */
    method LastSleeper() returns (s: nat)
      requires Linked()
      ensures s == if asleep == [] then 0 else asleep[|asleep| - 1]
      ensures s == 0 <==> sleepQueue == 0
    {
      s := sleepQueue;
      ChainHead(procs, sleepQueue, asleep);
      NoNull(procs, sleepQueue, asleep);
      if s != 0 {
        ghost var i: nat := 0;
        assert Link(procs, asleep, i);
        while procs[s].nextReady != 0
          invariant i < |asleep| && s == asleep[i] && Link(procs, asleep, i)
          decreases |asleep| - i
        {
          s := procs[s].nextReady;
          i := i + 1;
          assert Link(procs, asleep, i);
        }
      }
    }

    /** process_exit, as far as the scheduler sees it. */
    method Exit()
      requires Valid() && current != idle
      modifies this`current, this`heads, this`tails, this`procs, this`ready
      ensures Valid() && View() == Step(old(View()), Op.Exit)
    {
      hide Lists, AllPaced, Dispatch, Loose, Queues;
      ghost var v := View();
      StepGood(v, Op.Exit);
      DropDetached(v);
      CurrentLoose(v);
      CurrentTask();
      LooseFrame(procs, heads, tails, ready, sleepQueue, asleep, current, procs[current].(state := Terminated));
      procs := procs[current := procs[current].(state := Terminated)];
      assert View().tasks == Drop(v).tasks;
      Schedule();
    }

    /** One wake-up of scheduler_tick: unlink the sleeper behind prev and enqueue it. */
    method WakeUp(prev: nat, wake: nat, ghost k: nat) returns (s: nat)
      requires Linked() && procs.Keys == base.Keys && k < |asleep| && wake == asleep[k]
      requires prev == (if k > 0 then asleep[k - 1] else 0) && 0 <= procs[wake].priority < 4
      modifies this`sleepQueue, this`heads, this`tails, this`procs, this`ready, this`asleep
      ensures Linked() && procs.Keys == base.Keys && wake in old(View()).tasks
      ensures old(View()).tasks[wake].level == old(procs[wake].priority)
      ensures |old(ready)| == 4 && View() == WakeOne(old(View()), k) && s == Nth(old(asleep), k + 1)
      ensures forall p :: p in procs && p != wake ==> procs[p].state == old(procs[p].state)
    {
      hide Lists, Alike, Tasks, Loose;
      ghost var procs0 := procs;
      WakeFacts(k);
      s := CutSleeper(prev, wake, k);
      TasksAlike(procs, procs0, base);
      forall p | p in procs0 ensures p in procs && procs[p].state == procs0[p].state { StateAlike(procs, procs0, p); }
      StayAlike(procs, procs0, wake);
      var c := procs[wake].(state := Ready);
      c := c.(waitingOn := 0);
      LooseFrame(procs, heads, tails, ready, sleepQueue, asleep, wake, c);
      TasksPut(procs, base, wake, c);
      procs := procs[wake := c];
      ghost var late := procs;
      EnqueueTask(wake);
      assert late[wake := late[wake].(state := Ready)] == late;
      TasksAlike(procs, late, base);
      forall p | p in procs && p != wake ensures procs[p].state == procs0[p].state { StateAlike(procs, late, p); }
    }

    /** The unlinking of a sleeper. */
    method CutSleeper(prev: nat, wake: nat, ghost k: nat) returns (s: nat)
      requires Linked() && k < |asleep| && wake == asleep[k] && prev == (if k > 0 then asleep[k - 1] else 0)
      requires wake in procs
      modifies this`procs, this`sleepQueue, this`asleep
      ensures Linked() && Alike(procs, old(procs)) && asleep == Without(old(asleep), k) && Loose(ready, asleep, wake)
      ensures s == Nth(old(asleep), k + 1) && wake != 0
    {
      hide Lists, Alike, Loose;
      CutLists(procs, heads, tails, ready, sleepQueue, asleep, k);
      s := procs[wake].nextReady;
      if prev != 0 {
        procs := SetNext(procs, prev, s);
      } else {
        sleepQueue := s;
      }
      asleep := Without(asleep, k);
    }

    lemma WakeFacts(k: nat)
      requires Linked() && procs.Keys == base.Keys && k < |asleep|
      ensures |ready| == 4 && asleep[k] in procs && procs[asleep[k]].state == Sleeping && asleep[k] != 0
      ensures asleep[k] in View().tasks && View().tasks[asleep[k]] == TaskOf(procs[asleep[k]], base[asleep[k]])
    {
    }

    lemma SleeperNext(k: nat)
      requires Linked()
      ensures 0 !in asleep && sleepQueue == Nth(asleep, 0)
      ensures k < |asleep| ==> asleep[k] in procs && procs[asleep[k]].nextReady == Nth(asleep, k + 1)
    {
      NoNull(procs, sleepQueue, asleep);
      if k < |asleep| { assert Link(procs, asleep, k); }
    }

    /** The loop of scheduler_tick has looked at n sleepers and left k of them asleep. */
    ghost predicate Scanned(v: Sched, n: nat, k: nat, s: nat, prev: nat)
      requires Queues(v) && n <= |v.asleep|
      reads this
    {
      && Linked() && procs.Keys == base.Keys && View() == Partly(v, n) && k == |Still(v, v.asleep[..n])|
      && s == Nth(asleep, k) && k <= |asleep| && prev == (if k > 0 then asleep[k - 1] else 0)
    }

    /** One turn of that loop. */
    method Look(prev: nat, s: nat, ghost v: Sched, ghost n: nat, ghost k: nat)
        returns (prev': nat, s': nat, ghost k': nat)
      requires Queues(v) && n < |v.asleep| && Scanned(v, n, k, s, prev) && s != 0
      requires 0 <= v.tasks[v.asleep[n]].level < 4
      modifies this`sleepQueue, this`heads, this`tails, this`procs, this`ready, this`asleep
      ensures Scanned(v, n + 1, k', s', prev')
      ensures forall p :: p in old(procs) && p !in old(asleep) ==> p in procs && procs[p].state == old(procs[p].state)
      ensures forall p :: p in asleep ==> p in old(asleep)
    {
      hide Lists, Tasks, Still, Due, WakeOne, Queues, Partly;
      SleeperNext(k);
      QueuesReady(v);
      PartlyStep(v, n);
      WakeFacts(k);
      PartlyShape(v, n);
      DueIs(v, s);
      assert Due(v, s) == (procs[s].waitingOn <= globalTicks);
      if procs[s].waitingOn <= globalTicks {
        ghost var w := View();
        s' := WakeUp(prev, s, k);
        WakeOneAsleep(w, k);
        prev', k' := prev, k;
      } else {
        prev', s', k' := s, procs[s].nextReady, k + 1;
      }
    }

    /** The loop of scheduler_tick over the sleep queue. */
    method WakeSleepers()
      requires Linked() && procs.Keys == base.Keys && Queues(View()) && current in procs && current !in asleep
      requires forall p :: p in asleep ==> 0 <= View().tasks[p].level < 4
      modifies this`sleepQueue, this`heads, this`tails, this`procs, this`ready, this`asleep
      ensures Linked() && procs.Keys == base.Keys && View() == Wake(old(View()), old(asleep))
      ensures current in procs && procs[current].state == old(procs[current].state)
    {
      hide Lists, Tasks, Wake, Still, Queues, Partly;
      ghost var v := View();
      QueuesReady(v);
      ghost var n: nat, k: nat := 0, 0;
      PartlyEnds(v);
      SleeperNext(0);
      var s := sleepQueue;
      var prev := 0;
      while s != 0
        invariant n <= |v.asleep| && Scanned(v, n, k, s, prev)
        invariant current in procs && current !in asleep && procs[current].state == old(procs[current].state)
        decreases |v.asleep| - n
      {
        PartlyShape(v, n);
        prev, s, k := Look(prev, s, v, n, k);
        n := n + 1;
      }
      SleeperNext(k);
      PartlyShape(v, n);
    }

    /** scheduler_tick: charge the current process, wake the sleepers that are due, and schedule if the
        slice is used up. */
    method Tick()
      requires Valid() && globalTicks + 1 < TWO64
      modifies this`globalTicks, this`current, this`sleepQueue, this`heads, this`tails, this`procs, this`ready,
        this`asleep
      ensures Valid() && View() == Step(old(View()), Op.Tick)
    {
      hide Lists, Tasks, Wake, Queues, Good, Proper, Requeue, Dispatch, Step, Loose;
      ghost var v := View();
      TickIs(v);
      GoodParts(v);
      CurrentTask();
      var c := procs[current];
      c := c.(cpuTime := c.cpuTime + 1);
      c := c.(timeSlice := c.timeSlice - 1);
      LooseFrame(procs, heads, tails, ready, sleepQueue, asleep, current, c);
      TasksPut(procs, base, current, c);
      globalTicks := globalTicks + 1;
      procs := procs[current := c];
      WakeSleepers();
      CurrentTask();
      if procs[current].timeSlice <= 0 {
        Schedule();
      }
    }

    /** dequeue_task_mlfq: p is unlinked from the queue of its level, wherever it stands there; a process that
        is not queued changes nothing. */
    method DequeueTask(p: nat)
      requires Linked() && p in procs
      modifies this`heads, this`tails, this`procs, this`ready
      ensures Linked() && Alike(procs, old(procs)) && |old(ready)| == 4
      ensures var s := old(ready)[Clamp(old(procs[p].priority))];
        && |ready| == 4 && (forall l :: 0 <= l < 4 && l != Clamp(old(procs[p].priority)) ==> ready[l] == old(ready)[l])
        && (p !in s ==> ready == old(ready))
        && (p in s ==> exists k: nat :: k < |s| && s[k] == p && ready[Clamp(old(procs[p].priority))] == Without(s, k))
    {
      hide Asleep, Loose, Chain;
      var level := Clamp(procs[p].priority);
      LevelMembers(procs, heads, tails, ready, level);
      ChainHead(procs, heads[level], ready[level]);
      var curr, prev := heads[level], 0;
      ghost var i: nat := 0;
      ghost var s := ready[level];
      while curr != 0
        invariant unchanged(`heads) && unchanged(`tails) && unchanged(`procs) && unchanged(`ready)
        invariant i <= |s| && curr == Nth(s, i) && prev == (if i > 0 then s[i - 1] else 0) && p !in s[..i]
        decreases |s| - i
      {
        ChainLink(procs, heads[level], s, i);
        if curr == p {
          UnlinkLists(procs, heads, tails, ready, sleepQueue, asleep, level, i);
          var next := procs[p].nextReady;
          if prev == 0 {
            heads := heads[level := next];
          } else {
            procs := SetNext(procs, prev, next);
          }
          if tails[level] == p {
            tails := tails[level := prev];
          }
          procs := SetNext(procs, p, 0);
          ready := ready[level := Without(s, i)];
          return;
        }
        assert s[..i + 1] == s[..i] + [curr];
        prev := curr;
        curr := procs[curr].nextReady;
        i := i + 1;
      }
      ChainLink(procs, heads[level], s, i);
      assert s[..i] == s;
    }
  }

  lemma ChainLink(procs: map<nat, Process>, head: nat, s: seq<nat>, i: nat)
    requires Chain(procs, head, s) && i <= |s|
    ensures Nth(s, i) == 0 <==> i == |s|
    ensures i < |s| ==> s[i] in procs && procs[s[i]].nextReady == Nth(s, i + 1)
  {
    if i < |s| { assert Link(procs, s, i); }
  }

  lemma UnlinkLists(procs: map<nat, Process>, heads: seq<nat>, tails: seq<nat>, ready: seq<seq<nat>>, sleepQueue: nat,
                    asleep: seq<nat>, k: int, i: nat)
    requires Lists(procs, heads, tails, ready, sleepQueue, asleep) && 0 <= k < 4 && i < |ready[k]|
    ensures |heads| == |tails| == |ready| == 4
    ensures var s, p := ready[k], ready[k][i];
      && p in procs && (i > 0 ==> s[i - 1] in procs && s[i - 1] != 0 && s[i - 1] != p)
      && (tails[k] == p <==> i + 1 == |s|)
      && var next := procs[p].nextReady;
      var b := SetNext(if i > 0 then SetNext(procs, s[i - 1], next) else procs, p, 0);
      && Alike(b, procs)
      && Lists(b, if i > 0 then heads else heads[k := next],
               if tails[k] == p then tails[k := if i > 0 then s[i - 1] else 0] else tails,
               ready[k := Without(s, i)], sleepQueue, asleep)
  {
    hide Chain, Asleep;
    var s, p := ready[k], ready[k][i];
    LevelMembers(procs, heads, tails, ready, k);
    UnlinkLevel(procs, heads[k], tails[k], s, k, i);
    hide Level, Levels, Without;
    var next := procs[p].nextReady;
    var b := SetNext(if i > 0 then SetNext(procs, s[i - 1], next) else procs, p, 0);
    var head := if i > 0 then heads[k] else next;
    var tail := if tails[k] == p then if i > 0 then s[i - 1] else 0 else tails[k];
    LevelSwap(procs, b, heads, tails, ready, sleepQueue, asleep, k, p, head, tail, Without(s, i));
    assert heads[k := heads[k]] == heads && tails[k := tails[k]] == tails;
  }

  lemma UnlinkLevel(procs: map<nat, Process>, head: nat, tail: nat, s: seq<nat>, l: int, i: nat)
    requires Level(procs, head, tail, s, l) && i < |s|
    ensures var p := s[i];
      && p in procs && (i > 0 ==> s[i - 1] in procs && s[i - 1] != 0 && s[i - 1] != p)
      && (tail == p <==> i + 1 == |s|)
      && var next := procs[p].nextReady;
      var b := SetNext(if i > 0 then SetNext(procs, s[i - 1], next) else procs, p, 0);
      && Alike(b, procs)
      && Level(b, if i > 0 then head else next, if tail == p then if i > 0 then s[i - 1] else 0 else tail,
               Without(s, i), l)
  {
    hide Chain;
    var p := s[i];
    ChainCut(procs, head, s, i);
    ChainOnce(procs, head, s, i);
    var next := procs[p].nextReady;
    var a := if i > 0 then SetNext(procs, s[i - 1], next) else procs;
    ChainFrame(a, SetNext(a, p, 0), if i > 0 then head else next, Without(s, i));
    assert forall q :: q in Without(s, i) ==> q in s;
  }

  lemma ChainOnce(procs: map<nat, Process>, head: nat, s: seq<nat>, i: nat)
    requires Chain(procs, head, s) && i < |s|
    ensures i > 0 ==> s[i - 1] != s[i]
    ensures s[|s| - 1] == s[i] <==> i + 1 == |s|
  {
  }

  lemma GoodParts(v: Sched)
    requires Good(v)
    ensures Proper(v) && Loose(v.ready, v.asleep, v.current) && v.current in v.tasks && v.current !in v.asleep
  {
  }

  lemma WakeOneAsleep(v: Sched, k: nat)
    requires |v.ready| == 4 && k < |v.asleep| && v.asleep[k] in v.tasks && 0 <= v.tasks[v.asleep[k]].level < 4
    ensures var s := WakeOne(v, k).asleep;
      |s| == |v.asleep| - 1 && Nth(s, k) == Nth(v.asleep, k + 1) && (k > 0 ==> s[k - 1] == v.asleep[k - 1])
      && forall p :: p in s ==> p in v.asleep
  {
  }

  lemma DueIs(v: Sched, p: nat)
    requires p in v.tasks
    ensures Due(v, p) == (v.tasks[p].until <= v.now)
  {
  }

  lemma StateAlike(a: map<nat, Process>, b: map<nat, Process>, p: nat)
    requires Alike(a, b) && p in b
    ensures p in a && a[p].state == b[p].state
  {
    assert a[p].(nextReady := 0) == b[p].(nextReady := 0);
  }

  /** Process 0 alone, running. */
  ghost function BootProcs(idle: nat): map<nat, Process> {
    map[idle := Process(Running, 0, 2, 2, 0, 0, 0)]
  }

  lemma BootLists(idle: nat)
    requires idle != 0
    ensures Lists(BootProcs(idle), [0, 0, 0, 0], [0, 0, 0, 0], [[], [], [], []], 0, [])
  {
  }

  lemma BootTasks(idle: nat)
    ensures Good(Boot(idle)) && BootProcs(idle).Keys == {idle} == map[idle := 0].Keys
    ensures Tasks(BootProcs(idle), map[idle := 0]) == Boot(idle).tasks
  {
  }

  lemma StayAlike(a: map<nat, Process>, b: map<nat, Process>, p: nat)
    requires Alike(a, b) && p in b
    ensures p in a && a[p].priority == b[p].priority && a[p].(nextReady := 0) == b[p].(nextReady := 0)
  {
  }

  lemma CurrentLoose(v: Sched)
    requires Proper(v)
    ensures Loose(v.ready, v.asleep, v.current) && v.current in v.tasks
  {
  }

  lemma NextTask(v: Sched, procs: map<nat, Process>, base: map<nat, int>, next: nat)
    requires Detached(v) && Best(v.ready) < 4 && next == v.ready[Best(v.ready)][0]
    requires procs.Keys == base.Keys && v.tasks == Tasks(procs, base)
    ensures next in procs && procs[next].state != Terminated
    ensures v.tasks[next := TaskOf(procs[next].(state := Running), base[next])] == v.tasks
  {
    assert Queued(v, Best(v.ready)) && next in v.ready[Best(v.ready)];
    assert next in Tasks(procs, base).Keys;
  }

  // ---------------------------------------------------------------- whole runs

  /** Every run of create, fork, yield, tick, sleep and exit from boot in which process 0 only yields is the
      run of the abstract scheduler: the lists stay well formed and every live process is in exactly one
      place. */
  method Replay(idle: nat, ops: seq<Op>) returns (s: Scheduler)
    requires idle != 0 && Good(Boot(idle)) && Legal(Boot(idle), ops) && NewAddresses(idle, ops)
    ensures fresh(s) && s.Valid() && s.View() == Run(Boot(idle), ops)
    ensures |s.ready| == 4 && Places(s.View()) == multiset(s.View().tasks.Keys)
  {
    hide Good, Lists, Tasks, Step, Allowed, Run, Legal, Places;
    s := new Scheduler(idle);
    RunEmpty(Boot(idle));
    for n := 0 to |ops|
      invariant s.Valid() && fresh(s) && Legal(Boot(idle), ops[..n]) && s.View() == Run(Boot(idle), ops[..n])
      invariant forall p :: p in s.base ==> p == idle || exists j :: 0 <= j < n && Makes(ops[j]) && ops[j].p == p
    {
      assert ops[..n + 1] == ops[..n] + [ops[n]];
      LegalPrefix(Boot(idle), ops, n + 1);
      RunSnoc(Boot(idle), ops[..n], ops[n]);
      Do(s, ops[n]);
    }
    assert ops[..|ops|] == ops;
    ExactlyOnePlace(Boot(idle), ops);
    GoodReady(s.View());
  }

  lemma RunEmpty(v: Sched)
    requires Good(v)
    ensures Legal(v, []) && Run(v, []) == v
  {
  }

  lemma GoodReady(v: Sched)
    requires Good(v)
    ensures |v.ready| == 4
  {
  }

  method Do(s: Scheduler, op: Op)
    requires s.Valid() && Allowed(s.View(), op) && (Makes(op) ==> op.p != 0 && op.p !in s.base)
    modifies s
    ensures s.Valid() && s.View() == Step(old(s.View()), op)
    ensures s.base.Keys == if Makes(op) then old(s.base.Keys) + {op.p} else old(s.base.Keys)
  {
    hide Good, Lists, Tasks, Step;
    match op {
      case Create(p) => var r := s.Create(p, true);
      case Fork(p) => var r := s.Fork(p, true);
      case Yield => s.Yield();
      case Tick => s.Tick();
      case Sleep(n) => s.Sleep(n);
      case Exit => s.Exit();
    }
  }
}
