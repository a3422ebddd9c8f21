/**
 kernel/security/seccomp.c: chains of filters shared between processes, with reference counts.
 */
module Seccomp {
  import opened Arith
  import opened Bits
  import opened Bpf
  import opened Sequences

  datatype Filter = Filter(refCount: int, prog: seq<Inst>, prev: nat)

  ghost predicate Link(filters: map<nat, Filter>, s: seq<nat>, i: nat)
    requires i < |s|
  {
    s[i] != 0 && s[i] in filters && filters[s[i]].prev == Nth(s, i + 1)
  }

  /** The filters from head on, newest first. */
  ghost predicate Chain(filters: map<nat, Filter>, head: nat, s: seq<nat>) {
    && head == Nth(s, 0) && Unique(s)
    && forall i: nat {:trigger Link(filters, s, i)} :: i < |s| ==> Link(filters, s, i)
  }

  /** The processes whose chain contains f. */
  ghost function Users(chains: map<nat, seq<nat>>, f: nat): set<nat> {
    set p | p in chains && f in chains[p]
  }

  /** Each filter's count is positive, and is the number of processes whose chain contains it less the copies of
      it that were not counted. */
  ghost predicate Counted(filters: map<nat, Filter>, chains: map<nat, seq<nat>>, extra: multiset<nat>) {
    && (forall f {:trigger Users(chains, f)} :: f in filters ==>
          filters[f].refCount == |Users(chains, f)| - extra[f] > 0)
    && (forall f :: f in extra ==> f in filters)
  }

  ghost predicate Chained(filters: map<nat, Filter>, heads: map<nat, nat>, chains: map<nat, seq<nat>>) {
    && heads.Keys == chains.Keys && 0 !in filters
    && forall p {:trigger chains[p]} :: p in chains ==> Chain(filters, heads[p], chains[p])
  }

  lemma ChainAt(filters: map<nat, Filter>, head: nat, s: seq<nat>, i: nat)
    requires Chain(filters, head, s) && i <= |s|
    ensures Nth(s, i) == 0 <==> i == |s|
    ensures i < |s| ==> s[i] in filters && filters[s[i]].prev == Nth(s, i + 1)
  {
    if i < |s| { assert Link(filters, s, i); }
  }

  lemma ChainFrame(a: map<nat, Filter>, b: map<nat, Filter>, head: nat, s: seq<nat>)
    requires Chain(a, head, s) && forall f :: f in s && f in a ==> f in b && b[f].prev == a[f].prev
    ensures Chain(b, head, s)
  {
    forall i: nat | i < |s| ensures Link(b, s, i) { assert Link(a, s, i); }
  }

  lemma ChainMembers(filters: map<nat, Filter>, head: nat, s: seq<nat>)
    requires Chain(filters, head, s)
    ensures forall f :: f in s ==> f in filters
  {
    forall i: nat | i < |s| ensures s[i] in filters { assert Link(filters, s, i); }
  }

  /** No prev link of a live filter dangles. */
  lemma NoDangling(filters: map<nat, Filter>, heads: map<nat, nat>, chains: map<nat, seq<nat>>, extra: multiset<nat>,
                   f: nat)
    requires Chained(filters, heads, chains) && Counted(filters, chains, extra) && f in filters
    ensures filters[f].prev == 0 || filters[f].prev in filters
  {
    assert |Users(chains, f)| > 0 && Users(chains, f) != {};
    var p :| p in Users(chains, f);
    var i: nat :| i < |chains[p]| && chains[p][i] == f;
    ChainAt(filters, heads[p], chains[p], i);
    if i + 1 < |chains[p]| { ChainAt(filters, heads[p], chains[p], i + 1); }
  }

  // ---------------------------------------------------------------- verdicts

  /** The filter lets the call pass. */
  predicate Allows(prog: seq<Inst>, sd: seq<U8>)
    requires |sd| >= 67 && Sane(prog)
  {
    BitAnd(Verdict(prog, sd), ACTION) == ALLOW
  }

  /** A verdict lets the call pass exactly when its bits 16 to 30 are all set. */
  lemma AllowsIs(prog: seq<Inst>, sd: seq<U8>)
    requires |sd| >= 67 && Sane(prog)
    ensures Allows(prog, sd) <==> Verdict(prog, sd) / 0x1_0000 % 0x8000 == 0x7fff
  {
    hide Verdict, BitAnd;
    var v := Verdict(prog, sd);
    assert Pow2(15) == 0x8000 && Pow2(16) == 0x1_0000;
    AndShift(v, 0x7fff, 16);
    AndOnes(v / 0x1_0000, 15);
  }

  /** The seccomp_data of a call: number, architecture, a zero instruction pointer, and whatever the stack
      holds where the arguments would be and behind the structure. */
  function Data(nr: U32, rest: seq<U8>): (sd: seq<U8>)
    requires |rest| == 51
    ensures |sd| == 67 && sd[0] + sd[1] as int * 0x100 + sd[2] as int * 0x1_0000 + sd[3] as int * 0x100_0000 == nr
    ensures sd[4] + sd[5] as int * 0x100 + sd[6] as int * 0x1_0000 + sd[7] as int * 0x100_0000 == 0xC000_003E
    ensures (forall i :: 8 <= i < 16 ==> sd[i] == 0) && sd[16..] == rest
  {
    Le32Bytes(nr) + Le32Bytes(0xC000_003E) + [0, 0, 0, 0, 0, 0, 0, 0] + rest
  }

  class Filters {
    var filters: map<nat, Filter>
    var heads: map<nat, nat>
    ghost var chains: map<nat, seq<nat>>
    /** The copies of each filter that were not counted. */
    ghost var extra: multiset<nat>

    ghost predicate Valid()
      reads this
    {
      Chained(filters, heads, chains) && Counted(filters, chains, extra)
    }

    /** seccomp_check_syscall: 0 exactly when every filter of the process's chain allows the call. */
    method Check(p: nat, nr: U32, rest: seq<U8>) returns (ret: int)
      requires Valid() && p in heads && |rest| == 51
      requires forall f :: f in chains[p] && f in filters ==> Sane(filters[f].prog)
      ensures ret == 0 || ret == -1
      ensures forall f :: f in chains[p] ==> f in filters
      ensures ret == 0 <==> forall f :: f in chains[p] ==> Allows(filters[f].prog, Data(nr, rest))
    {
      hide Chain, Sane, Verdict, BitAnd, Data;
      ghost var s := chains[p];
      ChainMembers(filters, heads[p], s);
      if heads[p] == 0 {
        ChainAt(filters, heads[p], s, 0);
        HeadIs(filters, heads[p], s);
        return 0;
      }
      var sd := Data(nr, rest);
      var f := heads[p];
      ghost var i: nat := 0;
      HeadIs(filters, heads[p], s);
      ChainAt(filters, heads[p], s, 0);
      while f != 0
        invariant i <= |s| && f == Nth(s, i)
        invariant forall j :: 0 <= j < i ==> Allows(filters[s[j]].prog, sd)
        decreases |s| - i
      {
        ChainAt(filters, heads[p], s, i);
        var v := RunFilter(sd, filters[f].prog);
        if BitAnd(v, ACTION) != ALLOW {
          assert !Allows(filters[s[i]].prog, sd);
          return -1;
        }
        f := filters[f].prev;
        i := i + 1;
      }
      ChainAt(filters, heads[p], s, i);
      return 0;
    }

    /** seccomp_attach_filter: a new filter in front of the process's chain; addr is 0 when memory is short. */
    method Attach(p: nat, prog: seq<Inst>, addr: nat) returns (ret: int)
      requires Valid() && p in heads && (addr != 0 ==> addr !in filters)
      modifies this
      ensures Valid() && ret == (if addr == 0 then -1 else 0) && extra == old(extra)
      ensures ret == -1 ==> filters == old(filters) && heads == old(heads) && chains == old(chains)
      ensures ret == 0 ==> filters == old(filters)[addr := Filter(1, prog, old(heads)[p])]
      ensures ret == 0 ==> heads == old(heads)[p := addr] && chains == old(chains)[p := [addr] + old(chains)[p]]
    {
      if addr == 0 { return -1; }
      AttachKeeps(filters, heads, chains, extra, p, addr, prog);
      filters := filters[addr := Filter(1, prog, heads[p])];
      heads := heads[p := addr];
      chains := chains[p := [addr] + chains[p]];
      return 0;
    }

    /** seccomp_fork: the child shares the parent's chain and every filter on it counts one process more. */
    method Fork(child: nat, parent: nat)
      requires Valid() && parent in heads && child !in heads
      modifies this
      ensures Valid() && extra == old(extra) && heads == old(heads)[child := old(heads)[parent]]
      ensures chains == old(chains)[child := old(chains)[parent]]
      ensures filters == Bumped(old(filters), old(chains)[parent], 1)
    {
      hide Chain, Counted;
      ghost var filters0, s := filters, chains[parent];
      HeadIs(filters, heads[parent], s);
      ChainAt(filters, heads[parent], s, 0);
      ForkKeeps(filters, heads, chains, extra, child, parent);
      if heads[parent] == 0 {
        heads := heads[child := 0];
        chains := chains[child := s];
        assert filters == Bumped(filters0, s, 1);
        return;
      }
      var f := heads[parent];
      heads := heads[child := f];
      ghost var i: nat := 0;
      assert filters == Bumped(filters0, s[..0], 1);
      while f != 0
        invariant i <= |s| && f == Nth(s, i) && filters == Bumped(filters0, s[..i], 1)
        invariant heads == old(heads)[child := old(heads)[parent]] && chains == old(chains) && extra == old(extra)
        decreases |s| - i
      {
        ChainAt(filters0, old(heads)[parent], s, i);
        BumpNext(filters0, old(heads)[parent], s, i, 1);
        filters := filters[f := filters[f].(refCount := filters[f].refCount + 1)];
        f := filters[f].prev;
        i := i + 1;
      }
      ChainAt(filters0, old(heads)[parent], s, i);
      assert s[..i] == s;
      chains := chains[child := s];
    }

    /** No process has a filter. */
    constructor (first: nat)
      ensures Valid() && filters == map[] && heads == map[first := 0] && chains == map[first := []]
      ensures extra == multiset{}
    {
      filters, heads, chains, extra := map[], map[first := 0], map[first := []], multiset{};
    }

    /** One reference less; the last one frees the filter. */
    method Put(f: nat)
      requires f in filters
      modifies this`filters
      ensures var b := old(filters)[f := old(filters)[f].(refCount := old(filters)[f].refCount - 1)];
        filters == if old(filters)[f].refCount - 1 <= 0 then (map g | g in b && g != f :: b[g]) else b
    {
      filters := filters[f := filters[f].(refCount := filters[f].refCount - 1)];
      if filters[f].refCount <= 0 {
        filters := map g | g in filters && g != f :: filters[g];
      }
    }

    /** The head pointer that process_fork copies with the rest of the process; no count changes, so that every
        filter on the chain has one more uncounted copy. */
    method Copy(child: nat, parent: nat)
      requires Valid() && parent in heads && child !in heads
      modifies this`heads, this`chains, this`extra
      ensures Valid() && heads == old(heads)[child := old(heads)[parent]]
      ensures chains == old(chains)[child := old(chains)[parent]]
      ensures extra == old(extra) + multiset(old(chains)[parent])
    {
      CopyKeeps(filters, heads, chains, extra, child, parent);
      heads := heads[child := heads[parent]];
      extra := extra + multiset(chains[parent]);
      chains := chains[child := chains[parent]];
    }

    /** seccomp_exit: the process lets go of its chain, and a filter whose count was 1 is freed.  All is well
        exactly when no other process has such a filter. */
    method Exit(p: nat)
      requires Valid() && p in heads
      modifies this
      ensures filters == Released(old(filters), old(chains)[p]) && extra == old(extra)
      ensures heads == old(heads)[p := 0] && chains == old(chains)[p := []]
      ensures Valid() <==> Safe(old(chains), old(extra), p)
      ensures forall f :: f in old(filters) ==>
                (f !in filters <==> f in old(chains)[p] && |Users(old(chains), f)| == old(extra)[f] + 1)
    {
      hide Chain, Counted, Users;
      ghost var filters0, s := filters, chains[p];
      HeadIs(filters, heads[p], s);
      ExitKeeps(filters, heads, chains, extra, p);
      var f := heads[p];
      ghost var i: nat := 0;
      assert filters == Released(filters0, s[..0]);
      while f != 0
        invariant i <= |s| && f == Nth(s, i) && filters == Released(filters0, s[..i])
        invariant heads == old(heads) && chains == old(chains) && extra == old(extra)
        decreases |s| - i
      {
        ChainAt(filters0, old(heads)[p], s, i);
        ReleaseNext(filters0, old(heads)[p], s, i);
        var prev := filters[f].prev;
        Put(f);
        f := prev;
        i := i + 1;
      }
      ChainAt(filters0, old(heads)[p], s, i);
      assert s[..i] == s;
      heads := heads[p := 0];
      chains := chains[p := []];
    }

    /** Attaching can only narrow: the call passes afterwards exactly when it passed before and the new filter
        allows it. */
    method AttachThenCheck(p: nat, prog: seq<Inst>, addr: nat, nr: U32, rest: seq<U8>) returns (before: int, after: int)
      requires Valid() && p in heads && addr != 0 && addr !in filters && |rest| == 51 && Sane(prog)
      requires forall f :: f in chains[p] && f in filters ==> Sane(filters[f].prog)
      modifies this
      ensures Valid() && (after == 0 <==> before == 0 && Allows(prog, Data(nr, rest)))
    {
      hide Chained, Counted, Sane, Allows, Data;
      HeadsAre();
      ghost var s := chains[p];
      before := Check(p, nr, rest);
      var r := Attach(p, prog, addr);
      assert chains[p] == [addr] + s;
      HeadsAre();
      assert forall f :: f in chains[p] <==> f == addr || f in s;
      after := Check(p, nr, rest);
    }

    lemma HeadsAre()
      requires Valid()
      ensures heads.Keys == chains.Keys
    {
    }
  }

  lemma HeadIs(filters: map<nat, Filter>, head: nat, s: seq<nat>)
    requires Chain(filters, head, s)
    ensures head == Nth(s, 0)
  {
  }

  /** The filters of s with d added to their counts. */
  ghost function Bumped(filters: map<nat, Filter>, s: seq<nat>, d: int): map<nat, Filter> {
    map f | f in filters :: if f in s then filters[f].(refCount := filters[f].refCount + d) else filters[f]
  }

  lemma BumpNext(filters: map<nat, Filter>, head: nat, s: seq<nat>, i: nat, d: int)
    requires Chain(filters, head, s) && i < |s|
    ensures s[i] in filters && s[i] in Bumped(filters, s[..i], d) && Bumped(filters, s[..i], d)[s[i]] == filters[s[i]]
    ensures Bumped(filters, s[..i + 1], d) ==
            Bumped(filters, s[..i], d)[s[i] := filters[s[i]].(refCount := filters[s[i]].refCount + d)]
  {
    ChainAt(filters, head, s, i);
    assert s[..i + 1] == s[..i] + [s[i]];
    assert s[i] !in s[..i];
  }

  lemma AttachKeeps(filters: map<nat, Filter>, heads: map<nat, nat>, chains: map<nat, seq<nat>>,
                    extra: multiset<nat>, p: nat, addr: nat, prog: seq<Inst>)
    requires Chained(filters, heads, chains) && Counted(filters, chains, extra) && p in heads && addr != 0
    requires addr !in filters
    ensures var filters' := filters[addr := Filter(1, prog, heads[p])];
      var chains' := chains[p := [addr] + chains[p]];
      Chained(filters', heads[p := addr], chains') && Counted(filters', chains', extra)
  {
    var filters' := filters[addr := Filter(1, prog, heads[p])];
    var chains' := chains[p := [addr] + chains[p]];
    forall q | q in chains ensures Chain(filters', heads[q], chains[q]) && addr !in chains[q] {
      ChainMembers(filters, heads[q], chains[q]);
      ChainFrame(filters, filters', heads[q], chains[q]);
    }
    AttachChain(filters', heads[p], chains[p], addr);
    forall f | f in filters' ensures filters'[f].refCount == |Users(chains', f)| - extra[f] > 0 {
      if f == addr {
        assert Users(chains', f) == {p};
      } else {
        assert Users(chains', f) == Users(chains, f);
      }
    }
  }

  lemma AttachChain(filters: map<nat, Filter>, head: nat, s: seq<nat>, addr: nat)
    requires Chain(filters, head, s) && addr !in s && addr != 0 && addr in filters && filters[addr].prev == head
    ensures Chain(filters, addr, [addr] + s)
  {
    var t := [addr] + s;
    forall i: nat | i < |t| ensures Link(filters, t, i) {
      if i > 0 { assert Link(filters, s, i - 1); }
    }
  }

  lemma ForkKeeps(filters: map<nat, Filter>, heads: map<nat, nat>, chains: map<nat, seq<nat>>, extra: multiset<nat>,
                  child: nat, parent: nat)
    requires Chained(filters, heads, chains) && Counted(filters, chains, extra) && parent in heads && child !in heads
    ensures var filters' := Bumped(filters, chains[parent], 1);
      var chains' := chains[child := chains[parent]];
      Chained(filters', heads[child := heads[parent]], chains') && Counted(filters', chains', extra)
  {
    var filters' := Bumped(filters, chains[parent], 1);
    var chains' := chains[child := chains[parent]];
    forall q | q in chains ensures Chain(filters', heads[q], chains[q]) {
      ChainFrame(filters, filters', heads[q], chains[q]);
    }
    forall f | f in filters' ensures filters'[f].refCount == |Users(chains', f)| - extra[f] > 0 {
      Joins(chains, child, parent, f);
    }
  }

  lemma Joins(chains: map<nat, seq<nat>>, child: nat, parent: nat, f: nat)
    requires parent in chains && child !in chains
    ensures |Users(chains[child := chains[parent]], f)| == |Users(chains, f)| + if f in chains[parent] then 1 else 0
  {
    assert Users(chains[child := chains[parent]], f) ==
           if f in chains[parent] then Users(chains, f) + {child} else Users(chains, f);
    assert child !in Users(chains, f);
  }

  lemma CopyKeeps(filters: map<nat, Filter>, heads: map<nat, nat>, chains: map<nat, seq<nat>>, extra: multiset<nat>,
                  child: nat, parent: nat)
    requires Chained(filters, heads, chains) && Counted(filters, chains, extra) && parent in heads && child !in heads
    ensures Chained(filters, heads[child := heads[parent]], chains[child := chains[parent]])
    ensures Counted(filters, chains[child := chains[parent]], extra + multiset(chains[parent]))
  {
    hide Users;
    var chains', s := chains[child := chains[parent]], chains[parent];
    ChainMembers(filters, heads[parent], s);
    forall f | f in filters ensures filters[f].refCount == |Users(chains', f)| - (extra + multiset(s))[f] > 0 {
      Joins(chains, child, parent, f);
      UniqueCount(s, f);
      assert |Users(chains, f)| >= 0;
    }
  }

  /** The filters after a process let go of those in s. */
  ghost function Released(filters: map<nat, Filter>, s: seq<nat>): map<nat, Filter> {
    map f | f in filters && !(f in s && filters[f].refCount <= 1) ::
      if f in s then filters[f].(refCount := filters[f].refCount - 1) else filters[f]
  }

  lemma ReleaseNext(filters: map<nat, Filter>, head: nat, s: seq<nat>, i: nat)
    requires Chain(filters, head, s) && i < |s|
    ensures s[i] in filters && s[i] in Released(filters, s[..i]) && Released(filters, s[..i])[s[i]] == filters[s[i]]
    ensures var a, x := Released(filters, s[..i]), filters[s[i]];
      var b := a[s[i] := x.(refCount := x.refCount - 1)];
      Released(filters, s[..i + 1]) == if x.refCount - 1 <= 0 then (map g | g in b && g != s[i] :: b[g]) else b
  {
    ChainAt(filters, head, s, i);
    assert s[..i + 1] == s[..i] + [s[i]];
    assert s[i] !in s[..i];
  }

  /** No filter of p that goes with its last counted reference is held by another process. */
  ghost predicate Safe(chains: map<nat, seq<nat>>, extra: multiset<nat>, p: nat)
    requires p in chains
  {
    forall f :: f in chains[p] && extra[f] > 0 ==> |Users(chains, f)| != extra[f] + 1
  }

  lemma ExitKeeps(filters: map<nat, Filter>, heads: map<nat, nat>, chains: map<nat, seq<nat>>, extra: multiset<nat>,
                  p: nat)
    requires Chained(filters, heads, chains) && Counted(filters, chains, extra) && p in heads && p in chains
    ensures var filters' := Released(filters, chains[p]);
      && (Chained(filters', heads[p := 0], chains[p := []]) && Counted(filters', chains[p := []], extra)
          <==> Safe(chains, extra, p))
      && forall f :: f in filters ==> (f !in filters' <==> f in chains[p] && |Users(chains, f)| == extra[f] + 1)
  {
    hide Chained, Counted, Users, Released;
    forall f | f in filters
      ensures f !in Released(filters, chains[p]) <==> f in chains[p] && |Users(chains, f)| == extra[f] + 1
    {
      Frees(filters, chains, extra, p, f);
    }
    if Safe(chains, extra, p) {
      SafeExit(filters, heads, chains, extra, p);
    } else {
      UnsafeExit(filters, heads, chains, extra, p);
    }
  }

  /** What happens to one filter. */
  lemma Frees(filters: map<nat, Filter>, chains: map<nat, seq<nat>>, extra: multiset<nat>, p: nat, f: nat)
    requires Counted(filters, chains, extra) && p in chains && f in filters
    ensures var filters' := Released(filters, chains[p]);
      && (f !in filters' <==> f in chains[p] && |Users(chains, f)| == extra[f] + 1)
      && (f in filters' ==> filters'[f].refCount == |Users(chains[p := []], f)| - extra[f] > 0)
      && (f in filters' ==> filters'[f].prev == filters[f].prev)
  {
    Leaves(chains, p, f);
    hide Users;
    assert filters[f].refCount == |Users(chains, f)| - extra[f] > 0;
  }

  lemma SafeExit(filters: map<nat, Filter>, heads: map<nat, nat>, chains: map<nat, seq<nat>>, extra: multiset<nat>,
                 p: nat)
    requires Chained(filters, heads, chains) && Counted(filters, chains, extra) && p in heads && Safe(chains, extra, p)
    ensures var filters' := Released(filters, chains[p]);
      Chained(filters', heads[p := 0], chains[p := []]) && Counted(filters', chains[p := []], extra)
  {
    hide Chain, Released, Users;
    var filters', chains' := Released(filters, chains[p]), chains[p := []];
    ReleasedKeys(filters, chains[p]);
    forall f | f in filters'
      ensures filters'[f].refCount == |Users(chains', f)| - extra[f] > 0
    {
      Frees(filters, chains, extra, p, f);
    }
    forall f | f in extra ensures f in filters' { Frees(filters, chains, extra, p, f); }
    forall q | q in chains && q != p ensures Chain(filters', heads[q], chains[q]) {
      ChainMembers(filters, heads[q], chains[q]);
      forall f | f in chains[q] ensures f in filters' && filters'[f].prev == filters[f].prev {
        Frees(filters, chains, extra, p, f);
        TwoUsers(chains, p, q, f);
      }
      ChainFrame(filters, filters', heads[q], chains[q]);
    }
    NoChain(filters');
  }

  lemma NoChain(filters: map<nat, Filter>)
    ensures Chain(filters, 0, [])
  {
  }

  lemma ReleasedKeys(filters: map<nat, Filter>, s: seq<nat>)
    ensures Released(filters, s).Keys <= filters.Keys
  {
  }

  /** A filter on two chains has two users. */
  lemma TwoUsers(chains: map<nat, seq<nat>>, p: nat, q: nat, f: nat)
    requires p in chains && q in chains && p != q && f in chains[q]
    ensures f in chains[p] ==> |Users(chains, f)| > 1
  {
    if f in chains[p] {
      OneLess(Users(chains, f), p);
      assert q in Users(chains, f) - {p};
    }
  }

  /** A freed filter that another process has leaves that process with a dangling chain. */
  lemma UnsafeExit(filters: map<nat, Filter>, heads: map<nat, nat>, chains: map<nat, seq<nat>>, extra: multiset<nat>,
                   p: nat)
    requires Chained(filters, heads, chains) && Counted(filters, chains, extra) && p in heads && !Safe(chains, extra, p)
    ensures !Chained(Released(filters, chains[p]), heads[p := 0], chains[p := []])
  {
    hide Chain, Released, Users;
    var filters', chains' := Released(filters, chains[p]), chains[p := []];
    var f :| f in chains[p] && extra[f] > 0 && |Users(chains, f)| == extra[f] + 1;
    Frees(filters, chains, extra, p, f);
    var q := Another(chains, p, f);
    if Chained(filters', heads[p := 0], chains') {
      assert chains'[q] == chains[q];
      ChainMembers(filters', heads[q], chains[q]);
    }
  }

  lemma Another(chains: map<nat, seq<nat>>, p: nat, f: nat) returns (q: nat)
    requires |Users(chains, f)| > 1
    ensures q in chains && q != p && f in chains[q]
  {
    OneLess(Users(chains, f), p);
    assert Users(chains, f) - {p} != {} by {
      if p !in Users(chains, f) { assert Users(chains, f) - {p} == Users(chains, f); }
    }
    q :| q in Users(chains, f) - {p};
  }

  lemma Leaves(chains: map<nat, seq<nat>>, p: nat, f: nat)
    requires p in chains
    ensures Users(chains[p := []], f) == Users(chains, f) - {p}
    ensures f in chains[p] ==> p in Users(chains, f) && |Users(chains[p := []], f)| == |Users(chains, f)| - 1
    ensures f !in chains[p] ==> p !in Users(chains, f) && Users(chains[p := []], f) == Users(chains, f)
    ensures |Users(chains, f)| == 1 && f in chains[p] <==> Users(chains, f) == {p}
  {
    assert Users(chains[p := []], f) == Users(chains, f) - {p} && (p in Users(chains, f) <==> f in chains[p]);
    hide Users;
    OneLess(Users(chains, f), p);
  }

  lemma OneLess(s: set<nat>, p: nat)
    ensures p in s ==> |s - {p}| == |s| - 1
    ensures p !in s ==> s - {p} == s
    ensures |s| == 1 && p in s <==> s == {p}
  {
    if p in s {
      assert s == (s - {p}) + {p};
      if |s| == 1 { assert |s - {p}| == 0; }
    }
  }

  // ---------------------------------------------------------------- whole runs

  datatype Op =
    | Attaching(p: nat, prog: seq<Inst>, addr: nat)
    | Forking(child: nat, parent: nat)
    | Copying(child: nat, parent: nat)
    | Exiting(p: nat)

  ghost predicate InUse(chains: map<nat, seq<nat>>, f: nat) {
    exists p :: p in chains && f in chains[p]
  }

  ghost function Shared(chains: map<nat, seq<nat>>, child: nat, parent: nat): map<nat, seq<nat>> {
    if parent in chains && child !in chains then chains[child := chains[parent]] else chains
  }

  /** The chains, and the copies that were not counted. */
  datatype Held = Held(chains: map<nat, seq<nat>>, extra: multiset<nat>)

  /** What one request makes of them; requests for unknown or already forked processes, or with an address that
      is in use, are not made. */
  ghost function After(s: Held, op: Op): Held {
    match op
    case Attaching(p, _, addr) =>
      if p in s.chains && addr != 0 && !InUse(s.chains, addr) then
        s.(chains := s.chains[p := [addr] + s.chains[p]])
      else s
    case Forking(child, parent) => s.(chains := Shared(s.chains, child, parent))
    case Copying(child, parent) =>
      if parent in s.chains && child !in s.chains then
        Held(Shared(s.chains, child, parent), s.extra + multiset(s.chains[parent]))
      else s
    case Exiting(p) => if p in s.chains then s.(chains := s.chains[p := []]) else s
  }

  ghost function Run(first: nat, ops: seq<Op>): Held {
    if ops == [] then Held(map[first := []], multiset{}) else After(Run(first, ops[..|ops| - 1]), ops[|ops| - 1])
  }

  /** The filters are those on some chain. */
  lemma FiltersInUse(c: Filters, f: nat)
    requires c.Valid()
    ensures f in c.filters <==> InUse(c.chains, f)
  {
    if f in c.filters {
      assert |Users(c.chains, f)| > 0;
      assert Users(c.chains, f) != {};
      var p :| p in Users(c.chains, f);
    } else if InUse(c.chains, f) {
      var p :| p in c.chains && f in c.chains[p];
      ChainMembers(c.filters, c.heads[p], c.chains[p]);
      assert false;
    }
  }

  /** The request is an exit that frees a filter another process has. */
  ghost predicate Severs(s: Held, op: Op) {
    op.Exiting? && op.p in s.chains && !Safe(s.chains, s.extra, op.p)
  }

  /** None of the first n requests does. */
  ghost predicate Whole(first: nat, ops: seq<Op>, n: nat)
    requires n <= |ops|
  {
    forall i :: 0 <= i < n ==> !Severs(Run(first, ops[..i]), ops[i])
  }

  /** The request copies a process that has filters, without counting the copy. */
  ghost predicate Uncounted(s: Held, op: Op) {
    op.Copying? && op.parent in s.chains && op.child !in s.chains && s.chains[op.parent] != []
  }

  /** No request of the run does. */
  ghost predicate AllCounted(first: nat, ops: seq<Op>) {
    forall i :: 0 <= i < |ops| ==> !Uncounted(Run(first, ops[..i]), ops[i])
  }

  lemma AllCountedStep(first: nat, ops: seq<Op>)
    requires ops != []
    ensures var n := |ops| - 1;
      AllCounted(first, ops) <==> AllCounted(first, ops[..n]) && !Uncounted(Run(first, ops[..n]), ops[n])
  {
    hide Uncounted, Run;
    var n := |ops| - 1;
    forall i | 0 <= i < n
      ensures Uncounted(Run(first, ops[..n][..i]), ops[..n][i]) <==> Uncounted(Run(first, ops[..i]), ops[i])
    {
      assert ops[..n][..i] == ops[..i];
    }
  }

  /** Every count is the number of processes that have the filter exactly as long as no copy went uncounted, and
      until then no exit can free a filter that another process has. */
  lemma {:induction false} ExactUntilCopied(first: nat, ops: seq<Op>)
    ensures Run(first, ops).extra == multiset{} <==> AllCounted(first, ops)
    ensures AllCounted(first, ops) ==> forall op :: !Severs(Run(first, ops), op)
  {
    hide After, Uncounted, Severs;
    if ops != [] {
      var n := |ops| - 1;
      AllCountedStep(first, ops);
      hide AllCounted;
      ExactUntilCopied(first, ops[..n]);
      ExtraStep(Run(first, ops[..n]), ops[n]);
    }
    if Run(first, ops).extra == multiset{} {
      forall op ensures !Severs(Run(first, ops), op) { NothingExtra(Run(first, ops), op); }
    }
  }

  lemma NothingExtra(s: Held, op: Op)
    requires s.extra == multiset{}
    ensures !Severs(s, op)
  {
  }

  lemma ExtraStep(s: Held, op: Op)
    ensures After(s, op).extra == multiset{} <==> s.extra == multiset{} && !Uncounted(s, op)
  {
    if op.Copying? && op.parent in s.chains && s.chains[op.parent] != [] {
      assert s.chains[op.parent][0] in multiset(s.chains[op.parent]);
    }
  }

  method Do(c: Filters, op: Op)
    requires c.Valid()
    modifies c
    ensures Held(c.chains, c.extra) == After(Held(old(c.chains), old(c.extra)), op)
    ensures c.Valid() <==> !Severs(Held(old(c.chains), old(c.extra)), op)
  {
    hide Chained, InUse, Counted, Safe;
    c.HeadsAre();
    match op {
      case Attaching(p, prog, addr) =>
        FiltersInUse(c, addr);
        if p in c.heads && addr !in c.filters { var r := c.Attach(p, prog, addr); }
      case Forking(child, parent) =>
        if parent in c.heads && child !in c.heads { c.Fork(child, parent); }
      case Copying(child, parent) =>
        if parent in c.heads && child !in c.heads { c.Copy(child, parent); }
      case Exiting(p) =>
        if p in c.heads { c.Exit(p); }
    }
  }

  /** Every run of attach, fork, copy and exit, up to and including the first exit that frees a filter another
      process has.  Each filter's count is the number of processes whose chain contains it less its uncounted
      copies, it is positive, and no prev link dangles, exactly when the last request is no such exit. */
  method Replay(first: nat, ops: seq<Op>) returns (c: Filters)
    requires |ops| > 0 ==> Whole(first, ops, |ops| - 1)
    ensures fresh(c) && Held(c.chains, c.extra) == Run(first, ops)
    ensures c.Valid() <==> Whole(first, ops, |ops|)
    ensures c.Valid() ==> forall f :: f in c.filters ==> c.filters[f].refCount == |Users(c.chains, f)| - c.extra[f] > 0
    ensures c.Valid() ==> forall f :: f in c.filters ==> c.filters[f].prev == 0 || c.filters[f].prev in c.filters
  {
    hide Filters.Valid, After, Severs;
    c := new Filters(first);
    for n := 0 to |ops|
      invariant fresh(c) && Held(c.chains, c.extra) == Run(first, ops[..n])
      invariant c.Valid() <==> Whole(first, ops, n)
    {
      assert ops[..n + 1][..n] == ops[..n];
      Do(c, ops[n]);
    }
    assert ops[..|ops|] == ops;
    if c.Valid() { LawsHold(c); }
  }

  lemma LawsHold(c: Filters)
    requires c.Valid()
    ensures forall f :: f in c.filters ==> c.filters[f].refCount == |Users(c.chains, f)| - c.extra[f] > 0
    ensures forall f :: f in c.filters ==> c.filters[f].prev == 0 || c.filters[f].prev in c.filters
  {
    forall f | f in c.filters
      ensures c.filters[f].refCount == |Users(c.chains, f)| - c.extra[f] > 0
      ensures c.filters[f].prev == 0 || c.filters[f].prev in c.filters
    {
      NoDangling(c.filters, c.heads, c.chains, c.extra, f);
    }
  }

  /** Attach, copy, exit: process 2, still alive, holds a filter that has been freed. */
  method CopyThenExit(prog: seq<Inst>) returns (c: Filters)
    ensures c.heads == map[1 := 0, 2 := 4096] && c.filters == map[] && !c.Valid()
  {
    hide Filters.Valid, Released, Safe, Users;
    c := new Filters(1);
    c.HeadsAre();
    var r := c.Attach(1, prog, 4096);
    c.HeadsAre();
    assert [4096] + [] == [4096];
    assert c.chains == map[1 := [4096]];
    c.Copy(2, 1);
    assert c.chains == map[1 := [4096], 2 := [4096]] && c.extra == multiset{4096};
    Severed();
    ghost var last := Filter(1, prog, 0);
    LastReleased(last);
    assert c.filters == map[4096 := last];
    c.Exit(1);
    assert c.heads == map[1 := 0, 2 := 4096];
  }

  lemma Severed()
    ensures !Safe(map[1 := [4096], 2 := [4096]], multiset{4096}, 1)
  {
    var chains: map<nat, seq<nat>> := map[1 := [4096], 2 := [4096]];
    assert Users(chains, 4096) == {1, 2};
    assert 4096 in chains[1] && multiset{4096}[4096] == 1;
  }

  lemma LastReleased(x: Filter)
    requires x.refCount == 1
    ensures Released(map[4096 := x], [4096]) == map[]
  {
  }
}
