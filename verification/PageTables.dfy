/**
 Four-level page tables as values, following section 4.5 (4-level paging) of the Intel 64 and IA-32
 Architectures Software Developer's Manual, Volume 3A, as kernel/memory/vmm.c walks them.

 Tables live in a map from frame address to 512 entries.  The table in cell (level, prefix)
 translates the 36-bit page numbers n with n >> 9 * level == prefix.  Entry 0 of the root, which the
 boot code fills with 2 MiB pages, is not part of the map.
 */
module PageTables {
  import opened Arith
  import opened Bits

  datatype Cell = Cell(level: nat, prefix: nat)

  datatype Tables = Tables(root: nat, mem: map<nat, seq<U64>>, at: map<Cell, nat>, pos: map<nat, Cell>)

  // ---------------------------------------------------------------- entries

  predicate Present(e: U64) {
    e % 2 == 1
  }

  /** e & 0xFFFFFFFFFF000 */
  function FrameOf(e: U64): nat {
    e / 4096 % 0x100_0000_0000 * 4096
  }

  lemma FrameBits(f: nat, flags: nat)
    requires f < 0x100_0000_0000 && flags < 4096
    ensures FrameOf(4096 * f + flags) == 4096 * f
    ensures Present(4096 * f + flags) <==> flags % 2 == 1
  {
    assert (4096 * f + flags) / 4096 == f;
  }

  lemma FlaggedSum(frame: nat, flags: nat)
    requires frame % 4096 == 0 && flags < 4096
    ensures BitOr(frame, flags) == frame + flags
  {
    assert Pow2(12) == 4096;
    BitOrDisjoint(frame, flags, 12);
  }

  /** A page-aligned address with flag bits or-ed in. */
  lemma FlaggedFrame(frame: nat, flags: nat)
    requires frame % 4096 == 0 && frame < 0x10_0000_0000_0000 && flags < 4096
    ensures BitOr(frame, flags) == frame + flags < TWO64
    ensures FrameOf(frame + flags) == frame
    ensures Present(frame + flags) <==> flags % 2 == 1
  {
    hide FrameOf, Present, BitOr;
    FlaggedSum(frame, flags);
    FrameBits(frame / 4096, flags);
  }

  // ---------------------------------------------------------------- the tree of tables

  function ZeroTable(): (s: seq<U64>)
    ensures |s| == 512 && forall i :: 0 <= i < 512 ==> s[i] == 0
  {
    seq(512, _ => 0)
  }

  function Put(s: seq<U64>, i: nat, e: U64): seq<U64>
    requires i < |s|
  {
    s[i := e]
  }

  /** Every table has coordinates, one table per cell, in a page-aligned frame that is not frame 0. */
  ghost predicate Placed(t: Tables) {
    && t.pos.Keys == t.mem.Keys
    && 0 !in t.mem
    && (forall c :: c in t.at ==> t.at[c] in t.mem && t.pos[t.at[c]] == c)
    && (forall a :: a in t.pos ==> t.pos[a] in t.at && t.at[t.pos[a]] == a)
    && (forall a :: a in t.mem ==> |t.mem[a]| == 512 && a % 4096 == 0 && a < 0x10_0000_0000_0000)
  }

  ghost function TableAt(t: Tables, l: nat, p: nat): nat {
    if Cell(l, p) in t.at then t.at[Cell(l, p)] else 0
  }

  ghost function EntryAt(t: Tables, l: nat, p: nat, i: nat): U64
    requires Placed(t) && i < 512
  {
    if Cell(l, p) in t.at then t.mem[t.at[Cell(l, p)]][i] else 0
  }

  /** The root slot a table of level 1 to 3 hangs below. */
  function RootSlot(l: nat, p: nat): nat {
    if l >= 3 then p else if l == 2 then p / 512 else p / 512 / 512
  }

  ghost predicate Rooted(t: Tables) {
    && Cell(4, 0) in t.at && t.at[Cell(4, 0)] == t.root
    && (forall l: nat, p: nat :: Cell(l, p) in t.at ==> 1 <= l <= 4 && if l == 4 then p == 0 else RootSlot(l, p) > 0)
  }

  /** The entry of the parent that a cell names is present exactly when the cell has a table, and then
      points to it. */
  ghost predicate Link(t: Tables, l: nat, p: nat)
    requires Placed(t)
  {
    1 <= l < 4 && RootSlot(l, p) > 0 ==>
      var e := EntryAt(t, l + 1, p / 512, p % 512);
      (Present(e) <==> Cell(l, p) in t.at) && (Present(e) ==> FrameOf(e) == t.at[Cell(l, p)])
  }

  ghost predicate Inv(t: Tables) {
    Placed(t) && Rooted(t) && forall l: nat, p: nat {:trigger Link(t, l, p)} :: Link(t, l, p)
  }

  /** The entry of page n: the map the tables stand for. */
  ghost function Pte(t: Tables, n: nat): U64
    requires Placed(t)
  {
    EntryAt(t, 1, n / 512, n % 512)
  }

  /** The three tables below the root that page n needs. */
  ghost function Path(n: nat): set<Cell> {
    {Cell(3, n / 512 / 512 / 512)} + {Cell(2, n / 512 / 512)} + {Cell(1, n / 512)}
  }

  /** How many of them are not among the given ones. */
  ghost function Lacking(n: nat, keys: set<Cell>): nat {
    |Path(n) - keys|
  }

  /** A zeroed table in frame a as the table of cell (l, p), linked into its parent. */
  ghost function WithTable(t: Tables, l: nat, p: nat, a: nat): Tables
    requires Placed(t) && Cell(l + 1, p / 512) in t.at && a + 7 < TWO64
  {
    var n := t.at[Cell(l + 1, p / 512)];
    Tables(t.root, t.mem[a := ZeroTable()][n := Put(t.mem[n], p % 512, a + 7)],
           t.at[Cell(l, p) := a], t.pos[a := Cell(l, p)])
  }

  lemma WithTablePlaced(t: Tables, l: nat, p: nat, a: nat)
    requires Inv(t) && 1 <= l < 4 && RootSlot(l, p) > 0 && Cell(l + 1, p / 512) in t.at && Cell(l, p) !in t.at
    requires a != 0 && a !in t.mem && a % 4096 == 0 && a < 0x10_0000_0000_0000
    ensures Placed(WithTable(t, l, p, a)) && Rooted(WithTable(t, l, p, a))
    ensures TableAt(WithTable(t, l, p, a), l, p) == a
  {
    assert Placed(WithTable(t, l, p, a));
  }

  lemma WithTableEntries(t: Tables, l: nat, p: nat, a: nat)
    requires Placed(t) && Cell(l + 1, p / 512) in t.at && Cell(l, p) !in t.at
    requires a != 0 && a !in t.mem && a + 7 < TWO64 && Placed(WithTable(t, l, p, a))
    ensures forall l': nat, p': nat, i: nat :: i < 512 ==>
              EntryAt(WithTable(t, l, p, a), l', p', i) ==
              if l' == l + 1 && p' == p / 512 && i == p % 512 then a + 7 else EntryAt(t, l', p', i)
  {
    var w := WithTable(t, l, p, a);
    forall l': nat, p': nat, i: nat | i < 512
      ensures EntryAt(w, l', p', i) ==
              if l' == l + 1 && p' == p / 512 && i == p % 512 then a + 7 else EntryAt(t, l', p', i)
    {
      if Cell(l', p') == Cell(l, p) { assert w.at[Cell(l', p')] == a; }
    }
  }

  /** Adding a table changes no page's entry. */
  lemma WithTableInv(t: Tables, l: nat, p: nat, a: nat)
    requires Inv(t) && 1 <= l < 4 && RootSlot(l, p) > 0 && Cell(l + 1, p / 512) in t.at && Cell(l, p) !in t.at
    requires a != 0 && a !in t.mem && a % 4096 == 0 && a < 0x10_0000_0000_0000
    ensures Inv(WithTable(t, l, p, a)) && forall n: nat :: Pte(WithTable(t, l, p, a), n) == Pte(t, n)
  {
    hide FrameOf, BitOr, Rooted, Present, WithTable;
    var w := WithTable(t, l, p, a);
    WithTablePlaced(t, l, p, a);
    WithTableEntries(t, l, p, a);
    FlaggedFrame(a, 7);
    forall l': nat, p': nat ensures Link(w, l', p') {
      WithTableLink(t, l, p, a, l', p');
    }
  }

  lemma WithTableLink(t: Tables, l: nat, p: nat, a: nat, l': nat, p': nat)
    requires Inv(t) && Cell(l + 1, p / 512) in t.at && a + 7 < TWO64 && Placed(WithTable(t, l, p, a))
    requires Present(a + 7) && FrameOf(a + 7) == a
    requires EntryAt(WithTable(t, l, p, a), l' + 1, p' / 512, p' % 512) ==
             if l' + 1 == l + 1 && p' / 512 == p / 512 && p' % 512 == p % 512 then a + 7
             else EntryAt(t, l' + 1, p' / 512, p' % 512)
    ensures Link(WithTable(t, l, p, a), l', p')
  {
    hide FrameOf, Present, Placed, EntryAt, Rooted, RootSlot;
    assert Link(t, l', p');
    assert p' / 512 == p / 512 && p' % 512 == p % 512 ==> p' == p;
  }

  lemma WithTableFacts(t: Tables, l: nat, p: nat, a: nat)
    requires Placed(t) && Cell(l + 1, p / 512) in t.at && a + 7 < TWO64 && a !in t.mem
    ensures var w, n := WithTable(t, l, p, a), t.at[Cell(l + 1, p / 512)];
      && w.root == t.root && w.mem == t.mem[a := ZeroTable()][n := Put(t.mem[n], p % 512, a + 7)]
      && n in w.mem && |w.mem[n]| == 512 && w.mem[n][p % 512] == a + 7
      && w.at == t.at[Cell(l, p) := a] && w.pos == t.pos[a := Cell(l, p)]
      && w.mem.Keys == t.mem.Keys + {a} && w.at.Keys == t.at.Keys + {Cell(l, p)} && w.at[Cell(l, p)] == a
  {
  }

  /** The tables with the entry of page n set to e. */
  ghost function WithPte(t: Tables, n: nat, e: U64): Tables
    requires Placed(t) && Cell(1, n / 512) in t.at
  {
    var a := t.at[Cell(1, n / 512)];
    t.(mem := t.mem[a := Put(t.mem[a], n % 512, e)])
  }

  lemma WithPteInv(t: Tables, n: nat, e: U64)
    requires Inv(t) && Cell(1, n / 512) in t.at
    ensures Inv(WithPte(t, n, e)) && forall k: nat :: Pte(WithPte(t, n, e), k) == if k == n then e else Pte(t, k)
  {
    var w := WithPte(t, n, e);
    assert Placed(w);
    forall l: nat, p: nat ensures Link(w, l, p) {
      assert Link(t, l, p);
    }
  }

  /** One step of a walk: the entry of the parent leads to the child's table or is not present. */
  lemma Walk(t: Tables, l: nat, p: nat)
    requires Inv(t) && 1 <= l < 4 && RootSlot(l, p) > 0 && Cell(l + 1, p / 512) in t.at
    ensures var parent := t.at[Cell(l + 1, p / 512)];
      && parent in t.mem && |t.mem[parent]| == 512
      && (Present(t.mem[parent][p % 512]) <==> Cell(l, p) in t.at)
      && (Cell(l, p) in t.at ==> FrameOf(t.mem[parent][p % 512]) == t.at[Cell(l, p)] && t.at[Cell(l, p)] in t.mem)
  {
    assert Link(t, l, p);
  }

  /** Where a table of the path is missing, the page has no entry. */
  lemma NoPath(t: Tables, n: nat, l: nat)
    requires Inv(t) && 1 <= l <= 3 && n / 512 / 512 / 512 > 0
    requires Cell(l, if l == 1 then n / 512 else if l == 2 then n / 512 / 512 else n / 512 / 512 / 512) !in t.at
    ensures Pte(t, n) == 0 && Cell(1, n / 512) !in t.at
  {
    assert Link(t, 1, n / 512) && Link(t, 2, n / 512 / 512);
  }

  // ---------------------------------------------------------------- the walk the processor makes

  ghost function Entry(mem: map<nat, seq<U64>>, table: nat, i: nat): U64 {
    if table in mem && i < |mem[table]| then mem[table][i] else 0
  }

  /** The entry that a walk through memory from a root table finds for page n, 0 when a level is not present. */
  ghost function Hardware(mem: map<nat, seq<U64>>, root: nat, n: nat): U64 {
    var e4 := Entry(mem, root, n / 512 / 512 / 512);
    if !Present(e4) then 0 else
      var e3 := Entry(mem, FrameOf(e4), n / 512 / 512 % 512);
      if !Present(e3) then 0 else
        var e2 := Entry(mem, FrameOf(e3), n / 512 % 512);
        if !Present(e2) then 0 else Entry(mem, FrameOf(e2), n % 512)
  }

  /** In a well-formed tree the walk finds the entry of the page. */
  lemma HardwareIs(t: Tables, n: nat)
    requires Inv(t) && 0 < n / 512 / 512 / 512 < 512
    ensures Placed(t) && Hardware(t.mem, t.root, n) == Pte(t, n)
  {
    var p1 := n / 512;
    var p2 := p1 / 512;
    var p3 := p2 / 512;
    TopCell(t);
    assert p3 % 512 == p3 && p3 / 512 == 0;
    hide FrameOf, Present, Inv, Pte;
    Walk(t, 3, p3);
    if Cell(3, p3) !in t.at {
      NoPath(t, n, 3);
    } else {
      Walk(t, 2, p2);
      if Cell(2, p2) !in t.at {
        NoPath(t, n, 2);
      } else {
        Walk(t, 1, p1);
        if Cell(1, p1) !in t.at { NoPath(t, n, 1); } else { LastEntry(t, n); }
      }
    }
  }

  lemma TopCell(t: Tables)
    requires Inv(t)
    ensures Placed(t) && Cell(4, 0) in t.at && t.at[Cell(4, 0)] == t.root
  {
  }

  lemma LastEntry(t: Tables, n: nat)
    requires Inv(t) && Cell(1, n / 512) in t.at
    ensures Placed(t) && Pte(t, n) == Entry(t.mem, t.at[Cell(1, n / 512)], n % 512)
  {
  }

  /** No present entry of a table outside frame 0 has changed. */
  ghost predicate Kept(mem: map<nat, seq<U64>>, mem': map<nat, seq<U64>>) {
    forall a :: a in mem && a != 0 ==> a in mem' && TableKept(mem[a], mem'[a])
  }

  ghost predicate TableKept(s: seq<U64>, s': seq<U64>) {
    |s'| == |s| && forall i :: 0 <= i < |s| && Present(s[i]) ==> s'[i] == s[i]
  }

  /** What the walk found before, it still finds. */
  lemma HardwareKept(mem: map<nat, seq<U64>>, mem': map<nat, seq<U64>>, root: nat, n: nat)
    requires Kept(mem, mem') && 0 !in mem && Present(Hardware(mem, root, n))
    ensures Hardware(mem', root, n) == Hardware(mem, root, n)
  {
    hide FrameOf;
    assert !Present(0);
    var e4 := Entry(mem, root, n / 512 / 512 / 512);
    EntryKept(mem, mem', root, n / 512 / 512 / 512);
    EntryKept(mem, mem', FrameOf(e4), n / 512 / 512 % 512);
    var e3 := Entry(mem, FrameOf(e4), n / 512 / 512 % 512);
    EntryKept(mem, mem', FrameOf(e3), n / 512 % 512);
    EntryKept(mem, mem', FrameOf(Entry(mem, FrameOf(e3), n / 512 % 512)), n % 512);
  }

  lemma EntryKept(mem: map<nat, seq<U64>>, mem': map<nat, seq<U64>>, table: nat, i: nat)
    requires Kept(mem, mem') && 0 !in mem
    ensures Present(Entry(mem, table, i)) ==> Entry(mem', table, i) == Entry(mem, table, i)
  {
    assert !Present(0);
  }

  lemma KeptTrans(a: map<nat, seq<U64>>, b: map<nat, seq<U64>>, c: map<nat, seq<U64>>)
    requires Kept(a, b) && Kept(b, c)
    ensures Kept(a, c)
  {
    hide Present;
    forall k | k in a && k != 0 ensures k in c && TableKept(a[k], c[k]) {
      assert TableKept(a[k], b[k]) && TableKept(b[k], c[k]);
    }
  }

  /** Filling an entry that is not present, after adding a table, changes no present entry. */
  lemma KeptInstall(mem: map<nat, seq<U64>>, frame: nat, table: nat, idx: nat, e: U64)
    requires frame == 0 || frame !in mem
    requires table in mem && idx < |mem[table]| == 512 && !Present(mem[table][idx])
    ensures var mem' := mem[frame := ZeroTable()];
      idx < |mem'[table]| && Kept(mem, mem'[table := Put(mem'[table], idx, e)])
  {
    hide Present;
    assert |ZeroTable()| == 512;
  }
}
