/**
 The 64-way radix tree of kernel/lib/radix-tree.c, seen as a value.

 Nodes live in a map from address to record, so that freeing a node removes it and a dangling
 link would be visible.  The maps `at` and `pos` give every live node its absolute coordinates:
 the node in cell (level, prefix) holds exactly the keys k with k >> 6 * level == prefix.
 */
module RadixView {
  import opened Arith

  type Ptr = nat

  const MAX_HEIGHT: nat := 10

  datatype Node = Node(count: nat, slots: seq<Ptr>)

  datatype Cell = Cell(level: nat, prefix: nat)

  datatype View = View(height: nat, rnode: Ptr, nodes: map<Ptr, Node>,
                       at: map<Cell, Ptr>, pos: map<Ptr, Cell>)

  /** A freshly zeroed node. */
  function EmptyNode(): (n: Node)
    ensures n.count == 0 && |n.slots| == 64 && forall i :: 0 <= i < 64 ==> n.slots[i] == 0
  {
    Node(0, Zeros(64))
  }

  function Zeros(n: nat): (s: seq<Ptr>)
    ensures |s| == n && forall i :: 0 <= i < n ==> s[i] == 0
  {
    if n == 0 then [] else Zeros(n - 1) + [0]
  }

  /** The number of non-null slots. */
  function Filled(s: seq<Ptr>): (n: nat)
    ensures n <= |s|
  {
    if s == [] then 0 else (if s[0] != 0 then 1 else 0) + Filled(s[1..])
  }

  lemma {:induction false} FilledUpdate(s: seq<Ptr>, i: nat, x: Ptr)
    requires i < |s|
    ensures Filled(s[i := x]) == Filled(s) + (if x != 0 then 1 else 0) - (if s[i] != 0 then 1 else 0)
  {
    if i == 0 {
      assert s[i := x][1..] == s[1..];
    } else {
      assert s[i := x][1..] == s[1..][i - 1 := x];
      FilledUpdate(s[1..], i - 1, x);
    }
  }

  lemma {:induction false} FilledZero(s: seq<Ptr>)
    ensures Filled(s) == 0 <==> forall i :: 0 <= i < |s| ==> s[i] == 0
  {
    if s != [] {
      FilledZero(s[1..]);
      assert forall i :: 0 < i < |s| ==> s[i] == s[1..][i - 1];
      if Filled(s) == 0 {
        forall i | 0 <= i < |s| ensures s[i] == 0 {
          assert i > 0 ==> s[i] == s[1..][i - 1];
        }
      }
    }
  }

  /** A sequence whose only non-null slot is slot 0 is zero everywhere else, and conversely. */
  lemma FilledOne(s: seq<Ptr>)
    requires s != [] && s[0] != 0
    ensures Filled(s) == 1 <==> forall i :: 1 <= i < |s| ==> s[i] == 0
  {
    FilledZero(s[1..]);
    if Filled(s) == 1 {
      forall i | 1 <= i < |s| ensures s[i] == 0 { assert s[i] == s[1..][i - 1]; }
    }
  }

  lemma EmptyNodeFilled()
    ensures Filled(EmptyNode().slots) == 0
  {
    FilledZero(EmptyNode().slots);
  }

  /** Slot i of the node in cell (level, prefix), or null when there is no such node. */
  ghost function Slot(v: View, level: nat, prefix: nat, i: nat): (p: Ptr)
    requires Placed(v) && i < 64
  {
    if Cell(level, prefix) in v.at then v.nodes[v.at[Cell(level, prefix)]].slots[i] else 0
  }

  /** Every node has coordinates, one node per cell, and an exact count of its non-null slots. */
  ghost predicate Placed(v: View) {
    && v.pos.Keys == v.nodes.Keys
    && 0 !in v.nodes
    && (forall c :: c in v.at ==> v.at[c] in v.nodes && v.pos[v.at[c]] == c)
    && (forall a :: a in v.pos ==> v.pos[a] in v.at && v.at[v.pos[a]] == a)
    && (forall a :: a in v.nodes ==> |v.nodes[a].slots| == 64)
  }

  ghost predicate Counted(v: View) {
    forall a :: a in v.nodes ==> v.nodes[a].count == Filled(v.nodes[a].slots)
  }

  /** The root sits in cell (height, 0), and a null root means there are no nodes. */
  ghost predicate Rooted(v: View) {
    && v.height <= MAX_HEIGHT
    && (v.rnode == 0 ==> v.at == map[])
    && (v.rnode != 0 ==> v.height >= 1 && Cell(v.height, 0) in v.at && v.at[Cell(v.height, 0)] == v.rnode)
    && (forall l: nat, p: nat :: Cell(l, p) in v.at ==> 1 <= l <= v.height && (l == v.height ==> p == 0))
  }

  /** The node in cell (level, prefix), null when there is none. */
  ghost function NodeAt(v: View, level: nat, prefix: nat): Ptr {
    if Cell(level, prefix) in v.at then v.at[Cell(level, prefix)] else 0
  }

  /** The slot of the parent that a cell names holds exactly the node in that cell. */
  ghost predicate Link(v: View, l: nat, p: nat)
    requires Placed(v)
  {
    1 <= l < v.height ==> Slot(v, l + 1, p / 64, p % 64) == NodeAt(v, l, p)
  }

  ghost predicate Linked(v: View)
    requires Placed(v)
  {
    forall l: nat, p: nat {:trigger Link(v, l, p)} :: Link(v, l, p)
  }

  ghost predicate Inv(v: View) {
    Placed(v) && Counted(v) && Rooted(v) && Linked(v)
  }

  /** The item stored under key k, null when there is none. */
  ghost function Get(v: View, k: nat): (item: Ptr)
    requires Placed(v)
  {
    Slot(v, 1, k / 64, k % 64)
  }

  ghost predicate SameItems(v: View, w: View)
    requires Placed(v) && Placed(w)
  {
    forall k: nat :: Get(v, k) == Get(w, k)
  }

  /** Two well-formed trees that store the same items. */
  ghost predicate Same(v: View, w: View) {
    Inv(v) && Inv(w) && SameItems(v, w)
  }

  lemma SameTrans(u: View, v: View, w: View)
    requires Same(u, v) && Same(v, w)
    ensures Same(u, w)
  {
  }

  lemma SameRefl(v: View)
    requires Inv(v)
    ensures Same(v, v)
  {
  }

  /** No node except possibly `spare` is empty. */
  ghost predicate FullBut(v: View, spare: Ptr) {
    forall a :: a in v.nodes && a != spare ==> Filled(v.nodes[a].slots) > 0
  }

  // ---------------------------------------------------------------- ancestors and key ranges

  /** All ancestors of a node are present, up to the root. */
  lemma {:induction false} Ancestor(v: View, l: nat, p: nat, m: nat)
    requires Inv(v) && Cell(l, p) in v.at && l <= m <= v.height
    ensures Cell(m, Shr6(p, m - l)) in v.at
    decreases m - l
  {
    if l < m {
      assert Link(v, l, p);
      Ancestor(v, l + 1, p / 64, m);
    }
  }

  /** The node in cell (m, k >> 6m) exists for every stored key and every level. */
  lemma KeyPath(v: View, k: nat, m: nat)
    requires Inv(v) && Get(v, k) != 0 && 1 <= m <= v.height
    ensures Cell(m, Shr6(k, m)) in v.at
  {
    Ancestor(v, 1, k / 64, m);
  }

  /** Stored keys fit the height: k < 64^height. */
  lemma KeyBelow(v: View, k: nat)
    requires Inv(v) && Get(v, k) != 0
    ensures v.height >= 1 && k < Pow64(v.height)
  {
    KeyPath(v, k, v.height);
    Shr6Zero(k, v.height);
  }

  /** One step of a descent: the slot an index selects leads on towards its item, and null means no item. */
  lemma Descend(v: View, h: nat, node: Ptr, index: nat)
    requires Inv(v) && h >= 1 && node == NodeAt(v, h, Shr6(index, h)) != 0
    ensures node in v.nodes && |v.nodes[node].slots| == 64
    ensures var next := v.nodes[node].slots[Shr6(index, h - 1) % 64];
      && next == (if h == 1 then Get(v, index) else NodeAt(v, h - 1, Shr6(index, h - 1)))
      && (next == 0 ==> Get(v, index) == 0)
  {
    Shr6Step(index, h - 1);
    assert Link(v, h - 1, Shr6(index, h - 1));
    if h > 1 && Get(v, index) != 0 { KeyPath(v, index, h - 1); }
  }

  /** An index the height does not cover has no item, and one it covers starts at the root. */
  lemma DescendStart(v: View, index: nat)
    requires Inv(v)
    ensures v.height == 0 || v.rnode == 0 || index >= Pow64(v.height) ==> Get(v, index) == 0
    ensures v.rnode != 0 && index < Pow64(v.height) ==> v.rnode == NodeAt(v, v.height, Shr6(index, v.height))
  {
    if Get(v, index) != 0 { KeyBelow(v, index); }
    Shr6Zero(index, v.height);
  }

  // ---------------------------------------------------------------- the steps the operations take

  /** radix_tree_extend: a new root whose slot 0 is the old root. */
  ghost function Raise(v: View, a: Ptr): View {
    View(v.height + 1, a, v.nodes[a := Node(1, EmptyNode().slots[0 := v.rnode])],
         v.at[Cell(v.height + 1, 0) := a], v.pos[a := Cell(v.height + 1, 0)])
  }

  lemma RaisePlaced(v: View, a: Ptr)
    requires Inv(v) && v.rnode != 0 && v.height < MAX_HEIGHT && a != 0 && a !in v.nodes
    ensures Cell(v.height + 1, 0) !in v.at
    ensures Placed(Raise(v, a)) && Rooted(Raise(v, a))
  {
    assert Cell(v.height + 1, 0) !in v.at;
    assert Placed(Raise(v, a));
  }

  lemma RaiseSlots(v: View, a: Ptr)
    requires Placed(v) && Counted(v) && v.rnode != 0 && a != 0 && a !in v.nodes
    requires Cell(v.height + 1, 0) !in v.at
    requires Placed(Raise(v, a))
    ensures Counted(Raise(v, a))
    ensures forall l: nat, p: nat, i: nat :: i < 64 ==>
              Slot(Raise(v, a), l, p, i) ==
              if l == v.height + 1 && p == 0 && i == 0 then v.rnode else Slot(v, l, p, i)
  {
    RaiseCounted(v, a);
    hide Counted, Filled;
    forall l: nat, p: nat, i: nat | i < 64
      ensures Slot(Raise(v, a), l, p, i) ==
              if l == v.height + 1 && p == 0 && i == 0 then v.rnode else Slot(v, l, p, i)
    {
      RaiseSlot(v, a, l, p, i);
    }
  }

  lemma RaiseCounted(v: View, a: Ptr)
    requires Counted(v) && v.rnode != 0
    ensures Counted(Raise(v, a))
  {
    EmptyNodeFilled();
    FilledUpdate(EmptyNode().slots, 0, v.rnode);
    hide Filled;
  }

  lemma RaiseSlot(v: View, a: Ptr, l: nat, p: nat, i: nat)
    requires Placed(v) && Placed(Raise(v, a)) && a !in v.nodes && Cell(v.height + 1, 0) !in v.at && i < 64
    ensures Slot(Raise(v, a), l, p, i) ==
            if l == v.height + 1 && p == 0 && i == 0 then v.rnode else Slot(v, l, p, i)
  {
  }

  lemma RaiseKeeps(v: View, a: Ptr)
    requires Inv(v) && v.rnode != 0 && v.height < MAX_HEIGHT && a != 0 && a !in v.nodes
    ensures Inv(Raise(v, a)) && SameItems(v, Raise(v, a))
  {
    var w := Raise(v, a);
    RaisePlaced(v, a);
    RaiseSlots(v, a);
    forall l: nat, p: nat ensures Link(w, l, p) {
      assert Link(v, l, p);
    }
  }

  /** With no root, the height is only a number. */
  lemma Resize(v: View, h: nat)
    requires Inv(v) && v.rnode == 0 && h <= MAX_HEIGHT
    ensures Inv(v.(height := h)) && SameItems(v, v.(height := h))
  {
    assert forall l: nat, p: nat :: Link(v.(height := h), l, p);
  }

  /** An empty root in an empty tree. */
  ghost function Plant(v: View, a: Ptr): View {
    View(v.height, a, map[a := EmptyNode()], map[Cell(v.height, 0) := a], map[a := Cell(v.height, 0)])
  }

  lemma PlantKeeps(v: View, a: Ptr)
    requires Inv(v) && v.rnode == 0 && v.height >= 1 && a != 0
    ensures Inv(Plant(v, a)) && SameItems(v, Plant(v, a))
    ensures Plant(v, a).nodes == v.nodes[a := EmptyNode()]
  {
    hide Filled, Linked, Counted;
    var w := Plant(v, a);
    NoNodes(v);
    PlantCounted(v, a);
    assert Placed(w) && Rooted(w);
    PlantLinked(v, a);
  }

  lemma NoNodes(v: View)
    requires Placed(v) && Rooted(v) && v.rnode == 0
    ensures v.nodes == map[] && v.at == map[]
  {
    assert v.nodes.Keys == {};
  }

  lemma PlantCounted(v: View, a: Ptr)
    ensures Counted(Plant(v, a))
  {
    EmptyNodeFilled();
  }

  lemma PlantLinked(v: View, a: Ptr)
    requires Placed(v) && v.at == map[] && Placed(Plant(v, a)) && v.height >= 1
    ensures Linked(Plant(v, a)) && SameItems(v, Plant(v, a))
  {
    hide Placed;
    var w := Plant(v, a);
    forall l: nat, p: nat ensures Link(w, l, p) && forall i: nat :: i < 64 ==> Slot(w, l, p, i) == 0 {
    }
  }

  /** Changing one cell together with the parent slot that names it keeps the links and the items. */
  lemma Relink(v: View, w: View, l: nat, p: nat)
    requires Placed(v) && Placed(w) && Linked(v) && w.height == v.height && l >= 1
    requires forall l': nat, p': nat :: Cell(l', p') != Cell(l, p) ==> NodeAt(w, l', p') == NodeAt(v, l', p')
    requires forall l': nat, p': nat, i: nat :: i < 64 ==>
               Slot(w, l', p', i) ==
               if l' == l + 1 && p' == p / 64 && i == p % 64 then NodeAt(w, l, p) else Slot(v, l', p', i)
    ensures Linked(w) && SameItems(v, w)
  {
    hide Placed, Slot, NodeAt;
    forall l': nat, p': nat ensures Link(w, l', p') {
      assert Link(v, l', p');
      assert p' / 64 == p / 64 && p' % 64 == p % 64 ==> p' == p;
    }
  }

  /** An empty node in cell (l, p), linked into the slot of its parent. */
  ghost function Sprout(v: View, l: nat, p: nat, a: Ptr): View
    requires Placed(v) && Cell(l + 1, p / 64) in v.at
  {
    var n := v.at[Cell(l + 1, p / 64)];
    View(v.height, v.rnode,
         v.nodes[a := EmptyNode()][n := Node(v.nodes[n].count + 1, v.nodes[n].slots[p % 64 := a])],
         v.at[Cell(l, p) := a], v.pos[a := Cell(l, p)])
  }

  lemma SproutPlaced(v: View, l: nat, p: nat, a: Ptr)
    requires Inv(v) && Cell(l + 1, p / 64) in v.at && l >= 1
    requires Slot(v, l + 1, p / 64, p % 64) == 0 && a != 0 && a !in v.nodes
    ensures Cell(l, p) !in v.at
    ensures Placed(Sprout(v, l, p, a)) && Rooted(Sprout(v, l, p, a)) && NodeAt(Sprout(v, l, p, a), l, p) == a
    ensures forall l': nat, p': nat :: Cell(l', p') != Cell(l, p)
              ==> NodeAt(Sprout(v, l, p, a), l', p') == NodeAt(v, l', p')
  {
    assert Link(v, l, p);
    assert Placed(Sprout(v, l, p, a));
  }

  lemma SproutSlots(v: View, l: nat, p: nat, a: Ptr)
    requires Placed(v) && Counted(v) && Cell(l + 1, p / 64) in v.at && Cell(l, p) !in v.at
    requires Slot(v, l + 1, p / 64, p % 64) == 0 && a != 0 && a !in v.nodes
    requires Placed(Sprout(v, l, p, a))
    ensures Counted(Sprout(v, l, p, a))
    ensures forall l': nat, p': nat, i: nat :: i < 64 ==>
              Slot(Sprout(v, l, p, a), l', p', i) ==
              if l' == l + 1 && p' == p / 64 && i == p % 64 then a else Slot(v, l', p', i)
  {
    SproutCounted(v, l, p, a);
    hide Counted, Filled, EmptyNode;
    forall l': nat, p': nat, i: nat | i < 64
      ensures Slot(Sprout(v, l, p, a), l', p', i) ==
              if l' == l + 1 && p' == p / 64 && i == p % 64 then a else Slot(v, l', p', i)
    {
      SproutSlot(v, l, p, a, l', p', i);
    }
  }

  lemma SproutCounted(v: View, l: nat, p: nat, a: Ptr)
    requires Placed(v) && Counted(v) && Cell(l + 1, p / 64) in v.at && Slot(v, l + 1, p / 64, p % 64) == 0 && a != 0
    ensures Counted(Sprout(v, l, p, a))
  {
    hide Filled, EmptyNode;
    EmptyNodeFilled();
    var n := v.at[Cell(l + 1, p / 64)];
    FilledUpdate(v.nodes[n].slots, p % 64, a);
    var w := Sprout(v, l, p, a);
    forall b | b in w.nodes ensures w.nodes[b].count == Filled(w.nodes[b].slots) {
    }
  }

  lemma SproutSlot(v: View, l: nat, p: nat, a: Ptr, l': nat, p': nat, i: nat)
    requires Placed(v) && Cell(l + 1, p / 64) in v.at && Cell(l, p) !in v.at && a !in v.nodes && i < 64
    requires Placed(Sprout(v, l, p, a))
    ensures Slot(Sprout(v, l, p, a), l', p', i) ==
            if l' == l + 1 && p' == p / 64 && i == p % 64 then a else Slot(v, l', p', i)
  {
  }

  lemma SproutKeeps(v: View, l: nat, p: nat, a: Ptr)
    requires Inv(v) && Cell(l + 1, p / 64) in v.at && l >= 1
    requires Slot(v, l + 1, p / 64, p % 64) == 0 && a != 0 && a !in v.nodes
    ensures Inv(Sprout(v, l, p, a)) && SameItems(v, Sprout(v, l, p, a)) && NodeAt(Sprout(v, l, p, a), l, p) == a
    ensures FullBut(v, v.at[Cell(l + 1, p / 64)]) ==> FullBut(Sprout(v, l, p, a), a)
  {
    var w := Sprout(v, l, p, a);
    SproutPlaced(v, l, p, a);
    SproutSlots(v, l, p, a);
    assert w.height == v.height;
    Relink(v, w, l, p);
    FilledUpdate(v.nodes[v.at[Cell(l + 1, p / 64)]].slots, p % 64, a);
  }

  /** Store x in slot i of the leaf in cell (1, p); x may be null, which clears the slot. */
  ghost function Store(v: View, p: nat, i: nat, x: Ptr): View
    requires Placed(v) && Cell(1, p) in v.at && i < 64
  {
    var n := v.at[Cell(1, p)];
    var slots := v.nodes[n].slots[i := x];
    v.(nodes := v.nodes[n := Node(Filled(slots), slots)])
  }

  lemma StoreKeeps(v: View, k: nat, x: Ptr)
    requires Inv(v) && Cell(1, k / 64) in v.at
    ensures var w := Store(v, k / 64, k % 64, x);
            Inv(w) && forall j: nat :: Get(w, j) == if j == k then x else Get(v, j)
  {
    var w := Store(v, k / 64, k % 64, x);
    assert Placed(w);
    forall l: nat, p: nat ensures Link(w, l, p) {
      assert Link(v, l, p);
    }
  }

  /** Free the node in cell (l, p) and clear the slot of its parent. */
  ghost function Prune(v: View, l: nat, p: nat): View
    requires Placed(v) && Cell(l, p) in v.at && Cell(l + 1, p / 64) in v.at
  {
    var a := v.at[Cell(l, p)];
    var n := v.at[Cell(l + 1, p / 64)];
    var slots := v.nodes[n].slots[p % 64 := 0];
    View(v.height, v.rnode, v.nodes[n := Node(Filled(slots), slots)] - {a}, v.at - {Cell(l, p)}, v.pos - {a})
  }

  lemma PrunePlaced(v: View, l: nat, p: nat)
    requires Inv(v) && Cell(l, p) in v.at && l < v.height
    ensures Slot(v, l + 1, p / 64, p % 64) == v.at[Cell(l, p)]
    ensures Cell(l + 1, p / 64) in v.at
    ensures Placed(Prune(v, l, p)) && Rooted(Prune(v, l, p))
  {
    assert Link(v, l, p);
    assert Placed(Prune(v, l, p));
  }

  lemma PruneSlots(v: View, l: nat, p: nat)
    requires Placed(v) && Counted(v) && Cell(l, p) in v.at && Cell(l + 1, p / 64) in v.at
    requires Filled(v.nodes[v.at[Cell(l, p)]].slots) == 0
    requires Placed(Prune(v, l, p))
    ensures Counted(Prune(v, l, p))
    ensures forall l': nat, p': nat, i: nat :: i < 64 ==>
              Slot(Prune(v, l, p), l', p', i) ==
              if l' == l + 1 && p' == p / 64 && i == p % 64 then 0 else Slot(v, l', p', i)
  {
    FilledZero(v.nodes[v.at[Cell(l, p)]].slots);
  }

  lemma PruneKeeps(v: View, l: nat, p: nat)
    requires Inv(v) && Cell(l, p) in v.at && l < v.height
    requires Filled(v.nodes[v.at[Cell(l, p)]].slots) == 0
    ensures Cell(l + 1, p / 64) in v.at
    ensures Slot(v, l + 1, p / 64, p % 64) == v.at[Cell(l, p)]
    ensures Inv(Prune(v, l, p)) && SameItems(v, Prune(v, l, p))
  {
    PrunePlaced(v, l, p);
    PruneSlots(v, l, p);
    assert l >= 1;
    PruneNodes(v, l, p);
    hide Filled, Counted, Linked, Rooted, Slot, Prune, Placed, NodeAt;
    Relink(v, Prune(v, l, p), l, p);
  }

  lemma PruneNodes(v: View, l: nat, p: nat)
    requires Placed(v) && Cell(l, p) in v.at && Cell(l + 1, p / 64) in v.at
    ensures Prune(v, l, p).height == v.height && NodeAt(Prune(v, l, p), l, p) == 0
    ensures forall l': nat, p': nat :: Cell(l', p') != Cell(l, p) ==>
              NodeAt(Prune(v, l, p), l', p') == NodeAt(v, l', p')
  {
  }

  /** radix_tree_shrink: the only child, in slot 0, becomes the root. */
  ghost function Lower(v: View): View
    requires Placed(v) && v.rnode in v.nodes && v.height >= 1
  {
    View(v.height - 1, v.nodes[v.rnode].slots[0], v.nodes - {v.rnode},
         v.at - {Cell(v.height, 0)}, v.pos - {v.rnode})
  }

  lemma LowerKeeps(v: View)
    requires Inv(v) && v.height >= 2 && v.rnode in v.nodes
    requires v.nodes[v.rnode].count == 1 && v.nodes[v.rnode].slots[0] != 0
    ensures Inv(Lower(v)) && SameItems(v, Lower(v))
  {
    var w := Lower(v);
    FilledOne(v.nodes[v.rnode].slots);
    hide Filled;
    assert Link(v, v.height - 1, 0);
    assert v.at[Cell(v.height, 0)] == v.rnode;
    assert Placed(w);
    forall l: nat, p: nat | Cell(l, p) in w.at ensures 1 <= l <= w.height && (l == w.height ==> p == 0) {
      assert Link(v, l, p);
    }
    assert Rooted(w);
    forall l: nat, p: nat ensures Link(w, l, p) {
      assert Link(v, l, p);
    }
  }

  /** A node just below the root fills one of the root's slots. */
  lemma OnlyRootAbove(v: View, p: nat)
    requires Inv(v) && v.height >= 1 && Cell(v.height - 1, p) in v.at
    ensures p < 64 && v.nodes[v.rnode].slots[p] != 0
  {
    assert Link(v, v.height - 1, p);
  }

  /** Freeing an empty root leaves no node behind. */
  lemma UprootKeeps(v: View)
    requires Inv(v) && v.rnode != 0 && Filled(v.nodes[v.rnode].slots) == 0
    ensures var w := View(0, 0, v.nodes - {v.rnode}, map[], map[]);
            w.nodes == map[] && Inv(w) && SameItems(v, w)
  {
    FilledZero(v.nodes[v.rnode].slots);
    forall c | c in v.at ensures c == Cell(v.height, 0) {
      if c.level < v.height {
        Ancestor(v, c.level, c.prefix, v.height - 1);
        OnlyRootAbove(v, Shr6(c.prefix, v.height - 1 - c.level));
      }
    }
    var w := View(0, 0, v.nodes - {v.rnode}, map[], map[]);
    assert w.nodes.Keys == {} && w.nodes == map[];
    assert forall l: nat, p: nat :: Link(w, l, p);
    forall k: nat ensures Get(v, k) == Get(w, k) {
      if Cell(1, k / 64) in v.at { assert Cell(1, k / 64) == Cell(v.height, 0); }
    }
  }

  // ---------------------------------------------------------------- the finite map

  /** The stored items as a finite map. */
  ghost function Items(v: View): (m: map<nat, Ptr>)
    requires Inv(v)
    ensures forall k: nat :: (k in m <==> Get(v, k) != 0) && (k in m ==> m[k] == Get(v, k))
  {
    assert forall k: nat :: Get(v, k) != 0 ==> k < Pow64(v.height) by {
      forall k: nat | Get(v, k) != 0 ensures k < Pow64(v.height) { KeyBelow(v, k); }
    }
    map k: nat | k < Pow64(v.height) && Get(v, k) != 0 :: Get(v, k)
  }

  // ---------------------------------------------------------------- the canonical form

  /** Some stored key, or the key `extra`, needs the current height. */
  ghost predicate SnugWith(v: View, extra: nat)
    requires Placed(v)
  {
    v.height >= 2 ==> extra >= Pow64(v.height - 1) || exists k: nat :: Get(v, k) != 0 && k >= Pow64(v.height - 1)
  }

  lemma SnugSame(v: View, w: View, extra: nat)
    requires Placed(v) && Placed(w) && SameItems(v, w) && v.height == w.height && SnugWith(v, extra)
    ensures SnugWith(w, extra)
  {
    if v.height >= 2 && extra < Pow64(v.height - 1) {
      var k: nat :| Get(v, k) != 0 && k >= Pow64(v.height - 1);
      assert Get(w, k) != 0;
    }
  }

  /** No empty node, no node without a key, and no more levels than the largest key needs. */
  ghost predicate Canonical(v: View) {
    && Inv(v)
    && FullBut(v, 0)
    && (v.rnode == 0 ==> v.height == 0)
    && SnugWith(v, 0)
  }

  lemma FilledSlot(s: seq<Ptr>) returns (i: nat)
    requires Filled(s) > 0
    ensures i < |s| && s[i] != 0
  {
    FilledZero(s);
    i :| 0 <= i < |s| && s[i] != 0;
  }

  /** In a tree without empty nodes every node leads to a stored key of its range. */
  lemma {:induction false} HasKey(v: View, l: nat, p: nat) returns (k: nat)
    requires Inv(v) && FullBut(v, 0) && Cell(l, p) in v.at
    ensures Get(v, k) != 0 && Shr6(k, l) == p
    decreases l
  {
    var i := FilledSlot(v.nodes[v.at[Cell(l, p)]].slots);
    if l == 1 {
      k := p * 64 + i;
      assert k / 64 == p && k % 64 == i;
      assert Shr6(k, 1) == Shr6(k / 64, 0) == p;
    } else {
      assert Link(v, l - 1, p * 64 + i);
      assert (p * 64 + i) / 64 == p && (p * 64 + i) % 64 == i;
      k := HasKey(v, l - 1, p * 64 + i);
      Shr6Step(k, l - 1);
    }
  }

  /** The cells of a canonical tree are determined by its keys. */
  lemma CanonicalCells(v: View, w: View, l: nat, p: nat)
    requires Canonical(v) && Canonical(w) && SameItems(v, w) && v.height == w.height
    requires Cell(l, p) in v.at
    ensures Cell(l, p) in w.at
  {
    var k := HasKey(v, l, p);
    KeyPath(w, k, l);
  }

  /** The height of a canonical tree is determined by its keys. */
  lemma CanonicalHeight(v: View, w: View)
    requires Canonical(v) && Canonical(w) && SameItems(v, w)
    ensures v.height <= w.height
  {
    hide Linked, Counted, Filled, FullBut, Get, Pow64;
    if v.height >= 2 {
      var k: nat :| Get(v, k) != 0 && k >= Pow64(v.height - 1);
      KeyBelow(w, k);
      if w.height < v.height { Pow64Monotone(w.height, v.height - 1); }
    } else if v.height == 1 {
      var k := HasKey(v, 1, 0);
      KeyBelow(w, k);
    }
  }

  /** What a reader of memory sees: the tree below address a, without the addresses. */
  datatype Shape = Nil | Leaf(count: nat, items: seq<Ptr>) | Branch(count: nat, kids: seq<Shape>)

  ghost function Unfold(nodes: map<Ptr, Node>, level: nat, a: Ptr): (s: Shape) {
    if a !in nodes then Nil
    else if level <= 1 then Leaf(nodes[a].count, nodes[a].slots)
    else Branch(nodes[a].count, seq(|nodes[a].slots|, i requires 0 <= i < |nodes[a].slots| =>
                                                      Unfold(nodes, level - 1, nodes[a].slots[i])))
  }

  lemma {:induction false} SameFilled(s: seq<Ptr>, t: seq<Ptr>)
    requires |s| == |t| && forall i :: 0 <= i < |s| ==> (s[i] == 0 <==> t[i] == 0)
    ensures Filled(s) == Filled(t)
  {
    if s != [] {
      SameFilled(s[1..], t[1..]);
    }
  }

  /** The items of two leaves in the same cell. */
  lemma SameLeaf(v: View, w: View, p: nat)
    requires Inv(v) && Inv(w) && SameItems(v, w) && Cell(1, p) in v.at && Cell(1, p) in w.at
    ensures v.nodes[v.at[Cell(1, p)]].slots == w.nodes[w.at[Cell(1, p)]].slots
  {
    var s, t := v.nodes[v.at[Cell(1, p)]].slots, w.nodes[w.at[Cell(1, p)]].slots;
    forall i | 0 <= i < 64 ensures s[i] == t[i] {
      assert (p * 64 + i) / 64 == p && (p * 64 + i) % 64 == i;
      assert Get(v, p * 64 + i) == Get(w, p * 64 + i);
    }
  }

  /** Slot i of a node points to the child in its cell. */
  lemma ChildSlot(v: View, l: nat, p: nat, i: nat)
    requires Inv(v) && 2 <= l <= v.height && Cell(l, p) in v.at && i < 64
    ensures v.nodes[v.at[Cell(l, p)]].slots[i] == NodeAt(v, l - 1, p * 64 + i)
    ensures NodeAt(v, l - 1, p * 64 + i) == 0 <==> Cell(l - 1, p * 64 + i) !in v.at
  {
    assert (p * 64 + i) / 64 == p && (p * 64 + i) % 64 == i;
    assert Link(v, l - 1, p * 64 + i);
  }

  lemma CanonicalInv(v: View)
    requires Canonical(v)
    ensures Inv(v) && Placed(v)
  {
  }

  lemma NodeFacts(v: View, l: nat, p: nat)
    requires Inv(v) && Cell(l, p) in v.at
    ensures v.at[Cell(l, p)] in v.nodes && |v.nodes[v.at[Cell(l, p)]].slots| == 64
    ensures v.nodes[v.at[Cell(l, p)]].count == Filled(v.nodes[v.at[Cell(l, p)]].slots) && 0 !in v.nodes
  {
  }

  lemma RootNode(v: View)
    requires Inv(v)
    ensures v.rnode == NodeAt(v, v.height, 0) && 0 !in v.nodes && (v.height == 0 ==> v.rnode == 0)
  {
  }

  lemma {:induction false} SameShape(v: View, w: View, l: nat, p: nat)
    requires Canonical(v) && Canonical(w) && SameItems(v, w) && v.height == w.height && v.at.Keys == w.at.Keys
    requires 1 <= l <= v.height
    ensures Unfold(v.nodes, l, NodeAt(v, l, p)) == Unfold(w.nodes, l, NodeAt(w, l, p))
    decreases l
  {
    hide Canonical, Inv, Filled;
    CanonicalInv(v);
    CanonicalInv(w);
    if Cell(l, p) in v.at {
      NodeFacts(v, l, p);
      NodeFacts(w, l, p);
      var s, t := v.nodes[v.at[Cell(l, p)]].slots, w.nodes[w.at[Cell(l, p)]].slots;
      if l == 1 {
        SameLeaf(v, w, p);
      } else {
        forall i | 0 <= i < 64
          ensures (s[i] == 0 <==> t[i] == 0) && Unfold(v.nodes, l - 1, s[i]) == Unfold(w.nodes, l - 1, t[i])
        {
          ChildSlot(v, l, p, i);
          ChildSlot(w, l, p, i);
          SameShape(v, w, l - 1, p * 64 + i);
        }
        SameFilled(s, t);
        SameBranch(v.nodes, w.nodes, l, v.at[Cell(l, p)], w.at[Cell(l, p)]);
      }
    }
  }

  lemma SameBranch(m: map<Ptr, Node>, n: map<Ptr, Node>, l: nat, a: Ptr, b: Ptr)
    requires l >= 2 && a in m && b in n && m[a].count == n[b].count && |m[a].slots| == |n[b].slots|
    requires forall i :: 0 <= i < |m[a].slots| ==> Unfold(m, l - 1, m[a].slots[i]) == Unfold(n, l - 1, n[b].slots[i])
    ensures Unfold(m, l, a) == Unfold(n, l, b)
  {
  }

  lemma ItemsSame(v: View, w: View)
    requires Inv(v) && Inv(w) && Items(v) == Items(w)
    ensures SameItems(v, w)
  {
    hide Placed, Counted, Rooted, Linked, Get;
    forall k: nat ensures Get(v, k) == Get(w, k) { assert k in Items(v) <==> k in Items(w); }
  }

  /** Two canonical trees with the same items are the same tree, however they were built. */
  lemma CanonicalUnique(v: View, w: View)
    requires Canonical(v) && Canonical(w) && Items(v) == Items(w)
    ensures v.height == w.height
    ensures Unfold(v.nodes, v.height, v.rnode) == Unfold(w.nodes, w.height, w.rnode)
  {
    hide Canonical, Inv, Get, Items;
    CanonicalInv(v);
    CanonicalInv(w);
    assert SameItems(v, w) by { ItemsSame(v, w); }
    CanonicalHeight(v, w);
    CanonicalHeight(w, v);
    RootNode(v);
    RootNode(w);
    if v.height >= 1 {
      forall c ensures c in v.at <==> c in w.at {
        if c in v.at { CanonicalCells(v, w, c.level, c.prefix); }
        if c in w.at { CanonicalCells(w, v, c.level, c.prefix); }
      }
      assert v.at.Keys == w.at.Keys;
      SameShape(v, w, v.height, 0);
    }
  }
}
