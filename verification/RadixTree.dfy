/**
 The radix tree operations of kernel/lib/radix-tree.c, updating the tree in place.

 An allocation may fail at any time, unless there is plenty of memory.  The ghost result `failed` of an
 operation says that one failed in that call, and the ghost flag `starved` that one failed at some time.
 */
module RadixTree {
  import opened Arith
  import opened RadixView

  class Tree {
    /** Memory never runs out. */
    const plenty: bool
    var height: nat
    var rnode: Ptr
    var nodes: map<Ptr, Node>
    ghost var at: map<Cell, Ptr>
    ghost var pos: map<Ptr, Cell>
    ghost var starved: bool

    ghost function Value(): View
      reads this
    {
      View(height, rnode, nodes, at, pos)
    }

    ghost predicate Valid()
      reads this
    {
      Inv(Value()) && (!starved ==> Canonical(Value()))
    }

    ghost function Contents(): map<nat, Ptr>
      requires Valid()
      reads this
    {
      Items(Value())
    }

    constructor (plenty: bool)
      ensures Valid() && Contents() == map[] && !starved && this.plenty == plenty
    {
      this.plenty := plenty;
      height, rnode, nodes, at, pos, starved := 0, 0, map[], map[], map[], false;
      new;
      assert forall l: nat, p: nat :: Link(Value(), l, p);
    }

    /** kmalloc for a node: null, or an address that is not in use. */
    method NodeAlloc() returns (a: Ptr, ghost failed: bool)
      modifies this`starved
      ensures failed <==> a == 0
      ensures starved == (old(starved) || failed) && (failed ==> !plenty)
      ensures a != 0 ==> a !in nodes
    {
      failed := false;
      if !plenty {
        if * {
          starved := true;
          return 0, true;
        }
      }
      FreshExists(nodes.Keys);
      a :| a != 0 && a !in nodes;
    }

    /** One level more: a node whose only link, in slot 0, is the old root. */
    method PushRoot(node: Ptr)
      requires Inv(Value()) && rnode != 0 && height < MAX_HEIGHT && node != 0 && node !in nodes
      modifies this`height, this`rnode, this`nodes, this`at, this`pos
      ensures Inv(Value()) && SameItems(old(Value()), Value())
      ensures height == old(height) + 1 && rnode != 0
      ensures old(FullBut(Value(), 0)) ==> FullBut(Value(), 0)
    {
      hide Inv, SameItems;
      ghost var v := Value();
      InvParts(v);
      RaiseKeeps(v, node);
      RaiseFull(v, node);
      nodes := nodes[node := Node(1, EmptyNode().slots[0 := rnode])];
      at, pos := at[Cell(height + 1, 0) := node], pos[node := Cell(height + 1, 0)];
      rnode := node;
      height := height + 1;
      assert Value() == Raise(v, node);
    }

    /** The first loop of radix_tree_extend: the least height, from `start` on, that fits the index. */
    static method FittingHeight(index: nat, start: nat) returns (h: nat)
      requires 1 <= start <= MAX_HEIGHT && Pow64(start - 1) <= index < Pow64(MAX_HEIGHT)
      ensures start <= h <= MAX_HEIGHT && Pow64(h - 1) <= index < Pow64(h)
    {
      h := start;
      while index > Pow64(h) - 1
        invariant start <= h <= MAX_HEIGHT && index >= Pow64(h - 1)
        decreases MAX_HEIGHT - h
      {
        h := h + 1;
      }
    }

    /** radix_tree_extend: add levels until the height fits the index. */
    method Extend(index: nat) returns (r: int, ghost failed: bool)
      requires Inv(Value()) && height >= 1 && Pow64(height) <= index < Pow64(MAX_HEIGHT)
      requires !starved ==> FullBut(Value(), 0) && rnode != 0
      modifies this
      ensures Inv(Value()) && SameItems(old(Value()), Value())
      ensures starved == (old(starved) || failed) && (failed ==> !plenty)
      ensures r == if failed then -1 else 0
      ensures r == 0 ==> height >= 2 && Pow64(height - 1) <= index < Pow64(height)
      ensures !starved ==> FullBut(Value(), 0) && rnode != 0
    {
      hide Inv, Filled, Get, Pow64, FullBut;
      ghost var v0 := Value();
      InvParts(v0);
      var h := FittingHeight(index, height + 1);
      if rnode == 0 {
        Resize(v0, h);
        height := h;
        assert Value() == v0.(height := h);
      }
      failed := false;
      while height < h
        invariant height <= h && (rnode == 0 ==> height == h) && !failed
        invariant Inv(Value()) && Placed(Value()) && SameItems(v0, Value())
        invariant starved == old(starved)
        invariant !starved ==> FullBut(Value(), 0) && rnode != 0
      {
        var node;
        node, failed := NodeAlloc();
        if node == 0 { return -1, true; }
        PushRoot(node);
        InvParts(Value());
      }
      r := 0;
    }

    /** radix_tree_lookup */
    method Lookup(index: nat) returns (item: Ptr)
      requires Valid()
      ensures item == if index in Contents() then Contents()[index] else 0
    {
      ghost var v := Value();
      item := 0;
      var node := rnode;
      var h := height;
      DescendStart(v, index);
      if h == 0 || node == 0 || index > Pow64(h) - 1 { return 0; }
      while h > 0
        invariant 1 <= h <= height
        invariant node == NodeAt(v, h, Shr6(index, h)) != 0
        decreases h
      {
        var offset := Shr6(index, h - 1) % 64;
        Descend(v, h, node, index);
        if nodes[node].slots[offset] == 0 { return 0; }
        if h == 1 {
          return nodes[node].slots[offset];
        }
        node := nodes[node].slots[offset];
        h := h - 1;
      }
    }

    /** Number of six-bit digits of the index, at least one. */
    static method DigitCount(index: nat) returns (h: nat)
      requires index < Pow64(MAX_HEIGHT)
      ensures 1 <= h <= MAX_HEIGHT && index < Pow64(h)
      ensures h >= 2 ==> index >= Pow64(h - 1)
    {
      var tmp := index;
      h := 0;
      while tmp > 0
        invariant tmp == Shr6(index, h)
        invariant h <= MAX_HEIGHT && (h > 0 ==> Shr6(index, h - 1) > 0)
        decreases tmp
      {
        Shr6Step(index, h);
        Shr6Zero(index, MAX_HEIGHT);
        tmp := tmp / 64;
        h := h + 1;
      }
      Shr6Zero(index, h);
      if h == 0 { h := 1; } else { Shr6Zero(index, h - 1); }
    }

    /** Allocate the first node of an empty tree. */
    method PlantRoot() returns (ghost failed: bool)
      requires Inv(Value()) && rnode == 0 && height >= 1
      modifies this
      ensures Inv(Value()) && SameItems(old(Value()), Value()) && height == old(height)
      ensures starved == (old(starved) || failed) && (failed ==> !plenty)
      ensures failed <==> rnode == 0
      ensures FullBut(Value(), rnode)
    {
      hide Inv, SameItems, Filled;
      ghost var v := Value();
      InvParts(v);
      SameRefl(v);
      var a;
      a, failed := NodeAlloc();
      if a == 0 { return; }
      PlantKeeps(v, a);
      nodes := nodes[a := EmptyNode()];
      rnode := a;
      at, pos := map[Cell(height, 0) := a], map[a := Cell(height, 0)];
      assert Value() == Plant(v, a);
    }

    /** Raise the height until it fits the index. */
    method Grow(index: nat) returns (ok: bool, ghost failed: bool)
      requires Valid() && index < Pow64(MAX_HEIGHT)
      modifies this
      ensures Inv(Value()) && SameItems(old(Value()), Value())
      ensures starved == (old(starved) || failed) && (failed ==> !plenty)
      ensures ok == !failed
      ensures ok ==> height >= 1 && index < Pow64(height)
      ensures !starved ==> FullBut(Value(), 0) && SnugWith(Value(), index)
    {
      hide Linked, Counted, Filled, Get, Pow64;
      ghost var v0 := Value();
      if rnode == 0 && height == 0 {
        var h := DigitCount(index);
        Resize(v0, h);
        height := h;
        assert Value() == v0.(height := h);
      }
      if index > Pow64(height) - 1 {
        var e;
        e, failed := Extend(index);
        return e == 0, failed;
      }
      return true, false;
    }

    /** Make room for the index: the preamble of radix_tree_insert, up to a root that covers it. */
    method Prepare(index: nat) returns (ok: bool, ghost failed: bool)
      requires Valid() && index < Pow64(MAX_HEIGHT)
      modifies this
      ensures Inv(Value()) && SameItems(old(Value()), Value())
      ensures starved == (old(starved) || failed) && (failed ==> !plenty)
      ensures ok == !failed
      ensures ok ==> rnode != 0 && index < Pow64(height)
      ensures !starved ==> FullBut(Value(), rnode) && SnugWith(Value(), index)
    {
      var fits;
      fits, failed := Grow(index);
      if !fits { return false, failed; }
      if rnode == 0 {
        ghost var v := Value();
        failed := PlantRoot();
        if !starved { SnugSame(v, Value(), index); }
        return rnode != 0, failed;
      }
      return true, false;
    }

    /** Link the zeroed node `slot` into its parent `node` as the child in cell (l, p). */
    method AddChild(node: Ptr, l: nat, p: nat, slot: Ptr)
      requires Inv(Value()) && l >= 1 && node == NodeAt(Value(), l + 1, p / 64) != 0
      requires nodes[node].slots[p % 64] == 0 && slot != 0 && slot !in nodes
      modifies this`nodes, this`at, this`pos
      ensures Value() == Sprout(old(Value()), l, p, slot)
    {
      nodes := nodes[slot := EmptyNode()];
      nodes := nodes[node := Node(nodes[node].count + 1, nodes[node].slots[p % 64 := slot])];
      at, pos := at[Cell(l, p) := slot], pos[slot := Cell(l, p)];
    }

    /** Put an item, or null, into the leaf slot of the index. */
    method SetSlot(node: Ptr, index: nat, count: nat, item: Ptr)
      requires Inv(Value()) && node == NodeAt(Value(), 1, index / 64) != 0
      requires count == Filled(nodes[node].slots[index % 64 := item])
      modifies this`nodes
      ensures Inv(Value()) && nodes.Keys == old(nodes.Keys)
      ensures forall k: nat :: Get(Value(), k) == if k == index then item else Get(old(Value()), k)
      ensures node in nodes && nodes[node].count == count
      ensures FullBut(old(Value()), node) ==> FullBut(Value(), node)
    {
      ghost var v := Value();
      StoreKeeps(v, index, item);
      nodes := nodes[node := Node(count, nodes[node].slots[index % 64 := item])];
      assert Value() == Store(v, index / 64, index % 64, item);
    }

    /** The last step of the descent: fill the leaf slot, unless it is taken. */
    method PutItem(node: Ptr, index: nat, item: Ptr) returns (r: int)
      requires Inv(Value()) && rnode != 0 && node == NodeAt(Value(), 1, index / 64) != 0 && item != 0
      requires !starved ==> FullBut(Value(), node) && SnugWith(Value(), index)
      modifies this`nodes
      ensures Inv(Value()) && (!starved ==> Canonical(Value()))
      ensures r == 0 || r == -1
      ensures r == 0 ==> Get(old(Value()), index) == 0
      ensures r == 0 ==> forall k: nat :: Get(Value(), k) == if k == index then item else Get(old(Value()), k)
      ensures r == -1 ==> nodes == old(nodes) && Get(Value(), index) != 0
    {
      hide Inv, Filled, FullBut, SnugWith, Canonical;
      ghost var v := Value();
      LeafFacts(v, index, node, item);
      if nodes[node].slots[index % 64] != 0 {
        if !starved { NowFull(v, v, index, node); }
        return -1;
      }
      SetSlot(node, index, nodes[node].count + 1, item);
      if !starved { NowFull(v, Value(), index, node); }
      return 0;
    }

    /** An inner step of the descent: the child on the path of the index, created if missing. */
    method StepDown(node: Ptr, h: nat, index: nat) returns (child: Ptr, ghost failed: bool)
      requires Inv(Value()) && h >= 2 && node == NodeAt(Value(), h, Shr6(index, h)) != 0
      requires !starved ==> FullBut(Value(), node)
      modifies this
      ensures Inv(Value()) && SameItems(old(Value()), Value()) && height == old(height) && rnode == old(rnode)
      ensures starved == (old(starved) || failed) && (failed ==> !plenty)
      ensures failed <==> child == 0
      ensures child != 0 ==> child == NodeAt(Value(), h - 1, Shr6(index, h - 1))
      ensures !starved ==> FullBut(Value(), child)
    {
      hide Counted, Linked, Rooted, Shr6, Get;
      ghost var v := Value();
      var offset := Shr6(index, h - 1) % 64;
      Shr6Step(index, h - 1);
      Descend(v, h, node, index);
      failed := false;
      if nodes[node].slots[offset] == 0 {
        var slot;
        slot, failed := NodeAlloc();
        if slot == 0 { return 0, true; }
        AddChild(node, h - 1, Shr6(index, h - 1), slot);
        SproutKeeps(v, h - 1, Shr6(index, h - 1), slot);
      } else {
        FilledZero(nodes[node].slots);
      }
      child := nodes[node].slots[offset];
    }

    /** The descent of radix_tree_insert. */
    method Place(index: nat, item: Ptr) returns (r: int, ghost failed: bool)
      requires Inv(Value()) && rnode != 0 && index < Pow64(height) && item != 0
      requires !starved ==> FullBut(Value(), rnode) && SnugWith(Value(), index)
      modifies this
      ensures Inv(Value()) && (!starved ==> Canonical(Value()))
      ensures starved == (old(starved) || failed) && (failed ==> !plenty)
      ensures r == if Get(old(Value()), index) != 0 || failed then -1 else 0
      ensures r == 0 ==> forall k: nat :: Get(Value(), k) == if k == index then item else Get(old(Value()), k)
      ensures r == -1 ==> SameItems(old(Value()), Value())
    {
      hide Inv, SnugWith, FullBut, Canonical, Get, Shr6;
      r, failed := -1, false;
      ghost var v0 := Value();
      var node := rnode;
      var h := height;
      InvParts(v0);
      DescendStart(v0, index);
      while h > 0
        invariant 1 <= h <= height && rnode != 0 && !failed
        invariant Inv(Value()) && Placed(Value()) && SameItems(v0, Value()) && height == v0.height
        invariant starved == old(starved)
        invariant node == NodeAt(Value(), h, Shr6(index, h)) != 0
        invariant !starved ==> FullBut(Value(), node)
        decreases h
      {
        if h == 1 {
          if !starved { SnugSame(v0, Value(), index); }
          ShrOne(index);
          r := PutItem(node, index, item);
          return;
        }
        node, failed := StepDown(node, h, index);
        InvParts(Value());
        if node == 0 { return -1, true; }
        h := h - 1;
      }
    }

    /** radix_tree_insert */
    method Insert(index: nat, item: Ptr) returns (r: int, ghost failed: bool)
      requires Valid() && index < Pow64(MAX_HEIGHT) && item != 0
      modifies this
      ensures Valid() && starved == (old(starved) || failed) && (failed ==> !plenty)
      ensures r == if index in old(Contents()) || failed then -1 else 0
      ensures Contents() == if r == 0 then old(Contents())[index := item] else old(Contents())
    {
      hide Placed, Counted, Rooted, Linked, Get;
      var ok;
      ok, failed := Prepare(index);
      if !ok { return -1, failed; }
      r, failed := Place(index, item);
    }

    /** The child in slot 0 replaces the root, which is freed. */
    method DropRoot()
      requires Inv(Value()) && rnode != 0
      modifies this`height, this`rnode, this`nodes, this`at, this`pos
      ensures Value() == Lower(old(Value()))
    {
      var node := rnode;
      rnode := nodes[node].slots[0];
      at, pos := at - {Cell(height, 0)}, pos - {node};
      height := height - 1;
      nodes := nodes - {node};
    }

    /** radix_tree_shrink: drop the levels that only pass slot 0 on. */
    method Shrink()
      requires Inv(Value())
      requires !starved ==> FullBut(Value(), 0) && (rnode == 0 ==> height == 0)
      modifies this`height, this`rnode, this`nodes, this`at, this`pos
      ensures Valid() && Same(old(Value()), Value())
    {
      hide Inv, SameItems, FullBut, SnugWith, Lower;
      ghost var v0 := Value();
      SameRefl(v0);
      while height > 0
        invariant Same(v0, Value())
        invariant !starved ==> FullBut(Value(), 0) && (rnode == 0 ==> height == 0)
        decreases height
      {
        ghost var v := Value();
        InvParts(v);
        var node := rnode;
        if node == 0 {
          Resize(v, 0);
          height := 0;
          SameTrans(v0, v, Value());
          break;
        }
        if nodes[node].count != 1 || nodes[node].slots[0] == 0 || height <= 1 {
          if !starved { SnugRoot(v); }
          assert !starved ==> SnugWith(Value(), 0);
          break;
        }
        LowerKeeps(v);
        LowerFull(v);
        DropRoot();
        SameTrans(v0, v, Value());
      }
      InvParts(Value());
      if height < 2 { SnugLow(Value()); }
    }

    /** Free an emptied node and clear the slot of its parent. */
    method FreeChild(node: Ptr, parent: Ptr, offset: nat, ghost l: nat, ghost p: nat)
      requires Inv(Value()) && node == NodeAt(Value(), l, p) != 0 && l < height && nodes[node].count == 0
      requires parent == NodeAt(Value(), l + 1, p / 64) != 0 && offset == p % 64
      modifies this`nodes, this`at, this`pos
      ensures at == old(at) - {Cell(l, p)}
      ensures Same(old(Value()), Value())
      ensures FullBut(old(Value()), node) ==> FullBut(Value(), parent)
    {
      hide Inv, SameItems, Filled;
      ghost var v := Value();
      ChildFacts(v, l, p, node, parent);
      PruneKeeps(v, l, p);
      nodes := nodes[parent := Node(nodes[parent].count - 1, nodes[parent].slots[offset := 0])];
      nodes := nodes - {node};
      at, pos := at - {Cell(l, p)}, pos - {node};
      assert Value() == Prune(v, l, p);
    }

    /** Free an emptied root. */
    method FreeRoot()
      requires Inv(Value()) && rnode != 0 && nodes[rnode].count == 0
      modifies this`height, this`rnode, this`nodes, this`at, this`pos
      ensures Same(old(Value()), Value()) && FullBut(Value(), 0)
      ensures nodes == map[] && rnode == 0 && height == 0
    {
      UprootKeeps(Value());
      nodes := nodes - {rnode};
      rnode, height := 0, 0;
      at, pos := map[], map[];
      assert Value() == View(0, 0, nodes, map[], map[]);
    }

    /** Free the emptied node at depth `top` of the path, clearing the slot of its parent. */
    method FreeOnPath(path: seq<Ptr>, offsets: seq<nat>, top: nat, ghost index: nat)
      requires Inv(Value()) && top >= 2 && OnPath(Value(), path, offsets, top, index)
      requires path[top - 1] in nodes && nodes[path[top - 1]].count == 0
      modifies this`nodes, this`at, this`pos
      ensures Same(old(Value()), Value())
      ensures OnPath(Value(), path, offsets, top - 1, index)
      ensures FullBut(old(Value()), path[top - 1]) ==> FullBut(Value(), path[top - 2])
    {
      hide Inv, SameItems, FullBut, Shr6;
      ghost var v := Value();
      ghost var l := height - top + 1;
      Shr6Step(index, l);
      assert Stop(v, path, offsets, top - 1, index) && Stop(v, path, offsets, top - 2, index);
      FreeChild(path[top - 1], path[top - 2], offsets[top - 2], l, Shr6(index, l));
      PathCut(v, Value(), path, offsets, top, index);
    }

    /** The unwinding loop of radix_tree_delete: free emptied nodes from the leaf upwards. */
    method Unwind(stack: seq<Ptr>, offsets: seq<nat>, ghost index: nat)
      requires Inv(Value()) && 1 <= height <= |stack| && OnPath(Value(), stack, offsets, height, index)
      requires !starved ==> FullBut(Value(), stack[height - 1])
      modifies this`height, this`rnode, this`nodes, this`at, this`pos
      ensures Same(old(Value()), Value())
      ensures !starved ==> FullBut(Value(), 0) && (rnode == 0 ==> height == 0)
    {
      hide Inv, SameItems, OnPath, FullBut;
      ghost var v0 := Value();
      var top: nat := height;
      SameRefl(v0);
      while top > 0
        invariant Same(v0, Value())
        invariant top > 0 ==> OnPath(Value(), stack, offsets, top, index)
        invariant top <= |stack|
        invariant top > 0 && !starved ==> FullBut(Value(), stack[top - 1])
        invariant top == 0 ==> FullBut(Value(), 0) && rnode == 0 && height == 0
        decreases top
      {
        ghost var v := Value();
        PathTop(v, stack, offsets, top, index);
        var node := stack[top - 1];
        if nodes[node].count > 0 { break; }
        if top > 1 {
          FreeOnPath(stack, offsets, top, index);
          top := top - 1;
        } else {
          FreeRoot();
          top := top - 1;
        }
        SameTrans(v0, v, Value());
      }
    }

    /** Clear the leaf slot at the end of the path, free what became empty and drop spare levels. */
    method Remove(stack: seq<Ptr>, offsets: seq<nat>, node: Ptr, index: nat)
      requires Valid() && 1 <= height <= |stack| && OnPath(Value(), stack, offsets, height, index)
      requires node == stack[height - 1] && Get(Value(), index) != 0
      modifies this`height, this`rnode, this`nodes, this`at, this`pos
      ensures Valid()
      ensures forall k: nat :: Get(Value(), k) == if k == index then 0 else Get(old(Value()), k)
    {
      hide Inv, OnPath, Get, Canonical, FullBut, Filled, NodeAt;
      ghost var v := Value();
      PathLeaf(v, stack, offsets, index);
      SetSlot(node, index, nodes[node].count - 1, 0);
      PathStays(v, Value(), stack, offsets, height, index);
      Unwind(stack, offsets, index);
      Shrink();
    }

    /** radix_tree_delete */
    method Delete(index: nat) returns (item: Ptr)
      requires Valid()
      modifies this`height, this`rnode, this`nodes, this`at, this`pos
      ensures Valid()
      ensures item == if index in old(Contents()) then old(Contents())[index] else 0
      ensures Contents() == old(Contents()) - {index}
    {
      hide Inv, Shr6, Get, OnPath, Canonical, NodeAt, Pow64, Items;
      var stack := new Ptr[16];
      var offsets := new nat[16];
      var top := 0;
      item := 0;
      ghost var v := Value();
      var node := rnode;
      var h := height;
      InvParts(v);
      DescendStart(v, index);
      NoItem(v, index);
      PathStart(v, stack[..], offsets[..], index);
      if h == 0 || node == 0 || index > Pow64(h) - 1 { return 0; }
      while h > 0
        invariant Value() == v && 1 <= h <= height && top == height - h
        invariant node == NodeAt(v, h, Shr6(index, h)) != 0
        invariant OnPath(v, stack[..], offsets[..], top, index)
        decreases h
      {
        var offset := Shr6(index, h - 1) % 64;
        PathPush(v, stack[..], offsets[..], top, index, node);
        stack[top] := node;
        offsets[top] := offset;
        top := top + 1;
        Descend(v, h, node, index);
        if nodes[node].slots[offset] == 0 { return 0; }
        if h == 1 {
          item := nodes[node].slots[offset];
          Remove(stack[..], offsets[..], node, index);
          OneItem(v, Value(), index);
          return;
        }
        node := nodes[node].slots[offset];
        h := h - 1;
      }
    }
  }

  /** The path recorded by the descent of radix_tree_delete: one node and one offset per level. */
  ghost predicate OnPath(v: View, path: seq<Ptr>, offsets: seq<nat>, top: nat, index: nat) {
    && top <= v.height && top <= |path| == |offsets|
    && forall j: nat :: j < top ==> Stop(v, path, offsets, j, index)
  }

  /** Entry j of the path is the node j levels below the root, and the slot that leads on. */
  ghost predicate Stop(v: View, path: seq<Ptr>, offsets: seq<nat>, j: nat, index: nat)
    requires j < v.height && j < |path| == |offsets|
  {
    && path[j] == NodeAt(v, v.height - j, Shr6(index, v.height - j)) != 0
    && offsets[j] == Shr6(index, v.height - j - 1) % 64
  }

  lemma PathStart(v: View, path: seq<Ptr>, offsets: seq<nat>, index: nat)
    requires |path| == |offsets|
    ensures OnPath(v, path, offsets, 0, index)
  {
  }

  lemma NoItem(v: View, index: nat)
    requires Inv(v)
    ensures Placed(v) && (index in Items(v) <==> Get(v, index) != 0)
    ensures index in Items(v) ==> Items(v)[index] == Get(v, index)
    ensures index !in Items(v) ==> Items(v) - {index} == Items(v)
  {
  }

  lemma OneItem(v: View, w: View, index: nat)
    requires Inv(v) && Inv(w) && forall k: nat :: Get(w, k) == if k == index then 0 else Get(v, k)
    ensures Items(w) == Items(v) - {index}
  {
    hide Get, Counted, Linked, Rooted, Placed;
  }

  lemma PathPush(v: View, path: seq<Ptr>, offsets: seq<nat>, top: nat, index: nat, node: Ptr)
    requires OnPath(v, path, offsets, top, index) && top < v.height && top < |path|
    requires node == NodeAt(v, v.height - top, Shr6(index, v.height - top)) != 0
    ensures OnPath(v, path[top := node], offsets[top := Shr6(index, v.height - top - 1) % 64], top + 1, index)
  {
    hide NodeAt, Shr6;
    var path', offsets' := path[top := node], offsets[top := Shr6(index, v.height - top - 1) % 64];
    forall j: nat | j < top + 1 ensures Stop(v, path', offsets', j, index) {
      if j < top { assert Stop(v, path, offsets, j, index); }
    }
  }

  /** A change that moves no node keeps the path. */
  lemma PathStays(v: View, w: View, path: seq<Ptr>, offsets: seq<nat>, top: nat, index: nat)
    requires OnPath(v, path, offsets, top, index) && w.height == v.height && w.at == v.at
    ensures OnPath(w, path, offsets, top, index)
  {
    hide Shr6;
    forall j: nat | j < top ensures Stop(w, path, offsets, j, index) { assert Stop(v, path, offsets, j, index); }
  }

  /** Taking out the node at the end of a path leaves the path to its parent. */
  lemma PathCut(v: View, w: View, path: seq<Ptr>, offsets: seq<nat>, top: nat, index: nat)
    requires top > 0 && OnPath(v, path, offsets, top, index) && w.height == v.height
    requires w.at == v.at - {Cell(v.height - top + 1, Shr6(index, v.height - top + 1))}
    ensures OnPath(w, path, offsets, top - 1, index)
  {
    hide Shr6;
    forall j: nat | j < top - 1 ensures Stop(w, path, offsets, j, index) { assert Stop(v, path, offsets, j, index); }
  }

  /** The end of a full path is the leaf of the index. */
  lemma PathLeaf(v: View, path: seq<Ptr>, offsets: seq<nat>, index: nat)
    requires Inv(v) && 1 <= v.height <= |path| && OnPath(v, path, offsets, v.height, index)
    ensures Placed(v) && path[v.height - 1] == NodeAt(v, 1, index / 64) != 0
    ensures path[v.height - 1] in v.nodes && |v.nodes[path[v.height - 1]].slots| == 64
    ensures var n := v.nodes[path[v.height - 1]];
      Get(v, index) != 0 ==> n.count > 0 && n.count - 1 == Filled(n.slots[index % 64 := 0])
    ensures Canonical(v) ==> FullBut(v, path[v.height - 1])
  {
    assert Stop(v, path, offsets, v.height - 1, index);
    ShrOne(index);
    hide Shr6;
    FilledUpdate(v.nodes[path[v.height - 1]].slots, index % 64, 0);
  }

  lemma InvParts(v: View)
    requires Inv(v)
    ensures Placed(v) && v.height <= MAX_HEIGHT && 0 !in v.nodes && (v.rnode == 0 ==> v.nodes == map[])
    ensures v.rnode != 0 ==> v.height >= 1 && v.rnode in v.nodes && |v.nodes[v.rnode].slots| == 64
  {
    if v.rnode == 0 { NoNodes(v); }
  }

  /** The leaf of an index, and what filling its slot does to the count. */
  lemma LeafFacts(v: View, index: nat, node: Ptr, item: Ptr)
    requires Inv(v) && node == NodeAt(v, 1, index / 64) != 0
    ensures Placed(v) && node in v.nodes && |v.nodes[node].slots| == 64
    ensures v.nodes[node].slots[index % 64] == Get(v, index)
    ensures Get(v, index) == 0 && item != 0 ==>
              v.nodes[node].count + 1 == Filled(v.nodes[node].slots[index % 64 := item])
  {
    FilledUpdate(v.nodes[node].slots, index % 64, item);
  }

  /** A node without children and its parent. */
  lemma ChildFacts(v: View, l: nat, p: nat, node: Ptr, parent: Ptr)
    requires Inv(v) && node == NodeAt(v, l, p) != 0 && l < v.height && parent == NodeAt(v, l + 1, p / 64) != 0
    ensures Placed(v) && node in v.nodes && parent in v.nodes && node != parent && |v.nodes[parent].slots| == 64
    ensures Cell(l, p) in v.at && v.at[Cell(l, p)] == node && v.nodes[node].count == Filled(v.nodes[node].slots)
    ensures Cell(l + 1, p / 64) in v.at && v.at[Cell(l + 1, p / 64)] == parent
    ensures v.nodes[parent].count > 0
    ensures v.nodes[parent].count - 1 == Filled(v.nodes[parent].slots[p % 64 := 0])
  {
    assert Link(v, l, p);
    FilledUpdate(v.nodes[parent].slots, p % 64, 0);
    hide Filled;
  }

  lemma RaiseFull(v: View, a: Ptr)
    requires v.rnode != 0
    ensures FullBut(v, 0) ==> FullBut(Raise(v, a), 0)
  {
    EmptyNodeFilled();
    FilledUpdate(EmptyNode().slots, 0, v.rnode);
    hide Filled;
  }

  lemma LowerFull(v: View)
    requires Placed(v) && v.rnode in v.nodes && v.height >= 1
    ensures Lower(v).height == v.height - 1 && Lower(v).rnode == v.nodes[v.rnode].slots[0]
    ensures FullBut(v, 0) ==> FullBut(Lower(v), 0)
  {
  }

  lemma ShrOne(k: nat)
    ensures Shr6(k, 1) == k / 64
  {
  }

  lemma SnugLow(v: View)
    requires Placed(v) && v.height < 2
    ensures SnugWith(v, 0)
  {
  }

  lemma PathTop(v: View, path: seq<Ptr>, offsets: seq<nat>, top: nat, index: nat)
    requires Inv(v) && top > 0 && OnPath(v, path, offsets, top, index)
    ensures top <= |path| && path[top - 1] in v.nodes && v.rnode != 0 && (top == 1 ==> path[0] == v.rnode)
    ensures v.nodes[path[top - 1]].count > 0 && FullBut(v, path[top - 1]) ==> FullBut(v, 0)
  {
    assert Stop(v, path, offsets, 0, index) && Stop(v, path, offsets, top - 1, index);
  }

  lemma NowFull(v: View, w: View, index: nat, node: Ptr)
    requires Inv(v) && Inv(w) && v.height == w.height && w.rnode != 0
    requires forall k: nat :: k != index ==> Get(v, k) == Get(w, k)
    requires SnugWith(v, index) && FullBut(w, node)
    requires node == NodeAt(w, 1, index / 64) != 0 && Get(w, index) != 0
    ensures Canonical(w)
  {
    FilledZero(w.nodes[node].slots);
    if v.height >= 2 && index < Pow64(v.height - 1) {
      var k: nat :| Get(v, k) != 0 && k >= Pow64(v.height - 1);
      assert Get(w, k) != 0;
    }
  }

  /** A full tree whose root has a link besides slot 0 needs all its levels. */
  lemma SnugRoot(v: View)
    requires Inv(v) && FullBut(v, 0) && v.rnode != 0
    requires v.nodes[v.rnode].count != 1 || v.nodes[v.rnode].slots[0] == 0 || v.height <= 1
    ensures SnugWith(v, 0)
  {
    if v.height >= 2 {
      var i := HighSlot(v.nodes[v.rnode].slots);
      assert Link(v, v.height - 1, i);
      var k := HasKey(v, v.height - 1, i);
      Shr6Zero(k, v.height - 1);
    }
  }

  lemma HighSlot(s: seq<Ptr>) returns (i: nat)
    requires |s| == 64 && Filled(s) > 0 && (Filled(s) != 1 || s[0] == 0)
    ensures 1 <= i < 64 && s[i] != 0
  {
    if s[0] == 0 {
      i := FilledSlot(s);
    } else {
      FilledOne(s);
      i :| 1 <= i < 64 && s[i] != 0;
    }
  }
}
