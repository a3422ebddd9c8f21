/** Whole runs of the radix tree: refinement of a finite map, and one tree per map. */
module RadixRuns {
  import opened Arith
  import opened RadixView
  import opened RadixTree

  datatype Op = Put(index: nat, item: Ptr) | Take(index: nat) | Find(index: nat)

  predicate Legal(op: Op) {
    op.Put? ==> op.index < Pow64(MAX_HEIGHT) && op.item != 0
  }

  /** The map after one operation; failed says that a node allocation failed in it. */
  function After(m: map<nat, Ptr>, op: Op, failed: bool): map<nat, Ptr> {
    match op
    case Put(i, x) => if i in m || failed then m else m[i := x]
    case Take(i) => m - {i}
    case Find(_) => m
  }

  /** Its return value: 0 or -1 from insert, an item or null from the others. */
  function Answer(m: map<nat, Ptr>, op: Op, failed: bool): int {
    match op
    case Put(i, x) => if i in m || failed then -1 else 0
    case Take(i) => if i in m then m[i] else 0
    case Find(i) => if i in m then m[i] else 0
  }

  /** The map after a whole run. */
  function Final(ops: seq<Op>, failed: seq<bool>): map<nat, Ptr>
    requires |ops| == |failed|
  {
    if ops == [] then map[] else
      var n := |ops| - 1;
      After(Final(ops[..n], failed[..n]), ops[n], failed[n])
  }

  function Answers(ops: seq<Op>, failed: seq<bool>): seq<int>
    requires |ops| == |failed|
  {
    if ops == [] then [] else
      var n := |ops| - 1;
      Answers(ops[..n], failed[..n]) + [Answer(Final(ops[..n], failed[..n]), ops[n], failed[n])]
  }

  lemma Snoc(ops: seq<Op>, i: nat, failed: seq<bool>, f: bool)
    requires |failed| == i < |ops|
    ensures Final(ops[..i + 1], failed + [f]) == After(Final(ops[..i], failed), ops[i], f)
    ensures Answers(ops[..i + 1], failed + [f]) ==
            Answers(ops[..i], failed) + [Answer(Final(ops[..i], failed), ops[i], f)]
  {
    assert ops[..i + 1][..i] == ops[..i] && (failed + [f])[..i] == failed;
  }

  /** Every run from the empty tree refines a finite map, whatever allocations fail: an insert is refused
      exactly when its index is taken or an allocation failed in that very call, and then changes nothing.
      With plenty of memory none fails. */
  method Replay(ops: seq<Op>, plenty: bool) returns (t: Tree, out: seq<int>, ghost failed: seq<bool>)
    requires forall op :: op in ops ==> Legal(op)
    ensures fresh(t) && t.Valid() && |failed| == |ops| && (t.starved <==> true in failed)
    ensures t.Contents() == Final(ops, failed) && out == Answers(ops, failed) && (plenty ==> true !in failed)
  {
    hide Inv, Canonical, Items, Final, Answers;
    t := new Tree(plenty);
    out, failed := [], [];
    assert Final(ops[..0], failed) == map[] && Answers(ops[..0], failed) == [] by { Nothing(); }
    for i := 0 to |ops|
      invariant fresh(t) && t.Valid() && |failed| == i && (t.starved <==> true in failed)
      invariant t.Contents() == Final(ops[..i], failed) && out == Answers(ops[..i], failed)
      invariant t.plenty == plenty && (plenty ==> true !in failed)
    {
      assert ops[i] in ops;
      var r: int;
      ghost var f := false;
      match ops[i] {
        case Put(k, x) => r, f := t.Insert(k, x);
        case Take(k) => r := t.Delete(k);
        case Find(k) => r := t.Lookup(k);
      }
      Snoc(ops, i, failed, f);
      out, failed := out + [r], failed + [f];
    }
    assert ops[..|ops|] == ops;
  }

  lemma Nothing()
    ensures Final([], []) == map[] && Answers([], []) == []
  {
  }

  /** Two runs that end in the same map without a failed allocation build the same tree, node for node. */
  method Converge(ops: seq<Op>, ops': seq<Op>, plenty: bool)
      returns (t: Tree, t': Tree, ghost failed: seq<bool>, ghost failed': seq<bool>)
    requires forall op :: op in ops ==> Legal(op)
    requires forall op :: op in ops' ==> Legal(op)
    ensures |failed| == |ops| && |failed'| == |ops'| && (plenty ==> true !in failed && true !in failed')
    ensures true !in failed && true !in failed' && Final(ops, failed) == Final(ops', failed') ==>
              t.height == t'.height && Unfold(t.nodes, t.height, t.rnode) == Unfold(t'.nodes, t'.height, t'.rnode)
  {
    var out, out';
    t, out, failed := Replay(ops, plenty);
    t', out', failed' := Replay(ops', plenty);
    if true !in failed && true !in failed' && Final(ops, failed) == Final(ops', failed') {
      CanonicalUnique(t.Value(), t'.Value());
    }
  }
}
