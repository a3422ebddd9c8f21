/**
 Directory trees and path names of kernel/fs/vfs.c, as values: dentries with parent pointers, the list of
 hashed dentries newest first, path text and its components, and what walking a path does.
 */
module PathSpec {
  type Name = seq<bv8>

  const SLASH: bv8 := 0x2F
  const DOT: bv8 := 0x2E

  datatype Kind = Negative | Directory | Other

  datatype Dentry = Dentry(parent: nat, name: Name, hash: nat, kind: Kind)

  /** Dentries, the hashed ones newest first, and the distance of each from the root. */
  datatype Tree = Tree(dentries: map<nat, Dentry>, order: seq<nat>, depth: map<nat, nat>, root: nat)

  /** Every dentry hangs below the root. */
  ghost predicate Rooted(t: Tree) {
    && t.root in t.dentries && 0 !in t.dentries && t.depth.Keys == t.dentries.Keys && t.depth[t.root] == 0
    && t.dentries[t.root].parent == 0
    && (forall d :: d in t.dentries && d != t.root ==>
          t.dentries[d].parent in t.dentries && t.depth[d] == t.depth[t.dentries[d].parent] + 1)
    && (forall d :: d in t.order ==> d in t.dentries)
  }

  // ---------------------------------------------------------------- text and components

  /** The length of the run of non-slash bytes at the front. */
  function Run(s: Name): (n: nat)
    ensures n <= |s| && SLASH !in s[..n] && (n < |s| ==> s[n] == SLASH)
  {
    if s == [] || s[0] == SLASH then 0 else
      var n := Run(s[1..]);
      assert s[..n + 1] == [s[0]] + s[1..][..n];
      n + 1
  }

  /** The non-empty runs between slashes. */
  function Split(s: Name): seq<Name>
    decreases |s|
  {
    if s == [] then []
    else if s[0] == SLASH then Split(s[1..])
    else [s[..Run(s)]] + Split(s[Run(s)..])
  }

  /** Each name after a slash. */
  function Text(names: seq<Name>): Name {
    if names == [] then [] else [SLASH] + names[0] + Text(names[1..])
  }

  /** What a path component that names a child looks like. */
  predicate Plain(name: Name) {
    0 < |name| < 256 && SLASH !in name && 0 !in name && name != [DOT] && name != [DOT, DOT]
  }

  lemma {:induction false} RunIs(s: Name, n: nat)
    requires n <= |s| && SLASH !in s[..n] && (n < |s| ==> s[n] == SLASH)
    ensures Run(s) == n
  {
    if n > 0 {
      assert s[0] in s[..n];
      assert s[1..][..n - 1] == s[..n][1..];
      RunIs(s[1..], n - 1);
    }
  }

  lemma SplitOne(n: Name, rest: Name)
    requires n != [] && SLASH !in n && (rest != [] ==> rest[0] == SLASH)
    ensures Split(n + rest) == [n] + Split(rest)
  {
    hide Run;
    var s := n + rest;
    assert s[..|n|] == n && s[|n|..] == rest;
    RunIs(s, |n|);
    assert s[0] == n[0] && n[0] in n;
  }

  lemma SplitSlash(s: Name)
    ensures Split([0x2F] + s) == Split(s) && Split([]) == []
  {
    assert ([SLASH] + s)[1..] == s;
  }

  /** Printing names and splitting the text gives the names back. */
  lemma {:induction false} SplitText(names: seq<Name>)
    requires forall n :: n in names ==> Plain(n)
    ensures Split(Text(names)) == names
  {
    hide Run, Split, Plain;
    if names == [] {
      SplitSlash([]);
    } else {
      var n, rest := names[0], Text(names[1..]);
      SplitText(names[1..]);
      assert Text(names) == [SLASH] + (n + rest);
      SplitSlash(n + rest);
      PlainParts(n);
      SplitOne(n, rest);
    }
  }

  lemma PlainParts(n: Name)
    requires Plain(n)
    ensures n != [] && SLASH !in n
  {
  }

  lemma {:induction false} TextAppend(a: seq<Name>, b: seq<Name>)
    ensures Text(a + b) == Text(a) + Text(b)
  {
    if a == [] {
      assert a + b == b;
    } else {
      assert (a + b)[1..] == a[1..] + b;
      TextAppend(a[1..], b);
      assert [SLASH] + a[0] + (Text(a[1..]) + Text(b)) == [SLASH] + a[0] + Text(a[1..]) + Text(b);
    }
  }

  /** The sum of (length + 1) over the names. */
  function Width(names: seq<Name>): nat {
    if names == [] then 0 else |names[0]| + 1 + Width(names[1..])
  }

  lemma {:induction false} TextWidth(names: seq<Name>)
    ensures |Text(names)| == Width(names)
  {
    if names != [] { TextWidth(names[1..]); }
  }

  // ---------------------------------------------------------------- ancestors

  /** The names on the way from the root to d. */
  ghost function PathTo(t: Tree, d: nat): (p: seq<Name>)
    requires Rooted(t) && d in t.dentries
    ensures |p| == t.depth[d]
    decreases t.depth[d]
  {
    if d == t.root then [] else PathTo(t, t.dentries[d].parent) + [t.dentries[d].name]
  }

  /** The ancestor of d at distance k from the root. */
  ghost function Ancestor(t: Tree, d: nat, k: nat): (a: nat)
    requires Rooted(t) && d in t.dentries && k <= t.depth[d]
    ensures a in t.dentries && t.depth[a] == k && (k == 0 ==> a == t.root)
    decreases t.depth[d]
  {
    if t.depth[d] == k then Below(t, d); d else Ancestor(t, t.dentries[d].parent, k)
  }

  lemma Below(t: Tree, d: nat)
    requires Rooted(t) && d in t.dentries
    ensures t.depth[d] == 0 <==> d == t.root
  {
  }

  // ---------------------------------------------------------------- lookup

  /** A char is signed: it is sign-extended before it is added. */
  function Widen(c: bv8): bv32 {
    if c < 0x80 then c as bv32 else c as bv32 | 0xFFFFFF00
  }

  function Mix(h: bv32, c: bv8): bv32 {
    (h << 5) - h + Widen(c)
  }

  function NameHash(name: Name): bv32 {
    if name == [] then 0 else Mix(NameHash(name[..|name| - 1]), name[|name| - 1])
  }

  function Slot(parent: nat, hash: bv32): (h: nat)
    ensures h < 1024
  {
    ((hash ^ ((parent % 0x1_0000_0000) as bv32)) % 1024) as nat
  }

  /** The hash slot of a child: the name's hash mixed with the parent's address. */
  function HashOf(parent: nat, name: Name): (h: nat)
    ensures h < 1024
  {
    Slot(parent, NameHash(name))
  }

  /** The newest hashed dentry with this parent and name, 0 if there is none. */
  function First(dentries: map<nat, Dentry>, order: seq<nat>, parent: nat, name: Name): nat {
    if order == [] then 0
    else if order[0] in dentries && dentries[order[0]].parent == parent && dentries[order[0]].name == name then order[0]
    else First(dentries, order[1..], parent, name)
  }

  /** No newer dentry hides d. */
  ghost predicate Newest(t: Tree, d: nat)
    requires d in t.dentries
  {
    First(t.dentries, t.order, t.dentries[d].parent, t.dentries[d].name) == d
  }

  /** The hashed dentries of one slot, newest first. */
  function Bucket(dentries: map<nat, Dentry>, order: seq<nat>, h: nat): seq<nat> {
    if order == [] then []
    else if order[0] in dentries && dentries[order[0]].hash == h then [order[0]] + Bucket(dentries, order[1..], h)
    else Bucket(dentries, order[1..], h)
  }

  /** Searching the slot of the hash finds what searching all hashed dentries finds. */
  lemma {:induction false} BucketAgrees(dentries: map<nat, Dentry>, order: seq<nat>, h: nat, parent: nat, name: Name)
    requires forall d :: d in dentries && dentries[d].parent == parent && dentries[d].name == name ==>
               dentries[d].hash == h
    ensures First(dentries, Bucket(dentries, order, h), parent, name) == First(dentries, order, parent, name)
  {
    if order != [] {
      BucketAgrees(dentries, order[1..], h, parent, name);
      if order[0] in dentries && dentries[order[0]].hash == h {
        assert ([order[0]] + Bucket(dentries, order[1..], h))[1..] == Bucket(dentries, order[1..], h);
      }
    }
  }

  lemma {:induction false} FirstFound(dentries: map<nat, Dentry>, order: seq<nat>, parent: nat, name: Name)
    ensures var d := First(dentries, order, parent, name);
      d != 0 ==> d in order && d in dentries && dentries[d].parent == parent && dentries[d].name == name
  {
    if order != [] { FirstFound(dentries, order[1..], parent, name); }
  }

  /** The search stops at the newest match. */
  lemma {:induction false} FirstIs(dentries: map<nat, Dentry>, order: seq<nat>, parent: nat, name: Name, k: nat)
    requires k < |order| && order[k] in dentries && dentries[order[k]].parent == parent
    requires dentries[order[k]].name == name
    requires forall i :: 0 <= i < k ==>
               order[i] in dentries && (dentries[order[i]].parent != parent || dentries[order[i]].name != name)
    ensures First(dentries, order, parent, name) == order[k]
  {
    if k > 0 { FirstIs(dentries, order[1..], parent, name, k - 1); }
  }

  /** Name hashes in numbers: 31 * 97 + 98 for "ab", and 31 * -128 + 1 for a byte that counts as negative; and a
      hash slot, with the low half of the parent's address. */
  lemma HashValues()
    ensures NameHash([0x61, 0x62]) == 3105 && NameHash([0x80, 0x01]) == 0xFFFF_F081
    ensures HashOf(0x1_0000_0005, [0x61, 0x62]) == 36
  {
    hide Mix, NameHash, Slot;
    var none: Name, a: Name, x: Name := [], [0x61], [0x80];
    assert none + a == a && none + x == x;
    assert a + [0x62] == [0x61, 0x62] && x + [0x01] == [0x80, 0x01];
    HashStep(none, 0x61);
    HashStep(a, 0x62);
    HashStep(none, 0x80);
    HashStep(x, 0x01);
    MixValues();
    SlotValue();
  }

  lemma MixValues()
    ensures Mix(0, 0x61) == 97 && Mix(97, 0x62) == 3105
    ensures Mix(0, 0x80) == 0xFFFF_FF80 && Mix(0xFFFF_FF80, 0x01) == 0xFFFF_F081
  {
  }

  lemma SlotValue()
    ensures Slot(0x1_0000_0005, 3105) == 36
  {
    assert 0x1_0000_0005 % 0x1_0000_0000 == 5;
    assert (3105 as bv32 ^ 5) % 1024 == 36;
  }

  lemma HashStep(name: Name, c: bv8)
    ensures NameHash([]) == 0 && NameHash(name + [c]) == Mix(NameHash(name), c)
  {
    hide Mix;
    var s := name + [c];
    assert s[..|s| - 1] == name;
  }

  // ---------------------------------------------------------------- walking

  /** A negative dentry for a missing child, hashed as the newest. */
  function Missing(t: Tree, parent: nat, name: Name, d: nat): Tree
    requires parent in t.depth
  {
    t.(dentries := t.dentries[d := Dentry(parent, name, HashOf(parent, name), Negative)], order := [d] + t.order,
       depth := t.depth[d := t.depth[parent] + 1])
  }

  /** Where one component leads: the tree afterwards, the dentry (0 for failure) and the allocations left.
      An allocation is the address it returned, 0 if it failed. */
  ghost function Go(t: Tree, d: nat, name: Name, allocs: seq<nat>): (Tree, nat, seq<nat>)
    requires Rooted(t) && d in t.dentries
  {
    if |name| >= 256 then (t, 0, allocs)
    else if name == [DOT] then (t, d, allocs)
    else if name == [DOT, DOT] then
      (t, if d != t.root && t.dentries[d].parent != 0 then t.dentries[d].parent else d, allocs)
    else
      var child := First(t.dentries, t.order, d, name);
      if child != 0 then (t, child, allocs)
      else if !t.dentries[d].kind.Directory? then (t, 0, allocs)
      else if allocs == [] || allocs[0] == 0 || allocs[0] in t.dentries then (t, 0, allocs)
      else (Missing(t, d, name, allocs[0]), allocs[0], allocs[1..])
  }

  lemma GoRooted(t: Tree, d: nat, name: Name, allocs: seq<nat>)
    requires Rooted(t) && d in t.dentries
    ensures var (t', r, _) := Go(t, d, name, allocs);
      Rooted(t') && t'.root == t.root && (r != 0 ==> r in t'.dentries)
  {
    FirstFound(t.dentries, t.order, d, name);
  }

  /** Walking the components from d. */
  ghost function Walk(t: Tree, d: nat, comps: seq<Name>, allocs: seq<nat>): (Tree, nat)
    requires Rooted(t) && d in t.dentries
    decreases |comps|
  {
    if comps == [] then (t, d) else
      GoRooted(t, d, comps[0], allocs);
      var (t', r, rest) := Go(t, d, comps[0], allocs);
      if r == 0 then (t', 0) else Walk(t', r, comps[1..], rest)
  }

  // ---------------------------------------------------------------- round trip

  ghost predicate AllNewest(t: Tree, d: nat)
    requires Rooted(t) && d in t.dentries
  {
    forall k :: 0 < k <= t.depth[d] ==> Newest(t, Ancestor(t, d, k))
  }

  lemma {:induction false} PathAncestor(t: Tree, d: nat, k: nat)
    requires Rooted(t) && d in t.dentries && k < t.depth[d]
    ensures var a := Ancestor(t, d, k + 1);
      a != t.root && t.dentries[a].parent == Ancestor(t, d, k) && t.dentries[a].name == PathTo(t, d)[k]
    decreases t.depth[d]
  {
    var p := t.dentries[d].parent;
    if k + 1 < t.depth[d] { PathAncestor(t, p, k); }
  }

  /** A component that names the newest dentry of its name leads to it. */
  lemma GoNewest(t: Tree, b: nat, allocs: seq<nat>)
    requires Rooted(t) && b in t.dentries && b != t.root && Newest(t, b) && Plain(t.dentries[b].name)
    ensures t.dentries[b].parent in t.dentries
    ensures Go(t, t.dentries[b].parent, t.dentries[b].name, allocs) == (t, b, allocs)
  {
  }

  /** Along ancestors that nothing hides, walking the path leads to the dentry and changes nothing. */
  lemma {:induction false} WalkBack(t: Tree, d: nat, k: nat, allocs: seq<nat>)
    requires Rooted(t) && d in t.dentries && k <= t.depth[d] && AllNewest(t, d)
    requires forall n :: n in PathTo(t, d) ==> Plain(n)
    ensures Walk(t, Ancestor(t, d, k), PathTo(t, d)[k..], allocs) == (t, d)
    decreases t.depth[d] - k
  {
    var a, rest := Ancestor(t, d, k), PathTo(t, d)[k..];
    if k < t.depth[d] {
      PathAncestor(t, d, k);
      var b := Ancestor(t, d, k + 1);
      assert Newest(t, b) && Plain(rest[0]) && rest[1..] == PathTo(t, d)[k + 1..];
      WalkBack(t, d, k + 1, allocs);
    }
  }

  /** u has all dentries of t, unchanged. */
  ghost predicate Extends(t: Tree, u: Tree)
    requires Rooted(t) && Rooted(u)
  {
    && u.root == t.root
    && forall d :: d in t.dentries ==>
         d in u.dentries && u.dentries[d] == t.dentries[d] && u.depth[d] == t.depth[d]
  }

  lemma {:induction false} AncestorExtends(t: Tree, u: Tree, d: nat, k: nat)
    requires Rooted(t) && Rooted(u) && Extends(t, u) && d in t.dentries && k <= t.depth[d]
    ensures Ancestor(u, d, k) == Ancestor(t, d, k)
    decreases t.depth[d]
  {
    if t.depth[d] != k {
      Below(t, d);
      AncestorExtends(t, u, t.dentries[d].parent, k);
    }
  }

  lemma {:induction false} AncestorTwice(t: Tree, d: nat, j: nat, k: nat)
    requires Rooted(t) && d in t.dentries && k <= j <= t.depth[d]
    ensures Ancestor(t, Ancestor(t, d, j), k) == Ancestor(t, d, k)
    decreases t.depth[d]
  {
    if t.depth[d] != j { AncestorTwice(t, t.dentries[d].parent, j, k); }
  }

  /** One plain component leads to a child. */
  lemma GoUnder(t: Tree, d: nat, name: Name, allocs: seq<nat>)
    requires Rooted(t) && d in t.dentries && Plain(name)
    ensures var (u, r, _) := Go(t, d, name, allocs);
      && Rooted(u) && Extends(t, u) && d in u.dentries
      && (r != 0 ==> r in u.dentries && r != u.root && u.depth[r] == t.depth[d] + 1 && Ancestor(u, r, t.depth[d]) == d)
  {
    GoRooted(t, d, name, allocs);
    FirstFound(t.dentries, t.order, d, name);
    var (u, r, _) := Go(t, d, name, allocs);
    if r != 0 {
      assert u.dentries[r].parent == d && Ancestor(u, d, t.depth[d]) == d;
    }
  }

  lemma Self(t: Tree, d: nat)
    requires Rooted(t) && d in t.dentries
    ensures d in t.depth && Ancestor(t, d, t.depth[d]) == d
  {
  }

  /** Walking plain components only goes down. */
  lemma {:induction false} WalkUnder(t: Tree, d: nat, comps: seq<Name>, allocs: seq<nat>)
    requires Rooted(t) && d in t.dentries && forall n :: n in comps ==> Plain(n)
    ensures var (u, r) := Walk(t, d, comps, allocs);
      && Rooted(u) && Extends(t, u)
      && (r != 0 ==> r in u.dentries && t.depth[d] <= u.depth[r] && Ancestor(u, r, t.depth[d]) == d)
    decreases |comps|
  {
    hide Rooted, Go, Plain, Ancestor;
    Self(t, d);
    if comps != [] {
      var (t', r', rest) := Go(t, d, comps[0], allocs);
      GoUnder(t, d, comps[0], allocs);
      if r' != 0 {
        WalkUnder(t', r', comps[1..], rest);
        var (u, r) := Walk(t', r', comps[1..], rest);
        if r != 0 {
          AncestorTwice(u, r, t.depth[d] + 1, t.depth[d]);
          AncestorExtends(t', u, r', t.depth[d]);
        }
      }
    }
  }

  /** If a newer dentry hides an ancestor below level k, the walk from there ends elsewhere. */
  lemma {:induction false} WalkHidden(t: Tree, d: nat, k: nat, allocs: seq<nat>)
    requires Rooted(t) && d in t.dentries && k <= t.depth[d] && forall n :: n in PathTo(t, d) ==> Plain(n)
    requires exists j :: k < j <= t.depth[d] && !Newest(t, Ancestor(t, d, j))
    ensures Walk(t, Ancestor(t, d, k), PathTo(t, d)[k..], allocs).1 != d
    decreases t.depth[d] - k
  {
    hide Rooted, Go, Plain, Ancestor, PathTo, Newest;
    var rest := PathTo(t, d)[k..];
    var b := Ancestor(t, d, k + 1);
    PathAncestor(t, d, k);
    assert rest[0] == PathTo(t, d)[k] && rest[1..] == PathTo(t, d)[k + 1..];
    if Newest(t, b) {
      GoNewest(t, b, allocs);
      WalkHidden(t, d, k + 1, allocs);
    } else {
      WalkAstray(t, d, k, allocs);
    }
  }

  /** A hidden dentry is not found. */
  lemma GoAstray(t: Tree, b: nat, allocs: seq<nat>)
    requires Rooted(t) && b in t.dentries && b != t.root && !Newest(t, b) && Plain(t.dentries[b].name)
    ensures Go(t, t.dentries[b].parent, t.dentries[b].name, allocs).1 != b
  {
  }

  lemma WalkAstray(t: Tree, d: nat, k: nat, allocs: seq<nat>)
    requires Rooted(t) && d in t.dentries && k < t.depth[d] && forall n :: n in PathTo(t, d) ==> Plain(n)
    requires !Newest(t, Ancestor(t, d, k + 1))
    ensures Walk(t, Ancestor(t, d, k), PathTo(t, d)[k..], allocs).1 != d
  {
    hide Rooted, Go, Plain, Ancestor, PathTo, Newest;
    var a, rest := Ancestor(t, d, k), PathTo(t, d)[k..];
    PathAncestor(t, d, k);
    assert rest[0] == PathTo(t, d)[k] && forall n :: n in rest ==> n in PathTo(t, d);
    var (t', r', left) := Go(t, a, rest[0], allocs);
    GoUnder(t, a, rest[0], allocs);
    GoAstray(t, Ancestor(t, d, k + 1), allocs);
    if r' != 0 {
      WalkUnder(t', r', rest[1..], left);
      var (u, r) := Walk(t', r', rest[1..], left);
      AncestorExtends(t, t', d, k + 1);
      AncestorExtends(t', u, d, k + 1);
    }
  }

  /** Walking the printed path of a dentry with plain names leads back to it exactly when no newer dentry
      hides it or one of its ancestors; then the walk allocates nothing and changes nothing. */
  lemma RoundTrip(t: Tree, d: nat, allocs: seq<nat>)
    requires Rooted(t) && d in t.dentries && forall n :: n in PathTo(t, d) ==> Plain(n)
    ensures Split(Text(PathTo(t, d))) == PathTo(t, d)
    ensures Walk(t, t.root, Split(Text(PathTo(t, d))), allocs).1 == d <==> AllNewest(t, d)
    ensures AllNewest(t, d) ==> Walk(t, t.root, Split(Text(PathTo(t, d))), allocs).0 == t
  {
    SplitText(PathTo(t, d));
    assert PathTo(t, d)[0..] == PathTo(t, d) && Ancestor(t, d, 0) == t.root;
    if AllNewest(t, d) {
      WalkBack(t, d, 0, allocs);
    } else {
      WalkHidden(t, d, 0, allocs);
    }
  }

  // ---------------------------------------------------------------- dots, and names that are not there

  /** ".." leads to the parent, and from the root it stays; nothing changes. */
  lemma WalkUp(t: Tree, d: nat, allocs: seq<nat>)
    requires Rooted(t) && d in t.dentries
    ensures Walk(t, d, [[0x2E, 0x2E]], allocs) == (t, if d == t.root then d else t.dentries[d].parent)
  {
    assert [[DOT, DOT]][1..] == [];
  }

  /** "." anywhere changes no walk. */
  lemma {:induction false} DotIgnored(t: Tree, d: nat, a: seq<Name>, b: seq<Name>, allocs: seq<nat>)
    requires Rooted(t) && d in t.dentries
    ensures Walk(t, d, a + [[0x2E]] + b, allocs) == Walk(t, d, a + b, allocs)
    decreases |a|
  {
    if a == [] {
      assert [] + [[DOT]] + b == [[DOT]] + b && ([[DOT]] + b)[1..] == b && [] + b == b;
    } else {
      hide Rooted, Go;
      assert (a + [[DOT]] + b)[1..] == a[1..] + [[DOT]] + b && (a + b)[1..] == a[1..] + b;
      GoRooted(t, d, a[0], allocs);
      var (t', r, rest) := Go(t, d, a[0], allocs);
      if r != 0 { DotIgnored(t', r, a[1..], b, rest); }
    }
  }

  /** ".." k times over. */
  function Ups(k: nat): (s: seq<Name>)
    ensures |s| == k
  {
    seq(k, _ => [DOT, DOT])
  }

  /** k levels up from d, as far as the root. */
  ghost function Above(t: Tree, d: nat, k: nat): nat
    requires Rooted(t) && d in t.dentries
  {
    Ancestor(t, d, if k <= t.depth[d] then t.depth[d] - k else 0)
  }

  lemma {:induction false} WalkUps(t: Tree, d: nat, k: nat, allocs: seq<nat>)
    requires Rooted(t) && d in t.dentries
    ensures Walk(t, d, Ups(k), allocs) == (t, Above(t, d, k))
    decreases k
  {
    if k > 0 {
      assert Ups(k)[1..] == Ups(k - 1) && Ups(k)[0] == [DOT, DOT];
      var p := if d == t.root then d else t.dentries[d].parent;
      WalkUps(t, p, k - 1, allocs);
    }
  }

  lemma {:induction false} WalkThenUps(t: Tree, d: nat, comps: seq<Name>, k: nat, allocs: seq<nat>)
    requires Rooted(t) && d in t.dentries
    ensures var (u, r) := Walk(t, d, comps, allocs);
      r != 0 ==> Rooted(u) && r in u.dentries && Walk(t, d, comps + Ups(k), allocs) == (u, Above(u, r, k))
    decreases |comps|
  {
    if comps == [] {
      assert [] + Ups(k) == Ups(k);
      WalkUps(t, d, k, allocs);
    } else {
      hide Rooted, Go, Above, Ups;
      assert (comps + Ups(k))[1..] == comps[1..] + Ups(k);
      GoRooted(t, d, comps[0], allocs);
      var (t', r, rest) := Go(t, d, comps[0], allocs);
      if r != 0 { WalkThenUps(t', r, comps[1..], k, rest); }
    }
  }

  lemma {:induction false} WalkDepth(t: Tree, d: nat, comps: seq<Name>, allocs: seq<nat>)
    requires Rooted(t) && d in t.dentries && forall n :: n in comps ==> Plain(n)
    ensures var (u, r) := Walk(t, d, comps, allocs);
      Rooted(u) && (r != 0 ==> r in u.dentries && u.depth[r] == t.depth[d] + |comps|)
    decreases |comps|
  {
    hide Rooted, Go, Plain, Ancestor;
    Self(t, d);
    if comps != [] {
      var (t', r', rest) := Go(t, d, comps[0], allocs);
      GoUnder(t, d, comps[0], allocs);
      if r' != 0 { WalkDepth(t', r', comps[1..], rest); }
    }
  }

  /** Down through plain names and up again as often is back at the start, whatever was allocated on the way. */
  lemma DownAndUp(t: Tree, d: nat, comps: seq<Name>, allocs: seq<nat>)
    requires Rooted(t) && d in t.dentries && forall n :: n in comps ==> Plain(n)
    ensures var (u, r) := Walk(t, d, comps, allocs);
      r != 0 ==> Walk(t, d, comps + Ups(|comps|), allocs) == (u, d)
  {
    hide Rooted, Go, Plain, Walk, Ups;
    WalkThenUps(t, d, comps, |comps|, allocs);
    WalkUnder(t, d, comps, allocs);
    WalkDepth(t, d, comps, allocs);
    Self(t, d);
    var (u, r) := Walk(t, d, comps, allocs);
    if r != 0 {
      Self(u, r);
      assert u.depth[r] - |comps| == t.depth[d];
    }
  }

  /** A plain name leads to a child. */
  lemma ChildOf(t: Tree, d: nat, name: Name, allocs: seq<nat>)
    requires Rooted(t) && d in t.dentries && Plain(name)
    ensures var (u, r) := Walk(t, d, [name], allocs);
      && Rooted(u) && d in u.dentries && u.dentries[d] == t.dentries[d]
      && (r != 0 ==> r in u.dentries && r != u.root && u.dentries[r].parent == d && u.dentries[r].name == name)
  {
    GoUnder(t, d, name, allocs);
    FirstFound(t.dentries, t.order, d, name);
    assert [name][1..] == [];
  }

  /** A component of 256 bytes or more leads nowhere. */
  lemma WalkTooLong(t: Tree, d: nat, name: Name, allocs: seq<nat>)
    requires Rooted(t) && d in t.dentries && |name| >= 256
    ensures Walk(t, d, [name], allocs) == (t, 0)
  {
  }

  /** A plain name that no hashed child of d has becomes a negative dentry below d, the newest of all; only below
      a directory, and only with memory for it. */
  lemma WalkMissing(t: Tree, d: nat, name: Name, allocs: seq<nat>)
    requires Rooted(t) && d in t.dentries && Plain(name)
    requires forall c :: c in t.order ==> t.dentries[c].parent != d || t.dentries[c].name != name
    ensures var (u, r) := Walk(t, d, [name], allocs);
      if t.dentries[d].kind != Directory || allocs == [] || allocs[0] == 0 || allocs[0] in t.dentries then
        u == t && r == 0
      else
        && r == allocs[0] && u.root == t.root && u.order == [r] + t.order && u.dentries.Keys == t.dentries.Keys + {r}
        && u.dentries[r].parent == d && u.dentries[r].name == name && u.dentries[r].kind == Negative
        && forall c :: c in t.dentries ==> u.dentries[c] == t.dentries[c]
  {
    NotFound(t.dentries, t.order, d, name);
    GoRooted(t, d, name, allocs);
    assert [name][1..] == [];
  }

  lemma {:induction false} NotFound(dentries: map<nat, Dentry>, order: seq<nat>, parent: nat, name: Name)
    requires forall c :: c in order ==> c in dentries && (dentries[c].parent != parent || dentries[c].name != name)
    ensures First(dentries, order, parent, name) == 0
  {
    if order != [] { NotFound(dentries, order[1..], parent, name); }
  }

  /** How Split sees the bytes from position i on. */
  lemma SplitSkip(s: Name, i: nat)
    requires i < |s| && s[i] == SLASH
    ensures Split(s[i..]) == Split(s[i + 1..])
  {
    assert s[i..][1..] == s[i + 1..];
  }

  lemma SplitTake(s: Name, i: nat, j: nat)
    requires i < j <= |s| && SLASH !in s[i..j] && (j < |s| ==> s[j] == SLASH)
    ensures Split(s[i..]) == [s[i..j]] + Split(s[if j < |s| then j + 1 else j..])
  {
    assert s[i..] == s[i..j] + s[j..];
    SplitOne(s[i..j], s[j..]);
    if j < |s| { SplitSkip(s, j); }
  }
}
