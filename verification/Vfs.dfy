/**
 The dentry cache and path names of kernel/fs/vfs.c over a ramfs tree without mounts: hashing and looking
 up dentries, walking a path, and printing the current directory.
 */
module Vfs {
  import opened Arith
  import opened PathSpec

  lemma {:induction false} BucketFrame(a: map<nat, Dentry>, b: map<nat, Dentry>, order: seq<nat>, h: nat)
    requires forall d :: d in order ==> d in a && d in b && a[d].hash == b[d].hash
    ensures Bucket(a, order, h) == Bucket(b, order, h)
  {
    if order != [] { BucketFrame(a, b, order[1..], h); }
  }

  lemma {:induction false} BucketSubset(a: map<nat, Dentry>, order: seq<nat>, h: nat)
    ensures forall d :: d in Bucket(a, order, h) ==> d in a
  {
    if order != [] { BucketSubset(a, order[1..], h); }
  }

  /** d_hash: the loop over the name. */
  method DHash(parent: nat, name: Name) returns (h: nat)
    ensures h == HashOf(parent, name)
  {
    hide Mix, Slot;
    var hash: bv32 := 0;
    for i := 0 to |name|
      invariant hash == NameHash(name[..i])
    {
      assert name[..i + 1][..i] == name[..i];
      hash := Mix(hash, name[i]);
    }
    assert name[..|name|] == name;
    h := Slot(parent, hash);
  }

  class Namespace {
    /** Memory never runs out. */
    const plenty: bool
    const root: nat
    var cwd: nat
    var dentries: map<nat, Dentry>
    var buckets: seq<seq<nat>>
    ghost var order: seq<nat>
    ghost var depth: map<nat, nat>

    ghost function View(): Tree
      reads this
    {
      Tree(dentries, order, depth, root)
    }

    ghost predicate Hashed()
      reads this`dentries, this`buckets, this`order
    {
      && |buckets| == 1024
      && (forall h: nat {:trigger buckets[h]} :: h < 1024 ==> buckets[h] == Bucket(dentries, order, h))
      && (forall d :: d in dentries ==>
            dentries[d].hash == HashOf(dentries[d].parent, dentries[d].name) && 0 !in dentries[d].name)
    }

    ghost predicate Valid()
      reads this
    {
      Rooted(View()) && Hashed() && (cwd == 0 || cwd in dentries)
    }

    /** A mounted ramfs: the root directory alone. */
    constructor (root: nat, plenty: bool)
      requires root != 0
      ensures Valid() && this.root == root && this.plenty == plenty && cwd == 0
      ensures dentries == map[root := Dentry(0, [SLASH], HashOf(0, [SLASH]), Directory)] && order == [root]
    {
      this.root, this.plenty, cwd := root, plenty, 0;
      var h := DHash(0, [SLASH]);
      dentries := map[root := Dentry(0, [SLASH], h, Directory)];
      buckets := seq(1024, i => if i == h then [root] else []);
      order, depth := [root], map[root := 0];
    }

    /** alloc_dentry: a new dentry that is in no hash slot yet, or 0 when memory is short. */
    method AllocDentry(parent: nat, name: Name) returns (d: nat)
      requires Valid() && parent in dentries && 0 !in name
      modifies this`dentries, this`depth
      ensures Valid()
      ensures d == 0 ==> !plenty && View() == old(View())
      ensures d != 0 ==> d !in old(dentries) && d !in order && depth == old(depth)[d := old(depth)[parent] + 1]
      ensures d != 0 ==> dentries == old(dentries)[d := Dentry(parent, name, HashOf(parent, name), Negative)]
    {
      hide HashOf, Rooted, Bucket;
      RootedParts(View());
      if !plenty {
        if * { return 0; }
      }
      FreshExists(dentries.Keys);
      d :| d != 0 && d !in dentries;
      var h := DHash(parent, name);
      ghost var old_dentries := dentries;
      NewRooted(View(), parent, Dentry(parent, name, h, Negative), d);
      dentries := dentries[d := Dentry(parent, name, h, Negative)];
      depth := depth[d := depth[parent] + 1];
      forall g: nat | g < 1024 ensures buckets[g] == Bucket(dentries, order, g) {
        BucketFrame(old_dentries, dentries, order, g);
      }
    }

    /** d_add: the dentry becomes the newest of its hash slot, and positive if an inode is given. */
    method DAdd(d: nat, kind: Kind)
      requires Valid() && d in dentries && d !in order
      modifies this`dentries, this`buckets, this`order
      ensures Valid() && order == [d] + old(order)
      ensures dentries == if kind.Negative? then old(dentries) else old(dentries)[d := old(dentries)[d].(kind := kind)]
    {
      hide HashOf, Rooted;
      RootedParts(View());
      ghost var old_dentries := dentries;
      AddRooted(View(), d, kind);
      if !kind.Negative? {
        dentries := dentries[d := dentries[d].(kind := kind)];
      }
      var h := dentries[d].hash;
      order := [d] + order;
      forall g: nat | g < 1024 ensures Bucket(dentries, order, g) == if g == h then [d] + buckets[g] else buckets[g] {
        assert order[1..] == old(order);
        BucketFrame(old_dentries, dentries, old(order), g);
      }
      assert h < 1024 by { HashBound(dentries[d].parent, dentries[d].name); }
      buckets := buckets[h := [d] + buckets[h]];
    }

    /** d_lookup: the newest hashed dentry with this parent and name. */
    method DLookup(parent: nat, name: Name) returns (d: nat)
      requires Valid()
      ensures d == First(dentries, order, parent, name)
      ensures d != 0 ==> d in dentries && dentries[d].parent == parent && dentries[d].name == name
    {
      hide HashOf;
      var h := DHash(parent, name);
      HashBound(parent, name);
      BucketAgrees(dentries, order, h, parent, name);
      FirstFound(dentries, order, parent, name);
      BucketSubset(dentries, order, h);
      var list := buckets[h];
      for i := 0 to |list|
        invariant First(dentries, list, parent, name) == First(dentries, list[i..], parent, name)
      {
        d := list[i];
        assert list[i..][1..] == list[i + 1..];
        if dentries[d].parent == parent && dentries[d].name == name { return; }
      }
      d := 0;
    }

    /** What path_walk does with one component.  The allocations made are handed back. */
    method Enter(d: nat, name: Name) returns (r: nat, ghost used: seq<nat>)
      requires Valid() && d in dentries && 0 !in name
      modifies this`dentries, this`buckets, this`order, this`depth
      ensures Valid() && (r != 0 ==> r in dentries)
      ensures forall rest {:trigger used + rest} :: Went(Go(old(View()), d, name, used + rest), View(), r, rest)
    {
      hide Rooted, Hashed, HashOf, Plain;
      used := [];
      if |name| >= 256 { return 0, []; }
      if name == [DOT] { return d, []; }
      if name == [DOT, DOT] {
        RootedUp(View(), d);
        r := d;
        if d != root && dentries[d].parent != 0 {
          r := dentries[d].parent;
        }
        return r, [];
      }
      var child := DLookup(d, name);
      if child == 0 {
        if !dentries[d].kind.Directory? { return 0, []; }
        child := AllocDentry(d, name);
        used := [child];
        if child == 0 { return 0, [0]; }
        DAdd(child, Negative);
      }
      return child, used;
    }

    /** path_walk: the dentry a path names, from the root for an absolute path and from the current directory
        otherwise.  Missing last components become negative dentries. */
    method PathWalk(path: Name) returns (ret: int, d: nat, ghost allocs: seq<nat>)
      requires Valid() && 0 !in path
      modifies this`dentries, this`buckets, this`order, this`depth
      ensures Valid() && (ret == 0 || ret == -1) && (ret == 0 ==> d in dentries)
      ensures Rooted(old(View())) && old(StartOf(path)) in old(dentries)
      ensures Walk(old(View()), old(StartOf(path)), Split(path), allocs) == (View(), if ret == 0 then d else 0)
    {
      hide Rooted, Hashed, Go, Run, Split;
      ghost var v := View();
      ghost var start := StartOf(path);
      StartIn(path);
      allocs := [];
      var i := 0;
      d := root;
      if |path| > 0 && path[0] == SLASH {
        SplitSkip(path, 0);
        i := 1;
      } else if cwd != 0 {
        d := cwd;
      }
      assert path[0..] == path;
      assert forall rest: seq<nat> :: [] + rest == rest;
      while i < |path|
        invariant 0 <= i <= |path| && Valid() && d in dentries
        invariant forall rest {:trigger allocs + rest} ::
                    Walk(v, start, Split(path), allocs + rest) == Walk(View(), d, Split(path[i..]), rest)
      {
        var j := Component(path, i);
        if j == i {
          SplitSkip(path, i);
          i := i + 1;
        } else {
          ghost var t, more := View(), Split(path[if j < |path| then j + 1 else j..]);
          SplitTake(path, i, j);
          ghost var used, d0 := [], d;
          var r;
          r, used := Enter(d, path[i..j]);
          forall rest
            ensures Walk(v, start, Split(path), (allocs + used) + rest) ==
                    if r == 0 then (View(), 0) else Walk(View(), r, more, rest)
          {
            assert (allocs + used) + rest == allocs + (used + rest);
            WalkCons(t, d0, path[i..j], more, used + rest);
            assert Went(Go(t, d0, path[i..j], used + rest), View(), r, rest);
          }
          allocs := allocs + used;
          if r == 0 {
            assert allocs + [] == allocs;
            return -1, 0, allocs;
          }
          d := r;
          i := if j < |path| then j + 1 else j;
        }
      }
      assert allocs + [] == allocs && path[i..] == [];
      assert Split([]) == [] by { SplitNothing(); }
      return 0, d, allocs;
    }

    /** vfs_chdir: the current directory becomes what the path names, if that is a directory. */
    method Chdir(path: Name) returns (ret: int, ghost allocs: seq<nat>)
      requires Valid() && 0 !in path
      modifies this`dentries, this`buckets, this`order, this`depth, this`cwd
      ensures Valid() && (ret == 0 || ret == -1) && Rooted(old(View())) && old(StartOf(path)) in old(dentries)
      ensures var (t, d) := Walk(old(View()), old(StartOf(path)), Split(path), allocs);
        && View() == t && cwd == (if ret == 0 then d else old(cwd))
        && (ret == 0 <==> d != 0 && d in t.dentries && t.dentries[d].kind.Directory?)
    {
      hide Rooted, Hashed, Walk, Split;
      var r, d;
      r, d, allocs := PathWalk(path);
      if r != 0 { return -1, allocs; }
      NotNull(d);
      if dentries[d].kind.Negative? { return -1, allocs; }
      if !dentries[d].kind.Directory? { return -1, allocs; }
      cwd := d;
      return 0, allocs;
    }

    lemma NotNull(d: nat)
      requires Valid() && d in dentries
      ensures d != 0
    {
    }

    /** ramfs_mknod: the dentry gets an inode, and becomes the newest of its hash slot unless it is in it
        already.  It fails, changing nothing, when memory is short. */
    method Mknod(d: nat, kind: Kind) returns (ret: int)
      requires Valid() && d in dentries && !kind.Negative?
      modifies this`dentries, this`buckets, this`order
      ensures Valid() && (ret == 0 || ret == -1)
      ensures ret == -1 ==> !plenty && View() == old(View())
      ensures ret == 0 ==> dentries == old(dentries)[d := old(dentries)[d].(kind := kind)]
      ensures ret == 0 ==> order == (if d in old(order) then [] else [d]) + old(order)
    {
      hide HashOf, Rooted;
      if !plenty {
        if * { return -1; }
      }
      HashBound(dentries[d].parent, dentries[d].name);
      BucketHolds(dentries, order, d);
      if d !in buckets[dentries[d].hash] {
        DAdd(d, kind);
      } else {
        Instantiate(d, kind);
      }
      return 0;
    }

    /** d_instantiate: only the inode of the dentry changes. */
    method Instantiate(d: nat, kind: Kind)
      requires Valid() && d in dentries && d in order
      modifies this`dentries
      ensures Valid() && dentries == old(dentries)[d := old(dentries)[d].(kind := kind)]
    {
      hide HashOf, Rooted;
      RootedParts(View());
      ghost var was := dentries;
      KindRooted(View(), d, kind);
      dentries := dentries[d := dentries[d].(kind := kind)];
      forall g: nat | g < 1024 ensures buckets[g] == Bucket(dentries, order, g) {
        BucketFrame(was, dentries, order, g);
      }
    }

    /** vfs_mkdir and vfs_mknod once the parent is found: always a new dentry, newest under its name even
        where there is one by that name.  When memory is short, no hashed dentry changes. */
    method MakeNode(parent: nat, name: Name, kind: Kind) returns (d: nat)
      requires Valid() && parent in dentries && 0 !in name && !kind.Negative?
      modifies this`dentries, this`buckets, this`order, this`depth
      ensures Valid() && depth.Keys == dentries.Keys && forall c :: c in old(dentries) ==> c in dentries
      ensures forall c :: c in old(dentries) ==>
                c in old(depth) && dentries[c] == old(dentries)[c] && depth[c] == old(depth)[c]
      ensures d == 0 ==> !plenty && order == old(order)
      ensures d != 0 ==> d !in old(dentries) && d in dentries && order == [d] + old(order)
      ensures d != 0 ==> dentries[d].parent == parent && dentries[d].name == name && dentries[d].kind == kind
      ensures d != 0 ==> Newest(View(), d) && First(dentries, order, parent, name) == d
    {
      hide Rooted, Hashed, HashOf;
      RootedParts(View());
      d := AllocDentry(parent, name);
      if d == 0 { return; }
      ghost var order0 := order;
      var ret := Mknod(d, kind);
      RootedParts(View());
      if ret != 0 { return 0; }
      assert order == [d] + order0;
    }

    /** vfs_getcwd: the printed path of the current directory.  For a directory other than the root it succeeds
        exactly when the names, with a slash each, fit in size - 1 bytes.  The text and its NUL fit in size
        bytes, except for the root and a size of 1. */
    method Getcwd(size: int, memory: bool) returns (ret: int, buf: Name)
      requires Valid()
      ensures ret == 0 || ret == -1
      ensures ret == 0 <==>
                size > 0 && memory && (StartOf([]) == root || Width(PathTo(View(), StartOf([]))) <= size - 1)
      ensures ret == 0 ==> buf == if StartOf([]) == root then [SLASH] else Text(PathTo(View(), StartOf([])))
      ensures ret == 0 ==> (|buf| + 1 <= size <==> !(StartOf([]) == root && size == 1))
    {
      hide Hashed, Rooted, PathTo, Text, Width;
      if size <= 0 { return -1, []; }
      var d := if cwd != 0 then cwd else root;
      StartIn([]);
      if !memory { return -1, []; }
      var temp := new bv8[size];
      var pos := size - 1;
      temp[pos] := 0;
      if d == root { return 0, [SLASH]; }
      ghost var t, k: nat := View(), |PathTo(View(), d)|;
      ghost var names := PathTo(t, d);
      assert names[k..] == [] && names[..k] == names;
      TextNothing();
      while d != root && d != dentries[d].parent
        invariant 0 <= pos < size && d in dentries && temp[size - 1] == 0 && k <= |names|
        invariant PathTo(t, d) == names[..k] && temp[pos..size - 1] == Text(names[k..])
        decreases k
      {
        PathStep(t, d, names, k);
        var name := dentries[d].name;
        if pos - |name| - 1 < 0 {
          TooWide(names, k - 1);
          return -1, [];
        }
        pos := Prepend(temp, pos, name);
        d := dentries[d].parent;
        k := k - 1;
      }
      PathEnd(t, d, names, k);
      NoNul(names);
      TextWidth(names);
      buf := Strcpy(temp, pos);
      ret := 0;
    }

    /** vfs_getcwd followed by path_walk: back in the same directory exactly when no newer dentry hides it or
        one of its ancestors, and then nothing has changed. */
    method Reopen(size: int) returns (ret: int, d: nat)
      requires Valid() && cwd != 0 && cwd != root && forall n :: n in PathTo(View(), cwd) ==> Plain(n)
      modifies this`dentries, this`buckets, this`order, this`depth
      ensures Valid() && (ret == 0 <==> Width(old(PathTo(View(), cwd))) <= size - 1)
      ensures ret != 0 ==> View() == old(View())
      ensures ret == 0 ==> (d == cwd <==> old(AllNewest(View(), cwd)))
      ensures old(AllNewest(View(), cwd)) ==> View() == old(View())
    {
      hide Hashed, Rooted, PathTo, Text, Walk, Split, AllNewest, Plain;
      var buf;
      ret, buf := Getcwd(size, true);
      PathFacts();
      if ret != 0 { return -1, 0; }
      ghost var v := View();
      var r;
      ghost var allocs;
      r, d, allocs := PathWalk(buf);
      RoundTrip(v, cwd, allocs);
      if r != 0 { d := 0; }
    }

    lemma PathFacts()
      requires Valid() && cwd != 0 && cwd != root
      ensures Rooted(View()) && cwd in dentries && Width(PathTo(View(), cwd)) > 0 && 0 !in Text(PathTo(View(), cwd))
      ensures |Text(PathTo(View(), cwd))| > 0 && Text(PathTo(View(), cwd))[0] == SLASH
    {
      NoNul(PathTo(View(), cwd));
    }

    /** No name on a path holds a NUL. */
    lemma NoNul(names: seq<Name>)
      requires Valid() && StartOf([]) in dentries && names == PathTo(View(), StartOf([]))
      ensures 0 !in Text(names)
    {
      forall n | n in names ensures 0 !in n { NamesFrom(View(), StartOf([]), n); }
      TextBytes(names);
    }

    ghost function StartOf(path: Name): nat
      reads this
    {
      if (|path| > 0 && path[0] == SLASH) || cwd == 0 then root else cwd
    }

    lemma StartIn(path: Name)
      requires Valid()
      ensures StartOf(path) in dentries && root in dentries
    {
    }
  }

  /** a and b print as the same path below the root, and walking it leads to b. */
  ghost predicate Hides(t: Tree, b: nat, a: nat, name: Name) {
    && Rooted(t) && a in t.dentries && b in t.dentries && a != b
    && PathTo(t, a) == PathTo(t, b) == [name] && !AllNewest(t, a)
    && forall allocs :: Walk(t, t.root, Split(Text([name])), allocs) == (t, b)
  }

  /** The same mkdir twice: the printed path of the first directory leads to the second. */
  method MkdirTwice(root: nat, name: Name) returns (ns: Namespace, a: nat, b: nat)
    requires root != 0 && Plain(name)
    ensures ns.Valid() && Hides(ns.View(), b, a, name)
  {
    hide HashOf, Plain, First, Bucket, Rooted, Namespace.Hashed, Hides, Newest;
    ns := new Namespace(root, true);
    NoNulIn(name);
    a := ns.MakeNode(root, name, Directory);
    b := ns.MakeNode(root, name, Directory);
    HiddenTwin(ns.View(), a, b, name);
  }

  /** Changing into a child and then to "..", from any directory: back where it began. */
  method Visit(ns: Namespace, name: Name) returns (into: int, back: int)
    requires ns.Valid() && Plain(name) && (if ns.cwd == 0 then ns.root else ns.cwd) in ns.dentries
    requires ns.dentries[if ns.cwd == 0 then ns.root else ns.cwd].kind == Directory
    modifies ns
    ensures ns.Valid() && (into == 0 ==> back == 0 && ns.cwd == if old(ns.cwd) == 0 then ns.root else old(ns.cwd))
  {
    hide Rooted, Namespace.Hashed, Plain, Walk, Split;
    ghost var t, d := ns.View(), ns.StartOf([]);
    ghost var allocs, more;
    back := -1;
    PlainPath(name);
    into, allocs := ns.Chdir(name);
    if into != 0 { return; }
    ChildOf(t, d, name, allocs);
    ghost var u, r := ns.View(), ns.cwd;
    UpPath();
    back, more := ns.Chdir([0x2E, 0x2E]);
    WalkUp(u, r, more);
  }

  lemma PlainPath(name: Name)
    requires Plain(name)
    ensures Split(name) == [name] && 0 !in name && name[0] != SLASH
  {
    assert name + [] == name;
    SplitOne(name, []);
    SplitNothing();
    assert name[0] in name;
  }

  lemma UpPath()
    ensures Split([DOT, DOT]) == [[DOT, DOT]] && 0 !in [DOT, DOT]
  {
    var up: Name := [DOT, DOT];
    assert up + [] == up;
    SplitOne(up, []);
    SplitNothing();
  }

  /** vfs_getcwd in the root with a buffer of one byte succeeds, and the text with its NUL takes two. */
  method RootInOneByte(root: nat) returns (ret: int, buf: Name)
    requires root != 0
    ensures ret == 0 && |buf| + 1 == 2
  {
    hide HashOf, Bucket, Rooted, Namespace.Hashed;
    var ns := new Namespace(root, true);
    ret, buf := ns.Getcwd(1, true);
  }

  /** Two directories of one name in the root: the newer one hides the other. */
  lemma HiddenTwin(t: Tree, a: nat, b: nat, name: Name)
    requires Rooted(t) && a in t.dentries && b in t.dentries && a != b && Newest(t, b) && Plain(name)
    requires t.dentries[a].parent == t.root == t.dentries[b].parent && t.dentries[a].name == name == t.dentries[b].name
    ensures Hides(t, b, a, name)
  {
    hide Plain, Split, Text, Walk, First, PathTo, AllNewest;
    ChildPath(t, a);
    ChildPath(t, b);
    forall allocs ensures Walk(t, t.root, Split(Text([name])), allocs) == (t, b) {
      RoundTrip(t, b, allocs);
    }
  }

  lemma NoNulIn(n: Name)
    requires Plain(n)
    ensures 0 !in n
  {
  }

  /** A child of the root. */
  lemma ChildPath(t: Tree, d: nat)
    requires Rooted(t) && d in t.dentries && t.dentries[d].parent == t.root
    ensures PathTo(t, d) == [t.dentries[d].name] && (AllNewest(t, d) <==> Newest(t, d))
  {
    hide First;
    assert t.depth[d] == 1 && PathTo(t, t.root) == [] && Ancestor(t, d, 1) == d;
  }

  /** A dentry is in its hash slot exactly when it is hashed. */
  lemma {:induction false} BucketHolds(a: map<nat, Dentry>, order: seq<nat>, d: nat)
    requires d in a
    ensures d in Bucket(a, order, a[d].hash) <==> d in order
  {
    if order != [] { BucketHolds(a, order[1..], d); }
  }

  lemma KindRooted(t: Tree, d: nat, kind: Kind)
    requires Rooted(t) && d in t.dentries
    ensures Rooted(t.(dentries := t.dentries[d := t.dentries[d].(kind := kind)]))
  {
  }

  /** Go ended in tree t at r, with the allocations in rest left if it did not fail. */
  ghost predicate Went(g: (Tree, nat, seq<nat>), t: Tree, r: nat, rest: seq<nat>) {
    g.0 == t && g.1 == r && (r != 0 ==> g.2 == rest)
  }

  /** A name and its slash in front of position pos. */
  method Prepend(temp: array<bv8>, pos: nat, name: Name) returns (at: nat)
    requires |name| + 1 <= pos < temp.Length
    modifies temp
    ensures at == pos - |name| - 1 && temp[temp.Length - 1] == old(temp[temp.Length - 1])
    ensures temp[at..temp.Length - 1] == [SLASH] + name + old(temp[pos..temp.Length - 1])
  {
    at := pos - |name|;
    forall k | 0 <= k < |name| {
      temp[at + k] := name[k];
    }
    at := at - 1;
    temp[at] := SLASH;
  }

  /** strcpy from position pos. */
  method Strcpy(temp: array<bv8>, pos: nat) returns (buf: Name)
    requires pos < temp.Length && temp[temp.Length - 1] == 0 && 0 !in temp[pos..temp.Length - 1]
    ensures buf == temp[pos..temp.Length - 1]
  {
    forall k | pos <= k < temp.Length - 1 ensures temp[k] != 0 {
      assert temp[k] == temp[pos..temp.Length - 1][k - pos];
    }
    var i := pos;
    buf := [];
    while temp[i] != 0
      invariant pos <= i < temp.Length && buf == temp[pos..i]
      decreases temp.Length - i
    {
      buf := buf + [temp[i]];
      i := i + 1;
    }
  }

  lemma TextNothing()
    ensures Text([]) == []
  {
  }

  lemma {:induction false} TextBytes(names: seq<Name>)
    requires forall n: Name :: n in names ==> 0 !in n
    ensures 0 !in Text(names)
  {
    if names != [] {
      assert names[0] in names;
      TextBytes(names[1..]);
    }
  }

  lemma {:induction false} NamesFrom(t: Tree, d: nat, n: Name)
    requires Rooted(t) && d in t.dentries && n in PathTo(t, d)
    ensures exists e :: e in t.dentries && t.dentries[e].name == n
    decreases t.depth[d]
  {
    if n != t.dentries[d].name { NamesFrom(t, t.dentries[d].parent, n); }
  }

  lemma PathStep(t: Tree, d: nat, names: seq<Name>, k: nat)
    requires Rooted(t) && d in t.dentries && d != t.root && k <= |names| && PathTo(t, d) == names[..k]
    ensures k > 0 && t.dentries[d].parent in t.dentries && t.dentries[d].parent != d
    ensures PathTo(t, t.dentries[d].parent) == names[..k - 1] && names[k - 1] == t.dentries[d].name
    ensures Text(names[k - 1..]) == [SLASH] + t.dentries[d].name + Text(names[k..])
  {
    hide Text;
    var q, name := PathTo(t, t.dentries[d].parent), t.dentries[d].name;
    LastName(q, name, names, k);
    hide PathTo, Rooted;
    TextFrom(names, k - 1);
  }

  lemma LastName(q: seq<Name>, name: Name, names: seq<Name>, k: nat)
    requires k <= |names| && q + [name] == names[..k]
    ensures k > 0 && q == names[..k - 1] && name == names[k - 1]
  {
    assert |q| == k - 1;
    assert q == (q + [name])[..k - 1] == names[..k][..k - 1];
    assert name == (q + [name])[k - 1];
  }

  lemma TextFrom(names: seq<Name>, i: nat)
    requires i < |names|
    ensures Text(names[i..]) == [SLASH] + names[i] + Text(names[i + 1..])
  {
    assert names[i..][1..] == names[i + 1..];
  }

  lemma PathEnd(t: Tree, d: nat, names: seq<Name>, k: nat)
    requires Rooted(t) && d in t.dentries && k <= |names| && PathTo(t, d) == names[..k]
    ensures t.dentries[d].parent != d
    ensures d == t.root ==> k == 0 && names[k..] == names
  {
  }

  /** What follows position k is no wider than the whole. */
  lemma TooWide(names: seq<Name>, k: nat)
    requires k < |names|
    ensures Width(names) >= |names[k]| + 1 + |Text(names[k + 1..])|
  {
    TextWidth(names);
    assert names == names[..k] + names[k..];
    TextAppend(names[..k], names[k..]);
    assert names[k..][1..] == names[k + 1..];
  }

  /** The scan to the end of a component. */
  method Component(path: Name, i: nat) returns (j: nat)
    requires i < |path|
    ensures i <= j <= |path| && SLASH !in path[i..j] && (j < |path| ==> path[j] == SLASH)
  {
    j := i;
    while j < |path| && path[j] != SLASH
      invariant i <= j <= |path| && SLASH !in path[i..j]
    {
      assert path[i..j + 1] == path[i..j] + [path[j]];
      j := j + 1;
    }
  }

  lemma WalkCons(t: Tree, d: nat, name: Name, more: seq<Name>, allocs: seq<nat>)
    requires Rooted(t) && d in t.dentries
    ensures var (u, r, rest) := Go(t, d, name, allocs);
      && Rooted(u) && (r != 0 ==> r in u.dentries)
      && Walk(t, d, [name] + more, allocs) == if r == 0 then (u, 0) else Walk(u, r, more, rest)
  {
    hide Go, Rooted;
    GoRooted(t, d, name, allocs);
    assert ([name] + more)[1..] == more;
  }

  lemma SplitNothing()
    ensures Split([]) == []
  {
  }

  lemma RootedUp(t: Tree, d: nat)
    requires Rooted(t) && d in t.dentries
    ensures d != t.root ==> t.dentries[d].parent in t.dentries
  {
  }

  lemma RootedParts(t: Tree)
    requires Rooted(t)
    ensures t.depth.Keys == t.dentries.Keys && 0 !in t.dentries && forall d :: d in t.order ==> d in t.dentries
  {
  }

  lemma AddRooted(t: Tree, d: nat, kind: Kind)
    requires Rooted(t) && d in t.dentries
    ensures Rooted(t.(order := [d] + t.order))
    ensures Rooted(t.(order := [d] + t.order, dentries := t.dentries[d := t.dentries[d].(kind := kind)]))
  {
  }

  lemma NewRooted(t: Tree, parent: nat, x: Dentry, d: nat)
    requires Rooted(t) && parent in t.dentries && d !in t.dentries && d != 0 && x.parent == parent
    ensures Rooted(t.(dentries := t.dentries[d := x], depth := t.depth[d := t.depth[parent] + 1]))
  {
  }

  lemma HashBound(parent: nat, name: Name)
    ensures HashOf(parent, name) < 1024
  {
  }
}
