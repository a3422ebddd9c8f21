/**
 kernel/fs/buffer.c: the block buffer cache.  Threads look a buffer up, allocate one privately if it is
 missing, look again and insert it; each critical section is one atomic step.
 */
module BufferCache {
  import opened Sequences

  datatype Key = Key(bdev: bv64, block: bv64, size: bv32)

  /** Where a back-pointer points: a hash slot or the next field of another buffer. */
  datatype Slot = Null | Bucket(h: int) | NextOf(b: nat)

  datatype Buffer = Buffer(key: Key, count: int, dirty: bool, next: nat, pprev: Slot)

  function Hash(key: Key): (h: int)
    ensures 0 <= h < 1024
  {
    ((key.bdev ^ key.block) & 0x3FF) as int
  }

  // ---------------------------------------------------------------- hash chains

  function Back(s: seq<nat>, i: nat, h: int): Slot
    requires i <= |s|
  {
    if i == 0 then Bucket(h) else NextOf(s[i - 1])
  }

  ghost predicate Node(bufs: map<nat, Buffer>, s: seq<nat>, i: nat, h: int)
    requires i < |s|
  {
    && s[i] != 0 && s[i] in bufs && bufs[s[i]].next == Nth(s, i + 1)
    && bufs[s[i]].pprev == Back(s, i, h) && Hash(bufs[s[i]].key) == h
  }

  ghost predicate Apart(bufs: map<nat, Buffer>, b: nat, c: nat) {
    b in bufs && c in bufs && bufs[b].key != bufs[c].key
  }

  /** The list from a hash slot: linked both ways, hashed right, and with distinct keys. */
  ghost predicate Chain(bufs: map<nat, Buffer>, head: nat, s: seq<nat>, h: int) {
    && head == Nth(s, 0)
    && (forall i: nat {:trigger Node(bufs, s, i, h)} :: i < |s| ==> Node(bufs, s, i, h))
    && (forall i: nat, j: nat {:trigger Apart(bufs, s[i], s[j])} :: i < j < |s| ==> Apart(bufs, s[i], s[j]))
  }

  ghost predicate Table(bufs: map<nat, Buffer>, heads: seq<nat>, chains: seq<seq<nat>>) {
    && |heads| == |chains| == 1024
    && forall h {:trigger chains[h]} :: 0 <= h < 1024 ==> Chain(bufs, heads[h], chains[h], h)
  }

  lemma ChainAt(bufs: map<nat, Buffer>, heads: seq<nat>, chains: seq<seq<nat>>, h: int)
    requires Table(bufs, heads, chains) && 0 <= h < 1024
    ensures Chain(bufs, heads[h], chains[h], h)
  {
  }

  lemma ChainFrame(a: map<nat, Buffer>, b: map<nat, Buffer>, head: nat, s: seq<nat>, h: int)
    requires Chain(a, head, s, h)
    requires forall p :: p in s && p in a ==>
               p in b && b[p].(count := 0, dirty := false) == a[p].(count := 0, dirty := false)
    ensures Chain(b, head, s, h)
  {
    forall i: nat | i < |s| ensures Node(b, s, i, h) && s[i] in a && b[s[i]].key == a[s[i]].key {
      assert Node(a, s, i, h);
      assert b[s[i]].(count := 0, dirty := false) == a[s[i]].(count := 0, dirty := false);
    }
    forall i: nat, j: nat | i < j < |s| ensures Apart(b, s[i], s[j]) { assert Apart(a, s[i], s[j]); }
  }

  lemma ChainNode(bufs: map<nat, Buffer>, head: nat, s: seq<nat>, h: int, i: nat)
    requires Chain(bufs, head, s, h) && i <= |s|
    ensures Nth(s, i) == 0 <==> i == |s|
    ensures i < |s| ==> Node(bufs, s, i, h)
  {
    if i < |s| { assert Node(bufs, s, i, h); }
  }

  lemma ChainMember(bufs: map<nat, Buffer>, head: nat, s: seq<nat>, h: int, b: nat)
    requires Chain(bufs, head, s, h) && b in s
    ensures b in bufs && b != 0 && Hash(bufs[b].key) == h
  {
    var i: nat :| i < |s| && s[i] == b;
    assert Node(bufs, s, i, h);
  }

  lemma ChainDistinct(bufs: map<nat, Buffer>, head: nat, s: seq<nat>, h: int, i: nat, j: nat)
    requires Chain(bufs, head, s, h) && i < |s| && j < |s| && i != j
    ensures s[i] in bufs && s[j] in bufs && bufs[s[i]].key != bufs[s[j]].key && s[i] != s[j]
  {
    if i < j { assert Apart(bufs, s[i], s[j]); } else { assert Apart(bufs, s[j], s[i]); }
  }

  // ---------------------------------------------------------------- insertion

  /** The link writes of getblk for a new buffer b at the head of a chain. */
  function Inserted(bufs: map<nat, Buffer>, b: nat, head: nat, h: int): map<nat, Buffer>
    requires b in bufs && (head != 0 ==> head in bufs)
  {
    var a := bufs[b := bufs[b].(next := head)];
    var c := if head != 0 then a[head := a[head].(pprev := NextOf(b))] else a;
    c[b := c[b].(pprev := Bucket(h))]
  }

  lemma InsertChain(bufs: map<nat, Buffer>, head: nat, s: seq<nat>, h: int, b: nat)
    requires Chain(bufs, head, s, h) && b in bufs && b !in s && b != 0 && Hash(bufs[b].key) == h
    requires forall c :: c in s && c in bufs ==> bufs[c].key != bufs[b].key
    ensures head != 0 ==> head in bufs && head != b && head in s
    ensures Chain(Inserted(bufs, b, head, h), b, [b] + s, h)
  {
    ChainNode(bufs, head, s, h, 0);
    var r, t := Inserted(bufs, b, head, h), [b] + s;
    forall i: nat | i < |t| ensures Node(r, t, i, h) {
      if i > 0 {
        assert Node(bufs, s, i - 1, h);
        if i > 1 { ChainDistinct(bufs, head, s, h, 0, i - 1); }
      }
    }
    forall i: nat, j: nat | i < j < |t| ensures Apart(r, t[i], t[j]) {
      assert Node(bufs, s, j - 1, h);
      if i > 0 { assert Apart(bufs, s[i - 1], s[j - 1]); }
    }
  }

  // ---------------------------------------------------------------- removal

  /** The neighbours of b that its links name are there. */
  predicate UnlinkReady(bufs: map<nat, Buffer>, b: nat) {
    && b in bufs && (bufs[b].next != 0 ==> bufs[b].next in bufs)
    && (bufs[b].pprev.NextOf? ==> bufs[b].pprev.b in bufs)
  }

  /** The link writes of brelse for the buffer b, without the write to a hash slot. */
  function Unlinked(bufs: map<nat, Buffer>, b: nat): map<nat, Buffer>
    requires UnlinkReady(bufs, b)
  {
    var x := bufs[b];
    var a := if x.next != 0 then bufs[x.next := bufs[x.next].(pprev := x.pprev)] else bufs;
    var c := if x.pprev.NextOf? then a[x.pprev.b := a[x.pprev.b].(next := x.next)] else a;
    map p | p in c && p != b :: c[p]
  }

  lemma UnlinkChain(bufs: map<nat, Buffer>, head: nat, s: seq<nat>, h: int, k: nat)
    requires Chain(bufs, head, s, h) && k < |s|
    ensures var b := s[k];
      && b in bufs && (bufs[b].next != 0 ==> bufs[b].next in bufs) && bufs[b].pprev == Back(s, k, h)
      && (bufs[b].pprev.NextOf? ==> bufs[b].pprev.b in bufs)
      && b !in Without(s, k)
      && Chain(Unlinked(bufs, b), if k == 0 then bufs[b].next else head, Without(s, k), h)
  {
    var b, t := s[k], Without(s, k);
    UnlinkFacts(bufs, head, s, h, k);
    hide Unlinked, Node;
    var r := Unlinked(bufs, b);
    forall i: nat | i < |t| ensures Node(r, t, i, h) {
      UnlinkNode(bufs, head, s, h, k, i);
    }
    forall i: nat, j: nat | i < j < |t| ensures Apart(r, t[i], t[j]) {
      ChainDistinct(bufs, head, s, h, if i < k then i else i + 1, if j < k then j else j + 1);
      UnlinkedKey(bufs, b, t[i]);
      UnlinkedKey(bufs, b, t[j]);
    }
  }

  lemma UnlinkFacts(bufs: map<nat, Buffer>, head: nat, s: seq<nat>, h: int, k: nat)
    requires Chain(bufs, head, s, h) && k < |s|
    ensures var b := s[k];
      && b in bufs && (bufs[b].next != 0 ==> bufs[b].next in bufs) && bufs[b].pprev == Back(s, k, h)
      && (bufs[b].pprev.NextOf? ==> bufs[b].pprev.b in bufs)
      && bufs[b].next == Nth(s, k + 1) && head == s[0]
      && forall i :: 0 <= i < |s| - 1 ==> Without(s, k)[i] != b
  {
    hide Chain;
    ChainNode(bufs, head, s, h, k);
    assert head == Nth(s, 0) by { ChainHead(bufs, head, s, h); }
    if k > 0 { ChainNode(bufs, head, s, h, k - 1); }
    if k + 1 < |s| { ChainNode(bufs, head, s, h, k + 1); }
    forall i: nat | i < |s| - 1 ensures Without(s, k)[i] != s[k] {
      ChainDistinct(bufs, head, s, h, if i < k then i else i + 1, k);
    }
  }

  lemma ChainHead(bufs: map<nat, Buffer>, head: nat, s: seq<nat>, h: int)
    requires Chain(bufs, head, s, h)
    ensures head == Nth(s, 0)
  {
  }

  lemma UnlinkedKey(bufs: map<nat, Buffer>, b: nat, c: nat)
    requires b in bufs && (bufs[b].next != 0 ==> bufs[b].next in bufs)
    requires bufs[b].pprev.NextOf? ==> bufs[b].pprev.b in bufs
    requires c in bufs && c != b
    ensures var r := Unlinked(bufs, b);
      c in r && r[c].key == bufs[c].key && r[c].count == bufs[c].count && r[c].dirty == bufs[c].dirty
  {
  }

  /** The other buffers, link by link. */
  lemma UnlinkedAt(bufs: map<nat, Buffer>, b: nat, c: nat)
    requires UnlinkReady(bufs, b) && c in bufs && c != b && c != 0
    ensures var x, y, r := bufs[b], bufs[c], Unlinked(bufs, b);
      && c in r && r[c].key == y.key && r[c].pprev == (if c == x.next then x.pprev else y.pprev)
      && r[c].next == if x.pprev == NextOf(c) then x.next else y.next
  {
  }

  lemma UnlinkNode(bufs: map<nat, Buffer>, head: nat, s: seq<nat>, h: int, k: nat, i: nat)
    requires Chain(bufs, head, s, h) && k < |s| && i < |s| - 1
    requires s[k] in bufs && (bufs[s[k]].next != 0 ==> bufs[s[k]].next in bufs)
    requires bufs[s[k]].pprev.NextOf? ==> bufs[s[k]].pprev.b in bufs
    ensures Node(Unlinked(bufs, s[k]), Without(s, k), i, h)
  {
    hide Chain, Unlinked;
    var j := if i < k then i else i + 1;
    UnlinkedAt(bufs, s[k], s[j]) by { ChainNode(bufs, head, s, h, j); ChainDistinct(bufs, head, s, h, j, k); }
    ChainNode(bufs, head, s, h, k);
    ChainNode(bufs, head, s, h, j);
    ChainDistinct(bufs, head, s, h, j, k);
    if k > 0 && j != k - 1 { ChainDistinct(bufs, head, s, h, j, k - 1); }
    if k + 1 < |s| && j != k + 1 { ChainDistinct(bufs, head, s, h, j, k + 1); }
    if 0 < k < |s| - 1 { ChainDistinct(bufs, head, s, h, k - 1, k + 1); }
  }

  // ---------------------------------------------------------------- the whole table

  lemma InsertTable(bufs: map<nat, Buffer>, heads: seq<nat>, chains: seq<seq<nat>>, b: nat)
    requires Table(bufs, heads, chains) && b in bufs && b != 0 && b !in chains[Hash(bufs[b].key)]
    requires forall c :: c in chains[Hash(bufs[b].key)] && c in bufs ==> bufs[c].key != bufs[b].key
    ensures var h := Hash(bufs[b].key);
      && |heads| == |chains| == 1024 && (heads[h] != 0 ==> heads[h] in bufs && heads[h] != b)
      && Table(Inserted(bufs, b, heads[h], h), heads[h := b], chains[h := [b] + chains[h]])
  {
    hide Chain, Hash;
    var h := Hash(bufs[b].key);
    ChainAt(bufs, heads, chains, h);
    InsertChain(bufs, heads[h], chains[h], h, b);
    if heads[h] != 0 { ChainMember(bufs, heads[h], chains[h], h, heads[h]); }
    var r := Inserted(bufs, b, heads[h], h);
    forall g | 0 <= g < 1024 && g != h ensures Chain(r, heads[g], chains[g], g) {
      ChainAt(bufs, heads, chains, g);
      forall p | p in chains[g] ensures p in bufs && Hash(bufs[p].key) == g {
        ChainMember(bufs, heads[g], chains[g], g, p);
      }
      ChainFrame(bufs, r, heads[g], chains[g], g);
    }
  }

  lemma UnlinkTable(bufs: map<nat, Buffer>, heads: seq<nat>, chains: seq<seq<nat>>, b: nat, k: nat)
    requires Table(bufs, heads, chains) && b in bufs && k < |chains[Hash(bufs[b].key)]|
    requires chains[Hash(bufs[b].key)][k] == b
    ensures var h := Hash(bufs[b].key);
      && |heads| == |chains| == 1024 && (bufs[b].next != 0 ==> bufs[b].next in bufs && bufs[b].next != b)
      && bufs[b].pprev == Back(chains[h], k, h)
      && (bufs[b].pprev.NextOf? ==> bufs[b].pprev.b in bufs && bufs[b].pprev.b != b)
      && b !in Without(chains[h], k)
      && Table(Unlinked(bufs, b), if k == 0 then heads[h := bufs[b].next] else heads,
               chains[h := Without(chains[h], k)])
  {
    hide Chain, Hash;
    var h := Hash(bufs[b].key);
    var s := chains[h];
    ChainAt(bufs, heads, chains, h);
    UnlinkChain(bufs, heads[h], s, h, k);
    ChainNode(bufs, heads[h], s, h, k);
    if k > 0 { ChainMember(bufs, heads[h], s, h, s[k - 1]); ChainDistinct(bufs, heads[h], s, h, k - 1, k); }
    if k + 1 < |s| { ChainMember(bufs, heads[h], s, h, s[k + 1]); ChainDistinct(bufs, heads[h], s, h, k + 1, k); }
    var r := Unlinked(bufs, b);
    forall g | 0 <= g < 1024 && g != h ensures Chain(r, heads[g], chains[g], g) {
      ChainAt(bufs, heads, chains, g);
      forall p | p in chains[g] ensures p in bufs && Hash(bufs[p].key) == g {
        ChainMember(bufs, heads[g], chains[g], g, p);
      }
      ChainFrame(bufs, r, heads[g], chains[g], g);
    }
  }

  /** Changing counts and dirty flags, or buffers on no chain, changes no chain. */
  lemma TableFrame(a: map<nat, Buffer>, b: map<nat, Buffer>, heads: seq<nat>, chains: seq<seq<nat>>)
    requires Table(a, heads, chains)
    requires forall p :: p in a && p in chains[Hash(a[p].key)] ==>
               p in b && b[p].(count := 0, dirty := false) == a[p].(count := 0, dirty := false)
    ensures Table(b, heads, chains)
  {
    hide Chain, Hash;
    forall g | 0 <= g < 1024 ensures Chain(b, heads[g], chains[g], g) {
      ChainAt(a, heads, chains, g);
      forall p | p in chains[g] ensures p in a && Hash(a[p].key) == g { ChainMember(a, heads[g], chains[g], g, p); }
      ChainFrame(a, b, heads[g], chains[g], g);
    }
  }

  /** At most one cached buffer has a given device, block and size. */
  lemma AtMostOne(bufs: map<nat, Buffer>, heads: seq<nat>, chains: seq<seq<nat>>, b: nat, c: nat)
    requires Table(bufs, heads, chains) && b in bufs && c in bufs && bufs[b].key == bufs[c].key
    requires b in chains[Hash(bufs[b].key)] && c in chains[Hash(bufs[c].key)]
    ensures b == c
  {
    hide Hash;
    var h := Hash(bufs[b].key);
    ChainAt(bufs, heads, chains, h);
    var i: nat :| i < |chains[h]| && chains[h][i] == b;
    var j: nat :| j < |chains[h]| && chains[h][j] == c;
    if i != j { ChainDistinct(bufs, heads[h], chains[h], h, i, j); }
  }

  // ---------------------------------------------------------------- references

  /** A private buffer is on no chain and has its allocator's reference; a cached one is on its chain and
      counts the references handed out for it. */
  ghost predicate Account(bufs: map<nat, Buffer>, chains: seq<seq<nat>>, private: set<nat>, held: multiset<nat>, b: nat)
    requires |chains| == 1024 && b in bufs
  {
    if b in private then bufs[b].count == 1 && b !in chains[Hash(bufs[b].key)]
    else b in chains[Hash(bufs[b].key)] && bufs[b].count == held[b]
  }

  ghost predicate Accounted(bufs: map<nat, Buffer>, chains: seq<seq<nat>>, private: set<nat>, held: multiset<nat>) {
    && |chains| == 1024 && private <= bufs.Keys
    && (forall b {:trigger Account(bufs, chains, private, held, b)} :: b in bufs ==>
          Account(bufs, chains, private, held, b))
    && (forall b :: b in held ==> b in bufs && b !in private)
  }

  class Cache {
    var heads: seq<nat>
    var bufs: map<nat, Buffer>
    var count: int
    ghost var chains: seq<seq<nat>>
    ghost var private: set<nat>
    ghost var held: multiset<nat>
    ghost var lost: nat

    ghost predicate Valid()
      reads this
    {
      && 0 !in bufs && Table(bufs, heads, chains) && Accounted(bufs, chains, private, held)
      && count == |bufs| + lost
    }

    ghost predicate Cached(b: nat)
      reads this
    {
      b in bufs && b !in private
    }

    /** buffer_init. */
    constructor ()
      ensures Valid() && bufs == map[] && private == {} && held == multiset{} && lost == 0
    {
      heads, chains := seq(1024, i => 0), seq(1024, i => []);
      bufs, count := map[], 0;
      private, held, lost := {}, multiset{}, 0;
    }

    /** The scan of a hash chain for a key. */
    method Scan(key: Key) returns (b: nat)
      requires Valid()
      ensures b != 0 ==> Cached(b) && bufs[b].key == key
      ensures b == 0 ==> forall c :: Cached(c) ==> bufs[c].key != key
    {
      hide Chain, Hash;
      var h := Hash(key);
      ChainAt(bufs, heads, chains, h);
      ghost var s, i: nat := chains[h], 0;
      ChainNode(bufs, heads[h], s, h, 0);
      b := heads[h];
      while b != 0
        invariant i <= |s| && b == Nth(s, i)
        invariant forall j: nat :: j < i ==> s[j] in bufs && bufs[s[j]].key != key
        decreases |s| - i
      {
        ChainNode(bufs, heads[h], s, h, i);
        if bufs[b].key == key {
          assert Account(bufs, chains, private, held, b);
          return;
        }
        b := bufs[b].next;
        i := i + 1;
      }
      ChainNode(bufs, heads[h], s, h, i);
      forall c | Cached(c) ensures bufs[c].key != key {
        assert Account(bufs, chains, private, held, c);
      }
    }

    /** __find_get_block: a new reference to the cached buffer, or 0 exactly when the key is not cached. */
    method FindGet(key: Key) returns (b: nat)
      requires Valid()
      modifies this`bufs, this`held
      ensures Valid()
      ensures b == 0 <==> forall c :: old(Cached(c)) ==> old(bufs)[c].key != key
      ensures b == 0 ==> bufs == old(bufs) && held == old(held)
      ensures b != 0 ==> old(Cached(b)) && Cached(b) && bufs[b].key == key && held == old(held) + multiset{b}
      ensures b != 0 ==> bufs == old(bufs)[b := old(bufs)[b].(count := old(bufs)[b].count + 1)]
    {
      hide Table;
      b := Scan(key);
      if b != 0 { Grab(b); }
    }

    /** One more reference to a cached buffer. */
    method Grab(b: nat)
      requires Valid() && Cached(b)
      modifies this`bufs, this`held
      ensures Valid() && held == old(held) + multiset{b}
      ensures bufs == old(bufs)[b := old(bufs)[b].(count := old(bufs)[b].count + 1)]
    {
      hide Table, Accounted, Hash;
      ghost var bufs0 := bufs;
      AccountCount(bufs, chains, private, held, b, held + multiset{b});
      bufs := bufs[b := bufs[b].(count := bufs[b].count + 1)];
      held := held + multiset{b};
      TableFrame(bufs0, bufs, heads, chains);
      assert bufs.Keys == bufs0.Keys;
    }

    /** alloc_buffer_head: a private buffer with one reference, counted at once; addr is 0 when memory is short. */
    method Alloc(key: Key, addr: nat) returns (b: nat)
      requires Valid() && (addr != 0 ==> addr !in bufs)
      modifies this`bufs, this`count, this`private
      ensures Valid() && b == addr
      ensures if b == 0 then bufs == old(bufs) && private == old(private) && count == old(count)
              else
                && bufs == old(bufs)[b := Buffer(key, 1, false, 0, Null)]
                && private == old(private) + {b} && count == old(count) + 1
    {
      hide Table, Accounted, Hash;
      if addr == 0 { return 0; }
      b := addr;
      ghost var bufs0 := bufs;
      AccountNew(bufs, heads, chains, private, held, b, Buffer(key, 1, false, 0, Null));
      bufs := bufs[b := Buffer(key, 1, false, 0, Null)];
      private := private + {b};
      count := count + 1;
      TableFrame(bufs0, bufs, heads, chains);
      assert bufs.Keys == bufs0.Keys + {b};
    }

    /** The second half of getblk: if another thread cached the key in between, its buffer is returned and the
        private one freed, without taking it off the count; otherwise the private buffer is cached. */
    method Publish(b: nat) returns (r: nat)
      requires Valid() && b in private
      modifies this`heads, this`bufs, this`chains, this`private, this`held, this`lost
      ensures Valid() && private == old(private) - {b} && held == old(held) + multiset{r}
      ensures b in old(bufs) && Cached(r) && bufs[r].key == old(bufs)[b].key
      ensures r == b <==> forall c :: old(Cached(c)) ==> old(bufs)[c].key != old(bufs)[b].key
      ensures r == b ==> lost == old(lost) && bufs.Keys == old(bufs).Keys
      ensures r != b ==> old(Cached(r)) && b !in bufs && lost == old(lost) + 1 && bufs.Keys == old(bufs).Keys - {b}
      ensures forall c :: c in bufs && c != r ==> c in old(bufs) && SameUser(bufs[c], old(bufs)[c])
      ensures r in old(bufs) && old(bufs)[r].key == old(bufs)[b].key
      ensures bufs[r].count == (if r == b then 1 else old(bufs)[r].count + 1) && bufs[r].dirty == old(bufs)[r].dirty
    {
      hide Table, Accounted, Hash, Inserted;
      PrivateFacts(b);
      r := Scan(bufs[b].key);
      if r != 0 {
        Grab(r);
        DropPrivate(b);
        return;
      }
      r := b;
      Insert(b);
    }

    lemma PrivateFacts(b: nat)
      requires Valid() && b in private
      ensures b in bufs && b != 0 && bufs[b].count == 1
    {
      assert Account(bufs, chains, private, held, b);
    }

    /** The loser of the race frees its private buffer. */
    method DropPrivate(b: nat)
      requires Valid() && b in private
      modifies this`bufs, this`private, this`lost
      ensures Valid() && private == old(private) - {b} && lost == old(lost) + 1
      ensures bufs == (map p | p in old(bufs) && p != b :: old(bufs)[p])
    {
      hide Table, Accounted, Hash;
      PrivateFacts(b);
      ghost var bufs0 := bufs;
      AccountDrop(bufs, chains, private, held, b);
      bufs := map p | p in bufs && p != b :: bufs[p];
      private := private - {b};
      lost := lost + 1;
      TableFrame(bufs0, bufs, heads, chains);
      assert bufs0.Keys == bufs.Keys + {b};
    }

    method Insert(b: nat)
      requires Valid() && b in private && forall c :: Cached(c) ==> bufs[c].key != bufs[b].key
      modifies this`heads, this`bufs, this`chains, this`private, this`held
      ensures Valid() && private == old(private) - {b} && held == old(held) + multiset{b}
      ensures bufs.Keys == old(bufs).Keys && forall c :: c in bufs ==> SameUser(bufs[c], old(bufs)[c])
    {
      hide Table, Accounted, Hash, Inserted;
      ghost var bufs0 := bufs;
      PrivateFacts(b);
      var h := Hash(bufs[b].key);
      AccountMiss(bufs, heads, chains, private, held, b);
      InsertTable(bufs, heads, chains, b);
      AccountInsert(bufs, chains, private, held, b, heads[h]);
      InsertedUsers(bufs, b, heads[h], h);
      LinkIn(b, h);
      chains := chains[h := [b] + chains[h]];
      private := private - {b};
      held := held + multiset{b};
    }

    /** The pointer writes of getblk at the front of a hash slot. */
    method LinkIn(b: nat, h: nat)
      requires b in bufs && h < |heads| && (heads[h] != 0 ==> heads[h] in bufs && heads[h] != b)
      modifies this`heads, this`bufs
      ensures bufs == Inserted(old(bufs), b, old(heads)[h], h) && heads == old(heads)[h := b]
    {
      bufs := bufs[b := bufs[b].(next := heads[h])];
      if heads[h] != 0 {
        bufs := bufs[heads[h] := bufs[heads[h]].(pprev := NextOf(b))];
      }
      bufs := bufs[b := bufs[b].(pprev := Bucket(h))];
      heads := heads[h := b];
    }

    /** brelse: one reference less.  The last reference to a clean buffer frees it exactly when the count is
        above 1024. */
    method Brelse(b: nat)
      requires Valid() && (b != 0 ==> b in held)
      modifies this`heads, this`bufs, this`count, this`chains, this`held
      ensures Valid()
      ensures b == 0 ==> bufs == old(bufs) && held == old(held) && count == old(count)
      ensures b != 0 ==> b in old(bufs) && held == old(held) - multiset{b}
      ensures b != 0 ==> (b !in bufs <==> old(held)[b] == 1 && !old(bufs)[b].dirty && old(count) > 1024)
      ensures b != 0 && b in bufs ==> count == old(count)
      ensures b != 0 && b in bufs ==> bufs == old(bufs)[b := old(bufs)[b].(count := old(bufs)[b].count - 1)]
      ensures b != 0 && b !in bufs ==> count == old(count) - 1 && bufs.Keys == old(bufs).Keys - {b}
      ensures forall c :: c in old(bufs) && c != b ==> c in bufs && SameUser(bufs[c], old(bufs)[c])
    {
      hide Table, Accounted, Hash;
      if b == 0 { return; }
      Drop(b);
      if bufs[b].count == 0 {
        if !bufs[b].dirty && count > 1024 {
          Free(b);
        }
      }
    }

    /** One reference less. */
    method Drop(b: nat)
      requires Valid() && b in held
      modifies this`bufs, this`held
      ensures Valid() && Cached(b) && b in old(bufs) && held == old(held) - multiset{b}
      ensures old(bufs)[b].count == old(held)[b]
      ensures bufs == old(bufs)[b := old(bufs)[b].(count := old(bufs)[b].count - 1)]
    {
      hide Table, Accounted, Hash;
      HeldFacts(b);
      ghost var bufs0 := bufs;
      AccountCount(bufs, chains, private, held, b, held - multiset{b});
      bufs := bufs[b := bufs[b].(count := bufs[b].count - 1)];
      held := held - multiset{b};
      TableFrame(bufs0, bufs, heads, chains);
      assert bufs.Keys == bufs0.Keys;
    }

    lemma HeldFacts(b: nat)
      requires Valid() && b in held
      ensures Cached(b) && b != 0
    {
    }

    /** Unlink a buffer through its back-pointer and free it. */
    method Free(b: nat)
      requires Valid() && Cached(b) && b !in held
      modifies this`heads, this`bufs, this`count, this`chains
      ensures Valid() && count == old(count) - 1 && bufs.Keys == old(bufs).Keys - {b}
      ensures forall c :: c in bufs ==> SameUser(bufs[c], old(bufs)[c])
    {
      hide Table, Accounted, Hash, Unlinked;
      ghost var bufs0 := bufs;
      ghost var k := AccountPosition(bufs, chains, private, held, b);
      UnlinkTable(bufs, heads, chains, b, k);
      AccountFree(bufs, chains, private, held, b, k);
      Unlink(b, k);
      count := count - 1;
      assert bufs0.Keys == bufs.Keys + {b};
    }

    /** The unlinking and the kfree of brelse: the buffer leaves its chain, all other chains and all other
        buffers' keys, counts and dirty flags stay, and every link and back-pointer is right again. */
    method Unlink(b: nat, ghost k: nat)
      requires Table(bufs, heads, chains) && b in bufs
      requires k < |chains[Hash(bufs[b].key)]| && chains[Hash(bufs[b].key)][k] == b
      modifies this`heads, this`bufs, this`chains
      ensures Table(bufs, heads, chains)
      ensures var h := Hash(old(bufs)[b].key); chains == old(chains)[h := Without(old(chains)[h], k)] && b !in chains[h]
      ensures bufs.Keys == old(bufs).Keys - {b} && forall c :: c in bufs ==> SameUser(bufs[c], old(bufs)[c])
      ensures UnlinkReady(old(bufs), b) && bufs == Unlinked(old(bufs), b)
    {
      hide Table, Hash, Unlinked;
      ghost var h := Hash(bufs[b].key);
      UnlinkTable(bufs, heads, chains, b, k);
      UnlinkedUsers(bufs, b);
      Relink(b);
      chains := chains[h := Without(chains[h], k)];
    }

    /** The pointer writes of brelse and the kfree. */
    method Relink(b: nat)
      requires b in bufs && (bufs[b].next != 0 ==> bufs[b].next in bufs && bufs[b].next != b)
      requires bufs[b].pprev.NextOf? ==> bufs[b].pprev.b in bufs && bufs[b].pprev.b != b
      requires bufs[b].pprev.Bucket? ==> 0 <= bufs[b].pprev.h < |heads|
      modifies this`heads, this`bufs
      ensures bufs == Unlinked(old(bufs), b)
      ensures heads == match old(bufs)[b].pprev
                       case Bucket(g) => old(heads)[g := old(bufs)[b].next]
                       case _ => old(heads)
    {
      var x := bufs[b];
      if x.next != 0 {
        bufs := bufs[x.next := bufs[x.next].(pprev := x.pprev)];
      }
      match x.pprev {
        case Null =>
        case Bucket(g) => heads := heads[g := x.next];
        case NextOf(p) => bufs := bufs[p := bufs[p].(next := x.next)];
      }
      bufs := map p | p in bufs && p != b :: bufs[p];
    }

    /** A holder marks a buffer dirty, or writes it back and clears the mark. */
    method SetDirty(b: nat, dirty: bool)
      requires Valid() && b in held
      modifies this`bufs
      ensures Valid() && b in old(bufs) && bufs == old(bufs)[b := old(bufs)[b].(dirty := dirty)]
    {
      hide Table, Hash, Chain;
      ghost var bufs0 := bufs;
      bufs := bufs[b := bufs[b].(dirty := dirty)];
      TableFrame(bufs0, bufs, heads, chains);
      forall c | c in bufs ensures Account(bufs, chains, private, held, c) {
        assert Account(bufs0, chains, private, held, c);
      }
      assert bufs.Keys == bufs0.Keys;
    }
  }

  lemma InsertedUsers(bufs: map<nat, Buffer>, b: nat, head: nat, h: int)
    requires b in bufs && (head != 0 ==> head in bufs && head != b)
    ensures Inserted(bufs, b, head, h).Keys == bufs.Keys
    ensures |Inserted(bufs, b, head, h)| == |bufs|
    ensures forall c :: c in bufs ==> SameUser(Inserted(bufs, b, head, h)[c], bufs[c])
  {
    var r := Inserted(bufs, b, head, h);
    assert r.Keys == bufs.Keys;
    assert |r| == |r.Keys| && |bufs| == |bufs.Keys|;
  }

  lemma UnlinkedUsers(bufs: map<nat, Buffer>, b: nat)
    requires b in bufs && (bufs[b].next != 0 ==> bufs[b].next in bufs)
    requires bufs[b].pprev.NextOf? ==> bufs[b].pprev.b in bufs
    ensures Unlinked(bufs, b).Keys == bufs.Keys - {b}
    ensures forall c :: c in bufs && c != b ==> c in Unlinked(bufs, b) && SameUser(Unlinked(bufs, b)[c], bufs[c])
  {
    forall c | c in bufs && c != b ensures c in Unlinked(bufs, b) && SameUser(Unlinked(bufs, b)[c], bufs[c]) {
      UnlinkedKey(bufs, b, c);
    }
  }

  /** The two buffers have the same identity, references and contents flag. */
  ghost predicate SameUser(a: Buffer, b: Buffer) {
    a.key == b.key && a.count == b.count && a.dirty == b.dirty
  }

  // ---------------------------------------------------------------- accounting, step by step

  /** A changed reference count that matches a changed set of references. */
  lemma AccountCount(bufs: map<nat, Buffer>, chains: seq<seq<nat>>, private: set<nat>, held: multiset<nat>, b: nat,
                     held': multiset<nat>)
    requires Accounted(bufs, chains, private, held) && b in bufs && b !in private
    requires forall c :: c != b ==> held'[c] == held[c]
    ensures Accounted(bufs[b := bufs[b].(count := held'[b])], chains, private, held') && bufs[b].count == held[b]
  {
    hide Hash;
    var r := bufs[b := bufs[b].(count := held'[b])];
    forall c | c in r ensures Account(r, chains, private, held', c) { assert Account(bufs, chains, private, held, c); }
    assert Account(bufs, chains, private, held, b);
    forall c | c in held' ensures c in r && c !in private { assert c != b ==> c in held; }
  }

  lemma AccountNew(bufs: map<nat, Buffer>, heads: seq<nat>, chains: seq<seq<nat>>, private: set<nat>,
                   held: multiset<nat>, b: nat, x: Buffer)
    requires Accounted(bufs, chains, private, held) && Table(bufs, heads, chains) && b !in bufs && x.count == 1
    ensures Accounted(bufs[b := x], chains, private + {b}, held)
  {
    hide Hash, Chain;
    var r := bufs[b := x];
    ChainAt(bufs, heads, chains, Hash(x.key));
    if b in chains[Hash(x.key)] {
      ChainMember(bufs, heads[Hash(x.key)], chains[Hash(x.key)], Hash(x.key), b);
      assert false;
    }
    forall c | c in r ensures Account(r, chains, private + {b}, held, c) {
      if c != b { assert Account(bufs, chains, private, held, c); }
    }
  }

  lemma AccountDrop(bufs: map<nat, Buffer>, chains: seq<seq<nat>>, private: set<nat>, held: multiset<nat>, b: nat)
    requires Accounted(bufs, chains, private, held) && b in private
    ensures Accounted(map p | p in bufs && p != b :: bufs[p], chains, private - {b}, held)
    ensures b in bufs && b !in chains[Hash(bufs[b].key)]
  {
    hide Hash;
    var r := map p | p in bufs && p != b :: bufs[p];
    assert Account(bufs, chains, private, held, b);
    forall c | c in r ensures Account(r, chains, private - {b}, held, c) {
      assert Account(bufs, chains, private, held, c);
    }
  }

  /** What a failed scan says about the chain of a private buffer. */
  lemma AccountMiss(bufs: map<nat, Buffer>, heads: seq<nat>, chains: seq<seq<nat>>, private: set<nat>,
                    held: multiset<nat>, b: nat)
    requires Accounted(bufs, chains, private, held) && Table(bufs, heads, chains) && b in private
    requires forall c :: c in bufs && c !in private ==> bufs[c].key != bufs[b].key
    ensures b !in chains[Hash(bufs[b].key)]
    ensures forall c :: c in chains[Hash(bufs[b].key)] && c in bufs ==> bufs[c].key != bufs[b].key
  {
    hide Hash, Chain;
    var h := Hash(bufs[b].key);
    assert Account(bufs, chains, private, held, b);
    ChainAt(bufs, heads, chains, h);
    forall c | c in chains[h] && c in bufs ensures bufs[c].key != bufs[b].key {
      ChainMember(bufs, heads[h], chains[h], h, c);
      assert Account(bufs, chains, private, held, c);
    }
  }

  lemma AccountInsert(bufs: map<nat, Buffer>, chains: seq<seq<nat>>, private: set<nat>, held: multiset<nat>, b: nat,
                      head: nat)
    requires Accounted(bufs, chains, private, held) && b in private && (head != 0 ==> head in bufs && head != b)
    ensures b in bufs
    ensures var h := Hash(bufs[b].key);
      Accounted(Inserted(bufs, b, head, h), chains[h := [b] + chains[h]], private - {b}, held + multiset{b})
  {
    hide Hash;
    var h := Hash(bufs[b].key);
    var r, chains' := Inserted(bufs, b, head, h), chains[h := [b] + chains[h]];
    assert Account(bufs, chains, private, held, b) && b !in held;
    forall c | c in r ensures Account(r, chains', private - {b}, held + multiset{b}, c) {
      assert Account(bufs, chains, private, held, c);
    }
  }

  lemma AccountPosition(bufs: map<nat, Buffer>, chains: seq<seq<nat>>, private: set<nat>, held: multiset<nat>, b: nat)
      returns (k: nat)
    requires Accounted(bufs, chains, private, held) && b in bufs && b !in private
    ensures |chains| == 1024 && k < |chains[Hash(bufs[b].key)]| && chains[Hash(bufs[b].key)][k] == b
  {
    assert Account(bufs, chains, private, held, b);
    k :| k < |chains[Hash(bufs[b].key)]| && chains[Hash(bufs[b].key)][k] == b;
  }

  lemma AccountFree(bufs: map<nat, Buffer>, chains: seq<seq<nat>>, private: set<nat>, held: multiset<nat>, b: nat,
                    k: nat)
    requires Accounted(bufs, chains, private, held) && b in bufs && b !in private && b !in held
    requires (bufs[b].next != 0 ==> bufs[b].next in bufs) && (bufs[b].pprev.NextOf? ==> bufs[b].pprev.b in bufs)
    requires k < |chains[Hash(bufs[b].key)]| && chains[Hash(bufs[b].key)][k] == b
    ensures var h := Hash(bufs[b].key);
      Accounted(Unlinked(bufs, b), chains[h := Without(chains[h], k)], private, held)
  {
    hide Hash;
    var h := Hash(bufs[b].key);
    var r, chains' := Unlinked(bufs, b), chains[h := Without(chains[h], k)];
    assert chains[h] == chains[h][..k] + [b] + chains[h][k + 1..];
    forall c | c in r ensures Account(r, chains', private, held, c) {
      assert Account(bufs, chains, private, held, c);
      UnlinkedKey(bufs, b, c);
    }
    forall c | c in private ensures c in r { assert Account(bufs, chains, private, held, c); UnlinkedKey(bufs, b, c); }
    forall c | c in held ensures c in r && c !in private { UnlinkedKey(bufs, b, c); }
  }

  // ---------------------------------------------------------------- every interleaving

  /** Where a thread is inside getblk. */
  datatype Phase = Missed(key: Key) | Owns(key: Key, b: nat)

  /** One atomic step of some thread. */
  datatype Op =
    | Find(thread: nat, key: Key)
    | Allocate(thread: nat, addr: nat)
    | Finish(thread: nat)
    | Release(b: nat)
    | Dirty(b: nat, dirty: bool)

  ghost predicate Owner(phases: map<nat, Phase>, t: nat, b: nat) {
    t in phases && phases[t].Owns? && phases[t].b == b
  }

  /** Threads between allocation and insertion own distinct private buffers with the keys they asked for,
      and there are no others. */
  ghost predicate Owned(bufs: map<nat, Buffer>, private: set<nat>, phases: map<nat, Phase>) {
    && (forall t, b {:trigger Owner(phases, t, b)} :: Owner(phases, t, b) ==>
          b in private && b in bufs && bufs[b].key == phases[t].key)
    && (forall t, u, b {:trigger Owner(phases, t, b), Owner(phases, u, b)} ::
          Owner(phases, t, b) && Owner(phases, u, b) ==> t == u)
    && (forall b :: b in private ==> exists t :: Owner(phases, t, b))
  }

  lemma OwnedFrame(a: map<nat, Buffer>, b: map<nat, Buffer>, private: set<nat>, phases: map<nat, Phase>)
    requires Owned(a, private, phases) && forall c :: c in private && c in a ==> c in b && b[c].key == a[c].key
    ensures Owned(b, private, phases)
  {
  }

  lemma OwnedMiss(bufs: map<nat, Buffer>, private: set<nat>, phases: map<nat, Phase>, t: nat, key: Key)
    requires Owned(bufs, private, phases) && t !in phases
    ensures Owned(bufs, private, phases[t := Missed(key)])
  {
    var phases' := phases[t := Missed(key)];
    forall u, b ensures Owner(phases', u, b) == Owner(phases, u, b) {}
  }

  lemma OwnedGain(bufs: map<nat, Buffer>, private: set<nat>, phases: map<nat, Phase>, t: nat, b: nat)
    requires Owned(bufs, private, phases) && t in phases && phases[t].Missed? && b !in private && b in bufs
    requires bufs[b].key == phases[t].key
    ensures Owned(bufs, private + {b}, phases[t := Owns(phases[t].key, b)])
  {
    var phases' := phases[t := Owns(phases[t].key, b)];
    forall u, c ensures Owner(phases', u, c) <==> Owner(phases, u, c) || (u == t && c == b) {}
    forall c | c in private + {b} ensures exists u :: Owner(phases', u, c) {
      if c == b { assert Owner(phases', t, b); } else { var u :| Owner(phases, u, c); assert Owner(phases', u, c); }
    }
  }

  lemma OwnedLose(bufs: map<nat, Buffer>, private: set<nat>, phases: map<nat, Phase>, t: nat)
    requires Owned(bufs, private, phases) && t in phases
    ensures var phases' := map u | u in phases && u != t :: phases[u];
      Owned(bufs, if phases[t].Owns? then private - {phases[t].b} else private, phases')
  {
    var phases' := map u | u in phases && u != t :: phases[u];
    forall u, c ensures Owner(phases', u, c) <==> Owner(phases, u, c) && u != t {}
    if phases[t].Owns? { assert Owner(phases, t, phases[t].b); }
  }

  /** The cached buffers, the private ones and the lost races account for buffer_cache_count. */
  lemma CountLaw(c: Cache)
    requires c.Valid()
    ensures c.count == |set b | b in c.bufs && b !in c.private| + |c.private| + c.lost
  {
    hide Table;
    var resident := set b | b in c.bufs && b !in c.private;
    assert c.private <= c.bufs.Keys && resident == c.bufs.Keys - c.private;
    assert |c.bufs.Keys| == |c.bufs| && |c.bufs.Keys - c.private| == |c.bufs.Keys| - |c.bufs.Keys * c.private|;
    assert c.bufs.Keys * c.private == c.private;
  }

  /** What users of the cache see of a buffer. */
  datatype User = User(key: Key, count: int, dirty: bool)

  /** The cache without its links, and the threads in getblk. */
  datatype State = State(users: map<nat, User>, private: set<nat>, held: multiset<nat>, lost: nat,
                         phases: map<nat, Phase>)

  ghost function UsersOf(bufs: map<nat, Buffer>): map<nat, User> {
    map b | b in bufs :: User(bufs[b].key, bufs[b].count, bufs[b].dirty)
  }

  ghost function View(c: Cache, phases: map<nat, Phase>): State
    reads c
  {
    State(UsersOf(c.bufs), c.private, c.held, c.lost, phases)
  }

  /** b is the cached buffer for a key. */
  ghost predicate Has(s: State, key: Key, b: nat) {
    b in s.users && b !in s.private && s.users[b].key == key
  }

  ghost function Refer(s: State, b: nat, d: int): State
    requires b in s.users
  {
    s.(users := s.users[b := s.users[b].(count := s.users[b].count + d)],
       held := if d > 0 then s.held + multiset{b} else s.held - multiset{b})
  }

  ghost function Gone(s: State, t: nat): State {
    s.(phases := map u | u in s.phases && u != t :: s.phases[u])
  }

  ghost function Freed(s: State, b: nat): State {
    s.(users := map p | p in s.users && p != b :: s.users[p])
  }

  /** What each atomic step does to the cache and the threads. */
  ghost predicate Next(s: State, op: Op, s': State) {
    match op
    case Find(t, key) =>
      if t in s.phases then s' == s
      else if exists b :: Has(s, key, b) then exists b :: Has(s, key, b) && s' == Refer(s, b, 1)
      else s' == s.(phases := s.phases[t := Missed(key)])
    case Allocate(t, addr) =>
      if t in s.phases && s.phases[t].Missed? && addr !in s.users then
        s' == if addr == 0 then Gone(s, t)
              else s.(users := s.users[addr := User(s.phases[t].key, 1, false)], private := s.private + {addr},
                      phases := s.phases[t := Owns(s.phases[t].key, addr)])
      else s' == s
    case Finish(t) =>
      if t in s.phases && s.phases[t].Owns? then
        var b, key, u := s.phases[t].b, s.phases[t].key, Gone(s.(private := s.private - {s.phases[t].b}), t);
        if exists e :: Has(s, key, e) then
          exists e :: Has(s, key, e) && e != b && s' == Freed(Refer(u, e, 1), b).(lost := s.lost + 1)
        else s' == u.(held := s.held + multiset{b})
      else s' == s
    case Release(b) =>
      if b in s.held && b in s.users then
        var u := Refer(s, b, -1);
        s' == if s.held[b] == 1 && !s.users[b].dirty && |s.users| + s.lost > 1024 then Freed(u, b) else u
      else s' == s
    case Dirty(b, dirty) =>
      if b in s.held && b in s.users then s' == s.(users := s.users[b := s.users[b].(dirty := dirty)]) else s' == s
  }

  /** A thread enters getblk and looks the key up. */
  method DoFind(c: Cache, phases: map<nat, Phase>, refs: multiset<nat>, t: nat, key: Key)
      returns (phases': map<nat, Phase>, refs': multiset<nat>)
    requires c.Valid() && refs == c.held && Owned(c.bufs, c.private, phases) && t !in phases
    modifies c
    ensures c.Valid() && refs' == c.held && Owned(c.bufs, c.private, phases')
    ensures Next(old(View(c, phases)), Find(t, key), View(c, phases'))
  {
    hide Table, Accounted, Hash, Owned, Next, UsersOf;
    phases', refs' := phases, refs;
    ghost var bufs0, s := c.bufs, View(c, phases);
    UsersAre(c.bufs);
    var b := c.FindGet(key);
    OwnedFrame(bufs0, c.bufs, c.private, phases);
    if b == 0 {
      OwnedMiss(c.bufs, c.private, phases, t, key);
      phases' := phases[t := Missed(key)];
    } else {
      UserCount(bufs0, b);
      refs' := refs + multiset{b};
    }
    Looked(s, View(c, phases'), t, key, b);
  }

  lemma UsersAre(bufs: map<nat, Buffer>)
    ensures UsersOf(bufs).Keys == bufs.Keys
    ensures forall b :: b in bufs ==> UsersOf(bufs)[b] == User(bufs[b].key, bufs[b].count, bufs[b].dirty)
  {
  }

  lemma UserCount(bufs: map<nat, Buffer>, b: nat)
    requires b in bufs
    ensures b in UsersOf(bufs)
    ensures UsersOf(bufs[b := bufs[b].(count := bufs[b].count + 1)]) ==
            UsersOf(bufs)[b := UsersOf(bufs)[b].(count := UsersOf(bufs)[b].count + 1)]
  {
  }

  /** The two outcomes of the first look. */
  lemma Looked(s: State, s': State, t: nat, key: Key, b: nat)
    requires t !in s.phases && (b == 0 <==> forall c :: c in s.users && c !in s.private ==> s.users[c].key != key)
    requires b == 0 ==> s' == s.(phases := s.phases[t := Missed(key)])
    requires b != 0 ==> Has(s, key, b) && s' == s.(users := s'.users, held := s.held + multiset{b})
    requires b != 0 ==> s'.users == s.users[b := s.users[b].(count := s.users[b].count + 1)]
    ensures Next(s, Find(t, key), s')
  {
    if b != 0 { assert s' == Refer(s, b, 1); }
  }

  /** A thread that missed allocates its private buffer, or gives up. */
  method DoAllocate(c: Cache, phases: map<nat, Phase>, t: nat, addr: nat) returns (phases': map<nat, Phase>)
    requires c.Valid() && Owned(c.bufs, c.private, phases) && t in phases && phases[t].Missed? && addr !in c.bufs
    modifies c
    ensures c.Valid() && c.held == old(c.held) && Owned(c.bufs, c.private, phases')
    ensures Next(old(View(c, phases)), Allocate(t, addr), View(c, phases'))
  {
    hide Table, Accounted, Hash, Owned, Next, UsersOf;
    ghost var bufs0, private, s := c.bufs, c.private, View(c, phases);
    var key := phases[t].key;
    Unused(c, addr);
    UsersAre(bufs0);
    var b := c.Alloc(key, addr);
    if b == 0 {
      OwnedLose(c.bufs, c.private, phases, t);
      phases' := map u | u in phases && u != t :: phases[u];
    } else {
      OwnedFrame(bufs0, c.bufs, private, phases);
      OwnedGain(c.bufs, private, phases, t, b);
      phases' := phases[t := Owns(key, b)];
      UserNew(bufs0, addr, key);
    }
    Allocated(s, View(c, phases'), t, addr);
  }

  lemma UserNew(bufs: map<nat, Buffer>, addr: nat, key: Key)
    ensures UsersOf(bufs[addr := Buffer(key, 1, false, 0, Null)]) == UsersOf(bufs)[addr := User(key, 1, false)]
  {
  }

  /** The two outcomes of the allocation. */
  lemma Allocated(s: State, s': State, t: nat, addr: nat)
    requires t in s.phases && s.phases[t].Missed? && addr !in s.users
    requires addr == 0 ==> s' == Gone(s, t)
    requires addr != 0 ==>
               s' == s.(users := s.users[addr := User(s.phases[t].key, 1, false)], private := s.private + {addr},
                        phases := s.phases[t := Owns(s.phases[t].key, addr)])
    ensures Next(s, Allocate(t, addr), s')
  {
  }

  /** A thread looks again and inserts its buffer or drops it. */
  method DoFinish(c: Cache, phases: map<nat, Phase>, refs: multiset<nat>, t: nat)
      returns (phases': map<nat, Phase>, refs': multiset<nat>)
    requires c.Valid() && refs == c.held && Owned(c.bufs, c.private, phases) && t in phases && phases[t].Owns?
    modifies c
    ensures c.Valid() && refs' == c.held && Owned(c.bufs, c.private, phases')
    ensures Next(old(View(c, phases)), Finish(t), View(c, phases'))
  {
    hide Table, Accounted, Hash, Owned, Next, UsersOf, SameUser;
    ghost var bufs0, s := c.bufs, View(c, phases);
    UsersAre(bufs0);
    OwnsPrivate(c.bufs, c.private, phases, t);
    OwnedLose(c.bufs, c.private, phases, t);
    Disowned(c, phases[t].b);
    c.PrivateFacts(phases[t].b);
    var r := c.Publish(phases[t].b);
    OthersSame(bufs0, c.bufs, r);
    phases' := map u | u in phases && u != t :: phases[u];
    OwnedFrame(bufs0, c.bufs, c.private, phases');
    refs' := refs + multiset{r};
    Finished(s, View(c, phases'), t, r);
  }

  /** Users of all buffers but one are the same. */
  lemma OthersSame(a: map<nat, Buffer>, b: map<nat, Buffer>, r: nat)
    requires forall c :: c in b && c != r ==> c in a && SameUser(b[c], a[c])
    ensures UsersOf(b).Keys == b.Keys && UsersOf(a).Keys == a.Keys
    ensures forall c :: c in b && c != r ==> UsersOf(b)[c] == UsersOf(a)[c] && b[c].key == a[c].key
    ensures r in b ==> UsersOf(b)[r] == User(b[r].key, b[r].count, b[r].dirty)
    ensures r in a ==> UsersOf(a)[r] == User(a[r].key, a[r].count, a[r].dirty)
  {
  }

  /** The two outcomes of the second look. */
  lemma Finished(s: State, s': State, t: nat, r: nat)
    requires t in s.phases && s.phases[t].Owns? && s.phases[t].b in s.private && s.phases[t].b in s.users
    requires s.users[s.phases[t].b] == User(s.phases[t].key, 1, s.users[s.phases[t].b].dirty)
    requires r == s.phases[t].b <==> forall c :: c in s.users && c !in s.private ==> s.users[c].key != s.phases[t].key
    requires r != s.phases[t].b ==> Has(s, s.phases[t].key, r)
    requires s'.private == s.private - {s.phases[t].b} && s'.held == s.held + multiset{r}
    requires s'.phases == Gone(s, t).phases && s'.lost == s.lost + (if r == s.phases[t].b then 0 else 1)
    requires s'.users.Keys == s.users.Keys - (if r == s.phases[t].b then {} else {s.phases[t].b})
    requires forall c :: c in s'.users && c != r ==> s'.users[c] == s.users[c]
    requires r in s'.users
    requires s'.users[r] == s.users[r].(count := if r == s.phases[t].b then 1 else s.users[r].count + 1)
    ensures Next(s, Finish(t), s')
  {
    var b := s.phases[t].b;
    var u := Gone(s.(private := s.private - {b}), t);
    if r == b {
      assert s'.users == s.users;
    } else {
      assert s'.users == Freed(Refer(u, r, 1), b).users;
      assert s' == Freed(Refer(u, r, 1), b).(lost := s.lost + 1);
    }
  }

  /** A holder gives a reference back. */
  method DoRelease(c: Cache, ghost phases: map<nat, Phase>, b: nat)
    requires c.Valid() && b in c.held && Owned(c.bufs, c.private, phases)
    modifies c
    ensures c.Valid() && c.held == old(c.held) - multiset{b} && Owned(c.bufs, c.private, phases)
    ensures Next(old(View(c, phases)), Release(b), View(c, phases))
  {
    hide Table, Accounted, Hash, Owned, Next, UsersOf, SameUser;
    ghost var bufs0, held0 := c.bufs, c.held;
    HeldShared(c, b);
    c.HeldFacts(b);
    c.Brelse(b);
    OthersSame(bufs0, c.bufs, b);
    OwnedFrame(bufs0, c.bufs, c.private, phases);
    GaveBack(bufs0, c.bufs, c.private, held0, c.lost, phases, b);
  }

  lemma GaveBack(bufs: map<nat, Buffer>, bufs': map<nat, Buffer>, private: set<nat>, held: multiset<nat>, lost: nat,
                 phases: map<nat, Phase>, b: nat)
    requires b in held && b in bufs
    requires b !in bufs' <==> held[b] == 1 && !bufs[b].dirty && |bufs| + lost > 1024
    requires b in bufs' ==> bufs' == bufs[b := bufs[b].(count := bufs[b].count - 1)]
    requires b !in bufs' ==> bufs'.Keys == bufs.Keys - {b}
    requires forall c :: c in bufs && c != b ==> c in bufs' && SameUser(bufs'[c], bufs[c])
    ensures Next(State(UsersOf(bufs), private, held, lost, phases), Release(b),
                 State(UsersOf(bufs'), private, held - multiset{b}, lost, phases))
  {
    hide Next, UsersOf, SameUser;
    var s := State(UsersOf(bufs), private, held, lost, phases);
    var s' := State(UsersOf(bufs'), private, held - multiset{b}, lost, phases);
    OthersSame(bufs, bufs', b);
    SameSize(UsersOf(bufs), bufs);
    GivenBack(s, s', b, b !in bufs');
  }

  /** The two outcomes of giving a reference back. */
  lemma GivenBack(s: State, s': State, b: nat, freed: bool)
    requires b in s.held && b in s.users && s' == s.(users := s'.users, held := s.held - multiset{b})
    requires freed <==> s.held[b] == 1 && !s.users[b].dirty && |s.users| + s.lost > 1024
    requires s'.users.Keys == s.users.Keys - (if freed then {b} else {})
    requires forall c :: c in s.users && c != b ==> c in s'.users && s'.users[c] == s.users[c]
    requires !freed ==> s'.users[b] == s.users[b].(count := s.users[b].count - 1)
    ensures Next(s, Release(b), s')
  {
    var u := Refer(s, b, -1);
    if freed {
      assert s'.users == Freed(u, b).users;
    } else {
      assert s'.users == u.users;
    }
  }

  lemma SameSize(a: map<nat, User>, b: map<nat, Buffer>)
    requires a.Keys == b.Keys
    ensures |a| == |b|
  {
    assert |a.Keys| == |a| && |b.Keys| == |b|;
  }

  /** One step of one thread, from any state. */
  method Do(c: Cache, phases: map<nat, Phase>, refs: multiset<nat>, op: Op)
      returns (phases': map<nat, Phase>, refs': multiset<nat>)
    requires c.Valid() && refs == c.held && Owned(c.bufs, c.private, phases)
    modifies c
    ensures c.Valid() && refs' == c.held && Owned(c.bufs, c.private, phases')
    ensures Next(old(View(c, phases)), op, View(c, phases'))
  {
    hide Table, Accounted, Hash, Owned;
    phases', refs' := phases, refs;
    ghost var bufs0 := c.bufs;
    match op {
      case Find(t, key) =>
        if t !in phases {
          phases', refs' := DoFind(c, phases, refs, t, key);
        }
      case Allocate(t, addr) =>
        if t in phases && phases[t].Missed? && addr !in c.bufs {
          phases' := DoAllocate(c, phases, t, addr);
        }
      case Finish(t) =>
        if t in phases && phases[t].Owns? {
          phases', refs' := DoFinish(c, phases, refs, t);
        }
      case Release(b) =>
        if b in refs {
          DoRelease(c, phases, b);
          refs' := refs - multiset{b};
        }
      case Dirty(b, dirty) =>
        if b in refs {
          c.SetDirty(b, dirty);
          OwnedFrame(bufs0, c.bufs, c.private, phases);
          assert UsersOf(c.bufs) == UsersOf(bufs0)[b := UsersOf(bufs0)[b].(dirty := dirty)];
        }
    }
  }

  lemma OwnsPrivate(bufs: map<nat, Buffer>, private: set<nat>, phases: map<nat, Phase>, t: nat)
    requires Owned(bufs, private, phases) && t in phases && phases[t].Owns?
    ensures phases[t].b in private && phases[t].b in bufs && bufs[phases[t].b].key == phases[t].key
  {
    assert Owner(phases, t, phases[t].b);
  }

  lemma Unused(c: Cache, b: nat)
    requires c.Valid() && b !in c.bufs
    ensures b !in c.private
  {
  }

  lemma Disowned(c: Cache, b: nat)
    requires c.Valid() && b in c.private
    ensures forall x :: x in c.private ==> x in c.bufs
  {
  }

  lemma HeldShared(c: Cache, b: nat)
    requires c.Valid() && b in c.held
    ensures b !in c.private && b != 0 && forall x :: x in c.private ==> x in c.bufs
  {
  }

  /** Under every interleaving of find, allocate, re-check and insert, release and dirtying by any number of
      threads, each step does what Next says; the table stays linked and hashed with at most one buffer per
      key, every reference handed out is to a cached buffer and counted in it, and the private buffers are
      those of the threads in flight. */
  method Replay(ops: seq<Op>) returns (c: Cache, phases: map<nat, Phase>, refs: multiset<nat>, ghost trace: seq<State>)
    ensures fresh(c) && c.Valid() && refs == c.held && Owned(c.bufs, c.private, phases)
    ensures |trace| == |ops| + 1 && trace[0] == State(map[], {}, multiset{}, 0, map[])
    ensures trace[|ops|] == View(c, phases)
    ensures forall i :: 0 <= i < |ops| ==> Next(trace[i], ops[i], trace[i + 1])
    ensures forall b :: b in refs ==> b in c.bufs && b !in c.private && c.bufs[b].count == refs[b]
    ensures forall b, d :: c.Cached(b) && c.Cached(d) && c.bufs[b].key == c.bufs[d].key ==> b == d
    ensures c.count == |set b | b in c.bufs && b !in c.private| + |c.private| + c.lost
  {
    hide Table, Accounted, Hash, Owned, Next;
    c := new Cache();
    phases, refs := map[], multiset{};
    NoOwner();
    trace := [View(c, phases)];
    for n := 0 to |ops|
      invariant fresh(c) && c.Valid() && refs == c.held && Owned(c.bufs, c.private, phases)
      invariant |trace| == n + 1 && trace[0] == State(map[], {}, multiset{}, 0, map[]) && trace[n] == View(c, phases)
      invariant forall i :: 0 <= i < n ==> Next(trace[i], ops[i], trace[i + 1])
    {
      phases, refs := Do(c, phases, refs, ops[n]);
      trace := trace + [View(c, phases)];
    }
    CountLaw(c);
    Held(c);
    OnePerKey(c);
  }

  lemma NoOwner()
    ensures Owned(map[], {}, map[])
  {
  }

  lemma Held(c: Cache)
    requires c.Valid()
    ensures forall b :: b in c.held ==> c.Cached(b) && c.bufs[b].count == c.held[b]
  {
    forall b | b in c.held ensures c.Cached(b) && c.bufs[b].count == c.held[b] {
      assert Account(c.bufs, c.chains, c.private, c.held, b);
    }
  }

  lemma OnePerKey(c: Cache)
    requires c.Valid()
    ensures forall b, d :: c.Cached(b) && c.Cached(d) && c.bufs[b].key == c.bufs[d].key ==> b == d
  {
    forall b, d | c.Cached(b) && c.Cached(d) && c.bufs[b].key == c.bufs[d].key ensures b == d {
      assert Account(c.bufs, c.chains, c.private, c.held, b) && Account(c.bufs, c.chains, c.private, c.held, d);
      AtMostOne(c.bufs, c.heads, c.chains, b, d);
    }
  }
}
