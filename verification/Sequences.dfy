/**
 Sequences used as lists, queues and byte buffers.
 */
module Sequences {
  /** The i-th element as a link: 0 past the end. */
  function Nth(s: seq<nat>, i: nat): nat {
    if i < |s| then s[i] else 0
  }

  ghost predicate Unique(s: seq<nat>) {
    forall i, j :: 0 <= i < j < |s| ==> s[i] != s[j]
  }

  function Without(s: seq<nat>, k: nat): seq<nat>
    requires k < |s|
  {
    s[..k] + s[k + 1..]
  }

  /** A buffer with a chunk written over it at off. */
  function Splice<T>(buffer: seq<T>, off: nat, chunk: seq<T>): (s: seq<T>)
    requires off + |chunk| <= |buffer|
    ensures |s| == |buffer|
    ensures forall i :: 0 <= i < |buffer| ==> s[i] == if off <= i < off + |chunk| then chunk[i - off] else buffer[i]
  {
    buffer[..off] + chunk + buffer[off + |chunk|..]
  }

  lemma UniquePush(s: seq<nat>, p: nat)
    requires Unique(s) && p !in s
    ensures Unique(s + [p])
  {
  }

  lemma UniqueAppend(s: seq<nat>, t: seq<nat>)
    requires Unique(s) && Unique(t) && forall p :: p in t ==> p !in s
    ensures Unique(s + t)
  {
    forall i, j | 0 <= i < j < |s + t| ensures (s + t)[i] != (s + t)[j] {
      if i < |s| <= j { assert (s + t)[j] in t && (s + t)[i] in s; }
    }
  }

  lemma {:induction false} UniqueCount(s: seq<nat>, p: nat)
    requires Unique(s)
    ensures multiset(s)[p] == if p in s then 1 else 0
  {
    if s != [] {
      assert s == s[..|s| - 1] + [s[|s| - 1]];
      UniqueCount(s[..|s| - 1], p);
    }
  }

  /** Different numbers below n are at most n many. */
  lemma {:induction false} UniqueBound(s: seq<nat>, n: nat)
    requires Unique(s) && forall i :: 0 <= i < |s| ==> s[i] < n
    ensures |s| <= n
    decreases n
  {
    if |s| > 0 {
      assert s[0] < n;
      if i :| 0 <= i < |s| && s[i] == n - 1 {
        UniqueBound(s[..i] + s[i + 1..], n - 1);
      } else {
        UniqueBound(s, n - 1);
      }
    }
  }
}
