/**
 The Internet checksum of kernel/net/ipv4/ip.c and icmp.c against sections 1 and 2(B) of RFC 1071 and
 section 3.1 of RFC 791.
 */
module Checksum {
  import opened Arith

  // ---------------------------------------------------------------- ones' complement sums

  /** The ones' complement sum of 16-bit words that add up to n: n modulo 65535, as 1 .. 65535 unless n is 0. */
  function Norm(n: nat): (r: nat)
    ensures r < 0x1_0000 && (r == 0 <==> n == 0)
  {
    if n == 0 then 0 else (n - 1) % 65535 + 1
  }

  /** n and m are the same modulo 65535. */
  ghost predicate Alike(n: nat, m: nat) {
    n % 65535 == m % 65535
  }

  lemma NormAlike(n: nat)
    ensures Alike(Norm(n), n)
  {
  }

  /** Norm is the only value in range that agrees with n modulo 65535 and on being 0. */
  lemma NormUnique(n: nat, m: nat)
    requires Alike(n, m) && (n == 0 <==> m == 0)
    ensures Norm(n) == Norm(m)
  {
    NormIs(n);
    NormIs(m);
    hide Norm;
  }

  lemma NormIs(n: nat)
    ensures n > 0 ==> Norm(n) == if n % 65535 == 0 then 65535 else n % 65535
  {
    var q, r := n / 65535, n % 65535;
    assert n == 65535 * q + r;
    if r > 0 {
      assert n - 1 == 65535 * q + (r - 1);
    } else if n > 0 {
      assert n - 1 == 65535 * (q - 1) + 65534;
    }
  }

  lemma FoldStep(n: nat)
    requires n >= 0x1_0000
    ensures n % 0x1_0000 + n / 0x1_0000 < n
    ensures Norm(n % 0x1_0000 + n / 0x1_0000) == Norm(n)
  {
    var q, r := n / 0x1_0000, n % 0x1_0000;
    assert n == 65535 * q + (q + r);
    assert Alike(q + r, n);
    NormUnique(q + r, n);
  }

  /** The folding loop of both routines. */
  method Fold(sum: U32) returns (r: nat)
    ensures r == Norm(sum)
  {
    var acc: nat := sum;
    while acc / 0x1_0000 != 0
      invariant Norm(acc) == Norm(sum)
      decreases acc
    {
      FoldStep(acc);
      acc := acc % 0x1_0000 + acc / 0x1_0000;
    }
    r := acc;
  }

  // ---------------------------------------------------------------- word sums

  /** The i-th 16-bit word as a little-endian machine loads it. */
  function Word(b: seq<U8>, i: nat): nat
    requires 2 * i + 1 < |b|
  {
    Pair(b[2 * i], b[2 * i + 1])
  }

  function Pair(lo: nat, hi: nat): nat {
    lo + 256 * hi
  }

  function Sum(b: seq<U8>, n: nat): nat
    requires 2 * n <= |b|
  {
    if n == 0 then 0 else Sum(b, n - 1) + Word(b, n - 1)
  }

  /** All words, and the last byte of an odd length as it stands. */
  function Total(b: seq<U8>): nat {
    Sum(b, |b| / 2) + if |b| % 2 == 1 then b[|b| - 1] else 0
  }

  /** Two bytes more add the word of which they are the low and the high byte, and one byte more adds itself. */
  lemma TotalIs(b: seq<U8>, x: U8, y: U8)
    requires |b| % 2 == 0
    ensures Total([]) == 0 && Total(b + [x, y]) == Total(b) + x as int + 256 * y as int
    ensures Total(b + [x]) == Total(b) + x as int
  {
    var n := |b| / 2;
    SumPrefix(b, [x, y], n);
    SumPrefix(b, [x], n);
    assert Word(b + [x, y], n) == x as int + 256 * y as int;
    assert (|b| + 1) / 2 == n && (|b| + 2) / 2 == n + 1;
  }

  lemma {:induction false} SumPrefix(b: seq<U8>, c: seq<U8>, n: nat)
    requires 2 * n <= |b|
    ensures Sum(b + c, n) == Sum(b, n)
  {
    if n > 0 { SumPrefix(b, c, n - 1); }
  }

  /** The checksum by the standard's definition over these words. */
  function Check(b: seq<U8>): (c: nat)
    ensures c < 0x1_0000
  {
    65535 - Norm(Total(b))
  }

  /** The value both routines compute: the sum is kept in 32 bits. */
  function Machine(b: seq<U8>): (c: nat)
    ensures c < 0x1_0000
  {
    65535 - Norm(Total(b) % 0x1_0000_0000)
  }

  /** Addition in 32 bits. */
  function Add32(a: nat, x: nat): nat {
    (a + x) % 0x1_0000_0000
  }

  lemma Add32Sum(s: nat, x: nat)
    ensures Add32(s % 0x1_0000_0000, x) == (s + x) % 0x1_0000_0000 < 0x1_0000_0000
  {
  }

  /** ip_checksum */
  method IpChecksum(b: seq<U8>) returns (c: nat)
    ensures c == Machine(b)
  {
    hide Add32, Norm, Word;
    var acc: nat := 0;
    for i := 0 to |b| / 2
      invariant acc == Sum(b, i) % 0x1_0000_0000
    {
      Add32Sum(Sum(b, i), Word(b, i));
      acc := Add32(acc, Word(b, i));
    }
    if |b| % 2 == 1 {
      Add32Sum(Sum(b, |b| / 2), b[|b| - 1]);
      acc := Add32(acc, b[|b| - 1]);
    }
    var r := Fold(acc);
    c := 65535 - r;
  }

  /** checksum of icmp.c, with its advancing pointer and falling count; it agrees with ip_checksum. */
  method IcmpChecksum(b: seq<U8>) returns (c: nat)
    ensures c == Machine(b)
  {
    hide Add32, Norm, Word;
    var sum: nat := 0;
    var addr, count := 0, |b|;
    while count > 1
      invariant 0 <= addr && count == |b| - 2 * addr >= 0 && sum == Sum(b, addr) % 0x1_0000_0000
    {
      Add32Sum(Sum(b, addr), Word(b, addr));
      sum := Add32(sum, Word(b, addr));
      addr := addr + 1;
      count := count - 2;
    }
    assert addr == |b| / 2;
    if count > 0 {
      Add32Sum(Sum(b, addr), b[2 * addr]);
      sum := Add32(sum, b[2 * addr]);
    }
    var r := Fold(sum);
    c := 65535 - r;
  }

  // ---------------------------------------------------------------- when 32 bits are enough

  lemma {:induction false} SumBound(b: seq<U8>, n: nat)
    requires 2 * n <= |b|
    ensures Sum(b, n) <= 65535 * n
  {
    if n > 0 { SumBound(b, n - 1); }
  }

  /** The machine's value is the standard's exactly when the carries out of 32 bits cancel: none was lost, or
      a multiple of 65535 of them and the remaining sum is not zero. */
  lemma MachineRight(b: seq<U8>)
    ensures var lost, kept := Total(b) / 0x1_0000_0000, Total(b) % 0x1_0000_0000;
      Machine(b) == Check(b) <==> lost == 0 || (lost % 65535 == 0 && kept != 0)
  {
    var n := Total(b);
    var lost, kept := n / 0x1_0000_0000, n % 0x1_0000_0000;
    assert n == kept + lost + 65535 * (65537 * lost);
    CarryLost(n, lost, kept);
  }

  lemma CarryLost(n: nat, lost: nat, kept: nat)
    requires n == kept + lost + 65535 * (65537 * lost)
    ensures Norm(kept) == Norm(n) <==> lost == 0 || (lost % 65535 == 0 && kept != 0)
  {
    assert Alike(n, kept + lost);
    if lost % 65535 == 0 {
      assert Alike(kept + lost, kept);
      if kept != 0 { NormUnique(n, kept); }
    } else {
      NormAlike(n);
      NormAlike(kept);
    }
  }

  /** Every buffer of up to 131074 bytes is right, and so is every packet. */
  lemma ShortEnough(b: seq<U8>)
    requires |b| <= 131074
    ensures Total(b) < 0x1_0000_0000 && Machine(b) == Check(b)
  {
    hide Norm, Sum;
    var n := |b| / 2;
    SumBound(b, n);
    assert Total(b) <= 65535 * n + if |b| % 2 == 1 then 255 else 0;
    assert if |b| % 2 == 1 then n <= 65536 else n <= 65537;
  }

  lemma {:induction false} SumOnes(b: seq<U8>, n: nat)
    requires 2 * n <= |b| && forall i :: 0 <= i < |b| ==> b[i] == 255
    ensures Sum(b, n) == 65535 * n
  {
    if n > 0 { SumOnes(b, n - 1); }
  }

  /** One byte more can be too much: 131075 bytes of ones lose a carry. */
  lemma LostCarry(b: seq<U8>)
    requires |b| == 131075 && forall i :: 0 <= i < |b| ==> b[i] == 255
    ensures Machine(b) != Check(b)
  {
    SumOnes(b, 65537);
    hide Sum, Machine, Check;
    assert Total(b) == 65535 * 65537 + 255;
    MachineRight(b);
  }

  // ---------------------------------------------------------------- storing the checksum

  /** Word k of the buffer replaced by c, low byte first. */
  function Stored(b: seq<U8>, k: nat, c: nat): (r: seq<U8>)
    requires 2 * k + 1 < |b| && c < 0x1_0000
    ensures |r| == |b|
  {
    var lo: U8 := c % 256;
    var hi: U8 := c / 256;
    b[2 * k := lo][2 * k + 1 := hi]
  }

  lemma StoredWord(b: seq<U8>, k: nat, c: nat, i: nat)
    requires 2 * k + 1 < |b| && c < 0x1_0000 && 2 * i + 1 < |b|
    ensures Word(Stored(b, k, c), i) == if i == k then c else Word(b, i)
  {
  }

  lemma {:induction false} StoredSum(b: seq<U8>, k: nat, c: nat, n: nat)
    requires 2 * k + 1 < |b| && c < 0x1_0000 && 2 * n <= |b| && Word(b, k) == 0
    ensures Sum(Stored(b, k, c), n) == Sum(b, n) + if n > k then c else 0
  {
    hide Word, Stored;
    if n > 0 {
      StoredSum(b, k, c, n - 1);
      StoredWord(b, k, c, n - 1);
    }
  }

  lemma StoredTotal(b: seq<U8>, k: nat, c: nat)
    requires 2 * k + 1 < |b| && c < 0x1_0000 && Word(b, k) == 0
    ensures Total(Stored(b, k, c)) == Total(b) + c
  {
    hide Sum, Word;
    StoredSum(b, k, c, |b| / 2);
  }

  /** A sum and the complement of its ones' complement sum add up to all ones. */
  lemma Complement(n: nat)
    ensures Norm(n + (65535 - Norm(n))) == 65535
  {
    NormAlike(n);
    var m := n + (65535 - Norm(n));
    assert m > 0 && Alike(m, 65535);
    NormUnique(m, 65535);
  }

  /** Storing the checksum in a zeroed field makes the checksum of the whole buffer 0. */
  lemma StoredChecks(b: seq<U8>, k: nat)
    requires 2 * k + 1 < |b| && Word(b, k) == 0
    ensures Check(Stored(b, k, Check(b))) == 0
  {
    hide Norm, Total, Stored;
    StoredTotal(b, k, Check(b));
    Complement(Total(b));
  }

  // ---------------------------------------------------------------- byte order

  /** The word sum with the first byte of each pair high, an odd last byte padded with zero behind it. */
  function BigSum(b: seq<U8>, n: nat): nat
    requires 2 * n <= |b|
  {
    if n == 0 then 0 else BigSum(b, n - 1) + Pair(b[2 * n - 1], b[2 * n - 2])
  }

  function BigTotal(b: seq<U8>): nat {
    BigSum(b, |b| / 2) + if |b| % 2 == 1 then Pair(0, b[|b| - 1]) else 0
  }

  /** The standard's checksum, over words in network byte order. */
  function BigCheck(b: seq<U8>): (c: nat)
    ensures c < 0x1_0000
  {
    65535 - Norm(BigTotal(b))
  }

  function Swap(n: nat): nat {
    n % 256 * 256 + n / 256
  }

  lemma {:induction false} SumsAlike(b: seq<U8>, n: nat)
    requires 2 * n <= |b|
    ensures Alike(BigSum(b, n), 256 * Sum(b, n)) && (BigSum(b, n) == 0 <==> Sum(b, n) == 0)
  {
    hide Alike, Pair;
    if n == 0 {
      AlikeBy(0, 0, 0);
    } else {
      SumsAlike(b, n - 1);
      PairZero(b[2 * n - 2], b[2 * n - 1]);
      PairZero(b[2 * n - 1], b[2 * n - 2]);
      PairAlike(BigSum(b, n - 1), Sum(b, n - 1), b[2 * n - 2], b[2 * n - 1]);
    }
  }

  lemma PairZero(x: nat, y: nat)
    ensures Pair(x, y) == 0 <==> x == 0 && y == 0
  {
  }

  lemma PairAlike(s: nat, t: nat, x: nat, y: nat)
    requires Alike(s, 256 * t)
    ensures Alike(s + Pair(y, x), 256 * (t + Pair(x, y)))
  {
    assert 256 * (t + Pair(x, y)) == 256 * t + Pair(y, x) + 65535 * y;
    ShiftAlike(s, 256 * t, Pair(y, x), y);
  }

  lemma ShiftAlike(s: nat, t: nat, d: nat, q: nat)
    requires Alike(s, t)
    ensures Alike(s + d, t + d + 65535 * q)
  {
  }

  lemma TotalsAlike(b: seq<U8>)
    ensures Alike(BigTotal(b), 256 * Total(b)) && (BigTotal(b) == 0 <==> Total(b) == 0)
  {
    hide Alike, Sum, BigSum;
    SumsAlike(b, |b| / 2);
    if |b| % 2 == 1 { ShiftAlike(BigSum(b, |b| / 2), 256 * Sum(b, |b| / 2), Pair(0, b[|b| - 1]), 0); }
  }

  lemma TimesAlike(n: nat, m: nat)
    requires Alike(n, m)
    ensures Alike(256 * n, 256 * m)
  {
    var d := n / 65535 - m / 65535;
    assert n == m + 65535 * d;
    hide Alike;
    AlikeBy(256 * n, 256 * m, 256 * d);
  }

  lemma AlikeBy(n: nat, m: nat, k: int)
    requires n == m + 65535 * k
    ensures Alike(n, m)
  {
  }

  lemma SwapAlike(m: nat)
    requires m < 0x1_0000
    ensures Alike(256 * m, Swap(m)) && Swap(m) < 0x1_0000 && (Swap(m) == 0 <==> m == 0)
  {
    assert 256 * m == Swap(m) + 65535 * (m / 256);
  }

  lemma NormSelf(m: nat)
    requires m < 0x1_0000
    ensures Norm(m) == m
  {
  }

  lemma SwapNorm(n: nat)
    ensures Norm(256 * n) == Swap(Norm(n))
  {
    hide Norm, Swap;
    var m := Norm(n);
    NormAlike(n);
    TimesAlike(m, n);
    SwapAlike(m);
    NormUnique(256 * n, Swap(m));
    NormSelf(Swap(m));
  }

  /** Computed over little-endian words and stored low byte first, the checksum is byte for byte the one
      defined over network-order words and stored high byte first. */
  lemma ByteOrder(b: seq<U8>)
    ensures Check(b) % 256 == BigCheck(b) / 256 && Check(b) / 256 == BigCheck(b) % 256
  {
    hide Norm, Total, BigTotal, Alike, Swap;
    TotalsAlike(b);
    NormUnique(BigTotal(b), 256 * Total(b));
    SwapNorm(Total(b));
    SwapComplement(Norm(Total(b)));
  }

  lemma SwapComplement(m: nat)
    requires m < 0x1_0000
    ensures Swap(m) < 0x1_0000
    ensures (65535 - m) % 256 == (65535 - Swap(m)) / 256 && (65535 - m) / 256 == (65535 - Swap(m)) % 256
  {
    var h, l := m / 256, m % 256;
    assert m == 256 * h + l && 0 <= h < 256 && 0 <= l < 256;
    TwoBytes(255 - h, 255 - l);
    TwoBytes(255 - l, 255 - h);
  }

  lemma TwoBytes(h: nat, l: nat)
    requires h < 256 && l < 256
    ensures (256 * h + l) / 256 == h && (256 * h + l) % 256 == l
  {
  }

  // ---------------------------------------------------------------- headers

  /** The bytes in place of words 5, 6 and 7 .. 9 of an IPv4 header without options. */
  function Header(len: nat, protocol: U8, saddr: seq<U8>, daddr: seq<U8>): (h: seq<U8>)
    requires len < 0x1_0000 && |saddr| == 4 && |daddr| == 4
    ensures |h| == 20 && Word(h, 5) == 0
  {
    var hi: U8 := len / 256;
    var lo: U8 := len % 256;
    [0x45, 0, hi, lo, 0, 1, 0, 0, 64, protocol, 0, 0] + saddr + daddr
  }

  method StoreWord(p: array<U8>, at: nat, c: nat)
    requires at + 1 < p.Length && c < 0x1_0000
    modifies p
    ensures p[..] == old(p[..])[at := c % 256][at + 1 := c / 256]
  {
    p[at] := c % 256;
    p[at + 1] := c / 256;
  }

  /** The header part of ip_send_packet: the fields in place, and a checksum with which the header checks. */
  method SendHeader(p: array<U8>, len: nat, protocol: U8, saddr: seq<U8>, daddr: seq<U8>)
    requires p.Length == 20 && len < 0x1_0000 && |saddr| == 4 && |daddr| == 4
    modifies p
    ensures Check(p[..]) == 0
    ensures p[..] == Stored(Header(len, protocol, saddr, daddr), 5, Check(Header(len, protocol, saddr, daddr)))
    ensures p[0] == 0x45 && p[1] == 0 && p[2] as int * 256 + p[3] == len && p[4..8] == [0, 1, 0, 0]
    ensures p[8] == 64 && p[9] == protocol && p[12..16] == saddr && p[16..20] == daddr
  {
    hide Check, Machine, Header;
    ghost var h := Header(len, protocol, saddr, daddr);
    Fill(p, len, protocol, saddr, daddr);
    var c := IpChecksum(p[..]);
    ShortEnough(h);
    StoredChecks(h, 5);
    HeaderBytes(len, protocol, saddr, daddr);
    StoreWord(p, 10, c);
    assert p[4..8] == h[4..8] && p[12..16] == h[12..16] && p[16..20] == h[16..20];
  }

  lemma HeaderBytes(len: nat, protocol: U8, saddr: seq<U8>, daddr: seq<U8>)
    requires len < 0x1_0000 && |saddr| == 4 && |daddr| == 4
    ensures var h := Header(len, protocol, saddr, daddr);
      && h[0] == 0x45 && h[1] == 0 && h[2] as int * 256 + h[3] == len && h[4..8] == [0, 1, 0, 0]
      && h[8] == 64 && h[9] == protocol && h[12..16] == saddr && h[16..20] == daddr
  {
  }

  /** The fixed fields, with the checksum still 0, and the addresses. */
  method Fill(p: array<U8>, len: nat, protocol: U8, saddr: seq<U8>, daddr: seq<U8>)
    requires p.Length == 20 && len < 0x1_0000 && |saddr| == 4 && |daddr| == 4
    modifies p
    ensures p[..] == Header(len, protocol, saddr, daddr)
  {
    FillFixed(p, len, protocol);
    CopyFour(p, 12, saddr);
    CopyFour(p, 16, daddr);
    assert p[..] == p[..12] + p[12..16] + p[16..];
  }

  method FillFixed(p: array<U8>, len: nat, protocol: U8)
    requires p.Length == 20 && len < 0x1_0000
    modifies p
    ensures p[..12] == [0x45, 0, len / 256, len % 256, 0, 1, 0, 0, 64, protocol, 0, 0]
  {
    forall i | 0 <= i < 20 { p[i] := 0; }
    p[0] := 0x45;
    p[2], p[3] := len / 256, len % 256;
    p[4], p[5] := 0, 1;
    p[8] := 64;
    p[9] := protocol;
  }

  method CopyFour(p: array<U8>, at: nat, s: seq<U8>)
    requires at + 4 <= p.Length && |s| == 4
    modifies p
    ensures p[at..at + 4] == s && forall i :: 0 <= i < p.Length && !(at <= i < at + 4) ==> p[i] == old(p[i])
  {
    forall i | 0 <= i < 4 { p[at + i] := s[i]; }
  }

  /** Zero the word at `at`, which is word k of the part from..to, then store that part's checksum there. */
  method Seal(p: array<U8>, from: nat, to: nat, at: nat, ghost k: nat)
    requires from <= at == from + 2 * k && at + 1 < to <= p.Length && to - from <= 131074
    modifies p
    ensures Check(p[from..to]) == 0
    ensures forall i :: 0 <= i < p.Length && i != at && i != at + 1 ==> p[i] == old(p[i])
  {
    hide Check, Machine, Stored;
    p[at], p[at + 1] := 0, 0;
    ghost var b := p[from..to];
    assert Word(b, k) == 0;
    var c := IcmpChecksum(p[from..to]);
    ShortEnough(b);
    StoredChecks(b, k);
    StoreWord(p, at, c);
    StoredPart(b, p[from..to], k, c);
  }

  lemma StoredPart(b: seq<U8>, d: seq<U8>, k: nat, c: nat)
    requires |d| == |b| && 2 * k + 1 < |b| && c < 0x1_0000 && d[2 * k] == c % 256 && d[2 * k + 1] == c / 256
    requires forall i :: 0 <= i < |b| && i != 2 * k && i != 2 * k + 1 ==> d[i] == b[i]
    ensures d == Stored(b, k, c)
  {
  }

  /** icmp_reply on a packet of an IPv4 header and an ICMP message: addresses swapped, an echo reply, and both
      checksums right; nothing else changes. */
  method IcmpReply(p: array<U8>)
    requires 28 <= p.Length <= 131074
    modifies p
    ensures Check(p[..20]) == 0 && Check(p[20..]) == 0
    ensures p[12..16] == old(p[16..20]) && p[16..20] == old(p[12..16]) && p[20] == 0
    ensures p[..10] == old(p[..10]) && p[21] == old(p[21]) && p[24..] == old(p[24..])
  {
    hide Check;
    var daddr := p[12..16];
    var saddr := p[16..20];
    CopyFour(p, 16, daddr);
    CopyFour(p, 12, saddr);
    assert p[16..20] == daddr;
    p[20] := 0;
    ghost var mid := p[..];
    Seal(p, 20, p.Length, 22, 1);
    ghost var icmp := p[20..];
    assert p[20..p.Length] == icmp;
    Seal(p, 0, 20, 10, 5);
    assert p[20..] == icmp && p[0..20] == p[..20];
    assert p[12..16] == mid[12..16] && p[16..20] == mid[16..20];
  }
}
