/**
 Bitwise operations on natural numbers.
 */
module Bits {
  import opened Arith

  function Pow2(k: nat): (r: nat)
    ensures r >= 1
  {
    if k == 0 then 1 else 2 * Pow2(k - 1)
  }

  /** a | b */
  function BitOr(a: nat, b: nat): nat
    decreases a + b
  {
    if a == 0 && b == 0 then 0 else (if a % 2 == 1 || b % 2 == 1 then 1 else 0) + 2 * BitOr(a / 2, b / 2)
  }

  lemma {:induction false} BitOrZero(a: nat)
    ensures BitOr(a, 0) == a
  {
    if a > 0 { BitOrZero(a / 2); }
  }

  /** When the low k bits of a are zero and b has only those, the bitwise or is the sum. */
  lemma {:induction false} BitOrDisjoint(a: nat, b: nat, k: nat)
    requires a % Pow2(k) == 0 && b < Pow2(k)
    ensures BitOr(a, b) == a + b
    decreases k
  {
    if k == 0 {
      BitOrZero(a);
    } else if a > 0 || b > 0 {
      var p := Pow2(k - 1);
      var q := a / (2 * p);
      assert a == 2 * (q * p) by { DivModEq(a, 2 * p); assert q * (2 * p) == 2 * (q * p); }
      assert a / 2 == q * p;
      DivModUnique(q * p, p, q, 0);
      BitOrDisjoint(a / 2, b / 2, k - 1);
    }
  }

  lemma {:induction false} BitOrBound(a: nat, b: nat, k: nat)
    requires a < Pow2(k) && b < Pow2(k)
    ensures BitOr(a, b) < Pow2(k)
    decreases k
  {
    if a > 0 || b > 0 { BitOrBound(a / 2, b / 2, k - 1); }
  }

  /** a & b */
  function BitAnd(a: nat, b: nat): (r: nat)
    ensures r <= a && r <= b
  {
    if a == 0 then 0 else (if a % 2 == 1 && b % 2 == 1 then 1 else 0) + 2 * BitAnd(a / 2, b / 2)
  }

  /** a ^ b */
  function BitXor(a: nat, b: nat): nat
    decreases a + b
  {
    if a == 0 && b == 0 then 0 else (if a % 2 != b % 2 then 1 else 0) + 2 * BitXor(a / 2, b / 2)
  }

  lemma {:induction false} BitXorBound(a: nat, b: nat, k: nat)
    requires a < Pow2(k) && b < Pow2(k)
    ensures BitXor(a, b) < Pow2(k)
    decreases k
  {
    if a > 0 || b > 0 { BitXorBound(a / 2, b / 2, k - 1); }
  }

  lemma Pow2Is32()
    ensures Pow2(32) == 0x1_0000_0000
  {
    assert Pow2(8) == 0x100;
    assert Pow2(16) == 0x1_0000;
    assert Pow2(24) == 0x100_0000;
  }

  // ---------------------------------------------------------------- bit by bit

  /** Bit i of n is set. */
  predicate Bit(n: nat, i: nat)
    decreases i
  {
    if i == 0 then n % 2 == 1 else Bit(n / 2, i - 1)
  }

  lemma {:induction false} BitZero(i: nat)
    ensures !Bit(0, i)
  {
    if i > 0 { BitZero(i - 1); }
  }

  lemma {:induction false} AndBit(a: nat, b: nat, i: nat)
    ensures Bit(BitAnd(a, b), i) <==> Bit(a, i) && Bit(b, i)
    decreases i
  {
    if a == 0 { BitZero(i); } else if i > 0 { AndBit(a / 2, b / 2, i - 1); }
  }

  lemma {:induction false} OrBit(a: nat, b: nat, i: nat)
    ensures Bit(BitOr(a, b), i) <==> Bit(a, i) || Bit(b, i)
    decreases i
  {
    if a == 0 && b == 0 { BitZero(i); } else if i > 0 { OrBit(a / 2, b / 2, i - 1); }
  }

  lemma {:induction false} XorBit(a: nat, b: nat, i: nat)
    ensures Bit(BitXor(a, b), i) <==> Bit(a, i) != Bit(b, i)
    decreases i
  {
    if a == 0 && b == 0 { BitZero(i); } else if i > 0 { XorBit(a / 2, b / 2, i - 1); }
  }

  /** Numbers with the same bits are the same. */
  lemma {:induction false} SameBits(a: nat, b: nat)
    requires forall i: nat :: Bit(a, i) == Bit(b, i)
    ensures a == b
    decreases a + b
  {
    assert Bit(a, 0) == Bit(b, 0);
    if a + b > 0 {
      forall i: nat ensures Bit(a / 2, i) == Bit(b / 2, i) { assert Bit(a, i + 1) == Bit(b, i + 1); }
      SameBits(a / 2, b / 2);
    }
  }

  lemma LowBit(a: nat, i: nat)
    requires i == 0
    ensures Bit(a, i) <==> a % 2 == 1
  {
  }

  lemma NextBit(a: nat, i: nat)
    requires i > 0
    ensures Bit(a, i) <==> Bit(a / 2, i - 1)
  {
  }

  lemma {:induction false} SomeBit(a: nat)
    ensures a != 0 <==> exists i: nat :: Bit(a, i)
  {
    if a == 0 {
      forall i: nat ensures !Bit(a, i) { BitZero(i); }
    } else if a % 2 == 1 {
      var i: nat := 0;
      LowBit(a, i);
    } else {
      SomeBit(a / 2);
      var i: nat :| Bit(a / 2, i);
      NextBit(a, i + 1);
    }
  }

  /** The low m bits. */
  lemma {:induction false} ModBit(n: nat, m: nat, i: nat)
    ensures Bit(n % Pow2(m), i) <==> i < m && Bit(n, i)
    decreases i, m
  {
    var p := Pow2(m);
    if m == 0 {
      BitZero(i);
    } else {
      var h := Pow2(m - 1);
      HalfMod(n, h);
      if i > 0 { ModBit(n / 2, m - 1, i - 1); }
    }
  }

  lemma HalfMod(n: nat, h: nat)
    requires h > 0
    ensures n % (2 * h) / 2 == n / 2 % h && n % (2 * h) % 2 == n % 2
  {
    var q, r := n / (2 * h), n % (2 * h);
    assert n == 2 * (q * h) + r by { DivModEq(n, 2 * h); assert q * (2 * h) == 2 * (q * h); }
    assert n / 2 == q * h + r / 2;
    DivModUnique(n / 2, h, q, r / 2);
  }

  lemma {:induction false} TimesBit(a: nat, k: nat, i: nat)
    ensures Bit(a * Pow2(k), i) <==> i >= k && Bit(a, i - k)
    decreases k
  {
    if k > 0 {
      var half := a * Pow2(k - 1);
      assert a * Pow2(k) == 2 * half;
      if i > 0 { TimesBit(a, k - 1, i - 1); }
    }
  }

  lemma {:induction false} QuotientBit(a: nat, k: nat, i: nat)
    ensures a / Pow2(k) >= 0 && (Bit(a / Pow2(k), i) <==> Bit(a, i + k))
    decreases k
  {
    if k > 0 {
      HalfDiv(a, Pow2(k - 1));
      QuotientBit(a / 2, k - 1, i);
    }
  }

  lemma HalfDiv(a: nat, h: nat)
    requires h > 0
    ensures a / (2 * h) == a / 2 / h
  {
    var q, r := a / 2 / h, a / 2 % h;
    assert a / 2 == q * h + r by { DivModEq(a / 2, h); }
    assert a == q * (2 * h) + (2 * r + a % 2) by { assert q * (2 * h) == 2 * (q * h); }
    DivModUnique(a, 2 * h, q, 2 * r + a % 2);
  }

  lemma AndStep(x: nat, y: nat)
    ensures BitAnd(x, y) == (if x % 2 == 1 && y % 2 == 1 then 1 else 0) + 2 * BitAnd(x / 2, y / 2)
  {
  }

  lemma OddHalf(p: nat)
    requires p >= 1
    ensures (2 * p - 1) / 2 == p - 1 && (2 * p - 1) % 2 == 1
  {
  }

  ghost function Rest(x: nat, m: nat): nat
    requires m > 0
  {
    x % m
  }

  /** A mask of k ones keeps the low k bits. */
  lemma {:induction false} AndOnes(x: nat, k: nat)
    ensures BitAnd(x, Pow2(k) - 1) == Rest(x, Pow2(k))
    decreases k
  {
    if k == 0 {
      AndZero(x);
    } else {
      hide BitAnd, Rest;
      var p := Pow2(k - 1);
      assert Pow2(k) == 2 * p;
      hide Pow2;
      HalfRest(x, p);
      OddHalf(p);
      AndStep(x, 2 * p - 1);
      AndOnes(x / 2, k - 1);
    }
  }

  lemma HalfRest(x: nat, p: nat)
    requires p > 0
    ensures Rest(x, 2 * p) == 2 * Rest(x / 2, p) + x % 2
  {
    HalfMod(x, p);
    var r := x % (2 * p);
    assert r == 2 * (r / 2) + r % 2;
  }

  lemma {:induction false} AndZero(x: nat)
    ensures BitAnd(x, 0) == 0
  {
    if x > 0 { AndZero(x / 2); }
  }

  /** A mask moved up by k bits. */
  lemma {:induction false} AndShift(x: nat, m: nat, k: nat)
    ensures x / Pow2(k) >= 0 && BitAnd(x, m * Pow2(k)) == BitAnd(x / Pow2(k), m) * Pow2(k)
    decreases k
  {
    if k == 0 {
      assert m * Pow2(0) == m && x / Pow2(0) == x;
    } else {
      hide BitAnd, Pow2;
      AndShift(x / 2, m, k - 1);
      Pow2Step(k);
      HalfDiv(x, Pow2(k - 1));
      MaskStep(x, m, Pow2(k - 1), BitAnd(x / Pow2(k), m));
    }
  }

  lemma Pow2Step(k: nat)
    requires k > 0
    ensures Pow2(k) == 2 * Pow2(k - 1)
  {
  }

  lemma MaskStep(x: nat, m: nat, p: nat, y: nat)
    requires BitAnd(x / 2, m * p) == y * p
    ensures BitAnd(x, m * (2 * p)) == y * (2 * p)
  {
    hide BitAnd;
    Doubled(m, p);
    Doubled(y, p);
    AndStep(x, 2 * (m * p));
    Even(m * p);
  }

  lemma Doubled(y: nat, p: nat)
    ensures y * (2 * p) == 2 * (y * p)
  {
  }

  lemma Even(n: nat)
    ensures 2 * n / 2 == n && 2 * n % 2 == 0
  {
  }
}
