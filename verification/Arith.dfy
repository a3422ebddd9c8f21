/** Integer facts shared by the other modules: division, powers of 64 and fresh addresses. */
module Arith {

  const TWO32: nat := 0x1_0000_0000
  const TWO64: nat := 0x1_0000_0000_0000_0000

  /** uint8_t */
  type U8 = n: nat | n < 256

  /** uint64_t */
  type U64 = n: nat | n < TWO64

  /** uint32_t */
  type U32 = n: nat | n < TWO32

  /** int */
  type I32 = n: int | -0x8000_0000 <= n < 0x8000_0000

  /** Division is determined by its defining equation. */
  lemma DivModUnique(n: int, d: int, q: int, r: int)
    requires d > 0 && n == q * d + r && 0 <= r < d
    ensures n / d == q && n % d == r
  {
    var k := n / d - q;
    assert n == (n / d) * d + n % d;
    assert k * d == (n / d) * d - q * d == r - n % d;
    assert (-k) * d == -(k * d);
    if k >= 1 { MulAtLeast(k, d); } else if k <= -1 { MulAtLeast(-k, d); }
  }

  lemma DivModEq(n: int, d: int)
    requires d > 0
    ensures n / d * d + n % d == n && 0 <= n % d < d
  {
  }

  lemma MulAtLeast(k: int, d: int)
    requires k >= 1 && d > 0
    ensures k * d >= d
  {
    assert (k - 1) * d >= 0;
  }

  lemma MulMonotone(a: int, b: int, d: nat)
    requires a <= b
    ensures a * d <= b * d
  {
    assert (b - a) * d >= 0;
  }

  /** 64 to the power e: the number of keys that e digits of six bits can name. */
  function Pow64(e: nat): (r: nat)
    ensures r >= 1
  {
    if e == 0 then 1 else 64 * Pow64(e - 1)
  }

  /** k without its e lowest six-bit digits, that is, k shifted right by 6 * e. */
  function Shr6(k: nat, e: nat): (r: nat)
    ensures r <= k
  {
    if e == 0 then k else Shr6(k / 64, e - 1)
  }

  lemma {:induction false} Pow64Monotone(a: nat, b: nat)
    requires a <= b
    ensures Pow64(a) <= Pow64(b)
  {
    if a < b {
      Pow64Monotone(a, b - 1);
    }
  }

  /** Dropping the digits one at a time, from either side. */
  lemma {:induction false} Shr6Step(k: nat, e: nat)
    ensures Shr6(k, e) / 64 == Shr6(k, e + 1)
    ensures Shr6(k, e + 1) * 64 + Shr6(k, e) % 64 == Shr6(k, e)
  {
    if e > 0 {
      Shr6Step(k / 64, e - 1);
    }
  }

  /** k fits in e digits exactly when nothing is left after dropping them. */
  lemma {:induction false} Shr6Zero(k: nat, e: nat)
    ensures Shr6(k, e) == 0 <==> k < Pow64(e)
  {
    if e > 0 {
      Shr6Zero(k / 64, e - 1);
    }
  }

  /** Every finite set of addresses leaves a non-null address unused. */
  lemma {:induction false} FreshExists(used: set<nat>)
    ensures exists a: nat :: a != 0 && a !in used
  {
    var bound := UpperBound(used);
    assert bound + 1 !in used;
  }

  lemma {:induction false} UpperBound(used: set<nat>) returns (b: nat)
    ensures forall a :: a in used ==> a <= b
    decreases |used|
  {
    if used == {} {
      b := 0;
    } else {
      var x :| x in used;
      var c := UpperBound(used - {x});
      b := if c < x then x else c;
      forall a | a in used ensures a <= b {
        assert a == x || a in used - {x};
      }
    }
  }

  lemma LowBytes(v: nat)
    ensures v % 0x100 + 0x100 * (v / 0x100 % 0x100) + 0x1_0000 * (v / 0x1_0000 % 0x100) == v % 0x100_0000
  {
    LowByte(v);
    MiddleByte(v);
  }

  lemma LowByte(v: nat)
    ensures v % 0x1_0000 == v % 0x100 + 0x100 * (v / 0x100 % 0x100)
  {
    var q, r := v / 0x1_0000, v % 0x1_0000;
    assert v == 0x1_0000 * q + r;
    assert v / 0x100 == 0x100 * q + r / 0x100;
  }

  lemma MiddleByte(v: nat)
    ensures v % 0x100_0000 == v % 0x1_0000 + 0x1_0000 * (v / 0x1_0000 % 0x100)
  {
    var q, r := v / 0x100_0000, v % 0x100_0000;
    assert v == 0x100_0000 * q + r;
    assert v / 0x1_0000 == 0x100 * q + r / 0x1_0000;
  }

  /** The four bytes of a 32-bit value, low byte first. */
  function Le32Bytes(v: U32): (s: seq<U8>)
    ensures |s| == 4 && s[0] + s[1] as int * 0x100 + s[2] as int * 0x1_0000 + s[3] as int * 0x100_0000 == v
  {
    LowBytes(v);
    [v % 0x100, v / 0x100 % 0x100, v / 0x1_0000 % 0x100, v / 0x100_0000]
  }
}
