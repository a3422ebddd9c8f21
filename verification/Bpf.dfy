/**
 The filter interpreter of kernel/security/seccomp.c, with the instruction codes of bpf.h.
 */
module Bpf {
  import opened Arith
  import opened Bits

  datatype Inst = Inst(code: nat, jt: U8, jf: U8, k: U32)

  /** Running at pc with accumulator a and index x, finished with a value, or outside the program text or
      the shift range, where C gives no meaning. */
  datatype State = Run(pc: int, a: U32, x: U32) | Done(value: U32) | Undefined

  const KILL: U32 := 0
  const ALLOW: U32 := 0x7fff0000
  const ACTION: U32 := 0x7fff0000

  const LD_W_ABS: nat := 0x20
  const LD_IMM: nat := 0x00
  const RET_K: nat := 0x06
  const RET_A: nat := 0x16
  const ADD_K: nat := 0x04
  const SUB_K: nat := 0x14
  const MUL_K: nat := 0x24
  const DIV_K: nat := 0x34
  const OR_K: nat := 0x44
  const AND_K: nat := 0x54
  const LSH_K: nat := 0x64
  const RSH_K: nat := 0x74
  const NEG: nat := 0x84
  const XOR_K: nat := 0xa4
  const TAX: nat := 0x07
  const TXA: nat := 0x87
  const JA: nat := 0x05
  const JEQ_K: nat := 0x15
  const JGT_K: nat := 0x25
  const JGE_K: nat := 0x35
  const JSET_K: nat := 0x45

  /** The little-endian word at offset k; the last three offsets of the 64-byte structure reach past it. */
  function Load(sd: seq<U8>, k: U32): U32
    requires |sd| >= 67 && k < 64
  {
    Word(sd[k], sd[k + 1], sd[k + 2], sd[k + 3])
  }

  function Word(b0: nat, b1: nat, b2: nat, b3: nat): nat {
    b0 + 0x100 * b1 + 0x1_0000 * b2 + 0x100_0000 * b3
  }

  function Or(a: U32, k: U32): U32 {
    Pow2Is32();
    BitOrBound(a, k, 32);
    BitOr(a, k)
  }

  function Xor(a: U32, k: U32): U32 {
    Pow2Is32();
    BitXorBound(a, k, 32);
    BitXor(a, k)
  }

  function Times(a: U32, k: U32): U32 {
    (a * k) % 0x1_0000_0000
  }

  function Quotient(a: U32, k: U32): U32 {
    if k == 0 then 0 else Divided(a, k)
  }

  function Divided(a: U32, k: nat): U32
    requires k > 0
  {
    DivSmaller(a, k);
    a / k
  }

  lemma DivSmaller(a: nat, k: nat)
    requires k > 0
    ensures 0 <= a / k <= a
  {
    DivModEq(a, k);
    if a / k > a {
      MulMonotone(1, k, a / k);
      assert false;
    }
  }

  function ShiftLeft(a: U32, k: U32): U32 {
    (a * Pow2(k)) % 0x1_0000_0000
  }

  function ShiftRight(a: U32, k: U32): U32 {
    Divided(a, Pow2(k))
  }

  /** The value an instruction leaves in the accumulator, for those that only compute. */
  function Compute(inst: Inst, a: U32, x: U32): U32 {
    if inst.code == ADD_K then (a + inst.k) % 0x1_0000_0000
    else if inst.code == SUB_K then (a - inst.k) % 0x1_0000_0000
    else if inst.code == MUL_K then Times(a, inst.k)
    else if inst.code == DIV_K then Quotient(a, inst.k)
    else if inst.code == AND_K then BitAnd(a, inst.k)
    else if inst.code == OR_K then Or(a, inst.k)
    else if inst.code == XOR_K then Xor(a, inst.k)
    else if inst.code == LSH_K then ShiftLeft(a, inst.k)
    else if inst.code == RSH_K then ShiftRight(a, inst.k)
    else if inst.code == NEG then (0 - a) % 0x1_0000_0000
    else if inst.code == LD_IMM then inst.k
    else if inst.code == TXA then x
    else a
  }

  predicate Computes(code: nat) {
    || code == ADD_K || code == SUB_K || code == MUL_K || code == DIV_K || code == AND_K || code == OR_K
    || code == XOR_K || code == LSH_K || code == RSH_K || code == NEG || code == LD_IMM || code == TAX || code == TXA
  }

  predicate Jumps(code: nat) {
    code == JEQ_K || code == JGT_K || code == JGE_K || code == JSET_K
  }

  predicate Taken(inst: Inst, a: U32) {
    if inst.code == JEQ_K then a == inst.k
    else if inst.code == JGT_K then a > inst.k
    else if inst.code == JGE_K then a >= inst.k
    else BitAnd(a, inst.k) != 0
  }

  /** The conversion of an unsigned sum back to a 32-bit int. */
  function ToInt(n: nat): int {
    var r := n % 0x1_0000_0000;
    if r < 0x8000_0000 then r else r - 0x1_0000_0000
  }

  /** A jump by n from i moves forward exactly when the sum stays in the int range. */
  lemma JumpForward(i: nat, n: nat)
    requires i < 0x1_0000 && n < 0x1_0000_0000
    ensures (ToInt(i + n) != 0x7FFF_FFFF && ToInt(i + n) + 1 > i) <==> i + n < 0x7FFF_FFFF
  {
  }

  predicate Shifts(code: nat) {
    code == LSH_K || code == RSH_K
  }

  /** One turn of the interpreter loop. */
  function Step(prog: seq<Inst>, sd: seq<U8>, s: State): State
    requires |sd| >= 67
  {
    if !s.Run? then s
    else if s.pc >= |prog| then Done(KILL)
    else if s.pc < 0 then Undefined
    else
      var inst := prog[s.pc];
      if inst.code == LD_W_ABS then
        if inst.k < 64 then Run(s.pc + 1, Load(sd, inst.k), s.x) else Done(KILL)
      else if inst.code == RET_K then Done(inst.k)
      else if inst.code == RET_A then Done(s.a)
      else if Computes(inst.code) then
        if Shifts(inst.code) && inst.k >= 32 then Undefined
        else Run(s.pc + 1, Compute(inst, s.a, s.x), if inst.code == TAX then s.a else s.x)
      else if inst.code == JA then
        var target := ToInt(s.pc + inst.k);
        if target == 0x7FFF_FFFF then Undefined else Run(target + 1, s.a, s.x)
      else if Jumps(inst.code) then Run(s.pc + (if Taken(inst, s.a) then inst.jt else inst.jf) + 1, s.a, s.x)
      else Done(KILL)
  }

  function Steps(prog: seq<Inst>, sd: seq<U8>, s: State, n: nat): State
    requires |sd| >= 67
  {
    if n == 0 then s else Step(prog, sd, Steps(prog, sd, s, n - 1))
  }

  const START: State := Run(0, 0, 0)

  /** The instruction at i neither jumps by a distance that leaves the int range nor shifts by 32 or more. */
  predicate Tame(inst: Inst, i: nat) {
    && (inst.code == JA ==> i + inst.k < 0x7FFF_FFFF)
    && (Shifts(inst.code) ==> inst.k < 32)
  }

  predicate Sane(prog: seq<Inst>) {
    |prog| < 0x1_0000 && forall i :: 0 <= i < |prog| ==> Tame(prog[i], i)
  }

  /** One instruction goes forward or ends the program, whatever the registers hold, exactly when it is tame. */
  lemma ForwardIffTame(prog: seq<Inst>, sd: seq<U8>, i: nat, a: U32, x: U32)
    requires |sd| >= 67 && i < |prog| < 0x1_0000
    ensures var s := Step(prog, sd, Run(i, a, x));
      (s.Done? || (s.Run? && s.pc > i)) <==> Tame(prog[i], i)
  {
    hide Load, Compute, ToInt;
    JumpForward(i, prog[i].k);
  }

  /** After n steps a sane program has ended or come at least n instructions far. */
  lemma {:induction false} Progress(prog: seq<Inst>, sd: seq<U8>, n: nat)
    requires |sd| >= 67 && Sane(prog)
    ensures var s := Steps(prog, sd, START, n);
      s.Done? || (s.Run? && s.pc >= n && 0 <= s.pc)
  {
    hide Step;
    if n > 0 {
      Progress(prog, sd, n - 1);
      var s := Steps(prog, sd, START, n - 1);
      Onward(prog, sd, s);
    }
  }

  lemma Onward(prog: seq<Inst>, sd: seq<U8>, s: State)
    requires |sd| >= 67 && Sane(prog) && (s.Run? ==> 0 <= s.pc)
    ensures var t := Step(prog, sd, s);
      match s
      case Run(pc, a, x) => t.Done? || (t.Run? && t.pc > pc && pc < |prog|)
      case _ => t == s
  {
    hide Load, Compute;
    if s.Run? && s.pc < |prog| { ForwardIffTame(prog, sd, s.pc, s.a, s.x); }
  }

  /** A sane program ends within its length, on all data. */
  lemma Halts(prog: seq<Inst>, sd: seq<U8>)
    requires |sd| >= 67 && Sane(prog)
    ensures Steps(prog, sd, START, |prog| + 1).Done?
  {
    hide Step;
    Progress(prog, sd, |prog|);
    Onward(prog, sd, Steps(prog, sd, START, |prog|));
  }

  /** Without the condition it need not end: a single jump by 2^32 - 1 comes back to itself for ever. */
  lemma {:induction false} Spins(sd: seq<U8>, n: nat)
    requires |sd| >= 67
    ensures Steps([Inst(JA, 0, 0, 0xFFFF_FFFF)], sd, START, n) == START
  {
    if n > 0 { Spins(sd, n - 1); }
  }

  // ---------------------------------------------------------------- what the instructions compute

  /** The bitwise instructions, bit by bit, and the arithmetic ones by what undoes them. */
  lemma ComputedBits(k: U32, a: U32, x: U32, i: nat)
    requires i < 32
    ensures Bit(Compute(Inst(AND_K, 0, 0, k), a, x), i) <==> Bit(a, i) && Bit(k, i)
    ensures Bit(Compute(Inst(OR_K, 0, 0, k), a, x), i) <==> Bit(a, i) || Bit(k, i)
    ensures Bit(Compute(Inst(XOR_K, 0, 0, k), a, x), i) <==> Bit(a, i) != Bit(k, i)
    ensures Bit(Compute(Inst(LSH_K, 0, 0, k), a, x), i) <==> i >= k && Bit(a, i - k)
    ensures Bit(Compute(Inst(RSH_K, 0, 0, k), a, x), i) <==> Bit(a, i + k)
    ensures Compute(Inst(SUB_K, 0, 0, k), Compute(Inst(ADD_K, 0, 0, k), a, x), x) == a
    ensures Compute(Inst(NEG, 0, 0, k), Compute(Inst(NEG, 0, 0, k), a, x), x) == a
    ensures Compute(Inst(XOR_K, 0, 0, k), Compute(Inst(XOR_K, 0, 0, k), a, x), x) == a
    ensures var q := Compute(Inst(DIV_K, 0, 0, k), a, x); if k == 0 then q == 0 else q * k <= a < q * k + k
  {
    hide Bit, BitAnd, BitOr, BitXor, Times, Quotient, ShiftLeft, ShiftRight;
    AndBit(a, k, i);
    OrBit(a, k, i);
    XorBit(a, k, i);
    ShiftBits(k, a, i);
    AddBack(a, k);
    NegateBack(a);
    XorTwice(a, k);
    QuotientIs(a, k);
  }

  lemma QuotientIs(a: U32, k: U32)
    ensures if k == 0 then Quotient(a, k) == 0 else Quotient(a, k) * k <= a < Quotient(a, k) * k + k
  {
    if k > 0 { DivModEq(a, k); }
  }

  lemma ShiftBits(k: U32, a: U32, i: nat)
    requires i < 32
    ensures Bit(ShiftLeft(a, k), i) <==> i >= k && Bit(a, i - k)
    ensures Bit(ShiftRight(a, k), i) <==> Bit(a, i + k)
  {
    hide Bit, Pow2;
    Pow2Is32();
    ModBit(a * Pow2(k), 32, i);
    TimesBit(a, k, i);
    QuotientBit(a, k, i);
  }

  lemma AddBack(a: U32, k: U32)
    ensures ((a + k) % 0x1_0000_0000 - k) % 0x1_0000_0000 == a
  {
    assert a + k < 0x1_0000_0000 || (a + k) % 0x1_0000_0000 == a + k - 0x1_0000_0000;
  }

  lemma NegateBack(a: U32)
    ensures (0 - (0 - a) % 0x1_0000_0000) % 0x1_0000_0000 == a
  {
    assert (0 - a) % 0x1_0000_0000 == if a == 0 then 0 else 0x1_0000_0000 - a;
  }

  lemma XorTwice(a: nat, k: nat)
    ensures BitXor(BitXor(a, k), k) == a
  {
    forall i: nat ensures Bit(BitXor(BitXor(a, k), k), i) == Bit(a, i) {
      XorBit(BitXor(a, k), k, i);
      XorBit(a, k, i);
    }
    SameBits(BitXor(BitXor(a, k), k), a);
  }

  /** A set-jump is taken exactly when accumulator and constant share a bit. */
  lemma SharedBit(jt: U8, jf: U8, k: U32, a: U32)
    ensures Taken(Inst(JSET_K, jt, jf, k), a) <==> exists i: nat :: Bit(a, i) && Bit(k, i)
  {
    hide Bit, BitAnd;
    SomeBit(BitAnd(a, k));
    if Taken(Inst(JSET_K, jt, jf, k), a) {
      var i: nat :| Bit(BitAnd(a, k), i);
      AndBit(a, k, i);
    }
    if i: nat :| Bit(a, i) && Bit(k, i) { AndBit(a, k, i); }
  }

  /** The value of a filter on the given data. */
  function Verdict(prog: seq<Inst>, sd: seq<U8>): U32
    requires |sd| >= 67 && Sane(prog)
  {
    Halts(prog, sd);
    Steps(prog, sd, START, |prog| + 1).value
  }

  lemma {:induction false} Settled(prog: seq<Inst>, sd: seq<U8>, n: nat, m: nat)
    requires |sd| >= 67 && n <= m && Steps(prog, sd, START, n).Done?
    ensures Steps(prog, sd, START, m) == Steps(prog, sd, START, n)
    decreases m
  {
    if n < m { Settled(prog, sd, n, m - 1); }
  }

  /** seccomp_run_filter: it ends after at most |prog| instructions with the filter's verdict. */
  method RunFilter(sd: seq<U8>, prog: seq<Inst>) returns (value: U32)
    requires |sd| >= 67 && Sane(prog)
    ensures value == Verdict(prog, sd)
  {
    hide Step, Steps, Load, Compute, Computes, Jumps, Taken, Tame, ToInt;
    Halts(prog, sd);
    var a: U32 := 0;
    var x: U32 := 0;
    var pc := 0;
    ghost var n: nat := 0;
    Origin(prog, sd);
    while pc < |prog|
      invariant Run(pc, a, x) == Steps(prog, sd, START, n) && n <= pc && n <= |prog|
      decreases |prog| - n
    {
      var inst := prog[pc];
      Onward(prog, sd, Run(pc, a, x));
      NextStep(prog, sd, n);
      var s := Execute(sd, inst, pc, a, x, prog);
      n := n + 1;
      match s {
        case Done(v) =>
          Settled(prog, sd, n, |prog| + 1);
          return v;
        case Run(p, b, y) => pc, a, x := p, b, y;
        case Undefined =>
      }
    }
    Onward(prog, sd, Run(pc, a, x));
    NextStep(prog, sd, n);
    Past(prog, sd, pc, a, x);
    Settled(prog, sd, n + 1, |prog| + 1);
    value := KILL;
  }

  lemma Past(prog: seq<Inst>, sd: seq<U8>, pc: int, a: U32, x: U32)
    requires |sd| >= 67 && pc >= |prog|
    ensures Step(prog, sd, Run(pc, a, x)) == Done(KILL)
  {
  }

  /** The cases of the switch that compute. */
  method Alu(inst: Inst, a: U32, x: U32) returns (r: U32)
    requires Computes(inst.code)
    ensures r == Compute(inst, a, x)
  {
    hide Times, Quotient, ShiftLeft, ShiftRight, BitAnd, Or, Xor;
    var k := inst.k;
    if inst.code == ADD_K { return (a + k) % 0x1_0000_0000; }
    if inst.code == SUB_K { return (a - k) % 0x1_0000_0000; }
    if inst.code == MUL_K { return Times(a, k); }
    if inst.code == DIV_K { return Quotient(a, k); }
    if inst.code == AND_K { return BitAnd(a, k); }
    if inst.code == OR_K { return Or(a, k); }
    if inst.code == XOR_K { return Xor(a, k); }
    if inst.code == LSH_K { return ShiftLeft(a, k); }
    if inst.code == RSH_K { return ShiftRight(a, k); }
    if inst.code == NEG { return (0 - a) % 0x1_0000_0000; }
    if inst.code == LD_IMM { return k; }
    if inst.code == TXA { return x; }
    return a;
  }

  /** The conditional jumps of the switch: the offset to add to pc. */
  method Branch(inst: Inst, a: U32) returns (offset: U8)
    requires Jumps(inst.code)
    ensures offset == if Taken(inst, a) then inst.jt else inst.jf
  {
    hide BitAnd;
    var k := inst.k;
    if inst.code == JEQ_K { return if a == k then inst.jt else inst.jf; }
    if inst.code == JGT_K { return if a > k then inst.jt else inst.jf; }
    if inst.code == JGE_K { return if a >= k then inst.jt else inst.jf; }
    return if BitAnd(a, k) != 0 then inst.jt else inst.jf;
  }

  /** The switch of the interpreter on one instruction, with the loop's increment of pc. */
  method Execute(sd: seq<U8>, inst: Inst, pc: nat, a: U32, x: U32, ghost prog: seq<Inst>) returns (s: State)
    requires |sd| >= 67 && pc < |prog| < 0x1_0000 && prog[pc] == inst && Tame(inst, pc)
    ensures s == Step(prog, sd, Run(pc, a, x))
  {
    hide Load, Compute, Taken, ToInt;
    JumpForward(pc, inst.k);
    if inst.code == LD_W_ABS {
      if inst.k < 64 { return Run(pc + 1, Load(sd, inst.k), x); }
      return Done(KILL);
    }
    if inst.code == RET_K { return Done(inst.k); }
    if inst.code == RET_A { return Done(a); }
    if Computes(inst.code) {
      var r := Alu(inst, a, x);
      return Run(pc + 1, r, if inst.code == TAX then a else x);
    }
    if inst.code == JA { return Run(ToInt(pc + inst.k) + 1, a, x); }
    if Jumps(inst.code) {
      var offset := Branch(inst, a);
      return Run(pc + offset + 1, a, x);
    }
    return Done(KILL);
  }

  lemma Origin(prog: seq<Inst>, sd: seq<U8>)
    requires |sd| >= 67
    ensures Steps(prog, sd, START, 0) == START
  {
  }

  lemma NextStep(prog: seq<Inst>, sd: seq<U8>, n: nat)
    requires |sd| >= 67
    ensures Steps(prog, sd, START, n + 1) == Step(prog, sd, Steps(prog, sd, START, n))
  {
  }
}
