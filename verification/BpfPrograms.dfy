/**
 Verdicts of small filters, by the instruction codes of kernel/include/bpf.h: what each instruction means to
 the writer of a filter.
 */
module BpfPrograms {
  import opened Arith
  import opened Bits
  import opened Bpf

  /** A filter that has ended after n instructions has that verdict. */
  lemma Ends(prog: seq<Inst>, sd: seq<U8>, n: nat, value: U32)
    requires |sd| >= 67 && Sane(prog) && n <= |prog| + 1 && Steps(prog, sd, START, n) == Done(value)
    ensures Verdict(prog, sd) == value
  {
    hide Step, Steps;
    Settled(prog, sd, n, |prog| + 1);
  }

  /** The accumulator set to c, and one more instruction. */
  lemma Loaded(prog: seq<Inst>, sd: seq<U8>, c: U32)
    requires |sd| >= 67 && |prog| > 1 && prog[0] == Inst(0x00, 0, 0, c)
    ensures Steps(prog, sd, START, 1) == Run(1, c, 0)
    ensures Steps(prog, sd, START, 2) == Step(prog, sd, Run(1, c, 0))
  {
    Origin(prog, sd);
    NextStep(prog, sd, 0);
    NextStep(prog, sd, 1);
  }

  /** Set the accumulator to c, compute, and return it. */
  function Computing(c: U32, code: nat, k: U32): (prog: seq<Inst>)
    ensures |prog| == 3
  {
    [Inst(0x00, 0, 0, c), Inst(code, 0, 0, k), Inst(0x16, 0, 0, 0)]
  }

  lemma ComputingIs(c: U32, code: nat, k: U32, sd: seq<U8>)
    requires |sd| >= 67 && Computes(code) && (Shifts(code) ==> k < 32)
    ensures Sane(Computing(c, code, k)) && Verdict(Computing(c, code, k), sd) == Compute(Inst(code, 0, 0, k), c, 0)
  {
    hide Compute;
    var prog := Computing(c, code, k);
    Loaded(prog, sd, c);
    NextStep(prog, sd, 2);
    Ends(prog, sd, 3, Compute(Inst(code, 0, 0, k), c, 0));
  }

  /** The arithmetic instructions work modulo 2^32; dividing by 0 gives 0. */
  lemma Arithmetic(c: U32, k: U32, sd: seq<U8>)
    requires |sd| >= 67
    ensures Sane(Computing(c, 0x04, k)) && Verdict(Computing(c, 0x04, k), sd) == (c + k) % 0x1_0000_0000
    ensures Sane(Computing(c, 0x14, k)) && Verdict(Computing(c, 0x14, k), sd) == (c - k) % 0x1_0000_0000
    ensures Sane(Computing(c, 0x24, k)) && Verdict(Computing(c, 0x24, k), sd) == c * k % 0x1_0000_0000
    ensures Sane(Computing(c, 0x34, k)) && Verdict(Computing(c, 0x34, k), sd) == if k == 0 then 0 else c / k
    ensures Sane(Computing(c, 0x84, k)) && Verdict(Computing(c, 0x84, k), sd) == (0 - c) % 0x1_0000_0000
    ensures Sane(Computing(c, 0x00, k)) && Verdict(Computing(c, 0x00, k), sd) == k
  {
    hide Verdict, Sane, Computing;
    ComputingIs(c, 0x04, k, sd);
    ComputingIs(c, 0x14, k, sd);
    ComputingIs(c, 0x24, k, sd);
    ComputingIs(c, 0x34, k, sd);
    ComputingIs(c, 0x84, k, sd);
    ComputingIs(c, 0x00, k, sd);
  }

  /** The bitwise instructions, bit by bit. */
  lemma Bitwise(c: U32, k: U32, i: nat, sd: seq<U8>)
    requires |sd| >= 67 && i < 32
    ensures Sane(Computing(c, 0x54, k)) && (Bit(Verdict(Computing(c, 0x54, k), sd), i) <==> Bit(c, i) && Bit(k, i))
    ensures Sane(Computing(c, 0x44, k)) && (Bit(Verdict(Computing(c, 0x44, k), sd), i) <==> Bit(c, i) || Bit(k, i))
    ensures Sane(Computing(c, 0xa4, k)) && (Bit(Verdict(Computing(c, 0xa4, k), sd), i) <==> Bit(c, i) != Bit(k, i))
    ensures k < 32 ==>
              Sane(Computing(c, 0x64, k)) && (Bit(Verdict(Computing(c, 0x64, k), sd), i) <==> i >= k && Bit(c, i - k))
    ensures k < 32 ==>
              Sane(Computing(c, 0x74, k)) && (Bit(Verdict(Computing(c, 0x74, k), sd), i) <==> Bit(c, i + k))
  {
    hide Verdict, Sane, Computing, Compute, Bit;
    ComputedBits(k, c, 0, i);
    ComputingIs(c, 0x54, k, sd);
    ComputingIs(c, 0x44, k, sd);
    ComputingIs(c, 0xa4, k, sd);
    if k < 32 {
      ComputingIs(c, 0x64, k, sd);
      ComputingIs(c, 0x74, k, sd);
    }
  }

  /** Set the accumulator to c, and return yes or no after a conditional jump. */
  function Asking(c: U32, code: nat, k: U32, yes: U32, no: U32): (prog: seq<Inst>)
    ensures |prog| == 4
  {
    [Inst(0x00, 0, 0, c), Inst(code, 0, 1, k), Inst(0x06, 0, 0, yes), Inst(0x06, 0, 0, no)]
  }

  lemma AskingIs(c: U32, code: nat, k: U32, yes: U32, no: U32, sd: seq<U8>)
    requires |sd| >= 67 && Jumps(code)
    ensures Sane(Asking(c, code, k, yes, no))
    ensures Verdict(Asking(c, code, k, yes, no), sd) == if Taken(Inst(code, 0, 1, k), c) then yes else no
  {
    hide Taken, Compute;
    var prog := Asking(c, code, k, yes, no);
    Loaded(prog, sd, c);
    NextStep(prog, sd, 2);
    Ends(prog, sd, 3, if Taken(Inst(code, 0, 1, k), c) then yes else no);
  }

  /** The conditional jumps. */
  lemma Conditions(c: U32, k: U32, yes: U32, no: U32, sd: seq<U8>)
    requires |sd| >= 67
    ensures Sane(Asking(c, 0x15, k, yes, no))
    ensures Verdict(Asking(c, 0x15, k, yes, no), sd) == if c == k then yes else no
    ensures Sane(Asking(c, 0x25, k, yes, no))
    ensures Verdict(Asking(c, 0x25, k, yes, no), sd) == if c > k then yes else no
    ensures Sane(Asking(c, 0x35, k, yes, no))
    ensures Verdict(Asking(c, 0x35, k, yes, no), sd) == if c >= k then yes else no
    ensures Sane(Asking(c, 0x45, k, yes, no))
    ensures Verdict(Asking(c, 0x45, k, yes, no), sd) == if exists i: nat :: Bit(c, i) && Bit(k, i) then yes else no
  {
    AskingIs(c, 0x15, k, yes, no, sd);
    AskingIs(c, 0x25, k, yes, no, sd);
    AskingIs(c, 0x35, k, yes, no, sd);
    AskingIs(c, 0x45, k, yes, no, sd);
    SharedBit(0, 1, k, c);
    hide Verdict, Sane, Asking, Bit, BitAnd;
  }

  /** A table of 256 return instructions, each with its own number. */
  function Numbers(): (prog: seq<Inst>)
    ensures |prog| == 256 && forall i :: 0 <= i < 256 ==> prog[i] == Inst(0x06, 0, 0, i)
  {
    seq(256, i requires 0 <= i < 256 => Inst(0x06, 0, 0, i))
  }

  /** A conditional jump skips jt instructions when its condition holds, and jf when it does not. */
  lemma Targets(c: U32, k: U32, jt: U8, jf: U8, sd: seq<U8>)
    requires |sd| >= 67
    ensures Numbered(c, Inst(0x15, jt, jf, k), sd, if c == k then jt else jf)
    ensures Numbered(c, Inst(0x25, jt, jf, k), sd, if c > k then jt else jf)
    ensures Numbered(c, Inst(0x35, jt, jf, k), sd, if c >= k then jt else jf)
    ensures Numbered(c, Inst(0x45, jt, jf, k), sd, if exists i: nat :: Bit(c, i) && Bit(k, i) then jt else jf)
    ensures k < 256 ==> Numbered(c, Inst(0x05, jt, jf, k), sd, k)
  {
    SharedBit(jt, jf, k, c);
    hide Verdict, Sane, Bit, BitAnd, Numbered;
    TargetIs(c, Inst(0x15, jt, jf, k), sd);
    TargetIs(c, Inst(0x25, jt, jf, k), sd);
    TargetIs(c, Inst(0x35, jt, jf, k), sd);
    TargetIs(c, Inst(0x45, jt, jf, k), sd);
    if k < 256 { TargetIs(c, Inst(0x05, jt, jf, k), sd); }
  }

  /** With the accumulator at c the jump leads to return instruction n of the table behind it. */
  ghost predicate Numbered(c: U32, jump: Inst, sd: seq<U8>, n: U32)
    requires |sd| >= 67
  {
    var prog := [Inst(0x00, 0, 0, c), jump] + Numbers();
    Sane(prog) && Verdict(prog, sd) == n
  }

  lemma TargetIs(c: U32, jump: Inst, sd: seq<U8>)
    requires |sd| >= 67 && (Jumps(jump.code) || (jump.code == 0x05 && jump.k < 256))
    ensures Numbered(c, jump, sd, if jump.code == 0x05 then jump.k else if Taken(jump, c) then jump.jt else jump.jf)
  {
    hide Taken, Numbers, Verdict, Step, Steps;
    var prog := [Inst(0x00, 0, 0, c), jump] + Numbers();
    var n := if jump.code == 0x05 then jump.k else if Taken(jump, c) then jump.jt else jump.jf;
    assert prog[n + 2] == Inst(0x06, 0, 0, n);
    JumpSteps(prog, c, jump, n, sd);
    Ends(prog, sd, 3, n);
  }

  lemma JumpSteps(prog: seq<Inst>, c: U32, jump: Inst, n: nat, sd: seq<U8>)
    requires |sd| >= 67 && n < 256 && n + 2 < |prog| && prog[0] == Inst(0x00, 0, 0, c) && prog[1] == jump
    requires prog[n + 2] == Inst(0x06, 0, 0, n) && (Jumps(jump.code) || jump.code == 0x05)
    requires n == if jump.code == 0x05 then jump.k else if Taken(jump, c) then jump.jt else jump.jf
    ensures Steps(prog, sd, START, 3) == Done(n)
  {
    hide Taken, Compute;
    Loaded(prog, sd, c);
    NextStep(prog, sd, 2);
  }

  /** The index register set to c and the accumulator to e, and one more instruction. */
  lemma Prepared(prog: seq<Inst>, sd: seq<U8>, c: U32, e: U32)
    requires |sd| >= 67 && |prog| > 3
    requires prog[0] == Inst(0x00, 0, 0, c) && prog[1] == Inst(0x07, 0, 0, 0) && prog[2] == Inst(0x00, 0, 0, e)
    ensures Steps(prog, sd, START, 4) == Step(prog, sd, Run(3, e, c))
  {
    Loaded(prog, sd, c);
    NextStep(prog, sd, 2);
    NextStep(prog, sd, 3);
  }

  /** What went to the index register comes back from it. */
  lemma IndexBack(c: U32, e: U32, sd: seq<U8>)
    requires |sd| >= 67
    ensures var prog := [Inst(0x00, 0, 0, c), Inst(0x07, 0, 0, 0), Inst(0x00, 0, 0, e), Inst(0x87, 0, 0, 0),
                         Inst(0x16, 0, 0, 0)];
      Sane(prog) && Verdict(prog, sd) == c
  {
    var prog := [Inst(0x00, 0, 0, c), Inst(0x07, 0, 0, 0), Inst(0x00, 0, 0, e), Inst(0x87, 0, 0, 0),
                 Inst(0x16, 0, 0, 0)];
    Prepared(prog, sd, c, e);
    NextStep(prog, sd, 4);
    Ends(prog, sd, 5, c);
  }

  /** Loads, computations and jumps leave the index register as it is. */
  lemma IndexKept(c: U32, e: U32, inst: Inst, sd: seq<U8>)
    requires |sd| >= 67 && inst.jt == inst.jf == 0
    requires inst.code in {0x00, 0x04, 0x05, 0x14, 0x15, 0x20, 0x24, 0x25, 0x34, 0x35, 0x44, 0x45, 0x54, 0x64, 0x74,
                           0x84, 0x87, 0xa4}
    requires inst.code == 0x20 ==> inst.k < 64
    requires inst.code == 0x05 ==> inst.k == 0
    requires inst.code == 0x64 || inst.code == 0x74 ==> inst.k < 32
    ensures var prog := [Inst(0x00, 0, 0, c), Inst(0x07, 0, 0, 0), Inst(0x00, 0, 0, e), inst, Inst(0x87, 0, 0, 0),
                         Inst(0x16, 0, 0, 0)];
      Sane(prog) && Verdict(prog, sd) == c
  {
    var prog := [Inst(0x00, 0, 0, c), Inst(0x07, 0, 0, 0), Inst(0x00, 0, 0, e), inst, Inst(0x87, 0, 0, 0),
                 Inst(0x16, 0, 0, 0)];
    Prepared(prog, sd, c, e);
    hide Step, Steps, Verdict;
    KeepsIndex(prog, sd, inst, e, c);
    NextStep(prog, sd, 4);
    TxaReturns(prog, sd, Step(prog, sd, Run(3, e, c)).a, c);
    NextStep(prog, sd, 5);
    Ends(prog, sd, 6, c);
  }

  lemma KeepsIndex(prog: seq<Inst>, sd: seq<U8>, inst: Inst, e: U32, c: U32)
    requires |sd| >= 67 && inst.jt == inst.jf == 0 && |prog| == 6 && prog[3] == inst
    requires inst.code in {0x00, 0x04, 0x05, 0x14, 0x15, 0x20, 0x24, 0x25, 0x34, 0x35, 0x44, 0x45, 0x54, 0x64, 0x74,
                           0x84, 0x87, 0xa4}
    requires inst.code == 0x20 ==> inst.k < 64
    requires inst.code == 0x05 ==> inst.k == 0
    requires inst.code == 0x64 || inst.code == 0x74 ==> inst.k < 32
    ensures var s := Step(prog, sd, Run(3, e, c)); s.Run? && s.pc == 4 && s.x == c
  {
    hide Taken, Load, Compute;
  }

  lemma TxaReturns(prog: seq<Inst>, sd: seq<U8>, a: U32, c: U32)
    requires |sd| >= 67 && |prog| == 6 && prog[4] == Inst(0x87, 0, 0, 0) && prog[5] == Inst(0x16, 0, 0, 0)
    ensures Step(prog, sd, Step(prog, sd, Run(4, a, c))) == Done(c)
  {
  }

  /** Jumps, and a move to the index register, leave the accumulator as it is. */
  lemma AccumulatorKept(c: U32, e: U32, inst: Inst, sd: seq<U8>)
    requires |sd| >= 67 && inst.jt == inst.jf == 0 && inst.code in {0x05, 0x07, 0x15, 0x25, 0x35, 0x45}
    requires inst.code == 0x05 ==> inst.k == 0
    ensures var prog := [Inst(0x00, 0, 0, c), Inst(0x07, 0, 0, 0), Inst(0x00, 0, 0, e), inst, Inst(0x16, 0, 0, 0)];
      Sane(prog) && Verdict(prog, sd) == e
  {
    var prog := [Inst(0x00, 0, 0, c), Inst(0x07, 0, 0, 0), Inst(0x00, 0, 0, e), inst, Inst(0x16, 0, 0, 0)];
    Prepared(prog, sd, c, e);
    hide Taken;
    NextStep(prog, sd, 4);
    Ends(prog, sd, 5, e);
  }

  /** A load takes the little-endian word at its offset, and from offset 64 on the filter kills. */
  lemma Loads(k: U32, sd: seq<U8>)
    requires |sd| >= 67
    ensures var prog := [Inst(0x20, 0, 0, k), Inst(0x16, 0, 0, 0)];
      && Sane(prog)
      && Verdict(prog, sd) ==
         if k >= 64 then 0
         else sd[k] + sd[k + 1] as int * 0x100 + sd[k + 2] as int * 0x1_0000 + sd[k + 3] as int * 0x100_0000
  {
    var prog := [Inst(0x20, 0, 0, k), Inst(0x16, 0, 0, 0)];
    Origin(prog, sd);
    NextStep(prog, sd, 0);
    NextStep(prog, sd, 1);
    if k < 64 {
      assert Load(sd, k) ==
             sd[k] + sd[k + 1] as int * 0x100 + sd[k + 2] as int * 0x1_0000 + sd[k + 3] as int * 0x100_0000;
      hide Load;
      Ends(prog, sd, 2, Load(sd, k));
    } else {
      Ends(prog, sd, 1, 0);
    }
  }

  /** An instruction returns its constant, an unknown one kills, and so does the end of the filter. */
  lemma Returns(code: nat, k: U32, sd: seq<U8>)
    requires |sd| >= 67 && code !in {0x00, 0x04, 0x05, 0x06, 0x07, 0x14, 0x15, 0x16, 0x20, 0x24, 0x25, 0x34, 0x35,
                                     0x44, 0x45, 0x54, 0x64, 0x74, 0x84, 0x87, 0xa4}
    ensures Sane([Inst(0x06, 0, 0, k)]) && Verdict([Inst(0x06, 0, 0, k)], sd) == k
    ensures Sane([Inst(code, 0, 0, k)]) && Verdict([Inst(code, 0, 0, k)], sd) == 0
    ensures Sane([Inst(0x00, 0, 0, k)]) && Verdict([Inst(0x00, 0, 0, k)], sd) == 0
  {
    forall prog: seq<Inst> ensures Steps(prog, sd, START, 1) == Step(prog, sd, START)
        && Steps(prog, sd, START, 2) == Step(prog, sd, Step(prog, sd, START)) {
      Origin(prog, sd);
      NextStep(prog, sd, 0);
      NextStep(prog, sd, 1);
    }
    Ends([Inst(0x06, 0, 0, k)], sd, 1, k);
    Ends([Inst(code, 0, 0, k)], sd, 1, 0);
    Ends([Inst(0x00, 0, 0, k)], sd, 2, 0);
  }
}
