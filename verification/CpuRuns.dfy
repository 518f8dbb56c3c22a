/** Properties of whole runs of the simulated processor. */
module CpuRuns {
  import opened Bytes
  import opened CpuModel

  /** States one instruction apart; ops are the words executed. */
  ghost predicate Trace(cs: seq<Cpu>, ops: seq<Inst>) {
    |cs| == |ops| + 1 && forall i {:trigger StepAt(cs, ops, i)} :: 0 <= i < |ops| ==> StepAt(cs, ops, i)
  }

  ghost predicate StepAt(cs: seq<Cpu>, ops: seq<Inst>, i: nat)
    requires i < |ops| && i + 1 < |cs|
  {
    cs[i].d.Valid() && Step(cs[i], ops[i]) == Some(cs[i + 1])
  }

  function OpAt(c: Cpu, op: Inst): Opcode { Decode(c.imm, c.imflag, op) }

  /** What one step does to control. */
  lemma ControlAt(cs: seq<Cpu>, ops: seq<Inst>, i: nat)
    requires Trace(cs, ops) && i < |ops|
    ensures cs[i + 1].pc == NextPc(cs[i])
    ensures cs[i + 1].branchNext == BranchOf(cs[i], OpAt(cs[i], ops[i]))
    ensures Prefix(cs[i + 1], OpAt(cs[i], ops[i]))
  {
    assert StepAt(cs, ops, i);
  }

  /** The pending branch that an instruction leaves behind. */
  function BranchOf(c: Cpu, op: Opcode): Word {
    if Taken(c.d, op.opv) then Target(c.d, op, NextPc(c)) else NONE
  }

  /** The prefix that an instruction leaves behind. */
  ghost predicate Prefix(c: Cpu, op: Opcode) {
    c.imflag == (op.opv == Imm) && c.imm == if op.opv == Imm then op.immed else 0
  }

  // ---------- Branches ----------

  /**
    Every instruction of a run is followed by exactly one more before its branch takes effect: two
    steps later control is at the target of a taken branch, and otherwise right behind the next instruction.
   */
  lemma BranchDelay(cs: seq<Cpu>, ops: seq<Inst>, i: nat)
    requires Trace(cs, ops) && i + 2 < |cs|
    ensures var branch := BranchOf(cs[i], OpAt(cs[i], ops[i]));
      cs[i + 2].pc == if branch != NONE then branch else Wrap(cs[i + 1].pc + 2)
    ensures cs[i + 1].pc == NextPc(cs[i])
  {
    ControlAt(cs, ops, i);
    ControlAt(cs, ops, i + 1);
  }

  /** Without branches the instructions of a run lie next to each other. */
  lemma {:induction false} StraightLine(cs: seq<Cpu>, ops: seq<Inst>, i: nat, j: nat)
    requires Trace(cs, ops) && i <= j < |cs| && cs[i].branchNext == NONE
    requires forall k {:trigger ops[k]} :: i <= k < j ==> !Taken(cs[k].d, OpAt(cs[k], ops[k]).opv)
    ensures cs[j].pc == Wrap(cs[i].pc + 2 * (j - i)) && cs[j].branchNext == NONE
  {
    if i < j {
      StraightLine(cs, ops, i, j - 1);
      ControlAt(cs, ops, j - 1);
      WrapTwice(cs[i].pc + 2 * (j - 1 - i), 2);
    }
  }

  predicate LeavesBr(opv: Opv) { opv != Calli && opv != Ldspr }

  lemma BrAt(cs: seq<Cpu>, ops: seq<Inst>, i: nat)
    requires Trace(cs, ops) && i < |ops|
    ensures LeavesBr(OpAt(cs[i], ops[i]).opv) ==> cs[i + 1].d.br == cs[i].d.br
    ensures OpAt(cs[i], ops[i]).opv == Calli ==> cs[i + 1].d.br == Wrap(NextPc(cs[i]) + 2)
  {
    assert StepAt(cs, ops, i);
    StepBr(cs[i], ops[i], cs[i + 1]);
  }

  lemma StepBr(c: Cpu, op: Inst, c': Cpu)
    requires c.d.Valid() && Step(c, op) == Some(c')
    ensures LeavesBr(OpAt(c, op).opv) ==> c'.d.br == c.d.br
    ensures OpAt(c, op).opv == Calli ==> c'.d.br == Wrap(NextPc(c) + 2)
  {
    ExecuteBr(c, OpAt(c, op), c');
  }

  lemma ExecuteBr(c: Cpu, op: Opcode, c': Cpu)
    requires c.d.Valid() && op.r1 < 16 && op.r2 < 16 && Execute(c, op) == Some(c')
    ensures LeavesBr(op.opv) ==> c'.d.br == c.d.br
    ensures op.opv == Calli ==> c'.d.br == Wrap(NextPc(c) + 2)
  {
    assert After(c.d, c.pc, op, NextPc(c)) == Some(c'.d);
  }

  lemma {:induction false} BrKept(cs: seq<Cpu>, ops: seq<Inst>, i: nat, j: nat)
    requires Trace(cs, ops) && i <= j < |cs|
    requires forall k {:trigger ops[k]} :: i <= k < j ==> LeavesBr(OpAt(cs[k], ops[k]).opv)
    ensures cs[j].d.br == cs[i].d.br
  {
    if i < j {
      BrKept(cs, ops, i, j - 1);
      BrAt(cs, ops, j - 1);
    }
  }

  /**
    A call: the instruction behind it is executed, then the callee; when the callee, having left br
    alone, returns, the instruction behind the return is executed and control is back at p + 4.
   */
  lemma CallReturn(cs: seq<Cpu>, ops: seq<Inst>, i: nat, j: nat)
    requires Trace(cs, ops) && i < j && j + 2 < |cs| && cs[i].branchNext == NONE
    requires OpAt(cs[i], ops[i]).opv == Calli && OpAt(cs[j], ops[j]).opv == Ret
    requires forall k {:trigger ops[k]} :: i < k < j ==> LeavesBr(OpAt(cs[k], ops[k]).opv)
    requires Wrap(cs[i].pc + 4) != NONE && Target(cs[i].d, OpAt(cs[i], ops[i]), NextPc(cs[i])) != NONE
    ensures cs[i + 1].pc == Wrap(cs[i].pc + 2) && cs[i + 2].pc == Wrap(cs[i].pc + 2 + OpAt(cs[i], ops[i]).immed)
    ensures cs[j + 1].pc == NextPc(cs[j]) && cs[j + 2].pc == Wrap(cs[i].pc + 4)
  {
    BranchDelay(cs, ops, i);
    Called(cs, ops, i);
    BrKept(cs, ops, i + 1, j);
    BranchDelay(cs, ops, j);
  }

  lemma WrapTwice(x: int, y: int)
    ensures Wrap(Wrap(x) + y) == Wrap(x + y)
  {
  }

  lemma Called(cs: seq<Cpu>, ops: seq<Inst>, i: nat)
    requires Trace(cs, ops) && i + 1 < |cs| && cs[i].branchNext == NONE && OpAt(cs[i], ops[i]).opv == Calli
    ensures NextPc(cs[i]) == Wrap(cs[i].pc + 2) && cs[i + 1].d.br == Wrap(cs[i].pc + 4)
    ensures Target(cs[i].d, OpAt(cs[i], ops[i]), NextPc(cs[i])) == Wrap(cs[i].pc + 2 + OpAt(cs[i], ops[i]).immed)
  {
    BrAt(cs, ops, i);
    WrapTwice(cs[i].pc + 2, 2);
    WrapTwice(cs[i].pc + 2, OpAt(cs[i], ops[i]).immed);
  }

  /** The target -1 stands for no branch: control simply goes on. */
  lemma LastWordIsNoTarget(cs: seq<Cpu>, ops: seq<Inst>, i: nat)
    requires Trace(cs, ops) && i + 2 < |cs| && Target(cs[i].d, OpAt(cs[i], ops[i]), NextPc(cs[i])) == NONE
    ensures cs[i + 2].pc == Wrap(cs[i + 1].pc + 2)
  {
    BranchDelay(cs, ops, i);
  }

  /** BRI -3 at 0 and LIMR 0, r0 behind it. */
  const JUMP_BACK: seq<Inst> := [0x9FD0, 0xE000]

  /** From 0 to 0xFFFFFFFF: control goes on at 4. */
  lemma JumpToLastWord(c: Cpu) returns (cs: seq<Cpu>)
    requires c.d.Valid() && !c.imflag && c.branchNext == NONE && c.pc == 0
    ensures Trace(cs, JUMP_BACK) && cs[0] == c && OpAt(c, JUMP_BACK[0]).opv == Bri
    ensures Target(c.d, OpAt(c, JUMP_BACK[0]), NextPc(c)) == 0xFFFF_FFFF && cs[2].pc == 4
  {
    var c1 := NeverRefused(c, JUMP_BACK[0]);
    var c2 := NeverRefused(c1, JUMP_BACK[1]);
    cs := TwoSteps(c, c1, c2, JUMP_BACK);
    BackThree(c);
    ControlAt(cs, JUMP_BACK, 0);
    LastWordIsNoTarget(cs, JUMP_BACK, 0);
  }

  lemma BackThree(c: Cpu)
    requires !c.imflag && c.branchNext == NONE && c.pc == 0
    ensures OpAt(c, 0x9FD0) == Opcode(Bri, 0, 13, 0xFFFF_FFFD, false) && NextPc(c) == 2
    ensures Target(c.d, OpAt(c, 0x9FD0), NextPc(c)) == 0xFFFF_FFFF
  {
  }

  lemma TwoSteps(c: Cpu, c1: Cpu, c2: Cpu, ops: seq<Inst>) returns (cs: seq<Cpu>)
    requires |ops| == 2 && c.d.Valid() && c1.d.Valid() && Step(c, ops[0]) == Some(c1) && Step(c1, ops[1]) == Some(c2)
    ensures cs == [c, c1, c2] && Trace(cs, ops)
  {
    cs := [c, c1, c2];
    assert StepAt(cs, ops, 0) && StepAt(cs, ops, 1);
    forall i | 0 <= i < |ops|
      ensures StepAt(cs, ops, i)
    {
      assert i == 0 || i == 1;
    }
  }

  // ---------- Immediates ----------

  predicate IsImm(op: Inst) { op / 4096 == 8 }

  /** The 12-bit fields of the first n of a number of IMM instructions, written one after the other. */
  function Joined(ops: seq<Inst>, n: nat): nat
    requires n <= |ops|
  {
    if n == 0 then 0 else Joined(ops, n - 1) * 4096 + ops[n - 1] % 4096
  }

  /** The same as a signed number of 12 * n bits. */
  function SignedJoin(ops: seq<Inst>, n: nat): int
    requires 0 < n <= |ops|
  {
    Joined(ops, n) - if ops[0] % 4096 >= 2048 then Pow2(12 * n) else 0
  }

  lemma Pow2Step(n: nat)
    ensures Pow2(n + 12) == Pow2(n) * 4096 && Pow2(n + 8) == Pow2(n) * 256
  {
    Pow2Sum(n, 8);
    Pow2Sum(n, 12);
    assert Pow2(8) == 256 && Pow2(12) == 4096 by {
      assert Pow2(4) == 2 * Pow2(3) && Pow2(3) == 2 * Pow2(2) && Pow2(2) == 2 * Pow2(1) && Pow2(1) == 2 * Pow2(0);
      Pow2Sum(4, 4);
      Pow2Sum(8, 4);
    }
  }

  lemma {:induction false} Pow2Sum(m: nat, n: nat)
    ensures Pow2(m + n) == Pow2(m) * Pow2(n)
  {
    if n > 0 {
      Pow2Sum(m, n - 1);
      assert Pow2(m + n) == 2 * Pow2(m + n - 1) && Pow2(n) == 2 * Pow2(n - 1);
      Double(Pow2(m), Pow2(n - 1));
    }
  }

  lemma Double(x: int, y: int)
    ensures 2 * (x * y) == x * (2 * y)
  {
  }

  /** Appending a field to a prefix, in 32 bits and without a limit. */
  lemma AppendField(x: int, k: int, f: nat)
    requires (k == 4096 || k == 256) && f < k
    ensures Wrap(Wrap(x) * k) + f == Wrap(x * k + f)
  {
    MulMod(x, k);
    if k == 4096 {
      Append4096(x, f);
    } else {
      Append256(x, f);
    }
  }

  lemma Append4096(x: int, f: nat)
    requires f < 4096
    ensures Wrap(x * 4096) + f == Wrap(x * 4096 + f)
  {
    var q, y := x * 4096 / WORD32, x * 4096 % WORD32;
    assert y == 4096 * (x - 0x10_0000 * q);
    WrapPlus(y + f, q);
  }

  lemma Append256(x: int, f: nat)
    requires f < 256
    ensures Wrap(x * 256) + f == Wrap(x * 256 + f)
  {
    var q, y := x * 256 / WORD32, x * 256 % WORD32;
    assert y == 256 * (x - 0x100_0000 * q);
    WrapPlus(y + f, q);
  }

  lemma MulMod(x: int, k: int)
    ensures (x * k) % WORD32 == (x % WORD32 * k) % WORD32
  {
    var q, r := x / WORD32, x % WORD32;
    assert x * k == WORD32 * (q * k) + r * k by {
      assert x == WORD32 * q + r;
      Distribute(WORD32, q, r, k);
    }
    WrapPlus(r * k, q * k);
  }

  lemma Distribute(w: int, q: int, r: int, k: int)
    ensures (w * q + r) * k == w * (q * k) + r * k
  {
  }

  lemma SignedJoinNext(ops: seq<Inst>, n: nat)
    requires 0 < n < |ops|
    ensures SignedJoin(ops, n + 1) == SignedJoin(ops, n) * 4096 + ops[n] % 4096
  {
    Pow2Step(12 * n);
    assert 12 * (n + 1) == 12 * n + 12;
  }

  /** The prefix after any number of IMM instructions. */
  lemma {:induction false} PrefixIs(cs: seq<Cpu>, ops: seq<Inst>, n: nat)
    requires Trace(cs, ops) && 0 < n <= |ops| && !cs[0].imflag
    requires forall k {:trigger ops[k]} :: 0 <= k < n ==> IsImm(ops[k])
    ensures cs[n].imflag && cs[n].imm == Wrap(SignedJoin(ops, n))
  {
    ControlAt(cs, ops, n - 1);
    ImmDecodes(cs[n - 1], ops[n - 1]);
    if n == 1 {
      FirstField(ops);
    } else {
      PrefixIs(cs, ops, n - 1);
      SignedJoinNext(ops, n - 1);
      AppendField(SignedJoin(ops, n - 1), 4096, ops[n - 1] % 4096);
    }
  }

  lemma FirstField(ops: seq<Inst>)
    requires |ops| > 0
    ensures Imm12(0, false, ops[0] % 4096) == Wrap(SignedJoin(ops, 1))
  {
    Pow2Step(0);
    assert Joined(ops, 1) == Joined(ops, 0) * 4096 + ops[0] % 4096;
  }

  lemma ImmDecodes(c: Cpu, op: Inst)
    requires IsImm(op)
    ensures OpAt(c, op).opv == Imm && OpAt(c, op).immed == Imm12(c.imm, c.imflag, op % 4096)
  {
  }

  /** All fields written one after the other, the last one of eight bits, as a signed number. */
  function SignedAll(ops: seq<Inst>, n: nat, field: nat): int
    requires n <= |ops|
  {
    if n == 0 then (if field >= 128 then field - 256 else field) else SignedJoin(ops, n) * 256 + field
  }

  /**
    Any number of IMM instructions and an instruction with an 8-bit field: its operand is the
    concatenation of all fields, sign-extended from the first bit, modulo 2^32.
   */
  lemma ImmediateJoins(cs: seq<Cpu>, ops: seq<Inst>, n: nat, field: nat)
    requires Trace(cs, ops) && n <= |ops| && !cs[0].imflag && field < 256
    requires forall k {:trigger ops[k]} :: 0 <= k < n ==> IsImm(ops[k])
    ensures Imm8(cs[n].imm, cs[n].imflag, field) == Wrap(SignedAll(ops, n, field))
  {
    if n > 0 {
      PrefixIs(cs, ops, n);
      AppendField(SignedJoin(ops, n), 256, field);
    }
  }

  /** The prefix is gone after the first instruction that is not an IMM. */
  lemma PrefixCleared(cs: seq<Cpu>, ops: seq<Inst>, i: nat)
    requires Trace(cs, ops) && i < |ops| && !IsImm(ops[i])
    ensures !cs[i + 1].imflag && cs[i + 1].imm == 0
  {
    ControlAt(cs, ops, i);
    OnlyImm(cs[i], ops[i]);
  }

  lemma OnlyImm(c: Cpu, op: Inst)
    ensures OpAt(c, op).opv == Imm <==> IsImm(op)
  {
  }

  predicate IsLimr(op: Inst, r: nat, field: nat) {
    op / 4096 == 14 && op / 16 % 256 == field && op % 16 == r
  }

  /** LIMR with its prefix loads the whole concatenation. */
  lemma Loads(cs: seq<Cpu>, ops: seq<Inst>, n: nat, r: nat, field: nat)
    requires Trace(cs, ops) && n < |ops| && !cs[0].imflag && field < 256 && IsLimr(ops[n], r, field)
    requires forall k {:trigger ops[k]} :: 0 <= k < n ==> IsImm(ops[k])
    ensures HoldsAt(cs[n + 1], r, Wrap(SignedAll(ops, n, field)))
  {
    ImmediateJoins(cs, ops, n, field);
    LimrAt(cs, ops, n, r, field);
  }

  /** Register r holds v and no prefix is left over. */
  ghost predicate HoldsAt(c: Cpu, r: nat, v: Word) {
    r < |c.d.regs| && c.d.regs[r] == v && !c.imflag
  }

  lemma LimrAt(cs: seq<Cpu>, ops: seq<Inst>, i: nat, r: nat, field: nat)
    requires Trace(cs, ops) && i < |ops| && field < 256 && IsLimr(ops[i], r, field)
    ensures HoldsAt(cs[i + 1], r, Imm8(cs[i].imm, cs[i].imflag, field))
  {
    assert StepAt(cs, ops, i);
  }

  /** The instructions that load v into register r. */
  function Loading(v: Word, r: nat): (ops: seq<Inst>)
    requires r < 16
    ensures |ops| == 3 && IsImm(ops[0]) && IsImm(ops[1]) && IsLimr(ops[2], r, v % 256)
    ensures ops[0] % 4096 == v / 0x10_0000 && ops[1] % 4096 == v / 256 % 4096
  {
    [ImmWord(v / 0x10_0000), ImmWord(v / 256 % 4096), LimrWord(r, v % 256)]
  }

  function ImmWord(field: nat): (op: Inst)
    requires field < 4096
    ensures IsImm(op) && op % 4096 == field
  {
    0x8000 + field
  }

  function LimrWord(r: nat, field: nat): (op: Inst)
    requires r < 16 && field < 256
    ensures IsLimr(op, r, field)
  {
    0xE000 + field * 16 + r
  }

  /** IMM, LIMR and BRI are never refused. */
  lemma NeverRefused(c: Cpu, op: Inst) returns (c': Cpu)
    requires c.d.Valid() && (IsImm(op) || op / 4096 == 14 || op / 4096 == 9)
    ensures Step(c, op) == Some(c') && c'.d.Valid()
  {
    c' := Step(c, op).value;
  }

  /** From any state without a prefix, two IMM instructions and a LIMR load any word into any register. */
  lemma LoadsAnything(c: Cpu, v: Word, r: nat) returns (cs: seq<Cpu>)
    requires c.d.Valid() && !c.imflag && r < 16
    ensures Trace(cs, Loading(v, r)) && cs[0] == c && HoldsAt(cs[3], r, v)
  {
    var ops := Loading(v, r);
    var c1 := NeverRefused(c, ops[0]);
    var c2 := NeverRefused(c1, ops[1]);
    var c3 := NeverRefused(c2, ops[2]);
    cs := ThreeSteps(c, c1, c2, c3, ops);
    Loads(cs, ops, 2, r, v % 256);
    TwoFields(ops, v);
  }

  lemma ThreeSteps(c: Cpu, c1: Cpu, c2: Cpu, c3: Cpu, ops: seq<Inst>) returns (cs: seq<Cpu>)
    requires |ops| == 3 && c.d.Valid() && c1.d.Valid() && c2.d.Valid()
    requires Step(c, ops[0]) == Some(c1) && Step(c1, ops[1]) == Some(c2) && Step(c2, ops[2]) == Some(c3)
    ensures cs == [c, c1, c2, c3] && Trace(cs, ops)
  {
    cs := [c, c1, c2, c3];
    assert StepAt(cs, ops, 0) && StepAt(cs, ops, 1) && StepAt(cs, ops, 2);
    forall i | 0 <= i < |ops|
      ensures StepAt(cs, ops, i)
    {
      assert i == 0 || i == 1 || i == 2;
    }
  }

  lemma TwoFields(ops: seq<Inst>, v: Word)
    requires |ops| == 3 && ops[0] % 4096 == v / 0x10_0000 && ops[1] % 4096 == v / 256 % 4096
    ensures Wrap(SignedAll(ops, 2, v % 256)) == v
  {
    assert Joined(ops, 2) == Joined(ops, 1) * 4096 + ops[1] % 4096 &&
      Joined(ops, 1) == Joined(ops, 0) * 4096 + ops[0] % 4096;
    assert Joined(ops, 2) == v / 256;
    TwentyFour();
    assert SignedAll(ops, 2, v % 256) == v || SignedAll(ops, 2, v % 256) == v - WORD32;
  }

  lemma TwentyFour()
    ensures Pow2(24) == 0x100_0000
  {
    Pow2Step(0);
    Pow2Step(12);
  }

  // ---------- Comparisons ----------

  /** Whether the signed difference does not fit a word. */
  predicate Overflows(x: Word, y: Word) {
    !(-0x8000_0000 <= Signed(x) - Signed(y) < 0x8000_0000)
  }

  /** The sign flag of a comparison: less, but for overflow. */
  predicate SignedLess(x: Word, y: Word) {
    (Signed(x) < Signed(y)) != Overflows(x, y)
  }

  ghost predicate Flagged(d: Data, x: Word, y: Word) {
    (d.zero <==> x == y) && (d.carry <==> x < y) && (d.sign <==> SignedLess(x, y))
  }

  lemma CompareFlags(d: Data, x: Word, y: Word)
    ensures Flagged(Compared(d, x, y), x, y)
  {
    var subr := (x - y) % WORD64;
    if x < y {
      assert subr == WORD64 + x - y;
      BorrowBits(y - x);
    } else {
      assert subr == x - y;
      assert subr / WORD32 == 0;
    }
  }

  lemma BorrowBits(e: int)
    requires 0 < e < WORD32
    ensures (WORD64 - e) / WORD32 % 2 == 1 && ((WORD64 - e) / 0x8000_0000 % 2 == 1 <==> e <= 0x8000_0000)
  {
    assert (WORD64 - e) / WORD32 == WORD32 - 1;
    if e <= 0x8000_0000 {
      assert (WORD64 - e) / 0x8000_0000 == 2 * WORD32 - 1;
    } else {
      assert (WORD64 - e) / 0x8000_0000 == 2 * WORD32 - 2;
    }
  }

  lemma {:induction false} DataThroughPrefix(cs: seq<Cpu>, ops: seq<Inst>, i: nat, j: nat)
    requires Trace(cs, ops) && i <= j < |cs| && forall k {:trigger ops[k]} :: i <= k < j ==> IsImm(ops[k])
    ensures cs[j].d == cs[i].d
  {
    if i < j {
      DataThroughPrefix(cs, ops, i, j - 1);
      ImmDecodes(cs[j - 1], ops[j - 1]);
      assert StepAt(cs, ops, j - 1);
    }
  }

  /** What the conditional branches decide after x was compared with y. */
  ghost predicate Decides(d: Data, x: Word, y: Word) {
    DecidesBy(d, x == y, x < y, SignedLess(x, y))
  }

  ghost predicate DecidesBy(d: Data, equal: bool, below: bool, less: bool) {
    DecidesUnsigned(d, equal, below) && DecidesSigned(d, equal, less)
  }

  ghost predicate DecidesUnsigned(d: Data, equal: bool, below: bool) {
    && (Taken(d, Brie) <==> equal) && (Taken(d, Brine) <==> !equal)
    && (Taken(d, Briult) <==> below) && (Taken(d, Briule) <==> below || equal)
    && (Taken(d, Briuge) <==> !below || equal) && (Taken(d, Briugt) <==> !below)
  }

  ghost predicate DecidesSigned(d: Data, equal: bool, less: bool) {
    && (Taken(d, Brilt) <==> less) && (Taken(d, Brige) <==> !less)
    && (Taken(d, Brile) <==> less || equal) && (Taken(d, Brigt) <==> !less && !equal)
  }

  lemma FlagsDecide(d: Data, equal: bool, below: bool, less: bool)
    requires d.zero == equal && d.carry == below && d.sign == less
    ensures DecidesBy(d, equal, below, less)
  {
    FlagsDecideUnsigned(d);
    FlagsDecideSigned(d);
  }

  lemma FlagsDecideUnsigned(d: Data)
    ensures DecidesUnsigned(d, d.zero, d.carry)
  {
  }

  lemma FlagsDecideSigned(d: Data)
    ensures DecidesSigned(d, d.zero, d.sign)
  {
  }

  /** A comparison decides the branch that follows it, however many prefixes the branch has. */
  lemma CompareThenBranch(cs: seq<Cpu>, ops: seq<Inst>, i: nat, j: nat)
    requires Trace(cs, ops) && i < j < |cs| && OpAt(cs[i], ops[i]).opv == Cmp
    requires forall k {:trigger ops[k]} :: i < k < j ==> IsImm(ops[k])
    ensures var op := OpAt(cs[i], ops[i]);
      && cs[i].d.Valid() && op.r1 < 16 && op.r2 < 16
      && Decides(cs[j].d, cs[i].d.regs[op.r1], cs[i].d.regs[op.r2])
  {
    var op := OpAt(cs[i], ops[i]);
    DataThroughPrefix(cs, ops, i + 1, j);
    assert StepAt(cs, ops, i);
    assert After(cs[i].d, cs[i].pc, op, NextPc(cs[i])) == Some(cs[i + 1].d);
    CompareFlags(cs[i].d, cs[i].d.regs[op.r1], cs[i].d.regs[op.r2]);
    var x, y := cs[i].d.regs[op.r1], cs[i].d.regs[op.r2];
    FlagsDecide(cs[j].d, x == y, x < y, SignedLess(x, y));
  }

  /** BRIUGT is taken on unsigned greater or equal: it is a test for greater unless the operands are equal. */
  lemma GreaterOrEqual(d: Data, x: Word, y: Word)
    requires Decides(d, x, y)
    ensures (Taken(d, Briugt) <==> x > y) <==> x != y
  {
  }

  /** Equal operands: BRIUGT is taken although neither is greater. */
  lemma EqualIsTaken(d: Data)
    ensures Taken(Compared(d, 5, 5), Briugt)
  {
    CompareFlags(d, 5, 5);
  }
}
