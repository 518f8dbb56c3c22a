/**
  The simulator as it runs: the fields of the processor are updated one after the other, by the handler
  of each instruction and around it.  The proofs tie this to the step of module CpuModel, which takes
  one processor value to the next.
 */
module Simulator {
  import opened Bytes
  import opened CpuModel
  import opened CpuRuns

  /** xtc_read_mem_u8, u16 and u32. */
  method ReadMem(memory: array<Byte>, a: nat, n: nat) returns (v: nat)
    requires a + n <= memory.Length
    ensures v == GetBig(memory[a..a + n])
  {
    v := 0;
    for i := 0 to n
      invariant v == GetBig(memory[a..a + i])
    {
      assert memory[a..a + i + 1][..i] == memory[a..a + i];
      v := v * 256 + memory[a + i];
    }
  }

  /** handle_read, handle_read_short and handle_read_byte. */
  method HandleRead(memory: array<Byte>, addr: Word, n: nat) returns (r: Option<Word>)
    requires n in {1, 2, 4}
    ensures r == Load(memory[..], addr, n)
  {
    if addr % n != 0 {
      return None;
    }
    if addr + n <= memory.Length {
      var v := ReadMem(memory, addr, n);
      assert memory[..][addr..addr + n] == memory[addr..addr + n];
      return Some(Wrap(v));
    }
    return if IsIo(addr) == (n == 4) then Some(0) else None;
  }

  class Simulator {
    const regs: array<Word>
    const memory: array<Byte>
    const spr: array<Word>
    var npc: Word
    var zero: bool
    var carry: bool
    var sign: bool
    var imm: Word
    var imflag: bool
    var branchNext: Word
    var resetImmed: bool

    ghost predicate Shape() {
      regs.Length == 32 && spr.Length == 8 && regs != spr && (memory as object) != regs && (memory as object) != spr
    }

    /** Special register 0 is the program counter and 1 is br. */
    ghost function Held(): Data
      requires Shape()
      reads this, regs, memory, spr
    {
      Data(regs[..], memory[..], spr[1], [0, 0] + spr[2..], zero, carry, sign)
    }

    /** The processor between two instructions. */
    ghost function Now(): Cpu
      requires Shape()
      reads this, regs, memory, spr
    {
      Cpu(Held(), spr[0], imm, imflag, branchNext)
    }

    /** initialize; it leaves the flags as they come. */
    constructor (memsize: nat)
      ensures Shape() && fresh(regs) && fresh(memory) && fresh(spr)
      ensures Now() == Cpu(Data(seq(32, _ => 0), seq(memsize, _ => 0), 0, seq(8, _ => 0),
        zero, carry, sign), 0, 0, false, NONE)
    {
      regs, memory, spr := new Word[32](_ => 0), new Byte[memsize](_ => 0), new Word[8](_ => 0);
      npc, zero, carry, sign, resetImmed := *, *, *, *, *;
      imm, imflag, branchNext := 0, false, NONE;
    }

    method SetReg(r: nat, v: Word)
      requires Shape() && r < 32
      modifies regs
      ensures Held() == old(Held()).(regs := old(regs[..])[r := v]) && regs[r] == v
    {
      regs[r] := v;
      assert regs[..] == old(regs[..])[r := v];
    }

    // ---------- alu_ops.c ----------

    method AluOp(op: Opcode) returns (ok: bool)
      requires Shape() && op.r1 < 16 && op.r2 < 16 && IsAlu(op.opv)
      modifies regs, this`zero, this`carry
      ensures Alu(old(Held()), op) == if ok then Some(Held()) else None
    {
      if op.opv in {Add, Sub, Mul} {
        Arithmetic(op);
        return true;
      } else if op.opv in {And, Or, Xor} {
        Logic(op);
        return true;
      } else {
        ok := Shift(op);
      }
    }

    method Arithmetic(op: Opcode)
      requires Shape() && op.r1 < 16 && op.r2 < 16 && op.opv in {Add, Sub, Mul}
      modifies regs, this`zero, this`carry
      ensures Alu(old(Held()), op) == Some(Held())
    {
      var x: int, y: int := regs[op.r1], regs[op.r2];
      if op.opv == Add {
        SetReg(op.r1, Wrap(y + Operand(op, regs[op.r1])));
      } else if op.opv == Sub {
        SetReg(op.r1, Wrap(x - Operand(op, regs[op.r2])));
        zero := regs[op.r1] == regs[op.r2];
        carry := regs[op.r1] > regs[op.r2];
      } else {
        SetReg(op.r1, Wrap(x * y));
      }
    }

    method Logic(op: Opcode)
      requires Shape() && op.r1 < 16 && op.r2 < 16 && op.opv in {And, Or, Xor}
      modifies regs, this`zero, this`carry
      ensures Alu(old(Held()), op) == Some(Held())
    {
      var x, y := regs[op.r2], Operand(op, regs[op.r1]);
      if op.opv == Xor {
        SetReg(op.r1, BitXor(x, y));
        return;
      }
      SetReg(op.r1, if op.opv == And then Wrap(BitAnd(x, y)) else BitOr(x, y));
      zero := regs[op.r1] == 0;
      carry := false;
    }

    /** Shifts by more than 31 are undefined; addc and subb are not handled. */
    method Shift(op: Opcode) returns (ok: bool)
      requires Shape() && op.r1 < 16 && op.r2 < 16 && op.opv in {Sra, Srl, Shl, Addc, Subb}
      modifies regs
      ensures Alu(old(Held()), op) == if ok then Some(Held()) else None
    {
      if op.opv == Addc || op.opv == Subb || regs[op.r2] >= 32 {
        return false;
      }
      if op.opv == Sra {
        SetReg(op.r1, Wrap(Signed(regs[op.r1]) / Pow2(regs[op.r2])));
      } else if op.opv == Srl {
        SetReg(op.r1, Wrap(regs[op.r1] / Pow2(regs[op.r2])));
      } else {
        SetReg(op.r1, Wrap(regs[op.r1] * Pow2(regs[op.r2])));
      }
      return true;
    }

    /** alu_cmp and reg_cmpi. */
    method Compare(x: int, y: int)
      requires Shape()
      modifies this`zero, this`carry, this`sign
      ensures Held() == Compared(old(Held()), x, y)
    {
      var subr := (x - y) % WORD64;
      zero := subr == 0;
      carry := subr / WORD32 % 2 == 1;
      sign := subr / 0x8000_0000 % 2 == 1;
    }

    // ---------- reg_ops.c and alu_cmp ----------

    method RegOp(op: Opcode)
      requires Shape() && op.r1 < 16 && op.r2 < 16 && op.opv in {Addi, Imm, Limr, Cmp, Cmpi}
      modifies regs, this`zero, this`carry, this`sign, this`resetImmed
      ensures After(old(Held()), spr[0], op, npc) == Some(Held())
      ensures resetImmed == if op.opv == Imm then false else old(resetImmed)
    {
      if op.opv == Addi {
        SetReg(op.r1, Wrap(regs[op.r1] + op.immed));
      } else if op.opv == Limr {
        SetReg(op.r1, op.immed);
      } else if op.opv == Cmp {
        Compare(regs[op.r1], regs[op.r2]);
      } else if op.opv == Cmpi {
        Compare(regs[op.r1], Signed(op.immed));
      } else {
        resetImmed := false;
      }
    }

    // ---------- cflow_ops.c ----------

    /** A branch that is not taken leaves branchNext alone. */
    method FlowOp(op: Opcode)
      requires Shape() && op.r1 < 16 && op.r2 < 16 && IsBranch(op.opv)
      modifies this`branchNext, spr
      ensures After(old(Held()), old(spr[0]), op, npc) == Some(Held())
      ensures branchNext == if Taken(old(Held()), op.opv) then Target(old(Held()), op, npc) else old(branchNext)
    {
      AfterBranch(Held(), spr[0], op, npc);
      TakenIf(Held(), op.opv);
      if op.opv == Calli {
        branchNext := Wrap(npc + op.immed);
        spr[1] := Wrap(npc + 2);
        assert spr[2..] == old(spr[2..]);
      } else if op.opv == Ret {
        branchNext := spr[1];
      } else if Condition(op.opv, zero, carry, sign) {
        branchNext := Wrap(npc + op.immed);
      }
    }

    // ---------- mem_ops.c ----------

    /** xtc_store_mem_u8, u16 and u32, from the last byte on. */
    method StoreMem(a: nat, n: nat, v: nat)
      requires a + n <= memory.Length
      modifies memory
      ensures memory[..] == old(memory[..a]) + PutBig(v, n) + old(memory[a + n..])
    {
      var x: nat, i: nat := v, n;
      while i > 0
        invariant i <= n && memory[..a + i] == old(memory[..a + i]) && memory[a + n..] == old(memory[a + n..])
        invariant PutBig(v, n) == PutBig(x, i) + memory[a + i..a + n]
      {
        i := i - 1;
        ghost var tail := memory[a + i + 1..a + n];
        memory[a + i] := x % 256;
        assert memory[a + i..a + n] == [x % 256] + tail;
        x := x / 256;
      }
      assert memory[..] == memory[..a] + memory[a..a + n] + memory[a + n..];
    }

    /** handle_store_val, handle_store_short and handle_store_byte. */
    method HandleStore(addr: Word, n: nat, v: Word) returns (ok: bool)
      requires Shape() && n in {1, 2, 4}
      modifies memory
      ensures var m := Store(old(memory[..]), addr, n, v);
        if ok then m == Some(memory[..]) else m == None && memory[..] == old(memory[..])
    {
      if addr % n != 0 {
        return false;
      }
      if addr + n <= memory.Length {
        StoreMem(addr, n, v);
        return true;
      }
      if IsIo(addr) {
        return n == 4 && addr < 0x8000_0010;
      }
      return n != 4;
    }

    method StoreOp(op: Opcode) returns (ok: bool)
      requires Shape() && op.r1 < 16 && op.r2 < 16
      modifies memory
      ensures if ok then Stored(old(Held()), old(spr[0]), op) ==
        Some(Held()) else Stored(old(Held()), old(spr[0]), op) == None
    {
      var v := if op.opv == Stspr then spr[op.r2 % 8] else regs[op.r2];
      ok := HandleStore(Wrap(regs[op.r1] + op.immed), Width(op.opv), v);
    }

    method LoadOp(op: Opcode) returns (ok: bool)
      requires Shape() && op.r1 < 16 && op.r2 < 16
      modifies regs, spr
      ensures if ok then Loaded(old(Held()), op) == Some(Held()) else Loaded(old(Held()), op) == None
    {
      var v := HandleRead(memory, Wrap(regs[op.r1] + op.immed), Width(op.opv));
      LoadedIs(Held(), op, v);
      if v.None? {
        return false;
      }
      if op.opv == Ldspr {
        SetSpecial(op.r2, v.value);
        return true;
      }
      LoadReg(op, v.value);
      return true;
    }

    method LoadReg(op: Opcode, v: Word)
      requires Shape() && op.r1 < 16 && op.r2 < 16
      modifies regs
      ensures Held() == old(Held()).(regs := LoadedRegs(old(regs[..]), op, v))
    {
      SetReg(op.r2, v);
      if op.opv == Ldbp {
        SetReg(op.r1, Increment(regs[op.r1]));
      }
    }

    /** xtc_set_spr. */
    method SetSpecial(index: nat, v: Word)
      requires Shape()
      modifies spr
      ensures Held() == SetSpr(old(Held()), index, v)
    {
      var i := index % 8;
      spr[i] := v;
      assert i >= 2 ==> [0, 0] + spr[2..] == ([0, 0] + old(spr[2..]))[i := v];
      assert i < 2 ==> spr[2..] == old(spr[2..]);
    }

    // ---------- executor.c ----------

    /** The handler of the instruction, in a processor whose branch and prefix have been taken up. */
    method Handle(op: Opcode) returns (ok: bool)
      requires Shape() && op.r1 < 16 && op.r2 < 16 && branchNext == NONE && resetImmed
      modifies regs, memory, spr, this`zero, this`carry, this`sign, this`branchNext, this`resetImmed
      ensures After(old(Held()), old(spr[0]), op, npc) == if ok then Some(Held()) else None
      ensures ok ==> branchNext == if Taken(old(Held()), op.opv) then Target(old(Held()), op, npc) else NONE
      ensures ok ==> resetImmed == (op.opv != Imm)
    {
      AfterIs(Held(), spr[0], op, npc);
      AfterMem(Held(), spr[0], op, npc);
      OnlyBranches(Held(), op.opv);
      if op.opv == Nop {
        return true;
      }
      if IsBranch(op.opv) {
        FlowOp(op);
        return true;
      }
      if op.opv in {Addi, Imm, Limr, Cmp, Cmpi} {
        RegOp(op);
        return true;
      }
      if op.opv in {Stw, Sts, Stb, Stspr} {
        ok := StoreOp(op);
        return;
      }
      if op.opv in {Ldw, Lds, Ldb, Ldspr, Ldbp} {
        ok := LoadOp(op);
        return;
      }
      if op.opv in {StPost, LdPost, Unknown} {
        return false;
      }
      ok := AluOp(op);
    }

    /** execute_single_opcode_fjp: the pending branch is taken up first, and the handler may leave a new one. */
    method ExecuteSingle(op: Opcode) returns (ok: bool)
      requires Shape() && op.r1 < 16 && op.r2 < 16
      modifies this, regs, memory, spr
      ensures if ok then Execute(old(Now()), op) == Some(Now()) else Execute(old(Now()), op) == None
    {
      var pc: int := spr[0];
      npc := Wrap(pc + 2);
      if branchNext != NONE {
        npc := branchNext;
      }
      branchNext := NONE;
      resetImmed := true;
      ghost var c := old(Now());
      assert Held() == c.d && npc == NextPc(c);
      ok := Handle(op);
      ghost var d := Held();
      ExecuteIs(c, op, if ok then Some(d) else None);
      if !ok {
        return;
      }
      Settle(op);
    }

    /** The end of an instruction: the prefix goes or stays, and the program counter moves on. */
    method Settle(op: Opcode)
      requires Shape()
      modifies this`imm, this`imflag, spr
      ensures Held() == old(Held()) && spr[0] == npc
      ensures imflag == !resetImmed && imm == if resetImmed then 0 else op.immed
    {
      if resetImmed {
        imm := 0;
        imflag := false;
      } else {
        imm := op.immed;
        imflag := true;
      }
      spr[0] := npc;
      assert spr[2..] == old(spr[2..]);
    }

    /** One round of the loop of execute: fetch, decode, execute. */
    method Round() returns (ok: bool, ghost op: Inst)
      requires Shape()
      modifies this, regs, memory, spr
      ensures if ok then Fetch(old(Now())) == Some(op) && Step(old(Now()), op) == Some(Now()) else Stuck(old(Now()))
    {
      if spr[0] + 2 > memory.Length {
        return false, 0;
      }
      var inst := ReadMem(memory, spr[0], 2);
      TwoBytes(memory[spr[0]..spr[0] + 2]);
      assert memory[..][spr[0]..spr[0] + 2] == memory[spr[0]..spr[0] + 2];
      op := inst;
      ok := ExecuteSingle(Decode(imm, imflag, inst));
    }

    /** The first n rounds, fewer if the simulator gives up. */
    method Run(n: nat) returns (ghost cs: seq<Cpu>, ghost ops: seq<Inst>, done: nat)
      requires Shape()
      modifies this, regs, memory, spr
      ensures done <= n && |ops| == done && Ran(old(Now()), cs, ops)
      ensures if done == n then cs[done] == Now() else cs[done].d.Valid() && Stuck(cs[done])
    {
      cs, ops, done := [Now()], [], 0;
      while done < n
        invariant done <= n && |ops| == done && Ran(old(Now()), cs, ops) && cs[done] == Now()
      {
        ghost var op;
        var ok;
        ok, op := Round();
        if !ok {
          return;
        }
        RanMore(old(Now()), cs, ops, op, Now());
        cs, ops := cs + [Now()], ops + [op];
        done := done + 1;
      }
    }
  }

  lemma ExecuteIs(c: Cpu, op: Opcode, d: Option<Data>)
    requires c.d.Valid() && op.r1 < 16 && op.r2 < 16 && After(c.d, c.pc, op, NextPc(c)) == d
    ensures Execute(c, op) == if d.None? then None else
      Some(Cpu(d.value, NextPc(c), if op.opv == Imm then op.immed else 0, op.opv == Imm,
               if Taken(c.d, op.opv) then Target(c.d, op, NextPc(c)) else NONE))
  {
  }

  /** The instructions by what handles them. */
  lemma AfterIs(d: Data, pc: Word, op: Opcode, npc: Word)
    requires d.Valid() && op.r1 < 16 && op.r2 < 16
    ensures op.opv == Nop ==> After(d, pc, op, npc) == Some(d)
    ensures op.opv in {StPost, LdPost, Unknown} ==> After(d, pc, op, npc) == None
    ensures IsAlu(op.opv) ==> After(d, pc, op, npc) == Alu(d, op)
  {
  }

  lemma AfterMem(d: Data, pc: Word, op: Opcode, npc: Word)
    requires d.Valid() && op.r1 < 16 && op.r2 < 16
    ensures op.opv in {Stw, Sts, Stb, Stspr} ==> After(d, pc, op, npc) == Stored(d, pc, op)
    ensures op.opv in {Ldw, Lds, Ldb, Ldspr, Ldbp} ==> After(d, pc, op, npc) == Loaded(d, op)
  {
  }

  lemma AfterBranch(d: Data, pc: Word, op: Opcode, npc: Word)
    requires d.Valid() && op.r1 < 16 && op.r2 < 16 && IsBranch(op.opv)
    ensures After(d, pc, op, npc) == Some(if op.opv == Calli then d.(br := Wrap(npc + 2)) else d)
  {
  }

  /** The tests of the branch handlers. */
  predicate Condition(opv: Opv, zero: bool, carry: bool, sign: bool) {
    match opv
    case Brie => zero
    case Brine => !zero
    case Brilt => sign
    case Brile => sign || zero
    case Brigt => !(sign || zero)
    case Brige => !sign
    case Briugt => !carry
    case Briuge => !carry || zero
    case Briult => carry
    case Briule => carry || zero
    case _ => true
  }

  lemma TakenIf(d: Data, opv: Opv)
    requires IsBranch(opv)
    ensures Taken(d, opv) == Condition(opv, d.zero, d.carry, d.sign)
  {
  }

  lemma OnlyBranches(d: Data, opv: Opv)
    ensures Taken(d, opv) ==> IsBranch(opv)
  {
  }

  /** The registers after a load; ldb+ increments its address register. */
  function LoadedRegs(regs: seq<Word>, op: Opcode, v: Word): seq<Word>
    requires |regs| == 32 && op.r1 < 16 && op.r2 < 16
  {
    var r := regs[op.r2 := v];
    if op.opv == Ldbp then r[op.r1 := Increment(r[op.r1])] else r
  }

  lemma LoadedIs(d: Data, op: Opcode, v: Option<Word>)
    requires d.Valid() && op.r1 < 16 && op.r2 < 16 && v == Load(d.mem, Wrap(d.regs[op.r1] + op.immed), Width(op.opv))
    ensures Loaded(d, op) == if v.None? then None else if op.opv == Ldspr then Some(SetSpr(d, op.r2, v.value))
      else Some(d.(regs := LoadedRegs(d.regs, op, v.value)))
  {
  }

  predicate IsAlu(opv: Opv) { opv in {Add, Addc, Sub, Subb, And, Or, Xor, Sra, Srl, Shl, Mul} }

  /** The operand of an arithmetic instruction: the prefix if the instruction says so, else a register. */
  function Operand(op: Opcode, r: Word): Word { if op.aluImmed then op.immed else r }

  lemma TwoBytes(s: seq<Byte>)
    requires |s| == 2
    ensures GetBig(s) < 0x1_0000 && GetBig(s) % 0x1_0000 == GetBig(s)
  {
    assert GetBig(s) == GetBig(s[..1]) * 256 + s[1] && GetBig(s[..1]) == GetBig(s[..1][..0]) * 256 + s[0];
  }

  /** There is no word at the program counter, or one that the simulator refuses. */
  predicate Stuck(c: Cpu)
    requires c.d.Valid()
  {
    var op := Fetch(c);
    op.None? || Step(c, op.value).None?
  }

  /** A run of the machine: each word is the one at the program counter. */
  ghost predicate Ran(c: Cpu, cs: seq<Cpu>, ops: seq<Inst>) {
    Trace(cs, ops) && cs[0] == c && forall i {:trigger ops[i]} :: 0 <= i < |ops| ==> Fetch(cs[i]) == Some(ops[i])
  }

  lemma RanMore(c0: Cpu, cs: seq<Cpu>, ops: seq<Inst>, op: Inst, c: Cpu)
    requires Ran(c0, cs, ops) && cs[|ops|].d.Valid() && Fetch(cs[|ops|]) == Some(op) && Step(cs[|ops|], op) == Some(c)
    ensures Ran(c0, cs + [c], ops + [op])
  {
    var cs', ops' := cs + [c], ops + [op];
    forall i | 0 <= i < |ops'|
      ensures StepAt(cs', ops', i)
    {
      assert i < |ops| ==> StepAt(cs, ops, i);
    }
  }
}
