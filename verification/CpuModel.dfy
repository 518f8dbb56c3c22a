/** The XThunderCore as the simulator sees it: decoding, and one instruction at a time with a branch delay. */
module CpuModel {
  import opened Bytes

  /** No branch is pending: the simulator uses the word -1 for it. */
  const NONE: Word := 0xFFFF_FFFF

  /** Registers, memory, special registers and flags. */
  datatype Data = Data(
    regs: seq<Word>, mem: seq<Byte>, br: Word, sprs: seq<Word>, zero: bool, carry: bool, sign: bool)
  {
    predicate Valid() { |regs| == 32 && |sprs| == 8 }
  }

  /** The processor: its data, the program counter, the immediate prefix and the pending branch. */
  datatype Cpu = Cpu(d: Data, pc: Word, imm: Word, imflag: bool, branchNext: Word)

  datatype Opv =
    | Nop | Add | Addc | Sub | Subb | And | Or | Xor | Sra | Srl | Shl | Mul | Cmp | Addi | Imm | Limr | Calli | Ret
    | Stw | Sts | Stb | Stspr | StPost | Ldw | Lds | Ldb | Ldspr | Ldbp | LdPost
    | Bri | Brie | Brine | Brilt | Brile | Brigt | Brige | Briugt | Briult | Briuge | Briule | Cmpi | Unknown

  datatype Opcode = Opcode(opv: Opv, r1: nat, r2: nat, immed: Word, aluImmed: bool)

  // ---------- Decoding ----------

  /** An 8-bit field: appended to the prefix if there is one, else sign-extended. */
  function Imm8(imm: Word, imflag: bool, field: nat): Word
    requires field < 256
  {
    if imflag then Wrap(imm * 256) + field else if field >= 128 then 0xFFFF_FF00 + field else field
  }

  function Imm12(imm: Word, imflag: bool, field: nat): Word
    requires field < 4096
  {
    if imflag then Wrap(imm * 4096) + field else if field >= 2048 then 0xFFFF_F000 + field else field
  }

  function AluOpv(n: nat): Opv {
    match n
    case 0 => Add case 1 => Addc case 2 => Sub case 3 => Subb case 4 => And case 5 => Or case 6 => Cmp case 7 => Xor
    case 8 => Shl case 9 => Srl case 10 => Sra case 11 => Mul case 12 => Shl case 13 => Srl case 14 => Sra
    case _ => Mul
  }

  function BranchOpv(n: nat): Opv {
    match n
    case 0 => Bri case 8 => Brie case 9 => Brine case 10 => Brigt case 11 => Brige case 12 => Brilt case 13 => Brile
    case 14 => Briugt case 15 => Briuge case 1 => Briult case 2 => Briule
    case _ => Unknown
  }

  function StoreOpv(n: nat): Opv {
    match n case 0 => Stw case 1 => Sts case 2 => Stb case 3 => Stspr case _ => StPost
  }

  function LoadOpv(n: nat): Opv {
    match n case 0 => Ldw case 1 => Lds case 2 => Ldb case 3 => Ldspr case 6 => Ldbp case _ => LdPost
  }

  type Inst = x: nat | x < 0x1_0000

  /** decode_single_opcode. */
  function Decode(imm: Word, imflag: bool, op: Inst): Opcode {
    var r1, r2 := op % 16, op / 16 % 16;
    var imm8 := Imm8(imm, imflag, op / 16 % 256);
    match op / 4096
    case 0 => Opcode(Nop, r1, r2, 0, false)
    case 1 => Opcode(AluOpv(op / 256 % 16), r1, r2, 0, false)
    case 5 => Opcode(AluOpv(op / 256 % 16), r1, r2, imm, true)
    case 2 => Opcode(StoreOpv(op / 256 % 8), r1, r2, imm, false)
    case 4 => Opcode(LoadOpv(op / 256 % 8), r1, r2, imm, false)
    case 6 => Opcode(Addi, r1, r2, imm8, false)
    case 7 => Opcode(Cmpi, r1, r2, imm8, false)
    case 8 => Opcode(Imm, r1, r2, Imm12(imm, imflag, op % 4096), false)
    case 9 => Opcode(Bri, r1, r2, imm8, false)
    case 10 => Opcode(BranchOpv(op % 16), r1, r2, imm8, false)
    case 13 => Opcode(Calli, r1, r2, imm8, false)
    case 14 => Opcode(Limr, r1, r2, imm8, false)
    case 15 => Opcode(Ret, r1, r2, 0, false)
    case _ => Opcode(Unknown, r1, r2, 0, false)
  }

  // ---------- Data ----------

  function BitAnd(x: nat, y: nat): (r: nat)
    ensures r <= x && r <= y
  {
    if x == 0 || y == 0 then 0 else (if x % 2 == 1 && y % 2 == 1 then 1 else 0) + 2 * BitAnd(x / 2, y / 2)
  }

  /** By inclusion and exclusion. */
  function BitOr(x: nat, y: nat): Word { Wrap(x + y - BitAnd(x, y)) }

  function BitXor(x: nat, y: nat): Word { Wrap(x + y - 2 * BitAnd(x, y)) }

  function Pow2(n: nat): (p: nat)
    ensures p > 0
  {
    if n == 0 then 1 else 2 * Pow2(n - 1)
  }

  function Signed(x: Word): int { if x >= 0x8000_0000 then x - WORD32 else x }

  /** The flags of a comparison: borrow and sign are bits 32 and 31 of the 64-bit difference. */
  function Compared(d: Data, x: int, y: int): Data {
    var subr := (x - y) % WORD64;
    d.(zero := subr == 0, carry := subr / WORD32 % 2 == 1, sign := subr / 0x8000_0000 % 2 == 1)
  }

  /** The value that an arithmetic instruction computes; a shift by more than 31 is undefined. */
  function AluValue(opv: Opv, a: int, b: int, immed: Option<Word>): Option<Word>
    requires 0 <= a < WORD32 && 0 <= b < WORD32
  {
    var x: int := if immed.Some? then immed.value else a;
    match opv
    case Add => Some(Wrap(b + x))
    case Sub => Some(Wrap(a - if immed.Some? then immed.value else b))
    case And => Some(Wrap(BitAnd(b, x)))
    case Or => Some(BitOr(b, x))
    case Xor => Some(BitXor(b, x))
    case Sra => if b < 32 then Some(Wrap(Signed(a) / Pow2(b))) else None
    case Srl => if b < 32 then Some(Wrap(a / Pow2(b))) else None
    case Shl => if b < 32 then Some(Wrap(a * Pow2(b))) else None
    case Mul => Some(Wrap(a * b))
    case _ => None
  }

  /** Subtraction compares its result with the second operand; the logical operations clear the borrow. */
  function AluFlags(d: Data, opv: Opv, r: Word, b: Word): Data {
    match opv
    case Sub => d.(zero := r == b, carry := r > b)
    case And => d.(zero := r == 0, carry := false)
    case Or => d.(zero := r == 0, carry := false)
    case _ => d
  }

  function Alu(d: Data, op: Opcode): (r: Option<Data>)
    requires d.Valid() && op.r1 < 16 && op.r2 < 16
    ensures r.Some? ==> r.value.Valid() && r.value.br == d.br
  {
    match AluValue(op.opv, d.regs[op.r1], d.regs[op.r2], if op.aluImmed then Some(op.immed) else None)
    case None => None
    case Some(v) =>
      var regs := d.regs[op.r1 := v];
      Some(AluFlags(d.(regs := regs), op.opv, v, regs[op.r2]))
  }

  predicate IsIo(a: Word) { a >= 0x8000_0000 }

  function Load(mem: seq<Byte>, a: Word, n: nat): Option<Word>
    requires n in {1, 2, 4}
  {
    if a % n != 0 then None
    else if a + n <= |mem| then Some(Wrap(GetBig(mem[a..a + n])))
    else if n == 4 then (if IsIo(a) then Some(0) else None)
    else if IsIo(a) then None
    else Some(0)
  }

  /** Output to the serial line is not part of the machine's state. */
  function Store(mem: seq<Byte>, a: Word, n: nat, v: Word): Option<seq<Byte>>
    requires n in {1, 2, 4}
  {
    if a % n != 0 then None
    else if a + n <= |mem| then Some(mem[..a] + PutBig(v, n) + mem[a + n..])
    else if n == 4 then (if 0x8000_0000 <= a < 0x8000_0010 then Some(mem) else None)
    else if IsIo(a) then None
    else Some(mem)
  }

  /** Special registers: 0 is the program counter, which the next instruction overwrites, and 1 is br. */
  function GetSpr(d: Data, pc: Word, i: nat): Word
    requires d.Valid()
  {
    if i % 8 == 0 then pc else if i % 8 == 1 then d.br else d.sprs[i % 8]
  }

  function SetSpr(d: Data, i: nat, v: Word): Data
    requires d.Valid()
  {
    if i % 8 == 0 then d else if i % 8 == 1 then d.(br := v) else d.(sprs := d.sprs[i % 8 := v])
  }

  function Width(opv: Opv): nat {
    match opv case Stb => 1 case Ldb => 1 case Ldbp => 1 case Sts => 2 case Lds => 2 case _ => 4
  }

  function Stored(d: Data, pc: Word, op: Opcode): (r: Option<Data>)
    requires d.Valid() && op.r1 < 16 && op.r2 < 16
    ensures r.Some? ==> r.value == d.(mem := r.value.mem)
  {
    var v := if op.opv == Stspr then GetSpr(d, pc, op.r2) else d.regs[op.r2];
    match Store(d.mem, Wrap(d.regs[op.r1] + op.immed), Width(op.opv), v)
    case Some(mem) => Some(d.(mem := mem))
    case None => None
  }

  function Loaded(d: Data, op: Opcode): (r: Option<Data>)
    requires d.Valid() && op.r1 < 16 && op.r2 < 16
    ensures r.Some? ==> r.value.Valid() && (op.opv != Ldspr ==> r.value.br == d.br)
  {
    match Load(d.mem, Wrap(d.regs[op.r1] + op.immed), Width(op.opv))
    case None => None
    case Some(v) =>
      if op.opv == Ldspr then Some(SetSpr(d, op.r2, v))
      else
        var regs := d.regs[op.r2 := v];
        Some(d.(regs := if op.opv == Ldbp then regs[op.r1 := Increment(regs[op.r1])] else regs))
  }

  function Increment(x: Word): Word { Wrap(x + 1) }

  /** The data after an instruction; nothing if the simulator gives up on it. */
  function After(d: Data, pc: Word, op: Opcode, npc: Word): (r: Option<Data>)
    requires d.Valid() && op.r1 < 16 && op.r2 < 16
    ensures r.Some? ==> r.value.Valid() && (op.opv != Calli && op.opv != Ldspr ==> r.value.br == d.br)
  {
    match op.opv
    case Addi => Some(d.(regs := d.regs[op.r1 := Wrap(d.regs[op.r1] + op.immed)]))
    case Limr => Some(d.(regs := d.regs[op.r1 := op.immed]))
    case Cmp => Some(Compared(d, d.regs[op.r1], d.regs[op.r2]))
    case Cmpi => Some(Compared(d, d.regs[op.r1], Signed(op.immed)))
    case Calli => Some(d.(br := Wrap(npc + 2)))
    case Stw => Stored(d, pc, op) case Sts => Stored(d, pc, op) case Stb => Stored(d, pc, op)
    case Stspr => Stored(d, pc, op)
    case Ldw => Loaded(d, op) case Lds => Loaded(d, op) case Ldb => Loaded(d, op) case Ldspr => Loaded(d, op)
    case Ldbp => Loaded(d, op)
    case Addc => None case Subb => None case StPost => None case LdPost => None case Unknown => None
    case _ => if op.opv == Nop || op.opv == Imm || IsBranch(op.opv) then Some(d) else Alu(d, op)
  }

  // ---------- Control ----------

  predicate IsBranch(opv: Opv) {
    opv in {Bri, Brie, Brine, Brilt, Brile, Brigt, Brige, Briugt, Briult, Briuge, Briule, Calli, Ret}
  }

  /** Whether the instruction redirects control. */
  predicate Taken(d: Data, opv: Opv) {
    match opv
    case Bri => true case Calli => true case Ret => true
    case Brie => d.zero case Brine => !d.zero
    case Brilt => d.sign case Brile => d.sign || d.zero case Brigt => !d.sign && !d.zero case Brige => !d.sign
    case Briugt => !d.carry case Briuge => !d.carry || d.zero case Briult => d.carry case Briule => d.carry || d.zero
    case _ => false
  }

  /** Where it leads, counted from the instruction that comes next anyway. */
  function Target(d: Data, op: Opcode, npc: Word): Word {
    if op.opv == Ret then d.br else Wrap(npc + op.immed)
  }

  /** Where control is after this instruction: at a branch target from before, or behind it. */
  function NextPc(c: Cpu): Word {
    if c.branchNext != NONE then c.branchNext else Wrap(c.pc + 2)
  }

  /** execute_single_opcode_fjp on a decoded instruction. */
  function Execute(c: Cpu, op: Opcode): (r: Option<Cpu>)
    requires c.d.Valid() && op.r1 < 16 && op.r2 < 16
    ensures r.Some? ==> r.value.d.Valid()
  {
    var npc := NextPc(c);
    match After(c.d, c.pc, op, npc)
    case None => None
    case Some(d) =>
      Some(Cpu(d, npc, if op.opv == Imm then op.immed else 0, op.opv == Imm,
               if Taken(c.d, op.opv) then Target(c.d, op, npc) else NONE))
  }

  /** One instruction word. */
  function Step(c: Cpu, op: Inst): (r: Option<Cpu>)
    requires c.d.Valid()
    ensures r.Some? ==> r.value.d.Valid()
  {
    Execute(c, Decode(c.imm, c.imflag, op))
  }

  /** The word at the program counter, if it is in memory. */
  function Fetch(c: Cpu): Option<Inst> {
    if c.pc + 2 <= |c.d.mem| then Some(GetBig(c.d.mem[c.pc..c.pc + 2]) % 0x1_0000) else None
  }
}
