/**
 The instruction set as a machine that executes one instruction at a time.

 Instructions are modelled after decoding. The parts of the datapath that the control
 logic never looks into (the ALU, the branch comparison, the byte lanes, the device reads)
 are fields of a `Datapath`, so what is proved about control holds for every choice of them.
 */
module Isa {
  import opened Arith
  import opened Words
  import IntegerDivider

  type RegId = x: int | 0 <= x < 32
  type RegFile = s: seq<Word> | |s| == 32 witness seq(32, _ => 0)
  type Mem = map<nat, Word>    // by word index; absent words read as zero

  datatype Kind = LUI | AUIPC | JAL | JALR | Branch | Load | Store | ALUI | ALUR | EBREAK

  /** The outputs of the decoder. */
  datatype RawInstr = Instr(
    kind: Kind, rd: RegId, rs1: RegId, rs2: RegId, funct3: bv3, bit30: bool,
    isRV32M: bool, isDIV: bool, isRV32C: bool,
    Iimm: Word, Simm: Word, Bimm: Word, Uimm: Word, Jimm: Word)
  {
    /** EBREAK encodes rd = 0; only register-register operations multiply or divide, the latter from funct3 = 4 on. */
    predicate WellFormed() {
      (kind.EBREAK? ==> rd == 0) && (isDIV <==> isRV32M && funct3 >= 4) && (isRV32M ==> kind.ALUR?)
    }

    predicate ReadsRs1() { !(kind.JAL? || kind.LUI? || kind.AUIPC?) }

    predicate ReadsRs2() { kind.Store? || kind.Branch? || kind.ALUR? }

    /** DE_wbEnable: everything but branches and stores produces a result. */
    predicate WritesBack() { !(kind.Branch? || kind.Store?) }

    /** The divider looks at two bits of funct3. */
    function DivOp(): IntegerDivider.Op {
      IntegerDivider.Op(funct3 & 1 == 1, funct3 & 2 == 2)
    }
  }

  type Instr = i: RawInstr | i.WellFormed() witness Instr(LUI, 0, 0, 0, 0, false, false, false, false, 0, 0, 0, 0, 0)

  datatype Datapath = Datapath(
    fetch: Word -> Instr,                       // instruction memory and decoder
    sequel: (Instr, Word) -> Word,              // pc + 4, or + 2 for a compressed instruction
    jump: (Instr, Word) -> Word,                // pc + Jimm
    branch: (Instr, Word) -> Word,              // pc + Bimm
    upper: (Instr, Word) -> Word,               // pc + Uimm
    indirect: (Instr, Word) -> Word,            // rs1 + Iimm with bit 0 cleared
    address: (Instr, Word) -> Word,             // rs1 + Simm for a store, rs1 + Iimm otherwise
    alu: (Instr, Word, Word) -> Word,           // E_aluOutBase and the multiplier
    divide: (Instr, Word, Word) -> Word,        // DIV, DIVU, REM, REMU
    taken: (Instr, Word, Word) -> bool,         // E_takeBranch
    isIO: Word -> bool,                         // does an address select a device?
    io: Word -> Word,                           // what the device answers
    read: (Mem, Word) -> Word,                  // the memory word an address lies in
    extract: (Instr, Word, Word) -> Word,       // lane selection and extension of a read word
    store: (Mem, Instr, Word, Word) -> Mem)     // masked write of a lane-replicated word

  /** `divide` is the division of the M extension. */
  ghost predicate IsaDivision(d: Datapath) {
    forall i: Instr, a: Word, b: Word :: i.isDIV ==> d.divide(i, a, b) == Divide(i, a, b)
  }

  /** DIV, DIVU, REM and REMU. */
  function DivisionOf(funct3: bv3): IntegerDivider.Op {
    match funct3
    case 4 => IntegerDivider.Op(false, false)
    case 5 => IntegerDivider.Op(true, false)
    case 6 => IntegerDivider.Op(false, true)
    case _ => IntegerDivider.Op(true, true)
  }

  ghost function Divide(i: Instr, a: Word, b: Word): (r: Word)
    ensures IntegerDivider.Required(32, DivisionOf(i.funct3), Nat(a), Nat(b), Nat(r))
  {
    WordBound(a);
    WordBound(b);
    TwoTo32();
    var q := IntegerDivider.Quotient(32, DivisionOf(i.funct3), Nat(a), Nat(b));
    NumberOfFrom(q);
    FromNumber(q)
  }

  function Nat(a: Word): (n: nat)
    ensures n < 0x1_0000_0000
  {
    WordRange(a);
    Number(a)
  }

  datatype Arch = Arch(pc: Word, regs: RegFile, mem: Mem)

  function Reg(regs: RegFile, id: RegId): Word {
    if id == 0 then 0 else regs[id]
  }

  function Operand2(i: Instr, b: Word): Word {
    if i.kind.ALUR? || i.kind.Branch? then b else i.Iimm
  }

  lemma WordBound(a: Word)
    ensures Nat(a) < Pow2(32)
  {
    TwoTo32();
  }

  /** The value an instruction other than a load leaves in rd. */
  function ExecuteValue(d: Datapath, i: Instr, pc: Word, a: Word, b: Word): Word {
    match i.kind
    case JAL | JALR => d.sequel(i, pc)
    case LUI => i.Uimm
    case AUIPC => d.upper(i, pc)
    case _ => if i.isDIV then d.divide(i, a, b) else d.alu(i, a, Operand2(i, b))
  }

  function LoadValue(d: Datapath, i: Instr, addr: Word, mem: Mem): Word {
    if d.isIO(addr) then d.io(addr) else d.extract(i, addr, d.read(mem, addr))
  }

  function NextPC(d: Datapath, i: Instr, pc: Word, a: Word, b: Word): Word {
    match i.kind
    case JAL => d.jump(i, pc)
    case JALR => d.indirect(i, a)
    case Branch => if d.taken(i, a, b) then d.branch(i, pc) else d.sequel(i, pc)
    case EBREAK => pc          // the machine stays there
    case _ => d.sequel(i, pc)
  }

  predicate Writes(i: Instr) { i.WritesBack() && i.rd != 0 }

  /** The value the instruction at s.pc leaves in its destination register. */
  function WriteValue(d: Datapath, s: Arch): Word {
    var i := d.fetch(s.pc);
    var a, b := Reg(s.regs, i.rs1), Reg(s.regs, i.rs2);
    if i.kind.Load? then LoadValue(d, i, d.address(i, a), s.mem) else ExecuteValue(d, i, s.pc, a, b)
  }

  function StoreEffect(d: Datapath, s: Arch): Mem {
    var i := d.fetch(s.pc);
    var addr := d.address(i, Reg(s.regs, i.rs1));
    if i.kind.Store? && !d.isIO(addr) then d.store(s.mem, i, addr, Reg(s.regs, i.rs2)) else s.mem
  }

  function Step(d: Datapath, s: Arch): Arch {
    var i := d.fetch(s.pc);
    Arch(NextPC(d, i, s.pc, Reg(s.regs, i.rs1), Reg(s.regs, i.rs2)),
         if Writes(i) then s.regs[i.rd := WriteValue(d, s)] else s.regs,
         StoreEffect(d, s))
  }

  /** The state after n instructions. */
  function Run(d: Datapath, s: Arch, n: nat): Arch {
    if n == 0 then s else Step(d, Run(d, s, n - 1))
  }

  /** What an instruction does to the registers, as a trace entry. */
  datatype Commit = Wrote(pc: Word, rd: RegId, value: Word) | NoWrite(pc: Word)

  function CommitOf(d: Datapath, s: Arch): Commit {
    var i := d.fetch(s.pc);
    if Writes(i) then Wrote(s.pc, i.rd, WriteValue(d, s)) else NoWrite(s.pc)
  }
}
