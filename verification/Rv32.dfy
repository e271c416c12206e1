/** The two concrete datapaths: the pipeline's and the sequential core's. */
module Rv32 {
  import opened Isa
  import opened Words
  import Alu
  import ByteMemory
  import Multiplier

  /** An instruction memory behind its decoder, and the devices. */
  datatype Program = Program(fetch: Word -> Instr, io: Word -> Word)

  function SizeOf(i: Instr): ByteMemory.Size {
    var code := i.funct3 & 3;
    if code == 0 then ByteMemory.B else if code == 1 then ByteMemory.H
    else if code == 2 then ByteMemory.W else ByteMemory.D
  }

  predicate IsUnsigned(i: Instr) { i.funct3 & 4 != 0 }

  predicate IsIO(addr: Word) { addr & 0x40_0000 != 0 }

  function Taken(i: Instr, a: Word, b: Word): bool {
    var x, y := Alu.Value(a), Alu.Value(b);
    match i.funct3
    case 0 => Alu.EQ(x, y)
    case 1 => !Alu.EQ(x, y)
    case 4 => Alu.LT(x, y)
    case 5 => !Alu.LT(x, y)
    case 6 => Alu.LTU(x, y)
    case 7 => !Alu.LTU(x, y)
    case _ => false
  }

  function ProductOf(i: Instr): Multiplier.Op {
    if i.funct3 == 0 then Multiplier.MUL else if i.funct3 == 1 then Multiplier.MULH
    else if i.funct3 == 2 then Multiplier.MULHSU else Multiplier.MULHU
  }

  function Multiply(i: Instr, a: Word, b: Word): Word {
    FromNumber(Multiplier.Multiply(ProductOf(i), Nat(a), Nat(b)))
  }

  /** E_aluOut: the multiplier or the ALU. */
  function Compute(i: Instr, a: Word, b: Word): Word {
    if i.isRV32M then Multiply(i, a, b) else Alu.PipelineAlu(i.funct3, i.bit30, i.kind.ALUR?, a, b)
  }

  function Extract(i: Instr, addr: Word, w: Word): Word {
    ByteMemory.Extract(SizeOf(i), IsUnsigned(i), Nat(addr), ByteMemory.Double(w, 0)).lo
  }

  /** Integer registers are boxed in ones, so a double store writes those above the word. */
  function StoreLanes(mem: Mem, i: Instr, addr: Word, data: Word): Mem {
    ByteMemory.Store(mem, SizeOf(i), Nat(addr), ByteMemory.Double(data, 0xFFFF_FFFF))
  }

  /** The datapath of the pipelined core. */
  ghost function Pipelined(p: Program): Datapath {
    Datapath(
      p.fetch,
      (i: Instr, pc: Word) => Plus(pc, if i.isRV32C then 2 else 4),
      (i: Instr, pc: Word) => Plus(pc, i.Jimm),
      (i: Instr, pc: Word) => Plus(pc, i.Bimm),
      (i: Instr, pc: Word) => Plus(pc, i.Uimm),
      (i: Instr, a: Word) => ClearLowest(Plus(a, i.Iimm)),
      (i: Instr, a: Word) => Plus(a, if i.kind.Store? then i.Simm else i.Iimm),
      Compute,
      (i: Instr, a: Word, b: Word) => Divide(i, a, b),
      Taken,
      IsIO,
      p.io,
      (mem: Mem, addr: Word) => ByteMemory.Read(mem, Nat(addr) / 4),
      Extract,
      StoreLanes)
  }

  /**
   The datapath of the sequential core, which knows neither multiplication nor compression and
   fetches from a ROM of words by bits 15 to 2 of its pc.
   */
  ghost function Sequential(p: Program): Datapath {
    Pipelined(p).(
      fetch := (pc: Word) => p.fetch(pc & 0xFFFC),
      sequel := (i: Instr, pc: Word) => Plus(pc, 4),
      alu := (i: Instr, a: Word, b: Word) => Alu.SequentialAlu(i.funct3, i.bit30, i.kind.ALUR?, a, b),
      divide := (i: Instr, a: Word, b: Word) => Alu.SequentialAlu(i.funct3, i.bit30, i.kind.ALUR?, a, b),
      store := (mem: Mem, i: Instr, addr: Word, data: Word) =>
        ByteMemory.StoreMuxed(mem, SizeOf(i), Nat(addr), data))
  }

  lemma PipelinedDivides(p: Program)
    ensures IsaDivision(Pipelined(p))
  {
    hide Divide;
  }

  /**
   The instruction at a.pc is a word of the ROM, belongs to RV32I, and stores, if it does, to an
   aligned address.
   */
  ghost predicate BaseInstruction(p: Program, a: Arch) {
    var i := p.fetch(a.pc);
    && a.pc & 0xFFFC == a.pc
    && !i.isRV32C && !i.isRV32M
    && (i.funct3 == 1 ==> !i.bit30 || !(i.kind.ALUR? || i.kind.ALUI?))
    && (i.kind.Store? ==> i.funct3 < 3 && ByteMemory.Aligned(Nat(Pipelined(p).address(i, Reg(a.regs, i.rs1))), SizeOf(i)))
  }

  lemma SameAlu(p: Program, i: Instr, a: Word, b: Word)
    requires !i.isRV32M && (i.kind.ALUR? || i.kind.ALUI?) && (i.funct3 == 1 ==> !i.bit30)
    ensures Sequential(p).alu(i, a, b) == Pipelined(p).alu(i, a, b)
  {
    hide Alu.PipelineAlu, Alu.SequentialAlu, Number;
    Alu.SameAluExactlyWhen(i.funct3, i.bit30, i.kind.ALUR?, a, b);
  }

  lemma SameStore(p: Program, mem: Mem, i: Instr, addr: Word, data: Word)
    requires i.funct3 < 3 && ByteMemory.Aligned(Nat(addr), SizeOf(i))
    ensures Sequential(p).store(mem, i, addr, data) == Pipelined(p).store(mem, i, addr, data)
  {
    hide ByteMemory.Store, ByteMemory.StoreMuxed, ByteMemory.Aligned;
    SmallCode(i.funct3);
    ByteMemory.MuxedStoreAgrees(mem, SizeOf(i), Nat(addr), ByteMemory.Double(data, 0xFFFF_FFFF));
  }

  lemma SmallCode(f: bv3)
    requires f < 3
    ensures f & 3 == f
  {
  }

  /** Two datapaths fetch the same instruction at a.pc and answer alike wherever it asks them. */
  ghost predicate AgreeAt(d: Datapath, e: Datapath, a: Arch) {
    var i := d.fetch(a.pc);
    var x, y := Reg(a.regs, i.rs1), Reg(a.regs, i.rs2);
    var addr := d.address(i, x);
    && e == d.(fetch := e.fetch, sequel := e.sequel, alu := e.alu, divide := e.divide, taken := e.taken,
               extract := e.extract, store := e.store)
    && e.fetch(a.pc) == i && e.sequel(i, a.pc) == d.sequel(i, a.pc)
    && (i.kind.Branch? ==> e.taken(i, x, y) == d.taken(i, x, y))
    && (i.isDIV ==> e.divide(i, x, y) == d.divide(i, x, y))
    && ((i.kind.ALUR? || i.kind.ALUI?) && !i.isDIV ==> e.alu(i, x, Operand2(i, y)) == d.alu(i, x, Operand2(i, y)))
    && (i.kind.Load? && !d.isIO(addr) ==> e.extract(i, addr, d.read(a.mem, addr)) == d.extract(i, addr, d.read(a.mem, addr)))
    && (i.kind.Store? && !d.isIO(addr) ==> e.store(a.mem, i, addr, y) == d.store(a.mem, i, addr, y))
  }

  lemma SameStep(d: Datapath, e: Datapath, a: Arch)
    requires AgreeAt(d, e, a)
    ensures Step(e, a) == Step(d, a) && CommitOf(e, a) == CommitOf(d, a)
  {
    hide StoreEffect, NextPC, WriteValue;
    SameSuccessor(d, e, a);
    SameStored(d, e, a);
    if Writes(d.fetch(a.pc)) {
      SameValue(d, e, a);
    }
  }

  lemma SameSuccessor(d: Datapath, e: Datapath, a: Arch)
    requires AgreeAt(d, e, a)
    ensures var i := d.fetch(a.pc);
      var x, y := Reg(a.regs, i.rs1), Reg(a.regs, i.rs2);
      NextPC(e, i, a.pc, x, y) == NextPC(d, i, a.pc, x, y)
  {
  }

  lemma SameStored(d: Datapath, e: Datapath, a: Arch)
    requires AgreeAt(d, e, a)
    ensures StoreEffect(e, a) == StoreEffect(d, a)
  {
  }

  lemma SameValue(d: Datapath, e: Datapath, a: Arch)
    requires AgreeAt(d, e, a) && Writes(d.fetch(a.pc))
    ensures WriteValue(e, a) == WriteValue(d, a)
  {
  }

  /** On such an instruction the two cores' datapaths take the same step. */
  lemma DatapathsAgree(p: Program, a: Arch)
    requires BaseInstruction(p, a)
    ensures Step(Sequential(p), a) == Step(Pipelined(p), a)
    ensures CommitOf(Sequential(p), a) == CommitOf(Pipelined(p), a)
  {
    hide Step, CommitOf, Pipelined, Sequential, ByteMemory.Aligned, SizeOf;
    var i := p.fetch(a.pc);
    var x, y := Reg(a.regs, i.rs1), Reg(a.regs, i.rs2);
    SharedParts(p, a.pc);
    if i.kind.ALUR? || i.kind.ALUI? {
      SameAlu(p, i, x, Operand2(i, y));
    }
    if i.kind.Store? {
      SameStore(p, a.mem, i, Pipelined(p).address(i, x), y);
    }
    SameSequel(p, i, a.pc);
    SameStep(Pipelined(p), Sequential(p), a);
  }

  lemma SharedParts(p: Program, pc: Word)
    ensures var d, e := Pipelined(p), Sequential(p);
      && e == d.(fetch := e.fetch, sequel := e.sequel, alu := e.alu, divide := e.divide, store := e.store)
      && d.fetch == p.fetch && e.fetch(pc) == p.fetch(pc & 0xFFFC) && e.taken == d.taken && e.extract == d.extract
  {
  }

  lemma SameSequel(p: Program, i: Instr, pc: Word)
    requires !i.isRV32C
    ensures Sequential(p).sequel(i, pc) == Pipelined(p).sequel(i, pc)
  {
  }
}
