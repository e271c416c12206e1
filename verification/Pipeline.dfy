/**
 The five-stage pipeline: fetch, decode, execute, memory and write-back, with forwarding,
 load-use and store-load stalls, the multi-cycle divider, predicted fetch and squashing.

 `Clock` is one clock of the registers. The class `Core` updates the registers in place,
 stage by stage, and is proved to take exactly that step.
 */
module Pipeline {
  import opened Isa
  import opened Words
  import Arith
  import IntegerDivider

  /** Fetch/decode latch. */
  datatype FDLatch = FD(pc: Word, instr: Instr, nop: bool)

  /** Decode/execute latch; a nop has every DE_is flag low. */
  datatype DELatch = DE(pc: Word, instr: Instr, nop: bool, wbEnable: bool, predictBranch: bool, predictRA: Word)
  {
    predicate IsLoad() { !nop && instr.kind.Load? }
    predicate IsStore() { !nop && instr.kind.Store? }
    predicate IsJump() { !nop && (instr.kind.JAL? || instr.kind.JALR?) }
    predicate IsJALR() { !nop && instr.kind.JALR? }
    predicate IsBranch() { !nop && instr.kind.Branch? }
    predicate IsEBREAK() { !nop && instr.kind.EBREAK? }
    predicate IsDIV() { !nop && instr.isDIV }
  }

  /** Execute/memory latch. */
  datatype EMLatch = EM(
    pc: Word, instr: Instr, nop: bool, isLoad: bool, isStore: bool, rd: RegId,
    rs2: Word, result: Word, addr: Word, mdata: Word, wbEnable: bool)

  /** Memory/write-back latch. */
  datatype MWLatch = MW(pc: Word, nop: bool, rd: RegId, data: Word, wbEnable: bool)

  /** The four return-address registers. */
  datatype Ras = Ras(r0: Word, r1: Word, r2: Word, r3: Word)

  datatype State = State(
    pc: Word, fd: FDLatch, de: DELatch, em: EMLatch, mw: MWLatch,
    correctPC: bool, correction: Word,        // EF_correctPC, EF_PCcorrection
    regs: RegFile, mem: Mem, div: IntegerDivider.Regs, ras: Ras)

  // ---------------------------------------------------------------------------------------
  // Combinational logic
  // ---------------------------------------------------------------------------------------

  function Forward(s: State, id: RegId): Word {
    if s.em.wbEnable && s.em.rd == id then s.em.result
    else if s.mw.wbEnable && s.mw.rd == id then s.mw.data
    else ReadRegister(s.regs, id)
  }

  /** The register file's read port. */
  function ReadRegister(regs: RegFile, id: RegId): Word {
    if id == 0 then 0 else regs[id]
  }

  /** E_aluIn2. */
  function AluIn2(i: Instr, b: Word): Word {
    if i.kind.ALUR? || i.kind.Branch? then b else i.Iimm
  }

  predicate DataHazard(fd: FDLatch, de: DELatch) {
    var rs1Hazard := fd.instr.ReadsRs1() && fd.instr.rs1 == de.instr.rd;
    var rs2Hazard := fd.instr.ReadsRs2() && fd.instr.rs2 == de.instr.rd;
    || (!fd.nop && de.IsLoad() && (rs1Hazard || rs2Hazard))
    || (fd.instr.kind.Load? && de.IsStore())
  }

  predicate AluBusy(s: State) {
    s.div.busy || (s.de.IsDIV() && !s.div.finished)
  }

  /** E_result, where q is what the divider shows. */
  function Result(d: Datapath, de: DELatch, a: Word, b: Word, q: Word): Word {
    var i := de.instr;
    if de.IsJump() then d.sequel(i, de.pc)
    else if !de.nop && i.kind.LUI? then i.Uimm
    else if !de.nop && i.kind.AUIPC? then d.upper(i, de.pc)
    else if de.IsDIV() then q
    else d.alu(i, a, AluIn2(i, b))
  }

  predicate Mispredicted(d: Datapath, de: DELatch, a: Word, b: Word) {
    || (de.IsJALR() && de.predictRA != d.indirect(de.instr, a))
    || (de.IsBranch() && d.taken(de.instr, a, b) != de.predictBranch)
  }

  function Correction(d: Datapath, de: DELatch, a: Word): Word {
    if de.IsBranch() then
      if de.predictBranch then d.sequel(de.instr, de.pc) else d.branch(de.instr, de.pc)
    else
      d.indirect(de.instr, a)
  }

  predicate PredictPC(fd: FDLatch, bht: bool) {
    !fd.nop && (fd.instr.kind.JAL? || fd.instr.kind.JALR? || (fd.instr.kind.Branch? && bht))
  }

  function Prediction(d: Datapath, fd: FDLatch, ras: Ras): Word {
    if fd.instr.kind.JALR? then ras.r0
    else if fd.instr.kind.JAL? then d.jump(fd.instr, fd.pc) else d.branch(fd.instr, fd.pc)
  }

  /** The fetch address: a prediction, a registered correction, or the next address in sequence. */
  function FetchPC(d: Datapath, s: State, bht: bool): Word {
    if PredictPC(s.fd, bht) then Prediction(d, s.fd, s.ras)
    else if s.correctPC then s.correction else s.pc
  }

  /** Every combinational signal a register samples at the clock edge. */
  datatype Wires = Wires(
    rs1: Word, rs2: Word, result: Word, addr: Word, mdata: Word,
    mispredicted: bool, correction: Word,
    dataHazard: bool, aluBusy: bool, halt: bool, fetchPC: Word, bht: bool)
  {
    predicate FetchStall() { aluBusy || dataHazard || halt }   // F_stall and D_stall
    predicate ExecuteFlush() { mispredicted || dataHazard }    // E_flush
  }

  /** What the divider shows. */
  function DividerOutput(de: DELatch, div: IntegerDivider.Regs): Word {
    var q := IntegerDivider.Result(32, div, de.instr.DivOp());
    if q < 0x1_0000_0000 then FromNumber(q) else 0
  }

  function Sample(d: Datapath, s: State, bht: bool): Wires {
    SampleWith(d, s, bht, DividerOutput(s.de, s.div))
  }

  function SampleWith(d: Datapath, s: State, bht: bool, q: Word): Wires {
    var a, b := Forward(s, s.de.instr.rs1), Forward(s, s.de.instr.rs2);
    var addr := d.address(s.de.instr, a);
    Wires(a, b, Result(d, s.de, a, b, q), addr, d.read(s.mem, addr),
          Mispredicted(d, s.de, a, b), Correction(d, s.de, a),
          DataHazard(s.fd, s.de), AluBusy(s), s.de.IsEBREAK(),
          FetchPC(d, s, bht), bht)
  }

  // ---------------------------------------------------------------------------------------
  // Next register values
  // ---------------------------------------------------------------------------------------

  function NextFD(d: Datapath, fd: FDLatch, w: Wires): FDLatch {
    if w.FetchStall() then fd.(nop := w.mispredicted)
    else FD(w.fetchPC, d.fetch(w.fetchPC), w.mispredicted)
  }

  function NextPCReg(d: Datapath, pc: Word, w: Wires): Word {
    if w.FetchStall() then pc else d.sequel(d.fetch(w.fetchPC), w.fetchPC)
  }

  predicate DecodesWriteBack(i: Instr) { !(i.kind.Branch? || i.kind.Store?) }

  function NextDE(fd: FDLatch, de: DELatch, ras: Ras, w: Wires): DELatch {
    var loaded := if w.FetchStall() then de
                  else DE(fd.pc, fd.instr, w.ExecuteFlush() || fd.nop, DecodesWriteBack(fd.instr), w.bht, ras.r0);
    if w.ExecuteFlush() || fd.nop then loaded.(nop := true, wbEnable := false) else loaded
  }

  function NextRas(d: Datapath, fd: FDLatch, ras: Ras, w: Wires): Ras {
    var i := fd.instr;
    if w.FetchStall() || fd.nop || w.mispredicted then ras
    else if (i.kind.JAL? || i.kind.JALR?) && i.rd == 1 then
      Ras(d.sequel(i, fd.pc), ras.r0, ras.r1, ras.r2)
    else if i.kind.JALR? && i.rd == 0 && (i.rs1 == 1 || i.rs1 == 5) then
      Ras(ras.r1, ras.r2, ras.r3, ras.r3)
    else ras
  }

  function NextEM(de: DELatch, em: EMLatch, w: Wires): EMLatch {
    if w.aluBusy then em.(nop := true, isLoad := false, isStore := false, wbEnable := false)
    else EM(de.pc, de.instr, de.nop, de.IsLoad(), de.IsStore(), de.instr.rd,
            w.rs2, w.result, w.addr, w.mdata, de.wbEnable && de.instr.rd != 0)
  }

  function NextDiv(de: DELatch, div: IntegerDivider.Regs, w: Wires): IntegerDivider.Regs {
    IntegerDivider.Clock(32, div, de.IsDIV() && !w.dataHazard && !div.finished, de.instr.DivOp(),
                         Nat(w.rs1), Nat(w.rs2))
  }

  function NextMW(d: Datapath, em: EMLatch): MWLatch {
    MW(em.pc, em.nop, em.rd,
       if em.isLoad then (if d.isIO(em.addr) then d.io(em.addr) else d.extract(em.instr, em.addr, em.mdata))
       else em.result,
       em.wbEnable)
  }

  function NextMem(d: Datapath, em: EMLatch, mem: Mem): Mem {
    if em.isStore && !d.isIO(em.addr) then d.store(mem, em.instr, em.addr, em.rs2) else mem
  }

  function NextRegs(mw: MWLatch, regs: RegFile): RegFile {
    if mw.wbEnable && mw.rd != 0 then regs[mw.rd := mw.data] else regs
  }

  /** Every register latched at once from the wires of the clock. */
  function Latch(d: Datapath, s: State, w: Wires, div: IntegerDivider.Regs): State {
    State(NextPCReg(d, s.pc, w), NextFD(d, s.fd, w), NextDE(s.fd, s.de, s.ras, w),
          NextEM(s.de, s.em, w), NextMW(d, s.em),
          !w.aluBusy && w.mispredicted, if w.aluBusy then s.correction else w.correction,
          NextRegs(s.mw, s.regs), NextMem(d, s.em, s.mem), div, NextRas(d, s.fd, s.ras, w))
  }

  /** One clock, given the bit the branch history table happens to answer. */
  function Clock(d: Datapath, s: State, bht: bool): State {
    var w := Sample(d, s, bht);
    Latch(d, s, w, NextDiv(s.de, s.div, w))
  }

  // ---------------------------------------------------------------------------------------
  // Agreement with the instruction set
  // ---------------------------------------------------------------------------------------

  function Count(nop: bool): nat { if nop then 0 else 1 }

  ghost predicate RetiringOK(d: Datapath, mw: MWLatch, a: Arch) {
    if mw.nop then !mw.wbEnable
    else
      var i := d.fetch(a.pc);
      && mw.pc == a.pc && mw.wbEnable == Writes(i) && mw.rd == i.rd
      && (Writes(i) ==> mw.data == WriteValue(d, a))
  }

  ghost predicate MemoryOK(d: Datapath, em: EMLatch, a: Arch) {
    if em.nop then !em.isLoad && !em.isStore && !em.wbEnable
    else
      var i := d.fetch(a.pc);
      && em.pc == a.pc && em.instr == i && em.rd == i.rd
      && em.isLoad == i.kind.Load? && em.isStore == i.kind.Store? && em.wbEnable == Writes(i)
      && (em.isLoad || em.isStore ==> em.addr == d.address(i, Reg(a.regs, i.rs1)))
      && (em.isLoad ==> em.mdata == d.read(a.mem, em.addr))
      && (em.isStore ==> em.rs2 == Reg(a.regs, i.rs2))
      && (Writes(i) && !em.isLoad ==> em.result == WriteValue(d, a))
  }

  /** The next pc that fetch assumed for the instruction in the execute stage. */
  function PredictedNext(d: Datapath, de: DELatch): Word {
    match de.instr.kind
    case JAL => d.jump(de.instr, de.pc)
    case JALR => de.predictRA
    case Branch => if de.predictBranch then d.branch(de.instr, de.pc) else d.sequel(de.instr, de.pc)
    case _ => d.sequel(de.instr, de.pc)
  }

  /** The decode latch holds the instruction at a.pc, or nothing. */
  ghost predicate Decoded(d: Datapath, de: DELatch, a: Arch) {
    if de.nop then !de.wbEnable
    else de.pc == a.pc && de.instr == d.fetch(a.pc) && de.wbEnable == de.instr.WritesBack()
  }

  ghost predicate ExecuteOK(d: Datapath, de: DELatch, em: EMLatch, a: Arch) {
    && Decoded(d, de, a)
    // No load in front of it whose result it needs, no store in front of a load
    && (!de.nop && em.isLoad ==>
          && !(de.instr.ReadsRs1() && de.instr.rs1 == em.rd)
          && !(de.instr.ReadsRs2() && de.instr.rs2 == em.rd))
    && !(em.isStore && de.IsLoad())
  }

  /** Whatever is being fetched is the successor of what is being executed, or was so predicted. */
  ghost predicate FetchOK(d: Datapath, pc: Word, fd: FDLatch, de: DELatch, correctPC: bool, correction: Word, next: Word) {
    && fd.instr == d.fetch(fd.pc)
    && (correctPC ==> fd.nop && correction == next)
    && (if fd.nop then de.nop && (!correctPC ==> pc == next)
        else
          && pc == d.sequel(fd.instr, fd.pc)
          && fd.pc == if de.nop then next else PredictedNext(d, de))
  }

  /** The divider is idle, or is part-way through the division in the execute stage. */
  ghost predicate DividerOK(de: DELatch, div: IntegerDivider.Regs, regs: RegFile) {
    var x, y := Nat(Reg(regs, de.instr.rs1)), Nat(Reg(regs, de.instr.rs2));
    if !div.busy && !div.finished then div.mask == 0
    else de.IsDIV() && div.busy != div.finished && exists j: nat :: DigitsDone(div, de.instr.DivOp(), x, y, j)
  }

  /** j digits of x / y are in the divider registers. */
  ghost predicate DigitsDone(div: IntegerDivider.Regs, op: IntegerDivider.Op, x: nat, y: nat, j: nat) {
    && IntegerDivider.Digits(32, div, IntegerDivider.Magnitude(32, op, x), IntegerDivider.Magnitude(32, op, y), j)
    && div.sign == IntegerDivider.ResultSign(32, op, x, y)
    && div.busy == (j < 32)
  }

  /**
   The instructions in flight: a0 is the state before the one in write-back, a1 before the one
   in the memory stage, a2 before the one in execute, and a3 the state after all of them.
   */
  ghost predicate Flow(d: Datapath, s: State, a0: Arch, a1: Arch, a2: Arch, a3: Arch) {
    && a1 == After(d, a0, s.mw.nop) && a2 == After(d, a1, s.em.nop) && a3 == After(d, a2, s.de.nop)
    && s.regs == a0.regs && s.mem == a1.mem
    && RetiringOK(d, s.mw, a0)
    && MemoryOK(d, s.em, a1)
    && ExecuteOK(d, s.de, s.em, a2)
    && FetchOK(d, s.pc, s.fd, s.de, s.correctPC, s.correction, a3.pc)
  }

  function After(d: Datapath, a: Arch, nop: bool): Arch {
    if nop then a else Isa.Step(d, a)
  }

  // ---------------------------------------------------------------------------------------
  // One clock keeps the invariant
  // ---------------------------------------------------------------------------------------

  lemma RetireRegs(d: Datapath, mw: MWLatch, a0: Arch, a1: Arch)
    requires RetiringOK(d, mw, a0) && a1 == After(d, a0, mw.nop)
    ensures NextRegs(mw, a0.regs) == a1.regs
  {
  }

  /** Every operand that the instruction in the execute stage reads is the architectural one. */
  lemma OperandsArchitectural(d: Datapath, s: State, a0: Arch, a1: Arch, a2: Arch, a3: Arch, id: RegId)
    requires Flow(d, s, a0, a1, a2, a3) && !(s.em.isLoad && id == s.em.rd)
    ensures Forward(s, id) == Reg(a2.regs, id)
  {
    hide FetchOK, ExecuteOK, Decoded, NextPC, StoreEffect;
  }

  lemma StepMem(d: Datapath, em: EMLatch, a1: Arch, a2: Arch)
    requires MemoryOK(d, em, a1) && a2 == After(d, a1, em.nop)
    ensures NextMem(d, em, a1.mem) == a2.mem
    ensures RetiringOK(d, NextMW(d, em), a1)
  {
  }

  /** x and y are the architectural values of the registers the instruction reads. */
  ghost predicate Operands(i: Instr, regs: RegFile, x: Word, y: Word) {
    && (i.ReadsRs1() ==> x == Reg(regs, i.rs1))
    && (i.ReadsRs2() ==> y == Reg(regs, i.rs2))
  }

  lemma ForwardedOperands(d: Datapath, s: State, a0: Arch, a1: Arch, a2: Arch, a3: Arch)
    requires Flow(d, s, a0, a1, a2, a3) && !s.de.nop
    ensures Operands(s.de.instr, a2.regs, Forward(s, s.de.instr.rs1), Forward(s, s.de.instr.rs2))
  {
    if s.de.instr.ReadsRs1() {
      OperandsArchitectural(d, s, a0, a1, a2, a3, s.de.instr.rs1);
    }
    if s.de.instr.ReadsRs2() {
      OperandsArchitectural(d, s, a0, a1, a2, a3, s.de.instr.rs2);
    }
  }

  /** A misprediction is noticed exactly when fetch went elsewhere, and the correction is the true successor. */
  lemma BranchResolved(d: Datapath, de: DELatch, a: Arch, x: Word, y: Word)
    requires !de.nop && de.pc == a.pc && de.instr == d.fetch(a.pc) && !de.instr.kind.EBREAK?
    requires Operands(de.instr, a.regs, x, y)
    ensures Mispredicted(d, de, x, y) ==> Correction(d, de, x) == Isa.Step(d, a).pc
    ensures !Mispredicted(d, de, x, y) ==> PredictedNext(d, de) == Isa.Step(d, a).pc
  {
  }

  /** What the wires say about the instruction in the execute stage, whose state is a. */
  ghost predicate Sampled(d: Datapath, fd: FDLatch, de: DELatch, w: Wires, a: Arch, mem: Mem) {
    && (!de.nop ==> Operands(de.instr, a.regs, w.rs1, w.rs2))
    && (de.IsDIV() && !w.aluBusy ==> w.result == WriteValue(d, a))
    && (!de.IsDIV() ==> !w.aluBusy && w.result == Result(d, de, w.rs1, w.rs2, 0))
    && w.addr == d.address(de.instr, w.rs1) && w.mdata == d.read(mem, w.addr)
    && w.mispredicted == Mispredicted(d, de, w.rs1, w.rs2) && w.correction == Correction(d, de, w.rs1)
    && w.dataHazard == DataHazard(fd, de) && w.halt == de.IsEBREAK()
  }

  lemma ResultArchitectural(d: Datapath, de: DELatch, a: Arch, x: Word, y: Word)
    requires !de.nop && de.pc == a.pc && de.instr == d.fetch(a.pc)
    requires Operands(de.instr, a.regs, x, y) && !de.instr.isDIV && !de.instr.kind.Load? && de.instr.WritesBack()
    ensures Result(d, de, x, y, 0) == WriteValue(d, a)
  {
  }

  lemma ResultLatched(d: Datapath, fd: FDLatch, de: DELatch, w: Wires, a: Arch, mem: Mem)
    requires Sampled(d, fd, de, w, a, mem) && Decoded(d, de, a) && !de.nop && !w.aluBusy
    requires Writes(de.instr) && !de.instr.kind.Load?
    ensures w.result == WriteValue(d, a)
  {
    hide Result, WriteValue, Mispredicted, Correction, DataHazard;
    if !de.instr.isDIV {
      ResultArchitectural(d, de, a, w.rs1, w.rs2);
    }
  }

  /** The execute stage hands the memory stage what the ISA says the instruction computes. */
  lemma ExecuteToMemory(d: Datapath, fd: FDLatch, de: DELatch, em: EMLatch, w: Wires, a: Arch, mem: Mem)
    requires Sampled(d, fd, de, w, a, mem)
    requires Decoded(d, de, a)
    requires de.IsLoad() ==> mem == a.mem
    ensures MemoryOK(d, NextEM(de, em, w), a)
  {
    hide Result, WriteValue, Mispredicted, Correction, DataHazard;
    if !de.nop && !w.aluBusy && Writes(de.instr) && !de.instr.kind.Load? {
      ResultLatched(d, fd, de, w, a, mem);
    }
  }

  /** An instruction enters execute only if the one ahead of it cannot starve it of a loaded value. */
  lemma HazardsHeld(d: Datapath, s: State, w: Wires)
    requires w.dataHazard == DataHazard(s.fd, s.de) && w.halt == s.de.IsEBREAK()
    ensures var em := NextEM(s.de, s.em, w);
      var de := NextDE(s.fd, s.de, s.ras, w);
      && (!de.nop && em.isLoad ==>
            && !(de.instr.ReadsRs1() && de.instr.rs1 == em.rd)
            && !(de.instr.ReadsRs2() && de.instr.rs2 == em.rd))
      && !(em.isStore && de.IsLoad())
  {
  }

  lemma DecodeToExecute(d: Datapath, s: State, w: Wires, a2: Arch, a3: Arch)
    requires Decoded(d, s.de, a2) && a3 == After(d, a2, s.de.nop)
    requires FetchOK(d, s.pc, s.fd, s.de, s.correctPC, s.correction, a3.pc)
    requires Sampled(d, s.fd, s.de, w, a2, s.mem)
    ensures Decoded(d, NextDE(s.fd, s.de, s.ras, w), After(d, a2, NextEM(s.de, s.em, w).nop))
  {
    if !s.de.nop && !s.de.IsEBREAK() {
      BranchResolved(d, s.de, a2, w.rs1, w.rs2);
    }
  }

  /** A stalled fetch keeps its place: the instruction in execute stays, or leaves a bubble behind it. */
  lemma FetchStalled(d: Datapath, s: State, w: Wires, a2: Arch, a3: Arch)
    requires ExecuteOK(d, s.de, s.em, a2) && a3 == After(d, a2, s.de.nop)
    requires FetchOK(d, s.pc, s.fd, s.de, s.correctPC, s.correction, a3.pc)
    requires Sampled(d, s.fd, s.de, w, a2, s.mem) && w.FetchStall()
    ensures !w.mispredicted && !s.fd.nop && !s.de.nop
    ensures NextFD(d, s.fd, w) == s.fd && NextPCReg(d, s.pc, w) == s.pc
    ensures NextDE(s.fd, s.de, s.ras, w) == if w.dataHazard then s.de.(nop := true, wbEnable := false) else s.de
    ensures w.dataHazard ==> PredictedNext(d, s.de) == a3.pc
    ensures w.dataHazard ==> !w.aluBusy && !w.halt
  {
    hide WriteValue, StoreEffect, FetchPC;
  }

  /** Decode passes on the fetched instruction together with the address fetch went to next. */
  lemma PredictionPassedOn(d: Datapath, s: State, w: Wires, next: Word)
    requires FetchOK(d, s.pc, s.fd, s.de, s.correctPC, s.correction, next)
    requires w.fetchPC == FetchPC(d, s, w.bht) && !w.FetchStall() && !w.mispredicted
    ensures var de' := NextDE(s.fd, s.de, s.ras, w);
      w.fetchPC == if de'.nop then next else PredictedNext(d, de')
  {
  }

  /** Fetch stays on the path it predicted, or restarts on the true one. */
  lemma FetchAdvances(d: Datapath, s: State, w: Wires, next: Word, after: Word)
    requires FetchOK(d, s.pc, s.fd, s.de, s.correctPC, s.correction, next)
    requires w.fetchPC == FetchPC(d, s, w.bht) && !w.FetchStall()
    requires w.mispredicted ==> w.correction == next
    ensures var de' := NextDE(s.fd, s.de, s.ras, w);
      FetchOK(d, NextPCReg(d, s.pc, w), NextFD(d, s.fd, w), de', w.mispredicted, w.correction,
              if de'.nop then next else after)
  {
    if !w.mispredicted {
      PredictionPassedOn(d, s, w, next);
    }
  }

  lemma DividerBusy(div: IntegerDivider.Regs, op: IntegerDivider.Op, x: nat, y: nat, j: nat,
                    start: bool, op': IntegerDivider.Op, x': nat, y': nat)
    requires DigitsDone(div, op, x, y, j) && div.busy && x < Arith.Pow2(32)
    ensures var next := IntegerDivider.Clock(32, div, start, op', x', y');
      DigitsDone(next, op, x, y, j + 1) && next.finished == !next.busy
  {
    IntegerDivider.MagnitudeBound(32, op, x);
    IntegerDivider.DigitStep(32, div, IntegerDivider.Magnitude(32, op, x), IntegerDivider.Magnitude(32, op, y), j,
                             start, op', x', y');
  }

  lemma DividerStarts(div: IntegerDivider.Regs, op: IntegerDivider.Op, x: nat, y: nat)
    requires !div.busy && !div.finished && div.mask == 0 && x < Arith.Pow2(32) && y < Arith.Pow2(32)
    ensures DigitsDone(IntegerDivider.Clock(32, div, true, op, x, y), op, x, y, 0)
    ensures !IntegerDivider.Clock(32, div, true, op, x, y).finished
  {
    IntegerDivider.DigitsStart(32, div, op, x, y);
  }

  /** The divider starts on the clock its operands are right, and then works through the digits undisturbed. */
  lemma DividerAdvances(de: DELatch, div: IntegerDivider.Regs, w: Wires, regs: RegFile, next: IntegerDivider.Regs)
    requires DividerOK(de, div, regs)
    requires de.IsDIV() && !div.finished && Operands(de.instr, regs, w.rs1, w.rs2)
    requires next == IntegerDivider.Clock(32, div, true, de.instr.DivOp(), Nat(w.rs1), Nat(w.rs2))
    ensures (next.busy || next.finished) && DividerOK(de, next, regs)
  {
    var op := de.instr.DivOp();
    var a, b := Reg(regs, de.instr.rs1), Reg(regs, de.instr.rs2);
    assert w.rs1 == a && w.rs2 == b;
    WordBound(a);
    WordBound(b);
    if div.busy {
      var j: nat :| DigitsDone(div, op, Nat(a), Nat(b), j);
      DividerBusy(div, op, Nat(a), Nat(b), j, true, op, Nat(a), Nat(b));
      assert DigitsDone(next, op, Nat(a), Nat(b), j + 1);
    } else {
      DividerStarts(div, op, Nat(a), Nat(b));
      assert DigitsDone(next, op, Nat(a), Nat(b), 0);
    }
  }

  /** With no division to do, or one just finished, the divider goes idle. */
  lemma DividerRests(de: DELatch, div: IntegerDivider.Regs, w: Wires, regs: RegFile)
    requires DividerOK(de, div, regs) && (de.IsDIV() ==> div.finished)
    ensures var next := NextDiv(de, div, w);
      !next.busy && !next.finished && next.mask == 0
  {
  }

  /**
   When the divider reports that it has finished, it shows the quotient or remainder of the
   architectural operands that funct3 asks for, and that is the instruction set's result.
   */
  lemma QuotientReady(d: Datapath, de: DELatch, div: IntegerDivider.Regs, regs: RegFile)
    requires DividerOK(de, div, regs) && div.finished
    ensures IntegerDivider.Required(32, DivisionOf(de.instr.funct3), Nat(Reg(regs, de.instr.rs1)), Nat(Reg(regs, de.instr.rs2)),
                                    Nat(DividerOutput(de, div)))
    ensures IsaDivision(d) ==>
      DividerOutput(de, div) == d.divide(de.instr, Reg(regs, de.instr.rs1), Reg(regs, de.instr.rs2))
  {
    hide IntegerDivider.Required, IntegerDivider.Result, DigitsDone, Number, FromNumber;
    var op := de.instr.DivOp();
    var a, b := Reg(regs, de.instr.rs1), Reg(regs, de.instr.rs2);
    var q := IntegerDivider.Result(32, div, op);
    DivisionBits(de.instr.funct3);
    QuotientRequired(de, div, regs);
    RequiredBound(op, Nat(a), Nat(b), q);
    NumberOfFrom(q);
    if IsaDivision(d) {
      WordBound(a);
      WordBound(b);
      IntegerDivider.RequiredUnique(32, op, Nat(a), Nat(b), q, Nat(Divide(de.instr, a, b)));
      NumberInjective(DividerOutput(de, div), Divide(de.instr, a, b));
      assert d.divide(de.instr, a, b) == Divide(de.instr, a, b);
    }
  }

  lemma QuotientRequired(de: DELatch, div: IntegerDivider.Regs, regs: RegFile)
    requires DividerOK(de, div, regs) && div.finished
    ensures var op := de.instr.DivOp();
      IntegerDivider.Required(32, op, Nat(Reg(regs, de.instr.rs1)), Nat(Reg(regs, de.instr.rs2)), IntegerDivider.Result(32, div, op))
    ensures de.instr.isDIV && de.instr.funct3 >= 4
  {
    hide IntegerDivider.Required, IntegerDivider.Result, IntegerDivider.Digits;
    var op := de.instr.DivOp();
    var a, b := Reg(regs, de.instr.rs1), Reg(regs, de.instr.rs2);
    var j: nat :| DigitsDone(div, op, Nat(a), Nat(b), j);
    WordBound(a);
    WordBound(b);
    DigitsAtEnd(div, IntegerDivider.Magnitude(32, op, Nat(a)), IntegerDivider.Magnitude(32, op, Nat(b)), j);
    IntegerDivider.FinalResult(32, div, op, Nat(a), Nat(b));
  }

  lemma DigitsAtEnd(div: IntegerDivider.Regs, n: nat, d: nat, j: nat)
    requires IntegerDivider.Digits(32, div, n, d, j) && j >= 32
    ensures j == 32
  {
  }

  lemma DivisionBits(funct3: bv3)
    requires funct3 >= 4
    ensures DivisionOf(funct3) == IntegerDivider.Op(funct3 & 1 == 1, funct3 & 2 == 2)
  {
  }

  lemma RequiredBound(op: IntegerDivider.Op, a: nat, b: nat, q: nat)
    requires IntegerDivider.Required(32, op, a, b, q)
    ensures q < 0x1_0000_0000
  {
    TwoTo32();
  }

  lemma SampleCorrect(d: Datapath, s: State, bht: bool, q: Word, a: Arch)
    requires ExecuteOK(d, s.de, s.em, a) && (s.div.busy ==> s.de.IsDIV())
    requires !s.de.nop ==> Operands(s.de.instr, a.regs, Forward(s, s.de.instr.rs1), Forward(s, s.de.instr.rs2))
    requires s.de.IsDIV() && s.div.finished ==>
      q == d.divide(s.de.instr, Reg(a.regs, s.de.instr.rs1), Reg(a.regs, s.de.instr.rs2))
    ensures Sampled(d, s.fd, s.de, SampleWith(d, s, bht, q), a, s.mem)
  {
  }

  /** The wires of a clock, with everything the registers will rely on. */
  lemma WiresCorrect(d: Datapath, s: State, bht: bool, a0: Arch, a1: Arch, a2: Arch, a3: Arch)
    requires IsaDivision(d) && Flow(d, s, a0, a1, a2, a3) && DividerOK(s.de, s.div, a2.regs)
    ensures Sampled(d, s.fd, s.de, SampleWith(d, s, bht, DividerOutput(s.de, s.div)), a2, s.mem)
  {
    if !s.de.nop {
      ForwardedOperands(d, s, a0, a1, a2, a3);
    }
    if s.div.finished {
      QuotientReady(d, s.de, s.div, a2.regs);
    }
    SampleCorrect(d, s, bht, DividerOutput(s.de, s.div), a2);
  }

  lemma FetchKept(d: Datapath, s: State, w: Wires, a2: Arch, a3: Arch)
    requires ExecuteOK(d, s.de, s.em, a2) && a3 == After(d, a2, s.de.nop)
    requires FetchOK(d, s.pc, s.fd, s.de, s.correctPC, s.correction, a3.pc)
    requires Sampled(d, s.fd, s.de, w, a2, s.mem) && w.fetchPC == FetchPC(d, s, w.bht)
    ensures var de' := NextDE(s.fd, s.de, s.ras, w);
      var a2' := After(d, a2, NextEM(s.de, s.em, w).nop);
      FetchOK(d, NextPCReg(d, s.pc, w), NextFD(d, s.fd, w), de',
              !w.aluBusy && w.mispredicted, if w.aluBusy then s.correction else w.correction,
              After(d, a2', de'.nop).pc)
  {
    var de' := NextDE(s.fd, s.de, s.ras, w);
    if w.FetchStall() {
      FetchStalled(d, s, w, a2, a3);
    } else {
      if w.mispredicted {
        BranchResolved(d, s.de, a2, w.rs1, w.rs2);
      }
      FetchAdvances(d, s, w, a3.pc, After(d, a3, de'.nop).pc);
    }
  }

  /** One clock moves every instruction on, or holds it, without disturbing what it stands for. */
  lemma LatchKeepsFlow(d: Datapath, s: State, w: Wires, div: IntegerDivider.Regs, a0: Arch, a1: Arch, a2: Arch, a3: Arch)
    requires Flow(d, s, a0, a1, a2, a3)
    requires Sampled(d, s.fd, s.de, w, a2, s.mem) && w.fetchPC == FetchPC(d, s, w.bht)
    ensures var s' := Latch(d, s, w, div);
      var a2' := After(d, a2, s'.em.nop);
      Flow(d, s', a1, a2, a2', After(d, a2', s'.de.nop))
  {
    hide MemoryOK, Decoded, FetchOK, RetiringOK, DataHazard, Result, Mispredicted, Correction, NextEM, NextDE, NextFD, NextPCReg, NextMem, NextRegs, NextRas, Isa.Step;
    var s' := Latch(d, s, w, div);
    var a2' := After(d, a2, s'.em.nop);
    assert s'.regs == a1.regs by { RetireRegs(d, s.mw, a0, a1); }
    assert s'.mem == a2.mem && RetiringOK(d, s'.mw, a1) by { StepMem(d, s.em, a1, a2); }
    assert MemoryOK(d, s'.em, a2) by { LoadSeesMemory(d, s.de, s.em, a1, a2);
                                       ExecuteToMemory(d, s.fd, s.de, s.em, w, a2, s.mem); }
    assert ExecuteOK(d, s'.de, s'.em, a2') by {
      DecodeToExecute(d, s, w, a2, a3);
      HazardsHeld(d, s, w);
    }
    assert FetchOK(d, s'.pc, s'.fd, s'.de, s'.correctPC, s'.correction, After(d, a2', s'.de.nop).pc) by {
      FetchKept(d, s, w, a2, a3);
    }
  }

  /** The store-load stall: a load never executes while a store is still in the memory stage. */
  lemma LoadSeesMemory(d: Datapath, de: DELatch, em: EMLatch, a1: Arch, a2: Arch)
    requires MemoryOK(d, em, a1) && a2 == After(d, a1, em.nop) && ExecuteOK(d, de, em, a2)
    ensures Decoded(d, de, a2) && (de.IsLoad() ==> a1.mem == a2.mem)
  {
  }

  /** One clock keeps what every instruction in the pipeline stands for, and retires at most one. */
  lemma StepKeepsFlow(d: Datapath, s: State, bht: bool, a0: Arch, a1: Arch, a2: Arch, a3: Arch)
    requires IsaDivision(d) && Flow(d, s, a0, a1, a2, a3) && DividerOK(s.de, s.div, a2.regs)
    ensures var s' := Clock(d, s, bht);
      var a2' := After(d, a2, s'.em.nop);
      Flow(d, s', a1, a2, a2', After(d, a2', s'.de.nop)) && DividerOK(s'.de, s'.div, a2'.regs)
  {
    var w := Sample(d, s, bht);
    var div := NextDiv(s.de, s.div, w);
    WiresCorrect(d, s, bht, a0, a1, a2, a3);
    LatchKeepsFlow(d, s, w, div, a0, a1, a2, a3);
    DividerKept(d, s, w, div, a2);
  }

  lemma DividerKept(d: Datapath, s: State, w: Wires, div: IntegerDivider.Regs, a2: Arch)
    requires DividerOK(s.de, s.div, a2.regs) && Sampled(d, s.fd, s.de, w, a2, s.mem)
    requires w.aluBusy == AluBusy(s) && div == NextDiv(s.de, s.div, w) && (s.fd.nop ==> s.de.nop)
    ensures DividerOK(NextDE(s.fd, s.de, s.ras, w), div, After(d, a2, NextEM(s.de, s.em, w).nop).regs)
  {
    hide IntegerDivider.Clock, DigitsDone, Isa.Step, Result, Correction;
    if s.de.IsDIV() && !s.div.finished {
      DividerAdvances(s.de, s.div, w, a2.regs, div);
    } else {
      DividerRests(s.de, s.div, w, a2.regs);
    }
  }

  // ---------------------------------------------------------------------------------------
  // Whole runs
  // ---------------------------------------------------------------------------------------

  /** Nothing in flight and nothing pending, as reset leaves the pipeline. */
  ghost predicate Drained(s: State) {
    && s.fd.nop && s.de.nop && s.em.nop && s.mw.nop
    && !s.de.wbEnable && !s.em.wbEnable && !s.mw.wbEnable && !s.em.isLoad && !s.em.isStore
    && !s.correctPC && !s.div.busy && !s.div.finished && s.div.mask == 0
  }

  /** n clocks, under any sequence of answers from the branch history table. */
  function RunClocks(d: Datapath, s: State, bht: nat -> bool, n: nat): State {
    if n == 0 then s else Clock(d, RunClocks(d, s, bht, n - 1), bht(n - 1))
  }

  /** What the write-back stage hands the register file in one clock. */
  function Retiring(mw: MWLatch): seq<Commit> {
    if mw.nop then [] else if mw.wbEnable then [Wrote(mw.pc, mw.rd, mw.data)] else [NoWrite(mw.pc)]
  }

  /** Everything retired in the first n clocks, in order. */
  function Retired(d: Datapath, s: State, bht: nat -> bool, n: nat): seq<Commit> {
    if n == 0 then [] else Retired(d, s, bht, n - 1) + Retiring(RunClocks(d, s, bht, n - 1).mw)
  }

  ghost predicate Inv(d: Datapath, start: Arch, s: State, k: nat) {
    var k1 := k + Count(s.mw.nop);
    var k2 := k1 + Count(s.em.nop);
    var k3 := k2 + Count(s.de.nop);
    && Flow(d, s, Run(d, start, k), Run(d, start, k1), Run(d, start, k2), Run(d, start, k3))
    && DividerOK(s.de, s.div, Run(d, start, k2).regs)
  }

  lemma RunNext(d: Datapath, start: Arch, k: nat, nop: bool)
    ensures Run(d, start, k + Count(nop)) == After(d, Run(d, start, k), nop)
  {
    hide Isa.Step;
  }

  lemma StepKeepsInv(d: Datapath, start: Arch, s: State, bht: bool, k: nat)
    requires IsaDivision(d) && Inv(d, start, s, k)
    ensures Inv(d, start, Clock(d, s, bht), k + Count(s.mw.nop))
  {
    hide Flow, DividerOK, Isa.Step, Isa.Run, After, Sample, NextDiv, Writes, WriteValue, NextEM, NextDE, NextFD, NextPCReg, NextMem, NextRegs, NextRas;
    var s' := Clock(d, s, bht);
    var k1 := k + Count(s.mw.nop);
    var k2 := k1 + Count(s.em.nop);
    var k3 := k2 + Count(s.de.nop);
    StepKeepsFlow(d, s, bht, Run(d, start, k), Run(d, start, k1), Run(d, start, k2), Run(d, start, k3));
    RunNext(d, start, k2, s'.em.nop);
    RunNext(d, start, k2 + Count(s'.em.nop), s'.de.nop);
  }

  /** At every clock the pipeline holds the sequential run, as far as it has retired. */
  lemma {:induction false} RunKeepsInv(d: Datapath, s: State, bht: nat -> bool, n: nat)
    requires IsaDivision(d) && Drained(s) && s.fd.instr == d.fetch(s.fd.pc)
    ensures Inv(d, Arch(s.pc, s.regs, s.mem), RunClocks(d, s, bht, n), |Retired(d, s, bht, n)|)
  {
    hide Inv, Clock;
    if n == 0 {
      DrainedInv(d, s);
    } else {
      RunKeepsInv(d, s, bht, n - 1);
      StepKeepsInv(d, Arch(s.pc, s.regs, s.mem), RunClocks(d, s, bht, n - 1), bht(n - 1), |Retired(d, s, bht, n - 1)|);
    }
  }

  /**
   The pipeline refines the instruction set. After any number of clocks, under any branch
   predictions and any contents of the return-address registers, what has retired is exactly
   the first k instructions of the sequential run: none lost, duplicated or from a wrong path,
   each with the value the ISA gives it. The registers are those of the run after k
   instructions, and the memory is at most the one instruction in write-back ahead of them.
   */
  lemma {:induction false} PipelineRefinesIsa(d: Datapath, s: State, bht: nat -> bool, n: nat)
    requires IsaDivision(d) && Drained(s) && s.fd.instr == d.fetch(s.fd.pc)
    ensures var start := Arch(s.pc, s.regs, s.mem);
      var now := RunClocks(d, s, bht, n);
      var retired := Retired(d, s, bht, n);
      var k := |retired|;
      && Inv(d, start, now, k)
      && (forall i :: 0 <= i < k ==> retired[i] == CommitOf(d, Run(d, start, i)))
      && now.regs == Run(d, start, k).regs
      && now.mem == Run(d, start, k + Count(now.mw.nop)).mem
  {
    hide Inv, Clock, Isa.Step, CommitOf, Retiring, Drained;
    var start := Arch(s.pc, s.regs, s.mem);
    RunKeepsInv(d, s, bht, n);
    InvObserved(d, start, RunClocks(d, s, bht, n), |Retired(d, s, bht, n)|);
    if n == 0 {
    } else {
      PipelineRefinesIsa(d, s, bht, n - 1);
      RunKeepsInv(d, s, bht, n - 1);
      InvObserved(d, start, RunClocks(d, s, bht, n - 1), |Retired(d, s, bht, n - 1)|);
    }
  }

  lemma DrainedInv(d: Datapath, s: State)
    requires Drained(s) && s.fd.instr == d.fetch(s.fd.pc)
    ensures Inv(d, Arch(s.pc, s.regs, s.mem), s, 0)
  {
    hide Isa.Step;
  }

  /** What the invariant says of the registers, the memory and the instruction retiring now. */
  lemma InvObserved(d: Datapath, start: Arch, s: State, k: nat)
    requires Inv(d, start, s, k)
    ensures s.regs == Run(d, start, k).regs
    ensures s.mem == Run(d, start, k + Count(s.mw.nop)).mem
    ensures Retiring(s.mw) == if s.mw.nop then [] else [CommitOf(d, Run(d, start, k))]
  {
    hide Isa.Step, MemoryOK, ExecuteOK, FetchOK, DividerOK, WriteValue;
  }
}
