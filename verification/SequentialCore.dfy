/**
 The four-state sequential core: fetch, read registers, execute, and for a load one more
 state in which the registered memory word arrives.
 */
module SequentialCore {
  import opened Isa
  import opened Words

  datatype Phase = FETCH_INSTR | WAIT_INSTR | EXECUTE | WAIT_DATA

  datatype State = State(
    phase: Phase, pc: Word, instr: Instr, rs1: Word, rs2: Word,
    regs: RegFile, ramRData: Word, mem: Mem, halt: bool)

  function AluIn2(i: Instr, rs2: Word): Word {
    if i.kind.ALUR? || i.kind.Branch? then rs2 else i.Iimm
  }

  function WriteBackData(d: Datapath, s: State): Word {
    var addr := d.address(s.instr, s.rs1);
    match s.instr.kind
    case JAL | JALR => d.sequel(s.instr, s.pc)
    case LUI => s.instr.Uimm
    case AUIPC => d.upper(s.instr, s.pc)
    case Load => d.extract(s.instr, addr, if d.isIO(addr) then d.io(addr) else s.ramRData)
    case _ => d.alu(s.instr, s.rs1, AluIn2(s.instr, s.rs2))
  }

  function NextPCMux(d: Datapath, i: Instr, pc: Word, rs1: Word, rs2: Word): Word {
    if i.kind.Branch? && d.taken(i, rs1, rs2) then d.branch(i, pc)
    else if i.kind.JAL? then d.jump(i, pc)
    else if i.kind.JALR? then d.indirect(i, rs1)
    else d.sequel(i, pc)
  }

  predicate WriteBackEn(s: State) {
    (s.phase.EXECUTE? && !s.instr.kind.Branch? && !s.instr.kind.Store?) || s.phase.WAIT_DATA?
  }

  function NextRegs(d: Datapath, s: State): RegFile {
    if WriteBackEn(s) && s.instr.rd != 0 then s.regs[s.instr.rd := WriteBackData(d, s)] else s.regs
  }

  function Clock(d: Datapath, s: State): State {
    var regs := NextRegs(d, s);
    match s.phase
    case FETCH_INSTR => s.(phase := WAIT_INSTR, instr := d.fetch(s.pc), regs := regs)
    case WAIT_INSTR => s.(phase := EXECUTE, rs1 := s.regs[s.instr.rs1], rs2 := s.regs[s.instr.rs2], regs := regs)
    case EXECUTE =>
      var addr := d.address(s.instr, s.rs1);
      s.(phase := if s.instr.kind.Load? then WAIT_DATA else FETCH_INSTR,
         pc := if s.instr.kind.EBREAK? then s.pc else NextPCMux(d, s.instr, s.pc, s.rs1, s.rs2),
         halt := s.halt || s.instr.kind.EBREAK?,
         regs := regs,
         ramRData := if s.instr.kind.Load? && !d.isIO(addr) then d.read(s.mem, addr) else s.ramRData,
         mem := if s.instr.kind.Store? && !d.isIO(addr) then d.store(s.mem, s.instr, addr, s.rs2) else s.mem)
    case WAIT_DATA => s.(phase := FETCH_INSTR, regs := regs)
  }

  function Clocks(d: Datapath, s: State, n: nat): State {
    if n == 0 then s else Clock(d, Clocks(d, s, n - 1))
  }

  /** About to fetch the instruction at a.pc; register 0 has never been written. */
  predicate AtFetch(s: State, a: Arch) {
    && s.phase.FETCH_INSTR? && s.pc == a.pc && s.regs == a.regs && s.mem == a.mem
    && s.regs[0] == 0
  }

  /** The core's reading of a device goes through the load lanes, so loads are kept to RAM. */
  ghost predicate LoadsFromRam(d: Datapath, a: Arch) {
    var i := d.fetch(a.pc);
    i.kind.Load? ==> !d.isIO(d.address(i, Reg(a.regs, i.rs1)))
  }

  function RoundLength(d: Datapath, a: Arch): nat {
    if d.fetch(a.pc).kind.Load? then 4 else 3
  }

  /** Two clocks after a fetch the instruction and its operands are in their registers. */
  lemma FetchAndRead(d: Datapath, s: State, a: Arch)
    requires AtFetch(s, a)
    ensures var s2 := Clock(d, Clock(d, s));
      && !Clock(d, s).phase.FETCH_INSTR? && Holding(d, s2, a) && s2.phase.EXECUTE? && s2.halt == s.halt
  {
  }

  ghost predicate Holding(d: Datapath, s: State, a: Arch) {
    && s.instr == d.fetch(a.pc) && s.pc == a.pc && s.regs == a.regs && s.mem == a.mem && s.regs[0] == 0
    && s.rs1 == Reg(a.regs, s.instr.rs1) && s.rs2 == Reg(a.regs, s.instr.rs2)
  }

  lemma WriteBackArchitectural(d: Datapath, s: State, a: Arch)
    requires Holding(d, s, a) && !s.instr.kind.Load? && !s.instr.isDIV && Writes(s.instr)
    ensures WriteBackData(d, s) == WriteValue(d, a)
  {
  }

  lemma NextPCArchitectural(d: Datapath, s: State)
    ensures NextPC(d, s.instr, s.pc, s.rs1, s.rs2) == if s.instr.kind.EBREAK? then s.pc else NextPCMux(d, s.instr, s.pc, s.rs1, s.rs2)
  {
  }

  lemma ExecuteIsStep(d: Datapath, s: State, a: Arch)
    requires Holding(d, s, a) && s.phase.EXECUTE? && !s.instr.kind.Load? && !s.instr.isDIV
    ensures AtFetch(Clock(d, s), Step(d, a)) && Clock(d, s).halt == (s.halt || s.instr.kind.EBREAK?)
  {
    hide NextPC, NextPCMux, WriteBackData, WriteValue;
    NextPCArchitectural(d, s);
    if Writes(s.instr) {
      WriteBackArchitectural(d, s, a);
    }
  }

  /** In its execute state a load registers the word, and already writes its destination. */
  lemma LoadReads(d: Datapath, s: State, a: Arch)
    requires Holding(d, s, a) && s.phase.EXECUTE? && s.instr.kind.Load? && LoadsFromRam(d, a)
    ensures var s3, addr := Clock(d, s), d.address(s.instr, s.rs1);
      && s3.phase.WAIT_DATA? && s3.ramRData == d.read(a.mem, addr) && s3.instr == s.instr && s3.rs1 == s.rs1
      && s3.mem == a.mem && s3.halt == s.halt && s3.pc == d.sequel(s.instr, a.pc) == Step(d, a).pc
      && WriteBackData(d, s3) == WriteValue(d, a)
      && s3.regs == if s.instr.rd != 0 then a.regs[s.instr.rd := WriteBackData(d, s)] else a.regs
  {
    hide ExecuteValue, Nat;
  }

  /** A load writes its destination twice: with a stale word, then with the one it asked for. */
  lemma LoadIsStep(d: Datapath, s: State, a: Arch)
    requires Holding(d, s, a) && s.phase.EXECUTE? && s.instr.kind.Load? && LoadsFromRam(d, a)
    ensures !Clock(d, s).phase.FETCH_INSTR? && AtFetch(Clock(d, Clock(d, s)), Step(d, a))
    ensures Clock(d, Clock(d, s)).halt == s.halt
  {
    hide NextPC, NextPCMux, WriteBackData, WriteValue, LoadsFromRam;
    LoadReads(d, s, a);
    if s.instr.rd != 0 {
      assert a.regs[s.instr.rd := WriteBackData(d, s)][s.instr.rd := WriteValue(d, a)] == a.regs[s.instr.rd := WriteValue(d, a)];
    }
  }

  /** From one fetch to the next the core takes exactly one instruction-set step. */
  lemma RoundIsStep(d: Datapath, s: State, a: Arch)
    requires AtFetch(s, a) && LoadsFromRam(d, a) && !d.fetch(a.pc).isDIV
    ensures AtFetch(Clocks(d, s, RoundLength(d, a)), Step(d, a))
    ensures Clocks(d, s, RoundLength(d, a)).halt == (s.halt || d.fetch(a.pc).kind.EBREAK?)
    ensures forall t :: 0 < t < RoundLength(d, a) ==> !Clocks(d, s, t).phase.FETCH_INSTR?
  {
    hide Clock, Step, LoadsFromRam;
    FetchAndRead(d, s, a);
    var s2 := Clock(d, Clock(d, s));
    assert Clocks(d, s, 0) == s;
    assert Clocks(d, s, 1) == Clock(d, s);
    assert Clocks(d, s, 2) == s2;
    assert Clocks(d, s, 3) == Clock(d, s2);
    if s2.instr.kind.Load? {
      LoadIsStep(d, s2, a);
      assert Clocks(d, s, 4) == Clock(d, Clock(d, s2));
    } else {
      ExecuteIsStep(d, s2, a);
    }
  }

  // ---------------------------------------------------------------------------------------
  // Whole runs
  // ---------------------------------------------------------------------------------------

  /** The clocks the core spends on the first n instructions. */
  function ClocksFor(d: Datapath, a: Arch, n: nat): nat {
    if n == 0 then 0 else ClocksFor(d, a, n - 1) + RoundLength(d, Run(d, a, n - 1))
  }

  lemma {:induction false} ClocksCompose(d: Datapath, s: State, m: nat, n: nat)
    ensures Clocks(d, s, m + n) == Clocks(d, Clocks(d, s, m), n)
  {
    hide Clock;
    if n == 0 {
    } else {
      ClocksCompose(d, s, m, n - 1);
      assert Clocks(d, s, m + n) == Clock(d, Clocks(d, s, m + (n - 1)));
    }
  }

  /** The core runs the instruction set: after its first n rounds it stands where n instructions lead. */
  lemma {:induction false} SequentialRunsIsa(d: Datapath, s: State, a: Arch, n: nat)
    requires AtFetch(s, a)
    requires forall i: nat :: i < n ==> LoadsFromRam(d, Run(d, a, i)) && !d.fetch(Run(d, a, i).pc).isDIV
    ensures AtFetch(Clocks(d, s, ClocksFor(d, a, n)), Run(d, a, n))
  {
    hide Clock, Step, LoadsFromRam, AtFetch, RoundLength;
    if n == 0 {
    } else {
      SequentialRunsIsa(d, s, a, n - 1);
      var c := ClocksFor(d, a, n - 1);
      RoundIsStep(d, Clocks(d, s, c), Run(d, a, n - 1));
      ClocksCompose(d, s, c, RoundLength(d, Run(d, a, n - 1)));
    }
  }

  // ---------------------------------------------------------------------------------------
  // The registers, updated in place
  // ---------------------------------------------------------------------------------------

  class Processor {
    const d: Datapath
    var phase: Phase
    var pc: Word
    var instr: Instr
    var rs1: Word
    var rs2: Word
    const bank: array<Word>
    var ramRData: Word
    var mem: Mem
    var halt: bool

    function Snapshot(): State
      requires bank.Length == 32
      reads this, bank
    {
      State(phase, pc, instr, rs1, rs2, bank[..], ramRData, mem, halt)
    }

    constructor (d: Datapath, pc: Word, mem: Mem)
      ensures this.d == d && fresh(bank) && bank.Length == 32
      ensures AtFetch(Snapshot(), Arch(pc, seq(32, _ => 0), mem))
    {
      this.d, phase, this.pc, this.mem := d, FETCH_INSTR, pc, mem;
      instr := d.fetch(pc);
      rs1, rs2, ramRData, halt := 0, 0, 0, false;
      bank := new Word[32](_ => 0);
    }

    method Tick()
      requires bank.Length == 32
      modifies this, bank
      ensures Snapshot() == Clock(d, old(Snapshot()))
    {
      hide WriteBackData, NextPCMux, NextRegs;
      var operand1, operand2 := bank[instr.rs1], bank[instr.rs2];
      WriteBack();
      match phase
      case FETCH_INSTR =>
        instr := d.fetch(pc);
        phase := WAIT_INSTR;
      case WAIT_INSTR =>
        rs1, rs2 := operand1, operand2;
        phase := EXECUTE;
      case EXECUTE =>
        AccessMemory(instr, d.address(instr, rs1));
        if instr.kind.EBREAK? {
          halt := true;
        } else {
          pc := NextPCMux(d, instr, pc, rs1, rs2);
        }
        phase := if instr.kind.Load? then WAIT_DATA else FETCH_INSTR;
      case WAIT_DATA =>
        phase := FETCH_INSTR;
    }

    method WriteBack()
      requires bank.Length == 32
      modifies bank
      ensures bank[..] == NextRegs(d, old(Snapshot()))
    {
      hide WriteBackData;
      if WriteBackEn(Snapshot()) && instr.rd != 0 {
        bank[instr.rd] := WriteBackData(d, Snapshot());
      }
    }

    method AccessMemory(i: Instr, addr: Word)
      modifies `ramRData, `mem
      ensures ramRData == if i.kind.Load? && !d.isIO(addr) then d.read(old(mem), addr) else old(ramRData)
      ensures mem == if i.kind.Store? && !d.isIO(addr) then d.store(old(mem), i, addr, rs2) else old(mem)
    {
      if i.kind.Store? && !d.isIO(addr) {
        mem := d.store(mem, i, addr, rs2);
      }
      if i.kind.Load? && !d.isIO(addr) {
        ramRData := d.read(mem, addr);
      }
    }
  }
}
