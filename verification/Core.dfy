/**
 The registers of the pipeline, updated in place.

 The stages run from the back of the pipeline to the front, so that each reads the latch
 in front of it before that latch is overwritten; the wires are sampled first.
 */
module Core {
  import opened Isa
  import opened Words
  import Pipeline
  import IntegerDivider
  import opened BranchHistory

  class Processor {
    const d: Datapath
    // Fetch unit
    var pc: Word
    var fd: Pipeline.FDLatch
    // Decode unit
    var de: Pipeline.DELatch
    var bhtIndex: bv12             // DE_bhtIndex
    var branchHist: bv9            // the last nine branches, the newest in the top bit
    const bht: array<bv2>          // saturating counters
    var ras: Pipeline.Ras
    // Execute unit
    var em: Pipeline.EMLatch
    var correctPC: bool
    var correction: Word
    var div: IntegerDivider.Regs
    // Memory unit and data memory
    var mw: Pipeline.MWLatch
    var mem: Mem
    // Register file
    const bank: array<Word>

    predicate Valid()
      reads this
    {
      bank.Length == 32 && bht.Length == BHT_SIZE
    }

    function State(): Pipeline.State
      requires Valid()
      reads this, bank
    {
      Pipeline.State(pc, fd, de, em, mw, correctPC, correction, bank[..], mem, div, ras)
    }

    /** A processor with nothing in flight, as reset leaves it. */
    constructor (d: Datapath, pc: Word, mem: Mem)
      ensures Valid() && this.d == d && fresh(bank) && fresh(bht)
      ensures Pipeline.Drained(State()) && fd.instr == d.fetch(fd.pc)
      ensures State().pc == pc && State().mem == mem && State().regs == seq(32, _ => 0)
    {
      this.d, this.pc, this.mem := d, pc, mem;
      var i := d.fetch(pc);
      fd := Pipeline.FD(pc, i, true);
      de := Pipeline.DE(pc, i, true, false, false, 0);
      em := Pipeline.EM(pc, i, true, false, false, 0, 0, 0, 0, 0, false);
      mw := Pipeline.MW(pc, true, 0, 0, false);
      bhtIndex, branchHist, ras := 0, 0, Pipeline.Ras(0, 0, 0, 0);
      correctPC, correction := false, 0;
      div := IntegerDivider.Regs(0, 0, 0, 0, false, false, false);
      bank := new Word[32](_ => 0);
      bht := new bv2[BHT_SIZE](_ => 0);
    }

    predicate PredictBranch()
      requires Valid()
      reads this, bht
    {
      IndexInTable(IndexOf(fd.pc, branchHist));
      Predicts(bht[Slot(IndexOf(fd.pc, branchHist))])
    }

    /** Once the table has recorded two outcomes alike under an index, or three and then another, the next prediction there is settled. */
    lemma PredictionSettled(before: Table, resolved: seq<Outcome>, t: bool)
      requires Valid() && bht[..] == UpdateAll(before, resolved)
      requires Settled(At(resolved, IndexOf(fd.pc, branchHist)), t)
      ensures PredictBranch() == t
    {
      hide UpdateAll, At, Settled, IndexOf, Predicts, Slot;
      SettledPrediction(before, resolved, IndexOf(fd.pc, branchHist), t);
    }

    /** A branch leaving the execute stage. */
    function Resolved(w: Pipeline.Wires): seq<Outcome>
      reads this
    {
      if !w.aluBusy && de.IsBranch() then [Outcome(bhtIndex, d.taken(de.instr, w.rs1, w.rs2))] else []
    }

    /** One clock. The branch history table is read before it is updated. */
    method Clock() returns (ghost resolved: seq<Outcome>)
      requires Valid()
      modifies this, bank, bht
      ensures Valid()
      ensures State() == Pipeline.Clock(d, old(State()), old(PredictBranch()))
      ensures var w := Pipeline.Sample(d, old(State()), old(PredictBranch()));
        && resolved == old(Resolved(w))
        && bhtIndex == if w.FetchStall() then old(bhtIndex) else IndexOf(old(fd.pc), old(branchHist))
      ensures bht[..] == UpdateAll(old(bht[..]), resolved) && branchHist == HistoryAfter(old(branchHist), resolved)
    {
      hide Pipeline.Sample, Pipeline.Latch, Pipeline.NextDiv, PredictBranch, IndexOf, UpdateAll, HistoryAfter;
      var w := Pipeline.Sample(d, State(), PredictBranch());
      resolved := Resolved(w);
      Latch(w);
    }

    method Latch(w: Pipeline.Wires)
      requires Valid()
      modifies this, bank, bht
      ensures Valid()
      ensures State() == Pipeline.Latch(d, old(State()), w, Pipeline.NextDiv(old(de), old(div), w))
      ensures bhtIndex == if w.FetchStall() then old(bhtIndex) else IndexOf(old(fd.pc), old(branchHist))
      ensures bht[..] == UpdateAll(old(bht[..]), old(Resolved(w))) && branchHist == HistoryAfter(old(branchHist), old(Resolved(w)))
    {
      hide Pipeline.NextFD, Pipeline.NextDE, Pipeline.NextEM, Pipeline.NextDiv, Pipeline.NextMW, Pipeline.NextMem,
        Pipeline.NextRegs, Pipeline.NextRas, Pipeline.NextPCReg, IndexOf, UpdateAll, HistoryAfter;
      var index := IndexOf(fd.pc, branchHist);
      UpdateHistory(w);
      WriteBackStage();
      MemoryStage();
      LatchFront(w, index);
    }

    method LatchFront(w: Pipeline.Wires, index: bv12)
      modifies `pc, `fd, `de, `bhtIndex, `ras, `em, `correctPC, `correction, `div
      ensures pc == Pipeline.NextPCReg(d, old(pc), w) && fd == Pipeline.NextFD(d, old(fd), w)
      ensures de == Pipeline.NextDE(old(fd), old(de), old(ras), w) && ras == Pipeline.NextRas(d, old(fd), old(ras), w)
      ensures em == Pipeline.NextEM(old(de), old(em), w) && div == Pipeline.NextDiv(old(de), old(div), w)
      ensures correctPC == (!w.aluBusy && w.mispredicted)
      ensures correction == if w.aluBusy then old(correction) else w.correction
      ensures bhtIndex == if w.FetchStall() then old(bhtIndex) else index
    {
      hide Pipeline.NextFD, Pipeline.NextDE, Pipeline.NextEM, Pipeline.NextDiv, Pipeline.NextRas, Pipeline.NextPCReg;
      ExecuteStage(w);
      DecodeStage(w, index);
      FetchStage(w);
    }

    method UpdateHistory(w: Pipeline.Wires)
      requires Valid()
      modifies `branchHist, bht
      ensures Valid()
      ensures bht[..] == UpdateAll(old(bht[..]), Resolved(w)) && branchHist == HistoryAfter(old(branchHist), Resolved(w))
    {
      hide Saturate, Shifted, Slot;
      if !w.aluBusy && de.IsBranch() {
        var taken := d.taken(de.instr, w.rs1, w.rs2);
        UpdateMore(bht[..], branchHist, [], Outcome(bhtIndex, taken));
        IndexInTable(bhtIndex);
        branchHist := Shifted(branchHist, taken);
        bht[Slot(bhtIndex)] := Saturate(bht[Slot(bhtIndex)], taken);
      }
    }

    method WriteBackStage()
      requires Valid()
      modifies bank
      ensures bank[..] == Pipeline.NextRegs(mw, old(bank[..]))
    {
      if mw.wbEnable && mw.rd != 0 {
        bank[mw.rd] := mw.data;
      }
    }

    method MemoryStage()
      modifies `mw, `mem
      ensures mw == Pipeline.NextMW(d, em) && mem == Pipeline.NextMem(d, em, old(mem))
    {
      if em.isStore && !d.isIO(em.addr) {
        mem := d.store(mem, em.instr, em.addr, em.rs2);
      }
      var data := em.result;
      if em.isLoad {
        if d.isIO(em.addr) {
          data := d.io(em.addr);
        } else {
          data := d.extract(em.instr, em.addr, em.mdata);
        }
      }
      mw := Pipeline.MW(em.pc, em.nop, em.rd, data, em.wbEnable);
    }

    method ExecuteStage(w: Pipeline.Wires)
      modifies `em, `correctPC, `correction, `div
      ensures em == Pipeline.NextEM(de, old(em), w) && div == Pipeline.NextDiv(de, old(div), w)
      ensures correctPC == (!w.aluBusy && w.mispredicted)
      ensures correction == if w.aluBusy then old(correction) else w.correction
    {
      var start := de.IsDIV() && !w.dataHazard && !div.finished;
      div := IntegerDivider.Clock(32, div, start, de.instr.DivOp(), Nat(w.rs1), Nat(w.rs2));
      if !w.aluBusy {
        em := Pipeline.EM(de.pc, de.instr, de.nop, de.IsLoad(), de.IsStore(), de.instr.rd,
                          w.rs2, w.result, w.addr, w.mdata, de.wbEnable && de.instr.rd != 0);
        correctPC, correction := w.mispredicted, w.correction;
      } else {
        em := em.(nop := true, isLoad := false, isStore := false, wbEnable := false);
        correctPC := false;
      }
    }

    method DecodeStage(w: Pipeline.Wires, index: bv12)
      modifies `de, `bhtIndex, `ras
      ensures de == Pipeline.NextDE(fd, old(de), old(ras), w) && ras == Pipeline.NextRas(d, fd, old(ras), w)
      ensures bhtIndex == if w.FetchStall() then old(bhtIndex) else index
    {
      var i := fd.instr;
      if !w.FetchStall() {
        de := Pipeline.DE(fd.pc, i, w.ExecuteFlush() || fd.nop, Pipeline.DecodesWriteBack(i), w.bht, ras.r0);
        bhtIndex := index;
      }
      if w.ExecuteFlush() || fd.nop {
        de := de.(nop := true, wbEnable := false);
      }
      if !w.FetchStall() && !fd.nop && !w.mispredicted {
        if (i.kind.JAL? || i.kind.JALR?) && i.rd == 1 {
          ras := Pipeline.Ras(d.sequel(i, fd.pc), ras.r0, ras.r1, ras.r2);
        }
        if i.kind.JALR? && i.rd == 0 && (i.rs1 == 1 || i.rs1 == 5) {
          ras := Pipeline.Ras(ras.r1, ras.r2, ras.r3, ras.r3);
        }
      }
    }

    method FetchStage(w: Pipeline.Wires)
      modifies `pc, `fd
      ensures pc == Pipeline.NextPCReg(d, old(pc), w) && fd == Pipeline.NextFD(d, old(fd), w)
    {
      if !w.FetchStall() {
        var i := d.fetch(w.fetchPC);
        fd := fd.(pc := w.fetchPC, instr := i);
        pc := d.sequel(i, w.fetchPC);
      }
      fd := fd.(nop := w.mispredicted);
    }

    /**
     Run for n clocks: the state is one the refinement theorem speaks about, for the
     predictions this processor's own tables happened to make, and the tables have recorded
     the branches it resolved.
     */
    method Run(n: nat) returns (ghost predictions: nat -> bool, ghost resolved: seq<Outcome>)
      requires Valid()
      modifies this, bank, bht
      ensures Valid()
      ensures State() == Pipeline.RunClocks(d, old(State()), predictions, n)
      ensures bht[..] == UpdateAll(old(bht[..]), resolved) && branchHist == HistoryAfter(old(branchHist), resolved)
    {
      hide Pipeline.Clock, Pipeline.Sample, PredictBranch, IndexOf, UpdateAll, HistoryAfter;
      predictions, resolved := _ => false, [];
      NothingRecorded(bht[..], branchHist);
      for t := 0 to n
        invariant Valid()
        invariant State() == Pipeline.RunClocks(d, old(State()), predictions, t)
        invariant bht[..] == UpdateAll(old(bht[..]), resolved) && branchHist == HistoryAfter(old(branchHist), resolved)
      {
        ghost var bit := PredictBranch();
        ghost var extended := (m: nat) => if m < t then predictions(m) else bit;
        SamePredictions(d, old(State()), predictions, extended, t);
        ghost var more := Clock();
        RecordMore(old(bht[..]), old(branchHist), resolved, more);
        predictions, resolved := extended, resolved + more;
      }
    }
  }

  lemma NothingRecorded(table: Table, history: bv9)
    ensures UpdateAll(table, []) == table && HistoryAfter(history, []) == history
  {
  }

  lemma RecordMore(table: Table, history: bv9, earlier: seq<Outcome>, more: seq<Outcome>)
    requires |more| <= 1
    ensures UpdateAll(UpdateAll(table, earlier), more) == UpdateAll(table, earlier + more)
    ensures HistoryAfter(HistoryAfter(history, earlier), more) == HistoryAfter(history, earlier + more)
  {
    hide Update, Shifted;
    if more == [] {
      assert earlier + more == earlier;
    } else {
      UpdateMore(table, history, earlier, more[0]);
      UpdateMore(UpdateAll(table, earlier), HistoryAfter(history, earlier), [], more[0]);
    }
  }

  lemma {:induction false} SamePredictions(d: Datapath, s: Pipeline.State, f: nat -> bool, g: nat -> bool, n: nat)
    requires forall m: nat :: m < n ==> f(m) == g(m)
    ensures Pipeline.RunClocks(d, s, f, n) == Pipeline.RunClocks(d, s, g, n)
  {
    hide Pipeline.Clock;
    if n == 0 {
    } else {
      SamePredictions(d, s, f, g, n - 1);
    }
  }
}
