/** The pipelined and the sequential core run the same RV32I program to the same history. */
module CoresAgree {
  import opened Isa
  import opened Words
  import Pipeline
  import Rv32
  import Rv32Isa
  import SequentialCore

  /** The first n instructions from `start` are RV32I words of the ROM, with loads from RAM and aligned stores. */
  ghost predicate BaseProgram(p: Rv32.Program, start: Arch, n: nat) {
    forall i: nat :: i < n ==> BaseAt(p, Run(Rv32.Pipelined(p), start, i))
  }

  ghost predicate BaseAt(p: Rv32.Program, a: Arch) {
    Rv32.BaseInstruction(p, a) && SequentialCore.LoadsFromRam(Rv32.Sequential(p), a)
  }

  lemma {:induction false} SameRun(p: Rv32.Program, start: Arch, n: nat)
    requires BaseProgram(p, start, n)
    ensures Run(Rv32.Sequential(p), start, n) == Run(Rv32.Pipelined(p), start, n)
  {
    hide Step, Rv32.Sequential, Rv32.Pipelined, Rv32.BaseInstruction, SequentialCore.LoadsFromRam;
    if n == 0 {
    } else {
      SameRun(p, start, n - 1);
      Rv32.DatapathsAgree(p, Run(Rv32.Pipelined(p), start, n - 1));
    }
  }

  lemma SequentialReaches(p: Rv32.Program, q: SequentialCore.State, start: Arch, n: nat)
    requires BaseProgram(p, start, n) && SequentialCore.AtFetch(q, start)
    ensures var d := Rv32.Sequential(p);
      SequentialCore.AtFetch(SequentialCore.Clocks(d, q, SequentialCore.ClocksFor(d, start, n)),
                             Run(Rv32.Pipelined(p), start, n))
  {
    hide Step, Rv32.Sequential, Rv32.Pipelined, Rv32.BaseInstruction, SequentialCore.LoadsFromRam, SequentialCore.AtFetch, SequentialCore.Clock;
    var d := Rv32.Sequential(p);
    forall i: nat | i < n
      ensures SequentialCore.LoadsFromRam(d, Run(d, start, i)) && !d.fetch(Run(d, start, i).pc).isDIV
    {
      SameRun(p, start, i);
      assert BaseAt(p, Run(Rv32.Pipelined(p), start, i));
      SharedFetch(p, Run(Rv32.Pipelined(p), start, i));
    }
    SequentialCore.SequentialRunsIsa(d, q, start, n);
    SameRun(p, start, n);
  }

  lemma SharedFetch(p: Rv32.Program, a: Arch)
    requires Rv32.BaseInstruction(p, a)
    ensures Rv32.Sequential(p).fetch(a.pc) == p.fetch(a.pc) && !p.fetch(a.pc).isDIV
  {
  }

  ghost predicate SameStart(p: Rv32.Program, s: Pipeline.State, q: SequentialCore.State) {
    && Pipeline.Drained(s) && s.fd.instr == Rv32.Pipelined(p).fetch(s.fd.pc)
    && SequentialCore.AtFetch(q, Arch(s.pc, s.regs, s.mem))
  }

  /**
   Start the two cores on the same program, registers and memory. Whatever the pipeline has
   retired after n clocks, instruction by instruction, is what the sequential core executes in
   its rounds.
   */
  lemma HistoriesAgree(p: Rv32.Program, s: Pipeline.State, q: SequentialCore.State, bht: nat -> bool, n: nat)
    requires SameStart(p, s, q)
    requires BaseProgram(p, Arch(s.pc, s.regs, s.mem), |Pipeline.Retired(Rv32.Pipelined(p), s, bht, n)|)
    ensures var start := Arch(s.pc, s.regs, s.mem);
      var retired := Pipeline.Retired(Rv32.Pipelined(p), s, bht, n);
      forall i :: 0 <= i < |retired| ==>
        retired[i] == CommitOf(Rv32.Sequential(p), Run(Rv32.Sequential(p), start, i))
  {
    hide Step, CommitOf, Rv32.Sequential, Rv32.Pipelined, Rv32.BaseInstruction, SequentialCore.LoadsFromRam, SequentialCore.AtFetch,
      Pipeline.Clock, Pipeline.Inv, Pipeline.Drained, Run, Pipeline.RunClocks, Pipeline.Retired, IsaDivision;
    var start := Arch(s.pc, s.regs, s.mem);
    var d, e := Rv32.Pipelined(p), Rv32.Sequential(p);
    Rv32.PipelinedDivides(p);
    Pipeline.PipelineRefinesIsa(d, s, bht, n);
    var retired := Pipeline.Retired(d, s, bht, n);
    forall i | 0 <= i < |retired|
      ensures retired[i] == CommitOf(e, Run(e, start, i))
    {
      assert BaseAt(p, Run(d, start, i));
      SameRun(p, start, i);
      Rv32.DatapathsAgree(p, Run(d, start, i));
    }
  }

  /**
   After as many rounds as the pipeline has retired instructions the two register files are
   equal, and so are the memories once the instruction in write-back is counted.
   */
  lemma CoresAgree(p: Rv32.Program, s: Pipeline.State, q: SequentialCore.State, bht: nat -> bool, n: nat, k: nat, m: nat)
    requires SameStart(p, s, q)
    requires k == |Pipeline.Retired(Rv32.Pipelined(p), s, bht, n)|
    requires m == k + Pipeline.Count(Pipeline.RunClocks(Rv32.Pipelined(p), s, bht, n).mw.nop)
    requires BaseProgram(p, Arch(s.pc, s.regs, s.mem), m)
    ensures var start := Arch(s.pc, s.regs, s.mem);
      var e := Rv32.Sequential(p);
      var now := Pipeline.RunClocks(Rv32.Pipelined(p), s, bht, n);
      && SequentialCore.Clocks(e, q, SequentialCore.ClocksFor(e, start, k)).regs == now.regs
      && SequentialCore.Clocks(e, q, SequentialCore.ClocksFor(e, start, m)).mem == now.mem
  {
    hide Step, CommitOf, Rv32.Sequential, Rv32.Pipelined, BaseAt, IsaDivision,
      SequentialCore.Clock, SequentialCore.Clocks, SequentialCore.ClocksFor,
      Pipeline.Clock, Pipeline.Inv, Pipeline.Drained, Run, Pipeline.RunClocks, Pipeline.Retired;
    var start := Arch(s.pc, s.regs, s.mem);
    Rv32.PipelinedDivides(p);
    Pipeline.PipelineRefinesIsa(Rv32.Pipelined(p), s, bht, n);
    SequentialReaches(p, q, start, k);
    SequentialReaches(p, q, start, m);
  }

  /** On such a program the sequential core stands after n rounds where RV32IM has led in n steps. */
  lemma SequentialRunsRv32(p: Rv32.Program, q: SequentialCore.State, start: Arch, run: seq<Arch>, n: nat)
    requires BaseProgram(p, start, n) && SequentialCore.AtFetch(q, start)
    requires Rv32Isa.IsRun(p, start, run) && n < |run|
    ensures var d := Rv32.Sequential(p);
      var now := SequentialCore.Clocks(d, q, SequentialCore.ClocksFor(d, start, n));
      && now.phase.FETCH_INSTR? && now.pc == run[n].pc && now.regs == run[n].regs
      && (forall x: nat :: Rv32Isa.Byte(now.mem, x) == Rv32Isa.Byte(run[n].mem, x))
  {
    hide Run, Rv32.Sequential, Rv32.Pipelined, BaseProgram, SequentialCore.Clocks, SequentialCore.ClocksFor, Rv32Isa.IsRun, Rv32Isa.Byte;
    SequentialReaches(p, q, start, n);
    Rv32Isa.RunIsArchitectural(p, start, run, n);
  }
}
