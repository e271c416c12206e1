/** The return-address registers over whole pipeline runs, and when a return is mispredicted. */
module ReturnPrediction {
  import opened Isa
  import opened Words
  import opened Pipeline
  import opened ReturnStack

  /** What an instruction does to the call stack: rd = x1 calls; a JALR through x1 or x5 that links nowhere returns. */
  function EventOf(d: Datapath, i: Instr, pc: Word): seq<Event> {
    if (i.kind.JAL? || i.kind.JALR?) && i.rd == 1 then [Call(d.sequel(i, pc))]
    else if i.kind.JALR? && i.rd == 0 && (i.rs1 == 1 || i.rs1 == 5) then [Return]
    else []
  }

  /** The calls and returns of the instruction at a.pc. */
  function EventAt(d: Datapath, a: Arch): seq<Event> { EventOf(d, d.fetch(a.pc), a.pc) }

  /** The calls and returns of the first k instructions of the sequential run. */
  function Trace(d: Datapath, start: Arch, k: nat): seq<Event> {
    if k == 0 then [] else Trace(d, start, k - 1) + EventAt(d, Run(d, start, k - 1))
  }

  lemma {:induction false} ApplyAllOfSum(ras: Ras, s: seq<Event>, t: seq<Event>)
    ensures ApplyAll(ras, s + t) == ApplyAll(ApplyAll(ras, s), t)
  {
    if t == [] {
      assert s + t == s;
    } else {
      ApplyAllOfSum(ras, s, t[..|t| - 1]);
      assert (s + t)[..|s + t| - 1] == s + t[..|t| - 1];
    }
  }

  lemma ApplyOne(ras: Ras, e: Event)
    ensures ApplyAll(ras, [e]) == Apply(ras, e)
  {
    assert [e][..0] == [];
  }

  // ---------------------------------------------------------------------------------------
  // One clock
  // ---------------------------------------------------------------------------------------

  /** The registers and the latched prediction, k2 instructions after the start in execute and k3 after it next. */
  ghost predicate StackOK(d: Datapath, start: Arch, ras0: Ras, ras: Ras, de: DELatch, k2: nat) {
    && ras == ApplyAll(ras0, Trace(d, start, k2 + Count(de.nop)))
    && (de.IsJALR() ==> de.predictRA == ApplyAll(ras0, Trace(d, start, k2)).r0)
  }

  /** An instruction that decode passes on pushes or pops what it would on the sequential machine. */
  lemma DecodeApplies(d: Datapath, fd: FDLatch, ras: Ras, w: Wires)
    ensures NextRas(d, fd, ras, w) ==
      if w.FetchStall() || fd.nop || w.mispredicted then ras else ApplyAll(ras, EventOf(d, fd.instr, fd.pc))
  {
    if EventOf(d, fd.instr, fd.pc) != [] {
      ApplyOne(ras, EventOf(d, fd.instr, fd.pc)[0]);
    }
  }

  /** That instruction is the next of the sequential run. */
  lemma DecodedIsNext(d: Datapath, s: State, w: Wires, a2: Arch, a3: Arch)
    requires Decoded(d, s.de, a2) && a3 == After(d, a2, s.de.nop)
    requires FetchOK(d, s.pc, s.fd, s.de, s.correctPC, s.correction, a3.pc)
    requires Sampled(d, s.fd, s.de, w, a2, s.mem)
    requires !w.FetchStall() && !w.mispredicted && !s.fd.nop
    ensures s.fd.pc == a3.pc && s.fd.instr == d.fetch(a3.pc)
  {
    hide Isa.Step, Mispredicted, Correction, Result, WriteValue;
    if !s.de.nop {
      BranchResolved(d, s.de, a2, w.rs1, w.rs2);
    }
  }

  lemma TraceNext(d: Datapath, start: Arch, ras0: Ras, k: nat)
    ensures ApplyAll(ras0, Trace(d, start, k + 1)) == ApplyAll(ApplyAll(ras0, Trace(d, start, k)), EventAt(d, Run(d, start, k)))
  {
    ApplyAllOfSum(ras0, Trace(d, start, k), EventAt(d, Run(d, start, k)));
  }

  /** A held breakpoint is executed again and again, and neither calls nor returns. */
  lemma BreakpointRepeats(d: Datapath, a: Arch)
    requires d.fetch(a.pc).kind.EBREAK?
    ensures EventAt(d, a) == [] && EventAt(d, Isa.Step(d, a)) == [] && d.fetch(Isa.Step(d, a).pc).kind.EBREAK?
    ensures Isa.Step(d, a).pc == a.pc
  {
  }

  /** Stalled, the registers wait for the instruction held in decode. */
  lemma StackStalled(d: Datapath, start: Arch, ras0: Ras, s: State, w: Wires, k2: nat)
    requires StackOK(d, start, ras0, s.ras, s.de, k2) && w.FetchStall()
    requires var a2 := Run(d, start, k2);
      var a3 := Run(d, start, k2 + Count(s.de.nop));
      && ExecuteOK(d, s.de, s.em, a2) && a3 == After(d, a2, s.de.nop)
      && FetchOK(d, s.pc, s.fd, s.de, s.correctPC, s.correction, a3.pc)
      && Sampled(d, s.fd, s.de, w, a2, s.mem)
    ensures StackOK(d, start, ras0, NextRas(d, s.fd, s.ras, w), NextDE(s.fd, s.de, s.ras, w),
                    k2 + Count(NextEM(s.de, s.em, w).nop))
  {
    hide Isa.Step, ApplyAll, Trace, ExecuteOK, FetchOK, Sampled, NextDE, NextRas, Run, EventAt;
    var a2 := Run(d, start, k2);
    FetchStalled(d, s, w, a2, Run(d, start, k2 + Count(s.de.nop)));
    DecodeApplies(d, s.fd, s.ras, w);
    StallKinds(d, s, w, a2);
    if !w.aluBusy && !w.dataHazard {
      RunAgain(d, start, k2);
      BreakpointRepeats(d, a2);
      TraceNext(d, start, ras0, k2 + 1);
      NothingApplied(ApplyAll(ras0, Trace(d, start, k2 + 1)));
    }
  }

  lemma NothingApplied(ras: Ras)
    ensures ApplyAll(ras, []) == ras
  {
  }

  lemma RunAgain(d: Datapath, start: Arch, k: nat)
    ensures Run(d, start, k + 1) == Isa.Step(d, Run(d, start, k))
  {
  }

  /** A stall that is neither the divider's nor a hazard's is a breakpoint in execute. */
  lemma StallKinds(d: Datapath, s: State, w: Wires, a: Arch)
    requires ExecuteOK(d, s.de, s.em, a) && Sampled(d, s.fd, s.de, w, a, s.mem) && w.FetchStall()
    ensures !w.aluBusy && !w.dataHazard ==> s.de.IsEBREAK() && d.fetch(a.pc).kind.EBREAK?
    ensures NextEM(s.de, s.em, w).nop == (w.aluBusy || s.de.nop)
  {
    hide Result, Mispredicted, Correction, WriteValue;
  }

  /** Not stalled, what decode passes on is applied and what it drops is not. */
  lemma StackAdvances(d: Datapath, start: Arch, ras0: Ras, s: State, w: Wires, k2: nat)
    requires StackOK(d, start, ras0, s.ras, s.de, k2) && !w.FetchStall() && w.dataHazard == DataHazard(s.fd, s.de)
    requires var a2 := Run(d, start, k2);
      var a3 := Run(d, start, k2 + Count(s.de.nop));
      && Decoded(d, s.de, a2) && a3 == After(d, a2, s.de.nop)
      && FetchOK(d, s.pc, s.fd, s.de, s.correctPC, s.correction, a3.pc)
      && Sampled(d, s.fd, s.de, w, a2, s.mem)
    ensures StackOK(d, start, ras0, NextRas(d, s.fd, s.ras, w), NextDE(s.fd, s.de, s.ras, w),
                    k2 + Count(NextEM(s.de, s.em, w).nop))
  {
    hide Isa.Step, ApplyAll, Trace, FetchOK, Sampled, NextRas, Run, EventOf, Decoded, After, DataHazard;
    var k3 := k2 + Count(s.de.nop);
    DecodeApplies(d, s.fd, s.ras, w);
    if !w.mispredicted && !s.fd.nop {
      DecodedIsNext(d, s, w, Run(d, start, k2), Run(d, start, k3));
      TraceNext(d, start, ras0, k3);
    }
  }

  lemma StackStep(d: Datapath, start: Arch, ras0: Ras, s: State, w: Wires, k2: nat)
    requires StackOK(d, start, ras0, s.ras, s.de, k2) && InExecute(d, start, s, w, k2)
    ensures StackOK(d, start, ras0, NextRas(d, s.fd, s.ras, w), NextDE(s.fd, s.de, s.ras, w),
                    k2 + Count(NextEM(s.de, s.em, w).nop))
  {
    hide StackOK, FetchOK, Decoded, NextDE, NextRas, NextEM, Result, Mispredicted, Correction, DataHazard;
    if w.FetchStall() {
      StackStalled(d, start, ras0, s, w, k2);
    } else {
      StackAdvances(d, start, ras0, s, w, k2);
    }
  }

  /** The front of the pipeline with k2 instructions before the one in execute. */
  ghost predicate InExecute(d: Datapath, start: Arch, s: State, w: Wires, k2: nat) {
    var a2 := Run(d, start, k2);
    var a3 := Run(d, start, k2 + Count(s.de.nop));
    && ExecuteOK(d, s.de, s.em, a2) && a3 == After(d, a2, s.de.nop)
    && FetchOK(d, s.pc, s.fd, s.de, s.correctPC, s.correction, a3.pc)
    && Sampled(d, s.fd, s.de, w, a2, s.mem)
  }

  lemma InvInExecute(d: Datapath, start: Arch, s: State, bht: bool, k: nat)
    requires IsaDivision(d) && Inv(d, start, s, k)
    ensures InExecute(d, start, s, Sample(d, s, bht), k + Count(s.mw.nop) + Count(s.em.nop))
  {
    hide Isa.Step, Run, After, RetiringOK, MemoryOK, ExecuteOK, FetchOK, DividerOK, SampleWith, Sampled, DividerOutput;
    var k2 := k + Count(s.mw.nop) + Count(s.em.nop);
    WiresCorrect(d, s, bht, Run(d, start, k), Run(d, start, k + Count(s.mw.nop)), Run(d, start, k2),
                 Run(d, start, k2 + Count(s.de.nop)));
  }

  lemma ClockFields(d: Datapath, s: State, bht: bool)
    ensures var w, s' := Sample(d, s, bht), Clock(d, s, bht);
      && s'.ras == NextRas(d, s.fd, s.ras, w) && s'.de == NextDE(s.fd, s.de, s.ras, w)
      && s'.em.nop == NextEM(s.de, s.em, w).nop && s'.mw.nop == s.em.nop
  {
    hide NextDE, NextRas, NextEM, NextFD, NextPCReg, NextMem, NextRegs, NextDiv, Sample;
  }

  /** One clock of a run keeps the registers in step with the sequential trace. */
  lemma StackClock(d: Datapath, start: Arch, ras0: Ras, s: State, bht: bool, k: nat)
    requires IsaDivision(d) && Inv(d, start, s, k)
    requires StackOK(d, start, ras0, s.ras, s.de, k + Count(s.mw.nop) + Count(s.em.nop))
    ensures var s' := Clock(d, s, bht);
      StackOK(d, start, ras0, s'.ras, s'.de, k + Count(s.mw.nop) + Count(s'.mw.nop) + Count(s'.em.nop))
  {
    hide StackOK, Inv, InExecute, Clock, Sample, NextDE, NextRas, NextEM;
    InvInExecute(d, start, s, bht, k);
    StackStep(d, start, ras0, s, Sample(d, s, bht), k + Count(s.mw.nop) + Count(s.em.nop));
    ClockFields(d, s, bht);
  }

  // ---------------------------------------------------------------------------------------
  // Whole runs
  // ---------------------------------------------------------------------------------------

  /** The instructions of a run that have reached the execute stage, the one in it not counted. */
  function Executed(d: Datapath, s: State, bht: nat -> bool, n: nat): nat {
    var now := RunClocks(d, s, bht, n);
    |Retired(d, s, bht, n)| + Count(now.mw.nop) + Count(now.em.nop)
  }

  lemma {:induction false} RunKeepsStack(d: Datapath, s: State, bht: nat -> bool, n: nat)
    requires IsaDivision(d) && Drained(s) && s.fd.instr == d.fetch(s.fd.pc)
    ensures var now := RunClocks(d, s, bht, n);
      StackOK(d, Arch(s.pc, s.regs, s.mem), s.ras, now.ras, now.de, Executed(d, s, bht, n))
  {
    hide StackOK, Inv, Clock;
    if n == 0 {
      StartStack(d, s);
    } else {
      RunKeepsStack(d, s, bht, n - 1);
      RunKeepsInv(d, s, bht, n - 1);
      StackClock(d, Arch(s.pc, s.regs, s.mem), s.ras, RunClocks(d, s, bht, n - 1), bht(n - 1), |Retired(d, s, bht, n - 1)|);
    }
  }

  lemma StartStack(d: Datapath, s: State)
    requires s.de.nop
    ensures StackOK(d, Arch(s.pc, s.regs, s.mem), s.ras, s.ras, s.de, 0)
  {
  }

  /**
   In every run, under any predictions, stalls and squashes, the four registers hold what the
   calls and returns of the sequential run leave in them: those of the instructions retired and
   of the ones in write-back, memory and execute, and of no other.
   */
  lemma StackFollowsRun(d: Datapath, s: State, bht: nat -> bool, n: nat)
    requires IsaDivision(d) && Drained(s) && s.fd.instr == d.fetch(s.fd.pc)
    ensures var now := RunClocks(d, s, bht, n);
      var k3 := |Retired(d, s, bht, n)| + Count(now.mw.nop) + Count(now.em.nop) + Count(now.de.nop);
      now.ras == ApplyAll(s.ras, Trace(d, Arch(s.pc, s.regs, s.mem), k3))
  {
    hide RunClocks, Retired;
    RunKeepsStack(d, s, bht, n);
  }

  // ---------------------------------------------------------------------------------------
  // When a return is predicted
  // ---------------------------------------------------------------------------------------

  lemma {:induction false} TraceSplits(d: Datapath, start: Arch, c: nat, m: nat)
    ensures Run(d, start, c + m) == Run(d, Run(d, start, c), m)
    ensures Trace(d, start, c + m) == Trace(d, start, c) + Trace(d, Run(d, start, c), m)
  {
    hide Isa.Step, EventAt;
    if m > 0 {
      TraceSplits(d, start, c, m - 1);
      assert c + m - 1 == c + (m - 1);
    }
  }

  /** The calls and returns between the call at index c and the instruction at index k. */
  function Body(d: Datapath, start: Arch, c: nat, k: nat): seq<Event>
    requires c < k
  {
    Trace(d, Run(d, start, c + 1), k - c - 1)
  }

  lemma CallThenBody(d: Datapath, start: Arch, ras: Ras, c: nat, k: nat, pc: Word)
    requires c < k && EventAt(d, Run(d, start, c)) == [Call(pc)]
    ensures ApplyAll(ras, Trace(d, start, k)) == ApplyAll(Apply(ApplyAll(ras, Trace(d, start, c)), Call(pc)), Body(d, start, c, k))
  {
    hide Isa.Step, EventAt;
    TraceSplits(d, start, c + 1, k - c - 1);
    var before := ApplyAll(ras, Trace(d, start, c));
    TraceNext(d, start, ras, c);
    ApplyOne(before, Call(pc));
    ApplyAllOfSum(ras, Trace(d, start, c + 1), Body(d, start, c, k));
  }

  /** The jump in execute goes to pc, and the instruction at index c was the call that linked it. */
  ghost predicate ReturnsTo(d: Datapath, start: Arch, c: nat, k: nat, pc: Word) {
    var a := Run(d, start, k);
    && c < k && EventAt(d, Run(d, start, c)) == [Call(pc)]
    && d.fetch(a.pc).kind.JALR? && Isa.Step(d, a).pc == pc
  }

  /** In a run, a JALR in execute is mispredicted exactly when its target is not on top of the trace's registers. */
  lemma JumpMispredicted(d: Datapath, s: State, bht: nat -> bool, n: nat)
    requires IsaDivision(d) && Drained(s) && s.fd.instr == d.fetch(s.fd.pc) && RunClocks(d, s, bht, n).de.IsJALR()
    ensures var start, k := Arch(s.pc, s.regs, s.mem), Executed(d, s, bht, n);
      && d.fetch(Run(d, start, k).pc).kind.JALR?
      && (Sample(d, RunClocks(d, s, bht, n), bht(n)).mispredicted <==>
            Isa.Step(d, Run(d, start, k)).pc != ApplyAll(s.ras, Trace(d, start, k)).r0)
  {
    hide Inv, Drained, IsaDivision, RunClocks, Retired, Sample, InExecute, ApplyAll, Trace, Run;
    var start, k, now := Arch(s.pc, s.regs, s.mem), Executed(d, s, bht, n), RunClocks(d, s, bht, n);
    RunKeepsStack(d, s, bht, n);
    RunKeepsInv(d, s, bht, n);
    InvInExecute(d, start, now, bht(n), |Retired(d, s, bht, n)|);
    JumpResolved(d, start, now, Sample(d, now, bht(n)), k);
  }

  lemma JumpResolved(d: Datapath, start: Arch, s: State, w: Wires, k: nat)
    requires InExecute(d, start, s, w, k) && s.de.IsJALR()
    ensures var a := Run(d, start, k);
      d.fetch(a.pc).kind.JALR? && (w.mispredicted <==> Isa.Step(d, a).pc != s.de.predictRA)
  {
    hide FetchOK, Run, Result, WriteValue, StoreEffect, Correction;
  }

  /**
   A return to its call's link address, after a body with no returns but from its own calls and
   none of these linking the same address, is predicted exactly when they have all returned and
   no more than three of them were ever live at once.
   */
  lemma ReturnMispredictedExactlyWhen(d: Datapath, s: State, bht: nat -> bool, n: nat, c: nat, pc: Word)
    requires IsaDivision(d) && Drained(s) && s.fd.instr == d.fetch(s.fd.pc) && RunClocks(d, s, bht, n).de.IsJALR()
    requires var start, k := Arch(s.pc, s.regs, s.mem), Executed(d, s, bht, n);
      && ReturnsTo(d, start, c, k, pc)
      && Level(Body(d, start, c, k)) >= 0 && Call(pc) !in Body(d, start, c, k)
    ensures Sample(d, RunClocks(d, s, bht, n), bht(n)).mispredicted <==>
      Depth(Body(d, Arch(s.pc, s.regs, s.mem), c, Executed(d, s, bht, n)), 3) != 0
  {
    hide Drained, IsaDivision, RunClocks, Retired, Sample, ApplyAll, Trace, Run, Isa.Step, Depth, Level, Body, Executed, EventAt;
    var start, k := Arch(s.pc, s.regs, s.mem), Executed(d, s, bht, n);
    JumpMispredicted(d, s, bht, n);
    CallThenBody(d, start, s.ras, c, k, pc);
    PredictedExactlyWhen(ApplyAll(s.ras, Trace(d, start, c)), pc, Body(d, start, c, k));
  }

  /** With at most three live calls inside, whatever they link, it never is. */
  lemma ShallowReturnNeverMispredicted(d: Datapath, s: State, bht: nat -> bool, n: nat, c: nat, pc: Word)
    requires IsaDivision(d) && Drained(s) && s.fd.instr == d.fetch(s.fd.pc) && RunClocks(d, s, bht, n).de.IsJALR()
    requires var start, k := Arch(s.pc, s.regs, s.mem), Executed(d, s, bht, n);
      ReturnsTo(d, start, c, k, pc) && Depth(Body(d, start, c, k), 3) == 0
    ensures !Sample(d, RunClocks(d, s, bht, n), bht(n)).mispredicted
  {
    hide Drained, IsaDivision, RunClocks, Retired, Sample, ApplyAll, Trace, Run, Isa.Step, Depth, Body, Executed, EventAt;
    var start, k := Arch(s.pc, s.regs, s.mem), Executed(d, s, bht, n);
    JumpMispredicted(d, s, bht, n);
    CallThenBody(d, start, s.ras, c, k, pc);
    ShallowReturnPredicted(ApplyAll(s.ras, Trace(d, start, c)), pc, Body(d, start, c, k));
  }
}
