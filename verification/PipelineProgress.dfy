/** No stall persists: from every reachable state another instruction retires within 38 clocks. */
module PipelineProgress {
  import opened Arith
  import opened Isa
  import opened Words
  import opened Pipeline
  import IntegerDivider

  /** Position of the highest set bit, counted from one. */
  function Bits(mask: nat): nat {
    if mask == 0 then 0 else 1 + Bits(mask / 2)
  }

  lemma {:induction false} BitsOfPow2(j: nat)
    ensures Bits(Pow2(j)) == j + 1
  {
    if j == 0 {
    } else {
      BitsOfPow2(j - 1);
      assert Pow2(j) / 2 == Pow2(j - 1);
    }
  }

  /** Clocks for which a division in the execute stage still keeps the ALU busy. */
  function DivideStall(div: IntegerDivider.Regs): nat {
    if div.finished then 0 else if div.busy then Bits(div.mask) else 33
  }

  /** What progress needs of a reachable state. */
  ghost predicate Shape(s: State) {
    && (s.fd.nop ==> s.de.nop)
    && (s.div.busy || s.div.finished ==> s.de.IsDIV() && s.div.busy != s.div.finished)
    && (s.div.busy ==> s.div.mask != 0 && Bits(s.div.mask) <= 32)
    && (!s.div.busy ==> s.div.mask == 0)
    && (s.div.busy ==> s.div.mask == 1 || s.div.mask % 2 == 0)
  }

  lemma InvShape(d: Datapath, start: Arch, s: State, k: nat)
    ensures Inv(d, start, s, k) ==> Shape(s)
  {
    hide RetiringOK, MemoryOK, ExecuteOK, Isa.Step, DividerOK;
    if Inv(d, start, s, k) {
      var regs := Run(d, start, k + Count(s.mw.nop) + Count(s.em.nop)).regs;
      assert DividerOK(s.de, s.div, regs);
      DividerShape(s.de, s.div, regs);
    }
  }

  lemma DividerShape(de: DELatch, div: IntegerDivider.Regs, regs: RegFile)
    requires DividerOK(de, div, regs)
    ensures div.busy || div.finished ==> de.IsDIV() && div.busy != div.finished
    ensures div.busy ==> 1 <= Bits(div.mask) <= 32 && (div.mask == 1 || div.mask % 2 == 0)
    ensures !div.busy ==> div.mask == 0
  {
    hide IntegerDivider.Magnitude, IntegerDivider.ResultSign, IntegerDivider.FoundDigits, Bits, Pow2;
    if div.busy || div.finished {
      var op := de.instr.DivOp();
      var x, y := Nat(Reg(regs, de.instr.rs1)), Nat(Reg(regs, de.instr.rs2));
      var j: nat :| DigitsDone(div, op, x, y, j);
      if j < 32 {
        BitsOfPow2(31 - j);
        SmallPowers();
        if j < 31 {
          Doubling(31 - j);
        }
      }
    }
  }

  /** How far the pipeline is, at most, from retiring an instruction. */
  function Distance(s: State): nat {
    if !s.mw.nop then 0
    else if !s.em.nop then 1
    else if !s.de.nop then 2 + if s.de.IsDIV() then DivideStall(s.div) else 0
    else if !s.fd.nop then 36
    else 37
  }

  lemma DistanceBound(s: State)
    requires Shape(s)
    ensures Distance(s) <= 37
  {
  }

  lemma DividerCountsDown(div: IntegerDivider.Regs, start: bool, op: IntegerDivider.Op, a: nat, b: nat)
    requires div.busy ==> div.mask != 0 && (div.mask == 1 || div.mask % 2 == 0)
    requires !div.busy ==> div.mask == 0
    ensures var next := IntegerDivider.Clock(32, div, start, op, a, b);
      if div.busy || start then DivideStall(next) == (if div.busy then Bits(div.mask) else 33) - 1
      else !next.busy && !next.finished
  {
    hide IntegerDivider.Magnitude, IntegerDivider.ResultSign, IntegerDivider.Subtract, IntegerDivider.OrMask;
    BitsOfPow2(31);
  }

  /** Each clock of a division takes one off its stall, and nothing behind it moves. */
  lemma DivideStallShrinks(d: Datapath, s: State, bht: bool)
    requires Shape(s) && s.de.IsDIV() && !s.div.finished
    ensures var s' := Clock(d, s, bht);
      && AluBusy(s) && s'.de == s.de && s'.em.nop && s'.fd == s.fd
      && DivideStall(s'.div) == DivideStall(s.div) - 1
  {
    hide IntegerDivider.Clock, IntegerDivider.Result;
    var w := Sample(d, s, bht);
    DividerCountsDown(s.div, true, s.de.instr.DivOp(), Nat(w.rs1), Nat(w.rs2));
    assert NextDiv(s.de, s.div, w) == IntegerDivider.Clock(32, s.div, true, s.de.instr.DivOp(), Nat(w.rs1), Nat(w.rs2));
  }

  lemma DistanceShrinks(d: Datapath, s: State, bht: bool)
    requires Shape(s) && s.mw.nop
    ensures Distance(Clock(d, s, bht)) < Distance(s)
  {
    hide IntegerDivider.Clock, IntegerDivider.Result;
    if s.em.nop && s.de.IsDIV() && !s.div.finished {
      DivideStallShrinks(d, s, bht);
    } else if s.em.nop && s.de.nop {
      var w := Sample(d, s, bht);
      DividerCountsDown(s.div, false, s.de.instr.DivOp(), Nat(w.rs1), Nat(w.rs2));
    }
  }

  /**
   Progress: from every state a run reaches, at most 37 further clocks bring an instruction to
   write-back, so the 38th has retired it.
   */
  lemma AlwaysRetires(d: Datapath, s: State, bht: nat -> bool, n: nat)
    requires IsaDivision(d) && Drained(s) && s.fd.instr == d.fetch(s.fd.pc)
    ensures |Retired(d, s, bht, n + 38)| > |Retired(d, s, bht, n)|
  {
    hide Inv, Drained, Clock, Shape, Distance, IsaDivision;
    var m := RetiresWithin(d, s, bht, n);
    RetiredGrows(d, s, bht, n, m);
    RetiredGrows(d, s, bht, m + 1, n + 38);
  }

  lemma {:induction false} RetiresWithin(d: Datapath, s: State, bht: nat -> bool, n: nat) returns (m: nat)
    requires IsaDivision(d) && Drained(s) && s.fd.instr == d.fetch(s.fd.pc)
    ensures n <= m <= n + Distance(RunClocks(d, s, bht, n)) <= n + 37
    ensures !RunClocks(d, s, bht, m).mw.nop
    decreases Distance(RunClocks(d, s, bht, n))
  {
    hide Inv, Drained, Clock, Shape;
    var now := RunClocks(d, s, bht, n);
    RunKeepsInv(d, s, bht, n);
    InvShape(d, Arch(s.pc, s.regs, s.mem), now, |Retired(d, s, bht, n)|);
    DistanceBound(now);
    if now.mw.nop {
      DistanceShrinks(d, now, bht(n));
      assert RunClocks(d, s, bht, n + 1) == Clock(d, now, bht(n));
      m := RetiresWithin(d, s, bht, n + 1);
    } else {
      m := n;
    }
  }

  lemma {:induction false} RetiredGrows(d: Datapath, s: State, bht: nat -> bool, n: nat, m: nat)
    requires n <= m
    ensures |Retired(d, s, bht, n)| <= |Retired(d, s, bht, m)|
    decreases m - n
  {
    hide Clock;
    if n < m {
      RetiredGrows(d, s, bht, n + 1, m);
    }
  }

  /** A load-use or store-load stall lasts one clock: the instruction held back moves on the next. */
  lemma HazardLastsOneClock(d: Datapath, s: State, bht: bool, bht': bool)
    requires Shape(s) && DataHazard(s.fd, s.de)
    ensures var s' := Clock(d, s, bht);
      && Sample(d, s, bht).FetchStall() && !Sample(d, s', bht').FetchStall()
      && s'.de.nop && s'.fd == s.fd
      && Clock(d, s', bht').de.instr == s.fd.instr && !Clock(d, s', bht').de.nop
  {
    hide IntegerDivider.Clock, IntegerDivider.Result;
    var w := Sample(d, s, bht);
    DividerCountsDown(s.div, false, s.de.instr.DivOp(), Nat(w.rs1), Nat(w.rs2));
  }

  /** A division keeps the pipeline waiting for exactly 33 clocks. */
  lemma {:induction false} DivideLasts33Clocks(d: Datapath, start: Arch, s: State, k: nat, bht: nat -> bool, t: nat)
    requires IsaDivision(d) && Inv(d, start, s, k) && s.de.IsDIV() && !s.div.busy && !s.div.finished && t <= 33
    ensures var now := RunClocks(d, s, bht, t);
      && now.de == s.de && now.fd == s.fd && DivideStall(now.div) == 33 - t && (exists k': nat :: Inv(d, start, now, k'))
      && (AluBusy(now) <==> t < 33)
  {
    hide Inv, Clock, Shape;
    if t == 0 {
      InvShape(d, start, s, k);
      assert Inv(d, start, RunClocks(d, s, bht, 0), k);
    } else {
      DivideLasts33Clocks(d, start, s, k, bht, t - 1);
      var before := RunClocks(d, s, bht, t - 1);
      var k': nat :| Inv(d, start, before, k');
      InvShape(d, start, before, k');
      DivideStallShrinks(d, before, bht(t - 1));
      StepKeepsInv(d, start, before, bht(t - 1), k');
      InvShape(d, start, RunClocks(d, s, bht, t), k' + Count(before.mw.nop));
    }
    BusyMeansStalled(RunClocks(d, s, bht, t));
  }

  lemma BusyMeansStalled(s: State)
    requires Shape(s) && s.de.IsDIV()
    ensures AluBusy(s) <==> DivideStall(s.div) > 0
  {
  }
}
