/**
 The serial transmitter, set up for eight data bits, no parity and one stop bit, clock by clock,
 and the waveform it puts on the line.
 */
module UartTransmitter {
  import opened Arith
  import opened UartLine

  const BREAK := 14

  /** state, baud_counter, zero_baud_counter, last_state, r_busy, lcl_data and o_uart_tx. */
  datatype Tx = Tx(state: nat, baud: nat, zero: bool, lastState: bool, busy: bool, data: Byte, line: bool)

  /** What the transmitter sees on one clock: i_wr, i_data and the synchronised clear-to-send. */
  datatype Input = Input(wr: bool, byte: Byte, cts: bool)

  predicate Accepts(s: Tx, i: Input) { i.wr && !s.busy }

  function NextState(s: Tx, i: Input): nat {
    if !s.zero then s.state
    else if s.state == BREAK then IDLE
    else if s.state == IDLE then (if Accepts(s, i) then 0 else IDLE)
    else if s.state < BIT_SEVEN then s.state + 1
    else if s.state == BIT_SEVEN || s.state == PARITY then STOP
    else IDLE
  }

  function NextBusy(s: Tx, i: Input): bool {
    if s.zero && (s.state == BREAK || (s.state == IDLE && !Accepts(s, i))) then !i.cts else true
  }

  function NextData(s: Tx, i: Input): Byte {
    if !s.busy then i.byte else if s.zero then s.data[1..] + [false] else s.data
  }

  function NextLine(s: Tx, i: Input): bool {
    if Accepts(s, i) then false
    else if s.zero then (if s.state <= BIT_SEVEN then s.data[0] else true)
    else s.line
  }

  function NextBaud(bauds: nat, s: Tx, i: Input): (nat, bool)
    requires bauds >= 3
  {
    var zero := s.baud == 1;
    if !s.zero then (Decrement(s.baud, 0x1000_0000), zero)
    else if s.state == BREAK then (0, true)
    else if s.state == IDLE then (if Accepts(s, i) then (bauds - 1, false) else (0, true))
    else (if s.lastState then bauds - 2 else bauds - 1, zero)
  }

  /** One rising edge, with neither reset nor break asserted. */
  function Clock(bauds: nat, s: Tx, i: Input): Tx
    requires bauds >= 3
  {
    Tx(NextState(s, i), NextBaud(bauds, s, i).0, NextBaud(bauds, s, i).1, s.state == STOP,
       NextBusy(s, i), NextData(s, i), NextLine(s, i))
  }

  // ---------------------------------------------------------------------------------------
  // The waveform
  // ---------------------------------------------------------------------------------------

  /** The bytes accepted over a run of clocks; the start bit appears one clock after acceptance. */
  function Accepted(bauds: nat, s: Tx, ins: seq<Input>): seq<Sent>
    requires bauds >= 3
  {
    if ins == [] then []
    else
      var n := |ins| - 1;
      Accepted(bauds, s, ins[..n])
        + if Accepts(Run(bauds, s, ins[..n]), ins[n]) then [Sent(n + 1, ins[n].byte)] else []
  }

  function Run(bauds: nat, s: Tx, ins: seq<Input>): Tx
    requires bauds >= 3
  {
    if ins == [] then s else Clock(bauds, Run(bauds, s, ins[..|ins| - 1]), ins[|ins| - 1])
  }

  /** The line before each clock of the run. */
  function Wave(bauds: nat, s: Tx, ins: seq<Input>): (w: seq<bool>)
    requires bauds >= 3
    ensures |w| == |ins|
  {
    if ins == [] then []
    else Wave(bauds, s, ins[..|ins| - 1]) + [Run(bauds, s, ins[..|ins| - 1]).line]
  }

  /** At rest: an idle transmitter, or one still counting out its stop bit or its power-up delay. */
  predicate Resting(s: Tx) {
    s.state == IDLE && s.line && (s.zero <==> s.baud == 0) && (!s.busy ==> s.zero)
  }

  /** j clocks into the frame of d. */
  predicate InFrame(bauds: nat, s: Tx, d: Byte, j: int)
    requires bauds >= 3
  {
    if j < 9 * bauds then
      var k := if s.state == STOP then 8 else s.state;
      && (s.state <= BIT_SEVEN || s.state == STOP)
      && s.baud < bauds && j == (k + 1) * bauds - 1 - s.baud
      && (s.zero <==> s.baud == 0) && s.busy
      && s.line == FrameBit(d, k)
      && s.data[..8 - k] == d[k..]
      && (k == 8 && s.baud < bauds - 1 ==> s.lastState)
      && (k < 8 ==> !s.lastState)
    else
      && Resting(s)
      && (s.busy || j >= 10 * bauds - 1)
      && s.baud == if j <= 10 * bauds - 2 then 10 * bauds - 2 - j else 0
  }

  lemma FrameClock(bauds: nat, s: Tx, d: Byte, j: nat, i: Input)
    requires bauds >= 3 && InFrame(bauds, s, d, j) && !Accepts(s, i)
    ensures InFrame(bauds, Clock(bauds, s, i), d, j + 1)
  {
    hide FrameBit;
    if j >= 9 * bauds {
      StopClock(bauds, s, d, j, i);
    } else if s.zero {
      NextBitClock(bauds, s, d, j, i);
    } else {
      SameBitClock(bauds, s, d, j, i);
    }
  }

  lemma SameBitClock(bauds: nat, s: Tx, d: Byte, j: nat, i: Input)
    requires bauds >= 3 && InFrame(bauds, s, d, j) && !Accepts(s, i) && j < 9 * bauds && !s.zero
    ensures InFrame(bauds, Clock(bauds, s, i), d, j + 1)
  {
    hide FrameBit;
    BitEnds(bauds, if s.state == STOP then 8 else s.state);
  }

  lemma StopClock(bauds: nat, s: Tx, d: Byte, j: nat, i: Input)
    requires bauds >= 3 && InFrame(bauds, s, d, j) && !Accepts(s, i) && j >= 9 * bauds
    ensures InFrame(bauds, Clock(bauds, s, i), d, j + 1)
  {
  }

  /** The baud counter has run out: the next bit goes on the line, the one after to the front. */
  lemma NextBitClock(bauds: nat, s: Tx, d: Byte, j: nat, i: Input)
    requires bauds >= 3 && InFrame(bauds, s, d, j) && !Accepts(s, i) && j < 9 * bauds && s.zero
    ensures InFrame(bauds, Clock(bauds, s, i), d, j + 1)
  {
    var k := if s.state == STOP then 8 else s.state;
    BitEnds(bauds, k);
    if k < 8 {
      FrontBit(s.data, d, k);
    }
  }

  lemma BitEnds(bauds: nat, k: nat)
    ensures (k + 2) * bauds == (k + 1) * bauds + bauds
    ensures k <= 8 ==> (k + 1) * bauds <= 9 * bauds
    ensures k < 8 ==> (k + 1) * bauds < 9 * bauds || bauds == 0
  {
    if k <= 8 {
      MulMono(k + 1, 9, bauds);
    }
    if k < 8 {
      MulMono(k + 1, 8, bauds);
    }
  }

  lemma FrontBit(data: Byte, d: Byte, k: nat)
    requires k < 8 && data[..8 - k] == d[k..]
    ensures data[0] == d[k] == FrameBit(d, k + 1)
    ensures (data[1..] + [false])[..8 - (k + 1)] == d[k + 1..]
  {
    assert data[..8 - k][0] == d[k..][0];
    assert (data[1..] + [false])[..7 - k] == data[..8 - k][1..];
    assert d[k..][1..] == d[k + 1..];
  }

  lemma FrameStart(bauds: nat, s: Tx, i: Input)
    requires bauds >= 3 && Resting(s) && Accepts(s, i)
    ensures InFrame(bauds, Clock(bauds, s, i), i.byte, 0)
  {
  }

  lemma FrameLevel(bauds: nat, s: Tx, d: Byte, j: nat)
    requires bauds >= 3 && InFrame(bauds, s, d, j)
    ensures s.line == FrameBit(d, j / bauds)
  {
    if j < 9 * bauds {
      DivUnique(j, bauds, if s.state == STOP then 8 else s.state, bauds - 1 - s.baud);
    } else {
      LevelHigh(bauds, j, 9);
    }
  }

  /** Where the transmitter stands after a run. */
  predicate Stands(bauds: nat, s: Tx, sent: seq<Sent>, n: nat)
    requires bauds >= 3
  {
    && Spaced(bauds, sent)
    && Started(sent, |sent|, n)
    && if sent == [] then Resting(s)
       else InFrame(bauds, s, sent[|sent| - 1].byte, n - sent[|sent| - 1].at)
  }

  lemma {:induction false} RunStands(bauds: nat, s: Tx, ins: seq<Input>)
    requires bauds >= 3 && Resting(s)
    ensures Stands(bauds, Run(bauds, s, ins), Accepted(bauds, s, ins), |ins|)
  {
    hide Clock, InFrame;
    if ins != [] {
      var n := |ins| - 1;
      RunStands(bauds, s, ins[..n]);
      StandsClock(bauds, Run(bauds, s, ins[..n]), Accepted(bauds, s, ins[..n]), n, ins[n]);
    }
  }

  lemma StandsClock(bauds: nat, s: Tx, sent: seq<Sent>, n: nat, i: Input)
    requires bauds >= 3 && Stands(bauds, s, sent, n)
    ensures Stands(bauds, Clock(bauds, s, i), sent + if Accepts(s, i) then [Sent(n + 1, i.byte)] else [], n + 1)
  {
    hide Clock, InFrame;
    if Accepts(s, i) {
      if sent != [] {
        OverBeforeAccepting(bauds, s, sent[|sent| - 1].byte, n - sent[|sent| - 1].at);
      }
      FrameStart(bauds, s, i);
    } else if sent != [] {
      FrameClock(bauds, s, sent[|sent| - 1].byte, n - sent[|sent| - 1].at, i);
    } else {
      RestingClock(bauds, s, i);
    }
  }

  lemma OverBeforeAccepting(bauds: nat, s: Tx, d: Byte, j: nat)
    requires bauds >= 3 && InFrame(bauds, s, d, j) && !s.busy
    ensures j >= 10 * bauds - 1 && Resting(s)
  {
  }

  lemma RestingClock(bauds: nat, s: Tx, i: Input)
    requires bauds >= 3 && Resting(s) && !Accepts(s, i)
    ensures Resting(Clock(bauds, s, i))
  {
  }

  /**
   The waveform of every run, whatever is offered and however the other side holds it up: each
   accepted byte is one undisturbed frame, frames never overlap, and the line is high otherwise.
   */
  lemma {:induction false} WaveIsFrames(bauds: nat, s: Tx, ins: seq<Input>, i: nat, t: nat)
    requires bauds >= 3 && Resting(s)
    requires t < |ins| && Started(Accepted(bauds, s, ins), i, t)
    ensures Wave(bauds, s, ins)[t] == Level(bauds, Accepted(bauds, s, ins), i, t)
    ensures Spaced(bauds, Accepted(bauds, s, ins))
  {
    hide Clock, InFrame, FrameBit, Level, Accepted, Stands, Spaced, Started;
    RunStands(bauds, s, ins);
    StandsSpaced(bauds, Run(bauds, s, ins), Accepted(bauds, s, ins), |ins|);
    if t < |ins| - 1 {
      WaveIsFrames(bauds, s, ins[..|ins| - 1], i, t) by {
        EarlierFrames(bauds, s, ins, i, t);
      }
      EarlierFrames(bauds, s, ins, i, t);
    } else {
      LatestLevel(bauds, s, ins, i);
    }
  }

  lemma StandsSpaced(bauds: nat, s: Tx, sent: seq<Sent>, n: nat)
    requires bauds >= 3 && Stands(bauds, s, sent, n)
    ensures Spaced(bauds, sent)
  {
  }

  /** The last clock of a run changes nothing about the frames before it. */
  lemma EarlierFrames(bauds: nat, s: Tx, ins: seq<Input>, i: nat, t: nat)
    requires bauds >= 3 && Resting(s)
    requires t < |ins| && Started(Accepted(bauds, s, ins), i, t)
    ensures var sent := Accepted(bauds, s, ins[..|ins| - 1]);
      && Started(sent, i, t)
      && Level(bauds, sent, i, t) == Level(bauds, Accepted(bauds, s, ins), i, t)
  {
    hide Run, FrameBit, Accepts;
  }

  lemma LatestLevel(bauds: nat, s: Tx, ins: seq<Input>, i: nat)
    requires bauds >= 3 && Resting(s) && ins != []
    requires Started(Accepted(bauds, s, ins), i, |ins| - 1)
    ensures Wave(bauds, s, ins)[|ins| - 1] == Level(bauds, Accepted(bauds, s, ins), i, |ins| - 1)
  {
    hide Clock, InFrame, FrameBit, Level, Accepted;
    var n := |ins| - 1;
    var sent, now := Accepted(bauds, s, ins[..n]), Run(bauds, s, ins[..n]);
    RunStands(bauds, s, ins[..n]);
    EarlierFrames(bauds, s, ins, i, n);
    OneFrame(bauds, sent, i, |sent|, n);
    StandingLevel(bauds, now, sent, n);
  }

  lemma StandingLevel(bauds: nat, s: Tx, sent: seq<Sent>, n: nat)
    requires bauds >= 3 && Stands(bauds, s, sent, n)
    ensures s.line == Level(bauds, sent, |sent|, n)
  {
    hide InFrame, FrameBit;
    if sent != [] {
      FrameLevel(bauds, s, sent[|sent| - 1].byte, n - sent[|sent| - 1].at);
    }
  }

  // ---------------------------------------------------------------------------------------
  // The registers, updated in place
  // ---------------------------------------------------------------------------------------

  class Transmitter {
    const bauds: nat
    var state: nat
    var baud: nat
    var zero: bool
    var lastState: bool
    var busy: bool
    var data: Byte
    var line: bool

    ghost predicate Valid() { bauds >= 3 }

    function Snapshot(): Tx
      reads this
    {
      Tx(state, baud, zero, lastState, busy, data, line)
    }

    /** Power-up: five clocks of delay before the first byte can be accepted. */
    constructor (bauds: nat)
      requires bauds >= 3
      ensures Valid() && this.bauds == bauds && Resting(Snapshot())
    {
      this.bauds := bauds;
      state, baud, zero, lastState, busy, line := IDLE, 5, false, false, true, true;
      data := seq(8, _ => true);
    }

    /** One rising edge; every register reads what the others held before it. */
    method Tick(i: Input)
      requires Valid()
      modifies this
      ensures Snapshot() == Clock(bauds, old(Snapshot()), i)
    {
      hide NextState, NextBusy, NextData, NextLine, NextBaud;
      ghost var s := Snapshot();
      var accepts := i.wr && !busy;
      Shift(i, accepts);
      var wasLast := state == STOP;
      Advance(i, accepts, s);
      lastState := wasLast;
    }

    method Shift(i: Input, accepts: bool)
      requires Valid() && accepts == Accepts(Snapshot(), i)
      modifies `data, `line
      ensures data == NextData(old(Snapshot()), i) && line == NextLine(old(Snapshot()), i)
    {
      if accepts {
        line := false;
      } else if zero {
        line := if state <= BIT_SEVEN then data[0] else true;
      }
      if !busy {
        data := i.byte;
      } else if zero {
        data := data[1..] + [false];
      }
    }

    method Advance(i: Input, accepts: bool, ghost s: Tx)
      requires Valid() && accepts == Accepts(s, i)
      requires (s.state, s.baud, s.zero, s.lastState) == (state, baud, zero, lastState)
      modifies `state, `busy, `baud, `zero
      ensures state == NextState(s, i) && busy == NextBusy(s, i) && (baud, zero) == NextBaud(bauds, s, i)
    {
      if !zero {
        baud, zero, busy := Decrement(baud, 0x1000_0000), baud == 1, true;
      } else if state == BREAK || (state == IDLE && !accepts) {
        baud, zero, state, busy := 0, true, IDLE, !i.cts;
      } else if state == IDLE {
        baud, zero, state, busy := bauds - 1, false, 0, true;
      } else {
        zero, busy := baud == 1, true;
        baud := if lastState then bauds - 2 else bauds - 1;
        state := if state < BIT_SEVEN then state + 1 else if state == BIT_SEVEN || state == PARITY then STOP else IDLE;
      }
    }
  }
}
