/**
 The serial receiver, set up for eight data bits, no parity and one stop bit, clock by clock:
 start-bit detection, mid-bit sampling and delivery.
 */
module UartReceiver {
  import opened Arith
  import opened UartLine

  const SECOND_STOP := 10
  const RX_BREAK := 13
  const RESET_IDLE := 14

  /** The registers; halfTime is half_baud_time, brk is o_break, out is o_data and wr is o_wr. */
  datatype Rx = Rx(q: bool, qq: bool, ck: bool, chg: nat, lineSynch: bool, halfTime: bool, brk: bool,
                   state: nat, baud: nat, zero: bool, data: Byte, preWr: bool, wr: bool, out: Byte, frameErr: bool)

  /** half_baud: the clocks after a falling edge at which the middle of the start bit is near. */
  function HalfBaud(bauds: nat): nat
    requires bauds >= 2
  {
    bauds / 2 - 1
  }

  function NextChg(bauds: nat, s: Rx): nat {
    if s.qq != s.ck then 0 else if s.chg < 16 * bauds then s.chg + 1 else s.chg
  }

  function NextState(s: Rx): nat {
    if s.state == RESET_IDLE then (if s.lineSynch then IDLE else RESET_IDLE)
    else if s.brk then RX_BREAK
    else if s.state == RX_BREAK then (if s.ck then IDLE else RX_BREAK)
    else if s.state == IDLE then (if !s.ck && s.halfTime then 0 else IDLE)
    else if !s.zero then s.state
    else if s.state < BIT_SEVEN then s.state + 1
    else if s.state == BIT_SEVEN || s.state == PARITY then STOP
    else if !s.ck then RESET_IDLE
    else IDLE
  }

  function NextBaud(bauds: nat, s: Rx): nat
    requires bauds >= 2
  {
    if s.zero || s.state == RESET_IDLE || s.state == RX_BREAK || s.state == IDLE then bauds - 1
    else Decrement(s.baud, 0x100_0000)
  }

  function NextData(s: Rx): Byte {
    if s.zero && s.state != PARITY then s.data[1..] + [s.ck] else s.data
  }

  function NextFrameErr(s: Rx): bool {
    if s.zero && (s.state == STOP || s.state == SECOND_STOP) then s.frameErr || !s.ck
    else if s.zero || s.state >= RX_BREAK then false
    else s.frameErr
  }

  function NextPreWr(s: Rx): bool {
    if s.zero && s.state == STOP then true
    else if s.zero || s.state == IDLE then false
    else s.preWr
  }

  /** One rising edge with the given level on the line and reset not asserted. */
  function Clock(bauds: nat, s: Rx, line: bool): Rx
    requires bauds >= 2
  {
    Rx(line, s.q, s.qq, NextChg(bauds, s),
       s.chg >= 16 * bauds && s.ck,
       !s.ck && s.chg >= HalfBaud(bauds),
       s.chg >= 16 * bauds && !s.ck,
       NextState(s), NextBaud(bauds, s), s.state != IDLE && s.baud == 1, NextData(s),
       NextPreWr(s), (s.zero || s.state == IDLE) && s.preWr,
       if s.zero && s.state == STOP then s.data else s.out,
       NextFrameErr(s))
  }

  function Run(bauds: nat, s: Rx, wave: seq<bool>): Rx
    requires bauds >= 2
  {
    if wave == [] then s else Clock(bauds, Run(bauds, s, wave[..|wave| - 1]), wave[|wave| - 1])
  }

  /** The bytes strobed out by o_wr over the clocks of a run. */
  function Received(bauds: nat, s: Rx, wave: seq<bool>): seq<Byte>
    requires bauds >= 2
  {
    if wave == [] then []
    else
      var before := wave[..|wave| - 1];
      var now := Run(bauds, s, before);
      Received(bauds, s, before) + if now.wr then [now.out] else []
  }

  /** Idle and listening to a quiet line. */
  predicate Listening(s: Rx) {
    s.q && s.qq && s.ck && !s.halfTime && !s.brk && s.state == IDLE && !s.zero && !s.preWr && !s.wr && !s.frameErr
  }

  // ---------------------------------------------------------------------------------------
  // Inside one frame
  // ---------------------------------------------------------------------------------------

  /** The clocks after a falling edge of ck at which the stop bit is sampled. */
  function StopSample(bauds: nat): nat { bauds / 2 + 9 * bauds }

  /** Every sample of a frame sent at tx clocks per bit falls in its own bit. */
  predicate Matches(tx: nat, rx: nat) {
    tx >= 3 && rx >= 2 && 9 * tx <= StopSample(rx) < 10 * tx
  }

  /** The number of the sample being waited for. */
  function SampleNo(s: Rx): nat { if s.state == STOP then 8 else s.state }

  /** Counting down to sample k, with k data bits already at the top of the register. */
  predicate InBit(bauds: nat, s: Rx, d: Byte, j: int)
    requires bauds >= 2
  {
    var k := SampleNo(s);
    && (s.state <= BIT_SEVEN || s.state == STOP)
    && s.baud < bauds && (s.zero <==> s.baud == 0)
    && j == SampleTime(bauds, k) - s.baud
    && s.data[8 - k..] == d[..k]
  }

  function SampleTime(bauds: nat, k: nat): nat { bauds / 2 + (k + 1) * bauds }

  /** The receiver j clocks after the falling edge of a frame of d; delivery apart. */
  predicate InFrame(bauds: nat, s: Rx, d: Byte, j: int)
    requires bauds >= 2
  {
    var h := bauds / 2;
    && !s.brk && !s.frameErr && 0 <= s.chg <= j
    && if j <= h then s.state == IDLE && s.halfTime == (j == h) && !s.zero && s.chg == j
       else if j <= StopSample(bauds) then InBit(bauds, s, d, j)
       else s.state == IDLE && !s.zero && !s.halfTime
  }

  /** The synchronised level j clocks into a frame, and the start bit still ahead. */
  predicate Shows(tx: nat, s: Rx, d: Byte, j: int)
    requires tx > 0
  {
    s.ck == FrameBit(d, j / tx) && (j + 1 < tx ==> !s.qq)
  }

  /** The k-th sample lands in the k-th bit: the drift over a frame is less than the margin. */
  lemma SampleInBit(tx: nat, rx: nat, m: nat)
    requires Matches(tx, rx) && m <= 9
    ensures m * tx <= rx / 2 + m * rx < m * tx + tx
    ensures (rx / 2 + m * rx) / tx == m
  {
    Drift(tx, rx, m);
    SampleBounds(tx, rx, rx / 2, m * tx, m * rx);
    DivUnique(rx / 2 + m * rx, tx, m, rx / 2 + m * rx - m * tx);
  }

  lemma Drift(tx: nat, rx: nat, m: nat)
    requires m <= 9
    ensures if rx >= tx then 0 <= m * rx - m * tx <= 9 * (rx - tx) else 0 <= m * tx - m * rx <= 9 * (tx - rx)
  {
    if rx >= tx {
      MulMono(tx, rx, m);
      MulMono(m, 9, rx - tx);
      assert m * (rx - tx) == m * rx - m * tx;
    } else {
      MulMono(rx, tx, m);
      MulMono(m, 9, tx - rx);
      assert m * (tx - rx) == m * tx - m * rx;
    }
  }

  lemma SampleBounds(tx: nat, rx: nat, half: nat, a: int, b: int)
    requires 2 * half <= rx && 9 * tx <= half + 9 * rx < 10 * tx
    requires if rx >= tx then 0 <= b - a <= 9 * (rx - tx) else 0 <= a - b <= 9 * (tx - rx)
    ensures a <= half + b < a + tx
  {
  }

  /** The next clock of a frame, one delivery of the frame before possibly still under way. */
  lemma FrameClock(tx: nat, rx: nat, s: Rx, d: Byte, j: nat, line: bool)
    requires Matches(tx, rx) && InFrame(rx, s, d, j) && Shows(tx, s, d, j)
    ensures InFrame(rx, Clock(rx, s, line), d, j + 1)
  {
    hide FrameBit;
    if j <= rx / 2 {
      ListenClock(tx, rx, s, d, j, line);
    } else if j <= StopSample(rx) {
      BitClock(tx, rx, s, d, j, line);
    } else {
      DoneClock(tx, rx, s, d, j, line);
    }
  }

  lemma ListenClock(tx: nat, rx: nat, s: Rx, d: Byte, j: nat, line: bool)
    requires Matches(tx, rx) && InFrame(rx, s, d, j) && Shows(tx, s, d, j) && j <= rx / 2
    ensures InFrame(rx, Clock(rx, s, line), d, j + 1)
  {
    SampleInBit(tx, rx, 0);
    DivUnique(j, tx, 0, j);
  }

  lemma BitClock(tx: nat, rx: nat, s: Rx, d: Byte, j: nat, line: bool)
    requires Matches(tx, rx) && InFrame(rx, s, d, j) && Shows(tx, s, d, j) && rx / 2 < j <= StopSample(rx)
    ensures InFrame(rx, Clock(rx, s, line), d, j + 1)
  {
    hide SampleTime, FrameBit;
    var k := SampleNo(s);
    Samples(rx, k);
    if s.zero {
      SampleIsBit(tx, rx, k);
      TakesBit(rx, s, d, j, line);
    } else {
      CountsDown(rx, s, d, j, line);
    }
  }

  lemma SampleIsBit(tx: nat, rx: nat, k: nat)
    requires Matches(tx, rx) && k <= 8
    ensures SampleTime(rx, k) / tx == k + 1
  {
    SampleInBit(tx, rx, k + 1);
  }

  lemma CountsDown(bauds: nat, s: Rx, d: Byte, j: nat, line: bool)
    requires bauds >= 2 && InFrame(bauds, s, d, j) && bauds / 2 < j < StopSample(bauds) && !s.zero
    ensures InFrame(bauds, Clock(bauds, s, line), d, j + 1)
  {
    hide SampleTime;
    var t := Clock(bauds, s, line);
    assert !t.brk && t.chg <= j + 1 && !t.frameErr;
    assert InBit(bauds, t, d, j + 1);
  }

  lemma TakesBit(bauds: nat, s: Rx, d: Byte, j: nat, line: bool)
    requires bauds >= 2 && InFrame(bauds, s, d, j) && bauds / 2 < j <= StopSample(bauds) && s.zero
    requires s.ck == FrameBit(d, SampleNo(s) + 1)
    ensures InFrame(bauds, Clock(bauds, s, line), d, j + 1)
    ensures SampleNo(s) == 8 ==> j == StopSample(bauds) && s.data == d
  {
    hide SampleTime, FrameBit, StopSample;
    LastSample(bauds);
    StopIsLate(bauds);
    if s.state == STOP {
      StopBitIsHigh(d);
      assert s.data[0..] == s.data && d[..8] == d;
    } else {
      Samples(bauds, s.state);
      TakesDataBit(bauds, s, d, j, line);
    }
  }

  lemma StopBitIsHigh(d: Byte)
    ensures FrameBit(d, 9)
  {
  }

  lemma TakesDataBit(bauds: nat, s: Rx, d: Byte, j: nat, line: bool)
    requires bauds >= 2 && InBit(bauds, s, d, j) && s.zero && s.state <= BIT_SEVEN && !s.brk
    requires s.ck == FrameBit(d, s.state + 1)
    ensures InBit(bauds, Clock(bauds, s, line), d, j + 1)
  {
    hide SampleTime, StopSample;
    Samples(bauds, s.state);
    ShiftsIn(s.data, d, s.state, s.ck);
    var t := Clock(bauds, s, line);
    assert t.baud == bauds - 1 && !t.zero;
  }

  lemma LastSample(bauds: nat)
    ensures SampleTime(bauds, 8) == StopSample(bauds)
  {
  }

  lemma ShiftsIn(data: Byte, d: Byte, k: nat, bit: bool)
    requires k < 8 && data[8 - k..] == d[..k] && bit == d[k]
    ensures (data[1..] + [bit])[8 - (k + 1)..] == d[..k + 1]
  {
    assert d[..k + 1] == d[..k] + [d[k]];
    assert (data[1..] + [bit])[7 - k..] == data[8 - k..] + [bit];
  }

  lemma Samples(bauds: nat, k: nat)
    requires bauds > 0
    ensures k <= 8 ==> SampleTime(bauds, k) <= StopSample(bauds)
    ensures k < 8 ==> SampleTime(bauds, k) + bauds == SampleTime(bauds, k + 1) && SampleTime(bauds, k) < StopSample(bauds)
  {
  }

  lemma DoneClock(tx: nat, rx: nat, s: Rx, d: Byte, j: nat, line: bool)
    requires Matches(tx, rx) && InFrame(rx, s, d, j) && Shows(tx, s, d, j) && j > StopSample(rx)
    ensures InFrame(rx, Clock(rx, s, line), d, j + 1)
  {
    LevelHigh(tx, j, 9);
  }

  // ---------------------------------------------------------------------------------------
  // A whole line
  // ---------------------------------------------------------------------------------------

  /** Clocks from the start bit on the line to the strobe of o_wr. */
  function Latency(bauds: nat): nat { StopSample(bauds) + 5 }

  /** Waiting for the first frame. */
  predicate Quiet(s: Rx) {
    s.ck && !s.halfTime && !s.brk && s.state == IDLE && !s.zero && !s.frameErr
  }

  /** The receiver at time t, when the falling edges of i frames have reached it. */
  predicate Tracks(bauds: nat, s: Rx, sent: seq<Sent>, i: nat, t: nat)
    requires bauds >= 2
  {
    && Started(sent, i, t - 3)
    && if i == 0 then Quiet(s) else InFrame(bauds, s, sent[i - 1].byte, t - 3 - sent[i - 1].at)
  }

  /** The delivery of the c frames captured by time t. */
  predicate Delivers(bauds: nat, s: Rx, sent: seq<Sent>, c: nat, t: nat) {
    && Started(sent, c, t - Latency(bauds) + 1)
    && (s.preWr <==> c > 0 && t == sent[c - 1].at + Latency(bauds) - 1)
    && (s.wr <==> c > 0 && t == sent[c - 1].at + Latency(bauds))
    && (c > 0 ==> s.out == sent[c - 1].byte)
  }

  /** The synchroniser holds the last three levels. */
  predicate Synchronised(s: Rx, wave: seq<bool>, t: nat)
    requires t <= |wave|
  {
    s.q == Earlier(wave, t - 1) && s.qq == Earlier(wave, t - 2) && s.ck == Earlier(wave, t - 3)
  }

  function Earlier(wave: seq<bool>, k: int): bool
    requires k < |wave|
  {
    k < 0 || wave[k]
  }

  /** The line carries the frames and is high otherwise. */
  ghost predicate Carries(tx: nat, wave: seq<bool>, sent: seq<Sent>)
    requires tx > 0
  {
    forall i: nat, t :: 0 <= t < |wave| && Started(sent, i, t) ==> wave[t] == Level(tx, sent, i, t)
  }

  lemma EarlierLevel(tx: nat, wave: seq<bool>, sent: seq<Sent>, i: nat, t: int)
    requires tx > 0 && t < |wave| && Carries(tx, wave, sent) && Started(sent, i, t)
    ensures Earlier(wave, t) == Level(tx, sent, i, t)
  {
  }

  /** What the levels in the synchroniser mean to the receiver at time t. */
  lemma SeesFrames(tx: nat, s: Rx, wave: seq<bool>, sent: seq<Sent>, i: nat, t: nat)
    requires tx >= 3 && t < |wave| && Carries(tx, wave, sent) && Synchronised(s, wave, t)
    requires Spaced(tx, sent) && Started(sent, i, t - 3)
    ensures if i == 0 then s.ck else Shows(tx, s, sent[i - 1].byte, t - 3 - sent[i - 1].at)
    ensures Started(sent, i, t - 2) || (i < |sent| && sent[i].at == t - 2 && Started(sent, i + 1, t - 2))
    ensures Started(sent, i, t - 2) && i == 0 ==> s.qq
    ensures i < |sent| && sent[i].at == t - 2 ==> s.ck && !s.qq
  {
    hide FrameBit, Carries;
    EarlierLevel(tx, wave, sent, i, t - 3);
    if i < |sent| && sent[i].at == t - 2 {
      EarlierLevel(tx, wave, sent, i + 1, t - 2);
      DivUnique(0, tx, 0, 0);
      StartBit();
      if i > 0 {
        LevelHigh(tx, t - 3 - sent[i - 1].at, 9);
        HighAfterData(sent[i - 1].byte, (t - 3 - sent[i - 1].at) / tx);
      }
    } else {
      EarlierLevel(tx, wave, sent, i, t - 2);
      if i > 0 && t - 2 - sent[i - 1].at < tx {
        DivUnique(t - 2 - sent[i - 1].at, tx, 0, t - 2 - sent[i - 1].at);
        StartBit();
      }
    }
  }

  lemma StartBit()
    ensures forall d: Byte :: !FrameBit(d, 0)
  {
  }

  lemma HighAfterData(d: Byte, k: int)
    requires k >= 9
    ensures FrameBit(d, k)
  {
  }

  /** One clock of the tracking: the frame goes on, or the falling edge of the next one arrives. */
  lemma TracksClock(tx: nat, rx: nat, s: Rx, sent: seq<Sent>, i: nat, t: nat, line: bool)
    requires Matches(tx, rx) && Spaced(tx, sent) && Tracks(rx, s, sent, i, t)
    requires if i == 0 then s.ck else Shows(tx, s, sent[i - 1].byte, t - 3 - sent[i - 1].at)
    requires Started(sent, i, t - 2) && i == 0 ==> s.qq
    requires i < |sent| && sent[i].at == t - 2 ==> s.ck && !s.qq
    ensures if i < |sent| && sent[i].at == t - 2 then Tracks(rx, Clock(rx, s, line), sent, i + 1, t + 1)
            else Tracks(rx, Clock(rx, s, line), sent, i, t + 1)
  {
    hide FrameBit, InFrame;
    if i < |sent| && sent[i].at == t - 2 {
      if i > 0 {
        FrameClock(tx, rx, s, sent[i - 1].byte, t - 3 - sent[i - 1].at, line);
      }
      NextFrame(tx, rx, s, if i == 0 then 0 else t - 3 - sent[i - 1].at, if i == 0 then sent[i].byte else sent[i - 1].byte,
                sent[i].byte, i == 0, line);
    } else if i == 0 {
    } else {
      FrameClock(tx, rx, s, sent[i - 1].byte, t - 3 - sent[i - 1].at, line);
    }
  }

  lemma NextFrame(tx: nat, rx: nat, s: Rx, j: nat, d: Byte, d': Byte, first: bool, line: bool)
    requires Matches(tx, rx) && s.ck && !s.qq
    requires if first then Quiet(s) else j >= 10 * tx - 1 && InFrame(rx, Clock(rx, s, line), d, j + 1)
    ensures InFrame(rx, Clock(rx, s, line), d', 0)
  {
  }

  /** The stop sample of frame i - 1, and no other clock, captures a byte. */
  predicate Captures(s: Rx) { s.zero && s.state == STOP }

  lemma CapturesAtStop(tx: nat, rx: nat, s: Rx, sent: seq<Sent>, i: nat, t: nat)
    requires Matches(tx, rx) && Tracks(rx, s, sent, i, t)
    requires i > 0 ==> Shows(tx, s, sent[i - 1].byte, t - 3 - sent[i - 1].at)
    ensures Captures(s) <==> i > 0 && t - 3 - sent[i - 1].at == StopSample(rx)
    ensures Captures(s) ==> s.data == sent[i - 1].byte
    ensures !(s.state == IDLE || s.zero) ==> i > 0 && 2 <= t - 3 - sent[i - 1].at < StopSample(rx)
    ensures s.zero && s.state != STOP ==> i > 0 && 2 <= t - 3 - sent[i - 1].at < StopSample(rx)
  {
    hide FrameBit, InFrame;
    if i > 0 {
      FrameCaptures(rx, s, sent[i - 1].byte, t - 3 - sent[i - 1].at);
    }
  }

  lemma FrameCaptures(rx: nat, s: Rx, d: Byte, j: nat)
    requires rx >= 2 && InFrame(rx, s, d, j)
    ensures Captures(s) <==> j == StopSample(rx)
    ensures Captures(s) ==> s.data == d
    ensures !(s.state == IDLE || s.zero) ==> 2 <= j < StopSample(rx)
    ensures s.zero && s.state != STOP ==> 2 <= j < StopSample(rx)
  {
    hide SampleTime, StopSample, InBit;
    StopIsLate(rx);
    if rx / 2 < j <= StopSample(rx) {
      BitCaptures(rx, s, d, j);
    }
  }

  lemma StopIsLate(bauds: nat)
    requires bauds >= 2
    ensures 1 <= bauds / 2 < StopSample(bauds) < 16 * bauds
  {
  }

  lemma BitCaptures(rx: nat, s: Rx, d: Byte, j: nat)
    requires rx >= 2 && InBit(rx, s, d, j) && rx / 2 < j <= StopSample(rx)
    ensures Captures(s) <==> j == StopSample(rx)
    ensures Captures(s) ==> s.data == d
    ensures s.zero && s.state != STOP ==> j < StopSample(rx)
  {
    hide SampleTime, StopSample;
    if s.state == STOP {
      LastSample(rx);
      assert s.data[0..] == s.data && d[..8] == d;
    } else {
      Samples(rx, s.state);
    }
  }

  /** One clock of the delivery. */
  lemma DeliversClock(tx: nat, rx: nat, s: Rx, sent: seq<Sent>, i: nat, c: nat, t: nat, line: bool)
    requires Matches(tx, rx) && Spaced(tx, sent) && Tracks(rx, s, sent, i, t) && Delivers(rx, s, sent, c, t)
    requires i > 0 ==> Shows(tx, s, sent[i - 1].byte, t - 3 - sent[i - 1].at)
    ensures if Captures(s) then Delivers(rx, Clock(rx, s, line), sent, c + 1, t + 1)
            else Delivers(rx, Clock(rx, s, line), sent, c, t + 1)
  {
    hide InFrame, Shows, StopSample, SampleTime;
    CapturesAtStop(tx, rx, s, sent, i, t);
    FramesOpen(tx, rx, sent, i, c, t);
    LatencyOf(tx, rx);
    if c > 0 && c < i {
      LaterFrames(tx, sent, c - 1, i - 1);
    }
  }

  lemma LatencyOf(tx: nat, rx: nat)
    requires Matches(tx, rx)
    ensures Latency(rx) == StopSample(rx) + 5 < 10 * tx + 5 && tx >= 3
  {
  }

  /** At most one frame is begun and not yet captured. */
  lemma FramesOpen(tx: nat, rx: nat, sent: seq<Sent>, i: nat, c: nat, t: nat)
    requires Matches(tx, rx) && Spaced(tx, sent) && Started(sent, i, t - 3) && Started(sent, c, t - Latency(rx) + 1)
    ensures c == if i > 0 && t - 3 - sent[i - 1].at <= StopSample(rx) then i - 1 else i
  {
    if c > i {
      LaterFrames(tx, sent, i, c - 1);
    }
    if c < i {
      LaterFrames(tx, sent, c, i - 1);
      if c < i - 1 {
        LaterFrames(tx, sent, c, i - 2);
      }
    }
  }

  lemma SynchronisedClock(rx: nat, s: Rx, wave: seq<bool>, t: nat)
    requires rx >= 2 && t < |wave| && Synchronised(s, wave, t)
    ensures Synchronised(Clock(rx, s, wave[t]), wave, t + 1)
  {
  }

  /** The run keeps step with the frames on the line. */
  lemma {:induction false} RunTracks(tx: nat, rx: nat, s: Rx, wave: seq<bool>, sent: seq<Sent>, t: nat) returns (i: nat, c: nat)
    requires Matches(tx, rx) && t <= |wave| && Carries(tx, wave, sent) && Spaced(tx, sent) && Listening(s)
    ensures var now := Run(rx, s, wave[..t]);
      Synchronised(now, wave, t) && Tracks(rx, now, sent, i, t) && Delivers(rx, now, sent, c, t)
  {
    hide Clock, Carries, Spaced, InFrame, Level, Shows, Quiet, FrameBit, StopSample;
    if t == 0 {
      i, c := 0, 0;
      RestTracks(rx, s, wave, sent);
      assert wave[..0] == [];
    } else {
      i, c := RunTracks(tx, rx, s, wave, sent, t - 1);
      var now := Run(rx, s, wave[..t - 1]);
      assert wave[..t][..t - 1] == wave[..t - 1];
      i, c := ClockTracks(tx, rx, now, wave, sent, i, c, t - 1);
    }
  }

  lemma RestTracks(rx: nat, s: Rx, wave: seq<bool>, sent: seq<Sent>)
    requires rx >= 2 && Listening(s)
    ensures Synchronised(s, wave, 0) && Tracks(rx, s, sent, 0, 0) && Delivers(rx, s, sent, 0, 0)
  {
  }

  lemma ClockTracks(tx: nat, rx: nat, s: Rx, wave: seq<bool>, sent: seq<Sent>, i: nat, c: nat, t: nat)
    returns (i': nat, c': nat)
    requires Matches(tx, rx) && t < |wave| && Carries(tx, wave, sent) && Spaced(tx, sent)
    requires Synchronised(s, wave, t) && Tracks(rx, s, sent, i, t) && Delivers(rx, s, sent, c, t)
    ensures var next := Clock(rx, s, wave[t]);
      Synchronised(next, wave, t + 1) && Tracks(rx, next, sent, i', t + 1) && Delivers(rx, next, sent, c', t + 1)
  {
    hide Clock, Carries, Spaced, InFrame, Delivers, Shows, Quiet, FrameBit, Captures, Synchronised;
    SeesFrames(tx, s, wave, sent, i, t);
    TracksClock(tx, rx, s, sent, i, t, wave[t]);
    DeliversClock(tx, rx, s, sent, i, c, t, wave[t]);
    SynchronisedClock(rx, s, wave, t);
    i' := if i < |sent| && sent[i].at == t - 2 then i + 1 else i;
    c' := if Captures(s) then c + 1 else c;
  }

  // ---------------------------------------------------------------------------------------
  // What is received, and when
  // ---------------------------------------------------------------------------------------

  /** How many frames have started by time t. */
  function Count(sent: seq<Sent>, t: int): (i: nat)
    ensures i <= |sent|
  {
    if sent == [] then 0
    else if sent[|sent| - 1].at <= t then |sent|
    else Count(sent[..|sent| - 1], t)
  }

  lemma {:induction false} CountIsStarted(sent: seq<Sent>, t: int)
    ensures Started(sent, Count(sent, t), t)
  {
    if sent != [] && sent[|sent| - 1].at > t {
      CountIsStarted(sent[..|sent| - 1], t);
    }
  }

  function Bytes(sent: seq<Sent>): seq<Byte> {
    seq(|sent|, k requires 0 <= k < |sent| => sent[k].byte)
  }

  /**
   For every line of frames from a transmitter whose bit time matches: at every moment the bytes
   strobed out are exactly those of the frames whose strobe was due, in order and unchanged, and
   there has been no frame error and no break.
   */
  lemma {:induction false} ReceivedIsSent(tx: nat, rx: nat, s: Rx, wave: seq<bool>, sent: seq<Sent>, t: nat)
    requires Matches(tx, rx) && t <= |wave| && Carries(tx, wave, sent) && Spaced(tx, sent) && Listening(s)
    ensures Received(rx, s, wave[..t]) == Bytes(sent[..Count(sent, t - Latency(rx) - 1)])
    ensures !Run(rx, s, wave[..t]).frameErr && !Run(rx, s, wave[..t]).brk
  {
    hide Carries, StopSample, Clock, Run, Shows, Spaced, Latency, Synchronised, Tracks, Delivers, Started;
    var i, c := RunTracks(tx, rx, s, wave, sent, t);
    NoErrors(rx, Run(rx, s, wave[..t]), sent, i, t);
    if t == 0 {
      NothingDue(rx, sent);
      assert sent[..0] == [] && wave[..0] == [];
    } else {
      ReceivedIsSent(tx, rx, s, wave, sent, t - 1);
      i, c := RunTracks(tx, rx, s, wave, sent, t - 1);
      assert wave[..t][..t - 1] == wave[..t - 1];
      StrobeDue(tx, rx, Run(rx, s, wave[..t - 1]), sent, c, t - 1);
    }
  }

  lemma NoErrors(rx: nat, s: Rx, sent: seq<Sent>, i: nat, t: nat)
    requires rx >= 2 && Tracks(rx, s, sent, i, t)
    ensures !s.frameErr && !s.brk
  {
  }

  lemma NothingDue(rx: nat, sent: seq<Sent>)
    ensures Count(sent, 0 - Latency(rx) - 1) == 0
  {
    CountIsStarted(sent, 0 - Latency(rx) - 1);
  }

  /** A strobe adds the next frame's byte to those due; without one nothing falls due. */
  lemma StrobeDue(tx: nat, rx: nat, s: Rx, sent: seq<Sent>, c: nat, t: nat)
    requires Matches(tx, rx) && Spaced(tx, sent) && Delivers(rx, s, sent, c, t)
    ensures Bytes(sent[..Count(sent, t - Latency(rx))])
      == Bytes(sent[..Count(sent, t - Latency(rx) - 1)]) + if s.wr then [s.out] else []
  {
    hide Latency, Matches, Count, Delivers, Spaced;
    var m := Count(sent, t - Latency(rx) - 1);
    StrobeCounts(tx, rx, s, sent, c, t);
    if s.wr {
      assert sent[..m + 1] == sent[..m] + [sent[m]];
    }
  }

  lemma StrobeCounts(tx: nat, rx: nat, s: Rx, sent: seq<Sent>, c: nat, t: nat)
    requires Matches(tx, rx) && Spaced(tx, sent) && Delivers(rx, s, sent, c, t)
    ensures var m, m' := Count(sent, t - Latency(rx) - 1), Count(sent, t - Latency(rx));
      if s.wr then m' == m + 1 && s.out == sent[m].byte else m' == m
  {
    hide Latency, Matches, Count, Spaced;
    var m, m' := Count(sent, t - Latency(rx) - 1), Count(sent, t - Latency(rx));
    CountIsStarted(sent, t - Latency(rx) - 1);
    CountIsStarted(sent, t - Latency(rx));
    MatchedBits(tx, rx);
    OneMore(tx, sent, m, m', t - Latency(rx));
    if c > 0 {
      StrobedFrame(tx, sent, c, m, m', t - Latency(rx));
    } else if m' > 0 {
      LaterFrames(tx, sent, 0, m' - 1);
    }
  }

  lemma OneMore(tx: nat, sent: seq<Sent>, m: nat, m': nat, u: int)
    requires tx >= 3 && Spaced(tx, sent) && Started(sent, m, u - 1) && Started(sent, m', u)
    ensures m <= m' <= m + 1
  {
    if m + 1 < m' {
      MulMono(1, m' - 1 - m, 10 * tx);
      LaterFrames(tx, sent, m, m' - 1);
    }
    if m' < m {
      LaterFrames(tx, sent, m', m - 1);
    }
  }

  lemma MatchedBits(tx: nat, rx: nat)
    requires Matches(tx, rx)
    ensures tx >= 3
  {
  }

  lemma StrobedFrame(tx: nat, sent: seq<Sent>, c: nat, m: nat, m': nat, u: int)
    requires tx >= 3 && Spaced(tx, sent)
    requires c > 0 && Started(sent, c, u + 1) && Started(sent, m, u - 1) && Started(sent, m', u) && m <= m' <= m + 1
    ensures sent[c - 1].at == u <==> m' == m + 1
    ensures m' == m + 1 ==> c == m'
  {
    hide Spaced;
    if c < m' {
      LaterFrames(tx, sent, c, m' - 1);
    }
    if m' < c {
      LaterFrames(tx, sent, m', c - 1);
      if m' < c - 1 {
        LaterFrames(tx, sent, m', c - 2);
      }
      if m' > 0 {
        LaterFrames(tx, sent, m' - 1, c - 1);
      }
    }
  }

  // ---------------------------------------------------------------------------------------
  // From reset to listening
  // ---------------------------------------------------------------------------------------

  ghost predicate AfterReset(bauds: nat, s: Rx) {
    && !s.q && !s.qq && !s.ck && s.chg == 0 && !s.lineSynch && !s.halfTime && !s.brk
    && s.state == RESET_IDLE && s.baud == bauds - 1 && !s.zero && !s.preWr && !s.wr && !s.frameErr
  }

  /** t clocks after reset, the line high all the while. */
  ghost predicate Settling(bauds: nat, s: Rx, t: nat) {
    && s.q == (t >= 1) && s.qq == (t >= 2) && s.ck == (t >= 3)
    && s.chg == (if t < 3 then t else if t - 3 < 16 * bauds then t - 3 else 16 * bauds)
    && s.lineSynch == (t >= 16 * bauds + 4) && !s.brk && (t >= 4 ==> !s.halfTime)
    && s.state == (if t <= 16 * bauds + 4 then RESET_IDLE else IDLE) && s.baud == bauds - 1
    && (t >= 16 * bauds + 6 ==> !s.zero) && !s.preWr && !s.wr && !s.frameErr
  }

  /** After reset, sixteen bit times of a quiet line and the length of the synchroniser bring the receiver to listen. */
  lemma {:induction false} QuietLineListens(bauds: nat, s: Rx, quiet: nat)
    requires bauds >= 2 && AfterReset(bauds, s)
    ensures Settling(bauds, Run(bauds, s, High(quiet)), quiet)
    ensures quiet >= 16 * bauds + 6 ==> Listening(Run(bauds, s, High(quiet)))
    ensures quiet < 16 * bauds + 5 ==> !Listening(Run(bauds, s, High(quiet)))
  {
    hide Clock;
    if quiet > 0 {
      QuietLineListens(bauds, s, quiet - 1);
      assert High(quiet)[..quiet - 1] == High(quiet - 1);
      SettlingClock(bauds, Run(bauds, s, High(quiet - 1)), quiet - 1);
    }
  }

  function High(n: nat): seq<bool> { seq(n, _ => true) }

  lemma SettlingClock(bauds: nat, s: Rx, t: nat)
    requires bauds >= 2 && Settling(bauds, s, t)
    ensures Settling(bauds, Clock(bauds, s, true), t + 1)
  {
  }

  // ---------------------------------------------------------------------------------------
  // The registers, updated in place
  // ---------------------------------------------------------------------------------------

  class Receiver {
    const bauds: nat
    var q: bool
    var qq: bool
    var ck: bool
    var chg: nat
    var lineSynch: bool
    var halfTime: bool
    var brk: bool
    var state: nat
    var baud: nat
    var zero: bool
    var data: Byte
    var preWr: bool
    var wr: bool
    var out: Byte
    var frameErr: bool

    ghost predicate Valid() { bauds >= 2 }

    function Snapshot(): Rx
      reads this
    {
      Rx(q, qq, ck, chg, lineSynch, halfTime, brk, state, baud, zero, data, preWr, wr, out, frameErr)
    }

    /** After reset: waiting for the line to be high for longer than a character. */
    constructor (bauds: nat)
      requires bauds >= 2
      ensures Valid() && this.bauds == bauds && AfterReset(bauds, Snapshot())
    {
      this.bauds := bauds;
      q, qq, ck, chg, lineSynch, halfTime, brk := false, false, false, 0, false, false, false;
      state, baud, zero, preWr, wr, frameErr := RESET_IDLE, bauds - 1, false, false, false, false;
      data, out := seq(8, _ => false), seq(8, _ => false);
    }

    /** One rising edge; every register reads what the others held before it. */
    method Tick(line: bool)
      requires Valid()
      modifies this
      ensures Snapshot() == Clock(bauds, old(Snapshot()), line)
    {
      hide NextState, NextBaud, NextData, NextFrameErr, NextPreWr, HalfBaud;
      ghost var s := Snapshot();
      Deliver();
      Advance(s);
      Detect(line);
    }

    method Deliver()
      requires Valid()
      modifies `data, `preWr, `wr, `out, `frameErr
      ensures var s := old(Snapshot());
        && data == NextData(s) && preWr == NextPreWr(s) && frameErr == NextFrameErr(s)
        && wr == ((s.zero || s.state == IDLE) && s.preWr)
        && out == if s.zero && s.state == STOP then s.data else s.out
    {
      wr := (zero || state == IDLE) && preWr;
      if zero && state == STOP {
        preWr, out := true, data;
      } else if zero || state == IDLE {
        preWr := false;
      }
      if zero && (state == STOP || state == SECOND_STOP) {
        frameErr := frameErr || !ck;
      } else if zero || state >= RX_BREAK {
        frameErr := false;
      }
      if zero && state != PARITY {
        data := data[1..] + [ck];
      }
    }

    method Advance(ghost s: Rx)
      requires Valid() && s.state == state && s.baud == baud && s.zero == zero && s.ck == ck
      requires s.lineSynch == lineSynch && s.halfTime == halfTime && s.brk == brk
      modifies `state, `baud, `zero
      ensures state == NextState(s) && baud == NextBaud(bauds, s) && zero == (s.state != IDLE && s.baud == 1)
    {
      var at, ticked := state, zero;
      if at == RESET_IDLE {
        state := if lineSynch then IDLE else RESET_IDLE;
      } else if brk {
        state := RX_BREAK;
      } else if at == RX_BREAK {
        state := if ck then IDLE else RX_BREAK;
      } else if at == IDLE {
        state := if !ck && halfTime then 0 else IDLE;
      } else if ticked {
        state := if at < BIT_SEVEN then at + 1 else if at <= PARITY then STOP else if ck then IDLE else RESET_IDLE;
      }
      zero := at != IDLE && baud == 1;
      if ticked || at == RESET_IDLE || at == RX_BREAK || at == IDLE {
        baud := bauds - 1;
      } else {
        baud := Decrement(baud, 0x100_0000);
      }
    }

    method Detect(line: bool)
      requires Valid()
      modifies `q, `qq, `ck, `chg, `lineSynch, `halfTime, `brk
      ensures q == line && qq == old(q) && ck == old(qq)
      ensures chg == if old(qq) != old(ck) then 0 else if old(chg) < 16 * bauds then old(chg) + 1 else old(chg)
      ensures lineSynch == (old(chg) >= 16 * bauds && old(ck)) && brk == (old(chg) >= 16 * bauds && !old(ck))
      ensures halfTime == (!old(ck) && old(chg) >= HalfBaud(bauds))
    {
      halfTime := !ck && chg >= HalfBaud(bauds);
      lineSynch, brk := chg >= 16 * bauds && ck, chg >= 16 * bauds && !ck;
      if qq != ck {
        chg := 0;
      } else if chg < 16 * bauds {
        chg := chg + 1;
      }
      q, qq, ck := line, q, qq;
    }
  }
}
