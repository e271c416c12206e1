/** The matching condition of the round trip cannot be weakened: outside it some transmission is lost. */
module UartTightness {
  import opened Arith
  import opened UartLine
  import T = UartTransmitter
  import R = UartReceiver
  import UartLink

  // ---------------------------------------------------------------------------------------
  // The receiver samples by the clock alone
  // ---------------------------------------------------------------------------------------

  /** Once a start bit is recognised the receiver's timing no longer depends on the line. */
  ghost predicate Timed(bauds: nat, s: R.Rx, j: nat)
    requires bauds >= 2
  {
    && !s.brk && !s.frameErr && s.chg <= j
    && if j <= bauds / 2 then s.state == IDLE && s.halfTime == (j == bauds / 2) && !s.zero && s.chg == j
       else
         && (s.state <= BIT_SEVEN || s.state == STOP)
         && s.baud < bauds && (s.zero <==> s.baud == 0)
         && j == R.SampleTime(bauds, R.SampleNo(s)) - s.baud
  }

  lemma TimedClock(bauds: nat, s: R.Rx, j: nat, line: bool)
    requires bauds >= 2 && Timed(bauds, s, j) && j < R.StopSample(bauds)
    requires j <= bauds / 2 ==> !s.ck && (j < bauds / 2 ==> !s.qq)
    ensures Timed(bauds, R.Clock(bauds, s, line), j + 1)
  {
    hide R.SampleTime;
    if j > bauds / 2 {
      R.Samples(bauds, R.SampleNo(s));
      R.LastSample(bauds);
    } else {
      FirstSample(bauds);
    }
  }

  lemma FirstSample(bauds: nat)
    ensures R.SampleTime(bauds, 0) == bauds / 2 + bauds
  {
  }

  /** What the stop sample makes of a low line. */
  lemma StopIsLow(bauds: nat, s: R.Rx, line: bool)
    requires bauds >= 2 && Timed(bauds, s, R.StopSample(bauds)) && !s.ck
    ensures R.Clock(bauds, s, line).frameErr
  {
    hide R.SampleTime, R.StopSample;
    R.StopIsLate(bauds);
    R.LastSample(bauds);
    if s.state != STOP {
      R.Samples(bauds, s.state);
    }
  }

  /** A wave that falls after p quiet clocks, stays low for half a receiver bit and is low again at the stop sample. */
  ghost predicate LowAtStop(bauds: nat, wave: seq<bool>, p: nat)
  {
    && p + R.StopSample(bauds) + 4 <= |wave|
    && (forall k: nat :: k < p ==> wave[k])
    && (forall k: nat :: p <= k <= p + bauds / 2 ==> !wave[k])
    && !wave[p + R.StopSample(bauds)]
  }

  lemma {:induction false} QuietUntil(bauds: nat, s: R.Rx, wave: seq<bool>, p: nat, t: nat)
    requires bauds >= 2 && R.Listening(s) && LowAtStop(bauds, wave, p) && t <= p + 2
    ensures t <= |wave| && R.Quiet(R.Run(bauds, s, wave[..t])) && R.Synchronised(R.Run(bauds, s, wave[..t]), wave, t)
  {
    hide R.Clock, R.StopSample;
    if t == 0 {
      assert wave[..0] == [];
    } else {
      QuietUntil(bauds, s, wave, p, t - 1);
      assert wave[..t][..t - 1] == wave[..t - 1];
      QuietClock(bauds, R.Run(bauds, s, wave[..t - 1]), wave, t - 1);
    }
  }

  lemma QuietClock(bauds: nat, s: R.Rx, wave: seq<bool>, t: nat)
    requires bauds >= 2 && t < |wave| && R.Quiet(s) && R.Synchronised(s, wave, t) && s.qq
    ensures R.Quiet(R.Clock(bauds, s, wave[t])) && R.Synchronised(R.Clock(bauds, s, wave[t]), wave, t + 1)
  {
  }

  lemma {:induction false} TimedUntil(bauds: nat, s: R.Rx, wave: seq<bool>, p: nat, j: nat)
    requires bauds >= 2 && R.Listening(s) && LowAtStop(bauds, wave, p) && j <= R.StopSample(bauds)
    ensures p + 3 + j <= |wave|
    ensures var now := R.Run(bauds, s, wave[..p + 3 + j]);
      Timed(bauds, now, j) && R.Synchronised(now, wave, p + 3 + j)
  {
    hide R.Clock, R.StopSample, Timed;
    R.StopIsLate(bauds);
    var t := p + 2 + j;
    assert wave[..t + 1][..t] == wave[..t];
    var before := R.Run(bauds, s, wave[..t]);
    if j == 0 {
      QuietUntil(bauds, s, wave, p, t);
      FallingEdge(bauds, before, wave[t]);
    } else {
      TimedUntil(bauds, s, wave, p, j - 1);
      TimedClock(bauds, before, j - 1, wave[t]);
    }
    R.SynchronisedClock(bauds, before, wave, t);
  }

  lemma FallingEdge(bauds: nat, s: R.Rx, line: bool)
    requires bauds >= 2 && R.Quiet(s) && !s.qq
    ensures Timed(bauds, R.Clock(bauds, s, line), 0)
  {
  }

  lemma LowStopIsFrameError(bauds: nat, s: R.Rx, wave: seq<bool>, p: nat)
    requires bauds >= 2 && R.Listening(s) && LowAtStop(bauds, wave, p)
    ensures R.Run(bauds, s, wave[..p + R.StopSample(bauds) + 4]).frameErr
  {
    hide R.Clock, R.StopSample, Timed;
    var t := p + 3 + R.StopSample(bauds);
    TimedUntil(bauds, s, wave, p, R.StopSample(bauds));
    assert wave[..t + 1][..t] == wave[..t];
    StopIsLow(bauds, R.Run(bauds, s, wave[..t]), wave[t]);
  }

  // ---------------------------------------------------------------------------------------
  // A start bit too short for the receiver
  // ---------------------------------------------------------------------------------------

  /** One low pulse of n clocks after p quiet ones. */
  ghost predicate Pulse(wave: seq<bool>, p: nat, n: nat) {
    forall k: nat :: k < |wave| ==> (wave[k] <==> !(p <= k < p + n))
  }

  /** t clocks into the run the receiver has noticed nothing. */
  ghost predicate Unmoved(s: R.Rx, p: nat, n: nat, t: int) {
    var j := t - 3 - p;
    && s.state == IDLE && !s.zero && !s.preWr && !s.wr && !s.brk && !s.frameErr
    && (s.ck <==> !(0 <= j < n)) && (s.qq <==> !(0 <= j + 1 < n)) && (s.q <==> !(0 <= j + 2 < n))
    && (0 <= j < n ==> !s.halfTime && s.chg == j)
  }

  lemma UnmovedClock(bauds: nat, s: R.Rx, p: nat, n: nat, t: nat, line: bool)
    requires bauds >= 2 && n <= bauds / 2 && Unmoved(s, p, n, t) && (line <==> !(p <= t < p + n))
    ensures Unmoved(R.Clock(bauds, s, line), p, n, t + 1)
  {
  }

  lemma {:induction false} PulseUnheard(bauds: nat, s: R.Rx, wave: seq<bool>, p: nat, n: nat, t: nat)
    requires bauds >= 2 && R.Listening(s) && p >= 1 && n <= bauds / 2 && Pulse(wave, p, n) && t <= |wave|
    ensures Unmoved(R.Run(bauds, s, wave[..t]), p, n, t) && R.Received(bauds, s, wave[..t]) == []
  {
    hide R.Clock;
    if t == 0 {
      assert wave[..0] == [];
    } else {
      PulseUnheard(bauds, s, wave, p, n, t - 1);
      assert wave[..t][..t - 1] == wave[..t - 1];
      UnmovedClock(bauds, R.Run(bauds, s, wave[..t - 1]), p, n, t - 1, wave[t - 1]);
    }
  }

  // ---------------------------------------------------------------------------------------
  // Transmissions that go wrong
  // ---------------------------------------------------------------------------------------

  const ZEROS: Byte := [false, false, false, false, false, false, false, false]
  const ONES: Byte := [true, true, true, true, true, true, true, true]

  const READY := T.Tx(IDLE, 0, true, false, false, ZEROS, true)

  function Offer(d: Byte): T.Input { T.Input(true, d, true) }

  function Idle(n: nat): seq<T.Input> { seq(n, _ => T.Input(false, ZEROS, true)) }

  lemma {:induction false} IdleAcceptsNothing(tx: nat, ins: seq<T.Input>, n: nat)
    requires tx >= 3
    ensures T.Accepted(tx, READY, ins + Idle(n)) == T.Accepted(tx, READY, ins)
  {
    hide T.Clock;
    if n == 0 {
      assert ins + Idle(0) == ins;
    } else {
      IdleAcceptsNothing(tx, ins, n - 1);
      var all := ins + Idle(n);
      assert all[..|all| - 1] == ins + Idle(n - 1);
      assert !all[|all| - 1].wr;
    }
  }

  /** One byte, offered at once. */
  lemma LoneByte(tx: nat, d: Byte, n: nat)
    requires tx >= 3
    ensures T.Accepted(tx, READY, [Offer(d)] + Idle(n)) == [Sent(1, d)]
  {
    IdleAcceptsNothing(tx, [Offer(d)], n);
    assert [Offer(d)][..0] == [];
    assert T.Accepted(tx, READY, []) == [] && T.Run(tx, READY, []) == READY;
  }

  /** Ten bit times after it was offered, the transmitter is free again. */
  lemma FreeAgain(tx: nat, d: Byte)
    requires tx >= 3
    ensures !T.Run(tx, READY, [Offer(d)] + Idle(10 * tx - 1)).busy
  {
    hide T.Accepted;
    var ins := [Offer(d)] + Idle(10 * tx - 1);
    var before := [Offer(d)] + Idle(10 * tx - 2);
    assert ins[..|ins| - 1] == before;
    LoneByte(tx, d, 10 * tx - 2);
    T.RunStands(tx, READY, before);
    var s := T.Run(tx, READY, before);
    assert T.InFrame(tx, s, d, 10 * tx - 2);
    assert s.zero && s.state == IDLE && s.busy;
  }

  /** Two bytes back to back. */
  function Pair(tx: nat, d: Byte, e: Byte, n: nat): seq<T.Input>
    requires tx >= 3
  {
    [Offer(d)] + Idle(10 * tx - 1) + [Offer(e)] + Idle(n)
  }

  lemma PairAccepted(tx: nat, d: Byte, e: Byte, n: nat)
    requires tx >= 3
    ensures T.Accepted(tx, READY, Pair(tx, d, e, n)) == [Sent(1, d), Sent(10 * tx + 1, e)]
  {
    hide T.Run, T.Clock;
    var first := [Offer(d)] + Idle(10 * tx - 1);
    IdleAcceptsNothing(tx, first + [Offer(e)], n);
    assert (first + [Offer(e)])[..|first|] == first;
    LoneByte(tx, d, 10 * tx - 1);
    FreeAgain(tx, d);
  }

  // ---------------------------------------------------------------------------------------
  // Outside the condition
  // ---------------------------------------------------------------------------------------

  /** The receiver has heard exactly the bytes due by the end of the run, and without a frame error. */
  ghost predicate Intact(tx: nat, rx: nat, a: T.Tx, b: R.Rx, ins: seq<T.Input>)
    requires tx >= 3 && rx >= 2
  {
    && UartLink.Heard(tx, rx, a, b, ins)
         == R.Bytes(T.Accepted(tx, a, ins)[..R.Count(T.Accepted(tx, a, ins), |ins| - R.Latency(rx) - 1)])
    && !R.Run(rx, b, T.Wave(tx, a, ins)).frameErr
  }

  /** The level of a frame of d, j clocks after its start bit. */
  lemma FrameLevelAt(tx: nat, ins: seq<T.Input>, sent: seq<Sent>, i: nat, t: nat)
    requires tx >= 3 && T.Accepted(tx, READY, ins) == sent && t < |ins| && Started(sent, i, t)
    ensures T.Wave(tx, READY, ins)[t] == Level(tx, sent, i, t)
  {
    hide T.Wave, T.Accepted;
    T.WaveIsFrames(tx, READY, ins, i, t);
  }

  /** Too fast a receiver takes the last zero of a byte for the stop bit. */
  lemma FastReceiver(tx: nat, rx: nat, b: R.Rx) returns (ins: seq<T.Input>)
    requires tx >= 3 && rx >= 2 && R.StopSample(rx) < 9 * tx && R.Listening(b)
    ensures !Intact(tx, rx, READY, b, ins)
  {
    hide T.Wave, T.Accepted, T.Run, R.Run, R.Received, R.Listening;
    var p, stop := 1, R.StopSample(rx);
    ins := [Offer(ZEROS)] + Idle(stop + 4);
    var wave := T.Wave(tx, READY, ins);
    LoneByte(tx, ZEROS, stop + 4);
    forall t: nat | t < |wave| && t < 9 * tx + 1
      ensures wave[t] == (t == 0)
    {
      FrameLevelAt(tx, ins, [Sent(1, ZEROS)], if t == 0 then 0 else 1, t);
      if t > 0 {
        LowByte(tx, t - 1);
      }
    }
    assert wave[..p + stop + 4] == wave;
    LowStopIsFrameError(rx, b, wave, p);
  }

  lemma LowByte(tx: nat, j: nat)
    requires tx > 0 && j < 9 * tx
    ensures !FrameBit(ZEROS, j / tx)
  {
    var k := j / tx;
    assert j == k * tx + j % tx;
    if k >= 9 {
      MulMono(9, k, tx);
    }
  }

  lemma HighByte(tx: nat, j: nat)
    requires tx > 0
    ensures FrameBit(ONES, j / tx) <==> j >= tx
  {
    if j >= tx {
      LevelHigh(tx, j, 1);
    } else {
      DivUnique(j, tx, 0, j);
    }
  }

  /** Too slow a receiver does not see a start bit at all. */
  lemma DeafReceiver(tx: nat, rx: nat, b: R.Rx) returns (ins: seq<T.Input>)
    requires tx >= 3 && rx >= 2 && tx <= rx / 2 && R.Listening(b)
    ensures !Intact(tx, rx, READY, b, ins)
  {
    hide T.Wave, T.Accepted, T.Run, R.Run, R.Received, R.Listening, R.StopSample;
    ins := [Offer(ONES)] + Idle(R.Latency(rx) + 1);
    var wave, sent := T.Wave(tx, READY, ins), [Sent(1, ONES)];
    LoneByte(tx, ONES, R.Latency(rx) + 1);
    forall t: nat | t < |wave|
      ensures wave[t] <==> !(1 <= t < 1 + tx)
    {
      FrameLevelAt(tx, ins, sent, if t == 0 then 0 else 1, t);
      if t > 0 {
        HighByte(tx, t - 1);
      }
    }
    PulseUnheard(rx, b, wave, 1, tx, |wave|);
    assert wave[..|wave|] == wave;
    assert R.Count(sent, |ins| - R.Latency(rx) - 1) == 1;
    assert |R.Bytes(sent[..1])| == 1;
  }

  /** A slow one that does takes the next start bit, or a zero after it, for the stop bit. */
  lemma SlowReceiver(tx: nat, rx: nat, b: R.Rx) returns (ins: seq<T.Input>)
    requires tx >= 3 && rx >= 2 && rx / 2 < tx && R.StopSample(rx) >= 10 * tx && R.Listening(b)
    ensures !Intact(tx, rx, READY, b, ins)
  {
    hide T.Wave, T.Accepted, T.Run, R.Run, R.Received, R.Listening;
    var stop := R.StopSample(rx);
    SlowStop(tx, rx);
    var n := stop + 5 - 10 * tx - 1;
    ins := Pair(tx, ONES, ZEROS, n);
    var wave, sent := T.Wave(tx, READY, ins), [Sent(1, ONES), Sent(10 * tx + 1, ZEROS)];
    PairAccepted(tx, ONES, ZEROS, n);
    forall t: nat | t < |wave| && t <= 10 * tx
      ensures wave[t] <==> !(1 <= t < 1 + tx)
    {
      FrameLevelAt(tx, ins, sent, if t == 0 then 0 else 1, t);
      if t > 0 {
        HighByte(tx, t - 1);
      }
    }
    FrameLevelAt(tx, ins, sent, 2, 1 + stop);
    LowByte(tx, stop - 10 * tx);
    assert wave[..1 + stop + 4] == wave;
    LowStopIsFrameError(rx, b, wave, 1);
  }

  lemma SlowStop(tx: nat, rx: nat)
    requires rx / 2 < tx
    ensures R.StopSample(rx) < 19 * tx
  {
  }

  /**
   The round trip holds for every transmitter at rest, every listening receiver and every run
   exactly when the bit times match.
   */
  lemma RoundTripExactlyWhen(tx: nat, rx: nat)
    requires tx >= 3 && rx >= 2
    ensures R.Matches(tx, rx) <==>
      forall a: T.Tx, b: R.Rx, ins: seq<T.Input> :: T.Resting(a) && R.Listening(b) ==> Intact(tx, rx, a, b, ins)
  {
    hide Intact;
    if R.Matches(tx, rx) {
      forall a: T.Tx, b: R.Rx, ins: seq<T.Input> | T.Resting(a) && R.Listening(b)
        ensures Intact(tx, rx, a, b, ins)
      {
        MatchingIsIntact(tx, rx, a, b, ins);
      }
    } else {
      var b := R.Rx(true, true, true, 0, false, false, false, IDLE, 0, false, ZEROS, false, false, ZEROS, false);
      var ins;
      if R.StopSample(rx) < 9 * tx {
        ins := FastReceiver(tx, rx, b);
      } else if tx <= rx / 2 {
        ins := DeafReceiver(tx, rx, b);
      } else {
        ins := SlowReceiver(tx, rx, b);
      }
      assert T.Resting(READY) && R.Listening(b) && !Intact(tx, rx, READY, b, ins);
    }
  }

  lemma MatchingIsIntact(tx: nat, rx: nat, a: T.Tx, b: R.Rx, ins: seq<T.Input>)
    requires R.Matches(tx, rx) && T.Resting(a) && R.Listening(b)
    ensures Intact(tx, rx, a, b, ins)
  {
    UartLink.RoundTrip(tx, rx, a, b, ins);
  }
}
