/** Transmitter and receiver back to back, their clocks per bit allowed to differ. */
module UartLink {
  import opened UartLine
  import opened UartTransmitter
  import opened UartReceiver

  /** The bytes a receiver strobes out while the transmitter runs, the line between them. */
  function Heard(tx: nat, rx: nat, a: Tx, b: Rx, ins: seq<Input>): seq<Byte>
    requires tx >= 3 && rx >= 2
  {
    Received(rx, b, Wave(tx, a, ins))
  }

  lemma WaveCarries(tx: nat, a: Tx, ins: seq<Input>)
    requires tx >= 3 && Resting(a)
    ensures Carries(tx, Wave(tx, a, ins), Accepted(tx, a, ins)) && Spaced(tx, Accepted(tx, a, ins))
  {
    hide Wave, Accepted, Level, Spaced;
    var wave, sent := Wave(tx, a, ins), Accepted(tx, a, ins);
    forall i: nat, t | 0 <= t < |wave| && Started(sent, i, t)
      ensures wave[t] == Level(tx, sent, i, t)
    {
      WaveIsFrames(tx, a, ins, i, t);
    }
    RunStands(tx, a, ins);
    StandsSpaced(tx, UartTransmitter.Run(tx, a, ins), sent, |ins|);
  }

  /**
   The round trip, for every run: whatever is offered to the transmitter and however it is held
   up, the receiver has at every moment strobed out exactly the bytes accepted more than a fixed
   latency before, each once, unchanged and in order, with no frame error; provided only that
   nine and a half receiver bits end within the tenth transmitter bit.
   */
  lemma RoundTrip(tx: nat, rx: nat, a: Tx, b: Rx, ins: seq<Input>)
    requires Matches(tx, rx) && Resting(a) && Listening(b)
    ensures Heard(tx, rx, a, b, ins)
      == Bytes(Accepted(tx, a, ins)[..Count(Accepted(tx, a, ins), |ins| - Latency(rx) - 1)])
    ensures !UartReceiver.Run(rx, b, Wave(tx, a, ins)).frameErr
  {
    hide Wave, Accepted, Received, Carries, Spaced, Latency, Listening, StopSample;
    WaveCarries(tx, a, ins);
    var wave := Wave(tx, a, ins);
    assert wave[..|ins|] == wave;
    ReceivedIsSent(tx, rx, b, wave, Accepted(tx, a, ins), |ins|);
  }

  /** Once the line has been left alone for a frame and the latency, everything has arrived. */
  lemma AllArrives(tx: nat, rx: nat, a: Tx, b: Rx, ins: seq<Input>)
    requires Matches(tx, rx) && Resting(a) && Listening(b)
    requires var sent := Accepted(tx, a, ins); sent == [] || |ins| > sent[|sent| - 1].at + 10 * tx + 4
    ensures Heard(tx, rx, a, b, ins) == Bytes(Accepted(tx, a, ins))
  {
    hide Wave, Accepted, Heard;
    RoundTrip(tx, rx, a, b, ins);
    var sent := Accepted(tx, a, ins);
    assert sent[..|sent|] == sent;
  }
}
