/** Frames of eight data bits, no parity and one stop bit on a serial line that rests high. */
module UartLine {
  import opened Arith

  /** Eight bits, the least significant first: the order in which they are sent. */
  type Byte = s: seq<bool> | |s| == 8 witness [false, false, false, false, false, false, false, false]

  const BIT_SEVEN := 7
  const PARITY := 8
  const STOP := 9
  const IDLE := 15

  /** Counters of the given number of values wrap below zero. */
  function Decrement(x: nat, values: nat): nat
    requires values > 0
  {
    if x == 0 then values - 1 else x - 1
  }

  /** A start bit, the data, and a high line from the stop bit on. */
  function FrameBit(d: Byte, k: int): bool {
    if k <= 0 then false else if k <= 8 then d[k - 1] else true
  }

  /** A frame on the line: the first clock of its start bit, and its byte. */
  datatype Sent = Sent(at: nat, byte: Byte)

  /** i frames have started by time t, seen through a delay. */
  predicate Started(sent: seq<Sent>, i: nat, t: int) {
    i <= |sent| && (i > 0 ==> sent[i - 1].at <= t) && (i < |sent| ==> t < sent[i].at)
  }

  /** The level at time t when i frames have started: the line rests high before the first. */
  function Level(bauds: nat, sent: seq<Sent>, i: nat, t: int): bool
    requires bauds > 0 && i <= |sent|
  {
    i == 0 || FrameBit(sent[i - 1].byte, (t - sent[i - 1].at) / bauds)
  }

  /** Frames last ten bit times, and none begins before the previous one is over. */
  predicate Spaced(bauds: nat, sent: seq<Sent>) {
    forall i :: 0 < i < |sent| ==> sent[i].at >= sent[i - 1].at + 10 * bauds
  }

  lemma LevelHigh(bauds: nat, j: nat, k: nat)
    requires bauds > 0 && j >= k * bauds
    ensures j / bauds >= k
  {
    if j / bauds < k {
      MulMono(j / bauds + 1, k, bauds);
    }
  }

  lemma OneFrame(bauds: nat, sent: seq<Sent>, i: nat, k: nat, t: int)
    requires Spaced(bauds, sent) && Started(sent, i, t) && Started(sent, k, t)
    ensures i == k
  {
    if i < k {
      LaterFrames(bauds, sent, i, k - 1);
    } else if k < i {
      LaterFrames(bauds, sent, k, i - 1);
    }
  }

  lemma {:induction false} LaterFrames(bauds: nat, sent: seq<Sent>, i: nat, k: nat)
    requires Spaced(bauds, sent) && i <= k < |sent|
    ensures sent[k].at >= sent[i].at + (k - i) * 10 * bauds
    decreases k - i
  {
    if i < k {
      LaterFrames(bauds, sent, i, k - 1);
      assert (k - i) * 10 * bauds == (k - 1 - i) * 10 * bauds + 10 * bauds;
    } else {
      assert (k - i) * 10 * bauds == 0;
    }
  }
}
