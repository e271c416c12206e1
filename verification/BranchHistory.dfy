/** The gshare branch predictor: two-bit counters indexed by address and history. */
module BranchHistory {
  import opened Words

  const BHT_SIZE := 4096

  type Table = t: seq<bv2> | |t| == BHT_SIZE witness seq(BHT_SIZE, _ => 0)

  /** A branch that left the execute stage: the index it was predicted under, and what it did. */
  datatype Outcome = Outcome(index: bv12, taken: bool)

  /** D_bhtIndex: the history, moved to the top of the index, is xored into the branch address. */
  function IndexOf(pc: Word, history: bv9): bv12 {
    (((pc >> 1) & 0xFFF) as bv12) ^ ((history as bv12) << 3)
  }

  /** The newest outcome enters the history at the top. */
  function Shifted(history: bv9, taken: bool): bv9 {
    (history >> 1) | if taken then 0x100 else 0
  }

  /** The two-bit counter of a branch: towards 3 when taken, towards 0 when not. */
  function Saturate(counter: bv2, taken: bool): (next: bv2)
    ensures taken ==> next > counter || next == counter == 3
    ensures !taken ==> next < counter || next == counter == 0
  {
    if taken then (if counter == 3 then 3 else counter + 1)
    else if counter == 0 then 0 else counter - 1
  }

  predicate Predicts(counter: bv2) { counter & 2 == 2 }

  function Update(table: Table, o: Outcome): Table {
    IndexInTable(o.index);
    table[Slot(o.index) := Saturate(table[Slot(o.index)], o.taken)]
  }

  function Slot(index: bv12): nat { index as nat }

  lemma IndexInTable(index: bv12)
    ensures Slot(index) < BHT_SIZE
  {
  }

  function UpdateAll(table: Table, outcomes: seq<Outcome>): Table {
    if outcomes == [] then table
    else Update(UpdateAll(table, outcomes[..|outcomes| - 1]), outcomes[|outcomes| - 1])
  }

  function HistoryAfter(history: bv9, outcomes: seq<Outcome>): bv9 {
    if outcomes == [] then history
    else Shifted(HistoryAfter(history, outcomes[..|outcomes| - 1]), outcomes[|outcomes| - 1].taken)
  }

  lemma UpdateMore(table: Table, history: bv9, outcomes: seq<Outcome>, o: Outcome)
    ensures UpdateAll(table, outcomes + [o]) == Update(UpdateAll(table, outcomes), o)
    ensures HistoryAfter(history, outcomes + [o]) == Shifted(HistoryAfter(history, outcomes), o.taken)
  {
    hide Update, Shifted;
    assert (outcomes + [o])[..|outcomes + [o]| - 1] == outcomes;
  }

  // ---------------------------------------------------------------------------------------
  // What the counters remember
  // ---------------------------------------------------------------------------------------

  /** The outcomes recorded under one index, oldest first. */
  function At(outcomes: seq<Outcome>, index: bv12): seq<bool> {
    if outcomes == [] then []
    else
      var o := outcomes[|outcomes| - 1];
      At(outcomes[..|outcomes| - 1], index) + if o.index == index then [o.taken] else []
  }

  function IndexAt(n: nat): bv12
    requires n < BHT_SIZE
  {
    n as bv12
  }

  lemma IndexBack(i: bv12)
    ensures Slot(i) < BHT_SIZE && IndexAt(Slot(i)) == i
  {
  }

  lemma SlotInjective(i: bv12, j: bv12)
    ensures Slot(i) == Slot(j) <==> i == j
  {
    hide Slot, IndexAt;
    IndexBack(i);
    IndexBack(j);
  }

  /** Two outcomes t at the end, or three before one that is not. */
  predicate Settled(outcomes: seq<bool>, t: bool) {
    var n := |outcomes|;
    || (n >= 2 && outcomes[n - 1] == t && outcomes[n - 2] == t)
    || (n >= 4 && outcomes[n - 1] != t && outcomes[n - 2] == t && outcomes[n - 3] == t && outcomes[n - 4] == t)
  }

  /** The counter of an index has seen exactly the outcomes under it. */
  function CounterAfter(counter: bv2, outcomes: seq<bool>): bv2 {
    if outcomes == [] then counter
    else Saturate(CounterAfter(counter, outcomes[..|outcomes| - 1]), outcomes[|outcomes| - 1])
  }

  lemma {:induction false} CounterOf(table: Table, outcomes: seq<Outcome>, index: bv12)
    ensures UpdateAll(table, outcomes)[Slot(index)] == CounterAfter(table[Slot(index)], At(outcomes, index))
  {
    hide Saturate, Slot;
    IndexInTable(index);
    if outcomes != [] {
      var o := outcomes[|outcomes| - 1];
      var earlier := outcomes[..|outcomes| - 1];
      CounterOf(table, earlier, index);
      IndexInTable(o.index);
      SlotInjective(o.index, index);
      if o.index == index {
        assert (At(earlier, index) + [o.taken])[..|At(earlier, index)|] == At(earlier, index);
      } else {
        assert At(outcomes, index) == At(earlier, index);
      }
    }
  }

  lemma CounterLast(counter: bv2, outcomes: seq<bool>, n: nat)
    requires 0 < n <= |outcomes|
    ensures CounterAfter(counter, outcomes[..n]) == Saturate(CounterAfter(counter, outcomes[..n - 1]), outcomes[n - 1])
  {
    hide Saturate;
    assert outcomes[..n][..n - 1] == outcomes[..n - 1];
  }

  lemma TwoAlike(c: bv2, t: bool)
    ensures Predicts(Saturate(Saturate(c, t), t)) == t
    ensures Predicts(Saturate(Saturate(Saturate(Saturate(c, t), t), t), !t)) == t
  {
  }

  /**
   Whatever the table held, two outcomes alike under an index settle the next prediction there,
   and after three alike a single other one does not change it.
   */
  lemma SettledPrediction(table: Table, outcomes: seq<Outcome>, index: bv12, t: bool)
    requires Settled(At(outcomes, index), t)
    ensures Slot(index) < BHT_SIZE && Predicts(UpdateAll(table, outcomes)[Slot(index)]) == t
  {
    hide Saturate, Predicts, CounterAfter, UpdateAll, At, Slot;
    IndexInTable(index);
    CounterOf(table, outcomes, index);
    var seen := At(outcomes, index);
    var n, c := |seen|, table[Slot(index)];
    assert seen[..n] == seen;
    CounterLast(c, seen, n);
    CounterLast(c, seen, n - 1);
    if seen[n - 1] == t {
      TwoAlike(CounterAfter(c, seen[..n - 2]), t);
    } else {
      CounterLast(c, seen, n - 2);
      CounterLast(c, seen, n - 3);
      TwoAlike(CounterAfter(c, seen[..n - 4]), t);
    }
  }

  // ---------------------------------------------------------------------------------------
  // What the index is made of
  // ---------------------------------------------------------------------------------------

  predicate HistoryBit(history: bv9, k: bv4) { k <= 8 && (history >> k) & 1 == 1 }

  lemma ShiftedBits(history: bv9, taken: bool, k: bv4)
    requires k <= 8
    ensures HistoryBit(Shifted(history, taken), k) <==> if k == 8 then taken else HistoryBit(history, k + 1)
  {
  }

  lemma Lower(k: bv4, j: nat)
    requires k <= 8 && j == 8 - k as nat && j > 0
    ensures k + 1 <= 8 && j - 1 == 8 - (k + 1) as nat
  {
  }

  /** The history is the last nine outcomes, the newest in its top bit. */
  lemma {:induction false} LastNine(history: bv9, outcomes: seq<Outcome>, k: bv4, j: nat)
    requires k <= 8 && j == 8 - k as nat && j < |outcomes|
    ensures HistoryBit(HistoryAfter(history, outcomes), k) == outcomes[|outcomes| - 1 - j].taken
    decreases j
  {
    hide Shifted, HistoryBit;
    var earlier := outcomes[..|outcomes| - 1];
    ShiftedBits(HistoryAfter(history, earlier), outcomes[|outcomes| - 1].taken, k);
    if j > 0 {
      Lower(k, j);
      LastNine(history, earlier, k + 1, j - 1);
    }
  }

  /** Bit k of the index is bit k + 1 of the address, changed by bit k - 3 of the history. */
  lemma IndexBits(pc: Word, history: bv9, k: bv4)
    requires k < 12
    ensures (IndexOf(pc, history) >> k) & 1 == 1 <==>
      (((pc >> 1) >> k) & 1 == 1) != (k >= 3 && HistoryBit(history, k - 3))
  {
  }
}
