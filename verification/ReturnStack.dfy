/** The four return-address registers against a call stack without a bound. */
module ReturnStack {
  import opened Isa
  import opened Words
  import opened Pipeline

  datatype Event = Call(returnTo: Word) | Return

  function Apply(ras: Ras, e: Event): Ras {
    match e
    case Call(pc) => Ras(pc, ras.r0, ras.r1, ras.r2)
    case Return => Ras(ras.r1, ras.r2, ras.r3, ras.r3)
  }

  function ApplyAll(ras: Ras, trace: seq<Event>): Ras {
    if trace == [] then ras else Apply(ApplyAll(ras, trace[..|trace| - 1]), trace[|trace| - 1])
  }

  function Register(ras: Ras, k: nat): Word
    requires k < 4
  {
    match k case 0 => ras.r0 case 1 => ras.r1 case 2 => ras.r2 case _ => ras.r3
  }

  /** The ideal stack, top first; returning from the empty stack leaves it empty. */
  function Ideal(trace: seq<Event>): seq<Word> {
    if trace == [] then []
    else
      var before := Ideal(trace[..|trace| - 1]);
      match trace[|trace| - 1]
      case Call(pc) => [pc] + before
      case Return => if before == [] then [] else before[1..]
  }

  /** How many of its top entries the registers still hold: calls beyond the fourth push entries out for good. */
  function ValidDepth(trace: seq<Event>): (v: nat)
    ensures v <= 4
  {
    if trace == [] then 0
    else
      var before := ValidDepth(trace[..|trace| - 1]);
      match trace[|trace| - 1]
      case Call(_) => if before == 4 then 4 else before + 1
      case Return => if before == 0 then 0 else before - 1
  }

  /** After any calls and returns, from any register contents, the valid entries are those of the ideal stack. */
  lemma {:induction false} AgreesWithIdeal(ras: Ras, trace: seq<Event>)
    ensures ValidDepth(trace) <= |Ideal(trace)|
    ensures forall k :: 0 <= k < ValidDepth(trace) ==> Register(ApplyAll(ras, trace), k) == Ideal(trace)[k]
  {
    if trace == [] {
    } else {
      var earlier := trace[..|trace| - 1];
      AgreesWithIdeal(ras, earlier);
      var before := ApplyAll(ras, earlier);
      match trace[|trace| - 1]
      case Call(pc) =>
        forall k | 0 <= k < ValidDepth(trace)
          ensures Register(ApplyAll(ras, trace), k) == Ideal(trace)[k]
        {
          assert k > 0 ==> Register(before, k - 1) == Ideal(earlier)[k - 1];
        }
      case Return =>
        forall k | 0 <= k < ValidDepth(trace)
          ensures Register(ApplyAll(ras, trace), k) == Ideal(trace)[k]
        {
          assert Register(before, k + 1) == Ideal(earlier)[k + 1];
        }
    }
  }

  /** The nesting depth after a trace, where it never returns below its start nor exceeds `limit`; or -1. */
  function Depth(trace: seq<Event>, limit: nat): int {
    if trace == [] then 0
    else
      var before := Depth(trace[..|trace| - 1], limit);
      if before < 0 then -1
      else match trace[|trace| - 1]
           case Call(_) => if before == limit then -1 else before + 1
           case Return => before - 1
  }

  /** The same without a limit: how many of the calls have not returned, or -1 after a return that is not theirs. */
  function Level(trace: seq<Event>): int {
    if trace == [] then 0
    else
      var before := Level(trace[..|trace| - 1]);
      if before < 0 then -1
      else if trace[|trace| - 1].Call? then before + 1 else before - 1
  }

  lemma {:induction false} HeldAtDepth(ras: Ras, pc: Word, body: seq<Event>)
    requires ras.r0 == pc && Depth(body, 3) >= 0
    ensures Depth(body, 3) <= 3 && Register(ApplyAll(ras, body), Depth(body, 3)) == pc
  {
    if body == [] {
    } else {
      HeldAtDepth(ras, pc, body[..|body| - 1]);
    }
  }

  /** None of the registers above the given one holds pc. */
  predicate Absent(ras: Ras, pc: Word, below: nat) {
    && (below > 0 ==> ras.r0 != pc) && (below > 1 ==> ras.r1 != pc)
    && (below > 2 ==> ras.r2 != pc) && (below > 3 ==> ras.r3 != pc)
  }

  /** Either the entry stands at its depth under entries of other calls, or it is gone for good. */
  lemma {:induction false} HeldOrGone(ras: Ras, pc: Word, body: seq<Event>)
    requires ras.r0 == pc && Level(body) >= 0 && Call(pc) !in body
    ensures var now := ApplyAll(ras, body);
      if Depth(body, 3) >= 0 then
        Depth(body, 3) == Level(body) <= 3 && Register(now, Depth(body, 3)) == pc && Absent(now, pc, Depth(body, 3))
      else Absent(now, pc, 4)
  {
    if body == [] {
    } else {
      HeldOrGone(ras, pc, body[..|body| - 1]);
      assert body[|body| - 1] in body;
    }
  }

  /**
   A call whose body returns from no other calls than its own, none of them to the same address,
   finds its return address on top exactly when they have all returned and no more than three of
   them were ever live at once.
   */
  lemma PredictedExactlyWhen(ras: Ras, pc: Word, body: seq<Event>)
    requires Level(body) >= 0 && Call(pc) !in body
    ensures ApplyAll(Apply(ras, Call(pc)), body).r0 == pc <==> Depth(body, 3) == 0
  {
    HeldOrGone(Apply(ras, Call(pc)), pc, body);
  }

  /** Calls to the same address do no harm: shallow nesting is enough for any body. */
  lemma ShallowReturnPredicted(ras: Ras, pc: Word, body: seq<Event>)
    requires Depth(body, 3) == 0
    ensures ApplyAll(Apply(ras, Call(pc)), body).r0 == pc
  {
    HeldAtDepth(Apply(ras, Call(pc)), pc, body);
  }

  /** For example: four live calls inside push the entry out, and the first of them is predicted instead. */
  lemma FourDeepForgets(ras: Ras, pc: Word, a: Word, b: Word, c: Word, e: Word)
    requires a != pc
    ensures var body := [Call(a), Call(b), Call(c), Call(e), Return, Return, Return, Return];
      ApplyAll(Apply(ras, Call(pc)), body).r0 == a != pc
  {
    var body := [Call(a), Call(b), Call(c), Call(e), Return, Return, Return, Return];
    var start := Apply(ras, Call(pc));
    assert body[..7][..6] == body[..6] && body[..6][..5] == body[..5] && body[..5][..4] == body[..4]
      && body[..4][..3] == body[..3] && body[..3][..2] == body[..2] && body[..2][..1] == body[..1];
    assert ApplyAll(start, body[..0]) == start;
    assert ApplyAll(start, body[..1]).r0 == a;
    assert ApplyAll(start, body[..2]).r1 == a;
    assert ApplyAll(start, body[..3]).r2 == a;
    assert ApplyAll(start, body[..4]).r3 == a;
    assert ApplyAll(start, body[..5]).r3 == a && ApplyAll(start, body[..5]).r2 == a;
    assert ApplyAll(start, body[..6]).r2 == a && ApplyAll(start, body[..6]).r1 == a;
    assert ApplyAll(start, body[..7]).r1 == a && ApplyAll(start, body[..7]).r0 == a;
  }
}
