/**
 The run-wide drop counter (src/quodeq/analysis/_drop_stats.py). Both operations
 hold the lock, so every interleaving of the worker threads is some sequence of
 them; nothing recorded is lost or counted twice in any such sequence.
 */
module DropStats {
  type Histogram = map<string, nat>

  function Count(h: Histogram, key: string): nat { if key in h then h[key] else 0 }

  datatype Stats = Stats(dropped: nat, kept: nat, reasons: Histogram)

  const NO_STATS := Stats(0, 0, map[])

  function Parsed(s: Stats): nat { s.dropped + s.kept }

  /** Fraction of parsed findings that was dropped; 0 when none was parsed. */
  function Ratio(s: Stats): real {
    if Parsed(s) == 0 then 0.0 else s.dropped as real / Parsed(s) as real
  }

  lemma Quotient(a: real, b: real)
    requires 0.0 <= a <= b && b > 0.0
    ensures 0.0 <= a / b <= 1.0
    ensures a / b == 0.0 <==> a == 0.0
    ensures a / b == 1.0 <==> a == b
  {
  }

  lemma RatioIsAFraction(s: Stats)
    ensures s.dropped + s.kept > 0 ==> Ratio(s) * (s.dropped + s.kept) as real == s.dropped as real
    ensures s.dropped + s.kept == 0 ==> Ratio(s) == 0.0
    ensures 0.0 <= Ratio(s) <= 1.0
    ensures Ratio(s) == 0.0 <==> s.dropped == 0
    ensures Ratio(s) == 1.0 <==> s.kept == 0 && s.dropped > 0
  {
    if Parsed(s) > 0 {
      Quotient(s.dropped as real, Parsed(s) as real);
    }
  }

  /** The histograms agree with `a` plus `b`, key by key. */
  ghost predicate IsSum(sum: Histogram, a: Histogram, b: Histogram) {
    forall key :: Count(sum, key) == Count(a, key) + Count(b, key)
  }

  ghost predicate StatsSum(sum: Stats, a: Stats, b: Stats) {
    sum.dropped == a.dropped + b.dropped && sum.kept == a.kept + b.kept && IsSum(sum.reasons, a.reasons, b.reasons)
  }

  class DropStatsCounter {
    var dropped: nat
    var kept: nat
    var reasons: Histogram

    constructor ()
      ensures Pending() == NO_STATS
    {
      dropped, kept, reasons := 0, 0, map[];
    }

    /** What has been recorded since the last consume. */
    function Pending(): Stats
      reads this
    {
      Stats(dropped, kept, reasons)
    }

    /** Fold one call's counts and reasons into the tally. */
    method Record(dropped: nat, kept: nat, reasons: Histogram)
      modifies this
      ensures StatsSum(Pending(), old(Pending()), Stats(dropped, kept, reasons))
    {
      this.dropped := this.dropped + dropped;
      this.kept := this.kept + kept;
      ghost var before := this.reasons;
      var todo := reasons.Keys;
      while todo != {}
        invariant todo <= reasons.Keys
        invariant forall key ::
          Count(this.reasons, key) == Count(before, key) + if key in todo then 0 else Count(reasons, key)
        invariant this.dropped == old(this.dropped) + dropped && this.kept == old(this.kept) + kept
        decreases todo
      {
        var key :| key in todo;
        this.reasons := this.reasons[key := Count(this.reasons, key) + reasons[key]];
        todo := todo - {key};
      }
    }

    /** Hand over the tally and start again from nothing. */
    method Consume() returns (stats: Stats)
      modifies this
      ensures stats == old(Pending()) && Pending() == NO_STATS
    {
      stats := Stats(dropped, kept, reasons);
      dropped, kept, reasons := 0, 0, map[];
    }
  }

  // -------------------------------------------------------- interleavings

  datatype Op = Recording(stats: Stats) | Consuming(got: Stats)

  /** A history of one counter: `states[i]` is what is pending before operation `i`. */
  ghost predicate History(ops: seq<Op>, states: seq<Stats>) {
    |states| == |ops| + 1 && states[0] == NO_STATS
    && forall i :: 0 <= i < |ops| ==>
         match ops[i]
         case Recording(s) => StatsSum(states[i + 1], states[i], s)
         case Consuming(got) => got == states[i] && states[i + 1] == NO_STATS
  }

  datatype Field = DroppedField | KeptField | ReasonField(key: string)

  function FieldOf(s: Stats, f: Field): nat {
    match f
    case DroppedField => s.dropped
    case KeptField => s.kept
    case ReasonField(key) => Count(s.reasons, key)
  }

  function RecordedTotal(ops: seq<Op>, f: Field): nat {
    if ops == [] then 0
    else
      var op := ops[|ops| - 1];
      RecordedTotal(ops[..|ops| - 1], f) + if op.Recording? then FieldOf(op.stats, f) else 0
  }

  function ConsumedTotal(ops: seq<Op>, f: Field): nat {
    if ops == [] then 0
    else
      var op := ops[|ops| - 1];
      ConsumedTotal(ops[..|ops| - 1], f) + if op.Consuming? then FieldOf(op.got, f) else 0
  }

  /** For each counter and each reason: what was handed out plus what is pending is what was recorded. */
  lemma {:induction false} NothingLostOrCountedTwice(ops: seq<Op>, states: seq<Stats>, f: Field)
    requires History(ops, states)
    ensures ConsumedTotal(ops, f) + FieldOf(states[|ops|], f) == RecordedTotal(ops, f)
  {
    if ops != [] {
      var n := |ops| - 1;
      NothingLostOrCountedTwice(ops[..n], states[..n + 1], f);
      match ops[n] {
        case Recording(s) => assert StatsSum(states[n + 1], states[n], s);
        case Consuming(_) =>
      }
    }
  }
}
