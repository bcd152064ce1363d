/**
 Backlog order and per-dimension deadline slices (src/quodeq/analysis/_dim_order.py).

 Times are reals: floating-point rounding is not modelled. The main results
 speak about a whole run: `starts[i]` is when dimension i begins, and a run is
 obedient when each dimension stops by its own slice.
 */
module DimOrder {
  import opened Prelude
  import opened StableSort

  // ---------------------------------------------------------------- ranking

  /** The decoded `count` of an estimate: Python's bool is an int, but is not accepted as one. */
  datatype CountField = IntCount(value: int) | BoolCount(flag: bool) | OtherCount

  datatype Estimate = Malformed | Estimate(incremental: bool, count: CountField)

  /** The pending files of a rankable estimate; a negative count is none. */
  function PendingCount(e: Estimate): (n: nat)
    requires e.Estimate? && e.count.IntCount?
    ensures n >= e.count.value && (n == 0 || n == e.count.value)
  {
    if e.count.value < 0 then 0 else e.count.value
  }

  /** Its estimate is there, is for an incremental run, and counts with an integer that is not a bool. */
  predicate Rankable(dim: string, estimates: map<string, Estimate>) {
    dim in estimates && estimates[dim].Estimate? && estimates[dim].incremental
    && estimates[dim].count.IntCount?
  }

  /** Pending file count per dimension, or None when any dimension cannot be ranked. */
  method BacklogCounts(dimensions: seq<string>, estimates: Option<map<string, Estimate>>)
    returns (counts: Option<map<string, int>>)
    ensures counts.Some? <==> estimates.Some? && estimates.value != map[] && forall d <- dimensions ::
      d in estimates.value && estimates.value[d].Estimate? && estimates.value[d].incremental
      && estimates.value[d].count.IntCount?
    ensures counts.Some? ==> forall d :: d in counts.value <==> d in dimensions
    ensures counts.Some? ==> forall d <- dimensions :: counts.value[d] == PendingCount(estimates.value[d])
  {
    if estimates.None? || estimates.value == map[] {
      return None;
    }
    var tally: map<string, int> := map[];
    for i := 0 to |dimensions|
      invariant forall d :: d in tally <==> d in dimensions[..i]
      invariant forall d <- dimensions[..i] ::
        Rankable(d, estimates.value) && tally[d] == PendingCount(estimates.value[d])
    {
      var dim := dimensions[i];
      if !Rankable(dim, estimates.value) {
        return None;
      }
      tally := tally[dim := PendingCount(estimates.value[dim])];
      assert dimensions[..i + 1] == dimensions[..i] + [dim];
    }
    assert dimensions[..|dimensions|] == dimensions;
    return Some(tally);
  }

  /** Biggest backlog first; ties, and unrankable estimates, keep the configured order. */
  method OrderByBacklog(dimensions: seq<string>, estimates: Option<map<string, Estimate>>)
    returns (ordered: seq<string>, counts: Option<map<string, int>>)
    ensures counts.None? ==> ordered == dimensions
    ensures counts.Some? ==> IsStableSort(counts.value, dimensions, ordered)
    ensures counts.Some? ==> forall i, j :: 0 <= i < j < |ordered| ==>
      ordered[i] in counts.value && ordered[j] in counts.value
      && counts.value[ordered[i]] >= counts.value[ordered[j]]
    ensures multiset(ordered) == multiset(dimensions)
    ensures counts.Some? <==> estimates.Some? && estimates.value != map[] && forall d <- dimensions ::
      d in estimates.value && estimates.value[d].Estimate? && estimates.value[d].incremental
      && estimates.value[d].count.IntCount?
    ensures counts.Some? ==> forall d :: d in counts.value <==> d in dimensions
    ensures counts.Some? ==> forall d <- dimensions :: counts.value[d] == PendingCount(estimates.value[d])
  {
    counts := BacklogCounts(dimensions, estimates);
    if counts.None? {
      return dimensions, None;
    }
    ordered := SortDescending(counts.value, dimensions);
    SortIsStable(counts.value, dimensions);
    forall i, j | 0 <= i < j < |ordered|
      ensures ordered[i] in counts.value && ordered[j] in counts.value
        && counts.value[ordered[i]] >= counts.value[ordered[j]]
    {
      assert ordered[i] in multiset(ordered) && ordered[j] in multiset(ordered);
      StableSortMeans(counts.value, dimensions, ordered, i, j);
    }
  }

  // --------------------------------------------------------------- deadlines

  /** Seconds reserved for every dimension still to run. */
  const MIN_DIM_BUDGET: real := 60.0

  function Min(a: real, b: real): real { if a <= b then a else b }

  function Max(a: real, b: real): real { if a >= b then a else b }

  function Sum(counts: seq<nat>): nat {
    if counts == [] then 0 else counts[0] + Sum(counts[1..])
  }

  /** The proportion of the splittable budget that the dimension about to run is due. */
  function Share(counts: seq<nat>, dims: nat): real
    requires dims >= 1
  {
    if counts != [] && Sum(counts) > 0 then counts[0] as real / Sum(counts) as real
    else 1.0 / dims as real
  }

  /** What the other `dims - 1` dimensions are guaranteed before anything is split. */
  function Reserve(dims: nat): real
    requires dims >= 1
  {
    MIN_DIM_BUDGET * (dims - 1) as real
  }

  /** Seconds for the dimension about to run, out of a positive budget. */
  function Slice(budget: real, counts: seq<nat>, dims: nat): real
    requires dims >= 1
  {
    if budget <= Reserve(dims) then budget / dims as real
    else Max((budget - Reserve(dims)) * Share(counts, dims), Min(MIN_DIM_BUDGET, budget))
  }

  function DimensionDeadline(now: real, runDeadline: real, counts: seq<nat>, remainingDims: nat): real {
    var budget := runDeadline - now;
    if budget <= 0.0 then runDeadline
    else Min(now + Slice(budget, counts, if remainingDims >= 1 then remainingDims else 1), runDeadline)
  }

  /** The sum is the total of the entries, in whatever pieces they are added. */
  lemma {:induction false} SumIsTheTotal(a: seq<nat>, b: seq<nat>, n: nat)
    ensures Sum(a + b) == Sum(a) + Sum(b) && Sum([n]) == n
  {
    assert Sum([n]) == n + Sum([]);
    if a == [] {
      assert a + b == b;
    } else {
      assert (a + b)[1..] == a[1..] + b;
      SumIsTheTotal(a[1..], b, n);
    }
  }

  /** The proportion a dimension is due: its part of the known backlog, else an equal one. */
  lemma ShareIsItsPart(counts: seq<nat>, dims: nat)
    requires dims >= 1
    ensures counts != [] && Sum(counts) > 0 ==> Share(counts, dims) * Sum(counts) as real == counts[0] as real
    ensures counts == [] || Sum(counts) == 0 ==> Share(counts, dims) * dims as real == 1.0
  {
  }

  /**
   A slice is an equal share of a budget that holds only the others' floors; of a larger
   one it is the due proportion of what is not reserved, unless that is below the floor.
   */
  lemma SliceIsItsShare(budget: real, counts: seq<nat>, dims: nat)
    requires dims >= 1 && budget > 0.0
    ensures var slice, share := Slice(budget, counts, dims), Share(counts, dims);
      var rest := budget - 60.0 * (dims - 1) as real;
      var floor := if budget <= 60.0 then budget else 60.0;
      && (rest <= 0.0 ==> slice * dims as real == budget)
      && (rest > 0.0 ==>
           slice >= rest * share && slice >= floor && (slice == rest * share || slice == floor))
  {
  }

  lemma ScaleByFraction(x: real, f: real) returns (part: real)
    requires 0.0 <= x && 0.0 <= f <= 1.0
    ensures part == x * f && 0.0 <= part <= x
  {
    part := x * f;
  }

  lemma FractionBounds(a: real, b: real)
    requires 0.0 <= a <= b && 0.0 < b
    ensures 0.0 <= a / b <= 1.0
  {
  }

  lemma SelfQuotient(a: real)
    requires a > 0.0
    ensures a / a == 1.0
  {
  }

  lemma ShareIsAFraction(counts: seq<nat>, dims: nat)
    requires dims >= 1
    ensures 0.0 <= Share(counts, dims) <= 1.0
    ensures |counts| <= 1 && dims == 1 ==> Share(counts, dims) == 1.0
  {
    if counts != [] && Sum(counts) > 0 {
      FractionBounds(counts[0] as real, Sum(counts) as real);
      if |counts| == 1 {
        assert Sum(counts[1..]) == 0;
        SelfQuotient(counts[0] as real);
      }
    } else {
      FractionBounds(1.0, dims as real);
    }
  }

  /** The proportional branch: `portion` is this dimension's part of what the reserve leaves. */
  lemma SplitSliceBounds(budget: real, reserve: real, portion: real)
    requires 0.0 <= reserve < budget && 0.0 <= portion <= budget - reserve
    ensures var slice := Max(portion, Min(MIN_DIM_BUDGET, budget));
      && 0.0 < slice <= budget
      && (reserve >= MIN_DIM_BUDGET ==> slice < budget)
      && (budget >= reserve + MIN_DIM_BUDGET ==> slice >= MIN_DIM_BUDGET && budget - slice >= reserve)
      && (reserve == 0.0 && portion == budget ==> slice == budget)
  {
  }

  lemma EqualShareBounds(budget: real, dims: real)
    requires budget > 0.0 && dims > 1.0
    ensures 0.0 < budget / dims < budget
  {
  }

  /**
   One slice: positive, within the budget, at least the floor once everyone's floor
   fits, and then it never eats into the floors of the dimensions behind it.
   */
  lemma SliceBounds(budget: real, counts: seq<nat>, dims: nat)
    requires dims >= 1 && budget > 0.0
    ensures 0.0 < Slice(budget, counts, dims) <= budget
    ensures budget >= MIN_DIM_BUDGET * dims as real ==>
      Slice(budget, counts, dims) >= MIN_DIM_BUDGET && budget - Slice(budget, counts, dims) >= Reserve(dims)
    ensures dims > 1 ==> Slice(budget, counts, dims) < budget
    ensures dims == 1 && |counts| <= 1 ==> Slice(budget, counts, dims) == budget
  {
    var reserve := Reserve(dims);
    if budget <= reserve {
      EqualShareBounds(budget, dims as real);
    } else {
      ShareIsAFraction(counts, dims);
      var portion := ScaleByFraction(budget - reserve, Share(counts, dims));
      SplitSliceBounds(budget, reserve, portion);
    }
  }

  // ------------------------------------------------------------- whole runs

  function CountOf(counts: map<string, nat>, dim: string): nat {
    if dim in counts then counts[dim] else 0
  }

  /** What `apply_dim_deadline` passes on: the counts of the dimensions left, absent when unknown. */
  function RemainingCounts(counts: Option<map<string, nat>>, remaining: seq<string>): (r: seq<nat>)
    ensures |r| <= |remaining|
    ensures counts.Some? && counts.value != map[] ==> |r| == |remaining|
    ensures forall i :: 0 <= i < |r| ==>
      counts.Some? && r[i] == if remaining[i] in counts.value then counts.value[remaining[i]] else 0
  {
    if counts.None? || counts.value == map[] then []
    else seq(|remaining|, i requires 0 <= i < |remaining| => CountOf(counts.value, remaining[i]))
  }

  /** When dimension `i` must stop, if it starts at `now`. */
  function SliceEnd(dims: seq<string>, counts: Option<map<string, nat>>, runDeadline: real, i: nat, now: real): real
    requires i < |dims|
  {
    DimensionDeadline(now, runDeadline, RemainingCounts(counts, dims[i..]), |dims| - i)
  }

  /** Every dimension stops by its own slice, and the clock does not run backwards. */
  ghost predicate Obedient(
    dims: seq<string>, counts: Option<map<string, nat>>, runDeadline: real, starts: seq<real>)
  {
    |starts| == |dims|
    && forall i :: 0 < i < |dims| ==>
      starts[i - 1] <= starts[i] <= SliceEnd(dims, counts, runDeadline, i - 1, starts[i - 1])
  }

  ghost predicate EveryoneGetsTheFloor(
    dims: seq<string>, counts: Option<map<string, nat>>, runDeadline: real, starts: seq<real>)
    requires |starts| == |dims|
  {
    forall i :: 0 <= i < |dims| ==>
      SliceEnd(dims, counts, runDeadline, i, starts[i]) - starts[i] >= MIN_DIM_BUDGET
  }

  lemma {:induction false} ReserveSurvives(
    dims: seq<string>, counts: Option<map<string, nat>>, runDeadline: real, starts: seq<real>, i: nat)
    requires Obedient(dims, counts, runDeadline, starts) && i < |dims|
    requires runDeadline - starts[0] >= MIN_DIM_BUDGET * |dims| as real
    ensures runDeadline - starts[i] >= MIN_DIM_BUDGET * (|dims| - i) as real
  {
    if i > 0 {
      ReserveSurvives(dims, counts, runDeadline, starts, i - 1);
      SliceBounds(runDeadline - starts[i - 1], RemainingCounts(counts, dims[i - 1..]), |dims| - (i - 1));
    }
  }

  /**
   No dimension starves: from any positive budget, every dimension of an obedient
   run gets a positive slice inside the run, and the last slice ends at the deadline.
   */
  lemma {:induction false} NoDimensionStarves(
    dims: seq<string>, counts: Option<map<string, nat>>, runDeadline: real, starts: seq<real>, i: nat)
    requires Obedient(dims, counts, runDeadline, starts) && i < |dims|
    requires starts[0] < runDeadline
    ensures starts[i] < SliceEnd(dims, counts, runDeadline, i, starts[i]) <= runDeadline
    ensures i == |dims| - 1 ==> SliceEnd(dims, counts, runDeadline, i, starts[i]) == runDeadline
  {
    if i > 0 {
      NoDimensionStarves(dims, counts, runDeadline, starts, i - 1);
      SliceBounds(runDeadline - starts[i - 1], RemainingCounts(counts, dims[i - 1..]), |dims| - (i - 1));
    }
    SliceBounds(runDeadline - starts[i], RemainingCounts(counts, dims[i..]), |dims| - i);
  }

  /** A used-up budget is not sliced: the guard finds the run deadline itself, already reached. */
  lemma SpentBudgetStops(dims: seq<string>, counts: Option<map<string, nat>>, runDeadline: real, i: nat, now: real)
    requires i < |dims| && runDeadline <= now
    ensures SliceEnd(dims, counts, runDeadline, i, now) == runDeadline
  {
  }

  /** The run in which every dimension uses its slice to the end. */
  ghost function FullUse(
    dims: seq<string>, counts: Option<map<string, nat>>, runDeadline: real, start: real, n: nat): (starts: seq<real>)
    requires 1 <= n <= |dims|
    ensures |starts| == n && starts[0] == start
    ensures forall i :: 0 < i < n ==> starts[i] == SliceEnd(dims, counts, runDeadline, i - 1, starts[i - 1])
  {
    if n == 1 then [start]
    else
      var earlier := FullUse(dims, counts, runDeadline, start, n - 1);
      earlier + [SliceEnd(dims, counts, runDeadline, n - 2, earlier[n - 2])]
  }

  lemma {:induction false} FloorsAddUp(
    dims: seq<string>, counts: Option<map<string, nat>>, runDeadline: real, starts: seq<real>, i: nat)
    requires |starts| == |dims| && i < |dims|
    requires forall j :: 0 < j < |dims| ==> starts[j] == SliceEnd(dims, counts, runDeadline, j - 1, starts[j - 1])
    requires EveryoneGetsTheFloor(dims, counts, runDeadline, starts)
    ensures starts[i] >= starts[0] + MIN_DIM_BUDGET * i as real
  {
    if i > 0 { FloorsAddUp(dims, counts, runDeadline, starts, i - 1); }
  }

  /**
   The exact budget for the 60-second floor: every obedient run gives every
   dimension at least the floor if and only if the budget holds a floor for each.
   */
  lemma FloorForEveryoneIff(
    dims: seq<string>, counts: Option<map<string, nat>>, runDeadline: real, start: real)
    requires dims != [] && start < runDeadline
    ensures
      (forall starts :: Obedient(dims, counts, runDeadline, starts) && starts[0] == start ==>
        EveryoneGetsTheFloor(dims, counts, runDeadline, starts))
      <==> runDeadline - start >= MIN_DIM_BUDGET * |dims| as real
  {
    var n := |dims|;
    if runDeadline - start >= MIN_DIM_BUDGET * n as real {
      forall starts | Obedient(dims, counts, runDeadline, starts) && starts[0] == start
        ensures EveryoneGetsTheFloor(dims, counts, runDeadline, starts)
      {
        forall i | 0 <= i < n
          ensures SliceEnd(dims, counts, runDeadline, i, starts[i]) - starts[i] >= MIN_DIM_BUDGET
        {
          ReserveSurvives(dims, counts, runDeadline, starts, i);
          SliceBounds(runDeadline - starts[i], RemainingCounts(counts, dims[i..]), n - i);
        }
      }
    } else {
      var starts := FullUse(dims, counts, runDeadline, start, n);
      FullUseIsObedient(dims, counts, runDeadline, starts);
      if EveryoneGetsTheFloor(dims, counts, runDeadline, starts) {
        FloorsAddUp(dims, counts, runDeadline, starts, n - 1);
        NoDimensionStarves(dims, counts, runDeadline, starts, n - 1);
        assert false;
      }
    }
  }

  lemma {:induction false} FullUseAdvances(
    dims: seq<string>, counts: Option<map<string, nat>>, runDeadline: real, starts: seq<real>, i: nat)
    requires |starts| == |dims| && i < |dims| && starts[0] < runDeadline
    requires forall j :: 0 < j < |dims| ==> starts[j] == SliceEnd(dims, counts, runDeadline, j - 1, starts[j - 1])
    ensures starts[i] < runDeadline
    ensures i > 0 ==> starts[i - 1] <= starts[i]
  {
    if i > 0 {
      FullUseAdvances(dims, counts, runDeadline, starts, i - 1);
      SliceBounds(runDeadline - starts[i - 1], RemainingCounts(counts, dims[i - 1..]), |dims| - (i - 1));
    }
  }

  lemma FullUseIsObedient(
    dims: seq<string>, counts: Option<map<string, nat>>, runDeadline: real, starts: seq<real>)
    requires |starts| == |dims| && dims != [] && starts[0] < runDeadline
    requires forall j :: 0 < j < |dims| ==> starts[j] == SliceEnd(dims, counts, runDeadline, j - 1, starts[j - 1])
    ensures Obedient(dims, counts, runDeadline, starts)
  {
    forall i | 0 < i < |dims| ensures starts[i - 1] <= starts[i] {
      FullUseAdvances(dims, counts, runDeadline, starts, i);
    }
  }

  lemma EqualShareBelowFloor(budget: real, dims: real)
    requires dims > 1.0 && budget < MIN_DIM_BUDGET * dims
    ensures budget / dims < MIN_DIM_BUDGET
  {
  }

  /**
   The documentation says a budget too small for everyone's floor degrades to
   equal shares. The code does so only up to the reserves of the others; in the
   last 60 seconds below the full reserve the first dimension takes the floor.
   */
  lemma DegradesToEqualSharesIff(now: real, runDeadline: real, counts: seq<nat>, dims: nat)
    requires dims >= 2
    requires 0.0 < runDeadline - now < MIN_DIM_BUDGET * dims as real
    ensures DimensionDeadline(now, runDeadline, counts, dims) - now == (runDeadline - now) / dims as real
      <==> runDeadline - now <= Reserve(dims)
  {
    var budget := runDeadline - now;
    EqualShareBounds(budget, dims as real);
    EqualShareBelowFloor(budget, dims as real);
    if budget > Reserve(dims) {
      ShareIsAFraction(counts, dims);
      var _ := ScaleByFraction(budget - Reserve(dims), Share(counts, dims));
    }
  }

  /** 61 seconds for two dimensions: the slices are 60 and 1, not 30.5 each. */
  lemma SixtyOneSecondsForTwo()
    ensures DimensionDeadline(0.0, 61.0, [], 2) == 60.0
    ensures DimensionDeadline(60.0, 61.0, [], 1) == 61.0
  {
    assert Share([], 2) == 0.5;
  }

  /** The later of the two deadlines, where there is one. */
  function Ratcheted(deadline: Option<real>, newDeadline: real): (r: Option<real>)
    ensures r.Some? <==> deadline.Some?
    ensures r.Some? ==> r.value >= deadline.value && r.value >= newDeadline && r.value in {deadline.value, newDeadline}
  {
    if deadline.Some? && newDeadline > deadline.value then Some(newDeadline) else deadline
  }

  /** The mutable part of the run's options that the dimension loops write. */
  class RunOptions {
    var deadlineAt: Option<real>
    var runDeadlineAt: Option<real>

    constructor (deadline: Option<real>)
      ensures deadlineAt == deadline && runDeadlineAt == None
    {
      deadlineAt, runDeadlineAt := deadline, None;
    }

    /** Narrow the deadline to the slice of `dims[i]`; an unlimited run is left alone. */
    method ApplyDimDeadline(
      dims: seq<string>, i: nat, runDeadline: Option<real>, counts: Option<map<string, nat>>, now: real)
      requires i < |dims|
      modifies this`deadlineAt
      ensures runDeadline.None? ==> deadlineAt == old(deadlineAt)
      ensures runDeadline.Some? ==> deadlineAt == Some(SliceEnd(dims, counts, runDeadline.value, i, now))
    {
      if runDeadline.None? {
        return;
      }
      var remaining := dims[i..];
      deadlineAt := Some(DimensionDeadline(now, runDeadline.value, RemainingCounts(counts, remaining), |remaining|));
    }

    /** The pool's ratchet: a running deadline only moves forward, an unlimited run stays unlimited. */
    method ExtendRunDeadline(newDeadline: real)
      modifies this`deadlineAt
      ensures deadlineAt == Ratcheted(old(deadlineAt), newDeadline)
    {
      if deadlineAt.None? || newDeadline <= deadlineAt.value {
        return;
      }
      deadlineAt := Some(newDeadline);
    }
  }
}
