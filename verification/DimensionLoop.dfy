/**
 The dimension loops (src/quodeq/analysis/_loops.py, _loop_steps.py).

 Everything the loops do not decide - clocks, the cancellation flag, what the
 runner, the logger and the callback return or raise - is read from an
 `Iteration` record, so the contracts hold for every outcome of every step.
 */
module DimensionLoop {
  import opened Prelude
  import opened DimOrder
  import opened RunRecords

  datatype Evidence = Evidence(exitReason: Option<string>)

  /** Raised objects, by the classes the loops tell apart. JSONDecodeError is a ValueError. */
  datatype Exn =
    | BrokenPipeError | OtherOSError | ValueError | KeyError | TypeError | ArithmeticError | RuntimeError
    | FatalProviderError(reason: string) | CircuitBreakerError | OtherException(name: string)
    | SystemExit | KeyboardInterrupt

  predicate IsOSError(e: Exn) { e.BrokenPipeError? || e.OtherOSError? }

  predicate IsRuntimeError(e: Exn) { e.RuntimeError? || e.FatalProviderError? }

  /** Everything but SystemExit and KeyboardInterrupt: what the isolation boundary catches. */
  predicate IsException(e: Exn) { !e.SystemExit? && !e.KeyboardInterrupt? }

  predicate IncrementalRecognises(e: Exn) {
    IsOSError(e) || e.KeyError? || e.ValueError? || IsRuntimeError(e)
  }

  predicate PerDimRecognises(e: Exn) { IsOSError(e) || e.ValueError? || IsRuntimeError(e) }

  predicate CallbackRecognises(e: Exn) {
    IsOSError(e) || e.ValueError? || e.KeyError? || e.TypeError? || e.ArithmeticError?
  }

  datatype Call = Returns(ev: Option<Evidence>) | Raises(exn: Exn)

  datatype CancelFlag = CancelFlag(cancelled: bool, reason: string)

  /** One iteration's environment, in the order the step meets it. */
  datatype Iteration = Iteration(
    sliceClock: real, checkClock: real, checkCancelled: bool,
    marker: Option<Exn>,
    attempt: Call, cancelledAfterAttempt: bool, fallback: Call,
    ratchet: Option<real>,
    logResult: Option<Exn>, callback: Option<Exn>, retry: Option<Exn>,
    cancel: CancelFlag)

  function InterruptionReason(exn: Option<Exn>, cancel: CancelFlag): string {
    if exn.Some? && exn.value.FatalProviderError? then ProviderExitReason(exn.value.reason)
    else if exn.Some? && exn.value.CircuitBreakerError? then "circuit_breaker"
    else if cancel.cancelled then
      if StartsWith(cancel.reason, PROVIDER_FATAL) then ProviderExitReason(cancel.reason)
      else if cancel.reason == AGENT_FAILURE_STREAK then AGENT_FAILURE_STREAK
      else "cancelled_signal"
    else "failed_exception"
  }

  // ------------------------------------------------ what one iteration means

  /** How the analysis of one dimension came out, before anything is recorded. */
  datatype Verdict =
    | Analysed(ev: Evidence)
    | NotRun(cause: Option<Exn>)
    | Escapes(exn: Exn)

  function CallVerdict(call: Call, recognised: bool): Verdict {
    match call
    case Returns(Some(ev)) => Analysed(ev)
    case Returns(None) => NotRun(None)
    case Raises(e) => if recognised then NotRun(Some(e)) else Escapes(e)
  }

  predicate FallsBack(it: Iteration) {
    it.attempt.Raises? && IncrementalRecognises(it.attempt.exn) && !it.attempt.exn.BrokenPipeError?
    && !it.cancelledAfterAttempt
  }

  function IncrementalVerdict(it: Iteration): Verdict {
    if it.marker.Some? then Escapes(it.marker.value)
    else
      var call := if FallsBack(it) then it.fallback else it.attempt;
      CallVerdict(call, call.Raises? && IncrementalRecognises(call.exn))
  }

  function PerDimVerdict(it: Iteration): Verdict {
    CallVerdict(it.attempt, it.attempt.Raises? && PerDimRecognises(it.attempt.exn))
  }

  /** What the result callback lets through, after its one retry on a broken pipe. */
  function CallbackEscape(it: Iteration, logsResult: bool, hasCallback: bool): Option<Exn> {
    var first := if logsResult && it.logResult.Some? then it.logResult
                 else if hasCallback then it.callback else None;
    if first.None? then None
    else if first.value.BrokenPipeError? then
      if hasCallback && it.retry.Some? && !CallbackRecognises(it.retry.value) then it.retry else None
    else if CallbackRecognises(first.value) then None
    else first
  }

  /** What leaves the iteration through the isolation boundary: never an ordinary exception. */
  function LoopEscape(v: Verdict, it: Iteration, logsResult: bool, hasCallback: bool): Option<Exn> {
    var raised := match v
      case Analysed(_) => CallbackEscape(it, logsResult, hasCallback)
      case NotRun(_) => None
      case Escapes(e) => Some(e);
    if raised.Some? && !IsException(raised.value) then raised else None
  }

  /** The record a dimension is left with when its iteration started it from scratch. */
  function Settled(v: Verdict, it: Iteration): DimEntry {
    match v
    case Analysed(ev) => DimEntry(Done, None, ev.exitReason)
    case NotRun(exn) => DimEntry(Incomplete, Some(InterruptionReason(exn, it.cancel)), None)
    case Escapes(e) =>
      if IsException(e) then DimEntry(Incomplete, Some(InterruptionReason(Some(e), it.cancel)), None)
      else DimEntry(Running, None, None)
  }

  ghost predicate Unstarted(dims: DimTable, dim: string) {
    dim in dims ==> dims[dim] == DimEntry(Pending, None, None)
  }

  /** The deadline or cancellation guard in front of a dimension. */
  predicate Stops(deadline: Option<real>, it: Iteration) {
    (deadline.Some? && it.checkClock >= deadline.value) || it.checkCancelled
  }

  /**
   The loop's promise about `dimensions.json` after `touched` iterations: only the
   touched prefix changed; each of its dimensions is terminal, except that a loop
   left by SystemExit or KeyboardInterrupt may leave the last one unfinished; and a
   dimension that started from scratch holds exactly the record of its own iteration.
   */
  ghost predicate PrefixSettled(
    before: DimTable, after: DimTable, dims: seq<string>, verdicts: seq<Verdict>, plan: seq<Iteration>,
    touched: nat, left: bool)
    requires touched <= |dims| == |plan| == |verdicts|
  {
    && (forall d :: d !in dims[..touched] ==> (d in after <==> d in before))
    && (forall d :: d !in dims[..touched] && d in before ==> after[d] == before[d])
    && (forall i :: 0 <= i < touched ==> dims[i] in after)
    && (forall i :: 0 <= i < touched && !(left && dims[i] == dims[touched - 1]) ==>
          DimTerminal(after[dims[i]].state))
    && (forall i :: 0 <= i < touched && Unstarted(before, dims[i]) && Distinct(dims) ==>
          after[dims[i]] == Settled(verdicts[i], plan[i]))
  }

  /** Whether an iteration puts its dimension into the loop's result. */
  predicate Reports(v: Verdict, it: Iteration, logsResult: bool) {
    v.Analysed? && !(logsResult && it.logResult.Some? && !CallbackRecognises(it.logResult.value))
  }

  /** The result after one more iteration; a failed log line keeps an earlier entry of the same name. */
  function ResultNext(
    before: map<string, Evidence>, dim: string, v: Verdict, it: Iteration, logsResult: bool): map<string, Evidence>
  {
    if !Reports(v, it, logsResult) || (logsResult && it.logResult.Some? && dim in before) then before
    else before[dim := v.ev]
  }

  function ResultAfter(
    dims: seq<string>, verdicts: seq<Verdict>, plan: seq<Iteration>, n: nat, logsResult: bool): map<string, Evidence>
    requires n <= |dims| == |plan| == |verdicts|
  {
    if n == 0 then map[]
    else
      ResultNext(
        ResultAfter(dims, verdicts, plan, n - 1, logsResult), dims[n - 1], verdicts[n - 1], plan[n - 1], logsResult)
  }

  /** The loop returns the evidence of exactly the dimensions that reported, each its own. */
  lemma {:induction false} ResultHoldsOwnEvidence(
    dims: seq<string>, verdicts: seq<Verdict>, plan: seq<Iteration>, n: nat, logsResult: bool, i: nat)
    requires i < n <= |dims| == |plan| == |verdicts| && Distinct(dims)
    ensures var result := ResultAfter(dims, verdicts, plan, n, logsResult);
      && (dims[i] in result <==> Reports(verdicts[i], plan[i], logsResult))
      && (dims[i] in result ==> result[dims[i]] == verdicts[i].ev)
      && forall d :: d in result ==> d in dims[..n]
  {
    ResultIsWithinPrefix(dims, verdicts, plan, n - 1, logsResult);
    ResultIsWithinPrefix(dims, verdicts, plan, n, logsResult);
    if i < n - 1 {
      ResultHoldsOwnEvidence(dims, verdicts, plan, n - 1, logsResult, i);
      assert dims[i] != dims[n - 1];
    } else {
      assert dims[n - 1] !in dims[..n - 1];
    }
  }

  lemma {:induction false} ResultIsWithinPrefix(
    dims: seq<string>, verdicts: seq<Verdict>, plan: seq<Iteration>, n: nat, logsResult: bool)
    requires n <= |dims| == |plan| == |verdicts|
    ensures forall d :: d in ResultAfter(dims, verdicts, plan, n, logsResult) ==> d in dims[..n]
  {
    if n > 0 {
      ResultIsWithinPrefix(dims, verdicts, plan, n - 1, logsResult);
      assert dims[..n] == dims[..n - 1] + [dims[n - 1]];
    }
  }

  function IncrementalVerdicts(plan: seq<Iteration>): (vs: seq<Verdict>)
    ensures |vs| == |plan|
    ensures forall i :: 0 <= i < |plan| ==> vs[i] == IncrementalVerdict(plan[i])
  {
    seq(|plan|, i requires 0 <= i < |plan| => IncrementalVerdict(plan[i]))
  }

  function PerDimVerdicts(plan: seq<Iteration>): (vs: seq<Verdict>)
    ensures |vs| == |plan|
    ensures forall i :: 0 <= i < |plan| ==> vs[i] == PerDimVerdict(plan[i])
  {
    seq(|plan|, i requires 0 <= i < |plan| => PerDimVerdict(plan[i]))
  }

  function AfterRatchet(deadline: Option<real>, it: Iteration): Option<real> {
    if it.ratchet.Some? then Ratcheted(deadline, it.ratchet.value) else deadline
  }

  /** The full-scan loop counts an iteration as skipped when nothing came back from its step. */
  predicate Skipped(it: Iteration, hasCallback: bool) {
    LoopEscape(PerDimVerdict(it), it, false, hasCallback).None?
    && (!PerDimVerdict(it).Analysed? || CallbackEscape(it, false, hasCallback).Some?)
  }

  /** What the full-scan loop carries along: its deadline, its skip count, and that no guard stopped it. */
  datatype Tally = Tally(deadline: Option<real>, skipped: nat, unstopped: bool)

  function SkipFlags(plan: seq<Iteration>, hasCallback: bool): (flags: seq<bool>)
    ensures |flags| == |plan|
    ensures forall i :: 0 <= i < |plan| ==> (flags[i] <==> Skipped(plan[i], hasCallback))
  {
    seq(|plan|, i requires 0 <= i < |plan| => Skipped(plan[i], hasCallback))
  }

  /** The tally after `n` iterations that began with deadline `start`; `flags` says which were skipped. */
  function TallyAfter(start: Option<real>, plan: seq<Iteration>, flags: seq<bool>, n: nat): Tally
    requires n <= |plan| == |flags|
  {
    if n == 0 then Tally(start, 0, true)
    else
      var t := TallyAfter(start, plan, flags, n - 1);
      Tally(
        AfterRatchet(t.deadline, plan[n - 1]),
        t.skipped + if flags[n - 1] then 1 else 0,
        t.unstopped && !Stops(t.deadline, plan[n - 1]))
  }

  lemma TallyNext(
    start: Option<real>, plan: seq<Iteration>, flags: seq<bool>, k: nat, deadline: Option<real>, skipped: nat)
    requires k < |plan| == |flags|
    requires TallyAfter(start, plan, flags, k) == Tally(deadline, skipped, true) && !Stops(deadline, plan[k])
    ensures TallyAfter(start, plan, flags, k + 1)
      == Tally(AfterRatchet(deadline, plan[k]), skipped + if flags[k] then 1 else 0, true)
  {
  }

  lemma SliceEndsInTime(
    dims: seq<string>, counts: Option<map<string, nat>>, runDeadline: Option<real>, i: nat, now: real)
    requires i < |dims|
    ensures runDeadline.Some? ==> SliceEnd(dims, counts, runDeadline.value, i, now) <= runDeadline.value
  {
  }

  /** Every touched iteration began uncancelled, before its slice's end and before the run deadline. */
  ghost predicate WithinSlices(
    dims: seq<string>, counts: Option<map<string, nat>>, runDeadline: Option<real>, plan: seq<Iteration>, touched: nat)
    requires touched <= |dims| == |plan|
  {
    forall i :: 0 <= i < touched ==>
      && !plan[i].checkCancelled
      && (runDeadline.Some? ==>
           && plan[i].checkClock < SliceEnd(dims, counts, runDeadline.value, i, plan[i].sliceClock)
           && plan[i].checkClock < runDeadline.value)
  }

  /** Iteration `k` did not begin: the run was cancelled or its slice was used up. */
  ghost predicate Refused(
    dims: seq<string>, counts: Option<map<string, nat>>, runDeadline: Option<real>, plan: seq<Iteration>, k: nat)
    requires k < |dims| == |plan|
  {
    || plan[k].checkCancelled
    || (runDeadline.Some? &&
        plan[k].checkClock >= SliceEnd(dims, counts, runDeadline.value, k, plan[k].sliceClock))
  }

  /** Every touched iteration of the full scan began uncancelled and before the deadline it found. */
  ghost predicate WithinDeadline(start: Option<real>, plan: seq<Iteration>, touched: nat)
    requires touched <= |plan|
  {
    forall i :: 0 <= i < touched ==>
      && !plan[i].checkCancelled
      && (DeadlineAt(start, plan, i).Some? ==> plan[i].checkClock < DeadlineAt(start, plan, i).value)
  }

  /** The deadline iteration `n` of the full scan finds: the run's, moved by the ratchets of those before it. */
  function DeadlineAt(start: Option<real>, plan: seq<Iteration>, n: nat): Option<real>
    requires n <= |plan|
  {
    if n == 0 then start else AfterRatchet(DeadlineAt(start, plan, n - 1), plan[n - 1])
  }

  /** It never moves back, an unlimited run stays unlimited, and without a ratchet it does not move. */
  lemma {:induction false} DeadlineNeverMovesBack(start: Option<real>, plan: seq<Iteration>, n: nat)
    requires n <= |plan|
    ensures DeadlineAt(start, plan, n).Some? <==> start.Some?
    ensures start.Some? ==> DeadlineAt(start, plan, n).value >= start.value
    ensures (forall i :: 0 <= i < n ==> plan[i].ratchet.None?) ==> DeadlineAt(start, plan, n) == start
  {
    if n > 0 { DeadlineNeverMovesBack(start, plan, n - 1); }
  }

  lemma {:induction false} TallyMeans(start: Option<real>, plan: seq<Iteration>, flags: seq<bool>, n: nat)
    requires n <= |plan| == |flags|
    ensures TallyAfter(start, plan, flags, n).deadline == DeadlineAt(start, plan, n)
    ensures TallyAfter(start, plan, flags, n).unstopped <==> WithinDeadline(start, plan, n)
  {
    if n > 0 { TallyMeans(start, plan, flags, n - 1); }
  }

  /** Ordinary exceptions never leave the loop; anything else leaves it at once. */
  ghost predicate LeftOnlyBy(
    escaped: Option<Exn>, verdicts: seq<Verdict>, plan: seq<Iteration>, touched: nat,
    logsResult: bool, hasCallback: bool)
    requires touched <= |plan| == |verdicts|
  {
    && (touched == 0 ==> escaped.None?)
    && forall i :: 0 <= i < touched ==>
         LoopEscape(verdicts[i], plan[i], logsResult, hasCallback) == if i == touched - 1 then escaped else None
  }

  /** Only `dim` changed; it is terminal unless the loop is being left in the middle of its step. */
  ghost predicate IterationRecorded(
    before: DimTable, after: DimTable, dim: string, v: Verdict, it: Iteration, left: bool)
  {
    && (forall d :: d != dim ==> (d in after <==> d in before))
    && (forall d :: d != dim && d in before ==> after[d] == before[d])
    && dim in after
    && (!left ==> DimTerminal(after[dim].state))
    && (Unstarted(before, dim) ==> after[dim] == Settled(v, it))
  }

  /** The table after a step, before the isolation boundary reacts. */
  function StepTable(before: DimTable, dim: string, v: Verdict, it: Iteration): DimTable {
    var running := Written(before, dim, DimWrite(Running, None, None));
    match v
    case Analysed(ev) => Written(running, dim, DimWrite(Done, None, ev.exitReason))
    case NotRun(x) => Written(running, dim, DimWrite(Incomplete, Some(InterruptionReason(x, it.cancel)), None))
    case Escapes(_) => running
  }

  /** What a step raises, before the isolation boundary reacts. */
  function StepRaise(v: Verdict, it: Iteration, logsResult: bool, hasCallback: bool): Option<Exn> {
    match v
    case Analysed(_) => CallbackEscape(it, logsResult, hasCallback)
    case NotRun(_) => None
    case Escapes(e) => Some(e)
  }

  /** A step that raised nothing, or left the loop, is recorded as it stands. */
  lemma StepRecorded(before: DimTable, dim: string, v: Verdict, it: Iteration, logsResult: bool, hasCallback: bool)
    requires var raised := StepRaise(v, it, logsResult, hasCallback); raised.None? || !IsException(raised.value)
    ensures IterationRecorded(before, StepTable(before, dim, v, it), dim, v, it,
      LoopEscape(v, it, logsResult, hasCallback).Some?)
  {
  }

  /** After an ordinary exception the boundary's INCOMPLETE write settles the record, or bounces off DONE. */
  lemma IsolatedStepRecorded(before: DimTable, dim: string, v: Verdict, it: Iteration, e: Exn)
    requires IsException(e) && (v.Escapes? ==> v.exn == e) && !v.NotRun?
    ensures IterationRecorded(before,
      Written(
        StepTable(before, dim, v, it), dim, DimWrite(Incomplete, Some(InterruptionReason(Some(e), it.cancel)), None)),
      dim, v, it, false)
  {
  }

  /** Recording one more iteration keeps the promise. */
  lemma PrefixGrows(
    before: DimTable, mid: DimTable, after: DimTable,
    dims: seq<string>, verdicts: seq<Verdict>, plan: seq<Iteration>, k: nat, left: bool)
    requires k < |dims| == |plan| == |verdicts|
    requires PrefixSettled(before, mid, dims, verdicts, plan, k, false)
    requires IterationRecorded(mid, after, dims[k], verdicts[k], plan[k], left)
    ensures PrefixSettled(before, after, dims, verdicts, plan, k + 1, left)
  {
    assert dims[..k + 1] == dims[..k] + [dims[k]];
    forall i | 0 <= i < k + 1 && Unstarted(before, dims[i]) && Distinct(dims)
      ensures after[dims[i]] == Settled(verdicts[i], plan[i])
    {
      if i < k {
        assert dims[i] != dims[k];
      } else {
        assert dims[k] !in dims[..k];
      }
    }
  }

  /** Everything one isolated iteration promises. */
  ghost predicate StepPromise(
    before: DimTable, after: DimTable, beforeResult: map<string, Evidence>, result: map<string, Evidence>,
    escaped: Option<Exn>, dim: string, v: Verdict, it: Iteration, logsResult: bool, hasCallback: bool)
  {
    && escaped == LoopEscape(v, it, logsResult, hasCallback)
    && IterationRecorded(before, after, dim, v, it, escaped.Some?)
    && result == ResultNext(beforeResult, dim, v, it, logsResult)
  }

  /** Everything a loop promises after `touched` iterations, whatever the steps did. */
  ghost predicate LoopPromise(
    before: DimTable, after: DimTable, result: map<string, Evidence>, escaped: Option<Exn>,
    dims: seq<string>, verdicts: seq<Verdict>, plan: seq<Iteration>, touched: nat, logsResult: bool, hasCallback: bool)
  {
    && touched <= |dims| == |plan| == |verdicts|
    && PrefixSettled(before, after, dims, verdicts, plan, touched, escaped.Some?)
    && result == ResultAfter(dims, verdicts, plan, touched, logsResult)
    && LeftOnlyBy(escaped, verdicts, plan, touched, logsResult, hasCallback)
  }

  lemma PromiseStep(
    before: DimTable, mid: DimTable, after: DimTable,
    midResult: map<string, Evidence>, result: map<string, Evidence>, escaped: Option<Exn>,
    dims: seq<string>, verdicts: seq<Verdict>, plan: seq<Iteration>, k: nat, logsResult: bool, hasCallback: bool)
    requires LoopPromise(before, mid, midResult, None, dims, verdicts, plan, k, logsResult, hasCallback)
    requires k < |dims|
    requires StepPromise(
      mid, after, midResult, result, escaped, dims[k], verdicts[k], plan[k], logsResult, hasCallback)
    ensures LoopPromise(before, after, result, escaped, dims, verdicts, plan, k + 1, logsResult, hasCallback)
  {
    PrefixGrows(before, mid, after, dims, verdicts, plan, k, escaped.Some?);
  }

  // ------------------------------------------------------------- the loops

  class LoopRun {
    var dims: DimTable
    var result: map<string, Evidence>
    const options: RunOptions
    const hasCallback: bool

    constructor (dims: DimTable, options: RunOptions, hasCallback: bool)
      ensures this.dims == dims && this.options == options && this.hasCallback == hasCallback && result == map[]
    {
      this.dims, this.result, this.options, this.hasCallback := dims, map[], options, hasCallback;
    }

    /** Best-effort write: an illegal transition is logged and dropped. */
    method SafeWrite(dim: string, w: DimWrite)
      modifies this`dims
      ensures dims == Written(old(dims), dim, w)
    {
      if dim in dims && !DimTransitionAllowed(dims[dim].state, w.state) {
        return;
      }
      dims := dims[dim := Merged(if dim in dims then Some(dims[dim]) else None, w)];
    }

    /** Mark the dimension INCOMPLETE for the reason the exception and the cancel flag give. */
    method SkipDim(dim: string, exn: Option<Exn>, cancel: CancelFlag)
      modifies this`dims
      ensures dims == Written(old(dims), dim, DimWrite(Incomplete, Some(InterruptionReason(exn, cancel)), None))
    {
      SafeWrite(dim, DimWrite(Incomplete, Some(InterruptionReason(exn, cancel)), None));
    }

    method SetDefault(dim: string, ev: Evidence)
      modifies this`result
      ensures result == if dim in old(result) then old(result) else old(result)[dim := ev]
    {
      if dim !in result {
        result := result[dim := ev];
      }
    }

    /** DONE first, then the result and the callback; returns what propagates. */
    method FinalizeDimResult(dim: string, ev: Evidence, it: Iteration, logsResult: bool)
      returns (raised: Option<Exn>)
      modifies this`dims, this`result
      ensures dims == Written(old(dims), dim, DimWrite(Done, None, ev.exitReason))
      ensures raised == CallbackEscape(it, logsResult, hasCallback)
      ensures result == ResultNext(old(result), dim, Analysed(ev), it, logsResult)
    {
      SafeWrite(dim, DimWrite(Done, None, ev.exitReason));
      var first := None;
      if logsResult && it.logResult.Some? {
        first := it.logResult;
      } else {
        result := result[dim := ev];
        if hasCallback {
          first := it.callback;
        }
      }
      match first {
        case None =>
          return None;
        case Some(e) =>
          if e.BrokenPipeError? {
            SetDefault(dim, ev);
            if hasCallback && it.retry.Some? && !CallbackRecognises(it.retry.value) {
              return it.retry;
            }
            return None;
          } else if CallbackRecognises(e) {
            SetDefault(dim, ev);
            return None;
          } else {
            return first;
          }
      }
    }

    /** The incremental attempt with its full-scan fallback. */
    method AttemptIncremental(it: Iteration) returns (ev: Option<Evidence>, last: Option<Exn>, raised: Option<Exn>)
      ensures it.marker.None? ==>
        match IncrementalVerdict(it)
        case Analysed(e) => ev == Some(e) && raised == None
        case NotRun(x) => ev == None && last == x && raised == None
        case Escapes(x) => raised == Some(x)
    {
      match it.attempt {
        case Returns(found) =>
          return found, None, None;
        case Raises(e) =>
          if e.BrokenPipeError? {
            return None, Some(e), None;
          }
          if !IncrementalRecognises(e) {
            return None, None, Some(e);
          }
          if it.cancelledAfterAttempt {
            return None, Some(e), None;
          }
      }
      match it.fallback {
        case Returns(found) =>
          return found, None, None;
        case Raises(e) =>
          if IncrementalRecognises(e) {
            return None, Some(e), None;
          }
          return None, None, Some(e);
      }
    }

    /** RUNNING, dispatch with fallback, then finalize or INCOMPLETE; returns what propagates. */
    method RunOneIncremental(dim: string, it: Iteration) returns (raised: Option<Exn>)
      modifies this`dims, this`result, options`deadlineAt
      ensures dims == StepTable(old(dims), dim, IncrementalVerdict(it), it)
      ensures raised == StepRaise(IncrementalVerdict(it), it, true, hasCallback)
      ensures old(options.deadlineAt).None? ==> options.deadlineAt.None?
      ensures result == ResultNext(old(result), dim, IncrementalVerdict(it), it, true)
    {
      SafeWrite(dim, DimWrite(Running, None, None));
      if it.marker.Some? {
        return it.marker;
      }
      var ev, last, escaped := AttemptIncremental(it);
      if it.ratchet.Some? {
        options.ExtendRunDeadline(it.ratchet.value);
      }
      if escaped.Some? {
        return escaped;
      }
      if ev.Some? {
        raised := FinalizeDimResult(dim, ev.value, it, true);
      } else {
        SkipDim(dim, last, it.cancel);
        raised := None;
      }
    }

    /** RUNNING, full scan, then finalize or INCOMPLETE; also says whether evidence came back. */
    method RunOneDimension(dim: string, it: Iteration) returns (ev: Option<Evidence>, raised: Option<Exn>)
      modifies this`dims, this`result, options`deadlineAt
      ensures dims == StepTable(old(dims), dim, PerDimVerdict(it), it)
      ensures raised == StepRaise(PerDimVerdict(it), it, false, hasCallback)
      ensures options.deadlineAt == AfterRatchet(old(options.deadlineAt), it)
      ensures result == ResultNext(old(result), dim, PerDimVerdict(it), it, false)
      ensures raised.None? ==> (ev.Some? <==> PerDimVerdict(it).Analysed?)
    {
      SafeWrite(dim, DimWrite(Running, None, None));
      if it.ratchet.Some? {
        options.ExtendRunDeadline(it.ratchet.value);
      }
      match it.attempt {
        case Raises(e) =>
          if PerDimRecognises(e) {
            SkipDim(dim, Some(e), it.cancel);
            return None, None;
          }
          return None, Some(e);
        case Returns(None) =>
          SkipDim(dim, None, it.cancel);
          return None, None;
        case Returns(Some(found)) =>
          raised := FinalizeDimResult(dim, found, it, false);
          return Some(found), raised;
      }
    }

    /** One incremental iteration inside the isolation boundary. */
    method IsolatedIncremental(dim: string, it: Iteration) returns (escaped: Option<Exn>)
      modifies this`dims, this`result, options`deadlineAt
      ensures StepPromise(
        old(dims), dims, old(result), result, escaped, dim, IncrementalVerdict(it), it, true, hasCallback)
      ensures old(options.deadlineAt).None? ==> options.deadlineAt.None?
    {
      var raised := RunOneIncremental(dim, it);
      if raised.None? {
        StepRecorded(old(dims), dim, IncrementalVerdict(it), it, true, hasCallback);
        return None;
      }
      if !IsException(raised.value) {
        StepRecorded(old(dims), dim, IncrementalVerdict(it), it, true, hasCallback);
        return raised;
      }
      IsolatedStepRecorded(old(dims), dim, IncrementalVerdict(it), it, raised.value);
      SkipDim(dim, raised, it.cancel);
      return None;
    }

    /** One full-scan iteration inside the isolation boundary. */
    method IsolatedDimension(dim: string, it: Iteration) returns (ev: Option<Evidence>, escaped: Option<Exn>)
      modifies this`dims, this`result, options`deadlineAt
      ensures StepPromise(
        old(dims), dims, old(result), result, escaped, dim, PerDimVerdict(it), it, false, hasCallback)
      ensures Skipped(it, hasCallback) <==> escaped.None? && ev.None?
      ensures options.deadlineAt == AfterRatchet(old(options.deadlineAt), it)
    {
      var raised;
      ev, raised := RunOneDimension(dim, it);
      if raised.None? {
        StepRecorded(old(dims), dim, PerDimVerdict(it), it, false, hasCallback);
        return ev, None;
      }
      if !IsException(raised.value) {
        StepRecorded(old(dims), dim, PerDimVerdict(it), it, false, hasCallback);
        return None, raised;
      }
      IsolatedStepRecorded(old(dims), dim, PerDimVerdict(it), it, raised.value);
      SkipDim(dim, raised, it.cancel);
      return None, None;
    }

    /** Slice the deadline, check the guard, run one isolated step. */
    method IncrementalIteration(
      ghost before: DimTable, dimensions: seq<string>, counts: Option<map<string, nat>>, runDeadline: Option<real>,
      plan: seq<Iteration>, k: nat)
      returns (stop: bool, escaped: Option<Exn>)
      requires k < |dimensions| == |plan|
      requires runDeadline.None? ==> options.deadlineAt.None?
      requires LoopPromise(
        before, dims, result, None, dimensions, IncrementalVerdicts(plan), plan, k, true, hasCallback)
      modifies this`dims, this`result, options`deadlineAt
      ensures runDeadline.None? ==> options.deadlineAt.None?
      ensures stop <==> Refused(dimensions, counts, runDeadline, plan, k)
      ensures stop ==> escaped == None
      ensures LoopPromise(
        before, dims, result, escaped, dimensions, IncrementalVerdicts(plan), plan, if stop then k else k + 1,
        true, hasCallback)
    {
      var dimension, it := dimensions[k], plan[k];
      options.ApplyDimDeadline(dimensions, k, runDeadline, counts, it.sliceClock);
      if Stops(options.deadlineAt, it) {
        return true, None;
      }
      ghost var dims0, result0 := dims, result;
      escaped := IsolatedIncremental(dimension, it);
      PromiseStep(
        before, dims0, dims, result0, result, escaped,
        dimensions, IncrementalVerdicts(plan), plan, k, true, hasCallback);
      return false, escaped;
    }

    /**
     The incremental loop. `touched` counts the iterations that began; `escaped` is
     a SystemExit or KeyboardInterrupt leaving the loop. The run deadline is back in
     place on every way out.
     */
    method RunIncrementalLoop(dimensions: seq<string>, counts: Option<map<string, nat>>, plan: seq<Iteration>)
      returns (touched: nat, escaped: Option<Exn>)
      requires |plan| == |dimensions|
      modifies this`dims, this`result, options
      ensures options.deadlineAt == old(options.deadlineAt) && options.runDeadlineAt == None
      ensures touched <= |dimensions|
      ensures LoopPromise(
        old(dims), dims, result, escaped, dimensions, IncrementalVerdicts(plan), plan, touched, true, hasCallback)
      ensures WithinSlices(dimensions, counts, old(options.deadlineAt), plan, touched)
      ensures escaped.None? && touched < |dimensions| ==>
        Refused(dimensions, counts, old(options.deadlineAt), plan, touched)
    {
      var runDeadline := options.deadlineAt;
      options.runDeadlineAt := runDeadline;
      result := map[];
      touched, escaped := 0, None;
      while touched < |dimensions| && escaped.None?
        invariant touched <= |dimensions|
        invariant runDeadline.None? ==> options.deadlineAt.None?
        invariant LoopPromise(
          old(dims), dims, result, escaped, dimensions, IncrementalVerdicts(plan), plan, touched, true, hasCallback)
        invariant WithinSlices(dimensions, counts, runDeadline, plan, touched)
        decreases |dimensions| - touched
      {
        var stop;
        stop, escaped := IncrementalIteration(old(dims), dimensions, counts, runDeadline, plan, touched);
        SliceEndsInTime(dimensions, counts, runDeadline, touched, plan[touched].sliceClock);
        if stop {
          break;
        }
        touched := touched + 1;
      }
      options.deadlineAt := runDeadline;
      options.runDeadlineAt := None;
    }

    /** One isolated step of the full-scan loop, kept within the loop's promise. */
    method PromisedDimension(ghost before: DimTable, dimensions: seq<string>, plan: seq<Iteration>, k: nat)
      returns (ev: Option<Evidence>, escaped: Option<Exn>)
      requires k < |dimensions| == |plan|
      requires LoopPromise(before, dims, result, None, dimensions, PerDimVerdicts(plan), plan, k, false, hasCallback)
      modifies this`dims, this`result, options`deadlineAt
      ensures options.deadlineAt == AfterRatchet(old(options.deadlineAt), plan[k])
      ensures SkipFlags(plan, hasCallback)[k] <==> escaped.None? && ev.None?
      ensures LoopPromise(
        before, dims, result, escaped, dimensions, PerDimVerdicts(plan), plan, k + 1, false, hasCallback)
    {
      ghost var dims0, result0 := dims, result;
      ev, escaped := IsolatedDimension(dimensions[k], plan[k]);
      PromiseStep(
        before, dims0, dims, result0, result, escaped, dimensions, PerDimVerdicts(plan), plan, k, false, hasCallback);
    }

    /** Check the guard, run one step, count it when nothing came back. */
    method PerDimensionIteration(
      ghost before: DimTable, ghost start: Option<real>,
      dimensions: seq<string>, plan: seq<Iteration>, k: nat, skipped: nat)
      returns (stop: bool, skipped': nat, escaped: Option<Exn>)
      requires k < |dimensions| == |plan|
      requires LoopPromise(before, dims, result, None, dimensions, PerDimVerdicts(plan), plan, k, false, hasCallback)
      requires TallyAfter(start, plan, SkipFlags(plan, hasCallback), k) == Tally(options.deadlineAt, skipped, true)
      modifies this`dims, this`result, options`deadlineAt
      ensures stop ==> Stops(options.deadlineAt, plan[k]) && escaped == None
      ensures stop ==> options.deadlineAt == old(options.deadlineAt) && skipped' == skipped
      ensures stop ==> dims == old(dims) && result == old(result)
      ensures !stop ==>
        TallyAfter(start, plan, SkipFlags(plan, hasCallback), k + 1) == Tally(options.deadlineAt, skipped', true)
      ensures !stop ==> LoopPromise(
        before, dims, result, escaped, dimensions, PerDimVerdicts(plan), plan, k + 1, false, hasCallback)
    {
      if Stops(options.deadlineAt, plan[k]) {
        return true, skipped, None;
      }
      var ev;
      TallyNext(start, plan, SkipFlags(plan, hasCallback), k, options.deadlineAt, skipped);
      ev, escaped := PromisedDimension(before, dimensions, plan, k);
      return false, if escaped.None? && ev.None? then skipped + 1 else skipped, escaped;
    }

    /** The full-scan loop, which also counts the dimensions it skipped. */
    method RunPerDimensionLoop(dimensions: seq<string>, plan: seq<Iteration>)
      returns (touched: nat, skipped: nat, escaped: Option<Exn>)
      requires |plan| == |dimensions|
      modifies this`dims, this`result, options`deadlineAt
      ensures touched <= |dimensions|
      ensures LoopPromise(
        old(dims), dims, result, escaped, dimensions, PerDimVerdicts(plan), plan, touched, false, hasCallback)
      ensures TallyAfter(old(options.deadlineAt), plan, SkipFlags(plan, hasCallback), touched)
        == Tally(options.deadlineAt, skipped, true)
      ensures WithinDeadline(old(options.deadlineAt), plan, touched)
      ensures options.deadlineAt == DeadlineAt(old(options.deadlineAt), plan, touched)
      ensures escaped.None? && touched < |dimensions| ==>
        plan[touched].checkCancelled
        || (options.deadlineAt.Some? && plan[touched].checkClock >= options.deadlineAt.value)
    {
      result := map[];
      touched, skipped, escaped := 0, 0, None;
      ghost var start := options.deadlineAt;
      while touched < |dimensions| && escaped.None?
        invariant touched <= |dimensions|
        invariant TallyAfter(start, plan, SkipFlags(plan, hasCallback), touched)
          == Tally(options.deadlineAt, skipped, true)
        invariant LoopPromise(
          old(dims), dims, result, escaped, dimensions, PerDimVerdicts(plan), plan, touched, false, hasCallback)
        decreases |dimensions| - touched
      {
        var stop;
        stop, skipped, escaped := PerDimensionIteration(
          old(dims), start, dimensions, plan, touched, skipped);
        if stop {
          break;
        }
        touched := touched + 1;
      }
      TallyMeans(start, plan, SkipFlags(plan, hasCallback), touched);
    }
  }

  // ------------------------------------------------------- consequences

  /** What neither analysis call expects to be raised. */
  predicate Foreign(e: Exn) {
    e.TypeError? || e.ArithmeticError? || e.CircuitBreakerError? || e.OtherException? || e.SystemExit?
    || e.KeyboardInterrupt?
  }

  /** The verdict of one call: what it returned, or what it raised, left to the boundary when `foreign`. */
  ghost predicate IsVerdictOf(v: Verdict, call: Call, foreign: bool) {
    match call
    case Returns(ev) => if ev.Some? then v == Analysed(ev.value) else v == NotRun(None)
    case Raises(e) => if foreign then v == Escapes(e) else v == NotRun(Some(e))
  }

  /**
   Which call decides the incremental step: the full scan exactly when the attempt
   raised something expected other than a broken pipe and the run is not cancelled.
   */
  lemma IncrementalVerdictIff(it: Iteration)
    requires it.marker.None?
    ensures var scans := it.attempt.Raises? && !Foreign(it.attempt.exn) && !it.attempt.exn.BrokenPipeError?
        && !it.cancelledAfterAttempt;
      var call := if scans then it.fallback else it.attempt;
      IsVerdictOf(IncrementalVerdict(it), call, call.Raises? && Foreign(call.exn))
  {
  }

  /** The full-scan step has one call, for which a KeyError is foreign too. */
  lemma PerDimVerdictIff(it: Iteration)
    ensures var call := it.attempt;
      IsVerdictOf(PerDimVerdict(it), call, call.Raises? && (Foreign(call.exn) || call.exn.KeyError?))
  {
  }

  /** What the finalize step does not swallow. */
  predicate Unswallowed(e: Exn) {
    e.RuntimeError? || e.FatalProviderError? || e.CircuitBreakerError? || e.OtherException? || e.SystemExit?
    || e.KeyboardInterrupt?
  }

  /**
   A finalize step raises exactly what its log line, else its callback, raised
   unswallowed; after a broken pipe what the one retry raised unswallowed. The
   evidence is missing from the result only when the log line is to blame.
   */
  lemma FinalizeRaisesIff(it: Iteration, ev: Evidence, logsResult: bool, hasCallback: bool, e: Exn)
    ensures var blamed := if logsResult && it.logResult.Some? then it.logResult
                          else if hasCallback then it.callback else None;
      CallbackEscape(it, logsResult, hasCallback) == Some(e) <==>
        Unswallowed(e) && (blamed == Some(e) || (blamed == Some(BrokenPipeError) && hasCallback && it.retry == Some(e)))
    ensures Reports(Analysed(ev), it, logsResult) <==>
      !(logsResult && it.logResult.Some? && Unswallowed(it.logResult.value))
  {
  }

  /** The cause of a record that was not finished, each told from every other. */
  lemma RecordNamesItsCause(v: Verdict, it: Iteration)
    requires v.NotRun? || (v.Escapes? && IsException(v.exn))
    ensures var exn := if v.NotRun? then v.cause else Some(v.exn);
      var fatal, breaker := exn.Some? && exn.value.FatalProviderError?, exn.Some? && exn.value.CircuitBreakerError?;
      var cancelled := !fatal && !breaker && it.cancel.cancelled;
      var provider := StartsWith(it.cancel.reason, "provider_fatal");
      var e := Settled(v, it);
      && e.state == Incomplete && e.exitReason == None && e.reason.Some?
      && (e.reason.value == "circuit_breaker" <==> breaker)
      && (e.reason.value in {"provider_fatal", "copilot_mcp_policy"} <==> fatal || (cancelled && provider))
      && (e.reason.value == "agent_failure_streak" <==> cancelled && it.cancel.reason == "agent_failure_streak")
      && (e.reason.value == "failed_exception" <==> !fatal && !breaker && !it.cancel.cancelled)
      && (e.reason.value == "cancelled_signal" <==>
            cancelled && !provider && it.cancel.reason != "agent_failure_streak")
  {
    assert PROVIDER_FATAL[0] == 'p' && AGENT_FAILURE_STREAK[0] == 'a' && COPILOT_MCP_POLICY[1] == 'o';
    assert "circuit_breaker"[1] == 'i' && "cancelled_signal"[1] == 'a' && "failed_exception"[0] == 'f';
    assert StartsWith(it.cancel.reason, PROVIDER_FATAL) ==> it.cancel.reason[0] == PROVIDER_FATAL[0];
  }

  /** The isolation boundary logs the step as skipped and tries to write INCOMPLETE. */
  predicate ReportedSkipped(v: Verdict, it: Iteration, logsResult: bool, hasCallback: bool) {
    var raised := StepRaise(v, it, logsResult, hasCallback);
    raised.Some? && IsException(raised.value)
  }

  /**
   In either loop, a dimension that started from scratch is reported as skipped by
   the boundary and yet recorded DONE exactly when evidence came back and what
   followed it - the log line, the callback or its retry - failed unrecognised.
   DONE was written first, and DONE is terminal.
   */
  lemma CallbackCannotUndoDone(
    before: DimTable, dim: string, v: Verdict, it: Iteration, logsResult: bool, hasCallback: bool)
    requires Unstarted(before, dim) && ReportedSkipped(v, it, logsResult, hasCallback)
    ensures var e := StepRaise(v, it, logsResult, hasCallback);
      var after := Written(
        StepTable(before, dim, v, it), dim, DimWrite(Incomplete, Some(InterruptionReason(e, it.cancel)), None));
      && (after[dim].state == Done <==> v.Analysed?)
      && (after[dim].state == Incomplete <==> v.Escapes?)
  {
  }

  /** Such an iteration, in each loop: evidence, then an AttributeError from the result callback. */
  lemma SkippedYetDone(it: Iteration)
    requires it.marker.None? && it.attempt == Returns(Some(Evidence(None))) && it.logResult.None?
    requires it.callback == Some(OtherException("AttributeError"))
    ensures IncrementalVerdict(it).Analysed? && ReportedSkipped(IncrementalVerdict(it), it, true, true)
    ensures PerDimVerdict(it).Analysed? && ReportedSkipped(PerDimVerdict(it), it, false, true) && Skipped(it, true)
    ensures Settled(IncrementalVerdict(it), it).state == Settled(PerDimVerdict(it), it).state == Done
  {
  }

  /** The guard reads the clock at the slice's start, or less than a floor later when everyone's floor fits. */
  ghost predicate PromptGuard(it: Iteration, start: real, floorsFit: bool) {
    && it.sliceClock == start && !it.checkCancelled
    && start <= it.checkClock
    && (it.checkClock == start || (floorsFit && it.checkClock < start + MIN_DIM_BUDGET))
  }

  /**
   A run that keeps to its slices and is not cancelled is never stopped by the
   deadline guard: from any positive budget when the guard follows at once, and with
   a floor for everyone when it follows within that floor.
   */
  lemma ObedientRunReachesEveryone(
    dims: seq<string>, counts: Option<map<string, nat>>, runDeadline: real,
    plan: seq<Iteration>, starts: seq<real>, i: nat)
    requires |plan| == |dims| == |starts| && i < |dims|
    requires Obedient(dims, counts, runDeadline, starts) && starts[0] < runDeadline
    requires PromptGuard(plan[i], starts[i], runDeadline - starts[0] >= MIN_DIM_BUDGET * |dims| as real)
    ensures !Refused(dims, counts, Some(runDeadline), plan, i)
  {
    NoDimensionStarves(dims, counts, runDeadline, starts, i);
    if plan[i].checkClock > starts[i] {
      ReserveSurvives(dims, counts, runDeadline, starts, i);
      SliceBounds(runDeadline - starts[i], RemainingCounts(counts, dims[i..]), |dims| - i);
    }
  }
}
