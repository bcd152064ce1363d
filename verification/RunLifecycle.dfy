/**
 The run's lifecycle (src/quodeq/analysis/run_lifecycle.py, _run_lifecycle_support.py).

 `Run` is the state machine: entering, the body and leaving are split into the
 steps between which a signal can land, and `Follows` plays any sequence of them.
 `RunLifecycleContext` is the class, with each method proved to be a play of the
 machine. Status writes and dimension writes are assumed to reach the disk.
 */
module RunLifecycle {
  import opened Prelude
  import opened RunRecords
  import Loop = DimensionLoop

  datatype Row = Row(state: RunState, exitReason: Option<string>)

  /** A raised object: its class name, the names of its bases (itself first), its `reason` attribute. */
  datatype Raised = Raised(mro: seq<string>, isSystemExit: bool, isBrokenPipe: bool, reason: Option<string>)

  datatype Cause = CleanReturn | ByException(exc: Raised)

  // ------------------------------------------------------ exit vocabulary

  const TIME_LIMIT := "time_limit"
  const DEADLINE := "deadline"
  const FAILURE_STREAK := "failure_streak"
  const INCOMPLETE_DIMENSIONS := "incomplete_dimensions"

  function ClassName(exc: Raised): string {
    if exc.mro == [] then "UnknownError" else exc.mro[0]
  }

  predicate Unfinished(entry: DimEntry) { entry.state == Pending || entry.state == Running }

  predicate AnyUnfinished(dims: DimTable) { exists d <- dims.Keys :: Unfinished(dims[d]) }

  predicate AnyTimeLimited(dims: DimTable) { exists d <- dims.Keys :: dims[d].exitReason == Some(TIME_LIMIT) }

  /** Every unfinished dimension flipped to INCOMPLETE for `reason`, the rest untouched. */
  function CloseOut(dims: DimTable, reason: string): DimTable {
    map d <- dims.Keys ::
      d := if Unfinished(dims[d]) then Merged(Some(dims[d]), DimWrite(Incomplete, Some(reason), None)) else dims[d]
  }

  predicate Blank(reason: Option<string>) { reason.None? || reason.value == "" }

  /** The exit reason of a run that returned normally, given the records it left. */
  function CleanReason(dims: DimTable, pending: Option<string>): Option<string> {
    if !Blank(pending) then pending
    else if AnyUnfinished(dims) then Some(INCOMPLETE_DIMENSIONS)
    else if AnyTimeLimited(dims) then Some(TIME_LIMIT)
    else None
  }

  /** The terminal row of a run whose body raised `exc`. Only a broken pipe keeps the pending reason. */
  function RaisedRow(exc: Raised, pending: Option<string>): Row {
    if exc.isSystemExit then Row(Cancelled, Some("systemexit"))
    else if exc.isBrokenPipe then Row(RunDone, pending)
    else if "CircuitBreakerError" in exc.mro then Row(Failed, Some(FAILURE_STREAK))
    else if "FatalProviderError" in exc.mro then
      Row(Failed, Some(ProviderExitReason(if exc.reason.Some? then exc.reason.value else "")))
    else Row(Failed, Some("exception: " + ClassName(exc)))
  }

  function SignalRow(name: string, deadlinePassed: bool): Row {
    Row(Cancelled, Some(if deadlinePassed then DEADLINE else "signal_" + name))
  }

  function SignalDimReason(deadlinePassed: bool): string {
    if deadlinePassed then TIME_LIMIT else "cancelled"
  }

  function Seeded(dims: DimTable, names: seq<string>): DimTable {
    if names == [] then dims
    else Written(Seeded(dims, names[..|names| - 1]), names[|names| - 1], DimWrite(Pending, None, None))
  }

  // ----------------------------------------------------- the state machine

  datatype Where =
    | Idle | HandlersIn | AtexitIn | PendingWritten | SeedsWritten
    | Body
    | Exiting(cause: Cause) | Finalized(cause: Cause) | DimsClosed(skipped: bool)
    | Recorded | HandlersOut
    | Outside | Ended

  datatype Run = Run(
    at: Where, state: RunState, row: Option<Row>, pending: Option<string>, dims: DimTable,
    handlers: bool, atexit: bool)

  datatype Event =
    | InstallHandlers | RegisterAtexit | WritePending | SeedDims(names: seq<string>) | GoRunning
    | AbortEntry
    | Publish | SetExitReason(reason: Option<string>) | BeginFinalizing | WriteDim(dim: string, w: DimWrite)
    | Leave(cause: Cause)
    | EnsureFinalizing | CloseDims | WriteDone | WriteRaised | SkipRecord
    | RestoreHandlers | DeregisterAtexit
    | AbortExit
    | Signal(name: string, deadlinePassed: bool)
    | ProcessExit

  function Fresh(dims: DimTable): Run {
    Run(Idle, RunPending, None, None, dims, false, false)
  }

  predicate Entering(w: Where) { w == HandlersIn || w == AtexitIn || w == PendingWritten || w == SeedsWritten }

  predicate InExit(w: Where) { w.Exiting? || w.Finalized? || w.DimsClosed? || w == Recorded || w == HandlersOut }

  predicate GoesThroughFinalizing(cause: Cause) {
    cause.CleanReturn? || (!cause.exc.isSystemExit && cause.exc.isBrokenPipe)
  }

  predicate Enabled(s: Run, e: Event) {
    match e
    case InstallHandlers => s.at == Idle
    case RegisterAtexit => s.at == HandlersIn
    case WritePending => s.at == AtexitIn
    case SeedDims(_) => s.at == PendingWritten
    case GoRunning => s.at == SeedsWritten
    case AbortEntry => Entering(s.at)
    case Publish => s.at != Idle && s.at != HandlersIn && s.at != Ended && (s.at == Outside ==> s.row.Some?)
    case SetExitReason(_) => s.at == Body
    case BeginFinalizing => s.at == Body && RunTransitionAllowed(s.state, Finalizing)
    case WriteDim(_, _) => s.at == Body
    case Leave(_) => s.at == Body
    case EnsureFinalizing => s.at.Exiting? && !RunTerminal(s.state) && GoesThroughFinalizing(s.at.cause)
    case CloseDims => s.at.Finalized? && s.at.cause.CleanReturn?
    case WriteDone => s.at.DimsClosed? || (s.at.Finalized? && !s.at.cause.CleanReturn?)
    case WriteRaised => s.at.Exiting? && !RunTerminal(s.state) && !GoesThroughFinalizing(s.at.cause)
    case SkipRecord => s.at.Exiting? && RunTerminal(s.state)
    case RestoreHandlers => s.at == Recorded
    case DeregisterAtexit => s.at == HandlersOut
    case AbortExit => InExit(s.at)
    case Signal(_, _) => s.handlers && s.at != Ended
    case ProcessExit => s.at == Outside
  }

  function WithRow(s: Run, at: Where, row: Row): Run {
    s.(at := at, state := row.state, row := Some(row))
  }

  function Next(s: Run, e: Event): Run
    requires Enabled(s, e)
  {
    match e
    case InstallHandlers => s.(at := HandlersIn, handlers := true)
    case RegisterAtexit => s.(at := AtexitIn, atexit := true)
    case WritePending => s.(at := PendingWritten, row := Some(Row(RunPending, None)))
    case SeedDims(names) => s.(at := SeedsWritten, dims := Seeded(s.dims, names))
    case GoRunning => WithRow(s, Body, Row(RunRunning, None))
    case AbortEntry => s.(at := Outside)
    case Publish => s.(row := Some(Row(s.state, None)))
    case SetExitReason(reason) => s.(pending := reason)
    case BeginFinalizing => WithRow(s, Body, Row(Finalizing, None))
    case WriteDim(dim, w) => s.(dims := Written(s.dims, dim, w))
    case Leave(cause) => s.(at := Exiting(cause))
    case EnsureFinalizing =>
      if s.state == Finalizing then s.(at := Finalized(s.at.cause))
      else WithRow(s, Finalized(s.at.cause), Row(Finalizing, None))
    case CloseDims => s.(at := DimsClosed(AnyUnfinished(s.dims)), dims := CloseOut(s.dims, "not_reached"))
    case WriteDone =>
      WithRow(s, Recorded, Row(RunDone,
        if s.at.Finalized? || !Blank(s.pending) then s.pending
        else if s.at.skipped then Some(INCOMPLETE_DIMENSIONS)
        else if AnyTimeLimited(s.dims) then Some(TIME_LIMIT)
        else None))
    case WriteRaised => WithRow(s, Recorded, RaisedRow(s.at.cause.exc, s.pending))
    case SkipRecord => s.(at := Recorded)
    case RestoreHandlers => s.(at := HandlersOut, handlers := false)
    case DeregisterAtexit => s.(at := Outside, atexit := false)
    case AbortExit => s.(at := Outside)
    case Signal(name, deadlinePassed) =>
      // The handler raises SystemExit: through the body into __exit__, or straight out.
      WithRow(
        s, if s.at == Body then Exiting(ByException(SYSTEM_EXIT)) else Outside,
        SignalRow(name, deadlinePassed)).(dims := CloseOut(s.dims, SignalDimReason(deadlinePassed)))
    case ProcessExit =>
      s.(at := Ended, row :=
        if s.atexit && s.row.Some? && !RunTerminal(s.row.value.state)
        then Some(UNFINALIZED) else s.row)
  }

  /** The row of a run that its process left open. */
  const UNFINALIZED := Row(Cancelled, Some("atexit_unfinalized"))

  const SYSTEM_EXIT := Raised.Raised(["SystemExit", "BaseException", "object"], true, false, None)

  ghost predicate Follows(s: Run, events: seq<Event>)
    decreases |events|
  {
    events != [] ==> Enabled(s, events[0]) && Follows(Next(s, events[0]), events[1..])
  }

  function Play(s: Run, events: seq<Event>): Run
    requires Follows(s, events)
    decreases |events|
  {
    if events == [] then s else Play(Next(s, events[0]), events[1..])
  }

  // ------------------------------------------------------ every run is closed

  /** What holds between any two steps of any run. */
  ghost predicate Inv(s: Run) {
    && (s.at == Idle || s.at == HandlersIn ==> s.row.None?)
    && (s.row.Some? && s.at != Ended ==> s.row.value.state == s.state)
    && (RunTerminal(s.state) ==> s.row.Some? && RunTerminal(s.row.value.state))
    && (s.row.Some? && s.at != Ended && !RunTerminal(s.row.value.state) ==> s.atexit && s.handlers)
    && (Entering(s.at) || s.at == Idle ==> s.state == RunPending)
    && (s.at == Body ==> s.state == RunRunning || s.state == Finalizing)
    && (s.at.Exiting? && !RunTerminal(s.state) ==> s.state == RunRunning || s.state == Finalizing)
    && (s.at.Finalized? || s.at.DimsClosed? ==> s.state == Finalizing)
    && (s.at == Recorded || s.at == HandlersOut ==> RunTerminal(s.state))
    && (s.at == AtexitIn || s.at == PendingWritten || s.at == SeedsWritten || s.at == Body || InExit(s.at) ==> s.atexit)
    && (Entering(s.at) || s.at == Body || (InExit(s.at) && s.at != HandlersOut) ==> s.handlers)
    && (s.at == Outside && s.row.Some? && !s.atexit ==> RunTerminal(s.state))
    && (s.at == Ended && s.row.Some? ==>
          if RunTerminal(s.state) then s.row.value.state == s.state else s.row == Some(UNFINALIZED))
  }

  predicate IsExitStep(e: Event) {
    e.EnsureFinalizing? || e.CloseDims? || e.WriteDone? || e.WriteRaised? || e.SkipRecord?
    || e.RestoreHandlers? || e.DeregisterAtexit? || e.AbortExit?
  }

  lemma ExitStepKeepsInv(s: Run, e: Event)
    requires Inv(s) && Enabled(s, e) && IsExitStep(e)
    ensures Inv(Next(s, e))
  {
  }

  lemma SignalKeepsInv(s: Run, name: string, late: bool)
    requires Inv(s) && Enabled(s, Signal(name, late))
    ensures Inv(Next(s, Signal(name, late)))
  {
  }

  lemma PublishKeepsInv(s: Run)
    requires Inv(s) && Enabled(s, Publish)
    ensures Inv(Next(s, Publish))
  {
  }

  lemma OtherStepKeepsInv(s: Run, e: Event)
    requires Inv(s) && Enabled(s, e) && !IsExitStep(e) && !e.Signal? && !e.Publish?
    ensures Inv(Next(s, e))
  {
  }

  lemma NextKeepsInv(s: Run, e: Event)
    requires Inv(s) && Enabled(s, e)
    ensures Inv(Next(s, e))
  {
    if IsExitStep(e) {
      ExitStepKeepsInv(s, e);
    } else if e.Signal? {
      SignalKeepsInv(s, e.name, e.deadlinePassed);
    } else if e.Publish? {
      PublishKeepsInv(s);
    } else {
      OtherStepKeepsInv(s, e);
    }
  }

  lemma {:induction false} PlayKeepsInv(s: Run, events: seq<Event>)
    requires Inv(s) && Follows(s, events)
    ensures Inv(Play(s, events))
    decreases |events|
  {
    if events != [] {
      NextKeepsInv(s, events[0]);
      PlayKeepsInv(Next(s, events[0]), events[1..]);
    }
  }

  /**
   Whatever happens, a run that wrote a status row has a terminal one once its process
   has ended: that of the state it reached, or the fallback's when it reached none.
   */
  lemma EveryRunIsClosed(dims: DimTable, events: seq<Event>)
    requires Follows(Fresh(dims), events)
    requires Play(Fresh(dims), events).at == Ended
    ensures var end := Play(Fresh(dims), events);
      end.row.Some? ==>
        RunTerminal(end.row.value.state)
        && if RunTerminal(end.state) then end.row.value.state == end.state
          else end.row == Some(Row(Cancelled, Some("atexit_unfinalized")))
  {
    PlayKeepsInv(Fresh(dims), events);
  }

  /** Where `__exit__` leaves an open run: closed records, the row of the cause, hooks removed. */
  function AfterExit(s: Run, cause: Cause): Run {
    var row :=
      if cause.CleanReturn? then Row(RunDone, CleanReason(s.dims, s.pending)) else RaisedRow(cause.exc, s.pending);
    s.(at := Outside, state := row.state, row := Some(row), handlers := false, atexit := false,
       dims := if cause.CleanReturn? then CloseOut(s.dims, "not_reached") else s.dims)
  }

  /** The run `s` is still open and on its way out since it left the body of `b` for `cause`. */
  ghost predicate Since(b: Run, cause: Cause, s: Run) {
    && b.at == Body && s.pending == b.pending && !RunTerminal(s.state)
    && match s.at
       case Exiting(c) => c == cause && s.dims == b.dims
       case Finalized(c) => c == cause && s.dims == b.dims && GoesThroughFinalizing(cause)
       case DimsClosed(skipped) =>
         cause.CleanReturn? && s.dims == CloseOut(b.dims, "not_reached") && skipped == AnyUnfinished(b.dims)
       case _ => false
  }

  predicate OnTheWayOut(s: Run) {
    !RunTerminal(s.state) && (s.at.Exiting? || s.at.Finalized? || s.at.DimsClosed?)
  }

  /** Publishing progress and the exit's own steps do not forget what the run left with. */
  lemma SinceGoesOn(b: Run, cause: Cause, s: Run, e: Event)
    requires Since(b, cause, s) && Enabled(s, e) && OnTheWayOut(Next(s, e))
    ensures Since(b, cause, Next(s, e))
  {
  }

  /** The step that closes such a run writes the row an uninterrupted exit would have written. */
  lemma SinceEndsDue(b: Run, cause: Cause, s: Run, e: Event)
    requires Since(b, cause, s) && Enabled(s, e) && (e.WriteDone? || e.WriteRaised?)
    ensures Next(s, e).row == AfterExit(b, cause).row
  {
    CloseOutFinishes(b.dims, "not_reached");
  }

  /** The only steps that make a run terminal, each with the row its cause is due. */
  lemma TerminalRowMatchesCause(s: Run, e: Event)
    requires Inv(s) && Enabled(s, e) && !RunTerminal(s.state) && RunTerminal(Next(s, e).state)
    ensures var end := Next(s, e);
      match e
      case Signal(name, late) => end.row == Some(SignalRow(name, late)) && !AnyUnfinished(end.dims)
      case WriteRaised =>
        end.row.value.state != RunDone && forall b, c :: Since(b, c, s) ==> end.row == AfterExit(b, c).row
      case WriteDone =>
        end.row.value.state == RunDone && forall b, c :: Since(b, c, s) ==> end.row == AfterExit(b, c).row
      case _ => false
  {
    if e.Signal? {
      CloseOutFinishes(s.dims, SignalDimReason(e.deadlinePassed));
    } else {
      forall b, c | Since(b, c, s) ensures Next(s, e).row == AfterExit(b, c).row { SinceEndsDue(b, c, s, e); }
    }
  }

  /** A pending clean-stop reason never labels a failure or a cancellation. */
  lemma PendingReasonNeverLabelsAFailure(s: Run, e: Event, other: Option<string>)
    requires Inv(s) && Enabled(s, e) && !RunTerminal(s.state)
    requires RunTerminal(Next(s, e).state) && Next(s, e).state != RunDone
    ensures Next(s.(pending := other), e).row == Next(s, e).row
  {
  }

  lemma {:induction false} PlayConcat(s: Run, a: seq<Event>, b: seq<Event>)
    requires Follows(s, a + b)
    ensures Follows(s, a) && Follows(Play(s, a), b) && Play(s, a + b) == Play(Play(s, a), b)
    decreases |a|
  {
    if a == [] {
      assert a + b == b;
    } else {
      assert (a + b)[0] == a[0] && (a + b)[1..] == a[1..] + b;
      PlayConcat(Next(s, a[0]), a[1..], b);
    }
  }

  /** No later step touches a terminal row unless it publishes progress or is another signal. */
  lemma {:induction false} ClosedRowStands(s: Run, events: seq<Event>)
    requires Inv(s) && RunTerminal(s.state) && Follows(s, events)
    requires forall e <- events :: !e.Publish? && !e.Signal?
    ensures Play(s, events).row == s.row
    decreases |events|
  {
    if events != [] {
      var e := events[0];
      assert e in events && forall x :: x in events[1..] ==> x in events;
      NextKeepsInv(s, e);
      ClosedRowStands(Next(s, e), events[1..]);
    }
  }

  /** Step `k` of the run leaves the body. */
  ghost predicate LeftAt(dims: DimTable, events: seq<Event>, k: nat) {
    k < |events| && events[k].Leave? && Follows(Fresh(dims), events[..k]) && Play(Fresh(dims), events[..k]).at == Body
  }

  /** `row` is what an uninterrupted exit writes for some departure from the body among `events`. */
  ghost predicate IsDueToLeaving(dims: DimTable, events: seq<Event>, row: Option<Row>) {
    exists k: nat ::
      LeftAt(dims, events, k) && row == AfterExit(Play(Fresh(dims), events[..k]), events[k].cause).row
  }

  lemma PlaySnoc(s: Run, events: seq<Event>)
    requires events != [] && Follows(s, events)
    ensures var init := events[..|events| - 1];
      && Follows(s, init) && Enabled(Play(s, init), events[|events| - 1])
      && Play(s, events) == Next(Play(s, init), events[|events| - 1])
  {
    var init, last := events[..|events| - 1], events[|events| - 1];
    assert events == init + [last];
    PlayConcat(s, init, [last]);
    var t := Play(s, init);
    assert Follows(t, [last]) && [last][1..] == [];
    assert Play(t, [last]) == Play(Next(t, last), []);
  }

  /** A run on its way out did leave the body, with the records and the pending reason it still has. */
  lemma {:induction false} WasLeft(dims: DimTable, events: seq<Event>) returns (k: nat)
    requires Follows(Fresh(dims), events) && OnTheWayOut(Play(Fresh(dims), events))
    ensures LeftAt(dims, events, k)
    ensures Since(Play(Fresh(dims), events[..k]), events[k].cause, Play(Fresh(dims), events))
    decreases |events|
  {
    assert events != [];
    var init, e := events[..|events| - 1], events[|events| - 1];
    PlaySnoc(Fresh(dims), events);
    PlayKeepsInv(Fresh(dims), init);
    var t := Play(Fresh(dims), init);
    if t.at == Body {
      k := |init|;
    } else {
      k := WasLeft(dims, init);
      assert events[..k] == init[..k];
      SinceGoesOn(Play(Fresh(dims), init[..k]), init[k].cause, t, e);
    }
  }

  /**
   Whole runs: the step that first makes a run terminal decides the row it ends
   with. A signal writes its own row; otherwise it is the row an uninterrupted exit
   writes for the cause, the records and the pending reason the body was left with.
   */
  lemma FinalRowIsTheFirstCause(dims: DimTable, before: seq<Event>, e: Event, after: seq<Event>)
    requires Follows(Fresh(dims), before + ([e] + after))
    requires Follows(Fresh(dims), before) && !RunTerminal(Play(Fresh(dims), before).state)
    requires Enabled(Play(Fresh(dims), before), e) && RunTerminal(Next(Play(Fresh(dims), before), e).state)
    requires forall x <- after :: !x.Publish? && !x.Signal?
    ensures var end := Play(Fresh(dims), before + ([e] + after));
      if e.Signal? then end.row == Some(SignalRow(e.name, e.deadlinePassed))
      else IsDueToLeaving(dims, before, end.row)
  {
    var s := Play(Fresh(dims), before);
    PlayConcat(Fresh(dims), before, [e] + after);
    assert ([e] + after)[1..] == after;
    PlayKeepsInv(Fresh(dims), before);
    NextKeepsInv(s, e);
    TerminalRowMatchesCause(s, e);
    ClosedRowStands(Next(s, e), after);
    if !e.Signal? {
      var k := WasLeft(dims, before);
      assert LeftAt(dims, before, k);
    }
  }

  /**
   Once terminal, the row stands exactly as long as nothing is published after it:
   a late progress update rewrites the row without its exit reason.
   */
  lemma {:induction false} RowStandsIff(s: Run, events: seq<Event>)
    requires Inv(s) && RunTerminal(s.state) && s.at != Ended && Follows(s, events)
    requires s.row.value.exitReason.Some? && s.row.value.state == s.state
    requires forall e <- events :: !e.Signal?
    ensures Play(s, events).row == s.row <==> forall e <- events :: !e.Publish?
    decreases |events|
  {
    if events != [] {
      var e := events[0];
      var s' := Next(s, e);
      NextKeepsInv(s, e);
      assert forall x :: x in events <==> x == e || x in events[1..];
      if e.Publish? {
        BareRowStaysBare(s', events[1..]);
      } else if s'.at != Ended {
        RowStandsIff(s', events[1..]);
      } else {
        assert events[1..] == [];
      }
    }
  }

  lemma {:induction false} BareRowStaysBare(s: Run, events: seq<Event>)
    requires Inv(s) && RunTerminal(s.state) && Follows(s, events)
    requires s.row.value.exitReason.None?
    requires forall e <- events :: !e.Signal?
    ensures Play(s, events).row.Some? && Play(s, events).row.value.exitReason.None?
    decreases |events|
  {
    if events != [] {
      NextKeepsInv(s, events[0]);
      BareRowStaysBare(Next(s, events[0]), events[1..]);
    }
  }

  // ------------------------------------------------------ entry and exit

  /** The uninterrupted steps of `__enter__`. */
  function EntryEvents(names: seq<string>): seq<Event> {
    [InstallHandlers] + ([RegisterAtexit] + ([WritePending] + ([SeedDims(names)] + ([GoRunning] + []))))
  }

  lemma EntryPlays(s: Run, names: seq<string>)
    requires s == Fresh(s.dims)
    ensures Follows(s, EntryEvents(names))
    ensures Play(s, EntryEvents(names))
      == Entered(s.dims, names)
  {
    var s1 := Next(s, InstallHandlers);
    var s2 := Next(s1, RegisterAtexit);
    var s3 := Next(s2, WritePending);
    var s4 := Next(s3, SeedDims(names));
    PlayCons(s4, GoRunning, []);
    PlayCons(s3, SeedDims(names), [GoRunning] + []);
    PlayCons(s2, WritePending, [SeedDims(names)] + ([GoRunning] + []));
    PlayCons(s1, RegisterAtexit, [WritePending] + ([SeedDims(names)] + ([GoRunning] + [])));
    PlayCons(s, InstallHandlers, [RegisterAtexit] + ([WritePending] + ([SeedDims(names)] + ([GoRunning] + []))));
  }

  lemma CloseOutFinishes(dims: DimTable, reason: string)
    ensures !AnyUnfinished(CloseOut(dims, reason))
    ensures CloseOut(dims, reason).Keys == dims.Keys
    ensures AnyTimeLimited(CloseOut(dims, reason)) <==> AnyTimeLimited(dims)
    ensures !AnyUnfinished(dims) ==> CloseOut(dims, reason) == dims
  {
    var closed := CloseOut(dims, reason);
    if d :| d in dims.Keys && dims[d].exitReason == Some(TIME_LIMIT) {
      assert closed[d].exitReason == Some(TIME_LIMIT);
    }
    if d :| d in closed.Keys && closed[d].exitReason == Some(TIME_LIMIT) {
      assert dims[d].exitReason == Some(TIME_LIMIT);
    }
  }

  /** What closing out does to one record: an open one says so and why, a finished one stays. */
  lemma CloseOutRecordsWhy(dims: DimTable, reason: string, d: string)
    requires d in dims
    ensures var e, after := dims[d], CloseOut(dims, reason)[d];
      if e.state == Pending || e.state == Running
      then
        after.state == Incomplete && after.exitReason == e.exitReason
        && (reason != "" ==> after.reason == Some(reason))
      else after == e
  {
  }

  const HOOKS_OFF: seq<Event> := [RestoreHandlers, DeregisterAtexit]

  /** The uninterrupted steps of `__exit__` for one cause. */
  function ExitEvents(cause: Cause): seq<Event> {
    [Leave(cause)] +
      if cause.CleanReturn? then [EnsureFinalizing] + ([CloseDims] + ([WriteDone] + HOOKS_OFF))
      else if GoesThroughFinalizing(cause) then [EnsureFinalizing] + ([WriteDone] + HOOKS_OFF)
      else [WriteRaised] + HOOKS_OFF
  }

  lemma PlayCons(s: Run, e: Event, rest: seq<Event>)
    requires Enabled(s, e) && Follows(Next(s, e), rest)
    ensures Follows(s, [e] + rest) && Play(s, [e] + rest) == Play(Next(s, e), rest)
  {
    assert ([e] + rest)[1..] == rest;
  }

  /** The hooks come off once the run is recorded. */
  lemma HooksComeOff(s: Run)
    requires s.at == Recorded
    ensures Follows(s, HOOKS_OFF)
    ensures Play(s, HOOKS_OFF) == s.(at := Outside, handlers := false, atexit := false)
  {
    var s1 := Next(s, RestoreHandlers);
    PlayCons(s1, DeregisterAtexit, []);
    PlayCons(s, RestoreHandlers, [DeregisterAtexit] + []);
  }

  lemma ExitPlaysRaised(s: Run, cause: Cause)
    requires Inv(s) && s.at == Body && !GoesThroughFinalizing(cause)
    ensures Follows(s, ExitEvents(cause)) && Play(s, ExitEvents(cause)) == AfterExit(s, cause)
  {
    var s1 := Next(s, Leave(cause));
    HooksComeOff(Next(s1, WriteRaised));
    PlayCons(s1, WriteRaised, HOOKS_OFF);
    PlayCons(s, Leave(cause), [WriteRaised] + HOOKS_OFF);
  }

  lemma ExitPlaysBrokenPipe(s: Run, cause: Cause)
    requires Inv(s) && s.at == Body && GoesThroughFinalizing(cause) && !cause.CleanReturn?
    ensures Follows(s, ExitEvents(cause)) && Play(s, ExitEvents(cause)) == AfterExit(s, cause)
  {
    var s1 := Next(s, Leave(cause));
    var s2 := Next(s1, EnsureFinalizing);
    HooksComeOff(Next(s2, WriteDone));
    PlayCons(s2, WriteDone, HOOKS_OFF);
    PlayCons(s1, EnsureFinalizing, [WriteDone] + HOOKS_OFF);
    PlayCons(s, Leave(cause), [EnsureFinalizing] + ([WriteDone] + HOOKS_OFF));
  }

  lemma CleanTailPlays(s: Run)
    requires s.at == Finalized(CleanReturn)
    ensures Follows(s, [CloseDims] + ([WriteDone] + HOOKS_OFF))
    ensures Play(s, [CloseDims] + ([WriteDone] + HOOKS_OFF)) == AfterExit(s, CleanReturn)
  {
    CloseOutFinishes(s.dims, "not_reached");
    var closed := Next(s, CloseDims);
    var done := Next(closed, WriteDone);
    assert done.row == Some(Row(RunDone, CleanReason(s.dims, s.pending)));
    HooksComeOff(done);
    PlayCons(closed, WriteDone, HOOKS_OFF);
    PlayCons(s, CloseDims, [WriteDone] + HOOKS_OFF);
  }

  lemma ExitPlaysClean(s: Run)
    requires Inv(s) && s.at == Body
    ensures Follows(s, ExitEvents(CleanReturn)) && Play(s, ExitEvents(CleanReturn)) == AfterExit(s, CleanReturn)
  {
    var s1 := Next(s, Leave(CleanReturn));
    var s2 := Next(s1, EnsureFinalizing);
    var tail := [CloseDims] + ([WriteDone] + HOOKS_OFF);
    CleanTailPlays(s2);
    PlayCons(s1, EnsureFinalizing, tail);
    PlayCons(s, Leave(CleanReturn), [EnsureFinalizing] + tail);
  }

  /** Leaving without interruption is a play of the machine, for every cause. */
  lemma ExitPlays(s: Run, cause: Cause)
    requires Inv(s) && s.at == Body
    ensures Follows(s, ExitEvents(cause)) && Play(s, ExitEvents(cause)) == AfterExit(s, cause)
  {
    if cause.CleanReturn? {
      ExitPlaysClean(s);
    } else if GoesThroughFinalizing(cause) {
      ExitPlaysBrokenPipe(s, cause);
    } else {
      ExitPlaysRaised(s, cause);
    }
  }

  /**
   A normal return leaves nothing unfinished and is DONE; its reason is the pending one
   if there is one, else whether a record was unfinished, else whether one ran out of
   time, and it is empty exactly when none of these holds.
   */
  lemma CleanExitTellsTheTruth(s: Run)
    requires Inv(s) && s.at == Body
    ensures var end := AfterExit(s, CleanReturn);
      && !AnyUnfinished(end.dims) && end.row.value.state == RunDone
      && var unfinished := exists d <- s.dims.Keys :: s.dims[d].state == Pending || s.dims[d].state == Running;
         var late := exists d <- s.dims.Keys :: s.dims[d].exitReason == Some("time_limit");
         var reason := end.row.value.exitReason;
         && (!Blank(s.pending) ==> reason == s.pending)
         && (Blank(s.pending) ==>
              && (reason == Some("incomplete_dimensions") <==> unfinished)
              && (reason == Some("time_limit") <==> !unfinished && late)
              && (reason == None <==> !unfinished && !late))
  {
    CloseOutFinishes(s.dims, "not_reached");
    assert INCOMPLETE_DIMENSIONS[0] == 'i' && TIME_LIMIT[0] == 't';
  }

  /** The row of a run left by a raised object tells which kind it was, each from every other. */
  lemma ExitRowNamesItsCause(s: Run, exc: Raised)
    ensures var row := AfterExit(s, ByException(exc)).row.value;
      var plain := !exc.isSystemExit && !exc.isBrokenPipe;
      var breaker, fatal := "CircuitBreakerError" in exc.mro, "FatalProviderError" in exc.mro;
      && (row.state == Cancelled <==> exc.isSystemExit)
      && (row.state == RunDone <==> !exc.isSystemExit && exc.isBrokenPipe)
      && (row.state == Cancelled ==> row.exitReason == Some("systemexit"))
      && (row.state == RunDone ==> row.exitReason == s.pending)
      && (row == Row(Failed, Some("failure_streak")) <==> plain && breaker)
      && (row.state == Failed && row.exitReason in {Some("provider_fatal"), Some("copilot_mcp_policy")} <==>
            plain && !breaker && fatal)
      && (row == Row(Failed, Some("exception: " + ClassName(exc))) <==> plain && !breaker && !fatal)
  {
    var reason := if exc.reason.Some? then exc.reason.value else "";
    ProviderExitReasonIff(reason);
    assert FAILURE_STREAK[0] == 'f' && PROVIDER_FATAL[0] == 'p' && COPILOT_MCP_POLICY[0] == 'c';
    assert ("exception: " + ClassName(exc))[0] == 'e';
  }

  /** A provider failure keeps its policy code exactly when it carried it. */
  lemma ExitRowKeepsThePolicyCode(s: Run, exc: Raised)
    requires !exc.isSystemExit && !exc.isBrokenPipe
    requires "CircuitBreakerError" !in exc.mro && "FatalProviderError" in exc.mro
    ensures AfterExit(s, ByException(exc)).row == Some(Row(Failed, Some("copilot_mcp_policy"))) <==>
      exc.reason.Some? && ProviderExitReason(exc.reason.value) == COPILOT_MCP_POLICY
  {
    ProviderExitReasonIff("");
  }

  /** A signal cancels; its reason says "deadline" exactly when the deadline had passed, and every open record why. */
  lemma SignalRowNamesItsCause(s: Run, name: string, late: bool)
    requires Enabled(s, Signal(name, late))
    ensures var end := Next(s, Signal(name, late));
      && end.state == Cancelled
      && (end.row == Some(Row(Cancelled, Some("deadline"))) <==> late)
      && (end.row == Some(Row(Cancelled, Some("signal_" + name))) <==> !late)
      && end.dims.Keys == s.dims.Keys
      && forall d <- s.dims.Keys :: s.dims[d].state == Pending || s.dims[d].state == Running ==>
           end.dims[d].state == Incomplete && end.dims[d].reason == Some(if late then "time_limit" else "cancelled")
  {
    assert "deadline"[0] == 'd' && ("signal_" + name)[0] == 's';
    forall d <- s.dims.Keys {
      CloseOutRecordsWhy(s.dims, if late then "time_limit" else "cancelled", d);
    }
  }

  /** From the first row to the terminal one, the handlers and the fallback are in place. */
  lemma OpenRowIsGuarded(dims: DimTable, events: seq<Event>)
    requires Follows(Fresh(dims), events)
    ensures var s := Play(Fresh(dims), events);
      s.row.Some? && s.at != Ended && !RunTerminal(s.state) ==> s.handlers && s.atexit
  {
    PlayKeepsInv(Fresh(dims), events);
  }

  // ----------------------------------------------- the loop inside the run

  lemma {:induction false} SeedingIsFresh(names: seq<string>)
    ensures forall d :: d in Seeded(map[], names) <==> d in names
    ensures forall d <- names :: Seeded(map[], names)[d] == DimEntry(Pending, None, None)
  {
    if names != [] {
      var init := names[..|names| - 1];
      SeedingIsFresh(init);
      assert names == init + [names[|names| - 1]];
    }
  }

  /** What a reader takes for a complete run: DONE with an empty reason. */
  predicate ReadsAsComplete(row: Option<Row>) {
    row.Some? && row.value.state == RunDone && Blank(row.value.exitReason)
  }

  predicate IsBrokenPipe(cause: Cause) { GoesThroughFinalizing(cause) && !cause.CleanReturn? }

  /**
   Which exits read as a complete run, over every cause: without a clean-stop reason,
   a normal return that left nothing unfinished or time-limited, and any broken pipe.
   */
  lemma ReadsAsCompleteIff(s: Run, cause: Cause)
    requires Inv(s) && s.at == Body
    ensures ReadsAsComplete(AfterExit(s, cause).row) <==>
      Blank(s.pending)
      && (IsBrokenPipe(cause) || (cause.CleanReturn? && !AnyUnfinished(s.dims) && !AnyTimeLimited(s.dims)))
    ensures !cause.CleanReturn? ==> AfterExit(s, cause).dims == s.dims
  {
  }

  /** What an unfinished dimension after the loop means for any records it started from. */
  ghost predicate UnreachedOnRecord(before: DimTable, dims: seq<string>, touched: nat)
    requires touched <= |dims|
  {
    exists d <- before.Keys :: d !in dims[..touched] && Unfinished(before[d])
  }

  lemma UnfinishedIffOnRecord(
    before: DimTable, after: DimTable,
    dims: seq<string>, verdicts: seq<Loop.Verdict>, plan: seq<Loop.Iteration>, touched: nat)
    requires touched <= |dims| == |plan| == |verdicts|
    requires Loop.PrefixSettled(before, after, dims, verdicts, plan, touched, false)
    ensures AnyUnfinished(after) <==> UnreachedOnRecord(before, dims, touched)
  {
    if d :| d in before.Keys && d !in dims[..touched] && Unfinished(before[d]) {
      assert d in after.Keys && after[d] == before[d];
    }
    assert forall d <- dims[..touched] :: d in after && !Unfinished(after[d]);
    if d :| d in after.Keys && Unfinished(after[d]) {
      assert d in before.Keys && after[d] == before[d];
    }
  }

  /**
   A normal return after an early break is recorded as incomplete exactly when a
   dimension the loop did not reach was already on record, whatever the records.
   */
  lemma EarlyBreakIsRecordedIff(
    before: DimTable, after: DimTable,
    dims: seq<string>, verdicts: seq<Loop.Verdict>, plan: seq<Loop.Iteration>, touched: nat, pending: Option<string>)
    requires touched <= |dims| == |plan| == |verdicts|
    requires Loop.PrefixSettled(before, after, dims, verdicts, plan, touched, false)
    ensures Blank(pending) ==>
      (CleanReason(after, pending) == Some(INCOMPLETE_DIMENSIONS) <==> UnreachedOnRecord(before, dims, touched))
    ensures CleanReason(after, pending).None? <==>
      Blank(pending) && !UnreachedOnRecord(before, dims, touched) && !AnyTimeLimited(after)
  {
    UnfinishedIffOnRecord(before, after, dims, verdicts, plan, touched);
  }

  lemma SeededOnRecordIff(dims: seq<string>, touched: nat)
    requires Distinct(dims) && touched <= |dims|
    ensures UnreachedOnRecord(Seeded(map[], dims), dims, touched) <==> touched < |dims|
  {
    SeedingIsFresh(dims);
    if touched < |dims| {
      assert dims[touched] in Seeded(map[], dims).Keys && dims[touched] !in dims[..touched];
    } else {
      assert dims[..touched] == dims;
    }
  }

  /**
   With every dimension seeded, over every cause: the run reads as complete exactly
   when no clean-stop reason was set and either the body returned with every
   dimension reached and none time-limited, or its standard output broke. So the one
   exit through which an early break passes for a complete run is a broken pipe, and
   its dimensions then stay unfinished on record.
   */
  lemma EarlyBreakReadsAsCompleteIff(
    s: Run, cause: Cause,
    dims: seq<string>, verdicts: seq<Loop.Verdict>, plan: seq<Loop.Iteration>, touched: nat)
    requires Inv(s) && s.at == Body
    requires Distinct(dims) && touched <= |dims| == |plan| == |verdicts|
    requires Loop.PrefixSettled(Seeded(map[], dims), s.dims, dims, verdicts, plan, touched, false)
    ensures ReadsAsComplete(AfterExit(s, cause).row) <==>
      Blank(s.pending)
      && (IsBrokenPipe(cause) || (cause.CleanReturn? && touched == |dims| && !AnyTimeLimited(s.dims)))
    ensures AnyUnfinished(AfterExit(s, cause).dims) <==> touched < |dims| && !cause.CleanReturn?
  {
    ReadsAsCompleteIff(s, cause);
    UnfinishedIffOnRecord(Seeded(map[], dims), s.dims, dims, verdicts, plan, touched);
    SeededOnRecordIff(dims, touched);
    CloseOutFinishes(s.dims, "not_reached");
  }

  const BROKEN_PIPE := Raised.Raised(["BrokenPipeError", "ConnectionError", "OSError"], false, true, None)

  lemma {:induction false} FollowsConcat(s: Run, a: seq<Event>, b: seq<Event>)
    requires Follows(s, a) && Follows(Play(s, a), b)
    ensures Follows(s, a + b) && Play(s, a + b) == Play(Play(s, a), b)
    decreases |a|
  {
    if a == [] {
      assert a + b == b;
    } else {
      assert (a + b)[0] == a[0] && (a + b)[1..] == a[1..] + b;
      FollowsConcat(Next(s, a[0]), a[1..], b);
    }
  }

  lemma SeededOne(dim: string)
    ensures Seeded(map[], [dim]) == map[dim := DimEntry(Pending, None, None)]
  {
    assert [dim][..0] == [];
    assert Seeded(map[], [dim]) == Written(map[], dim, DimWrite(Pending, None, None));
  }

  /** Entered with `names` seeded, nothing done yet. */
  function Entered(dims: DimTable, names: seq<string>): Run {
    Run(Body, RunRunning, Some(Row(RunRunning, None)), None, Seeded(dims, names), true, true)
  }

  lemma EnterAndLeave(names: seq<string>, cause: Cause)
    ensures var events := EntryEvents(names) + ExitEvents(cause);
      Follows(Fresh(map[]), events) && Play(Fresh(map[]), events) == AfterExit(Entered(map[], names), cause)
  {
    EntryPlays(Fresh(map[]), names);
    ExitPlays(Entered(map[], names), cause);
    FollowsConcat(Fresh(map[]), EntryEvents(names), ExitEvents(cause));
  }

  /** Such a run: one seeded dimension, a loop that reaches none, and a broken pipe out of the body. */
  lemma BrokenPipeHidesAnEarlyBreak()
    ensures var events := EntryEvents(["security"]) + ExitEvents(ByException(BROKEN_PIPE));
      && Follows(Fresh(map[]), events)
      && var end := Play(Fresh(map[]), events);
         end.row == Some(Row(RunDone, None)) && end.dims == map["security" := DimEntry(Pending, None, None)]
  {
    EnterAndLeave(["security"], ByException(BROKEN_PIPE));
    SeededOne("security");
  }

  /** A cancelled run whose progress is published once more after the exit keeps its state and loses its reason. */
  lemma LatePublishDropsTheReason()
    ensures var events := EntryEvents([]) + ExitEvents(ByException(SYSTEM_EXIT)) + [Publish];
      Follows(Fresh(map[]), events) && Play(Fresh(map[]), events).row == Some(Row(Cancelled, None))
  {
    var cause := ByException(SYSTEM_EXIT);
    EnterAndLeave([], cause);
    PublishOnce(AfterExit(Entered(map[], []), cause));
    FollowsConcat(Fresh(map[]), EntryEvents([]) + ExitEvents(cause), [Publish]);
  }

  lemma PublishOnce(s: Run)
    requires Enabled(s, Publish)
    ensures Follows(s, [Publish]) && Play(s, [Publish]) == s.(row := Some(Row(s.state, None)))
  {
    assert [Publish] + [] == [Publish];
    PlayCons(s, Publish, []);
  }

  /** Without seeds an early break before the first dimension leaves no trace: the run reads as complete. */
  lemma UnseededEarlyBreakIsSilent(dims: seq<string>, verdicts: seq<Loop.Verdict>, plan: seq<Loop.Iteration>)
    requires 0 < |dims| == |plan| == |verdicts|
    ensures Loop.PrefixSettled(map[], map[], dims, verdicts, plan, 0, false)
    ensures CleanReason(map[], None).None?
  {
  }

  // ------------------------------------------------------------- the class

  class RunLifecycleContext {
    var currentState: RunState
    var pendingExitReason: Option<string>
    var row: Option<Row>
    var dims: DimTable
    var handlers: bool
    var atexit: bool
    const dimensions: seq<string>

    /** `dims` is what dimensions.json already holds. */
    constructor (dimensions: seq<string>, dims: DimTable)
      ensures this.dimensions == dimensions
      ensures View(Idle) == Fresh(dims)
    {
      this.dimensions, this.dims := dimensions, dims;
      currentState, pendingExitReason, row, handlers, atexit := RunPending, None, None, false, false;
    }

    ghost function View(at: Where): Run
      reads this
    {
      Run(at, currentState, row, pendingExitReason, dims, handlers, atexit)
    }

    /** Writes the status row; presentation fields are left out. */
    method WriteRow(state: RunState, exitReason: Option<string>)
      modifies this`row
      ensures row == Some(Row(state, exitReason))
    {
      row := Some(Row(state, exitReason));
    }

    /** A validated transition; an illegal one raises and changes nothing. */
    method Transition(newState: RunState, exitReason: Option<string>) returns (ok: bool)
      modifies this`currentState, this`row
      ensures ok <==> RunTransitionAllowed(old(currentState), newState)
      ensures ok ==> currentState == newState && row == Some(Row(newState, exitReason))
      ensures !ok ==> currentState == old(currentState) && row == old(row)
    {
      if !RunTransitionAllowed(currentState, newState) {
        return false;
      }
      currentState := newState;
      WriteRow(newState, exitReason);
      return true;
    }

    /** One PENDING record per dimension; a dimension that already moved on keeps its record. */
    method SeedDimensionStates()
      modifies this`dims
      ensures dims == Seeded(old(dims), dimensions)
    {
      for i := 0 to |dimensions|
        invariant dims == Seeded(old(dims), dimensions[..i])
      {
        var dim := dimensions[i];
        assert dimensions[..i + 1][..i] == dimensions[..i];
        if dim !in dims || DimTransitionAllowed(dims[dim].state, Pending) {
          dims := dims[dim := Merged(if dim in dims then Some(dims[dim]) else None, DimWrite(Pending, None, None))];
        }
      }
      assert dimensions[..|dimensions|] == dimensions;
    }

    method Enter()
      requires View(Idle) == Fresh(dims)
      modifies this
      ensures Follows(old(View(Idle)), EntryEvents(dimensions))
      ensures View(Body) == Play(old(View(Idle)), EntryEvents(dimensions))
      ensures Inv(View(Body))
    {
      EntryPlays(View(Idle), dimensions);
      handlers := true;
      atexit := true;
      WriteRow(RunPending, None);
      SeedDimensionStates();
      var _ := Transition(RunRunning, None);
    }

    method TransitionToFinalizing() returns (ok: bool)
      modifies this`currentState, this`row
      ensures ok <==> Enabled(old(View(Body)), BeginFinalizing)
      ensures View(Body) == if ok then Next(old(View(Body)), BeginFinalizing) else old(View(Body))
    {
      ok := Transition(Finalizing, None);
    }

    /** `set_phase`, `set_deadline` and `set_time_limit`: rewrite the row of the current state. */
    method PublishProgress(at: Where)
      requires Enabled(View(at), Publish)
      modifies this`row
      ensures View(at) == Next(old(View(at)), Publish)
    {
      WriteRow(currentState, None);
    }

    method RecordExitReason(reason: Option<string>)
      modifies this`pendingExitReason
      ensures View(Body) == Next(old(View(Body)), SetExitReason(reason))
    {
      pendingExitReason := reason;
    }

    /** Flip every unfinished dimension, one state write at a time; returns how many were flipped. */
    method MarkUnfinishedIncomplete(reason: string) returns (flipped: nat)
      modifies this`dims
      ensures dims == CloseOut(old(dims), reason)
      ensures flipped > 0 <==> AnyUnfinished(old(dims))
    {
      flipped := 0;
      var todo := dims.Keys;
      while todo != {}
        invariant todo <= dims.Keys == old(dims).Keys
        invariant forall d <- todo :: dims[d] == old(dims)[d]
        invariant forall d <- dims.Keys - todo :: dims[d] == CloseOut(old(dims), reason)[d]
        invariant flipped > 0 <==> exists d <- old(dims).Keys - todo :: Unfinished(old(dims)[d])
        decreases todo
      {
        var d :| d in todo;
        if Unfinished(dims[d]) {
          dims := dims[d := Merged(Some(dims[d]), DimWrite(Incomplete, Some(reason), None))];
          flipped := flipped + 1;
        }
        todo := todo - {d};
      }
    }

    method TimeLimited() returns (limited: bool)
      ensures limited <==> AnyTimeLimited(dims)
    {
      limited := exists d <- dims.Keys :: dims[d].exitReason == Some(TIME_LIMIT);
    }

    /** A normal return: close out, then DONE with the reason the records are due. */
    method ExitClean()
      requires currentState == RunRunning || currentState == Finalizing
      modifies this`currentState, this`row, this`dims
      ensures currentState == RunDone && row == Some(Row(RunDone, CleanReason(old(dims), pendingExitReason)))
      ensures dims == CloseOut(old(dims), "not_reached")
    {
      if currentState != Finalizing {
        var _ := Transition(Finalizing, None);
      }
      CloseOutFinishes(dims, "not_reached");
      var skipped := MarkUnfinishedIncomplete("not_reached");
      var limited := TimeLimited();
      var reason :=
        if !Blank(pendingExitReason) then pendingExitReason
        else if skipped > 0 then Some(INCOMPLETE_DIMENSIONS)
        else if limited then Some(TIME_LIMIT)
        else None;
      var _ := Transition(RunDone, reason);
    }

    /** A closed standard output: DONE with the pending reason, the records as they are. */
    method ExitBrokenPipe()
      requires currentState == RunRunning || currentState == Finalizing
      modifies this`currentState, this`row
      ensures currentState == RunDone && row == Some(Row(RunDone, pendingExitReason))
    {
      if currentState != Finalizing {
        var _ := Transition(Finalizing, None);
      }
      var _ := Transition(RunDone, pendingExitReason);
    }

    /** Any raised object: the terminal state and reason its class is due. */
    method ExitRaised(exc: Raised)
      requires currentState == RunRunning || currentState == Finalizing
      modifies this`currentState, this`row
      ensures row == Some(RaisedRow(exc, pendingExitReason)) && currentState == row.value.state
    {
      if exc.isSystemExit {
        var _ := Transition(Cancelled, Some("systemexit"));
      } else if exc.isBrokenPipe {
        ExitBrokenPipe();
      } else if "CircuitBreakerError" in exc.mro {
        var _ := Transition(Failed, Some(FAILURE_STREAK));
      } else if "FatalProviderError" in exc.mro {
        var _ := Transition(Failed, Some(ProviderExitReason(if exc.reason.Some? then exc.reason.value else "")));
      } else {
        var _ := Transition(Failed, Some("exception: " + ClassName(exc)));
      }
    }

    /** `__exit__`: an open run is recorded for its cause, a closed one is left alone. */
    method Exit(cause: Cause)
      requires Inv(View(Exiting(cause)))
      modifies this
      ensures RunTerminal(old(currentState)) ==>
        View(Outside) == old(View(Exiting(cause))).(at := Outside, handlers := false, atexit := false)
      ensures !RunTerminal(old(currentState)) ==> View(Outside) == AfterExit(old(View(Body)), cause)
    {
      if !RunTerminal(currentState) {
        match cause {
          case CleanReturn => ExitClean();
          case ByException(exc) => ExitRaised(exc);
        }
      }
      handlers := false;
      atexit := false;
    }

    /** The signal handler: writes CANCELLED without validation and closes every dimension. */
    method HandleSignal(name: string, deadlinePassed: bool)
      requires Enabled(View(Body), Signal(name, deadlinePassed))
      modifies this`currentState, this`row, this`dims
      ensures View(Exiting(ByException(SYSTEM_EXIT))) == Next(old(View(Body)), Signal(name, deadlinePassed))
    {
      WriteRow(Cancelled, Some(if deadlinePassed then DEADLINE else "signal_" + name));
      var _ := MarkUnfinishedIncomplete(if deadlinePassed then TIME_LIMIT else "cancelled");
      currentState := Cancelled;
    }

    /** The process-exit fallback: closes a row that is there and still open. */
    method FinalizeOnAtexit()
      requires atexit
      modifies this`row
      ensures View(Ended) == Next(old(View(Outside)), ProcessExit)
      ensures row == if old(row).Some? && !RunTerminal(old(row).value.state)
        then Some(Row(Cancelled, Some("atexit_unfinalized"))) else old(row)
    {
      if row.None? || RunTerminal(row.value.state) {
        return;
      }
      WriteRow(UNFINALIZED.state, UNFINALIZED.exitReason);
    }
  }
}
