# Quodeq evaluation engine: a verified model

This project models the parts of Quodeq where a wrong step is expensive, and proves what they promise for
every input, every outcome of every step and every interleaving:

- **The run engine.** `DimOrder` ranks dimensions by backlog and slices the run's deadline; `DimensionLoop`
  drives each dimension through its states, with fallback, callback retry and fault isolation;
  `RunLifecycle` is the state machine of a whole run, from entry to the process-exit fallback, including
  signals between any two steps. `RunRecords` holds the two persisted state machines.
- **Finding recovery.** `FindingHarvest` scans malformed model output and harvests the decoded trees,
  `FindingRepair` merges the repair re-ask, `DropStats` is the shared drop counter.
- **Fast algorithms against simple definitions.** `Batching` (greedy, optimal), `ScopePartition` and
  `ScopeTargets` (the ancestor climb against the linear scan; the monorepo partition), `HashCache` over
  `LruCache` (the concurrent memo against direct computation).
- **Analysers and streams.** `LoopIoGate` (taint closure), `NoiseBlanking` (comment and string lexer),
  `GuardWalk` (guarded tree walk), `EventStream` (the exactly-once generator), `Baseline` (the ratchet file).

`Prelude`, `StableSort` and `NameOrder` are shared: optional values, Python's stable sort, code-point order.

Code that updates state in the original is a class or a method with loops here, proved against a function of
its inputs; the lemmas then state what the original promises about that function. Clocks, cancellation
flags, signals, what a runner or a callback returns or raises, the JSON decoder and the finding schema are
parameters, so each result holds for all of their behaviours.

`dafny verify dfyconfig.toml` checks everything.

## Where the code differs from its documentation

The model follows the code; each of these is proved with its exact condition.

- `_dimension_deadline` says a budget too small for everyone's 60-second floor degrades to equal shares. With
  n dimensions left it does so only up to 60·(n−1) seconds; above that, and below 60·n, it does not
  (`DimOrder.DegradesToEqualSharesIff`): 61 seconds for two dimensions are split 60 and 1.
- The loops document that an unrecognised exception of the result callback marks the dimension skipped. The
  record was already DONE, which is terminal, so it stays DONE whenever evidence had come back
  (`DimensionLoop.CallbackCannotUndoDone`, `DimensionLoop.SkippedYetDone`).
- A truncated run is meant never to read like a full one. A broken pipe after an early break ends DONE with an
  empty reason, and its unreached dimensions stay pending: `_exit_broken_pipe` does not close them out. It is
  the only exit that does so when the dimensions were seeded (`RunLifecycle.EarlyBreakReadsAsCompleteIff`,
  `RunLifecycle.BrokenPipeHidesAnEarlyBreak`).
- A run without explicit dimensions seeds none. An early break is then recorded exactly when an unreached
  dimension happened to be on record (`RunLifecycle.EarlyBreakIsRecordedIff`,
  `RunLifecycle.UnseededEarlyBreakIsSilent`).
- A progress update published after the terminal transition rewrites the status row without its exit reason
  (`RunLifecycle.RowStandsIff`, `RunLifecycle.LatePublishDropsTheReason`). The class allows it; the command
  line publishes only inside the body.
- The fingerprint memo promises that an edited input misses on its own. An absent settings file is always
  recorded under the same stat, so one that was created and deleted again can stay in force
  (`HashCache.DeletedSettingsStayInForce`). The exact condition under which every answer is one an uncached
  computation could have given is `HashCache.AnswersAreUncachedIff`; answers are compared by what was read.
- `_apply_repair` says its accounting describes the final outcome. An attempt with an empty or null snippet is
  repaired too, but its recovery is credited to the bucket for missing snippets
  (`FindingRepair.HistogramStillDescribesIff`, `FindingRepair.DropCountStillCountsIff`,
  `FindingRepair.EmptySnippetIsMisbooked`).
- `_merge_repaired` raises TypeError when an asked attempt carries a list or an object as its requirement or
  file; nothing in the call catches it (`FindingRepair.RepairRaisesIff`, `FindingRepair.ListRequirementRaises`).

## Model

| member | source | states |
|---|---|---|
| `DimOrder.BacklogCounts` | src/quodeq/analysis/_dim_order.py:38-58 | counts exist exactly when every dimension has an incremental estimate with a real integer; negative counts become 0 |
| `DimOrder.OrderByBacklog` | src/quodeq/analysis/_dim_order.py:61-79 | the order is the stable descending sort by the pending counts of the estimates, negatives as 0; an unrankable list is returned unchanged |
| `StableSort.SortIsStable` | src/quodeq/analysis/_dim_order.py:73 | the sort is descending, a permutation, and keeps every tie group in its input order |
| `StableSort.StableSortMeans` | src/quodeq/analysis/_dim_order.py:73 | of two elements of a stable sort the larger count comes first, and equal counts come in their input order |
| `StableSort.StableSortUnique` | src/quodeq/analysis/_dim_order.py:73 | descending keys plus tie groups in input order determine the result: any two such orders are equal |
| `DimOrder.SliceBounds` | src/quodeq/analysis/_dim_order.py:104-114 | from any positive budget a slice is positive and within the budget; once everyone's floor fits it is at least 60 s and leaves the others their floors; the last slice is everything |
| `DimOrder.ShareIsItsPart` | src/quodeq/analysis/_dim_order.py:112-113 | the proportion due is the dimension's part of the known backlog, or an equal part of one when there is none |
| `DimOrder.SliceIsItsShare` | src/quodeq/analysis/_dim_order.py:104-114 | a slice is an equal share of a budget that holds only the others' 60 s; of a larger one it is the due proportion of what is not reserved, or the floor where that is more |
| `DimOrder.SpentBudgetStops` | src/quodeq/analysis/_dim_order.py:104-106 | a spent budget yields the run deadline itself, so the guard stops the run |
| `DimOrder.ReserveSurvives` | src/quodeq/analysis/_dim_order.py:82-131 | in a run whose dimensions stop by their slices, 60 s per remaining dimension are still there at every start |
| `DimOrder.NoDimensionStarves` | src/quodeq/analysis/_loops.py:102-108 | from any positive budget every dimension of such a run gets a positive slice inside the run, and the last slice ends exactly at the run deadline |
| `DimOrder.FloorForEveryoneIff` | src/quodeq/analysis/_dim_order.py:82-114 | every such run gives every dimension at least 60 s if and only if the budget is at least 60·n |
| `DimOrder.DegradesToEqualSharesIff` | src/quodeq/analysis/_dim_order.py:96-109 | below 60·n the first slice is an equal share if and only if the budget is at most 60·(n−1) |
| `DimOrder.SixtyOneSecondsForTwo` | src/quodeq/analysis/_dim_order.py:96-111 | the concrete budget for which the documented equal shares fail |
| `DimOrder.RunOptions.ApplyDimDeadline` | src/quodeq/analysis/_dim_order.py:117-131 | the deadline becomes the slice end of the dimension about to run; an unlimited run is untouched |
| `DimOrder.RunOptions.ExtendRunDeadline` | src/quodeq/analysis/subagents/_pool_launcher.py:61-80 | the ratchet only moves a running deadline forward, and never limits an unlimited run |
| `DimensionLoop.LoopRun.SafeWrite` | src/quodeq/analysis/_loop_state.py:35-63 | a legal state write merges into the record; an illegal one changes nothing and raises nothing |
| `DimensionLoop.LoopRun.FinalizeDimResult` | src/quodeq/analysis/_loop_steps.py:84-142 | DONE is written whatever follows; the result is kept unless logging failed unrecognised; only an unrecognised failure, or one from the single retry, propagates |
| `DimensionLoop.LoopRun.AttemptIncremental` | src/quodeq/analysis/_loop_steps.py:151-185 | which outcome the attempt with its fallback has, for every pair of outcomes of the two runs and the cancel flag |
| `DimensionLoop.LoopRun.RunOneIncremental` | src/quodeq/analysis/_loop_steps.py:188-227 | the records, the result and the raised object of one step, for every outcome |
| `DimensionLoop.LoopRun.RunOneDimension` | src/quodeq/analysis/_loops.py:155-209 | the same for the full-scan step |
| `DimensionLoop.LoopRun.RunIncrementalLoop` | src/quodeq/analysis/_loops.py:68-122 | for every outcome of every step: every touched dimension began uncancelled, before the end of its slice and before the run deadline; an early stop found the run cancelled or its slice used up; the touched dimensions are a prefix, each DONE or INCOMPLETE with its own reason, later ones are untouched; ordinary exceptions never leave; the run deadline is restored on every way out |
| `DimensionLoop.LoopRun.RunPerDimensionLoop` | src/quodeq/analysis/_loops.py:212-249 | the same for the full scan, whose deadline is the run's as the ratchet moved it, and the number of skipped dimensions |
| `DimensionLoop.DeadlineNeverMovesBack` | src/quodeq/analysis/subagents/_pool_launcher.py:61-80 | the deadline the full scan goes by never moves before the run's own, appears only when there was one, and stays without a ratchet |
| `DimensionLoop.IncrementalVerdictIff` | src/quodeq/analysis/_loop_steps.py:151-185 | the incremental step is decided by the full scan exactly when the attempt raised something expected other than a broken pipe and the run is not cancelled, by the attempt otherwise |
| `DimensionLoop.PerDimVerdictIff` | src/quodeq/analysis/_loops.py:155-209 | the full-scan step is decided by its one call: what it returned, or what it raised, where a KeyError is unexpected too |
| `DimensionLoop.FinalizeRaisesIff` | src/quodeq/analysis/_loop_steps.py:84-142 | a finalize step raises exactly what its log line, else its callback, else its one retry raised unswallowed; evidence is missing from the result only when the log line is to blame |
| `DimensionLoop.RecordNamesItsCause` | src/quodeq/analysis/_loop_state.py:93-115 | the reason recorded for an interrupted dimension tells a provider failure, a breaker, each kind of cancellation and any other exception apart |
| `DimensionLoop.StepRecorded` | src/quodeq/analysis/_loop_steps.py:188-227 | one step changes only its own record and settles it unless SystemExit or KeyboardInterrupt is leaving the loop |
| `DimensionLoop.IsolatedStepRecorded` | src/quodeq/analysis/_loops.py:138-152 | after an isolated exception the record is terminal: INCOMPLETE, or still DONE when it was already |
| `DimensionLoop.PrefixGrows` | src/quodeq/analysis/_loops.py:102-108 | recording one more iteration keeps the prefix promise about all earlier and later dimensions |
| `DimensionLoop.ResultHoldsOwnEvidence` | src/quodeq/analysis/_loop_steps.py:128-142 | the loop returns evidence for exactly the dimensions that reported some, each dimension its own |
| `DimensionLoop.CallbackCannotUndoDone` | src/quodeq/analysis/_loops.py:86-94 | in either loop, a dimension the boundary reports as skipped is nevertheless recorded DONE exactly when evidence came back, and INCOMPLETE exactly when the analysis itself raised |
| `DimensionLoop.SkippedYetDone` | src/quodeq/analysis/_loop_steps.py:125-142 | the concrete iteration for which it happens, in each loop: evidence, then an AttributeError from the callback |
| `DimensionLoop.ObedientRunReachesEveryone` | src/quodeq/analysis/_loop_steps.py:68-81 | a run that keeps to its slices and is not cancelled is never stopped by the deadline guard: with 60·n seconds for any guard delay below 60 s, from any positive budget when the guard follows at once |
| `RunLifecycle.NextKeepsInv` | src/quodeq/analysis/run_lifecycle.py:99-194 | every step of every run, signals included, keeps the lifecycle invariant |
| `RunLifecycle.EveryRunIsClosed` | src/quodeq/analysis/_run_lifecycle_support.py:237-249 | any run that wrote a status row has a terminal one once its process has ended, also when entry or exit was aborted: that of the state it reached, or exactly the fallback's when it reached none |
| `RunLifecycle.TerminalRowMatchesCause` | src/quodeq/analysis/run_lifecycle.py:115-180 | the only steps that make a run terminal, each with exactly the row due to its signal, or to the cause, records and pending reason the body was left with |
| `RunLifecycle.FinalRowIsTheFirstCause` | src/quodeq/analysis/run_lifecycle.py:99-194 | over whole runs, with progress published anywhere on the way out, the final row is the signal's or the one an uninterrupted exit writes for how the body was left, state and reason, unless something is published or signalled after it |
| `RunLifecycle.PendingReasonNeverLabelsAFailure` | src/quodeq/analysis/run_lifecycle.py:234-242 | the row of a failed or cancelled run does not depend on the pending clean-stop reason |
| `RunLifecycle.RowStandsIff` | src/quodeq/analysis/run_lifecycle.py:203-232 | a terminal row with a reason survives the rest of the run if and only if no progress is published |
| `RunLifecycle.LatePublishDropsTheReason` | src/quodeq/analysis/run_lifecycle.py:203-232 | the concrete run: cancelled, left, published once more, and the row is cancelled without a reason |
| `RunLifecycle.ExitPlays` | src/quodeq/analysis/run_lifecycle.py:132-194 | an uninterrupted exit, for every cause, closes the run with the row of that cause and takes the hooks off |
| `RunLifecycle.CleanExitTellsTheTruth` | src/quodeq/analysis/run_lifecycle.py:132-149 | after a normal return no dimension is unfinished and the run is DONE; its reason is the pending one, else "incomplete_dimensions" exactly when a record was unfinished, else "time_limit" exactly when one ran out of time, else empty |
| `RunLifecycle.ExitRowNamesItsCause` | src/quodeq/analysis/run_lifecycle.py:151-180 | of a run left by a raised object: cancelled exactly by SystemExit, DONE exactly by a broken pipe, "failure_streak" exactly by a circuit breaker, a provider code exactly by a fatal provider error that is none of these, and "exception: " with the class name exactly by anything else |
| `RunLifecycle.ExitRowKeepsThePolicyCode` | src/quodeq/analysis/run_lifecycle.py:170-176 | a provider failure keeps the policy code exactly when it carried it |
| `RunLifecycle.SignalRowNamesItsCause` | src/quodeq/analysis/_run_lifecycle_support.py:196-234 | a signal cancels: "deadline" and time-limited records exactly when the deadline had passed, "signal_" with its name and cancelled records otherwise |
| `RunLifecycle.CloseOutRecordsWhy` | src/quodeq/analysis/_run_lifecycle_support.py:132-161 | closing out marks an open record INCOMPLETE with the given reason and leaves every other record as it is |
| `RunLifecycle.OpenRowIsGuarded` | src/quodeq/analysis/run_lifecycle.py:99-113 | in every run, while a row is written and not terminal, the signal handlers and the exit fallback are in place |
| `RunRecords.RunTransitionIff` | src/quodeq/core/run/state.py:124-149 | an open run can fail or be cancelled, and otherwise only take the next step towards DONE; a terminal one can do nothing |
| `RunRecords.DimTransitionIff` | src/quodeq/core/run/dimensions.py:29-46 | DONE comes only after RUNNING, RUNNING only after PENDING, INCOMPLETE after either, and nothing else |
| `RunRecords.WrittenMeans` | src/quodeq/data/fs/dimensions_state_store.py:43-106 | a write touches its own record only; a legal one sets the state and keeps or sets the one reason that goes with it; an illegal one changes nothing |
| `RunRecords.ProviderExitReasonIff` | src/quodeq/analysis/errors.py:42-46 | the policy code survives exactly alone or right behind the fatal prefix up to the next colon; every other reason becomes the one fatal code |
| `RunLifecycle.EarlyBreakReadsAsCompleteIff` | src/quodeq/analysis/run_lifecycle.py:115-162 | with seeded dimensions and over every exit cause, a run reads as complete (DONE, empty reason) exactly when no reason was pending and either it returned with every dimension reached and none time-limited, or its standard output broke; the broken pipe leaves the unreached dimensions unfinished |
| `RunLifecycle.ReadsAsCompleteIff` | src/quodeq/analysis/run_lifecycle.py:115-180 | the same for any records: which exits read as complete, over every cause |
| `RunLifecycle.BrokenPipeHidesAnEarlyBreak` | src/quodeq/analysis/run_lifecycle.py:155-162 | the concrete whole run: one seeded dimension, none reached, a broken pipe, and DONE with an empty reason beside a pending record |
| `RunLifecycle.EarlyBreakIsRecordedIff` | src/quodeq/analysis/run_lifecycle.py:132-149 | for any records the loop started from, a normal return is recorded as incomplete exactly when an unreached dimension was already on record as unfinished |
| `RunLifecycle.UnseededEarlyBreakIsSilent` | src/quodeq/analysis/run_lifecycle.py:142-149 | the concrete failure: without seeds a break before the first dimension ends DONE with an empty reason |
| `RunLifecycle.CloseOutFinishes` | src/quodeq/analysis/_run_lifecycle_support.py:132-161 | closing out leaves nothing unfinished, loses no record and keeps the time-limit marks |
| `RunLifecycle.SeedingIsFresh` | src/quodeq/analysis/_run_lifecycle_support.py:180-193 | seeding an empty file records exactly the run's dimensions, all pending |
| `RunLifecycle.RunLifecycleContext.Enter` | src/quodeq/analysis/run_lifecycle.py:99-113 | entering is the machine's entry sequence: handlers and fallback first, then the row, the seeds, RUNNING |
| `RunLifecycle.RunLifecycleContext.Exit` | src/quodeq/analysis/run_lifecycle.py:115-194 | exiting an open run has the machine's effect for its cause; a run already terminal keeps its row |
| `RunLifecycle.RunLifecycleContext.HandleSignal` | src/quodeq/analysis/_run_lifecycle_support.py:196-234 | the handler is the machine's signal step: CANCELLED with the deadline or signal reason, every dimension closed |
| `RunLifecycle.RunLifecycleContext.FinalizeOnAtexit` | src/quodeq/analysis/_run_lifecycle_support.py:237-249 | the fallback is the machine's process-exit step: it closes a row that is there and open, and nothing else |
| `RunLifecycle.RunLifecycleContext.MarkUnfinishedIncomplete` | src/quodeq/analysis/_run_lifecycle_support.py:132-161 | one write at a time flips exactly the pending and running dimensions and reports whether there were any |
| `RunLifecycle.RunLifecycleContext.Transition` | src/quodeq/analysis/run_lifecycle.py:246-249 | a transition the table forbids changes neither the state nor the row |
| `FindingHarvest.HarvestIsExact` | src/quodeq/analysis/_api_schema.py:162-200 | the recursive harvest equals the pre-order list of valid (or lost) findings with no finding among their proper ancestors |
| `FindingHarvest.PreOrderIsExact` | src/quodeq/analysis/_api_schema.py:196-200 | that list places exactly the parts of the decoded value, field values and list items at any depth, each under its own ancestors |
| `FindingHarvest.HarvestedIffPart` | src/quodeq/analysis/_api_schema.py:162-200 | a value is harvested if and only if it is a valid (or lost) part that lies outside every other finding |
| `FindingHarvest.HarvestInOrder` | src/quodeq/analysis/_api_schema.py:196-200 | a list is harvested item by item, in order |
| `FindingHarvest.HarvestOfAWrapper` | src/quodeq/analysis/_api_schema.py:196-197 | an object that is no finding is harvested like the list of its values |
| `FindingHarvest.LooksLikeAnAttempt` | src/quodeq/analysis/_api_schema.py:124-140 | an invalid object without a requirement that shares two fields with the schema counts as lost exactly when it holds no object and no list |
| `FindingHarvest.OneSharedFieldIsNoAttempt` | src/quodeq/analysis/_api_schema.py:126-134 | an object without a requirement that shares at most one field never counts as lost |
| `FindingHarvest.EveryAttemptIsAccountedFor` | src/quodeq/analysis/_api_schema.py:124-200 | every part of the decoded value, at any depth, that carries "req" is kept, counted as dropped, or lies inside one that was |
| `FindingHarvest.Collector.Extract` | src/quodeq/analysis/_api_schema.py:162-200 | the walk overflows exactly on a tree that needs more call frames than it has, and collects exactly the findings, drops and reasons it reached by then |
| `FindingHarvest.OverflowsIff` | src/quodeq/analysis/_api_schema.py:162-200 | a walk needs more call frames than it has if and only if some part outside every finding lies at least that many levels down |
| `FindingHarvest.ReachedIsPrefix` | src/quodeq/analysis/_api_schema.py:162-200 | what an overflowing walk collected is a prefix of the harvest, and the whole harvest when the frames suffice |
| `FindingHarvest.SpansAreDisjoint` | src/quodeq/analysis/_api_schema.py:239-256 | the scan's attempts move right, none starts inside a value decoded earlier, and only the last can be a recursion stop |
| `FindingHarvest.EveryOpenerTriedOnce` | src/quodeq/analysis/_api_schema.py:239-256 | an opener is tried exactly once if and only if it is not inside a decoded value and not behind a recursion stop, in decoding or in walking |
| `FindingHarvest.ParseFindings` | src/quodeq/analysis/_api_schema.py:208-256 | the loop tries exactly those openers and collects exactly what the walks of their values reached |
| `FindingHarvest.OnlyTheLastHarvestIsCut` | src/quodeq/analysis/_api_schema.py:233-256 | the findings are the concatenated harvests of the decoded values; a recursion stop cuts only the end of the last one |
| `FindingRepair.Snippetless` | src/quodeq/analysis/_api_response.py:50-66 | exactly the dropped attempts without a usable snippet but with a requirement and a file, in order |
| `FindingRepair.RepairableIff` | src/quodeq/analysis/_api_response.py:50-66 | an attempt is asked about exactly when requirement and file are both there and truthy and the snippet is not a non-empty string |
| `FindingRepair.AskedInOrder` | src/quodeq/analysis/_api_response.py:58-66 | the asked attempts come in their order, each as often as it occurs |
| `FindingRepair.MergedOnce` | src/quodeq/analysis/_api_response.py:119-144 | what is merged names the requirement and file of an asked attempt, agrees with nothing kept and with nothing else merged in requirement, file, line and kind together, and leaves no such answer out |
| `FindingRepair.FirstAnswersInOrder` | src/quodeq/analysis/_api_response.py:133-144 | the merged findings come in the order of the answers, and of repeated ones the first is taken |
| `FindingRepair.CallOutcome.MergeRepaired` | src/quodeq/analysis/_api_response.py:119-144 | the kept list grows by exactly the new answers, or TypeError is raised and nothing changes |
| `FindingRepair.CallOutcome.ApplyRepair` | src/quodeq/analysis/_api_response.py:147-178 | findings, histogram and remaining drops after a repair, including when the merge raises |
| `FindingRepair.RepairNeverShrinks` | src/quodeq/analysis/_api_response.py:147-178 | the kept list gains one finding per new identity among the answers; kept plus dropped never shrinks, and is conserved exactly when the new identities are no more than the drops |
| `FindingRepair.OneAnswerPerIdentity` | src/quodeq/analysis/_api_response.py:119-144 | the number merged is the number of distinct answered identities not kept before, in whatever order the answers came |
| `FindingRepair.HistogramStillDescribesIff` | src/quodeq/analysis/_api_response.py:147-178 | the credited histogram describes the drops that remain exactly when every recovered attempt failed for its missing snippet alone and as many findings came back, or more with that bucket emptied |
| `FindingRepair.DropCountStillCountsIff` | src/quodeq/analysis/_api_response.py:165-178 | the returned drop count is the number of attempts not recovered exactly when as many findings came back as attempts were recovered, or more with every attempt recovered |
| `FindingRepair.EmptySnippetIsMisbooked` | src/quodeq/analysis/_api_response.py:50-66 | the concrete call for which it does not: an empty snippet is recovered and the bucket of the missing one is emptied |
| `FindingRepair.CreditIsBounded` | src/quodeq/analysis/_api_response.py:165-171 | crediting touches only the snippet bucket, down to zero at most, takes at most what was recovered and leaves no non-positive bucket |
| `FindingRepair.RepairRaisesIff` | src/quodeq/analysis/_api_response.py:132 | the merge raises if and only if an asked attempt's requirement or file is a list or an object |
| `FindingRepair.ListRequirementRaises` | src/quodeq/analysis/_api_response.py:132 | the concrete attempt for which it raises |
| `FindingRepair.FinishCall` | src/quodeq/analysis/_api_response.py:181-250 | the shared counter grows by the final kept, dropped and reasons of the call, after repair; by nothing when it raised |
| `DropStats.NothingLostOrCountedTwice` | src/quodeq/analysis/_drop_stats.py:88-115 | over any history of records and consumes, consumed plus pending equals everything recorded, for each counter and each reason |
| `DropStats.DropStatsCounter.Consume` | src/quodeq/analysis/_drop_stats.py:103-115 | consuming returns everything pending and leaves nothing |
| `DropStats.RatioIsAFraction` | src/quodeq/analysis/_drop_stats.py:52-72 | the ratio times the parsed findings is the dropped ones; it is in [0, 1], 0 exactly without drops and 1 exactly when everything was dropped |
| `Batching.BatchFilesBySize` | src/quodeq/analysis/_api_source_gathering.py:87-110 | the batches concatenate to the input, each is within budget or a single file, and no order-preserving split with that rule has fewer |
| `Batching.OneFileWeighs` | src/quodeq/analysis/_api_source_gathering.py:99-102 | a file weighs its size, and nothing when it cannot be stat'd |
| `Batching.TightStaysAhead` | src/quodeq/analysis/_api_source_gathering.py:98-108 | a split whose batches could not take the next file is never behind any other valid split |
| `ScopePartition.ScanFindsLongest` | src/quodeq/analysis/manifest_build_scope.py:27-50 | the linear scan's deepest scope is the longest one that is the path or an ancestor |
| `ScopePartition.ResolveScope` | src/quodeq/analysis/manifest_build_scope.py:27-50 | the ancestor climb returns what the linear scan over all scopes returns, with "." as fallback |
| `ScopePartition.InExactlyOneBucket` | src/quodeq/analysis/manifest_build_scope.py:64-101 | with the catch-all scope every walked file is in the bucket of its owner and language and in no other |
| `ScopePartition.CatchAllOwnsEverything` | src/quodeq/analysis/manifest_build_scope.py:104-123 | with the catch-all scope no walked file is without an owner |
| `ScopePartition.WalkAndPartition` | src/quodeq/analysis/manifest_build_scope.py:64-101 | one pass yields every bucket in walk order and suffix counters that sum to the number of owned files, all files with the catch-all |
| `ScopePartition.BucketInWalkOrder` | src/quodeq/analysis/manifest_build_scope.py:90-97 | every bucket lists its files in walk order |
| `ScopePartition.CountsOwnedFiles` | src/quodeq/analysis/manifest_build_scope.py:90-98 | the counters count exactly the files with an owner, in all and per suffix |
| `ScopeTargets.BuildTargetsFromMatches` | src/quodeq/analysis/manifest_targets.py:58-96 | one target per matched language with at least three files, named by its first rule, covering the whole bucket; exactly the other buckets are left |
| `ScopeTargets.ResolveScopePaths` | src/quodeq/analysis/manifest_build_scope.py:104-123 | the detected scopes in order, plus the catch-all when missing; a repeated scope keeps its last matches |
| `ScopeTargets.BuildScopeTargets` | src/quodeq/analysis/manifest_build_scope.py:126-154 | with distinct scopes, exactly one target per (scope, language) bucket of at least three files and none for a smaller one |
| `ScopeTargets.TargetsDisjoint` | src/quodeq/analysis/manifest_build_scope.py:126-154 | targets of different buckets share no file |
| `ScopeTargets.TotalIsTheUnion` | src/quodeq/analysis/manifest_build_scope.py:157-179 | the total of the targets' file counts is the size of the union of their files |
| `ScopeTargets.BuildMultiScopeTargets` | src/quodeq/analysis/manifest_build_scope.py:157-179 | end to end: over the detected scopes plus the catch-all, with distinct scopes, the targets partition the walked source into its large buckets, each named by the first matching rule of its scope |
| `LruCache.StoredKeepsValid` | src/quodeq/shared/lru.py:54-59 | a store keeps the keys distinct and the capacity respected, and the stored entry survives it |
| `LruCache.HotKeysStay` | src/quodeq/shared/lru.py:22-59 | after a hit or a store, whatever the table held, the entry survives any further uses that touch fewer than capacity distinct other keys |
| `LruCache.TouchedMovesToEnd` | src/quodeq/shared/lru.py:45-52 | a use that hits moves exactly the hit entry to the end, from wherever it was |
| `LruCache.StoredGoesToEnd` | src/quodeq/shared/lru.py:54-59 | a store puts its entry last and removes its old entry or, when new in a full table, the coldest |
| `LruCache.LRUDict.Get` | src/quodeq/shared/lru.py:45-52 | a hit returns the stored value and moves its entry to the end, the others keep their order; a miss returns None and changes nothing |
| `LruCache.LRUDict.Put` | src/quodeq/shared/lru.py:54-59 | the entry goes to the end in place of its old one; a new one costs a full table its coldest entry and nothing else |
| `HashCache.NextKeepsInv` | src/quodeq/analysis/fingerprint.py:137-146 | while the recorded stats vouch, no interleaving of stats, lookups, reads, stores, evictions, resets and file edits makes a cached entry unsound or a given answer wrong |
| `HashCache.HitIsUncached` | src/quodeq/analysis/fingerprint.py:137-178 | on such a history a hit, on one file or two, is an answer that a computation reading the files one after another during the call could have given |
| `HashCache.AnswersAreUncachedIff` | src/quodeq/analysis/fingerprint.py:98-178 | every answer of every run of the three tables is one an uncached computation reading its files in order during the call could have given, if and only if a present file's stat vouches for what was read under it and, beside a compiled file that comes back and decodes, so does the stat recorded for a settings file, absent or not |
| `HashCache.UncachedIsExact` | src/quodeq/analysis/fingerprint.py:193-217 | such an answer is exactly the uncached reading when no file changed during the call |
| `HashCache.OneFileRunAnswers` | src/quodeq/analysis/fingerprint.py:148-157 | when the stat of a present file comes back, a second call is answered with the content of any moment in between |
| `HashCache.TwoFileRunAnswers` | src/quodeq/analysis/fingerprint.py:159-171 | the same for a compiled file and a settings file that may be absent, looked at in order |
| `HashCache.DeletedSettingsStayInForce` | src/quodeq/analysis/fingerprint.py:212-217 | the concrete history: a settings file created and deleted again beside an unchanging compiled file; the deleted overrides are the answer, although every recorded stat determines its content |
| `HashCache.HashCache.Memo` | src/quodeq/analysis/fingerprint.py:137-146 | the computed value is used exactly on a miss, a cached None is a hit, and what was used is found next time |
| `HashCache.HashCache.DimensionParamsState` | src/quodeq/analysis/fingerprint.py:159-172 | the parameters memo is keyed by both files and touches no other table |
| `LoopIoGate.PerItemNames` | tools/check_loop_io.py:131-143 | the loop terminates with the least set holding the loop targets and closed under every binding |
| `LoopIoGate.OrderDoesNotMatter` | tools/check_loop_io.py:131-143 | the names depend only on which bindings there are, not on their order |
| `LoopIoGate.TaintedIffDerived` | tools/check_loop_io.py:131-143 | a name is per-item if and only if a chain of bindings leads to it from a loop target |
| `LoopIoGate.FindCalls` | tools/check_loop_io.py:180-189 | the stack walk yields the calls of the parts, in any order |
| `LoopIoGate.CallsOfIff` | tools/check_loop_io.py:180-189 | these are exactly the calls that some chain of child nodes reaches without entering a nested function, lambda or class |
| `LoopIoGate.PerItemIff` | tools/check_loop_io.py:192-204 | a call is exempt exactly when a derived name occurs in its resource, for open also in its first argument; emit, get_file_lock and commit never are |
| `LoopIoGate.LoopSites` | tools/check_loop_io.py:192-220 | the reported sites are exactly the IO calls reached without entering a nested scope whose resource is not derived from the loop target |
| `NoiseBlanking.CodeOnlyBlanks` | tools/_test_asserts_rules.py:100-144 | blanking keeps the length and every newline and changes characters only to spaces |
| `NoiseBlanking.CodeIsClean` | tools/_test_asserts_rules.py:100-144 | the blanked text has no comment and only blank strings, for unterminated ones too |
| `NoiseBlanking.BlankingIsAProjection` | tools/_test_asserts_rules.py:100-144 | the texts blanking leaves alone are exactly the clean ones, and blanking is idempotent on every input |
| `NoiseBlanking.BlockThroughClose` | tools/_test_asserts_rules.py:116-120 | blanking a block comment character by character is blanking through the first closing mark |
| `NoiseBlanking.CodeIsKept` | tools/_test_asserts_rules.py:123-124 | a character that opens neither a comment nor a string is kept, and blanking goes on behind it |
| `NoiseBlanking.LineCommentExtent` | tools/_test_asserts_rules.py:112-115 | a line comment is blanked up to its newline, which stays, and what follows is code again; without a newline it runs to the end |
| `NoiseBlanking.BlockCommentExtent` | tools/_test_asserts_rules.py:116-120 | a block comment is blanked through its first closing mark, its newlines kept, and what follows is code again |
| `NoiseBlanking.OpenBlockExtent` | tools/_test_asserts_rules.py:116-120 | a block comment that is never closed is blanked to the end |
| `NoiseBlanking.StringExtent` | tools/_test_asserts_rules.py:128-144 | a string keeps its two quotes and is blanked between them, through its first unescaped closing quote; what follows is code again |
| `NoiseBlanking.OpenStringExtent` | tools/_test_asserts_rules.py:128-144 | a string that is never closed is blanked to the end, also when the text stops at a backslash |
| `NoiseBlanking.BlankNoise` | tools/_test_asserts_rules.py:100-144 | the in-place lexer computes the blanked text |
| `NoiseBlanking.CallEnd` | tools/_test_asserts_rules.py:147-157 | the end is just past the first parenthesis at which the call balances, or the length if there is none |
| `NoiseBlanking.DepthCounts` | tools/_test_asserts_rules.py:147-157 | the depth is the number of opening minus the number of closing parentheses in between |
| `NoiseBlanking.StillOpenBefore` | tools/_test_asserts_rules.py:147-157 | the call is still open at every position before that end |
| `GuardWalk.ChildGuardIs` | tools/_fault_tolerance_calls.py:86-98 | the guard handed down is the innermost try body on the path with no function boundary after it |
| `GuardWalk.ReportsIffViolation` | tools/_fault_tolerance_calls.py:81-82 | an int call is reported if and only if its path makes it a violation |
| `GuardWalk.ScanInts` | tools/_fault_tolerance_calls.py:79-98 | on any tree the reported lines are those of exactly the flagged int calls, each place once, in document order |
| `GuardWalk.VisitedIffReached` | tools/_fault_tolerance_calls.py:79-98 | the walk visits exactly the nodes that a path of fields and positions leads to, each with that path |
| `GuardWalk.VisitedInOrder` | tools/_fault_tolerance_calls.py:79-98 | it visits them in document order, so each place once |
| `GuardWalk.ViolationIff` | tools/_fault_tolerance_calls.py:7-23 | a violation is an int call whose innermost enclosing try body, with no function or lambda in between, has flagged handlers; handlers, else and finally do not count as the body |
| `GuardWalk.MissesOverflowIff` | tools/_fault_tolerance_calls.py:60-76 | handlers are flagged exactly when they name ValueError and TypeError, plain or dotted, directly or in a tuple, none is bare, and none names OverflowError, ArithmeticError, Exception or BaseException |
| `GuardWalk.BareExceptNeverFlags` | tools/_fault_tolerance_calls.py:48-70 | a try with a bare except is never reported |
| `EventStream.EventFrames` | src/quodeq/api/_assistant_events.py:22-56 | the generator sends exactly the batches its polls read, and stops exactly at the first poll that completes 2400 empty ones in a row, or with the history |
| `EventStream.HeartbeatIffNothingNew` | src/quodeq/api/_assistant_events.py:45-56 | a poll whose log holds nothing past the cursor sends one heartbeat; any other sends frames and no heartbeat |
| `EventStream.SentIsDelivered` | src/quodeq/api/_assistant_events.py:45-56 | against an append-only log, after every poll the frames sent are exactly the stored events in (after, last], in order, each once |
| `EventStream.IdleRunIsExact` | src/quodeq/api/_assistant_events.py:46-53 | a run of k empty polls is the last k, during which no log held an event past the cursor, so a closing stream has delivered everything stored; the poll before it did find one |
| `EventStream.AtAnyMoment` | src/quodeq/api/_assistant_events.py:53-56 | the same holds of every prefix of what was sent, so also in the middle of a batch |
| `EventStream.StillDelivered` | src/quodeq/api/_assistant_events.py:45-56 | appending to the log never makes what was delivered incomplete or wrong |
| `EventStream.RowsAreTheNextStretch` | src/quodeq/data/sqlite/assistant_repository.py:210-223 | a poll's rows are the next stretch of the log, no longer than the limit |
| `Baseline.RoundTripIff` | tools/_ratchet.py:55-69 | loading a written baseline gives back the key set if and only if every key is trimmed, non-empty, single-line and no comment |
| `Baseline.WrittenLines` | tools/_ratchet.py:66-69 | behind its header the written file holds the keys one to a line, in ascending order |
| `Baseline.CommentsAreHeader` | tools/_ratchet.py:55-69 | a header of comment lines adds no entry |
| `Baseline.StripTakesOnlySpace` | tools/_ratchet.py:62 | stripping a line takes white space from both ends and nothing else |
| `Baseline.EntriesAreKeys` | tools/_ratchet.py:55-63 | whatever a baseline file holds, every loaded key is well-formed |
| `Baseline.CheckAfterUpdate` | tools/_ratchet.py:72-101 | after an update a check reports exactly the violations that were not there before |
| `Baseline.CleanAfterUpdateIff` | tools/_ratchet.py:72-101 | a check right after an update is clean if and only if every key is well-formed |
| `Baseline.RatchetFile.RunCli` | tools/_ratchet.py:72-101 | exit code 2 exactly for an unknown argument, 1 exactly when something new is reported; the file changes only on an update |
| `Baseline.NewOnesInOrder` | tools/_ratchet.py:72-101 | the report keeps the order of the scan, and each new violation as often as it was found |
| `NameOrder.SortNamesSorts` | tools/_ratchet.py:68 | sorting names is an ascending permutation |
| `NameOrder.LeIsLexicographic` | tools/_ratchet.py:68 | the order is the lexicographic one: a prefix first, otherwise the first difference decides |

## Left out

- Floating-point rounding in the deadline slices: times are reals.
- Failing status, dimension and baseline file writes, failing logging, corrupt or hand-edited dimension records, and the timestamps, heartbeat and presentation fields of the records.
- The guards after the loops (`_run_post_loop_guards`) themselves; whatever they raise, a broken pipe included, is one of the causes a run is left with.
- A run state change and its row write are one step, so a signal between the two is not modelled; SIGKILL is not modelled either.
- A progress update after an entry that was aborted before the exit fallback was registered.
- JSON decoding, schema validation, Python's own parser, ignore patterns and hashing: abstract functions; the decoder only has to end past its start.
- The text of the repair prompt, its cap of 25 attempts (which only shortens what the model is asked), and the log line of `format_reasons`.
- The final sort of targets by size, per-bucket suffix counts, framework topics, line counts and dictionary iteration order.
- ScopeTargets.BuildTargetsFromMatches: returns the buckets left over instead of removing them from the caller's dictionaries.
- ScopeTargets.BuildMultiScopeTargets: the partition is stated for distinct scopes and distinct walked paths, which the detection and the walk provide.
- Python's `sorted` is an insertion sort here; only the order it yields matters, and that order is proved to be the only stable one.
- HashCache.HashCache.Memo: one uninterrupted call; the interleavings are in the state machine beside it.
- `hash_standards` and `hash_prompts_map`, which only combine memoised hashes.
- Which nodes count as loops and small literals in the loop-IO gate, and the temporary-file rule of the fault-tolerance gate.
- Reading the walked source tree; a run of the checkers' own scans.
- Baseline.RatchetFile.RunCli: one key per violation found; some checkers remove duplicate keys before writing, which changes only the printed count.
- `CliMcpRegistry`, the prompt fill of `gather_source_files` and the benchmark's `match_case`.
