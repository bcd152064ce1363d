/**
 The two persisted state machines of a run: `dimensions.json`
 (src/quodeq/core/run/dimensions.py, src/quodeq/data/fs/dimensions_state_store.py)
 and `status.json` (src/quodeq/core/run/state.py). Timestamps are left out.
 */
module RunRecords {
  import opened Prelude

  datatype DimState = Pending | Running | Done | Incomplete

  predicate DimTransitionAllowed(src: DimState, dst: DimState) {
    match src
    case Pending => dst == Running || dst == Incomplete
    case Running => dst == Done || dst == Incomplete
    case Done => false
    case Incomplete => false
  }

  /** DONE comes only after RUNNING, RUNNING only after PENDING, INCOMPLETE after either, and nothing else. */
  lemma DimTransitionIff(src: DimState, dst: DimState)
    ensures DimTransitionAllowed(src, dst) <==>
      (dst == Done && src == Running)
      || (dst == Running && src == Pending)
      || (dst == Incomplete && src != Done && src != Incomplete)
  {
  }

  predicate DimTerminal(s: DimState) { s == Done || s == Incomplete }

  datatype DimEntry = DimEntry(state: DimState, reason: Option<string>, exitReason: Option<string>)

  type DimTable = map<string, DimEntry>

  /** A state write with the fields that qualify it. */
  datatype DimWrite = DimWrite(state: DimState, reason: Option<string>, exitReason: Option<string>)

  predicate Accepts(dims: DimTable, dim: string, w: DimWrite) {
    dim in dims ==> DimTransitionAllowed(dims[dim].state, w.state)
  }

  /** A record merges the new fields into what it already holds. */
  function Merged(prior: Option<DimEntry>, w: DimWrite): DimEntry {
    var reason := if prior.Some? then prior.value.reason else None;
    var exitReason := if prior.Some? then prior.value.exitReason else None;
    DimEntry(
      w.state,
      if w.state == Incomplete && w.reason.Some? && w.reason.value != "" then w.reason else reason,
      if w.state == Done && w.exitReason.Some? then w.exitReason else exitReason)
  }

  /** `write_dim_state` with its rejection swallowed: an illegal transition changes nothing. */
  function Written(dims: DimTable, dim: string, w: DimWrite): DimTable {
    if Accepts(dims, dim, w) then dims[dim := Merged(if dim in dims then Some(dims[dim]) else None, w)]
    else dims
  }

  /** A write touches its own record only; a legal one sets the state and the one reason that goes with it. */
  lemma WrittenMeans(dims: DimTable, dim: string, w: DimWrite)
    ensures var after := Written(dims, dim, w);
      && (forall d :: d != dim ==> (d in after <==> d in dims) && (d in dims ==> after[d] == dims[d]))
      && (dim in dims && !DimTransitionAllowed(dims[dim].state, w.state) ==> after == dims)
      && (dim !in dims || DimTransitionAllowed(dims[dim].state, w.state) ==>
            dim in after && after[dim].state == w.state)
      && (after != dims && w.state == Incomplete && w.reason.Some? && w.reason.value != "" ==>
            after[dim].reason == w.reason)
      && (after != dims && w.state == Done && w.exitReason.Some? ==> after[dim].exitReason == w.exitReason)
      && (dim in dims && dim in after && w.state != Incomplete ==> after[dim].reason == dims[dim].reason)
      && (dim in dims && dim in after && w.state != Done ==> after[dim].exitReason == dims[dim].exitReason)
  {
  }

  datatype RunState = RunPending | RunRunning | Finalizing | RunDone | Failed | Cancelled

  predicate RunTerminal(s: RunState) { s == RunDone || s == Failed || s == Cancelled }

  predicate RunTransitionAllowed(src: RunState, dst: RunState) {
    match src
    case RunPending => dst == RunRunning || dst == Cancelled || dst == Failed
    case RunRunning => dst == Finalizing || dst == Cancelled || dst == Failed
    case Finalizing => dst == RunDone || dst == Cancelled || dst == Failed
    case RunDone => false
    case Failed => false
    case Cancelled => false
  }

  /** An open run can always fail or be cancelled; otherwise it takes one step towards DONE. */
  lemma RunTransitionIff(src: RunState, dst: RunState)
    ensures RunTransitionAllowed(src, dst) <==>
      (src != RunDone && src != Failed && src != Cancelled && (dst == Failed || dst == Cancelled))
      || (src == RunPending && dst == RunRunning)
      || (src == RunRunning && dst == Finalizing)
      || (src == Finalizing && dst == RunDone)
  {
  }

  // --------------------------------------------------------------- reasons

  const PROVIDER_FATAL := "provider_fatal"
  const COPILOT_MCP_POLICY := "copilot_mcp_policy"
  const AGENT_FAILURE_STREAK := "agent_failure_streak"

  predicate StartsWith(s: string, prefix: string) {
    |s| >= |prefix| && s[..|prefix|] == prefix
  }

  /** The part of `s` before its first colon. */
  function BeforeColon(s: string): string {
    if s == "" || s[0] == ':' then "" else [s[0]] + BeforeColon(s[1..])
  }

  /** The persistent exit code of a provider reason or of a recorded cancel cause. */
  function ProviderExitReason(reason: string): string {
    var prefix := PROVIDER_FATAL + ":";
    var code := if StartsWith(reason, prefix) then BeforeColon(reason[|prefix|..]) else reason;
    if code == COPILOT_MCP_POLICY then COPILOT_MCP_POLICY else PROVIDER_FATAL
  }

  lemma {:induction false} BeforeColonIsAPrefix(s: string)
    ensures var n := |BeforeColon(s)|;
      && n <= |s| && BeforeColon(s) == s[..n]
      && (n < |s| ==> s[n] == ':') && forall i :: 0 <= i < n ==> s[i] != ':'
  {
    if s != "" && s[0] != ':' { BeforeColonIsAPrefix(s[1..]); }
  }

  /** `s` up to its first colon, or all of it, is `code`. */
  predicate CodeIs(s: string, code: string) {
    s == code || (|s| > |code| && s[..|code|] == code && s[|code|] == ':')
  }

  lemma BeforeColonIff(s: string, code: string)
    requires forall i :: 0 <= i < |code| ==> code[i] != ':'
    ensures BeforeColon(s) == code <==> CodeIs(s, code)
  {
    var n := |BeforeColon(s)|;
    BeforeColonIsAPrefix(s);
    if CodeIs(s, code) {
      assert forall i :: 0 <= i < |code| ==> s[i] == code[i];
      assert n == |code|;
    }
    assert n == |s| ==> s[..n] == s;
  }

  /** The Copilot policy code survives alone or right behind the fatal prefix; every other reason is one code. */
  lemma ProviderExitReasonIff(reason: string)
    ensures var prefix, code := PROVIDER_FATAL + ":", COPILOT_MCP_POLICY;
      ProviderExitReason(reason) == code <==>
        reason == code || (StartsWith(reason, prefix) && CodeIs(reason[|prefix|..], code))
    ensures ProviderExitReason(reason) != COPILOT_MCP_POLICY ==> ProviderExitReason(reason) == PROVIDER_FATAL
  {
    var prefix, code := PROVIDER_FATAL + ":", COPILOT_MCP_POLICY;
    assert reason == code ==> reason[0] == 'c';
    assert StartsWith(reason, prefix) ==> reason[0] == prefix[0] == 'p';
    assert PROVIDER_FATAL[0] == 'p' && code[0] == 'c';
    if StartsWith(reason, prefix) { BeforeColonIff(reason[|prefix|..], code); }
  }
}
