/**
 The repair re-ask of one model call (src/quodeq/analysis/_api_response.py):
 which dropped attempts are asked again, which answers are merged back, and how
 the drop accounting follows.
 */
module FindingRepair {
  import opened Prelude
  import opened DropStats

  /** A decoded JSON value of a dropped attempt; lists and objects cannot be hashed. */
  datatype Value = Missing | Null | Text(s: string) | Number(n: int) | Flag(b: bool) | Many(size: nat)

  predicate Truthy(v: Value) {
    match v
    case Missing => false
    case Null => false
    case Text(s) => s != ""
    case Number(n) => n != 0
    case Flag(b) => b
    case Many(size) => size > 0
  }

  predicate Hashable(v: Value) { !v.Many? }

  /** A dropped attempt; `reasons` are the histogram keys its failed validation was tallied under. */
  datatype Attempt = Attempt(req: Value, file: Value, snippet: Value, reasons: seq<string>)

  datatype Finding = Finding(req: string, file: string, line: int, kind: string, text: string)

  /** The dedup key of a finding. */
  datatype Identity = Identity(req: string, file: string, line: int, kind: string)

  function IdentityOf(f: Finding): Identity { Identity(f.req, f.file, f.line, f.kind) }

  function Identities(findings: seq<Finding>): set<Identity> { set f <- findings :: IdentityOf(f) }

  // ------------------------------------------------------- what is asked

  /** No usable snippet, but the identity the re-ask pins is there. */
  predicate Repairable(a: Attempt) {
    !(a.snippet.Text? && a.snippet.s != "") && Truthy(a.req) && Truthy(a.file)
  }

  function RepairableOf(attempts: seq<Attempt>): seq<Attempt> {
    if attempts == [] then []
    else
      var a := attempts[|attempts| - 1];
      RepairableOf(attempts[..|attempts| - 1]) + if Repairable(a) then [a] else []
  }

  lemma {:induction false} RepairableMembers(attempts: seq<Attempt>, a: Attempt)
    ensures a in RepairableOf(attempts) <==> a in attempts && Repairable(a)
  {
    if attempts != [] {
      var init := attempts[..|attempts| - 1];
      RepairableMembers(init, a);
      assert attempts == init + [attempts[|attempts| - 1]];
    }
  }

  /** Truthy as Python means it: nothing absent, null, empty, zero or false. */
  ghost predicate Given(v: Value) {
    v != Missing && v != Null && v != Text("") && v != Number(0) && v != Flag(false) && v != Many(0)
  }

  /** A repair asks about an attempt that names its requirement and file but quotes no snippet. */
  lemma RepairableIff(a: Attempt)
    ensures Repairable(a) <==> Given(a.req) && Given(a.file) && (a.snippet.Text? ==> a.snippet == Text(""))
  {
  }

  lemma PicksCons<T>(x: T, all: seq<T>, at: seq<nat>, picked: seq<T>, shifted: seq<nat>)
    requires Picks(all, at, picked) && |shifted| == |at|
    requires forall i :: 0 <= i < |at| ==> shifted[i] == at[i] + 1
    ensures Picks([x] + all, shifted, picked) && Picks([x] + all, [0] + shifted, [x] + picked)
  {
  }

  /** The repairable attempts are asked about in their order, each as often as it occurs. */
  lemma {:induction false} AskedInOrder(attempts: seq<Attempt>, a: Attempt) returns (at: seq<nat>)
    ensures Picks(attempts, at, RepairableOf(attempts))
    ensures multiset(RepairableOf(attempts))[a] == if Repairable(a) then multiset(attempts)[a] else 0
  {
    if attempts == [] { return []; }
    var init, last := attempts[..|attempts| - 1], attempts[|attempts| - 1];
    at := AskedInOrder(init, a);
    PicksSnoc(init, at, RepairableOf(init), last);
    assert attempts == init + [last];
    if Repairable(last) { at := at + [|init|]; }
  }

  method Snippetless(attempts: seq<Attempt>) returns (asked: seq<Attempt>)
    ensures asked == RepairableOf(attempts)
  {
    asked := [];
    for i := 0 to |attempts|
      invariant asked == RepairableOf(attempts[..i])
    {
      var a := attempts[i];
      assert attempts[..i + 1][..i] == attempts[..i];
      if a.snippet.Text? && a.snippet.s != "" {
        continue;
      }
      if !(Truthy(a.req) && Truthy(a.file)) {
        continue;
      }
      asked := asked + [a];
    }
    assert attempts[..|attempts|] == attempts;
  }

  // ------------------------------------------------------ what is merged

  /** The finding answers one of the asked attempts, by requirement and file. */
  predicate Answers(asked: seq<Attempt>, f: Finding) {
    exists a <- asked :: a.req == Text(f.req) && a.file == Text(f.file)
  }

  /** The answers with a new identity, first occurrences in order. */
  function NewAnswers(repaired: seq<Finding>, asked: seq<Attempt>, seen: set<Identity>): seq<Finding> {
    if repaired == [] then []
    else
      var f := repaired[0];
      if Answers(asked, f) && IdentityOf(f) !in seen
      then [f] + NewAnswers(repaired[1..], asked, seen + {IdentityOf(f)})
      else NewAnswers(repaired[1..], asked, seen)
  }

  /** Only asked answers get in, no identity repeats, and every asked answer is represented. */
  lemma {:induction false} NewAnswersAreNew(repaired: seq<Finding>, asked: seq<Attempt>, seen: set<Identity>)
    ensures var fs := NewAnswers(repaired, asked, seen);
      && (forall f <- fs :: f in repaired && Answers(asked, f) && IdentityOf(f) !in seen)
      && (forall i, j :: 0 <= i < j < |fs| ==> IdentityOf(fs[i]) != IdentityOf(fs[j]))
      && (forall f <- repaired :: Answers(asked, f) ==> IdentityOf(f) in seen + Identities(fs))
  {
    if repaired != [] {
      var f := repaired[0];
      assert repaired == [f] + repaired[1..];
      if Answers(asked, f) && IdentityOf(f) !in seen {
        var rest := NewAnswers(repaired[1..], asked, seen + {IdentityOf(f)});
        NewAnswersAreNew(repaired[1..], asked, seen + {IdentityOf(f)});
        assert Identities([f] + rest) == {IdentityOf(f)} + Identities(rest);
        forall j | 0 <= j < |rest| ensures IdentityOf(rest[j]) != IdentityOf(f) {
          assert rest[j] in rest;
        }
      } else {
        NewAnswersAreNew(repaired[1..], asked, seen);
      }
    }
  }

  /** Two findings are the same answer: requirement, file, line and kind agree; the text may differ. */
  ghost predicate SameAnswer(f: Finding, g: Finding) {
    f.req == g.req && f.file == g.file && f.line == g.line && f.kind == g.kind
  }

  /** The finding names the requirement and the file of one of the asked attempts. */
  ghost predicate WasAskedFor(asked: seq<Attempt>, f: Finding) {
    exists i :: 0 <= i < |asked| && asked[i].req == Text(f.req) && asked[i].file == Text(f.file)
  }

  /** What is merged into `kept`: only answers asked for, each once, none kept already, and none left out. */
  lemma MergedOnce(repaired: seq<Finding>, asked: seq<Attempt>, kept: seq<Finding>)
    ensures var fs := NewAnswers(repaired, asked, Identities(kept));
      && (forall f <- fs :: f in repaired && WasAskedFor(asked, f) && forall k <- kept :: !SameAnswer(k, f))
      && (forall i, j :: 0 <= i < j < |fs| ==> !SameAnswer(fs[i], fs[j]))
      && (forall f <- repaired :: WasAskedFor(asked, f) ==> exists g <- kept + fs :: SameAnswer(g, f))
  {
    var fs := NewAnswers(repaired, asked, Identities(kept));
    NewAnswersAreNew(repaired, asked, Identities(kept));
    forall f | f in fs ensures WasAskedFor(asked, f) && forall k <- kept :: !SameAnswer(k, f) {
      assert Answers(asked, f) && IdentityOf(f) !in Identities(kept);
    }
    forall f | f in repaired && WasAskedFor(asked, f) ensures exists g <- kept + fs :: SameAnswer(g, f) {
      assert Answers(asked, f);
      assert IdentityOf(f) in Identities(kept) + Identities(fs);
      var g :| (g in kept || g in fs) && IdentityOf(g) == IdentityOf(f);
      assert g in kept + fs && SameAnswer(g, f);
    }
  }

  /** The answers come in the order they were given, and of repeated ones the first is taken. */
  lemma {:induction false} FirstAnswersInOrder(repaired: seq<Finding>, asked: seq<Attempt>, seen: set<Identity>)
    returns (at: seq<nat>)
    ensures Picks(repaired, at, NewAnswers(repaired, asked, seen))
    ensures forall i, k :: 0 <= i < |at| && 0 <= k < at[i] ==> !SameAnswer(repaired[k], repaired[at[i]])
  {
    if repaired == [] { return []; }
    var f, rest := repaired[0], repaired[1..];
    var later := if Answers(asked, f) then seen + {IdentityOf(f)} else seen;
    assert IdentityOf(f) in seen ==> later == seen;
    var tail := FirstAnswersInOrder(rest, asked, later);
    FirstIsNotRepeated(f, rest, asked, seen);
    var shifted := seq(|tail|, i requires 0 <= i < |tail| => tail[i] + 1);
    PicksCons(f, rest, tail, NewAnswers(rest, asked, later), shifted);
    assert repaired == [f] + rest;
    EarlierAnswersDiffer(f, rest, tail, NewAnswers(rest, asked, later), shifted);
    at := if Answers(asked, f) && IdentityOf(f) !in seen then [0] + shifted else shifted;
  }

  lemma EarlierAnswersDiffer(
    f: Finding, rest: seq<Finding>, tail: seq<nat>, picked: seq<Finding>, shifted: seq<nat>)
    requires Picks(rest, tail, picked) && forall g <- picked :: !SameAnswer(f, g)
    requires forall i, k :: 0 <= i < |tail| && 0 <= k < tail[i] ==> !SameAnswer(rest[k], rest[tail[i]])
    requires |shifted| == |tail| && forall i :: 0 <= i < |tail| ==> shifted[i] == tail[i] + 1
    ensures var all := [f] + rest;
      forall i, k :: 0 <= i < |shifted| && 0 <= k < shifted[i] ==> !SameAnswer(all[k], all[shifted[i]])
  {
    forall i, k | 0 <= i < |shifted| && 0 <= k < shifted[i]
      ensures !SameAnswer(([f] + rest)[k], ([f] + rest)[shifted[i]])
    {
      assert picked[i] in picked;
    }
  }

  lemma FirstIsNotRepeated(f: Finding, rest: seq<Finding>, asked: seq<Attempt>, seen: set<Identity>)
    ensures forall g <- NewAnswers(rest, asked, if Answers(asked, f) then seen + {IdentityOf(f)} else seen) ::
      !SameAnswer(f, g)
  {
    var later := if Answers(asked, f) then seen + {IdentityOf(f)} else seen;
    NewAnswersAreNew(rest, asked, later);
    forall g | g in NewAnswers(rest, asked, later) ensures !SameAnswer(f, g) {
      assert SameAnswer(f, g) ==> IdentityOf(f) == IdentityOf(g) && (Answers(asked, f) <==> Answers(asked, g));
    }
  }

  /** The identities among the answers. */
  function AnsweredIdentities(repaired: seq<Finding>, asked: seq<Attempt>): set<Identity> {
    set f <- repaired | Answers(asked, f) :: IdentityOf(f)
  }

  lemma AnsweredCons(f: Finding, rest: seq<Finding>, asked: seq<Attempt>)
    ensures Answers(asked, f) ==>
      AnsweredIdentities([f] + rest, asked) == {IdentityOf(f)} + AnsweredIdentities(rest, asked)
    ensures !Answers(asked, f) ==> AnsweredIdentities([f] + rest, asked) == AnsweredIdentities(rest, asked)
  {
    assert forall x :: x in [f] + rest <==> x == f || x in rest;
  }

  lemma IdentitiesCons(f: Finding, rest: seq<Finding>)
    ensures Identities([f] + rest) == {IdentityOf(f)} + Identities(rest)
  {
    assert forall x :: x in [f] + rest <==> x == f || x in rest;
  }

  lemma OneMoreIdentity(id: Identity, later: set<Identity>, seen: set<Identity>)
    ensures id in seen ==> ({id} + later) - seen == later - seen
    ensures id !in seen ==>
      ({id} + later) - seen == {id} + (later - (seen + {id})) && |({id} + later) - seen| == 1 + |later - (seen + {id})|
  {
    if id !in seen {
      assert ({id} + later) - seen == {id} + (later - (seen + {id}));
    }
  }

  /** As many findings get in as the answers have identities that are not kept yet. */
  lemma {:induction false} OneAnswerPerIdentity(repaired: seq<Finding>, asked: seq<Attempt>, seen: set<Identity>)
    ensures |NewAnswers(repaired, asked, seen)| == |AnsweredIdentities(repaired, asked) - seen|
    ensures Identities(NewAnswers(repaired, asked, seen)) == AnsweredIdentities(repaired, asked) - seen
  {
    if repaired != [] {
      var f, rest := repaired[0], repaired[1..];
      var id, later := IdentityOf(f), AnsweredIdentities(rest, asked);
      assert repaired == [f] + rest;
      AnsweredCons(f, rest, asked);
      OneMoreIdentity(id, later, seen);
      if Answers(asked, f) && id !in seen {
        OneAnswerPerIdentity(rest, asked, seen + {id});
        IdentitiesCons(f, NewAnswers(rest, asked, seen + {id}));
      } else {
        OneAnswerPerIdentity(rest, asked, seen);
      }
    }
  }

  /** The asked attempts cannot be put into a set: the merge raises TypeError. */
  predicate Unhashable(asked: seq<Attempt>) {
    exists a <- asked :: !Hashable(a.req) || !Hashable(a.file)
  }

  const SNIPPET_MISSING := "snippet:missing"

  /** How many drops remain once `recovered` findings came back. */
  function Remaining(dropped: nat, recovered: nat): (rest: nat)
    ensures rest + recovered == dropped || (rest == 0 && recovered > dropped)
  {
    if recovered <= dropped then dropped - recovered else 0
  }

  /** The histogram after crediting `recovered` findings against the snippet bucket. */
  function Credited(reasons: Histogram, recovered: nat): Histogram {
    if recovered == 0 then reasons
    else if Count(reasons, SNIPPET_MISSING) > recovered
    then reasons[SNIPPET_MISSING := Count(reasons, SNIPPET_MISSING) - recovered]
    else reasons - {SNIPPET_MISSING}
  }

  /** Crediting touches one bucket, never below one, and never takes more than was recovered. */
  lemma CreditIsBounded(reasons: Histogram, recovered: nat, key: string)
    ensures Count(Credited(reasons, recovered), key)
      == if key == "snippet:missing" then Remaining(Count(reasons, key), recovered) else Count(reasons, key)
    ensures Count(reasons, key) - recovered <= Count(Credited(reasons, recovered), key) <= Count(reasons, key)
    ensures key in Credited(reasons, recovered) ==>
      key in reasons && (reasons[key] > 0 ==> Credited(reasons, recovered)[key] > 0)
  {
  }

  /** What the repair of one call comes to, given the re-ask's answer. */
  datatype Repair = Raises | Repaired(extra: seq<Finding>)

  function RepairOf(
    findings: seq<Finding>, attempts: seq<Attempt>, reask: seq<Attempt> -> seq<Finding>): Repair
  {
    var asked := RepairableOf(attempts);
    if asked == [] then Repaired([])
    else if Unhashable(asked) then Raises
    else Repaired(NewAnswers(reask(asked), asked, Identities(findings)))
  }

  /** One call's kept findings and its drop histogram, both edited in place. */
  class CallOutcome {
    var findings: seq<Finding>
    var dropReasons: Histogram

    constructor (findings: seq<Finding>, dropReasons: Histogram)
      ensures this.findings == findings && this.dropReasons == dropReasons
    {
      this.findings, this.dropReasons := findings, dropReasons;
    }

    /** Append the repaired findings that answer an asked attempt and are not already kept. */
    method MergeRepaired(repaired: seq<Finding>, asked: seq<Attempt>) returns (raised: bool, added: nat)
      modifies this`findings
      ensures raised <==> Unhashable(asked)
      ensures raised ==> findings == old(findings)
      ensures !raised ==>
        findings == old(findings) + NewAnswers(repaired, asked, Identities(old(findings)))
        && added == |findings| - |old(findings)|
    {
      added := 0;
      if Unhashable(asked) {
        return true, 0;
      }
      var seen := Identities(findings);
      ghost var want := old(findings) + NewAnswers(repaired, asked, seen);
      for i := 0 to |repaired|
        invariant findings + NewAnswers(repaired[i..], asked, seen) == want
        invariant added == |findings| - |old(findings)|
      {
        var f := repaired[i];
        assert repaired[i..][1..] == repaired[i + 1..];
        if !Answers(asked, f) {
          continue;
        }
        if IdentityOf(f) in seen {
          continue;
        }
        seen := seen + {IdentityOf(f)};
        findings := findings + [f];
        added := added + 1;
      }
      return false, added;
    }

    /** The repair pass; returns the adjusted drop count. */
    method ApplyRepair(dropped: nat, attempts: seq<Attempt>, reask: seq<Attempt> -> seq<Finding>)
      returns (raised: bool, remaining: nat)
      modifies this
      ensures raised <==> RepairOf(old(findings), attempts, reask).Raises?
      ensures raised ==> findings == old(findings) && dropReasons == old(dropReasons)
      ensures !raised ==>
        var extra := RepairOf(old(findings), attempts, reask).extra;
        && findings == old(findings) + extra
        && dropReasons == Credited(old(dropReasons), |extra|)
        && remaining == Remaining(dropped, |extra|)
    {
      var repairable := Snippetless(attempts);
      if repairable == [] {
        return false, dropped;
      }
      var recovered;
      raised, recovered := MergeRepaired(reask(repairable), repairable);
      if raised || recovered == 0 {
        return raised, dropped;
      }
      if Count(dropReasons, SNIPPET_MISSING) > recovered {
        dropReasons := dropReasons[SNIPPET_MISSING := Count(dropReasons, SNIPPET_MISSING) - recovered];
      } else {
        dropReasons := dropReasons - {SNIPPET_MISSING};
      }
      remaining := if dropped > recovered then dropped - recovered else 0;
    }
  }

  /** The identities a re-ask about `attempts` answers that are not kept yet. */
  function NewIdentities(
    findings: seq<Finding>, attempts: seq<Attempt>, reask: seq<Attempt> -> seq<Finding>): set<Identity>
  {
    var asked := RepairableOf(attempts);
    if asked == [] then {} else AnsweredIdentities(reask(asked), asked) - Identities(findings)
  }

  lemma IdentitiesConcat(a: seq<Finding>, b: seq<Finding>)
    ensures Identities(a + b) == Identities(a) + Identities(b)
  {
    assert forall x :: x in a + b <==> x in a || x in b;
  }

  /**
   The accounting law of a repair: the kept list gains one finding for each new
   identity among the answers and nothing else; kept plus dropped never shrinks, and
   is conserved exactly when there are no more new identities than there were drops.
   */
  lemma RepairNeverShrinks(
    findings: seq<Finding>, attempts: seq<Attempt>, reask: seq<Attempt> -> seq<Finding>, dropped: nat)
    requires RepairOf(findings, attempts, reask).Repaired?
    ensures var gained := NewIdentities(findings, attempts, reask);
      var kept := findings + RepairOf(findings, attempts, reask).extra;
      var remaining := Remaining(dropped, |kept| - |findings|);
      && |kept| == |findings| + |gained| && Identities(kept) == Identities(findings) + gained
      && |kept| + remaining >= |findings| + dropped
      && (|kept| + remaining == |findings| + dropped <==> |gained| <= dropped)
  {
    var asked, extra := RepairableOf(attempts), RepairOf(findings, attempts, reask).extra;
    if asked != [] {
      OneAnswerPerIdentity(reask(asked), asked, Identities(findings));
    }
    IdentitiesConcat(findings, extra);
  }

  // --------------------------------------- what the histogram then describes

  /** Validation reports each attempt at least once, and a missing snippet once, exactly when the key is absent. */
  predicate Reported(a: Attempt) {
    a.reasons != [] && multiset(a.reasons)[SNIPPET_MISSING] == if a.snippet.Missing? then 1 else 0
  }

  function AllReasons(attempts: seq<Attempt>): multiset<string> {
    if attempts == [] then multiset{}
    else AllReasons(attempts[..|attempts| - 1]) + multiset(attempts[|attempts| - 1].reasons)
  }

  /** The histogram counts the reasons of exactly these drops. */
  ghost predicate Describes(reasons: Histogram, attempts: seq<Attempt>) {
    forall key :: Count(reasons, key) == AllReasons(attempts)[key]
  }

  /** The attempt was asked about, and one of the merged findings answers it. */
  predicate IsRecovered(a: Attempt, extra: seq<Finding>) { Repairable(a) && exists f <- extra :: Answers([a], f) }

  /** The attempts that were (or were not) recovered, in order. */
  function Part(attempts: seq<Attempt>, extra: seq<Finding>, recovered: bool): seq<Attempt> {
    if attempts == [] then []
    else
      var a := attempts[|attempts| - 1];
      Part(attempts[..|attempts| - 1], extra, recovered) + if IsRecovered(a, extra) == recovered then [a] else []
  }

  lemma ReasonsSnoc(attempts: seq<Attempt>, a: Attempt)
    ensures AllReasons(attempts + [a]) == AllReasons(attempts) + multiset(a.reasons)
  {
    assert (attempts + [a])[..|attempts|] == attempts;
  }

  lemma {:induction false} PartsAddUp(attempts: seq<Attempt>, extra: seq<Finding>)
    ensures AllReasons(attempts) == AllReasons(Part(attempts, extra, true)) + AllReasons(Part(attempts, extra, false))
    ensures |attempts| == |Part(attempts, extra, true)| + |Part(attempts, extra, false)|
  {
    if attempts != [] {
      var init, a := attempts[..|attempts| - 1], attempts[|attempts| - 1];
      var recovered := IsRecovered(a, extra);
      PartsAddUp(init, extra);
      ReasonsSnoc(Part(init, extra, recovered), a);
      assert Part(attempts, extra, !recovered) == Part(init, extra, !recovered);
    }
  }

  lemma {:induction false} PartMembers(attempts: seq<Attempt>, extra: seq<Finding>, recovered: bool, a: Attempt)
    ensures a in Part(attempts, extra, recovered) <==> a in attempts && IsRecovered(a, extra) == recovered
  {
    if attempts != [] {
      var init := attempts[..|attempts| - 1];
      PartMembers(init, extra, recovered, a);
      assert attempts == init + [attempts[|attempts| - 1]];
    }
  }

  /** Every one of the attempts failed for its missing snippet alone. */
  ghost predicate OnlySnippet(attempts: seq<Attempt>) {
    forall a <- attempts :: a.reasons == [SNIPPET_MISSING]
  }

  /** No reason but the missing snippet. */
  ghost predicate NoOther(reasons: multiset<string>) {
    forall key :: key != SNIPPET_MISSING ==> reasons[key] == 0
  }

  lemma OneReasonIff(a: Attempt)
    requires Reported(a)
    ensures NoOther(multiset(a.reasons)) <==> a.reasons == [SNIPPET_MISSING]
  {
    if NoOther(multiset(a.reasons)) {
      assert a.reasons[0] in multiset(a.reasons);
      assert multiset(a.reasons) == multiset{SNIPPET_MISSING};
      assert |a.reasons| == |multiset(a.reasons)| == 1;
    }
  }

  /** Attempts have no reason but the missing snippet in total exactly when each has no other. */
  lemma {:induction false} OnlySnippetIff(attempts: seq<Attempt>)
    requires forall a <- attempts :: Reported(a)
    ensures NoOther(AllReasons(attempts)) <==> OnlySnippet(attempts)
    ensures OnlySnippet(attempts) ==> AllReasons(attempts)[SNIPPET_MISSING] == |attempts|
  {
    if attempts != [] {
      var init, a := attempts[..|attempts| - 1], attempts[|attempts| - 1];
      assert forall x :: x in attempts <==> x in init || x == a by { assert attempts == init + [a]; }
      OnlySnippetIff(init);
      OneReasonIff(a);
      assert forall key :: AllReasons(attempts)[key] == AllReasons(init)[key] + multiset(a.reasons)[key];
      assert OnlySnippet(attempts) <==> OnlySnippet(init) && a.reasons == [SNIPPET_MISSING];
      assert NoOther(AllReasons(attempts)) ==> NoOther(AllReasons(init)) && NoOther(multiset(a.reasons));
    }
  }

  /**
   What the credited histogram is worth after a repair. It describes the drops that
   remain exactly when every recovered attempt failed for its missing snippet alone,
   and as many findings came back as attempts were recovered - or more, with no
   attempt left in that bucket.
   */
  lemma HistogramStillDescribesIff(
    reasons: Histogram, findings: seq<Finding>, attempts: seq<Attempt>, reask: seq<Attempt> -> seq<Finding>)
    requires (forall a <- attempts :: Reported(a)) && Describes(reasons, attempts)
    requires RepairOf(findings, attempts, reask).Repaired?
    ensures var extra := RepairOf(findings, attempts, reask).extra;
      var recovered := Part(attempts, extra, true);
      Describes(Credited(reasons, |extra|), Part(attempts, extra, false)) <==>
        (OnlySnippet(recovered)
         && (|extra| == |recovered| || |extra| > |recovered| == Count(reasons, SNIPPET_MISSING)))
  {
    var extra := RepairOf(findings, attempts, reask).extra;
    var recovered, rest := Part(attempts, extra, true), Part(attempts, extra, false);
    var credited := Credited(reasons, |extra|);
    PartsAddUp(attempts, extra);
    forall a <- recovered ensures Reported(a) { PartMembers(attempts, extra, true, a); }
    OnlySnippetIff(recovered);
    forall key
      ensures Count(credited, key) == AllReasons(rest)[key] <==>
        if key == SNIPPET_MISSING
        then Remaining(Count(reasons, key), |extra|) == Count(reasons, key) - AllReasons(recovered)[key]
        else AllReasons(recovered)[key] == 0
    {
      CreditIsBounded(reasons, |extra|, key);
    }
    if Describes(credited, rest) {
      assert NoOther(AllReasons(recovered));
      assert Count(credited, SNIPPET_MISSING) == AllReasons(rest)[SNIPPET_MISSING];
    }
  }

  /**
   And what the returned drop count is worth: it is the number of attempts not
   recovered exactly when as many findings came back as attempts were recovered, or
   more with every attempt recovered.
   */
  lemma DropCountStillCountsIff(
    findings: seq<Finding>, attempts: seq<Attempt>, reask: seq<Attempt> -> seq<Finding>)
    requires RepairOf(findings, attempts, reask).Repaired?
    ensures var extra := RepairOf(findings, attempts, reask).extra;
      var recovered := Part(attempts, extra, true);
      Remaining(|attempts|, |extra|) == |Part(attempts, extra, false)| <==>
        (|extra| == |recovered| || |extra| > |recovered| == |attempts|)
  {
    PartsAddUp(attempts, RepairOf(findings, attempts, reask).extra);
  }

  const TOO_SHORT := "snippet:string_too_short"
  const EMPTY_SNIPPET := Attempt(Text("S-CON-3"), Text("a.py"), Text(""), [TOO_SHORT])
  const NO_SNIPPET := Attempt(Text("P-TIM-1"), Text("b.py"), Missing, [SNIPPET_MISSING])
  const ANSWER := Finding("S-CON-3", "a.py", 3, "violation", "...")

  lemma OnlyTheEmptyOneIsAnswered()
    ensures RepairableOf([EMPTY_SNIPPET, NO_SNIPPET]) == [EMPTY_SNIPPET, NO_SNIPPET]
    ensures IsRecovered(EMPTY_SNIPPET, [ANSWER]) && !IsRecovered(NO_SNIPPET, [ANSWER])
    ensures Answers([EMPTY_SNIPPET, NO_SNIPPET], ANSWER) && !Unhashable([EMPTY_SNIPPET, NO_SNIPPET])
  {
    assert [EMPTY_SNIPPET, NO_SNIPPET][..1] == [EMPTY_SNIPPET] && [EMPTY_SNIPPET][..0] == [];
    assert RepairableOf([EMPTY_SNIPPET]) == [EMPTY_SNIPPET];
    assert EMPTY_SNIPPET in [EMPTY_SNIPPET] && EMPTY_SNIPPET in [EMPTY_SNIPPET, NO_SNIPPET];
    assert ANSWER in [ANSWER] && Answers([EMPTY_SNIPPET], ANSWER);
  }

  lemma OnlyTheAnswerGetsIn(reask: seq<Attempt> -> seq<Finding>)
    requires reask([EMPTY_SNIPPET, NO_SNIPPET]) == [ANSWER]
    ensures RepairOf([], [EMPTY_SNIPPET, NO_SNIPPET], reask) == Repaired([ANSWER])
  {
    var asked := [EMPTY_SNIPPET, NO_SNIPPET];
    OnlyTheEmptyOneIsAnswered();
    assert Identities([]) == {};
    assert NewAnswers([ANSWER], asked, {}) == [ANSWER] + NewAnswers([], asked, {IdentityOf(ANSWER)});
  }

  lemma TheOtherRemains()
    ensures Part([EMPTY_SNIPPET, NO_SNIPPET], [ANSWER], false) == [NO_SNIPPET]
  {
    OnlyTheEmptyOneIsAnswered();
    assert [EMPTY_SNIPPET, NO_SNIPPET][..1] == [EMPTY_SNIPPET] && [EMPTY_SNIPPET][..0] == [];
    assert Part([EMPTY_SNIPPET], [ANSWER], false) == [];
  }

  /**
   An attempt with an empty snippet is asked about too, but was not tallied as
   missing one: recovering it empties the bucket of the attempt that still lacks its own.
   */
  lemma EmptySnippetIsMisbooked(reask: seq<Attempt> -> seq<Finding>)
    requires reask([EMPTY_SNIPPET, NO_SNIPPET]) == [ANSWER]
    ensures RepairOf([], [EMPTY_SNIPPET, NO_SNIPPET], reask) == Repaired([ANSWER])
    ensures Part([EMPTY_SNIPPET, NO_SNIPPET], [ANSWER], false) == [NO_SNIPPET]
    ensures Credited(map[TOO_SHORT := 1, SNIPPET_MISSING := 1], 1) == map[TOO_SHORT := 1]
  {
    OnlyTheAnswerGetsIn(reask);
    TheOtherRemains();
  }

  /** A repair raises exactly when some attempt it asks about names its requirement or file with a list or object. */
  lemma RepairRaisesIff(findings: seq<Finding>, attempts: seq<Attempt>, reask: seq<Attempt> -> seq<Finding>)
    ensures RepairOf(findings, attempts, reask).Raises? <==>
      exists a <- attempts :: Repairable(a) && (a.req.Many? || a.file.Many?)
  {
    forall a ensures a in RepairableOf(attempts) <==> a in attempts && Repairable(a) { RepairableMembers(attempts, a); }
  }

  /** `{"req": ["X"], "file": "a.py"}` without a snippet is such an attempt. */
  lemma ListRequirementRaises(reask: seq<Attempt> -> seq<Finding>)
    ensures RepairOf([], [Attempt(Many(1), Text("a.py"), Missing, [SNIPPET_MISSING])], reask).Raises?
  {
    var a := Attempt(Many(1), Text("a.py"), Missing, [SNIPPET_MISSING]);
    assert a in [a] && Repairable(a);
    RepairRaisesIff([], [a], reask);
  }

  const LENGTH := "length"

  /** One call's tail: repair when allowed, then record the final outcome exactly once. */
  method FinishCall(
    finishReason: string, parsed: seq<Finding>, attempts: seq<Attempt>, reasons: Histogram,
    reask: Option<seq<Attempt> -> seq<Finding>>, counter: DropStatsCounter)
    returns (raised: bool, findings: seq<Finding>, lossy: bool)
    modifies counter
    ensures raised <==> reask.Some? && RepairOf(parsed, attempts, reask.value).Raises?
    ensures raised ==> counter.Pending() == old(counter.Pending())
    ensures !raised ==>
      var extra := if reask.Some? then RepairOf(parsed, attempts, reask.value).extra else [];
      && findings == parsed + extra
      && lossy == (finishReason == "length")
      && StatsSum(counter.Pending(), old(counter.Pending()),
           Stats(Remaining(|attempts|, |extra|), |findings|, Credited(reasons, |extra|)))
  {
    var call := new CallOutcome(parsed, reasons);
    var dropped := |attempts|;
    if dropped > 0 && reask.Some? {
      raised, dropped := call.ApplyRepair(dropped, attempts, reask.value);
      if raised {
        return true, [], false;
      }
    }
    counter.Record(dropped, |call.findings|, call.dropReasons);
    return false, call.findings, finishReason == LENGTH;
  }
}
