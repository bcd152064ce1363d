/**
 Analysis targets built from the partition (src/quodeq/analysis/manifest_targets.py,
 manifest_build_scope.py): one target per large enough (scope, language) bucket.
 */
module ScopeTargets {
  import opened Prelude
  import opened NameOrder
  import opened ScopePartition

  const MIN_FILES_PER_TARGET := 3

  datatype Rule = Rule(language: Option<string>, category: Option<string>)

  datatype Target = Target(
    name: string, language: string, category: Option<string>, sourceFiles: seq<string>, totalFiles: nat, scope: string)

  function TargetName(language: string, category: Option<string>): string {
    if category.Some? && category.value != "" then language + "_" + category.value else language
  }

  type LangFiles = map<string, seq<string>>

  predicate LargeEnough(files: LangFiles, lang: string) { |Get(files, lang, [])| >= MIN_FILES_PER_TARGET }

  /** The target covers the whole bucket of its language, sorted, and counts it. */
  ghost predicate Covers(t: Target, files: LangFiles, scope: string) {
    t.scope == scope && LargeEnough(files, t.language)
    && t.sourceFiles == SortNames(files[t.language]) && t.totalFiles == |files[t.language]|
  }

  ghost predicate DistinctBuckets(targets: seq<Target>) {
    forall i, j :: 0 <= i < j < |targets| ==>
      targets[i].scope != targets[j].scope || targets[i].language != targets[j].language
  }

  /** Some match names a known rule for `lang`. */
  predicate Matched(registry: map<string, Rule>, matches: seq<string>, lang: string) {
    exists m <- matches :: m in registry && registry[m].language == Some(lang)
  }

  predicate HasTarget(targets: seq<Target>, scope: string, lang: string) {
    exists t <- targets :: t.scope == scope && t.language == lang
  }

  lemma HasTargetSnoc(targets: seq<Target>, t: Target, scope: string, lang: string)
    ensures HasTarget(targets + [t], scope, lang)
      <==> HasTarget(targets, scope, lang) || (t.scope == scope && t.language == lang)
  {
    assert forall x :: x in targets + [t] <==> x in targets || x == t;
  }

  lemma MatchedSnoc(registry: map<string, Rule>, matches: seq<string>, i: nat, lang: string)
    requires i < |matches|
    ensures Matched(registry, matches[..i + 1], lang) <==>
      Matched(registry, matches[..i], lang)
      || (matches[i] in registry && registry[matches[i]].language == Some(lang))
  {
    assert matches[..i + 1] == matches[..i] + [matches[i]];
  }

  /** The category of the first matching rule for `lang`; a language without a rule has none. */
  function CategoryOf(registry: map<string, Rule>, matches: seq<string>, lang: string): Option<string> {
    if matches == [] then None
    else if matches[0] in registry && registry[matches[0]].language == Some(lang) then registry[matches[0]].category
    else CategoryOf(registry, matches[1..], lang)
  }

  /** A target is named after its language and, when it has one, the category of the rule that claimed it. */
  ghost predicate Named(t: Target, registry: map<string, Rule>, matches: seq<string>) {
    && t.category == CategoryOf(registry, matches, t.language)
    && (t.category in {None, Some("")} ==> t.name == t.language)
    && (t.category !in {None, Some("")} ==> t.name == t.language + "_" + t.category.value)
  }

  lemma {:induction false} FirstRuleNames(registry: map<string, Rule>, matches: seq<string>, i: nat, lang: string)
    requires i < |matches| && !Matched(registry, matches[..i], lang)
    requires matches[i] in registry && registry[matches[i]].language == Some(lang)
    ensures CategoryOf(registry, matches, lang) == registry[matches[i]].category
  {
    if i > 0 {
      assert matches[0] in matches[..i];
      forall m | m in matches[1..][..i - 1] ensures m in matches[..i] {
        assert matches[1..][..i - 1] == matches[..i][1..];
      }
      FirstRuleNames(registry, matches[1..], i - 1, lang);
    }
  }

  lemma {:induction false} NoRuleNoCategory(registry: map<string, Rule>, matches: seq<string>, lang: string)
    requires !Matched(registry, matches, lang)
    ensures CategoryOf(registry, matches, lang) == None
  {
    if matches != [] {
      assert matches[0] in matches && forall m :: m in matches[1..] ==> m in matches;
      NoRuleNoCategory(registry, matches[1..], lang);
    }
  }

  /**
   Framework targets from the match list: the first matching rule of a language
   claims its bucket. The buckets left over come back in `left`.
   */
  method BuildTargetsFromMatches(
    registry: map<string, Rule>, matches: seq<string>, files: LangFiles, scope: string)
    returns (targets: seq<Target>, left: LangFiles)
    ensures forall t <- targets :: Covers(t, files, scope) && Named(t, registry, matches)
    ensures DistinctBuckets(targets)
    ensures forall lang :: HasTarget(targets, scope, lang) <==>
      Matched(registry, matches, lang) && LargeEnough(files, lang)
    ensures left == map lang <- files.Keys
      | !(Matched(registry, matches, lang) && LargeEnough(files, lang)) :: lang := files[lang]
  {
    targets := [];
    var claimed: set<string> := {};
    for i := 0 to |matches|
      invariant forall t <- targets :: Covers(t, files, scope) && Named(t, registry, matches)
      invariant DistinctBuckets(targets)
      invariant forall lang :: lang in claimed <==> HasTarget(targets, scope, lang)
      invariant forall lang :: HasTarget(targets, scope, lang) <==>
        Matched(registry, matches[..i], lang) && LargeEnough(files, lang)
    {
      ghost var before := targets;
      forall lang { MatchedSnoc(registry, matches, i, lang); }
      if matches[i] in registry && registry[matches[i]].language.Some? {
        var rule := registry[matches[i]];
        var lang := rule.language.value;
        if lang !in claimed && LargeEnough(files, lang) {
          claimed := claimed + {lang};
          var t := Target(
            TargetName(lang, rule.category), lang, rule.category, SortNames(files[lang]), |files[lang]|, scope);
          assert forall x <- targets :: x.language != lang;
          FirstRuleNames(registry, matches, i, lang);
          targets := targets + [t];
          forall l { HasTargetSnoc(before, t, scope, l); }
        }
      }
    }
    assert matches[..|matches|] == matches;
    left := map lang <- files.Keys | lang !in claimed :: lang := files[lang];
  }

  /** Every bucket of one scope has its target when it is large enough, and no target otherwise. */
  ghost predicate ScopeDone(targets: seq<Target>, files: LangFiles, scope: string) {
    forall lang :: HasTarget(targets, scope, lang) <==> lang in files && |files[lang]| >= 3
  }

  /** One scope's framework targets, then one plain target per leftover language. */
  method BuildOneScope(
    registry: map<string, Rule>, matches: seq<string>, files: LangFiles, scope: string)
    returns (targets: seq<Target>, left: LangFiles)
    ensures forall t <- targets :: Covers(t, files, scope) && Named(t, registry, matches)
    ensures DistinctBuckets(targets)
    ensures ScopeDone(targets, files, scope)
    ensures left.Keys <= files.Keys
  {
    targets, left := BuildTargetsFromMatches(registry, matches, files, scope);
    var todo := left.Keys;
    while todo != {}
      invariant todo <= left.Keys
      invariant forall t <- targets :: Covers(t, files, scope) && Named(t, registry, matches)
      invariant DistinctBuckets(targets)
      invariant forall lang <- todo :: !HasTarget(targets, scope, lang)
      invariant forall lang :: lang !in todo ==> (HasTarget(targets, scope, lang) <==> LargeEnough(files, lang))
      decreases todo
    {
      var lang :| lang in todo;
      if |left[lang]| >= MIN_FILES_PER_TARGET {
        ghost var before := targets;
        var t := Target(TargetName(lang, None), lang, None, SortNames(left[lang]), |left[lang]|, scope);
        assert forall x <- targets :: x.language != lang;
        NoRuleNoCategory(registry, matches, lang);
        targets := targets + [t];
        forall l { HasTargetSnoc(before, t, scope, l); }
      }
      todo := todo - {lang};
    }
  }

  /** Exactly one target per bucket of at least three files, over the first `n` scopes. */
  ghost predicate TargetsPartition(targets: seq<Target>, buckets: Buckets, scopes: seq<string>, n: nat)
    requires n <= |scopes|
  {
    && (forall t <- targets :: t.scope in scopes[..n] && Covers(t, Get(buckets, t.scope, map[]), t.scope))
    && DistinctBuckets(targets)
    && (forall scope <- scopes[..n] :: ScopeDone(targets, Get(buckets, scope, map[]), scope))
  }

  lemma TargetsGrow(
    targets: seq<Target>, more: seq<Target>, buckets: Buckets, scopes: seq<string>, n: nat)
    requires n < |scopes| && Distinct(scopes)
    requires TargetsPartition(targets, buckets, scopes, n)
    requires var files := Get(buckets, scopes[n], map[]);
      (forall t <- more :: Covers(t, files, scopes[n])) && DistinctBuckets(more) && ScopeDone(more, files, scopes[n])
    ensures TargetsPartition(targets + more, buckets, scopes, n + 1)
  {
    assert scopes[..n + 1] == scopes[..n] + [scopes[n]];
    assert scopes[n] !in scopes[..n];
    var all := targets + more;
    assert forall t :: t in all <==> t in targets || t in more;
    forall i, j | 0 <= i < j < |all| ensures all[i].scope != all[j].scope || all[i].language != all[j].language {
      if i < |targets| <= j {
        assert targets[i] in targets && more[j - |targets|] in more;
      }
    }
    forall scope, lang
      ensures HasTarget(targets + more, scope, lang) <==>
        HasTarget(targets, scope, lang) || HasTarget(more, scope, lang)
    {
    }
  }

  ghost predicate AllNamed(
    targets: seq<Target>, registry: map<string, Rule>, matchesByScope: map<string, seq<string>>)
  {
    forall t <- targets :: t.scope in matchesByScope && Named(t, registry, matchesByScope[t.scope])
  }

  /** All scopes' targets. A repeated scope would be visited again, so the promise is for distinct ones. */
  method BuildScopeTargets(
    scopePaths: seq<string>, matchesByScope: map<string, seq<string>>, buckets: Buckets, registry: map<string, Rule>)
    returns (targets: seq<Target>)
    requires forall s <- scopePaths :: s in matchesByScope && s in buckets
    ensures Distinct(scopePaths) ==> TargetsPartition(targets, buckets, scopePaths, |scopePaths|)
    ensures AllNamed(targets, registry, matchesByScope)
  {
    targets := [];
    var current := buckets;
    for i := 0 to |scopePaths|
      invariant forall s <- scopePaths :: s in current
      invariant Distinct(scopePaths) ==> TargetsPartition(targets, buckets, scopePaths, i)
      invariant AllNamed(targets, registry, matchesByScope)
      invariant Distinct(scopePaths) ==> forall s <- scopePaths[i..] :: current[s] == buckets[s]
    {
      var scope := scopePaths[i];
      assert scope in scopePaths[i..];
      var more, left := BuildOneScope(registry, matchesByScope[scope], current[scope], scope);
      if Distinct(scopePaths) { TargetsGrow(targets, more, buckets, scopePaths, i); }
      targets := targets + more;
      current := current[scope := left];
    }
  }

  function ScopeNames(subResults: seq<(string, seq<string>)>): (names: seq<string>)
    ensures |names| == |subResults|
    ensures forall i :: 0 <= i < |subResults| ==> names[i] == subResults[i].0
  {
    seq(|subResults|, i requires 0 <= i < |subResults| => subResults[i].0)
  }

  ghost predicate IsLastEntry(subResults: seq<(string, seq<string>)>, i: nat)
    requires i < |subResults|
  {
    forall j :: i < j < |subResults| ==> subResults[j].0 != subResults[i].0
  }

  /** A scope's matches are those of its last entry. */
  ghost predicate LastEntryWins(matchesByScope: map<string, seq<string>>, subResults: seq<(string, seq<string>)>) {
    forall i :: 0 <= i < |subResults| && IsLastEntry(subResults, i) ==>
      subResults[i].0 in matchesByScope && matchesByScope[subResults[i].0] == subResults[i].1
  }

  function LastMatches(subResults: seq<(string, seq<string>)>): map<string, seq<string>> {
    if subResults == [] then map[]
    else
      var last := subResults[|subResults| - 1];
      LastMatches(subResults[..|subResults| - 1])[last.0 := last.1]
  }

  lemma {:induction false} LastMatchesAt(subResults: seq<(string, seq<string>)>, i: nat)
    requires i < |subResults| && IsLastEntry(subResults, i)
    ensures subResults[i].0 in LastMatches(subResults)
    ensures LastMatches(subResults)[subResults[i].0] == subResults[i].1
  {
    if i < |subResults| - 1 {
      var init := subResults[..|subResults| - 1];
      assert IsLastEntry(init, i) && init[i] == subResults[i];
      LastMatchesAt(init, i);
    }
  }

  lemma {:induction false} LastMatchesKeys(subResults: seq<(string, seq<string>)>, s: string)
    ensures s in LastMatches(subResults) <==> s in ScopeNames(subResults)
  {
    if subResults != [] {
      var init := subResults[..|subResults| - 1];
      LastMatchesKeys(init, s);
      assert ScopeNames(subResults) == ScopeNames(init) + [subResults[|subResults| - 1].0];
    }
  }

  /** The matches per scope, with an empty list for a catch-all that no rule matched. */
  function MatchesByScope(subResults: seq<(string, seq<string>)>): map<string, seq<string>> {
    if "." in LastMatches(subResults) then LastMatches(subResults) else LastMatches(subResults)["." := []]
  }

  function ScopePaths(subResults: seq<(string, seq<string>)>): seq<string> {
    var names := ScopeNames(subResults);
    if "." in names then names else names + ["."]
  }

  /** The scopes to partition by, with the catch-all added when no rule matched the root. */
  method ResolveScopePaths(subResults: seq<(string, seq<string>)>)
    returns (scopePaths: seq<string>, matchesByScope: map<string, seq<string>>)
    ensures scopePaths == ScopePaths(subResults) && matchesByScope == MatchesByScope(subResults)
    ensures matchesByScope.Keys == set s <- scopePaths
    ensures LastEntryWins(matchesByScope, subResults)
    ensures "." !in ScopeNames(subResults) ==> matchesByScope["."] == []
  {
    scopePaths := ScopeNames(subResults);
    matchesByScope := map[];
    for i := 0 to |subResults|
      invariant matchesByScope == LastMatches(subResults[..i])
    {
      assert subResults[..i + 1][..i] == subResults[..i];
      matchesByScope := matchesByScope[subResults[i].0 := subResults[i].1];
    }
    assert subResults[..|subResults|] == subResults;
    forall s { LastMatchesKeys(subResults, s); }
    forall i: nat | i < |subResults| && IsLastEntry(subResults, i) { LastMatchesAt(subResults, i); }
    if "." !in matchesByScope {
      scopePaths := scopePaths + ["."];
      matchesByScope := matchesByScope["." := []];
    }
  }

  // ------------------------------------------------------- the whole manifest

  function TotalFiles(targets: seq<Target>): nat {
    if targets == [] then 0 else targets[0].totalFiles + TotalFiles(targets[1..])
  }

  function FileSet(files: seq<string>): set<string> { set f <- files }

  ghost function Union(targets: seq<Target>): set<string> {
    if targets == [] then {} else FileSet(targets[0].sourceFiles) + Union(targets[1..])
  }

  lemma {:induction false} UnionMember(targets: seq<Target>, f: string)
    ensures f in Union(targets) <==> exists t <- targets :: f in t.sourceFiles
  {
    if targets != [] {
      UnionMember(targets[1..], f);
      assert targets == [targets[0]] + targets[1..];
    }
  }

  lemma {:induction false} BucketDistinct(files: seq<Walked>, scopes: seq<string>, scope: string, lang: string)
    requires DistinctPaths(files)
    ensures Distinct(Bucket(files, scopes, scope, lang))
  {
    if files != [] {
      var init := files[..|files| - 1];
      BucketDistinct(init, scopes, scope, lang);
      BucketMember(init, scopes, scope, lang, files[|files| - 1].rel);
    }
  }

  lemma {:induction false} DistinctSize(xs: seq<string>)
    requires Distinct(xs)
    ensures |FileSet(xs)| == |xs|
  {
    if xs != [] {
      DistinctSize(xs[1..]);
      assert xs == [xs[0]] + xs[1..];
      assert FileSet(xs) == {xs[0]} + FileSet(xs[1..]);
    }
  }

  /** The files of a target are exactly its bucket, each once. */
  lemma TargetIsItsBucket(t: Target, files: seq<Walked>, scopes: seq<string>, buckets: Buckets)
    requires DistinctPaths(files)
    requires forall scope, lang :: FilesAt(buckets, scope, lang) == Bucket(files, scopes, scope, lang)
    requires Covers(t, Get(buckets, t.scope, map[]), t.scope)
    ensures forall f :: f in t.sourceFiles <==> f in Bucket(files, scopes, t.scope, t.language)
    ensures |FileSet(t.sourceFiles)| == t.totalFiles
  {
    var bucket := Bucket(files, scopes, t.scope, t.language);
    assert FilesAt(buckets, t.scope, t.language) == bucket;
    SortNamesSorts(bucket);
    BucketDistinct(files, scopes, t.scope, t.language);
    DistinctSize(bucket);
    assert FileSet(t.sourceFiles) == FileSet(bucket);
  }

  /** No file is in two targets. */
  lemma TargetsDisjoint(t: Target, u: Target, files: seq<Walked>, scopes: seq<string>, buckets: Buckets)
    requires DistinctPaths(files)
    requires forall scope, lang :: FilesAt(buckets, scope, lang) == Bucket(files, scopes, scope, lang)
    requires Covers(t, Get(buckets, t.scope, map[]), t.scope) && Covers(u, Get(buckets, u.scope, map[]), u.scope)
    requires t.scope != u.scope || t.language != u.language
    ensures FileSet(t.sourceFiles) !! FileSet(u.sourceFiles)
  {
    TargetIsItsBucket(t, files, scopes, buckets);
    TargetIsItsBucket(u, files, scopes, buckets);
    forall f | f in t.sourceFiles && f in u.sourceFiles ensures false {
      BucketMember(files, scopes, t.scope, t.language, f);
      BucketMember(files, scopes, u.scope, u.language, f);
    }
  }

  /** total_files counts every file of the targets exactly once. */
  lemma {:induction false} TotalIsTheUnion(
    targets: seq<Target>, files: seq<Walked>, scopes: seq<string>, buckets: Buckets)
    requires DistinctPaths(files) && DistinctBuckets(targets)
    requires forall scope, lang :: FilesAt(buckets, scope, lang) == Bucket(files, scopes, scope, lang)
    requires forall t <- targets :: Covers(t, Get(buckets, t.scope, map[]), t.scope)
    ensures TotalFiles(targets) == |Union(targets)|
  {
    if targets != [] {
      var t := targets[0];
      TotalIsTheUnion(targets[1..], files, scopes, buckets);
      TargetIsItsBucket(t, files, scopes, buckets);
      forall f | f in FileSet(t.sourceFiles) && f in Union(targets[1..]) ensures false {
        UnionMember(targets[1..], f);
        var u :| u in targets[1..] && f in u.sourceFiles;
        TargetsDisjoint(t, u, files, scopes, buckets);
      }
      assert FileSet(t.sourceFiles) !! Union(targets[1..]);
    }
  }

  ghost predicate PairwiseDisjoint(targets: seq<Target>) {
    forall i, j :: 0 <= i < j < |targets| ==>
      FileSet(targets[i].sourceFiles) !! FileSet(targets[j].sourceFiles)
  }

  lemma PartitionIsExact(targets: seq<Target>, files: seq<Walked>, scopes: seq<string>, buckets: Buckets)
    requires DistinctPaths(files) && TargetsPartition(targets, buckets, scopes, |scopes|)
    requires forall scope, lang :: FilesAt(buckets, scope, lang) == Bucket(files, scopes, scope, lang)
    ensures PairwiseDisjoint(targets) && TotalFiles(targets) == |Union(targets)|
  {
    forall i, j | 0 <= i < j < |targets|
      ensures FileSet(targets[i].sourceFiles) !! FileSet(targets[j].sourceFiles)
    {
      TargetsDisjoint(targets[i], targets[j], files, scopes, buckets);
    }
    TotalIsTheUnion(targets, files, scopes, buckets);
  }

  /**
   The monorepo manifest: with distinct scopes, targets partition the walked source into one target per
   (scope, language) bucket of at least three files, pairwise disjoint, and the
   total is the size of their union. The final descending sort is left out.
   */
  method BuildMultiScopeTargets(
    files: seq<Walked>, registry: map<string, Rule>, subResults: seq<(string, seq<string>)>)
    returns (scopePaths: seq<string>, buckets: Buckets, targets: seq<Target>, total: nat)
    requires DistinctPaths(files)
    ensures scopePaths == ScopePaths(subResults)
    ensures AllNamed(targets, registry, MatchesByScope(subResults))
    ensures total == TotalFiles(targets)
    ensures forall scope, lang :: FilesAt(buckets, scope, lang) == Bucket(files, scopePaths, scope, lang)
    ensures Distinct(ScopeNames(subResults)) ==>
      TargetsPartition(targets, buckets, scopePaths, |scopePaths|) && PairwiseDisjoint(targets)
      && total == |Union(targets)|
  {
    var matchesByScope, extCounts;
    scopePaths, matchesByScope := ResolveScopePaths(subResults);
    buckets, extCounts := WalkAndPartition(files, scopePaths);
    targets := BuildScopeTargets(scopePaths, matchesByScope, buckets, registry);
    total := TotalFiles(targets);
    if Distinct(ScopeNames(subResults)) {
      assert Distinct(scopePaths);
      PartitionIsExact(targets, files, scopePaths, buckets);
    }
  }
}
