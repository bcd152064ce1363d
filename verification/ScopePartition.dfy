/**
 Deepest-scope lookup and the monorepo file partition
 (src/quodeq/analysis/manifest_build_scope.py). The fast ancestor climb is proved
 equal to the linear scan it replaced.
 */
module ScopePartition {
  import opened Prelude

  /** `scope` is the path itself or one of its ancestor directories. */
  predicate Owns(scope: string, rel: string) {
    scope == rel || (|scope| < |rel| && rel[..|scope|] == scope && rel[|scope|] == '/')
  }

  function Slashes(path: string): nat {
    if path == "" then 0 else Slashes(path[..|path| - 1]) + if path[|path| - 1] == '/' then 1 else 0
  }

  // --------------------------------------------- the linear scan, as reference

  datatype Best = Best(scope: Option<string>, depth: int)

  /** How deep `scope` matches `rel`: "." matches everything at depth 0, -1 is no match. */
  function MatchDepth(scope: string, rel: string): int {
    if scope == "." then 0 else if Owns(scope, rel) then Slashes(scope) + 1 else -1
  }

  /** The first scope of greatest depth among all that contain `rel`. */
  function LinearScan(rel: string, scopes: seq<string>): Best {
    if scopes == [] then Best(None, -1)
    else
      var best := LinearScan(rel, scopes[..|scopes| - 1]);
      var scope := scopes[|scopes| - 1];
      if MatchDepth(scope, rel) > best.depth then Best(Some(scope), MatchDepth(scope, rel)) else best
  }

  function Owner(rel: string, scopes: seq<string>): Option<string> {
    LinearScan(rel, scopes).scope
  }

  lemma {:induction false} SlashesMonotone(path: string, n: nat)
    requires n <= |path|
    ensures Slashes(path[..n]) <= Slashes(path)
    ensures n < |path| && path[n] == '/' ==> Slashes(path[..n]) < Slashes(path)
  {
    if n < |path| {
      var init := path[..|path| - 1];
      assert init[..n] == path[..n];
      SlashesMonotone(init, n);
    } else {
      assert path[..n] == path;
    }
  }

  /** Of two owners of one path, the longer is the deeper. */
  lemma LongerIsDeeper(s: string, t: string, rel: string)
    requires Owns(s, rel) && Owns(t, rel)
    ensures |s| < |t| ==> Slashes(s) < Slashes(t)
    ensures |s| == |t| ==> s == t
  {
    if |s| < |t| {
      assert t == rel[..|t|] && t[..|s|] == s && t[|s|] == '/';
      SlashesMonotone(t, |s|);
    }
    assert s == rel[..|s|] && t == rel[..|t|];
  }

  ghost predicate LongestOwner(s: string, rel: string, scopes: seq<string>) {
    s in scopes && s != "." && Owns(s, rel)
    && forall t <- scopes :: t != "." && Owns(t, rel) ==> |t| <= |s|
  }

  lemma {:induction false} LinearScanDepth(rel: string, scopes: seq<string>)
    ensures var best := LinearScan(rel, scopes);
      && (best.scope.Some? ==> best.scope.value in scopes && MatchDepth(best.scope.value, rel) == best.depth >= 0)
      && (best.scope.None? ==> best.depth == -1)
      && forall t <- scopes :: MatchDepth(t, rel) <= best.depth
  {
    if scopes != [] {
      var init := scopes[..|scopes| - 1];
      LinearScanDepth(rel, init);
      assert scopes == init + [scopes[|scopes| - 1]];
    }
  }

  /** The scan returns the longest owner when there is one. */
  lemma ScanFindsLongest(rel: string, scopes: seq<string>, s: string)
    requires LongestOwner(s, rel, scopes)
    ensures Owner(rel, scopes) == Some(s)
  {
    LinearScanDepth(rel, scopes);
    var best := Owner(rel, scopes).value;
    LongerIsDeeper(best, s, rel);
  }

  /** Without an owner, only the catch-all is left. */
  lemma ScanFallsBack(rel: string, scopes: seq<string>)
    requires forall t <- scopes :: t != "." ==> !Owns(t, rel)
    ensures Owner(rel, scopes) == if "." in scopes then Some(".") else None
  {
    LinearScanDepth(rel, scopes);
  }

  lemma OwnerIsAScope(rel: string, scopes: seq<string>)
    ensures Owner(rel, scopes).Some? ==> Owner(rel, scopes).value in scopes
    ensures "." in scopes ==> Owner(rel, scopes).Some?
  {
    LinearScanDepth(rel, scopes);
  }

  // ------------------------------------------------------------- the climb

  /** Python's `rfind("/")`. */
  function LastSlash(path: string): (cut: int)
    ensures -1 <= cut < |path|
    ensures cut >= 0 ==> path[cut] == '/'
    ensures forall i :: cut < i < |path| ==> path[i] != '/'
  {
    if path == "" then -1
    else if path[|path| - 1] == '/' then |path| - 1
    else LastSlash(path[..|path| - 1])
  }

  /** Climb from the path itself to its ancestors, deepest first; stop at the first scope. */
  method ResolveScope(rel: string, scopePaths: seq<string>) returns (owner: Option<string>)
    ensures owner == Owner(rel, scopePaths)
  {
    var scopes := set s <- scopePaths | s != ".";
    var path := rel;
    while true
      invariant Owns(path, rel)
      invariant forall s <- scopes :: Owns(s, rel) ==> |s| <= |path|
      decreases |path|
    {
      if path in scopes {
        ScanFindsLongest(rel, scopePaths, path);
        return Some(path);
      }
      var cut := LastSlash(path);
      forall s | s in scopes && Owns(s, rel) ensures |s| <= cut {
        LongerIsDeeper(s, path, rel);
        assert path == rel[..|path|] && (|s| < |path| ==> path[|s|] == '/');
      }
      if cut < 0 {
        ScanFallsBack(rel, scopePaths);
        return if "." in scopePaths then Some(".") else None;
      }
      path := path[..cut];
    }
  }

  // --------------------------------------------------------- the partition

  datatype Walked = Walked(rel: string, suffix: string, lang: string)

  type Buckets = map<string, map<string, seq<string>>>
  type Counter = map<string, nat>

  /** The files of one (scope, language) bucket, in walk order. */
  function Bucket(files: seq<Walked>, scopes: seq<string>, scope: string, lang: string): seq<string> {
    if files == [] then []
    else
      var f := files[|files| - 1];
      Bucket(files[..|files| - 1], scopes, scope, lang)
      + if Owner(f.rel, scopes) == Some(scope) && f.lang == lang then [f.rel] else []
  }

  /** How many walked files some scope owns, overall or with one suffix. */
  function OwnedCount(files: seq<Walked>, scopes: seq<string>): nat {
    if files == [] then 0
    else OwnedCount(files[..|files| - 1], scopes)
         + if Owner(files[|files| - 1].rel, scopes).Some? then 1 else 0
  }

  function SuffixCount(files: seq<Walked>, scopes: seq<string>, suffix: string): nat {
    if files == [] then 0
    else
      var f := files[|files| - 1];
      SuffixCount(files[..|files| - 1], scopes, suffix)
      + if Owner(f.rel, scopes).Some? && f.suffix == suffix then 1 else 0
  }

  function Get<V>(m: map<string, V>, k: string, default: V): V {
    if k in m then m[k] else default
  }

  function FilesAt(buckets: Buckets, scope: string, lang: string): seq<string> {
    Get(Get(buckets, scope, map[]), lang, [])
  }

  ghost function Total(m: Counter): nat
    decreases |m|
  {
    if m == map[] then 0
    else
      var k :| k in m;
      m[k] + Total(m - {k})
  }

  lemma {:induction false} TotalSplit(m: Counter, k: string)
    requires k in m
    ensures Total(m) == m[k] + Total(m - {k})
    decreases |m|
  {
    var pick :| pick in m && Total(m) == m[pick] + Total(m - {pick});
    if pick != k {
      TotalSplit(m - {pick}, k);
      TotalSplit(m - {k}, pick);
      assert m - {pick} - {k} == m - {k} - {pick};
    }
  }

  lemma TotalBump(m: Counter, k: string)
    ensures Total(m[k := Get(m, k, 0) + 1]) == Total(m) + 1
  {
    var m' := m[k := Get(m, k, 0) + 1];
    TotalSplit(m', k);
    assert m' - {k} == m - {k};
    if k in m { TotalSplit(m, k); } else { assert m - {k} == m; }
  }

  lemma {:induction false} BucketMember(
    files: seq<Walked>, scopes: seq<string>, scope: string, lang: string, rel: string)
    ensures rel in Bucket(files, scopes, scope, lang) <==>
      exists f <- files :: f.rel == rel && Owner(rel, scopes) == Some(scope) && f.lang == lang
  {
    if files != [] {
      var init := files[..|files| - 1];
      BucketMember(init, scopes, scope, lang, rel);
      assert files == init + [files[|files| - 1]];
    }
  }

  function Rels(files: seq<Walked>): (rels: seq<string>)
    ensures |rels| == |files| && forall i :: 0 <= i < |files| ==> rels[i] == files[i].rel
  {
    seq(|files|, i requires 0 <= i < |files| => files[i].rel)
  }

  /** A bucket lists its files in walk order. */
  lemma {:induction false} BucketInWalkOrder(files: seq<Walked>, scopes: seq<string>, scope: string, lang: string)
    returns (at: seq<nat>)
    ensures Picks(Rels(files), at, Bucket(files, scopes, scope, lang))
  {
    if files == [] { return []; }
    var init, f := files[..|files| - 1], files[|files| - 1];
    at := BucketInWalkOrder(init, scopes, scope, lang);
    PicksSnoc(Rels(init), at, Bucket(init, scopes, scope, lang), f.rel);
    assert Rels(files) == Rels(init) + [f.rel];
    if Owner(f.rel, scopes) == Some(scope) && f.lang == lang { at := at + [|init|]; }
  }

  /** The suffix of each walked file that has an owner. */
  function OwnedSuffixes(files: seq<Walked>, scopes: seq<string>): (suffixes: seq<Option<string>>)
    ensures |suffixes| == |files|
    ensures forall i :: 0 <= i < |files| ==>
      suffixes[i] == if Owner(files[i].rel, scopes).Some? then Some(files[i].suffix) else None
  {
    seq(|files|, i requires 0 <= i < |files| =>
      if Owner(files[i].rel, scopes).Some? then Some(files[i].suffix) else None)
  }

  /** The counters count the files that have an owner: all but the unowned ones, and those of one suffix. */
  lemma {:induction false} CountsOwnedFiles(files: seq<Walked>, scopes: seq<string>, suffix: string)
    ensures var suffixes := multiset(OwnedSuffixes(files, scopes));
      OwnedCount(files, scopes) + suffixes[None] == |files|
      && SuffixCount(files, scopes, suffix) == suffixes[Some(suffix)]
  {
    if files != [] {
      var n := |files| - 1;
      CountsOwnedFiles(files[..n], scopes, suffix);
      assert OwnedSuffixes(files, scopes) == OwnedSuffixes(files[..n], scopes) + [OwnedSuffixes(files, scopes)[n]];
    }
  }

  ghost predicate DistinctPaths(files: seq<Walked>) {
    forall i, j :: 0 <= i < j < |files| ==> files[i].rel != files[j].rel
  }

  /** With the catch-all scope, a walked file is in the bucket of its owner and language and in no other. */
  lemma InExactlyOneBucket(files: seq<Walked>, scopes: seq<string>, f: Walked)
    requires "." in scopes && f in files && DistinctPaths(files)
    ensures Owner(f.rel, scopes).Some? && Owner(f.rel, scopes).value in scopes
    ensures forall scope, lang ::
      f.rel in Bucket(files, scopes, scope, lang) <==> Owner(f.rel, scopes) == Some(scope) && f.lang == lang
  {
    OwnerIsAScope(f.rel, scopes);
    forall scope, lang
      ensures f.rel in Bucket(files, scopes, scope, lang) <==> Owner(f.rel, scopes) == Some(scope) && f.lang == lang
    {
      BucketMember(files, scopes, scope, lang, f.rel);
    }
  }

  lemma {:induction false} CatchAllOwnsEverything(files: seq<Walked>, scopes: seq<string>)
    requires "." in scopes
    ensures OwnedCount(files, scopes) == |files|
  {
    if files != [] {
      CatchAllOwnsEverything(files[..|files| - 1], scopes);
      OwnerIsAScope(files[|files| - 1].rel, scopes);
    }
  }

  /** The buckets after the files in `seen`: one per scope, each in walk order, none empty. */
  ghost predicate Filed(buckets: Buckets, seen: seq<Walked>, scopes: seq<string>) {
    && buckets.Keys == (set s <- scopes)
    && (forall scope, lang :: FilesAt(buckets, scope, lang) == Bucket(seen, scopes, scope, lang))
    && forall scope <- buckets.Keys, lang <- buckets[scope].Keys :: buckets[scope][lang] != []
  }

  /** The suffix counters after the files in `seen`. */
  ghost predicate Counted(extCounts: Counter, seen: seq<Walked>, scopes: seq<string>) {
    && (forall suffix :: Get(extCounts, suffix, 0) == SuffixCount(seen, scopes, suffix))
    && Total(extCounts) == OwnedCount(seen, scopes)
  }

  /** One bucket grows by the new file, every other keeps its files. */
  lemma FiledNext(buckets: Buckets, seen: seq<Walked>, scopes: seq<string>, f: Walked)
    requires Filed(buckets, seen, scopes)
    ensures var owner := Owner(f.rel, scopes);
      if owner.None? then Filed(buckets, seen + [f], scopes)
      else owner.value in buckets && Filed(Append(buckets, owner.value, f.lang, f.rel), seen + [f], scopes)
  {
    OwnerIsAScope(f.rel, scopes);
    assert (seen + [f])[..|seen|] == seen;
  }

  lemma CountedNext(extCounts: Counter, seen: seq<Walked>, scopes: seq<string>, f: Walked)
    requires Counted(extCounts, seen, scopes)
    ensures if Owner(f.rel, scopes).None? then Counted(extCounts, seen + [f], scopes)
      else Counted(extCounts[f.suffix := Get(extCounts, f.suffix, 0) + 1], seen + [f], scopes)
  {
    TotalBump(extCounts, f.suffix);
    assert (seen + [f])[..|seen|] == seen;
    var bumped := extCounts[f.suffix := Get(extCounts, f.suffix, 0) + 1];
    forall x ensures Get(bumped, x, 0) == Get(extCounts, x, 0) + if x == f.suffix then 1 else 0 {
    }
  }

  /** One file more in one bucket, which starts empty. */
  function Append(buckets: Buckets, scope: string, lang: string, rel: string): Buckets
    requires scope in buckets
  {
    buckets[scope := buckets[scope][lang := Get(buckets[scope], lang, []) + [rel]]]
  }

  /** One walked file: into the bucket of its owner, and counted, when it has one. */
  method FileOne(
    buckets: Buckets, extCounts: Counter, f: Walked, scopePaths: seq<string>, ghost seen: seq<Walked>)
    returns (buckets': Buckets, extCounts': Counter)
    requires Filed(buckets, seen, scopePaths) && Counted(extCounts, seen, scopePaths)
    ensures Filed(buckets', seen + [f], scopePaths) && Counted(extCounts', seen + [f], scopePaths)
  {
    FiledNext(buckets, seen, scopePaths, f);
    CountedNext(extCounts, seen, scopePaths, f);
    var owner := ResolveScope(f.rel, scopePaths);
    if owner.None? {
      return buckets, extCounts;
    }
    buckets' := Append(buckets, owner.value, f.lang, f.rel);
    extCounts' := extCounts[f.suffix := Get(extCounts, f.suffix, 0) + 1];
  }

  /** One pass over the walk: buckets per owning scope and language, and the suffix counters. */
  method WalkAndPartition(files: seq<Walked>, scopePaths: seq<string>)
    returns (buckets: Buckets, extCounts: Counter)
    ensures Filed(buckets, files, scopePaths) && Counted(extCounts, files, scopePaths)
    ensures "." in scopePaths ==> Total(extCounts) == |files|
  {
    buckets := map s <- scopePaths :: s := map[];
    extCounts := map[];
    for i := 0 to |files|
      invariant Filed(buckets, files[..i], scopePaths) && Counted(extCounts, files[..i], scopePaths)
    {
      assert files[..i + 1] == files[..i] + [files[i]];
      buckets, extCounts := FileOne(buckets, extCounts, files[i], scopePaths, files[..i]);
    }
    assert files[..|files|] == files;
    if "." in scopePaths { CatchAllOwnsEverything(files, scopePaths); }
  }
}
