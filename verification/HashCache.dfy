/**
 The fingerprint memo (src/quodeq/analysis/fingerprint.py).

 A caller stats its files one after another, looks the key of (path, stat) pairs
 up under the lock, reads the files one after another outside the lock on a miss
 and stores under the lock. Files may be edited in between by anyone; their history
 is a function of time. Every cached result is a function of what was read, so it
 is represented by the contents read: of one file for the two hash tables, of one or
 two for the dimension parameters. The main result is the exact condition on the
 history under which every answer is one an uncached computation could have given.
 */
module HashCache {
  import opened Prelude
  import opened LruCache

  /** A compiled standards or prompt file, or a project's settings file. */
  datatype Path = StandardsFile(name: string) | SettingsFile(name: string)

  type Stat = (nat, nat)

  /** What reading a file gives; only a compiled file that decodes is worth reading on for. */
  datatype Content = Unreadable | Malformed(text: string) | Text(text: string)

  /** A file at one moment: it cannot be stat'd, or it has a stat and a content. */
  datatype Version = Absent | Present(stat: Stat, content: Content)

  type World = (Path, nat) -> Version

  /** The stat recorded in a key for a settings file that is not there. */
  const ABSENT: Stat := (0, 0)

  function KeyStat(v: Version): Stat { if v.Absent? then ABSENT else v.stat }

  function ContentOf(v: Version): Content { if v.Absent? then Unreadable else v.content }

  /** The three independent tables. */
  datatype Use = FileHashes | OverrideHashes | DimensionParams

  /** The files one call is about, first the one without which it is answered at once. */
  predicate Askable(use: Use, paths: seq<Path>) {
    match use
    case FileHashes => |paths| == 1 && paths[0].StandardsFile?
    case OverrideHashes => |paths| == 1 && paths[0].SettingsFile?
    case DimensionParams =>
      1 <= |paths| <= 2 && paths[0].StandardsFile? && (|paths| == 2 ==> paths[1].SettingsFile?)
  }

  // ------------------------------------------ what an uncached call can give

  type Reading = seq<Content>

  /** A computation over `n` files reads them all, or only the first when that one does not decode. */
  predicate Complete(n: nat, value: Reading) {
    value != [] && |value| == if value[0].Text? then n else 1
  }

  /** Moments in order, from `since` to `until`. */
  predicate Moments(ts: seq<nat>, since: nat, until: nat) {
    && (forall i, j :: 0 <= i < j < |ts| ==> ts[i] <= ts[j])
    && (forall i :: 0 <= i < |ts| ==> since <= ts[i] <= until)
  }

  ghost predicate ReadAt(w: World, paths: seq<Path>, value: Reading, readAt: seq<nat>) {
    && |readAt| == |value| <= |paths|
    && forall i :: 0 <= i < |value| ==> ContentOf(w(paths[i], readAt[i])) == value[i]
  }

  /** Some computation that reads its files one after another from `since` to `until` reads this. */
  ghost predicate AsUncached(w: World, paths: seq<Path>, value: Reading, since: nat, until: nat) {
    Complete(|paths|, value) && exists readAt :: ReadAt(w, paths, value, readAt) && Moments(readAt, since, until)
  }

  // ---------------------------------------------- every interleaving of calls

  datatype StatKey = StatKey(path: Path, stat: Stat)

  type Key = seq<StatKey>

  function PathsOf(key: Key): (paths: seq<Path>)
    ensures |paths| == |key|
    ensures forall i :: 0 <= i < |key| ==> paths[i] == key[i].path
  {
    seq(|key|, i requires 0 <= i < |key| => key[i].path)
  }

  /** A result with its history: what was read, when the stats were taken and when the files were read. */
  datatype Took = Took(value: Reading, stats: seq<nat>, readAt: seq<nat>)

  /** One call, which began at `since` and got its answer at `until`. */
  datatype Call =
    | Statting(paths: seq<Path>, key: Key, stats: seq<nat>, since: nat)
    | Missed(paths: seq<Path>, key: Key, since: nat, took: Took)
    | Answered(paths: seq<Path>, since: nat, value: Reading, until: nat)

  datatype State = State(now: nat, table: Table<Key, Took>, calls: map<nat, Call>)

  /** The history of the files, the table at hand and its capacity. */
  datatype Env = Env(w: World, use: Use, capacity: nat)

  datatype Event =
    | Tick
    | Begin(id: nat, paths: seq<Path>)
    | TakeStat(id: nat)
    | Lookup(id: nat)
    | Read(id: nat)
    | Store(id: nat)
    | Reset

  ghost predicate Enabled(env: Env, s: State, e: Event) {
    match e
    case Tick => true
    case Begin(id, paths) => id !in s.calls && Askable(env.use, paths)
    case TakeStat(id) =>
      id in s.calls && s.calls[id].Statting? && |s.calls[id].key| < |s.calls[id].paths|
    case Lookup(id) =>
      id in s.calls && s.calls[id].Statting? && |s.calls[id].key| == |s.calls[id].paths|
    case Read(id) =>
      id in s.calls && s.calls[id].Missed? && |s.calls[id].took.value| < |s.calls[id].paths|
      && !Complete(|s.calls[id].paths|, s.calls[id].took.value)
    case Store(id) =>
      id in s.calls && s.calls[id].Missed? && Complete(|s.calls[id].paths|, s.calls[id].took.value)
    case Reset => true
  }

  /** The call after its next stat: without its first file it is answered at once, past the memo. */
  ghost function AfterStat(w: World, now: nat, c: Call): Call
    requires c.Statting? && |c.key| < |c.paths|
  {
    var path := c.paths[|c.key|];
    if c.key == [] && w(path, now).Absent? then Answered(c.paths, c.since, [Unreadable], now)
    else c.(key := c.key + [StatKey(path, KeyStat(w(path, now)))], stats := c.stats + [now])
  }

  ghost function AfterRead(w: World, now: nat, c: Call): Call
    requires c.Missed? && |c.took.value| < |c.paths|
  {
    var content := ContentOf(w(c.paths[|c.took.value|], now));
    c.(took := c.took.(value := c.took.value + [content], readAt := c.took.readAt + [now]))
  }

  /** A step of one thread, or the clock, during which any file may change. */
  ghost function Next(env: Env, s: State, e: Event): State
    requires Enabled(env, s, e)
  {
    match e
    case Tick => s.(now := s.now + 1)
    case Begin(id, paths) => s.(calls := s.calls[id := Statting(paths, [], [], s.now)])
    case TakeStat(id) => s.(calls := s.calls[id := AfterStat(env.w, s.now, s.calls[id])])
    case Lookup(id) =>
      var c := s.calls[id];
      (match Find(s.table, c.key)
       case None => s.(calls := s.calls[id := Missed(c.paths, c.key, c.since, Took([], c.stats, []))])
       case Some(took) =>
         s.(table := Touched(s.table, c.key),
            calls := s.calls[id := Answered(c.paths, c.since, took.value, s.now)]))
    case Read(id) => s.(calls := s.calls[id := AfterRead(env.w, s.now, s.calls[id])])
    case Store(id) =>
      var c := s.calls[id];
      s.(table := Stored(s.table, c.key, c.took, env.capacity),
         calls := s.calls[id := Answered(c.paths, c.since, c.took.value, s.now)])
    case Reset => s.(table := [])
  }

  // ------------------------------------------------- the exact condition

  /** A stat seen twice vouches for what was read in between. */
  ghost predicate StatsVouch(w: World) {
    forall p, a: nat, b: nat, c: nat ::
      a <= b <= c && w(p, a).Present? && w(p, c).Present? && w(p, a).stat == w(p, c).stat ==>
        ContentOf(w(p, b)) == ContentOf(w(p, c))
  }

  /** The settings file holds `content` at some moment from `since` to `until`. */
  ghost predicate HeldWithin(w: World, p: Path, content: Content, since: nat, until: nat) {
    exists t: nat :: since <= t <= until && ContentOf(w(p, t)) == content
  }

  /** Two looks at a compiled file and then its settings file that give the same key. */
  ghost predicate SameLook(w: World, p: Path, q: Path, a: nat, a': nat, c: nat, c': nat) {
    && a <= a' && c <= c' && w(p, a).Present? && w(p, c).Present? && w(p, a).stat == w(p, c).stat
    && KeyStat(w(q, a')) == KeyStat(w(q, c'))
  }

  /**
   Beside a compiled file whose stat comes back and that decodes, what was read of the
   settings file before the second look it holds again during that look.
   */
  ghost predicate SettingsVouchAt(
    w: World, p: Path, q: Path, a: nat, a': nat, b: nat, c: nat, c': nat)
  {
    p.StandardsFile? && q.SettingsFile? && SameLook(w, p, q, a, a', c, c') && a' <= b < c
    && ContentOf(w(p, c)).Text? ==>
      HeldWithin(w, q, ContentOf(w(q, b)), c, c')
  }

  /** And the stat recorded for a settings file, absent or not, vouches beside such a compiled file. */
  ghost predicate SettingsVouch(w: World) {
    forall p: Path, q: Path, a: nat, a': nat, b: nat, c: nat, c': nat :: SettingsVouchAt(w, p, q, a, a', b, c, c')
  }

  // ------------------------------------------------------ the invariant

  /** The key was taken at these moments, its first file being there. */
  ghost predicate TakenAt(w: World, key: Key, stats: seq<nat>) {
    && |stats| == |key|
    && (forall i :: 0 <= i < |key| ==> key[i].stat == KeyStat(w(key[i].path, stats[i])))
    && (key != [] ==> w(key[0].path, stats[0]).Present?)
  }

  ghost predicate EntrySound(env: Env, now: nat, e: Entry<Key, Took>) {
    && Askable(env.use, PathsOf(e.key)) && Complete(|e.key|, e.value.value)
    && TakenAt(env.w, e.key, e.value.stats) && ReadAt(env.w, PathsOf(e.key), e.value.value, e.value.readAt)
    && Moments(e.value.stats + e.value.readAt, 0, now)
  }

  ghost predicate CallSound(env: Env, now: nat, c: Call) {
    && c.since <= now && Askable(env.use, c.paths)
    && match c
       case Statting(paths, key, stats, since) =>
         |key| <= |paths| && PathsOf(key) == paths[..|key|] && TakenAt(env.w, key, stats) && Moments(stats, since, now)
       case Missed(paths, key, since, took) =>
         && PathsOf(key) == paths && TakenAt(env.w, key, took.stats)
         && ReadAt(env.w, paths, took.value, took.readAt) && Moments(took.stats + took.readAt, since, now)
       case Answered(paths, since, value, until) =>
         since <= until <= now && AsUncached(env.w, paths, value, since, until)
  }

  ghost predicate Inv(env: Env, s: State) {
    && Valid(s.table, env.capacity)
    && (forall e <- s.table :: EntrySound(env, s.now, e))
    && (forall id <- s.calls.Keys :: CallSound(env, s.now, s.calls[id]))
  }

  /** The compiled file of a hit holds the cached content at the later of its reading and its new stat. */
  lemma FirstIsCurrent(w: World, p: Path, a: nat, b: nat, c: nat)
    requires StatsVouch(w) && a <= b
    requires w(p, a).Present? && w(p, c).Present? && w(p, a).stat == w(p, c).stat
    ensures ContentOf(w(p, if b < c then c else b)) == ContentOf(w(p, b))
  {
  }

  /** What a settings file held at `b` it still holds at a moment not before `c`, if its key came back at `c'`. */
  lemma SecondIsCurrent(w: World, p: Path, q: Path, a: nat, a': nat, b: nat, c: nat, c': nat) returns (t: nat)
    requires SettingsVouch(w) && p.StandardsFile? && q.SettingsFile?
    requires SameLook(w, p, q, a, a', c, c') && a' <= b
    requires b < c ==> ContentOf(w(p, c)).Text?
    ensures ContentOf(w(q, t)) == ContentOf(w(q, b)) && c <= t
    ensures if c <= b then t == b else t <= c'
  {
    if c <= b {
      t := b;
    } else {
      assert SettingsVouchAt(w, p, q, a, a', b, c, c');
      t :| c <= t <= c' && ContentOf(w(q, t)) == ContentOf(w(q, b));
    }
  }

  lemma OneFileHit(env: Env, now: nat, key: Key, stats: seq<nat>, since: nat, took: Took)
    requires StatsVouch(env.w) && EntrySound(env, now, Entry(key, took)) && |took.value| == 1
    requires TakenAt(env.w, key, stats) && Moments(stats, since, now)
    ensures AsUncached(env.w, PathsOf(key), took.value, since, now)
  {
    var a, b, c := took.stats[0], took.readAt[0], stats[0];
    assert (took.stats + took.readAt)[|took.stats|] == b;
    assert (took.stats + took.readAt)[0] == a;
    FirstIsCurrent(env.w, key[0].path, a, b, c);
    var readAt := [if b < c then c else b];
    assert ReadAt(env.w, PathsOf(key), took.value, readAt) && Moments(readAt, since, now);
  }

  lemma TwoFileHit(env: Env, now: nat, key: Key, stats: seq<nat>, since: nat, took: Took)
    requires StatsVouch(env.w) && SettingsVouch(env.w)
    requires EntrySound(env, now, Entry(key, took)) && |took.value| == 2
    requires TakenAt(env.w, key, stats) && Moments(stats, since, now)
    ensures AsUncached(env.w, PathsOf(key), took.value, since, now)
  {
    var w, p, q := env.w, key[0].path, key[1].path;
    var all := took.stats + took.readAt;
    assert all[0] == took.stats[0] && all[1] == took.stats[1] && all[2] == took.readAt[0] && all[3] == took.readAt[1];
    var a, a', b, b' := all[0], all[1], all[2], all[3];
    var c, c' := stats[0], stats[1];
    assert a <= a' <= b <= b' <= now && since <= c <= c' <= now;
    FirstIsCurrent(w, p, a, b, c);
    assert b < c ==> ContentOf(w(p, c)).Text?;
    var t := SecondIsCurrent(w, p, q, a, a', b', c, c');
    var readAt := [if b < c then c else b, t];
    assert ReadAt(w, PathsOf(key), took.value, readAt) && Moments(readAt, since, now);
  }

  /** A hit on a sound entry is as good as an uncached computation during the call. */
  lemma HitIsUncached(env: Env, now: nat, key: Key, stats: seq<nat>, since: nat, took: Took)
    requires StatsVouch(env.w) && SettingsVouch(env.w) && EntrySound(env, now, Entry(key, took))
    requires TakenAt(env.w, key, stats) && Moments(stats, since, now)
    ensures AsUncached(env.w, PathsOf(key), took.value, since, now)
  {
    if |took.value| == 1 {
      OneFileHit(env, now, key, stats, since, took);
    } else {
      TwoFileHit(env, now, key, stats, since, took);
    }
  }

  lemma TickKeepsInv(env: Env, s: State)
    requires Inv(env, s)
    ensures Inv(env, Next(env, s, Tick))
  {
  }

  lemma StatKeepsSound(env: Env, now: nat, c: Call)
    requires CallSound(env, now, c) && c.Statting? && |c.key| < |c.paths|
    ensures CallSound(env, now, AfterStat(env.w, now, c))
  {
    var after := AfterStat(env.w, now, c);
    if after.Answered? {
      assert ReadAt(env.w, c.paths, [Unreadable], [now]) && Moments([now], c.since, now);
    } else {
      assert PathsOf(after.key) == c.paths[..|after.key|];
    }
  }

  lemma MomentsSnoc(ts: seq<nat>, since: nat, now: nat)
    requires Moments(ts, since, now) && since <= now
    ensures Moments(ts + [now], since, now)
  {
  }

  lemma ReadKeepsSound(env: Env, now: nat, c: Call)
    requires CallSound(env, now, c) && c.Missed? && |c.took.value| < |c.paths|
    ensures CallSound(env, now, AfterRead(env.w, now, c))
  {
    var after := AfterRead(env.w, now, c);
    assert after.took.stats + after.took.readAt == (c.took.stats + c.took.readAt) + [now];
    MomentsSnoc(c.took.stats + c.took.readAt, c.since, now);
  }

  lemma LookupKeepsInv(env: Env, s: State, id: nat)
    requires StatsVouch(env.w) && SettingsVouch(env.w) && Inv(env, s) && Enabled(env, s, Lookup(id))
    ensures Inv(env, Next(env, s, Lookup(id)))
  {
    var c := s.calls[id];
    assert CallSound(env, s.now, c);
    assert c.paths[..|c.key|] == c.paths;
    FindProps(s.table, c.key);
    TouchedKeepsValid(s.table, c.key, env.capacity);
    if Find(s.table, c.key).Some? {
      HitIsUncached(env, s.now, c.key, c.stats, c.since, Find(s.table, c.key).value);
      forall e | e in Touched(s.table, c.key) ensures EntrySound(env, s.now, e) { TouchedMember(s.table, c.key, e); }
    } else {
      assert c.stats + [] == c.stats;
    }
  }

  /** What a call took is an uncached answer, and sound to keep. */
  lemma TookIsSound(env: Env, now: nat, c: Call)
    requires CallSound(env, now, c) && c.Missed? && Complete(|c.paths|, c.took.value)
    ensures AsUncached(env.w, c.paths, c.took.value, c.since, now) && EntrySound(env, now, Entry(c.key, c.took))
  {
    var all := c.took.stats + c.took.readAt;
    assert c.took.readAt == all[|c.took.stats|..];
    assert ReadAt(env.w, c.paths, c.took.value, c.took.readAt) && Moments(c.took.readAt, c.since, now);
  }

  lemma StoreKeepsInv(env: Env, s: State, id: nat)
    requires env.capacity >= 1 && Inv(env, s) && Enabled(env, s, Store(id))
    ensures Inv(env, Next(env, s, Store(id)))
  {
    var c := s.calls[id];
    assert CallSound(env, s.now, c);
    TookIsSound(env, s.now, c);
    StoredKeepsValid(s.table, c.key, c.took, env.capacity);
    forall e | e in Stored(s.table, c.key, c.took, env.capacity) ensures EntrySound(env, s.now, e) {
      StoredMember(s.table, c.key, c.took, env.capacity, e);
    }
  }

  lemma NextKeepsInv(env: Env, s: State, e: Event)
    requires StatsVouch(env.w) && SettingsVouch(env.w) && env.capacity >= 1 && Inv(env, s) && Enabled(env, s, e)
    ensures Inv(env, Next(env, s, e))
  {
    match e {
      case Lookup(id) => LookupKeepsInv(env, s, id);
      case Store(id) => StoreKeepsInv(env, s, id);
      case TakeStat(id) => StatKeepsSound(env, s.now, s.calls[id]);
      case Read(id) => ReadKeepsSound(env, s.now, s.calls[id]);
      case Tick => TickKeepsInv(env, s);
      case Begin(id, paths) => assert PathsOf([]) == paths[..0];
      case Reset =>
    }
  }

  ghost predicate Follows(env: Env, s: State, events: seq<Event>)
    decreases |events|
  {
    events != [] ==> Enabled(env, s, events[0]) && Follows(env, Next(env, s, events[0]), events[1..])
  }

  ghost function Play(env: Env, s: State, events: seq<Event>): State
    requires Follows(env, s, events)
    decreases |events|
  {
    if events == [] then s else Play(env, Next(env, s, events[0]), events[1..])
  }

  lemma {:induction false} PlayKeepsInv(env: Env, s: State, events: seq<Event>)
    requires StatsVouch(env.w) && SettingsVouch(env.w) && env.capacity >= 1
    requires Inv(env, s) && Follows(env, s, events)
    ensures Inv(env, Play(env, s, events))
    decreases |events|
  {
    if events != [] {
      NextKeepsInv(env, s, events[0]);
      PlayKeepsInv(env, Next(env, s, events[0]), events[1..]);
    }
  }

  const EMPTY := State(0, [], map[])

  // ------------------------------------------------------ the stale answers

  /** The events are possible from `s` and lead to `t`. */
  ghost predicate Reaches(env: Env, s: State, events: seq<Event>, t: State) {
    Follows(env, s, events) && Play(env, s, events) == t
  }

  lemma Step(env: Env, s: State, e: Event, rest: seq<Event>, t: State)
    requires Enabled(env, s, e) && Reaches(env, Next(env, s, e), rest, t)
    ensures Reaches(env, s, [e] + rest, t)
  {
    assert ([e] + rest)[1..] == rest;
  }

  lemma {:induction false} Then(env: Env, s: State, a: seq<Event>, t: State, b: seq<Event>, u: State)
    requires Reaches(env, s, a, t) && Reaches(env, t, b, u)
    ensures Reaches(env, s, a + b, u)
    decreases |a|
  {
    if a == [] {
      assert a + b == b;
    } else {
      assert a + b == [a[0]] + (a[1..] + b);
      Then(env, Next(env, s, a[0]), a[1..], t, b, u);
      Step(env, s, a[0], a[1..] + b, u);
    }
  }

  /** Two steps in a row. */
  lemma Twice(env: Env, s: State, e: Event, f: Event, t: State)
    requires Enabled(env, s, e) && Enabled(env, Next(env, s, e), f) && Next(env, Next(env, s, e), f) == t
    ensures Reaches(env, s, [e, f], t)
  {
    Step(env, Next(env, s, e), f, [], t);
    Step(env, s, e, [f] + [], t);
    assert [e] + ([f] + []) == [e, f];
  }

  function Ticks(n: nat): seq<Event> {
    if n == 0 then [] else [Tick] + Ticks(n - 1)
  }

  lemma {:induction false} TimePasses(env: Env, s: State, n: nat)
    ensures Reaches(env, s, Ticks(n), s.(now := s.now + n))
    decreases n
  {
    if n > 0 {
      TimePasses(env, Next(env, s, Tick), n - 1);
      Step(env, s, Tick, Ticks(n - 1), s.(now := s.now + n));
    }
  }

  /** The call `id` begins at `s` and stats its first file, which is there. */
  function Begun(s: State, id: nat, paths: seq<Path>, stat: Stat): State
    requires paths != []
  {
    s.(calls := s.calls[id := Statting(paths, [StatKey(paths[0], stat)], [s.now], s.now)])
  }

  lemma Begins(env: Env, s: State, id: nat, paths: seq<Path>)
    requires id !in s.calls && Askable(env.use, paths) && env.w(paths[0], s.now).Present?
    ensures Reaches(env, s, [Begin(id, paths), TakeStat(id)], Begun(s, id, paths, env.w(paths[0], s.now).stat))
  {
    var t := Begun(s, id, paths, env.w(paths[0], s.now).stat);
    var s1 := Next(env, s, Begin(id, paths));
    assert s1.calls[id := t.calls[id]] == t.calls;
    assert [] + [StatKey(paths[0], env.w(paths[0], s.now).stat)] == t.calls[id].key;
    assert [] + [s.now] == t.calls[id].stats;
    Twice(env, s, Begin(id, paths), TakeStat(id), t);
  }

  /** The call `id` looks a key up that is not there. */
  lemma Misses(env: Env, s: State, id: nat)
    requires Enabled(env, s, Lookup(id)) && Find(s.table, s.calls[id].key) == None
    ensures var c := s.calls[id];
      Reaches(env, s, [Lookup(id)], s.(calls := s.calls[id := Missed(c.paths, c.key, c.since, Took([], c.stats, []))]))
  {
    assert [Lookup(id)] + [] == [Lookup(id)];
    Step(env, s, Lookup(id), [], Next(env, s, Lookup(id)));
  }

  /** It looks up the key that was used last. */
  lemma Hits(env: Env, s: State, id: nat, took: Took)
    requires Enabled(env, s, Lookup(id)) && s.table == [Entry(s.calls[id].key, took)]
    ensures var c := s.calls[id];
      Reaches(env, s, [Lookup(id)], s.(calls := s.calls[id := Answered(c.paths, c.since, took.value, s.now)]))
  {
    var key := s.calls[id].key;
    assert Without(s.table, key) == [] && Touched(s.table, key) == s.table;
    assert [Lookup(id)] + [] == [Lookup(id)];
    Step(env, s, Lookup(id), [], Next(env, s, Lookup(id)));
  }

  lemma ReadsOneAndStores(env: Env, s: State, p: Path, key: Key, stat: nat, since: nat)
    requires env.capacity >= 1 && s.table == []
    requires s.calls == map[0 := Missed([p], key, since, Took([], [stat], []))]
    ensures var content := ContentOf(env.w(p, s.now));
      Reaches(env, s, [Read(0), Store(0)],
        State(s.now, [Entry(key, Took([content], [stat], [s.now]))], map[0 := Answered([p], since, [content], s.now)]))
  {
    var content := ContentOf(env.w(p, s.now));
    var took := Took([content], [stat], [s.now]);
    var s1 := Next(env, s, Read(0));
    assert s1.calls[0] == Missed([p], key, since, took);
    var end := State(s.now, [Entry(key, took)], map[0 := Answered([p], since, [content], s.now)]);
    StoredInEmpty(key, took, env.capacity);
    assert s1.calls[0 := Answered([p], since, [content], s.now)] == end.calls;
    Twice(env, s, Read(0), Store(0), end);
  }

  lemma StoredInEmpty(key: Key, took: Took, capacity: nat)
    requires capacity >= 1
    ensures Stored([], key, took, capacity) == [Entry(key, took)]
  {
  }

  /** A call about one file asks at one moment. */
  function Asking(id: nat, p: Path): seq<Event> { [Begin(id, [p]), TakeStat(id)] + [Lookup(id)] }

  lemma AsksAndMisses(env: Env, s: State, p: Path)
    requires Askable(env.use, [p]) && env.w(p, s.now).Present? && s.table == [] && s.calls == map[]
    ensures var key := [StatKey(p, env.w(p, s.now).stat)];
      Reaches(env, s, Asking(0, p), s.(calls := map[0 := Missed([p], key, s.now, Took([], [s.now], []))]))
  {
    var stat := env.w(p, s.now).stat;
    var begun := Begun(s, 0, [p], stat);
    var end := s.(calls := map[0 := Missed([p], [StatKey(p, stat)], s.now, Took([], [s.now], []))]);
    Begins(env, s, 0, [p]);
    Misses(env, begun, 0);
    assert begun.calls[0 := end.calls[0]] == end.calls;
    Then(env, s, [Begin(0, [p]), TakeStat(0)], begun, [Lookup(0)], end);
  }

  lemma AsksAndHits(env: Env, s: State, p: Path, took: Took)
    requires Askable(env.use, [p]) && env.w(p, s.now).Present? && 1 !in s.calls
    requires s.table == [Entry([StatKey(p, env.w(p, s.now).stat)], took)]
    ensures Reaches(env, s, Asking(1, p), s.(calls := s.calls[1 := Answered([p], s.now, took.value, s.now)]))
  {
    var begun := Begun(s, 1, [p], env.w(p, s.now).stat);
    var end := s.(calls := s.calls[1 := Answered([p], s.now, took.value, s.now)]);
    Begins(env, s, 1, [p]);
    Hits(env, begun, 1, took);
    assert begun.calls[1 := end.calls[1]] == end.calls;
    Then(env, s, [Begin(1, [p]), TakeStat(1)], begun, [Lookup(1)], end);
  }

  /** Call 0 asks at `a`, reads at `b` and stores; call 1 begins, asks and is answered at `c`. */
  function OneFileRun(p: Path, a: nat, b: nat, c: nat): seq<Event>
    requires a <= b <= c
  {
    Ticks(a) + (Asking(0, p) + (Ticks(b - a) + ([Read(0), Store(0)] + (Ticks(c - b) + Asking(1, p)))))
  }

  /** When the stat of `a` is back at `c`, the second call gets the content of `b`. */
  lemma OneFileRunAnswers(env: Env, p: Path, a: nat, b: nat, c: nat)
    requires env.capacity >= 1 && Askable(env.use, [p]) && a <= b <= c
    requires env.w(p, a).Present? && env.w(p, c).Present? && env.w(p, a).stat == env.w(p, c).stat
    ensures var events := OneFileRun(p, a, b, c);
      && Follows(env, EMPTY, events)
      && var calls := Play(env, EMPTY, events).calls;
         1 in calls && calls[1] == Answered([p], c, [ContentOf(env.w(p, b))], c)
  {
    var content := ContentOf(env.w(p, b));
    var key, took := [StatKey(p, env.w(p, a).stat)], Took([content], [a], [b]);
    var s1 := State(a, [], map[]);
    var s2 := State(a, [], map[0 := Missed([p], key, a, Took([], [a], []))]);
    var s3 := s2.(now := b);
    var s4 := State(b, [Entry(key, took)], map[0 := Answered([p], a, [content], b)]);
    var s5 := s4.(now := c);
    var end := s5.(calls := s5.calls[1 := Answered([p], c, [content], c)]);
    var fill, tail := [Read(0), Store(0)], Ticks(c - b) + Asking(1, p);
    TimePasses(env, EMPTY, a);
    AsksAndMisses(env, s1, p);
    TimePasses(env, s2, b - a);
    ReadsOneAndStores(env, s3, p, key, a, a);
    TimePasses(env, s4, c - b);
    AsksAndHits(env, s5, p, took);
    Then(env, s4, Ticks(c - b), s5, Asking(1, p), end);
    Then(env, s3, fill, s4, tail, end);
    Then(env, s2, Ticks(b - a), s3, fill + tail, end);
    Then(env, s1, Asking(0, p), s2, Ticks(b - a) + (fill + tail), end);
    Then(env, EMPTY, Ticks(a), s1, Asking(0, p) + (Ticks(b - a) + (fill + tail)), end);
  }

  /** The call `id` stats its second file and misses. */
  lemma StatsAndMisses(env: Env, s: State, id: nat, p: Path, q: Path, stat: StatKey, at: nat, since: nat)
    requires id in s.calls && s.calls[id] == Statting([p, q], [stat], [at], since) && s.table == []
    ensures var key := [stat, StatKey(q, KeyStat(env.w(q, s.now)))];
      Reaches(env, s, [TakeStat(id), Lookup(id)],
        s.(calls := s.calls[id := Missed([p, q], key, since, Took([], [at, s.now], []))]))
  {
    var key := [stat, StatKey(q, KeyStat(env.w(q, s.now)))];
    var t := s.(calls := s.calls[id := Missed([p, q], key, since, Took([], [at, s.now], []))]);
    var s1 := Next(env, s, TakeStat(id));
    assert [stat] + [key[1]] == key && [at] + [s.now] == [at, s.now];
    assert s1.calls[id := t.calls[id]] == t.calls;
    Twice(env, s, TakeStat(id), Lookup(id), t);
  }

  /** The call `id` stats its second file and finds the entry. */
  lemma StatsAndHits(env: Env, s: State, id: nat, p: Path, q: Path, stat: StatKey, at: nat, since: nat, took: Took)
    requires id in s.calls && s.calls[id] == Statting([p, q], [stat], [at], since)
    requires s.table == [Entry([stat, StatKey(q, KeyStat(env.w(q, s.now)))], took)]
    ensures Reaches(env, s, [TakeStat(id), Lookup(id)],
      s.(calls := s.calls[id := Answered([p, q], since, took.value, s.now)]))
  {
    var key := [stat, StatKey(q, KeyStat(env.w(q, s.now)))];
    var t := s.(calls := s.calls[id := Answered([p, q], since, took.value, s.now)]);
    var s1 := Next(env, s, TakeStat(id));
    assert [stat] + [key[1]] == key;
    assert Without(s.table, key) == [] && Touched(s.table, key) == s.table;
    assert s1.calls[id := t.calls[id]] == t.calls;
    Twice(env, s, TakeStat(id), Lookup(id), t);
  }

  lemma ReadsTwoAndStores(env: Env, s: State, p: Path, q: Path, key: Key, stats: seq<nat>, since: nat)
    requires env.capacity >= 1 && s.table == [] && ContentOf(env.w(p, s.now)).Text?
    requires s.calls == map[0 := Missed([p, q], key, since, Took([], stats, []))]
    ensures var value := [ContentOf(env.w(p, s.now)), ContentOf(env.w(q, s.now))];
      Reaches(env, s, [Read(0)] + [Read(0), Store(0)],
        State(s.now, [Entry(key, Took(value, stats, [s.now, s.now]))], map[0 := Answered([p, q], since, value, s.now)]))
  {
    var first := ContentOf(env.w(p, s.now));
    var value := [first, ContentOf(env.w(q, s.now))];
    var took := Took(value, stats, [s.now, s.now]);
    var end := State(s.now, [Entry(key, took)], map[0 := Answered([p, q], since, value, s.now)]);
    var s1 := Next(env, s, Read(0));
    assert s1.calls[0] == Missed([p, q], key, since, Took([first], stats, [s.now]));
    var s2 := Next(env, s1, Read(0));
    assert [first] + [value[1]] == value && [s.now] + [s.now] == [s.now, s.now];
    assert s2.calls[0] == Missed([p, q], key, since, took);
    StoredInEmpty(key, took, env.capacity);
    assert s2.calls[0 := end.calls[0]] == end.calls;
    Twice(env, s1, Read(0), Store(0), end);
    Step(env, s, Read(0), [Read(0), Store(0)], end);
  }

  /** Call 0 asks at `a` and `a'`, reads at `b` and stores; call 1 asks at `c` and `c'`. */
  function TwoFileRun(p: Path, q: Path, a: nat, a': nat, b: nat, c: nat, c': nat): seq<Event>
    requires a <= a' <= b <= c <= c'
  {
    Ticks(a) + ([Begin(0, [p, q]), TakeStat(0)] + (Ticks(a' - a) + ([TakeStat(0), Lookup(0)] + (Ticks(b - a')
      + (([Read(0)] + [Read(0), Store(0)]) + SecondCall(p, q, b, c, c'))))))
  }

  function SecondCall(p: Path, q: Path, b: nat, c: nat, c': nat): seq<Event>
    requires b <= c <= c'
  {
    Ticks(c - b) + ([Begin(1, [p, q]), TakeStat(1)] + (Ticks(c' - c) + [TakeStat(1), Lookup(1)]))
  }

  /** The second look at the settings file, some time after the look at the compiled one. */
  lemma SecondLookHits(env: Env, s: State, p: Path, q: Path, stat: StatKey, c': nat, took: Took)
    requires s.now <= c' && 1 in s.calls && s.calls[1] == Statting([p, q], [stat], [s.now], s.now)
    requires s.table == [Entry([stat, StatKey(q, KeyStat(env.w(q, c')))], took)]
    ensures Reaches(env, s, Ticks(c' - s.now) + [TakeStat(1), Lookup(1)],
      State(c', s.table, s.calls[1 := Answered([p, q], s.now, took.value, c')]))
  {
    var later := s.(now := c');
    var end := State(c', s.table, s.calls[1 := Answered([p, q], s.now, took.value, c')]);
    TimePasses(env, s, c' - s.now);
    StatsAndHits(env, later, 1, p, q, stat, s.now, s.now, took);
    Then(env, s, Ticks(c' - s.now), later, [TakeStat(1), Lookup(1)], end);
  }

  lemma SecondCallHits(env: Env, s: State, p: Path, q: Path, c: nat, c': nat, key: Key, took: Took)
    requires Askable(env.use, [p, q]) && s.now <= c <= c' && 1 !in s.calls
    requires env.w(p, c).Present? && key == [StatKey(p, env.w(p, c).stat), StatKey(q, KeyStat(env.w(q, c')))]
    requires s.table == [Entry(key, took)]
    ensures Reaches(env, s, SecondCall(p, q, s.now, c, c'),
      State(c', s.table, s.calls[1 := Answered([p, q], c, took.value, c')]))
  {
    var s1 := s.(now := c);
    var s2 := Begun(s1, 1, [p, q], env.w(p, c).stat);
    var end := State(c', s.table, s.calls[1 := Answered([p, q], c, took.value, c')]);
    var ask, look := [Begin(1, [p, q]), TakeStat(1)], Ticks(c' - c) + [TakeStat(1), Lookup(1)];
    TimePasses(env, s, c - s.now);
    Begins(env, s1, 1, [p, q]);
    SecondLookHits(env, s2, p, q, key[0], c', took);
    assert s2.calls[1 := end.calls[1]] == end.calls;
    Then(env, s1, ask, s2, look, end);
    Then(env, s, Ticks(c - s.now), s1, ask + look, end);
  }

  lemma FirstCallStores(env: Env, p: Path, q: Path, a: nat, a': nat, b: nat)
    returns (t: State)
    requires env.capacity >= 1 && Askable(env.use, [p, q]) && a <= a' <= b
    requires env.w(p, a).Present? && ContentOf(env.w(p, b)).Text?
    ensures var key := [StatKey(p, env.w(p, a).stat), StatKey(q, KeyStat(env.w(q, a')))];
      var value := [ContentOf(env.w(p, b)), ContentOf(env.w(q, b))];
      t == State(b, [Entry(key, Took(value, [a, a'], [b, b]))], map[0 := Answered([p, q], a, value, b)])
    ensures forall rest, u :: Reaches(env, t, rest, u) ==>
      Reaches(env, EMPTY, Ticks(a) + ([Begin(0, [p, q]), TakeStat(0)] + (Ticks(a' - a) + ([TakeStat(0), Lookup(0)]
        + (Ticks(b - a') + (([Read(0)] + [Read(0), Store(0)]) + rest))))), u)
  {
    var key := [StatKey(p, env.w(p, a).stat), StatKey(q, KeyStat(env.w(q, a')))];
    var value := [ContentOf(env.w(p, b)), ContentOf(env.w(q, b))];
    var s1 := State(a, [], map[]);
    var s2 := Begun(s1, 0, [p, q], env.w(p, a).stat);
    var s3 := s2.(now := a');
    var s4 := State(a', [], map[0 := Missed([p, q], key, a, Took([], [a, a'], []))]);
    var s5 := s4.(now := b);
    t := State(b, [Entry(key, Took(value, [a, a'], [b, b]))], map[0 := Answered([p, q], a, value, b)]);
    var ask, look, fill := [Begin(0, [p, q]), TakeStat(0)], [TakeStat(0), Lookup(0)], [Read(0)] + [Read(0), Store(0)];
    TimePasses(env, EMPTY, a);
    Begins(env, s1, 0, [p, q]);
    TimePasses(env, s2, a' - a);
    StatsAndMisses(env, s3, 0, p, q, key[0], a, a);
    assert s3.calls[0 := s4.calls[0]] == s4.calls;
    TimePasses(env, s4, b - a');
    ReadsTwoAndStores(env, s5, p, q, key, [a, a'], a);
    forall rest, u | Reaches(env, t, rest, u)
      ensures Reaches(env, EMPTY, Ticks(a) + (ask + (Ticks(a' - a) + (look + (Ticks(b - a') + (fill + rest))))), u)
    {
      Then(env, s5, fill, t, rest, u);
      Then(env, s4, Ticks(b - a'), s5, fill + rest, u);
      Then(env, s3, look, s4, Ticks(b - a') + (fill + rest), u);
      Then(env, s2, Ticks(a' - a), s3, look + (Ticks(b - a') + (fill + rest)), u);
      Then(env, s1, ask, s2, Ticks(a' - a) + (look + (Ticks(b - a') + (fill + rest))), u);
      Then(env, EMPTY, Ticks(a), s1, ask + (Ticks(a' - a) + (look + (Ticks(b - a') + (fill + rest)))), u);
    }
  }

  /** When both stats come back, the second call gets the contents of `b`. */
  lemma TwoFileRunAnswers(env: Env, p: Path, q: Path, a: nat, a': nat, b: nat, c: nat, c': nat)
    requires env.capacity >= 1 && Askable(env.use, [p, q]) && a' <= b <= c
    requires SameLook(env.w, p, q, a, a', c, c') && ContentOf(env.w(p, b)).Text?
    ensures var events := TwoFileRun(p, q, a, a', b, c, c');
      && Follows(env, EMPTY, events)
      && var calls := Play(env, EMPTY, events).calls;
         1 in calls && calls[1] == Answered([p, q], c, [ContentOf(env.w(p, b)), ContentOf(env.w(q, b))], c')
  {
    var t := FirstCallStores(env, p, q, a, a', b);
    var e := t.table[0];
    SecondCallHits(env, t, p, q, c, c', e.key, e.value);
    var end := State(c', t.table, t.calls[1 := Answered([p, q], c, e.value.value, c')]);
    assert Reaches(env, EMPTY, TwoFileRun(p, q, a, a', b, c, c'), end);
  }

  // ------------------------------------------------------- the main result

  /** Every answer given so far is one an uncached computation during its call could have given. */
  ghost predicate AnswersAreUncached(env: Env, s: State) {
    forall id <- s.calls.Keys :: s.calls[id].Answered? ==>
      AsUncached(env.w, s.calls[id].paths, s.calls[id].value, s.calls[id].since, s.calls[id].until)
  }

  /** So it is in every run: under every interleaving, eviction and reset. */
  ghost predicate AlwaysUncached(env: Env) {
    forall events :: Follows(env, EMPTY, events) ==> AnswersAreUncached(env, Play(env, EMPTY, events))
  }

  lemma VouchedAnswersAreUncached(env: Env)
    requires StatsVouch(env.w) && SettingsVouch(env.w) && env.capacity >= 1
    ensures AlwaysUncached(env)
  {
    forall events | Follows(env, EMPTY, events) ensures AnswersAreUncached(env, Play(env, EMPTY, events)) {
      PlayKeepsInv(env, EMPTY, events);
      var end := Play(env, EMPTY, events);
      assert forall id <- end.calls.Keys :: CallSound(env, end.now, end.calls[id]);
    }
  }

  /** A content read in between that the file no longer has is answered by the table of hashes. */
  lemma StaleHash(env: Env, p: Path, a: nat, b: nat, c: nat)
    requires env.capacity >= 1 && Askable(env.use, [p]) && a <= b <= c
    requires env.w(p, a).Present? && env.w(p, c).Present? && env.w(p, a).stat == env.w(p, c).stat
    requires ContentOf(env.w(p, b)) != ContentOf(env.w(p, c))
    ensures !AlwaysUncached(env)
  {
    OneFileRunAnswers(env, p, a, b, c);
    var end := Play(env, EMPTY, OneFileRun(p, a, b, c));
    assert 1 in end.calls.Keys && !AsUncached(env.w, [p], end.calls[1].value, c, c);
    assert !AnswersAreUncached(env, end);
  }

  /** And settings that were not there during the second call by the table of parameters. */
  lemma StaleParams(env: Env, p: Path, q: Path, a: nat, a': nat, b: nat, c: nat, c': nat)
    requires env.capacity >= 1 && Askable(env.use, [p, q]) && a' <= b <= c
    requires SameLook(env.w, p, q, a, a', c, c') && ContentOf(env.w(p, b)).Text?
    requires !HeldWithin(env.w, q, ContentOf(env.w(q, b)), c, c')
    ensures !AlwaysUncached(env)
  {
    TwoFileRunAnswers(env, p, q, a, a', b, c, c');
    var end := Play(env, EMPTY, TwoFileRun(p, q, a, a', b, c, c'));
    assert 1 in end.calls.Keys && !AsUncached(env.w, [p, q], end.calls[1].value, c, c');
    assert !AnswersAreUncached(env, end);
  }

  lemma StaleHashOtherwise(w: World, capacity: Use -> nat)
    requires !StatsVouch(w) && forall use :: capacity(use) >= 1
    ensures exists use :: !AlwaysUncached(Env(w, use, capacity(use)))
  {
    var p, a: nat, b: nat, c: nat :| a <= b <= c && w(p, a).Present? && w(p, c).Present?
      && w(p, a).stat == w(p, c).stat && ContentOf(w(p, b)) != ContentOf(w(p, c));
    var use := if p.StandardsFile? then FileHashes else OverrideHashes;
    StaleHash(Env(w, use, capacity(use)), p, a, b, c);
  }

  lemma StaleParamsOtherwise(w: World, capacity: nat)
    requires StatsVouch(w) && !SettingsVouch(w) && capacity >= 1
    ensures !AlwaysUncached(Env(w, DimensionParams, capacity))
  {
    var p: Path, q: Path, a: nat, a': nat, b: nat, c: nat, c': nat :| !SettingsVouchAt(w, p, q, a, a', b, c, c');
    StaleParams(Env(w, DimensionParams, capacity), p, q, a, a', b, c, c');
  }

  /**
   The memo refines direct computation exactly on the histories in which the recorded
   stats vouch. There every answer of every run, from any of the three tables, is one
   that a computation reading its files one after another during the call could have
   given; on any other history some run of some table gives another answer.
   */
  lemma AnswersAreUncachedIff(w: World, capacity: Use -> nat)
    requires forall use :: capacity(use) >= 1
    ensures StatsVouch(w) && SettingsVouch(w) <==> forall use :: AlwaysUncached(Env(w, use, capacity(use)))
  {
    if !StatsVouch(w) {
      StaleHashOtherwise(w, capacity);
    } else if !SettingsVouch(w) {
      StaleParamsOtherwise(w, capacity(DimensionParams));
    } else {
      forall use ensures AlwaysUncached(Env(w, use, capacity(use))) {
        VouchedAnswersAreUncached(Env(w, use, capacity(use)));
      }
    }
  }

  /** What an uncached computation reads if all files stand as at moment `t`. */
  ghost function ReadingAt(w: World, paths: seq<Path>, t: nat): Reading
    requires paths != []
  {
    if !ContentOf(w(paths[0], t)).Text? then [ContentOf(w(paths[0], t))]
    else seq(|paths|, i requires 0 <= i < |paths| => ContentOf(w(paths[i], t)))
  }

  /** An answer about files that did not change during the call is exactly what an uncached computation reads. */
  lemma UncachedIsExact(w: World, paths: seq<Path>, value: Reading, since: nat, until: nat)
    requires AsUncached(w, paths, value, since, until) && paths != []
    requires forall i, t: nat :: 0 <= i < |paths| && since <= t <= until ==> w(paths[i], t) == w(paths[i], until)
    ensures value == ReadingAt(w, paths, until)
  {
    var readAt :| ReadAt(w, paths, value, readAt) && Moments(readAt, since, until);
    assert forall i :: 0 <= i < |value| ==> value[i] == ContentOf(w(paths[i], until));
  }

  const COMPILED := StandardsFile("security.json")
  const SETTINGS := SettingsFile("settings.json")

  /** A compiled file that never changes, and a settings file that exists at moment 1 only. */
  ghost function SettingsComeAndGo(p: Path, t: nat): Version {
    if p != SETTINGS then Present((512, 1), Text("compiled"))
    else if t == 1 then Present((64, 2), Text("overrides"))
    else Absent
  }

  /**
   The stat recorded for the absent settings file comes back when the file is deleted.
   A call that stats before and reads while it exists leaves an entry under that stat,
   and a later call is answered with the deleted overrides although nothing changed
   during it. In this history every recorded stat determines its content.
   */
  lemma DeletedSettingsStayInForce(capacity: nat)
    requires capacity >= 1
    ensures var env := Env(SettingsComeAndGo, DimensionParams, capacity);
      var events := TwoFileRun(COMPILED, SETTINGS, 0, 0, 1, 2, 2);
      && Follows(env, EMPTY, events)
      && var calls := Play(env, EMPTY, events).calls;
         1 in calls && calls[1] == Answered([COMPILED, SETTINGS], 2, [Text("compiled"), Text("overrides")], 2)
    ensures ReadingAt(SettingsComeAndGo, [COMPILED, SETTINGS], 2) == [Text("compiled"), Unreadable]
    ensures StatsVouch(SettingsComeAndGo) && forall p, s: nat, t: nat ::
      KeyStat(SettingsComeAndGo(p, s)) == KeyStat(SettingsComeAndGo(p, t)) ==>
        ContentOf(SettingsComeAndGo(p, s)) == ContentOf(SettingsComeAndGo(p, t))
  {
    var env := Env(SettingsComeAndGo, DimensionParams, capacity);
    TwoFileRunAnswers(env, COMPILED, SETTINGS, 0, 0, 1, 2, 2);
    var paths := [COMPILED, SETTINGS];
    assert ContentOf(env.w(paths[0], 2)) == Text("compiled") && ContentOf(env.w(paths[1], 2)) == Unreadable;
    assert ReadingAt(env.w, paths, 2)[0] == Text("compiled") && ReadingAt(env.w, paths, 2)[1] == Unreadable;
  }


  // ---------------------------------------------------------------- the class

  /** A dimension's parameter hash with its effective parameters, rendered. */
  type Params = (string, string)

  type ParamsKey = (StatKey, Option<StatKey>)

  class HashCache {
    const fileHashes: LRUDict<StatKey, Option<string>>
    const overrideHashes: LRUDict<StatKey, string>
    const dimensionParams: LRUDict<ParamsKey, Params>

    constructor (fileCapacity: nat, overrideCapacity: nat, paramsCapacity: nat)
      requires fileCapacity >= 1 && overrideCapacity >= 1 && paramsCapacity >= 1
      ensures Valid() && fresh(fileHashes) && fresh(overrideHashes) && fresh(dimensionParams)
      ensures fileHashes.data == [] && overrideHashes.data == [] && dimensionParams.data == []
      ensures fileHashes.capacity == fileCapacity && overrideHashes.capacity == overrideCapacity
      ensures dimensionParams.capacity == paramsCapacity
    {
      var files := new LRUDict(fileCapacity);
      var overrides := new LRUDict(overrideCapacity);
      var params := new LRUDict(paramsCapacity);
      fileHashes, overrideHashes, dimensionParams := files, overrides, params;
    }

    ghost predicate Valid()
      reads fileHashes, overrideHashes, dimensionParams
    {
      && (fileHashes as object) != overrideHashes
      && (fileHashes as object) != dimensionParams && (overrideHashes as object) != dimensionParams
      && Usable(fileHashes) && Usable(overrideHashes) && Usable(dimensionParams)
    }

    static ghost predicate Usable<K, V>(table: LRUDict<K, V>)
      reads table
    {
      table.capacity >= 1 && LruCache.Valid(table.data, table.capacity)
    }

    /**
     The memo with nothing in between. `computed` is what the uncached function would
     give now; it is used exactly on a miss, and a cached None is a hit.
     */
    static method Memo<K, V>(table: LRUDict<K, V>, key: K, computed: V) returns (value: V, missed: bool)
      requires Usable(table)
      modifies table
      ensures Usable(table)
      ensures missed <==> key !in Keys(old(table.data))
      ensures missed ==> value == computed && table.data == Stored(old(table.data), key, computed, table.capacity)
      ensures !missed ==> Entry(key, value) in old(table.data) && table.data == Touched(old(table.data), key)
      ensures Find(table.data, key) == Some(value)
    {
      FindProps(table.data, key);
      var hit := table.Get(key);
      if hit.Some? {
        UsedIsFound(old(table.data), key, hit.value, table.capacity);
        return hit.value, false;
      }
      value := computed;
      UsedIsFound(table.data, key, value, table.capacity);
      table.Put(key, value);
      return value, true;
    }

    method FileHash(key: StatKey, computed: Option<string>) returns (value: Option<string>, missed: bool)
      requires Valid()
      modifies fileHashes
      ensures Valid()
      ensures missed <==> key !in Keys(old(fileHashes.data))
      ensures if missed then value == computed else Entry(key, value) in old(fileHashes.data)
      ensures Find(fileHashes.data, key) == Some(value)
    {
      value, missed := Memo(fileHashes, key, computed);
    }

    method OverrideHash(key: StatKey, computed: string) returns (value: string, missed: bool)
      requires Valid()
      modifies overrideHashes
      ensures Valid()
      ensures missed <==> key !in Keys(old(overrideHashes.data))
      ensures if missed then value == computed else Entry(key, value) in old(overrideHashes.data)
      ensures Find(overrideHashes.data, key) == Some(value)
    {
      value, missed := Memo(overrideHashes, key, computed);
    }

    /** `overrides` is the settings file's path and stat, None when the run has no settings file. */
    method DimensionParamsState(compiled: StatKey, overrides: Option<StatKey>, computed: Params)
      returns (value: Params, missed: bool)
      requires Valid()
      modifies dimensionParams
      ensures Valid()
      ensures missed <==> (compiled, overrides) !in Keys(old(dimensionParams.data))
      ensures if missed then value == computed else Entry((compiled, overrides), value) in old(dimensionParams.data)
      ensures Find(dimensionParams.data, (compiled, overrides)) == Some(value)
    {
      value, missed := Memo(dimensionParams, (compiled, overrides), computed);
    }

    method ResetAll()
      requires Valid()
      modifies fileHashes, overrideHashes, dimensionParams
      ensures Valid() && fileHashes.data == [] && overrideHashes.data == [] && dimensionParams.data == []
    {
      fileHashes.Clear();
      overrideHashes.Clear();
      dimensionParams.Clear();
    }
  }

  lemma {:induction false} FindOnly<K, V>(t: Table<K, V>, key: K, value: V)
    requires DistinctKeys(t) && Entry(key, value) in t
    ensures Find(t, key) == Some(value)
  {
    if t[0].key == key {
      var i :| 0 <= i < |t| && t[i] == Entry(key, value);
    } else {
      assert t == [t[0]] + t[1..];
      FindOnly(t[1..], key, value);
    }
  }

  /** What was just used is found with the value that was used. */
  lemma UsedIsFound<K, V>(t: Table<K, V>, key: K, value: V, capacity: nat)
    requires LruCache.Valid(t, capacity) && capacity >= 1
    ensures Find(Stored(t, key, value, capacity), key) == Some(value)
    ensures Entry(key, value) in t ==> Find(Touched(t, key), key) == Some(value)
  {
    StoredKeepsValid(t, key, value, capacity);
    FindOnly(Stored(t, key, value, capacity), key, value);
    if Entry(key, value) in t {
      TouchedKeepsValid(t, key, capacity);
      FindOnly(t, key, value);
      var r := Touched(t, key);
      assert r[|r| - 1] == Entry(key, value);
      FindOnly(r, key, value);
    }
  }
}
