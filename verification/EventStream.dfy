/**
 The assistant's event-frame generator (src/quodeq/api/_assistant_events.py).

 `logs[i]` is the stored log when poll `i` reads it. The log only grows, by events
 with increasing sequence numbers. A client that disconnects ends the generator
 early, which is a shorter `logs`.
 */
module EventStream {
  datatype Event = Event(num: int, frame: string)

  /** What the generator sent: a stored event, or a heartbeat while idle. */
  datatype Item = Frame(event: Event) | Heartbeat

  const IDLE_LIMIT: nat := 2400

  ghost predicate Increasing(log: seq<Event>) {
    forall i, j :: 0 <= i < j < |log| ==> log[i].num < log[j].num
  }

  /** `later` is increasing and only appends to `earlier`. */
  ghost predicate Extends(later: seq<Event>, earlier: seq<Event>) {
    Increasing(later) && earlier <= later
  }

  /** Every poll sees an increasing log that extends what the polls before saw. */
  ghost predicate AppendOnly(logs: seq<seq<Event>>) {
    forall i, j {:trigger Extends(logs[j], logs[i])} ::
      0 <= i <= j < |logs| ==> Extends(logs[j], logs[i])
  }

  /** The stored events with a sequence number in (after, last], in log order. */
  function Between(log: seq<Event>, after: int, last: int): seq<Event> {
    if log == [] then []
    else
      var e := log[|log| - 1];
      Between(log[..|log| - 1], after, last) + if after < e.num <= last then [e] else []
  }

  /** `events_after`: the first `limit` events past `after`. */
  function EventsAfter(log: seq<Event>, after: int, limit: nat): seq<Event> {
    if log == [] || limit == 0 then []
    else if log[0].num > after then [log[0]] + EventsAfter(log[1..], after, limit - 1)
    else EventsAfter(log[1..], after, limit)
  }

  /** The events among the items sent, heartbeats left out. */
  function Frames(sent: seq<Item>): seq<Event> {
    if sent == [] then []
    else
      Frames(sent[..|sent| - 1]) + if sent[|sent| - 1].Frame? then [sent[|sent| - 1].event] else []
  }

  lemma FramesSnoc(sent: seq<Item>, y: Item)
    ensures Frames(sent + [y]) == Frames(sent) + if y.Frame? then [y.event] else []
  {
    assert (sent + [y])[..|sent|] == sent;
  }

  lemma {:induction false} FramesOfPrefix(sent: seq<Item>, k: nat)
    requires k <= |sent|
    ensures Frames(sent[..k]) <= Frames(sent)
  {
    if k == |sent| {
      assert sent[..k] == sent;
    } else {
      var init := sent[..|sent| - 1];
      assert init[..k] == sent[..k];
      FramesOfPrefix(init, k);
    }
  }

  // ------------------------------------------------------- facts about logs

  lemma {:induction false} NothingBetween(log: seq<Event>, after: int, last: int)
    requires last <= after
    ensures Between(log, after, last) == []
  {
    if log != [] { NothingBetween(log[..|log| - 1], after, last); }
  }

  /** Extending the log leaves a window that its old events already passed. */
  lemma {:induction false} WindowIsStable(log: seq<Event>, longer: seq<Event>, after: int, last: int)
    requires Increasing(longer) && log <= longer
    requires last <= after || (log != [] && last <= log[|log| - 1].num)
    ensures Between(longer, after, last) == Between(log, after, last)
  {
    if last <= after {
      NothingBetween(log, after, last);
      NothingBetween(longer, after, last);
    } else if |log| < |longer| {
      var init := longer[..|longer| - 1];
      assert longer[|log| - 1] == log[|log| - 1];
      assert longer[|log| - 1].num < longer[|longer| - 1].num;
      WindowIsStable(log, init, after, last);
    } else {
      assert log == longer;
    }
  }

  lemma {:induction false} WindowMembers(log: seq<Event>, after: int, last: int, e: Event)
    ensures e in Between(log, after, last) <==> e in log && after < e.num <= last
  {
    if log != [] {
      WindowMembers(log[..|log| - 1], after, last, e);
      assert log == log[..|log| - 1] + [log[|log| - 1]];
    }
  }

  /** Where a window that starts at `after` ends once its first `m` events are counted. */
  function EndOf(events: seq<Event>, after: int, m: nat): int
    requires m <= |events|
  {
    if m == 0 then after else events[m - 1].num
  }

  /** A prefix of a window is the window that ends at the prefix's last event. */
  lemma {:induction false} PrefixOfWindow(log: seq<Event>, after: int, last: int, m: nat)
    requires Increasing(log) && m <= |Between(log, after, last)|
    ensures var events := Between(log, after, last);
      Between(log, after, EndOf(events, after, m)) == events[..m]
  {
    var events := Between(log, after, last);
    if m == 0 {
      NothingBetween(log, after, after);
    } else {
      var init, e := log[..|log| - 1], log[|log| - 1];
      var fewer := Between(init, after, last);
      forall x <- init ensures x.num < e.num {
        var i :| 0 <= i < |init| && init[i] == x;
        assert log[i] == x && log[i].num < log[|log| - 1].num;
      }
      if m <= |fewer| {
        PrefixOfWindow(init, after, last, m);
        WindowMembers(init, after, last, fewer[m - 1]);
      } else {
        SameWindow(init, after, e.num, last);
      }
    }
  }

  /** The position of the first event past `after`. */
  function FirstAfter(log: seq<Event>, after: int): (p: nat)
    ensures p <= |log|
    ensures p < |log| ==> log[p].num > after
    ensures forall i :: 0 <= i < p ==> log[i].num <= after
  {
    if log == [] || log[0].num > after then 0 else 1 + FirstAfter(log[1..], after)
  }

  function FirstOf(events: seq<Event>, limit: nat): seq<Event> {
    if limit <= |events| then events[..limit] else events
  }

  lemma {:induction false} RowsAreAPrefix(log: seq<Event>, after: int, limit: nat)
    requires forall i :: 0 <= i < |log| ==> log[i].num > after
    ensures EventsAfter(log, after, limit) == FirstOf(log, limit)
  {
    if log != [] && limit > 0 { RowsAreAPrefix(log[1..], after, limit - 1); }
  }

  /** In an increasing log the poll's rows are the next stretch of it. */
  lemma {:induction false} RowsAreTheNextStretch(log: seq<Event>, after: int, limit: nat)
    requires Increasing(log)
    ensures var p := FirstAfter(log, after);
      EventsAfter(log, after, limit) == FirstOf(log[p..], limit)
  {
    var p := FirstAfter(log, after);
    if log == [] || limit == 0 {
    } else if log[0].num > after {
      assert log[p..] == log;
      RowsAreAPrefix(log, after, limit);
    } else {
      var rest := log[1..];
      var q := FirstAfter(rest, after);
      RowsAreTheNextStretch(rest, after, limit);
      assert p == q + 1;
      assert log[p..] == rest[q..];
    }
  }

  ghost predicate HasNew(log: seq<Event>, last: int) {
    exists e <- log :: e.num > last
  }

  lemma RowsIffNew(log: seq<Event>, last: int, limit: nat)
    requires Increasing(log) && limit >= 1
    ensures EventsAfter(log, last, limit) != [] <==> HasNew(log, last)
  {
    RowsAreTheNextStretch(log, last, limit);
    var p := FirstAfter(log, last);
    if p < |log| {
      assert log[p] in log;
    }
  }

  /** Moving the window's end to the next event adds exactly that event. */
  lemma {:induction false} WindowGrows(log: seq<Event>, after: int, last: int, i: nat)
    requires Increasing(log) && i < |log|
    requires after <= last < log[i].num && forall j :: 0 <= j < i ==> log[j].num <= last
    ensures Between(log, after, log[i].num) == Between(log, after, last) + [log[i]]
  {
    var init := log[..|log| - 1];
    if i < |log| - 1 {
      WindowGrows(init, after, last, i);
    } else {
      SameWindow(init, after, last, log[i].num);
    }
  }

  lemma {:induction false} SameWindow(log: seq<Event>, after: int, last: int, later: int)
    requires last <= later && forall e <- log :: e.num <= last || e.num > later
    ensures Between(log, after, later) == Between(log, after, last)
  {
    if log != [] {
      SameWindow(log[..|log| - 1], after, last, later);
      assert log[|log| - 1] in log;
    }
  }

  // ------------------------------------------------------- exactly once

  ghost predicate IsStored(log: seq<Event>, num: int) {
    exists e <- log :: e.num == num
  }

  /**
   Exactly once and in order: the frames so far are the stored events in
   (after, last], and `last` is a stored number once anything was sent.
   */
  ghost predicate Delivered(sent: seq<Item>, log: seq<Event>, after: int, last: int) {
    && after <= last
    && Frames(sent) == Between(log, after, last)
    && (last > after ==> IsStored(log, last))
  }

  /** A point reached part-way: the frames of any prefix are again one whole window. */
  lemma AtAnyMoment(sent: seq<Item>, log: seq<Event>, after: int, last: int, k: nat)
    requires Increasing(log) && Delivered(sent, log, after, last) && k <= |sent|
    ensures exists l :: after <= l <= last && Frames(sent[..k]) == Between(log, after, l)
  {
    var events := Between(log, after, last);
    var m := |Frames(sent[..k])|;
    FramesOfPrefix(sent, k);
    PrefixOfWindow(log, after, last, m);
    if m > 0 { WindowMembers(log, after, last, events[m - 1]); }
    var l := EndOf(events, after, m);
    assert after <= l <= last && Frames(sent[..k]) == Between(log, after, l);
  }

  lemma DeliveredSnoc(sent: seq<Item>, log: seq<Event>, after: int, last: int, i: nat)
    requires Increasing(log) && Delivered(sent, log, after, last)
    requires i < |log| && last < log[i].num && forall j :: 0 <= j < i ==> log[j].num <= last
    ensures Delivered(sent + [Frame(log[i])], log, after, log[i].num)
  {
    WindowGrows(log, after, last, i);
    FramesSnoc(sent, Frame(log[i]));
    assert log[i] in log;
  }

  /** The log from position `p` on holds exactly the events past `last`. */
  ghost predicate Splits(log: seq<Event>, p: nat, last: int) {
    && p <= |log|
    && (forall j :: 0 <= j < p ==> log[j].num <= last)
    && (p < |log| ==> log[p].num > last)
  }

  lemma SplitsNext(log: seq<Event>, p: nat, last: int)
    requires Increasing(log) && Splits(log, p, last) && p < |log|
    ensures Splits(log, p + 1, log[p].num)
  {
  }

  /** The frames of a poll's rows, or a heartbeat when there are none. */
  function Batch(rows: seq<Event>): seq<Item> {
    if rows == [] then [Heartbeat] else FramesOf(rows)
  }

  function FramesOf(rows: seq<Event>): (items: seq<Item>)
    ensures |items| == |rows|
  {
    seq(|rows|, i requires 0 <= i < |rows| => Frame(rows[i]))
  }

  /** The number of the last row, or `last` when there is none. */
  function LastOf(rows: seq<Event>, last: int): int {
    if rows == [] then last else rows[|rows| - 1].num
  }

  /** `sent` delivers the log up to position `p`, where `last` stands. */
  ghost predicate DeliveredTo(sent: seq<Item>, log: seq<Event>, after: int, last: int, p: nat) {
    Increasing(log) && Delivered(sent, log, after, last) && Splits(log, p, last)
  }

  lemma OneMore(sent: seq<Item>, log: seq<Event>, after: int, last: int, p: nat)
    requires DeliveredTo(sent, log, after, last, p) && p < |log|
    ensures DeliveredTo(sent + [Frame(log[p])], log, after, log[p].num, p + 1)
  {
    DeliveredSnoc(sent, log, after, last, p);
    SplitsNext(log, p, last);
  }

  /** `rows` are the log's events from position `p` on. */
  ghost predicate IsStretch(rows: seq<Event>, log: seq<Event>, p: nat) {
    p + |rows| <= |log| && rows == log[p..p + |rows|]
  }

  lemma StretchTail(rows: seq<Event>, log: seq<Event>, p: nat)
    requires IsStretch(rows, log, p) && rows != []
    ensures rows[0] == log[p] && IsStretch(rows[1..], log, p + 1)
  {
    assert rows[1..] == log[p + 1..p + |rows|];
  }

  lemma BatchSplits(sent: seq<Item>, rows: seq<Event>, last: int)
    requires rows != []
    ensures sent + FramesOf(rows) == (sent + [Frame(rows[0])]) + FramesOf(rows[1..])
    ensures LastOf(rows, last) == LastOf(rows[1..], rows[0].num)
  {
  }

  /** Sending the next stretch of the log moves the end of the window to its last event. */
  lemma {:induction false} StretchIsDelivered(
    sent: seq<Item>, log: seq<Event>, after: int, last: int, p: nat, rows: seq<Event>)
    requires DeliveredTo(sent, log, after, last, p) && IsStretch(rows, log, p)
    ensures DeliveredTo(sent + FramesOf(rows), log, after, LastOf(rows, last), p + |rows|)
    decreases |rows|
  {
    if rows == [] {
      assert sent + FramesOf(rows) == sent;
    } else {
      StretchTail(rows, log, p);
      BatchSplits(sent, rows, last);
      OneMore(sent, log, after, last, p);
      StretchIsDelivered(sent + [Frame(rows[0])], log, after, rows[0].num, p + 1, rows[1..]);
    }
  }

  lemma PollIsAStretch(log: seq<Event>, last: int, limit: nat)
    requires Increasing(log)
    ensures Splits(log, FirstAfter(log, last), last)
    ensures IsStretch(EventsAfter(log, last, limit), log, FirstAfter(log, last))
  {
    RowsAreTheNextStretch(log, last, limit);
  }

  /** One poll: its batch delivers what it read. */
  lemma PollIsDelivered(sent: seq<Item>, log: seq<Event>, after: int, last: int, limit: nat)
    requires Increasing(log) && Delivered(sent, log, after, last)
    ensures var rows := EventsAfter(log, last, limit);
      Delivered(sent + Batch(rows), log, after, LastOf(rows, last))
  {
    var rows := EventsAfter(log, last, limit);
    if rows == [] {
      FramesSnoc(sent, Heartbeat);
    } else {
      PollIsAStretch(log, last, limit);
      StretchIsDelivered(sent, log, after, last, FirstAfter(log, last), rows);
    }
  }

  // ------------------------------------------------- what the polls come to

  /** Where the generator's `last` stands before poll `n`. */
  function Cursor(logs: seq<seq<Event>>, after: int, limit: nat, n: nat): int
    requires n <= |logs|
    decreases n, 0
  {
    if n == 0 then after
    else LastOf(RowsAt(logs, after, limit, n - 1), Cursor(logs, after, limit, n - 1))
  }

  /** What poll `n` reads. */
  function RowsAt(logs: seq<seq<Event>>, after: int, limit: nat, n: nat): seq<Event>
    requires n < |logs|
    decreases n, 1
  {
    EventsAfter(logs[n], Cursor(logs, after, limit, n), limit)
  }

  /** Everything sent before poll `n`. */
  function Sent(logs: seq<seq<Event>>, after: int, limit: nat, n: nat): seq<Item>
    requires n <= |logs|
  {
    if n == 0 then [] else Sent(logs, after, limit, n - 1) + Batch(RowsAt(logs, after, limit, n - 1))
  }

  /** How many polls in a row, up to poll `n`, read nothing. */
  function IdleRun(logs: seq<seq<Event>>, after: int, limit: nat, n: nat): nat
    requires n <= |logs|
  {
    if n == 0 || RowsAt(logs, after, limit, n - 1) != [] then 0 else 1 + IdleRun(logs, after, limit, n - 1)
  }

  lemma StillDelivered(sent: seq<Item>, log: seq<Event>, longer: seq<Event>, after: int, last: int)
    requires Increasing(longer) && log <= longer && Delivered(sent, log, after, last)
    ensures Delivered(sent, longer, after, last)
  {
    if last > after {
      var e :| e in log && e.num == last;
      var i :| 0 <= i < |log| && log[i] == e;
      assert longer[i] == e && longer[|log| - 1] == log[|log| - 1];
      assert last <= log[|log| - 1].num;
      assert e in longer;
    }
    WindowIsStable(log, longer, after, last);
  }

  /** Against a log that only appends, what was sent by poll `n` is the stored events in (after, cursor]. */
  lemma {:induction false} SentIsDelivered(logs: seq<seq<Event>>, after: int, limit: nat, n: nat)
    requires AppendOnly(logs) && 0 < n <= |logs|
    ensures Delivered(Sent(logs, after, limit, n), logs[n - 1], after, Cursor(logs, after, limit, n))
  {
    var sent, last := Sent(logs, after, limit, n - 1), Cursor(logs, after, limit, n - 1);
    assert Extends(logs[n - 1], logs[n - 1]);
    if n > 1 {
      SentIsDelivered(logs, after, limit, n - 1);
      assert Extends(logs[n - 1], logs[n - 2]);
      StillDelivered(sent, logs[n - 2], logs[n - 1], after, last);
    } else {
      NothingBetween(logs[0], after, after);
    }
    PollIsDelivered(sent, logs[n - 1], after, last, limit);
  }

  /**
   An idle run of k polls is the last k polls: none of their logs held an event past
   the cursor, which did not move, and the poll before them did find one.
   */
  lemma {:induction false} IdleRunIsExact(logs: seq<seq<Event>>, after: int, limit: nat, n: nat)
    requires AppendOnly(logs) && n <= |logs| && limit >= 1
    ensures var first := n - IdleRun(logs, after, limit, n);
      && 0 <= first
      && (forall i :: first <= i < n ==>
            Cursor(logs, after, limit, i) == Cursor(logs, after, limit, n)
            && !HasNew(logs[i], Cursor(logs, after, limit, n)))
      && (first > 0 ==> HasNew(logs[first - 1], Cursor(logs, after, limit, first - 1)))
  {
    if n > 0 {
      assert Extends(logs[n - 1], logs[n - 1]);
      RowsIffNew(logs[n - 1], Cursor(logs, after, limit, n - 1), limit);
      IdleRunIsExact(logs, after, limit, n - 1);
    }
  }

  /** The log of poll `n` held nothing past the cursor. */
  ghost predicate NothingNew(logs: seq<seq<Event>>, after: int, limit: nat, n: nat)
    requires n < |logs|
  {
    !HasNew(logs[n], Cursor(logs, after, limit, n))
  }

  lemma BatchIs(sent: seq<Item>, rows: seq<Event>)
    ensures rows == [] ==> sent + Batch(rows) == sent + [Heartbeat]
    ensures rows != [] ==> sent < sent + Batch(rows)
    ensures rows != [] ==> forall k :: |sent| <= k < |sent + Batch(rows)| ==> (sent + Batch(rows))[k].Frame?
  {
  }

  /** A poll that finds nothing new sends one heartbeat; any other sends frames and no heartbeat. */
  lemma HeartbeatIffNothingNew(logs: seq<seq<Event>>, after: int, limit: nat, n: nat)
    requires AppendOnly(logs) && n < |logs| && limit >= 1
    ensures Sent(logs, after, limit, 0) == []
    ensures var before, now := Sent(logs, after, limit, n), Sent(logs, after, limit, n + 1);
      if NothingNew(logs, after, limit, n) then now == before + [Heartbeat]
      else before < now && forall k :: |before| <= k < |now| ==> now[k].Frame?
  {
    assert Extends(logs[n], logs[n]);
    RowsIffNew(logs[n], Cursor(logs, after, limit, n), limit);
    BatchIs(Sent(logs, after, limit, n), RowsAt(logs, after, limit, n));
  }

  // --------------------------------------------------------- the generator

  /** The rows of one poll, sent one by one with `last` following. */
  method YieldRows(sent: seq<Item>, rows: seq<Event>, last: int) returns (out: seq<Item>, last': int)
    ensures out == sent + FramesOf(rows) && last' == LastOf(rows, last)
  {
    out, last' := sent, last;
    for i := 0 to |rows|
      invariant out == sent + FramesOf(rows)[..i] && last' == LastOf(rows[..i], last)
    {
      last' := rows[i].num;
      out := out + [Frame(rows[i])];
    }
    assert rows[..|rows|] == rows;
  }

  /** One turn of the generator's loop. */
  method Poll(sent: seq<Item>, last: int, idle: nat, log: seq<Event>, limit: nat)
    returns (out: seq<Item>, last': int, idle': nat)
    ensures var rows := EventsAfter(log, last, limit);
      out == sent + Batch(rows) && last' == LastOf(rows, last) && idle' == if rows == [] then idle + 1 else 0
  {
    var rows := EventsAfter(log, last, limit);
    if rows == [] {
      return sent + [Heartbeat], last, idle + 1;
    }
    idle' := 0;
    out, last' := YieldRows(sent, rows, last);
  }

  /** What the generator's variables hold before poll `n`. */
  ghost predicate AtPoll(
    sent: seq<Item>, last: int, idle: nat, logs: seq<seq<Event>>, after: int, limit: nat, n: nat)
  {
    && n <= |logs| && idle == IdleRun(logs, after, limit, n)
    && sent == Sent(logs, after, limit, n) && last == Cursor(logs, after, limit, n)
  }

  lemma AtNextPoll(sent: seq<Item>, last: int, idle: nat, logs: seq<seq<Event>>, after: int, limit: nat, n: nat)
    requires AtPoll(sent, last, idle, logs, after, limit, n) && n < |logs|
    ensures var rows := EventsAfter(logs[n], last, limit);
      AtPoll(sent + Batch(rows), LastOf(rows, last), if rows == [] then idle + 1 else 0, logs, after, limit, n + 1)
  {
  }

  /** No poll before the `n`-th completed a run of IDLE_LIMIT idle ones. */
  ghost predicate StillOpen(logs: seq<seq<Event>>, after: int, limit: nat, n: nat)
    requires n <= |logs|
  {
    forall k :: 0 <= k < n ==> IdleRun(logs, after, limit, k) < IDLE_LIMIT
  }

  /**
   The generator over a history of polls: what it sent and where `last` stands are
   those of exactly `polls` polls, and it stops at the first poll that completes
   IDLE_LIMIT idle ones in a row, or when the history (the client) ends before that.
   */
  method EventFrames(logs: seq<seq<Event>>, after: int, limit: nat)
    returns (sent: seq<Item>, last: int, polls: nat)
    ensures polls <= |logs|
    ensures sent == Sent(logs, after, limit, polls) && last == Cursor(logs, after, limit, polls)
    ensures polls < |logs| ==> IdleRun(logs, after, limit, polls) == 2400
    ensures StillOpen(logs, after, limit, polls)
  {
    sent, last, polls := [], after, 0;
    var idle: nat := 0;
    while idle < IDLE_LIMIT && polls < |logs|
      invariant AtPoll(sent, last, idle, logs, after, limit, polls) && idle <= IDLE_LIMIT
      invariant StillOpen(logs, after, limit, polls)
      decreases |logs| - polls
    {
      AtNextPoll(sent, last, idle, logs, after, limit, polls);
      sent, last, idle := Poll(sent, last, idle, logs[polls], limit);
      polls := polls + 1;
    }
  }
}
