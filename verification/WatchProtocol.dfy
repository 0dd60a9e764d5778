/**
 A watcher against the committing replica, as interleaved steps: the commit of a
 batch, the lookup of the watchers it touches and the alert, compactions, and on
 the other side the check, the two scans with the registration in between, and
 the loop that waits for alerts, drains them and scans again.
 */
module WatchProtocol {
  import opened Base
  import opened KeyRev
  import opened History

  /**
   A watch request. `prev` asks for the pair before each change and `progress` for a note when
   a scan finds nothing; `accepted` says whether the table of watchers takes its range.
   */
  datatype Watch = Watch(key: bytes, end: bytes, since: nat, noPut: bool, noDelete: bool,
                         prev: bool, progress: bool, accepted: bool)

  predicate InWatch(w: Watch, k: bytes) {
    k == w.key || (w.end != [] && w.end != w.key && !LexLess(k, w.key) && LexLess(k, w.end))
  }

  predicate Wanted(w: Watch, e: Event) {
    InWatch(w, e.key) && !(if e.rev.del then w.noDelete else w.noPut)
  }

  /**
   `cursor` is the revision up to which events were sent; `alert` the last alert taken from the
   channel. A watch ends when a scan meets a change it cannot read, `stop`; if that happens in the
   second scan its entry in the table of watchers stays behind.
   */
  datatype Phase =
    | New
    | Checked
    | Refused
    | Scanned(cursor: nat)
    | Registered(cursor: nat)
    | Waiting(cursor: nat)
    | Draining(cursor: nat, alert: nat)
    | Deciding(cursor: nat, alert: nat)
    | Ended(upto: nat, stop: Event, registered: bool)

  /** Between commit and lookup, and between lookup and alert, other steps may come. */
  datatype Committer = Idle | Committed(keys: seq<bytes>) | Sending

  /** What goes to the client, each with the revision it was read at. */
  datatype Note = Init | Refusal(rev: nat) | Sent(rev: nat, event: Event) | Sync(rev: nat) | Notify(rev: nat)

  /**
   `log` is every event ever committed; those below `floor` are compacted away. `revMin` is the
   last compaction target, `bad` the events whose pair cannot be read, `first` the revision the
   first scan saw, and `lost` whether a scan started below the floor. `sent` are the events that
   went out and `out` everything that did.
   */
  datatype Sys = Sys(log: seq<Event>, rev: nat, floor: nat, revMin: nat, bad: set<Event>, committer: Committer,
                     phase: Phase, queue: seq<nat>, sent: seq<Event>, first: nat, lost: bool, out: seq<Note>)

  predicate HasCursor(p: Phase) { p.Scanned? || p.Registered? || p.Waiting? || p.Draining? || p.Deciding? }

  /** The watch reads its alerts, or will after its second scan. */
  predicate Listening(p: Phase) { HasCursor(p) && !p.Scanned? }

  /** It is in the table of watchers. */
  predicate IsRegistered(p: Phase) { Listening(p) || (p.Ended? && p.registered) }

  /** The wanted events of a log between two revisions, in order. */
  function Matching(log: seq<Event>, w: Watch, lo: nat, hi: nat): seq<Event> {
    if log == [] then []
    else
      var e := log[|log| - 1];
      Matching(log[..|log| - 1], w, lo, hi) + if lo <= e.rev.upper <= hi && Wanted(w, e) then [e] else []
  }

  /** A put that cannot be read ends the scan; the pair before a delete is left out instead. */
  predicate Fatal(e: Event, bad: set<Event>) { e in bad && !e.rev.del }

  /** How many of these events go out. */
  function StopAt(es: seq<Event>, bad: set<Event>): (n: nat)
    ensures n <= |es| && (forall i | 0 <= i < n :: !Fatal(es[i], bad)) && (n < |es| ==> Fatal(es[n], bad))
  {
    if es == [] || Fatal(es[0], bad) then 0 else 1 + StopAt(es[1..], bad)
  }

  /** The events a scan comes upon: all that are stored from `since` on; none if `since` is zero. */
  function Found(s: Sys, w: Watch, since: nat): seq<Event> {
    if since == 0 then [] else Matching(s.log, w, Max(since, s.floor), s.rev)
  }

  function Notes(es: seq<Event>, rev: nat): seq<Note> { seq(|es|, i requires 0 <= i < |es| => Sent(rev, es[i])) }

  /** One scan: it goes on to `next`, or ends the watch. */
  function Scan(s: Sys, w: Watch, since: nat, next: Phase, registered: bool): Sys {
    var es := Found(s, w, since);
    var n := StopAt(es, s.bad);
    s.(sent := s.sent + es[..n],
       lost := s.lost || (since > 0 && s.floor > since),
       out := s.out + Notes(es[..n], s.rev) + (if 0 < n == |es| then [Sync(s.rev)] else []),
       phase := if n < |es| then Ended(s.rev, es[n], registered) else next)
  }

  datatype Action =
    | Commit(events: seq<Event>, to: nat, keys: seq<bytes>, bad: set<Event>)
    | Find
    | Alert
    | Compact(target: nat, bad: set<Event>)
    | Check
    | FirstScan
    | Register
    | SecondScan
    | Receive
    | Drain
    | DrainEnd
    | Skip
    | Rescan

  const ALERT_CAPACITY: nat := 1000

  /** The events of a commit are newer than all before, ordered, and of keys it reports. */
  ghost predicate Commits(rev: nat, events: seq<Event>, to: nat, keys: seq<bytes>) {
    && rev <= to
    && (forall i, j | 0 <= i < j < |events| :: events[i].rev.upper <= events[j].rev.upper)
    && (forall e <- events :: rev < e.rev.upper <= to && e.key in keys)
  }

  ghost predicate Enabled(s: Sys, w: Watch, a: Action) {
    match a
    case Commit(events, to, keys, _) => s.committer.Idle? && Commits(s.rev, events, to, keys)
    case Find => s.committer.Committed?
    case Alert => s.committer.Sending? && |s.queue| < ALERT_CAPACITY
    case Compact(target, _) => target <= s.rev
    case Check => s.phase.New?
    case FirstScan => s.phase.Checked?
    case Register => s.phase.Scanned?
    case SecondScan => s.phase.Registered?
    case Receive => s.phase.Waiting? && s.queue != []
    case Drain => s.phase.Draining? && s.queue != []
    case DrainEnd => s.phase.Draining? && s.queue == []
    case Skip => s.phase.Deciding? && s.phase.alert <= s.phase.cursor
    case Rescan => s.phase.Deciding? && s.phase.alert > s.phase.cursor
  }

  ghost function Do(s: Sys, w: Watch, a: Action): Sys
    requires Enabled(s, w, a)
  {
    match a
    case Commit(events, to, keys, bad) =>
      s.(log := s.log + events, rev := to, bad := bad, committer := Committed(keys))
    case Find =>
      var hit := w.accepted && exists k <- s.committer.keys :: InWatch(w, k);
      s.(committer := if IsRegistered(s.phase) && hit then Sending else Idle)
    case Alert => s.(queue := s.queue + [s.rev], committer := Idle)
    case Compact(target, bad) => s.(floor := Max(s.floor, target), revMin := target, bad := bad)
    case Check =>
      if w.since > 0 && s.revMin > w.since then s.(phase := Refused, out := s.out + [Refusal(s.revMin)])
      else s.(phase := Checked, out := s.out + [Init])
    case FirstScan => Scan(s, w, w.since, Scanned(s.rev), false).(first := s.rev)
    case Register => s.(phase := Registered(s.phase.cursor))
    case SecondScan => Scan(s, w, s.phase.cursor + 1, Waiting(s.rev), w.accepted)
    case Receive => s.(phase := Draining(s.phase.cursor, s.queue[0]), queue := s.queue[1..])
    case Drain => s.(phase := Draining(s.phase.cursor, s.queue[0]), queue := s.queue[1..])
    case DrainEnd => s.(phase := Deciding(s.phase.cursor, s.phase.alert))
    case Skip => s.(phase := Waiting(s.phase.cursor))
    case Rescan =>
      var t := Scan(s, w, s.phase.cursor + 1, Waiting(s.rev), false);
      if w.progress && t.phase.Waiting? && t.sent == s.sent then t.(out := t.out + [Notify(s.rev)]) else t
  }

  /** A schedule: these steps one after the other; None if one of them is not enabled. */
  ghost function Play(s: Sys, w: Watch, acts: seq<Action>): Option<Sys> {
    if acts == [] then Some(s)
    else
      var t := Play(s, w, acts[..|acts| - 1]);
      if t.Some? && Enabled(t.value, w, acts[|acts| - 1]) then Some(Do(t.value, w, acts[|acts| - 1])) else None
  }

  // ---- what the watcher was promised ----

  /** The first revision the watcher is shown: where it asked to start, or right after the first scan. */
  function Lo(s: Sys, w: Watch): nat {
    if w.since == 0 then s.first + 1 else Min(w.since, s.first + 1)
  }

  ghost predicate LogOk(s: Sys) {
    && (forall i, j | 0 <= i < j < |s.log| :: s.log[i].rev.upper <= s.log[j].rev.upper)
    && (forall e <- s.log :: e.rev.upper <= s.rev)
  }

  /** Alerts come in order, and never from beyond the current revision. */
  ghost predicate QueueOk(s: Sys) {
    && (forall i, j | 0 <= i < j < |s.queue| :: s.queue[i] <= s.queue[j])
    && (forall a <- s.queue :: a <= s.rev)
    && (!IsRegistered(s.phase) && !s.phase.Ended? ==> s.queue == [] && !s.committer.Sending?)
    && (s.phase.Draining? || s.phase.Deciding? ==> s.phase.alert <= s.rev && forall a <- s.queue :: s.phase.alert <= a)
  }

  /** What went out is the part of `all` before the change the watch ended at. */
  predicate EndsBefore(sent: seq<Event>, all: seq<Event>, stop: Event) {
    |sent| < |all| && sent == all[..|sent|] && all[|sent|] == stop
  }

  ghost predicate SentOk(s: Sys, w: Watch) {
    match s.phase
    case New | Checked | Refused => s.sent == [] && !s.lost
    case Ended(upto, stop, _) =>
      && s.first <= upto <= s.rev && !stop.rev.del
      && (!s.lost ==> EndsBefore(s.sent, Matching(s.log, w, Lo(s, w), upto), stop))
    case _ =>
      && s.first <= s.phase.cursor <= s.rev
      && (!s.lost ==> s.sent == Matching(s.log, w, Lo(s, w), s.phase.cursor))
  }

  /** Somebody will still wake the watcher for this event. */
  ghost predicate Pending(s: Sys, e: Event) {
    || (s.committer.Committed? && e.key in s.committer.keys)
    || s.committer.Sending?
    || (s.queue != [] && s.queue[|s.queue| - 1] >= e.rev.upper)
    || (s.phase.Registered?)
    || ((s.phase.Draining? || s.phase.Deciding?) && s.phase.alert >= e.rev.upper)
  }

  /** No lost wakeup. */
  ghost predicate Awake(s: Sys, w: Watch) {
    w.accepted && Listening(s.phase) ==>
      forall e <- s.log :: InWatch(w, e.key) && e.rev.upper > s.phase.cursor ==> Pending(s, e)
  }

  ghost predicate Inv(s: Sys, w: Watch) {
    LogOk(s) && QueueOk(s) && SentOk(s, w) && Awake(s, w)
  }

  /** Where a watcher may begin: any log, any stage of a commit. */
  ghost predicate Start(s: Sys) {
    && LogOk(s) && s.phase.New? && s.queue == [] && !s.committer.Sending?
    && s.sent == [] && s.out == [] && !s.lost
  }

  // ---- the wanted events ----

  lemma {:induction false} MatchingNone(log: seq<Event>, w: Watch, lo: nat, hi: nat)
    requires forall e <- log :: !(lo <= e.rev.upper <= hi)
    ensures Matching(log, w, lo, hi) == []
  {
    hide Wanted;
    if log != [] {
      assert log[|log| - 1] in log;
      MatchingNone(log[..|log| - 1], w, lo, hi);
    }
  }

  lemma {:induction false} MatchingConcat(p: seq<Event>, q: seq<Event>, w: Watch, lo: nat, hi: nat)
    ensures Matching(p + q, w, lo, hi) == Matching(p, w, lo, hi) + Matching(q, w, lo, hi)
  {
    hide Wanted;
    if q == [] {
      assert p + q == p;
    } else {
      var n := |q| - 1;
      assert (p + q)[..|p| + n] == p + q[..n];
      MatchingConcat(p, q[..n], w, lo, hi);
    }
  }

  /** In an ordered log, two adjoining stretches of revisions are one after the other. */
  lemma {:induction false} MatchingSplit(log: seq<Event>, w: Watch, lo: nat, mid: nat, hi: nat)
    requires forall i, j | 0 <= i < j < |log| :: log[i].rev.upper <= log[j].rev.upper
    requires lo <= mid + 1 && mid <= hi
    ensures Matching(log, w, lo, hi) == Matching(log, w, lo, mid) + Matching(log, w, mid + 1, hi)
  {
    hide Wanted;
    if log != [] {
      var n := |log| - 1;
      MatchingSplit(log[..n], w, lo, mid, hi);
      if log[n].rev.upper <= mid {
        forall e | e in log[..n] ensures !(mid + 1 <= e.rev.upper <= hi) {
          var i :| 0 <= i < n && log[i] == e;
        }
        MatchingNone(log[..n], w, mid + 1, hi);
      }
    }
  }

  /** A scan from right after the cursor brings the watcher up to the current revision, or ends before one event. */
  lemma ScanCatchesUp(s: Sys, w: Watch, cursor: nat, lo: nat, next: Phase, registered: bool)
    requires LogOk(s) && cursor <= s.rev && lo <= cursor + 1 && !next.Ended?
    requires !s.lost ==> s.sent == Matching(s.log, w, lo, cursor)
    ensures var t := Scan(s, w, cursor + 1, next, registered);
      !t.lost ==> Reaches(t, Matching(s.log, w, lo, s.rev))
  {
    hide Matching, StopAt;
    MatchingSplit(s.log, w, lo, cursor, s.rev);
    var es := Found(s, w, cursor + 1);
    Joined(s.sent, es, StopAt(es, s.bad));
  }

  /** Everything went out, or the watch ended at the first event that did not. */
  predicate Reaches(t: Sys, all: seq<Event>) {
    if t.phase.Ended? then EndsBefore(t.sent, all, t.phase.stop) else t.sent == all
  }

  lemma Joined(a: seq<Event>, b: seq<Event>, n: nat)
    requires n <= |b|
    ensures (a + b)[..|a| + n] == a + b[..n]
    ensures if n < |b| then (a + b)[|a| + n] == b[n] else a + b[..n] == a + b
  {}

  // ---- every step keeps the invariant ----

  lemma CommitKeeps(s: Sys, w: Watch, events: seq<Event>, to: nat, keys: seq<bytes>, bad: set<Event>)
    requires Inv(s, w) && Enabled(s, w, Commit(events, to, keys, bad))
    ensures Inv(Do(s, w, Commit(events, to, keys, bad)), w)
  {
    assert s.rev <= to;
    hide LogOk, SentOk, Awake, Commits;
    LogGrows(s, events, to, keys);
    LogFrame(s.(log := s.log + events, rev := to), Do(s, w, Commit(events, to, keys, bad)));
    CommitSent(s, w, events, to, keys, bad);
    CommitAwake(s, w, events, to, keys, bad);
  }

  /** What was sent is still exact: the new events are beyond the cursor. */
  lemma CommitSent(s: Sys, w: Watch, events: seq<Event>, to: nat, keys: seq<bytes>, bad: set<Event>)
    requires SentOk(s, w) && Commits(s.rev, events, to, keys)
    ensures SentOk(s.(log := s.log + events, rev := to, bad := bad, committer := Committed(keys)), w)
  {
    hide Wanted;
    if HasCursor(s.phase) || s.phase.Ended? {
      var upto := if s.phase.Ended? then s.phase.upto else s.phase.cursor;
      MatchingConcat(s.log, events, w, Lo(s, w), upto);
      MatchingNone(events, w, Lo(s, w), upto);
    }
    hide Matching;
  }

  lemma CommitAwake(s: Sys, w: Watch, events: seq<Event>, to: nat, keys: seq<bytes>, bad: set<Event>)
    requires Awake(s, w) && Commits(s.rev, events, to, keys) && s.committer.Idle?
    ensures Awake(s.(log := s.log + events, rev := to, bad := bad, committer := Committed(keys)), w)
  {
    hide InWatch, Commits;
    var t := s.(log := s.log + events, rev := to, bad := bad, committer := Committed(keys));
    if w.accepted && Listening(t.phase) {
      forall e | e in t.log && InWatch(w, e.key) && e.rev.upper > t.phase.cursor ensures Pending(t, e) {
        if e in events {
          CommitReports(s, events, to, keys, e);
        } else {
          assert Pending(s, e);
        }
      }
    }
  }

  lemma CommitReports(s: Sys, events: seq<Event>, to: nat, keys: seq<bytes>, e: Event)
    requires Commits(s.rev, events, to, keys) && e in events
    ensures e.key in keys
  {}

  lemma LogGrows(s: Sys, events: seq<Event>, to: nat, keys: seq<bytes>)
    requires LogOk(s) && Commits(s.rev, events, to, keys)
    ensures LogOk(s.(log := s.log + events, rev := to))
  {
    var log := s.log + events;
    forall i, j | 0 <= i < j < |log| ensures log[i].rev.upper <= log[j].rev.upper {
      if i < |s.log| { assert log[i] in s.log; }
      if j >= |s.log| { assert log[j] == events[j - |s.log|] && log[j] in events; }
      if i >= |s.log| { assert log[i] == events[i - |s.log|]; }
    }
  }

  lemma FindKeeps(s: Sys, w: Watch)
    requires Inv(s, w) && Enabled(s, w, Find)
    ensures Inv(Do(s, w, Find), w)
  {
    hide Matching, LogOk, EndsBefore;
    var t := Do(s, w, Find);
    LogFrame(s, t);
    if w.accepted && Listening(t.phase) {
      forall e | e in t.log && InWatch(w, e.key) && e.rev.upper > t.phase.cursor ensures Pending(t, e) {
        assert Pending(s, e);
      }
    }
  }

  lemma AlertKeeps(s: Sys, w: Watch)
    requires Inv(s, w) && Enabled(s, w, Alert)
    ensures Inv(Do(s, w, Alert), w)
  {
    hide Matching, InWatch, EndsBefore;
    var t := Do(s, w, Alert);
    assert t.queue[|t.queue| - 1] == s.rev;
    forall i, j | 0 <= i < j < |t.queue| ensures t.queue[i] <= t.queue[j] {
      if j == |s.queue| { assert t.queue[i] in s.queue; }
    }
  }

  lemma TakeKeeps(s: Sys, w: Watch, a: Action)
    requires Inv(s, w) && Enabled(s, w, a) && (a.Receive? || a.Drain?)
    ensures Inv(Do(s, w, a), w)
  {
    hide Matching, InWatch, LogOk;
    var t := Do(s, w, a);
    LogFrame(s, t);
    TakeQueue(s, t);
    hide QueueOk;
    assert t.queue != [] ==> t.queue[|t.queue| - 1] == s.queue[|s.queue| - 1];
    if w.accepted {
      forall e | e in t.log && InWatch(w, e.key) && e.rev.upper > t.phase.cursor ensures Pending(t, e) {
        assert Pending(s, e);
      }
    }
  }

  /** The first alert is the smallest, so the queue stays in order behind it. */
  lemma TakeQueue(s: Sys, t: Sys)
    requires QueueOk(s) && s.queue != [] && (s.phase.Waiting? || s.phase.Draining?)
    requires t == s.(phase := Draining(s.phase.cursor, s.queue[0]), queue := s.queue[1..])
    ensures QueueOk(t) && (s.phase.Draining? ==> s.phase.alert <= s.queue[0])
  {
    assert s.queue[0] in s.queue;
    assert forall x <- t.queue :: x in s.queue;
    forall x | x in t.queue ensures s.queue[0] <= x {
      var i :| 0 <= i < |t.queue| && t.queue[i] == x;
      assert s.queue[i + 1] == x;
    }
  }

  lemma ScanKeeps(s: Sys, w: Watch, a: Action)
    requires Inv(s, w) && Enabled(s, w, a) && (a.FirstScan? || a.SecondScan? || a.Rescan?)
    ensures Inv(Do(s, w, a), w)
  {
    hide SentOk, LogOk, QueueOk, Awake, Do;
    ScanSent(s, w, a);
    ScanShape(s, w, a);
    LogFrame(s, Do(s, w, a));
    ScanQuiet(s, w, a, Do(s, w, a));
  }

  lemma ScanShape(s: Sys, w: Watch, a: Action)
    requires Enabled(s, w, a) && (a.FirstScan? || a.SecondScan? || a.Rescan?)
    ensures var t := Do(s, w, a);
      && t.log == s.log && t.rev == s.rev && t.queue == s.queue && t.committer == s.committer
      && (t.phase.Ended? || t.phase == if a.FirstScan? then Scanned(s.rev) else Waiting(s.rev))
  {
    hide Matching, StopAt, Found, Notes;
  }

  /** At its new cursor the watcher has nothing to wait for. */
  lemma ScanQuiet(s: Sys, w: Watch, a: Action, t: Sys)
    requires LogOk(s) && QueueOk(s) && Enabled(s, w, a) && (a.FirstScan? || a.SecondScan? || a.Rescan?)
    requires t.log == s.log && t.rev == s.rev && t.queue == s.queue && t.committer == s.committer
    requires t.phase.Ended? || t.phase == if a.FirstScan? then Scanned(s.rev) else Waiting(s.rev)
    ensures QueueOk(t) && Awake(t, w)
  {
    hide InWatch;
  }

  lemma ScanSent(s: Sys, w: Watch, a: Action)
    requires LogOk(s) && SentOk(s, w) && Enabled(s, w, a) && (a.FirstScan? || a.SecondScan? || a.Rescan?)
    ensures SentOk(Do(s, w, a), w)
  {
    hide Matching, StopAt, Found, EndsBefore, Notes, LogOk;
    if a.FirstScan? {
      FirstScanSends(s, w);
      ScanStops(s, w, w.since);
    } else {
      ScanCatchesUp(s, w, s.phase.cursor, Lo(s, w), Waiting(s.rev), if a.SecondScan? then w.accepted else false);
      ScanStops(s, w, s.phase.cursor + 1);
    }
  }

  /** A scan never ends at a delete. */
  lemma ScanStops(s: Sys, w: Watch, since: nat)
    ensures var es := Found(s, w, since);
      var n := StopAt(es, s.bad);
      n < |es| ==> !es[n].rev.del
  {}

  lemma FirstFound(s: Sys, w: Watch)
    requires LogOk(s) && (w.since == 0 || s.floor <= w.since)
    ensures Found(s, w, w.since) ==
      Matching(s.log, w, if w.since == 0 then s.rev + 1 else Min(w.since, s.rev + 1), s.rev)
  {
    hide Matching;
    MatchingNone(s.log, w, s.rev + 1, s.rev);
    if w.since > s.rev { MatchingNone(s.log, w, w.since, s.rev); }
  }

  lemma FirstScanSends(s: Sys, w: Watch)
    requires LogOk(s) && s.sent == [] && !s.lost
    ensures var t := Scan(s, w, w.since, Scanned(s.rev), false);
      !t.lost ==> Reaches(t, Matching(s.log, w, if w.since == 0 then s.rev + 1 else Min(w.since, s.rev + 1), s.rev))
  {
    hide Matching, StopAt, Found, LogOk, Notes;
    var es := Found(s, w, w.since);
    if w.since == 0 || s.floor <= w.since { FirstFound(s, w); }
    Joined([], es, StopAt(es, s.bad));
    assert [] + es == es;
  }

  lemma QuietKeeps(s: Sys, w: Watch, a: Action)
    requires Inv(s, w) && Enabled(s, w, a)
    requires a.Compact? || a.Check? || a.Register? || a.DrainEnd? || a.Skip?
    ensures Inv(Do(s, w, a), w)
  {
    hide Matching, InWatch, LogOk, EndsBefore;
    var t := Do(s, w, a);
    assert s.log == t.log && s.rev == t.rev;
    LogFrame(s, t);
    if w.accepted && Listening(t.phase) {
      forall e | e in t.log && InWatch(w, e.key) && e.rev.upper > t.phase.cursor ensures Pending(t, e) {
        if Listening(s.phase) { assert Pending(s, e); }
      }
    }
  }

  lemma LogFrame(s: Sys, t: Sys)
    requires LogOk(s) && t.log == s.log && t.rev == s.rev
    ensures LogOk(t)
  {}

  lemma DoKeeps(s: Sys, w: Watch, a: Action)
    requires Inv(s, w) && Enabled(s, w, a)
    ensures Inv(Do(s, w, a), w)
  {
    hide Inv, Do;
    match a
    case Commit(events, to, keys, bad) => CommitKeeps(s, w, events, to, keys, bad);
    case Find => FindKeeps(s, w);
    case Alert => AlertKeeps(s, w);
    case Receive => TakeKeeps(s, w, a);
    case Drain => TakeKeeps(s, w, a);
    case FirstScan => ScanKeeps(s, w, a);
    case SecondScan => ScanKeeps(s, w, a);
    case Rescan => ScanKeeps(s, w, a);
    case _ => QuietKeeps(s, w, a);
  }

  /** Under every interleaving: what was sent is exact, up to where the watch ended, and no wakeup is lost. */
  lemma {:induction false} EveryInterleaving(s: Sys, w: Watch, acts: seq<Action>)
    requires Start(s) && Play(s, w, acts).Some?
    ensures Inv(Play(s, w, acts).value, w)
  {
    hide Do, Enabled;
    if acts != [] {
      hide Inv;
      var n := |acts| - 1;
      EveryInterleaving(s, w, acts[..n]);
      DoKeeps(Play(s, w, acts[..n]).value, w, acts[n]);
    }
  }

  // ---- when a watch ends ----

  function ScansFrom(s: Sys, w: Watch, a: Action): nat {
    if a.FirstScan? then w.since
    else if (a.SecondScan? || a.Rescan?) && HasCursor(s.phase) then s.phase.cursor + 1
    else 0
  }

  /** This step is a scan and comes upon a put it cannot read. */
  ghost predicate MeetsBad(s: Sys, w: Watch, a: Action) {
    exists e <- Found(s, w, ScansFrom(s, w, a)) :: Fatal(e, s.bad)
  }

  lemma ScanEndsIff(s: Sys, w: Watch, a: Action)
    requires Enabled(s, w, a) && !s.phase.Ended?
    ensures Do(s, w, a).phase.Ended? <==> MeetsBad(s, w, a)
  {
    var es := Found(s, w, ScansFrom(s, w, a));
    var n := StopAt(es, s.bad);
    assert ScansFrom(s, w, a) == 0 ==> es == [];
    hide Found, StopAt, Fatal, Notes;
    if n == |es| {
      forall e | e in es ensures !Fatal(e, s.bad) {
        var i :| 0 <= i < |es| && es[i] == e;
      }
    } else {
      assert es[n] in es;
    }
  }

  /** A watch has ended exactly if one of its scans came upon a put it could not read. */
  lemma {:induction false} EndsIff(s: Sys, w: Watch, acts: seq<Action>)
    requires Start(s) && Play(s, w, acts).Some?
    ensures Play(s, w, acts).value.phase.Ended? <==>
      exists n | 0 <= n < |acts| :: Play(s, w, acts[..n]).Some? && MeetsBad(Play(s, w, acts[..n]).value, w, acts[n])
  {
    hide Do, Enabled, MeetsBad;
    if acts != [] {
      var n := |acts| - 1;
      var t := Play(s, w, acts[..n]).value;
      EndsIff(s, w, acts[..n]);
      if t.phase.Ended? {
        var m :| 0 <= m < n && Play(s, w, acts[..n][..m]).Some? &&
          MeetsBad(Play(s, w, acts[..n][..m]).value, w, acts[..n][m]);
        assert acts[..n][..m] == acts[..m];
        EndedStays(t, w, acts[n]);
      } else {
        forall m | 0 <= m < n && Play(s, w, acts[..m]).Some?
          ensures !MeetsBad(Play(s, w, acts[..m]).value, w, acts[m])
        {
          assert acts[..n][..m] == acts[..m] && acts[..n][m] == acts[m];
        }
        ScanEndsIff(t, w, acts[n]);
      }
    }
  }

  lemma EndedStays(s: Sys, w: Watch, a: Action)
    requires Enabled(s, w, a) && s.phase.Ended?
    ensures var t := Do(s, w, a); t.phase == s.phase && t.sent == s.sent && t.out == s.out
  {}
}
