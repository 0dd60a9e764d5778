/** What a watcher can rely on over whole schedules, and the schedules on which it cannot. */
module WatchLaws {
  import opened Base
  import opened KeyRev
  import opened History
  import opened WatchProtocol

  // ---- a watcher that keeps up ----

  lemma {:induction false} MatchingBeyond(log: seq<Event>, w: Watch, cursor: nat, hi: nat)
    requires forall e <- log :: InWatch(w, e.key) ==> e.rev.upper <= cursor
    ensures Matching(log, w, cursor + 1, hi) == []
  {
    if log != [] {
      assert log[|log| - 1] in log;
      MatchingBeyond(log[..|log| - 1], w, cursor, hi);
    }
  }

  /** Once commits pause and the watcher has nothing left to take, it has been sent everything. */
  lemma Quiescent(s: Sys, w: Watch, acts: seq<Action>, t: Sys)
    requires Start(s) && Play(s, w, acts) == Some(t) && w.accepted
    requires t.phase.Waiting? && t.committer.Idle? && t.queue == [] && !t.lost
    ensures t.sent == Matching(t.log, w, Lo(t, w), t.rev)
  {
    hide Play, Start;
    EveryInterleaving(s, w, acts);
    assert forall e <- t.log :: InWatch(w, e.key) && e.rev.upper > t.phase.cursor ==> Pending(t, e);
    hide InWatch, Matching;
    MatchingBeyond(t.log, w, t.phase.cursor, t.rev);
    MatchingSplit(t.log, w, Lo(t, w), t.phase.cursor, t.rev);
  }

  /** A watcher whose start was not in the future is shown exactly what it asked for, up to where it ended. */
  lemma StartsWhereAsked(s: Sys, w: Watch, acts: seq<Action>, t: Sys)
    requires Start(s) && Play(s, w, acts) == Some(t) && !t.lost && 0 < w.since <= t.first + 1
    ensures HasCursor(t.phase) ==> t.sent == Matching(t.log, w, w.since, t.phase.cursor)
    ensures t.phase.Ended? ==> EndsBefore(t.sent, Matching(t.log, w, w.since, t.phase.upto), t.phase.stop)
  {
    hide Play, Start, Matching, EndsBefore;
    EveryInterleaving(s, w, acts);
  }

  /** No scan of this step starts below what compaction has left. */
  predicate ScansStored(s: Sys, w: Watch, a: Action) {
    ScansFrom(s, w, a) == 0 || s.floor <= ScansFrom(s, w, a)
  }

  /** Nothing is lost as long as compaction stays behind the cursor of every scan. */
  lemma {:induction false} KeepsFloor(s: Sys, w: Watch, acts: seq<Action>)
    requires Play(s, w, acts).Some? && !s.lost
    requires forall n | 0 <= n < |acts| && Play(s, w, acts[..n]).Some? ::
      ScansStored(Play(s, w, acts[..n]).value, w, acts[n])
    ensures !Play(s, w, acts).value.lost
  {
    if acts != [] {
      var n := |acts| - 1;
      forall m | 0 <= m < n && Play(s, w, acts[..n][..m]).Some?
        ensures ScansStored(Play(s, w, acts[..n][..m]).value, w, acts[..n][m])
      {
        assert acts[..n][..m] == acts[..m];
      }
      KeepsFloor(s, w, acts[..n]);
      assert ScansStored(Play(s, w, acts[..n]).value, w, acts[n]);
      hide Matching, StopAt, Notes;
    }
  }

  // ---- concrete schedules ----

  lemma MatchingSnoc(log: seq<Event>, e: Event, w: Watch, lo: nat, hi: nat)
    ensures Matching(log + [e], w, lo, hi) ==
      Matching(log, w, lo, hi) + if lo <= e.rev.upper <= hi && Wanted(w, e) then [e] else []
  {
    assert (log + [e])[..|log|] == log;
  }

  ghost predicate Leads(s: Sys, w: Watch, a: Action, t: Sys) {
    Enabled(s, w, a) && Do(s, w, a) == t
  }

  lemma Then(s: Sys, w: Watch, acts: seq<Action>, t: Sys, a: Action, u: Sys)
    requires Play(s, w, acts) == Some(t) && Leads(t, w, a, u)
    ensures Play(s, w, acts + [a]) == Some(u)
  {
    hide Do, Enabled;
    assert (acts + [a])[..|acts|] == acts;
  }

  lemma {:induction false} PlayJoin(s: Sys, w: Watch, p: seq<Action>, q: seq<Action>, t: Sys)
    requires Play(s, w, p) == Some(t)
    ensures Play(s, w, p + q) == Play(t, w, q)
  {
    hide Do, Enabled;
    if q == [] {
      assert p + q == p;
    } else {
      var n := |q| - 1;
      assert (p + q)[..|p| + n] == p + q[..n];
      PlayJoin(s, w, p, q[..n], t);
    }
  }

  const QUIET := Sys([], 1, 1, 1, {}, Idle, New, [], [], 0, false, [])

  function OneKey(since: nat): Watch { Watch([1], [], since, false, false, false, false, true) }

  function Change(r: nat): Event { Event(0, [1], Rev(r, 0, false)) }

  // ---- a start in the future ----

  lemma SentFrom(t: Sys, w: Watch)
    requires Inv(t, w) && HasCursor(t.phase) && !t.lost
    ensures LogOk(t) && t.first <= t.phase.cursor && t.sent == Matching(t.log, w, Lo(t, w), t.phase.cursor)
  {
    hide QueueOk, Awake, LogOk, Matching;
  }

  /** A watcher that starts further ahead is shown earlier events as soon as there are any. */
  lemma FutureStart(s: Sys, w: Watch, acts: seq<Action>, t: Sys)
    requires Start(s) && Play(s, w, acts) == Some(t) && HasCursor(t.phase) && !t.lost && w.since > t.first + 1
    ensures t.sent == Matching(t.log, w, w.since, t.phase.cursor) <==>
      Matching(t.log, w, t.first + 1, Min(w.since - 1, t.phase.cursor)) == []
  {
    hide Play, Start, Inv, Matching;
    EveryInterleaving(s, w, acts);
    SentFrom(t, w);
    var c := t.phase.cursor;
    if c < w.since {
      assert forall e <- t.log :: !(w.since <= e.rev.upper <= c);
      MatchingNone(t.log, w, w.since, c);
    } else {
      MatchingSplit(t.log, w, t.first + 1, w.since - 1, c);
      var a, b := Matching(t.log, w, t.first + 1, w.since - 1), Matching(t.log, w, w.since, c);
      PrefixLost([], a, b);
      assert [] + a + b == a + b && [] + b == b;
    }
  }

  lemma FutureSteps(s1: Sys, s2: Sys, s3: Sys, s4: Sys)
    requires s1 == QUIET.(phase := Checked, out := [Init]) && s2 == s1.(phase := Scanned(1), first := 1)
    requires s3 == s2.(log := [Change(2)], rev := 2, committer := Committed([[1]]))
    requires s4 == s3.(phase := Registered(1))
    ensures Leads(QUIET, OneKey(5), Check, s1) && Leads(s1, OneKey(5), FirstScan, s2)
    ensures Leads(s2, OneKey(5), Commit([Change(2)], 2, [[1]], {}), s3) && Leads(s3, OneKey(5), Register, s4)
  {
    assert Matching([], OneKey(5), 5, 1) == [];
    hide Matching;
  }

  lemma FutureScan(s: Sys, t: Sys)
    requires s.log == [Change(2)] && s.rev == 2 && s.floor == 1 && s.bad == {} && s.phase == Registered(1)
    requires s.sent == [] && s.out == [Init] && !s.lost
    requires t == s.(phase := Waiting(2), sent := [Change(2)], out := [Init, Sent(2, Change(2)), Sync(2)])
    ensures Leads(s, OneKey(5), SecondScan, t)
  {
    var w, es := OneKey(5), [Change(2)];
    MatchingSnoc([], Change(2), w, 2, 2);
    assert [] + es == es && Matching([], w, 2, 2) == [] && Matching(es, w, 2, 2) == es;
    hide Matching;
    assert es[1..] == [] && StopAt([], {}) == 0 && StopAt(es, {}) == 1 && es[..1] == es;
    hide StopAt;
    assert Found(s, w, 2) == es && Notes(es, 2) == [Sent(2, Change(2))];
    hide Found, Notes;
    assert [Init] + [Sent(2, Change(2))] + [Sync(2)] == t.out;
  }

  /** It asked for revision 5 and is sent a change of revision 2. */
  lemma FutureStartFails() returns (acts: seq<Action>)
    ensures Start(QUIET) && Play(QUIET, OneKey(5), acts).Some?
    ensures Play(QUIET, OneKey(5), acts).value.sent == [Change(2)]
  {
    var w := OneKey(5);
    var s1 := QUIET.(phase := Checked, out := [Init]);
    var s2 := s1.(phase := Scanned(1), first := 1);
    var s3 := s2.(log := [Change(2)], rev := 2, committer := Committed([[1]]));
    var s4 := s3.(phase := Registered(1));
    var s5 := s4.(phase := Waiting(2), sent := [Change(2)], out := [Init, Sent(2, Change(2)), Sync(2)]);
    FutureSteps(s1, s2, s3, s4);
    FutureScan(s4, s5);
    acts := [];
    assert Play(QUIET, w, acts) == Some(QUIET);
    hide Leads, Play;
    Then(QUIET, w, acts, QUIET, Check, s1);
    acts := acts + [Check];
    Then(QUIET, w, acts, s1, FirstScan, s2);
    acts := acts + [FirstScan];
    Then(QUIET, w, acts, s2, Commit([Change(2)], 2, [[1]], {}), s3);
    acts := acts + [Commit([Change(2)], 2, [[1]], {})];
    Then(QUIET, w, acts, s3, Register, s4);
    acts := acts + [Register];
    Then(QUIET, w, acts, s4, SecondScan, s5);
    acts := acts + [SecondScan];
  }

  // ---- compaction that overtakes a watcher ----

  lemma PrefixLost<T>(a: seq<T>, b: seq<T>, c: seq<T>)
    ensures a + c == a + b + c <==> b == []
  {
    if b == [] {
      assert a + b == a;
    } else {
      assert |a + c| < |a + b + c|;
    }
  }

  /**
   A scan that starts below what compaction has left skips the events in between without
   a word: it is exact only if none of them was wanted.
   */
  lemma OverrunLoses(s: Sys, w: Watch, acts: seq<Action>, t: Sys, next: Phase, registered: bool)
    requires Start(s) && Play(s, w, acts) == Some(t) && Listening(t.phase) && !t.lost
    requires t.phase.cursor + 1 < t.floor <= t.rev + 1
    requires forall e <- Found(t, w, t.phase.cursor + 1) :: !Fatal(e, t.bad)
    ensures Scan(t, w, t.phase.cursor + 1, next, registered).sent == Matching(t.log, w, Lo(t, w), t.rev) <==>
      Matching(t.log, w, t.phase.cursor + 1, t.floor - 1) == []
  {
    hide Play, Start, Matching, Fatal;
    EveryInterleaving(s, w, acts);
    var c := t.phase.cursor;
    MatchingSplit(t.log, w, Lo(t, w), c, t.rev);
    MatchingSplit(t.log, w, c + 1, t.floor - 1, t.rev);
    var a, b := Matching(t.log, w, Lo(t, w), c), Matching(t.log, w, c + 1, t.floor - 1);
    var d := Matching(t.log, w, t.floor, t.rev);
    assert a + (b + d) == a + b + d;
    assert d == Found(t, w, c + 1) && d[..StopAt(d, t.bad)] == d;
    PrefixLost(a, b, d);
  }

  const CAUGHT_UP := QUIET.(phase := Waiting(1), first := 1, out := [Init])

  lemma CatchesUp() returns (acts: seq<Action>)
    ensures Start(QUIET) && Play(QUIET, OneKey(0), acts) == Some(CAUGHT_UP)
  {
    var w := OneKey(0);
    var s1 := QUIET.(phase := Checked, out := [Init]);
    var s2 := s1.(phase := Scanned(1), first := 1);
    var s3 := s2.(phase := Registered(1));
    assert Leads(QUIET, w, Check, s1) && Leads(s1, w, FirstScan, s2);
    assert Leads(s2, w, Register, s3) && Leads(s3, w, SecondScan, CAUGHT_UP);
    acts := [];
    assert Play(QUIET, w, acts) == Some(QUIET);
    hide Leads, Play;
    Then(QUIET, w, acts, QUIET, Check, s1);
    acts := acts + [Check];
    Then(QUIET, w, acts, s1, FirstScan, s2);
    acts := acts + [FirstScan];
    Then(QUIET, w, acts, s2, Register, s3);
    acts := acts + [Register];
    Then(QUIET, w, acts, s3, SecondScan, CAUGHT_UP);
    acts := acts + [SecondScan];
  }

  /** The state right before the scan that misses revision 2. */
  const OVERTAKEN := CAUGHT_UP.(log := [Change(2), Change(3)], rev := 3, floor := 3, revMin := 3,
                                committer := Committed([[1]]), phase := Deciding(1, 2))

  lemma OvertakenFirst(s1: Sys, s2: Sys)
    requires s1 == CAUGHT_UP.(log := [Change(2)], rev := 2, committer := Committed([[1]]))
    requires s2 == s1.(committer := Idle, queue := [2])
    ensures var w := OneKey(0);
      && Leads(CAUGHT_UP, w, Commit([Change(2)], 2, [[1]], {}), s1) && Leads(s1, w, Find, s1.(committer := Sending))
      && Leads(s1.(committer := Sending), w, Alert, s2)
  {
    assert [1] in [[1]];
    hide Matching, StopAt, Found;
  }

  lemma OvertakenSecond(s2: Sys, s3: Sys, s4: Sys, s5: Sys)
    requires s2 == CAUGHT_UP.(log := [Change(2)], rev := 2, committer := Idle, queue := [2])
    requires s3 == s2.(log := [Change(2), Change(3)], rev := 3, committer := Committed([[1]]))
    requires s4 == s3.(floor := 3, revMin := 3) && s5 == s4.(phase := Draining(1, 2), queue := [])
    ensures var w := OneKey(0);
      && Leads(s2, w, Commit([Change(3)], 3, [[1]], {}), s3) && Leads(s3, w, Compact(3, {}), s4)
      && Leads(s4, w, Receive, s5) && Leads(s5, w, DrainEnd, OVERTAKEN)
  {
    assert [Change(2)] + [Change(3)] == [Change(2), Change(3)] && [2][1..] == [];
    hide Matching, StopAt, Found;
  }

  lemma OvertakenReached() returns (acts: seq<Action>)
    ensures Play(QUIET, OneKey(0), acts) == Some(OVERTAKEN)
  {
    var w := OneKey(0);
    var s1 := CAUGHT_UP.(log := [Change(2)], rev := 2, committer := Committed([[1]]));
    var s2 := s1.(committer := Idle, queue := [2]);
    var s3 := s2.(log := [Change(2), Change(3)], rev := 3, committer := Committed([[1]]));
    var s4 := s3.(floor := 3, revMin := 3);
    var s5 := s4.(phase := Draining(1, 2), queue := []);
    OvertakenFirst(s1, s2);
    OvertakenSecond(s2, s3, s4, s5);
    hide Leads, Play;
    acts := CatchesUp();
    Then(QUIET, w, acts, CAUGHT_UP, Commit([Change(2)], 2, [[1]], {}), s1);
    acts := acts + [Commit([Change(2)], 2, [[1]], {})];
    Then(QUIET, w, acts, s1, Find, s1.(committer := Sending));
    acts := acts + [Find];
    Then(QUIET, w, acts, s1.(committer := Sending), Alert, s2);
    acts := acts + [Alert];
    Then(QUIET, w, acts, s2, Commit([Change(3)], 3, [[1]], {}), s3);
    acts := acts + [Commit([Change(3)], 3, [[1]], {})];
    Then(QUIET, w, acts, s3, Compact(3, {}), s4);
    acts := acts + [Compact(3, {})];
    Then(QUIET, w, acts, s4, Receive, s5);
    acts := acts + [Receive];
    Then(QUIET, w, acts, s5, DrainEnd, OVERTAKEN);
    acts := acts + [DrainEnd];
  }

  lemma OvertakenEvents()
    ensures var w, both := OneKey(0), [Change(2), Change(3)];
      Matching(both, w, 2, 3) == both && Matching(both, w, 3, 3) == [Change(3)]
  {
    var w, both := OneKey(0), [Change(2), Change(3)];
    assert both == [Change(2)] + [Change(3)] && [Change(2)] == [] + [Change(2)];
    MatchingSnoc([], Change(2), w, 2, 3);
    MatchingSnoc([], Change(2), w, 3, 3);
    MatchingSnoc([Change(2)], Change(3), w, 2, 3);
    MatchingSnoc([Change(2)], Change(3), w, 3, 3);
    assert Matching([], w, 2, 3) == [] == Matching([], w, 3, 3);
    hide Matching;
  }

  /** The change of revision 2 was wanted and is never sent. */
  lemma OverrunReached() returns (acts: seq<Action>)
    ensures Start(QUIET) && Play(QUIET, OneKey(0), acts).Some?
    ensures var t := Play(QUIET, OneKey(0), acts).value;
      t.sent == [Change(3)] && Matching(t.log, OneKey(0), Lo(t, OneKey(0)), t.rev) == [Change(2), Change(3)]
  {
    hide Play, Matching;
    OvertakenEvents();
    acts := OvertakenReached();
    Then(QUIET, OneKey(0), acts, OVERTAKEN, Rescan, Do(OVERTAKEN, OneKey(0), Rescan));
    acts := acts + [Rescan];
  }

  // ---- a watch that is not listened to ----

  lemma {:induction false} NeverAlerted(s: Sys, w: Watch, acts: seq<Action>)
    requires Start(s) && !w.accepted && Play(s, w, acts).Some?
    ensures var t := Play(s, w, acts).value; t.queue == [] && !t.committer.Sending?
  {
    hide Matching, StopAt, InWatch;
    if acts != [] { NeverAlerted(s, w, acts[..|acts| - 1]); }
  }

  /** A watch whose range the table refuses is never woken: on every schedule it stays at its second scan. */
  lemma {:induction false} RefusedRangeSleeps(s: Sys, w: Watch, p: seq<Action>, t: Sys, q: seq<Action>)
    requires Start(s) && !w.accepted && Play(s, w, p) == Some(t) && t.phase.Waiting? && Play(s, w, p + q).Some?
    ensures var u := Play(s, w, p + q).value; u.phase == t.phase && u.sent == t.sent
  {
    hide Matching, StopAt, InWatch;
    if q == [] {
      assert p + q == p;
    } else {
      var n := |q| - 1;
      assert (p + q)[..|p| + n] == p + q[..n];
      RefusedRangeSleeps(s, w, p, t, q[..n]);
      NeverAlerted(s, w, p + q[..n]);
    }
  }

  /**
   A watch that ended in its second scan stays in the table; once its channel is full and a commit
   is to alert it, nothing is committed any more.
   */
  lemma {:induction false} EndedWatchBlocks(s: Sys, w: Watch, p: seq<Action>, t: Sys, q: seq<Action>)
    requires Start(s) && Play(s, w, p) == Some(t) && Play(s, w, p + q).Some?
    requires t.phase.Ended? && t.committer.Sending? && |t.queue| == ALERT_CAPACITY
    ensures var u := Play(s, w, p + q).value;
      u.committer.Sending? && u.log == t.log && u.rev == t.rev && u.queue == t.queue && u.phase == t.phase
  {
    hide Matching, StopAt, InWatch;
    if q == [] {
      assert p + q == p;
    } else {
      assert (p + q)[..|p + q| - 1] == p + q[..|q| - 1];
      EndedWatchBlocks(s, w, p, t, q[..|q| - 1]);
    }
  }

  /** One more batch that touches the watched key, with its alert. */
  function OneBatch(s: Sys, w: Watch): seq<Action> {
    [Commit([Event(0, w.key, Rev(s.rev + 1, 0, false))], s.rev + 1, [w.key], s.bad), Find, Alert]
  }

  lemma BatchAlerts(s: Sys, w: Watch) returns (t: Sys)
    requires w.accepted && s.phase.Ended? && s.phase.registered && s.committer.Idle?
    ensures t.phase == s.phase && t.rev == s.rev + 1
    ensures Play(s, w, OneBatch(s, w)[..2]) == Some(t) && t.committer.Sending? && t.queue == s.queue
    ensures |s.queue| < ALERT_CAPACITY ==>
      Play(s, w, OneBatch(s, w)) == Some(t.(committer := Idle, queue := t.queue + [t.rev]))
  {
    var b := OneBatch(s, w);
    var u := s.(log := s.log + b[0].events, rev := s.rev + 1, committer := Committed([w.key]));
    t := u.(committer := Sending);
    assert w.key in [w.key] && InWatch(w, w.key);
    assert Do(s, w, b[0]) == u && Do(u, w, Find) == t;
    Then(s, w, [], s, b[0], u);
    Then(s, w, [b[0]], u, Find, t);
    assert [] + [b[0]] == [b[0]] && [b[0]] + [Find] == b[..2] && b[..2] + [Alert] == b;
    if |s.queue| < ALERT_CAPACITY { Then(s, w, b[..2], t, Alert, Do(t, w, Alert)); }
  }

  /** And a thousand such batches lead there. */
  lemma {:induction false} BlockReached(s: Sys, w: Watch) returns (acts: seq<Action>)
    requires w.accepted && s.phase.Ended? && s.phase.registered && s.committer.Idle? && |s.queue| <= ALERT_CAPACITY
    ensures Play(s, w, acts).Some?
    ensures var t := Play(s, w, acts).value;
      t.phase == s.phase && t.committer.Sending? && |t.queue| == ALERT_CAPACITY
    decreases ALERT_CAPACITY - |s.queue|
  {
    hide Play, Matching, StopAt, InWatch;
    var t := BatchAlerts(s, w);
    if |s.queue| == ALERT_CAPACITY {
      acts := OneBatch(s, w)[..2];
    } else {
      var u := t.(committer := Idle, queue := t.queue + [t.rev]);
      var rest := BlockReached(u, w);
      PlayJoin(s, w, OneBatch(s, w), rest, u);
      acts := OneBatch(s, w) + rest;
    }
  }

  /** The watch has registered, and then a change of its key came that cannot be read. */
  const UNREAD := CAUGHT_UP.(log := [Change(2)], rev := 2, bad := {Change(2)}, committer := Committed([[1]]),
                             phase := Registered(1))

  lemma UnreadSteps(s1: Sys, s2: Sys, s3: Sys)
    requires s1 == QUIET.(phase := Checked, out := [Init]) && s2 == s1.(phase := Scanned(1), first := 1)
    requires s3 == s2.(phase := Registered(1))
    ensures var w := OneKey(0);
      && Leads(QUIET, w, Check, s1) && Leads(s1, w, FirstScan, s2) && Leads(s2, w, Register, s3)
      && Leads(s3, w, Commit([Change(2)], 2, [[1]], {Change(2)}), UNREAD)
  {
    hide Matching, StopAt;
  }

  lemma UnreadEnds()
    ensures var w := OneKey(0);
      var t := UNREAD.(phase := Ended(2, Change(2), true));
      && Leads(UNREAD, w, SecondScan, t) && Leads(t, w, Find, t.(committer := Sending))
      && Leads(t.(committer := Sending), w, Alert, t.(committer := Idle, queue := [2]))
  {
    var w := OneKey(0);
    assert [Change(2)][..0] == [] && Matching([], w, 2, 2) == [] && Matching([Change(2)], w, 2, 2) == [Change(2)];
    assert StopAt([Change(2)], {Change(2)}) == 0 && [1] in [[1]];
    hide Matching, StopAt;
  }

  /** So from a quiet start one change that cannot be read, and enough others, stop the replica for good. */
  lemma BlockedFromStart() returns (acts: seq<Action>)
    ensures Start(QUIET) && Play(QUIET, OneKey(0), acts).Some?
    ensures var t := Play(QUIET, OneKey(0), acts).value;
      t.phase.Ended? && t.committer.Sending? && |t.queue| == ALERT_CAPACITY
  {
    var w := OneKey(0);
    var s1 := QUIET.(phase := Checked, out := [Init]);
    var s2 := s1.(phase := Scanned(1), first := 1);
    var s3 := s2.(phase := Registered(1));
    var t := UNREAD.(phase := Ended(2, Change(2), true));
    var u := t.(committer := Idle, queue := [2]);
    UnreadSteps(s1, s2, s3);
    UnreadEnds();
    acts := [];
    assert Play(QUIET, w, acts) == Some(QUIET);
    hide Leads, Play;
    Then(QUIET, w, acts, QUIET, Check, s1);
    acts := acts + [Check];
    Then(QUIET, w, acts, s1, FirstScan, s2);
    acts := acts + [FirstScan];
    Then(QUIET, w, acts, s2, Register, s3);
    acts := acts + [Register];
    Then(QUIET, w, acts, s3, Commit([Change(2)], 2, [[1]], {Change(2)}), UNREAD);
    acts := acts + [Commit([Change(2)], 2, [[1]], {Change(2)})];
    Then(QUIET, w, acts, UNREAD, SecondScan, t);
    acts := acts + [SecondScan];
    Then(QUIET, w, acts, t, Find, t.(committer := Sending));
    acts := acts + [Find];
    Then(QUIET, w, acts, t.(committer := Sending), Alert, u);
    acts := acts + [Alert];
    var rest := BlockReached(u, w);
    PlayJoin(QUIET, w, acts, rest, u);
    acts := acts + rest;
  }
}
