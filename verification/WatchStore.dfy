/**
 The watch protocol against the replica it watches: what a scan reads is in the store, and a
 batch of entries is one commit of the protocol followed by its compactions.
 */
module WatchStore {
  import opened Base
  import opened KeyRev
  import opened History
  import opened DbKvs
  import opened Machine
  import opened Invariants
  import opened Snapshots
  import opened Growth
  import opened EventLaws
  import W = WatchProtocol

  // ---- events from a revision on ----

  lemma {:induction false} FromFrom(evts: seq<Event>, a: nat, b: nat)
    ensures EventsFrom(EventsFrom(evts, a), b) == EventsFrom(evts, Max(a, b))
  {
    if evts != [] { FromFrom(evts[1..], a, b); }
  }

  lemma {:induction false} FromConcat(p: seq<Event>, q: seq<Event>, max: nat)
    requires forall e <- q :: e.rev.upper >= max
    ensures EventsFrom(p + q, max) == EventsFrom(p, max) + q
  {
    if p == [] {
      assert p + q == q;
      if q != [] { assert q[0] in q; }
    } else {
      assert (p + q)[1..] == p[1..] + q;
      FromConcat(p[1..], q, max);
    }
  }

  // ---- what a scan reads ----

  /** Those of the events that are wanted, in order. */
  function Filtered(evts: seq<Event>, w: W.Watch): seq<Event> {
    if evts == [] then []
    else Filtered(evts[..|evts| - 1], w) + if W.Wanted(w, evts[|evts| - 1]) then [evts[|evts| - 1]] else []
  }

  lemma {:induction false} FilteredFirst(evts: seq<Event>, w: W.Watch)
    requires evts != []
    ensures Filtered(evts, w) == (if W.Wanted(w, evts[0]) then [evts[0]] else []) + Filtered(evts[1..], w)
  {
    hide W.Wanted;
    var n := |evts| - 1;
    if n > 0 {
      FilteredFirst(evts[..n], w);
      assert evts[..n][1..] == evts[1..][..n - 1];
    } else {
      assert evts[..0] == [] && evts[1..] == [];
    }
  }

  lemma {:induction false} MatchingFirst(evts: seq<Event>, w: W.Watch, lo: nat, hi: nat)
    requires evts != []
    ensures W.Matching(evts, w, lo, hi) ==
      (if lo <= evts[0].rev.upper <= hi && W.Wanted(w, evts[0]) then [evts[0]] else []) +
        W.Matching(evts[1..], w, lo, hi)
  {
    hide W.Wanted, W.Matching;
    W.MatchingConcat(evts[..1], evts[1..], w, lo, hi);
    assert evts == evts[..1] + evts[1..] && evts[..1][..0] == [];
    MatchingOne(evts[0], w, lo, hi);
    assert evts[..1] == [evts[0]];
  }

  lemma MatchingOne(e: Event, w: W.Watch, lo: nat, hi: nat)
    ensures W.Matching([e], w, lo, hi) == if lo <= e.rev.upper <= hi && W.Wanted(w, e) then [e] else []
  {
    hide W.Wanted;
    assert [e][..0] == [] && W.Matching([], w, lo, hi) == [];
  }

  ghost predicate Ordered(evts: seq<Event>, hi: nat) {
    && (forall i, j | 0 <= i < j < |evts| :: evts[i].rev.upper <= evts[j].rev.upper)
    && (forall e <- evts :: e.rev.upper <= hi)
  }

  lemma OrderedRest(evts: seq<Event>, hi: nat)
    requires Ordered(evts, hi) && evts != []
    ensures Ordered(evts[1..], hi) && evts[0].rev.upper <= hi
    ensures forall i | 0 <= i < |evts[1..]| :: evts[0].rev.upper <= evts[1..][i].rev.upper
  {
    var rest := evts[1..];
    assert forall i, j | 0 <= i < j < |rest| :: rest[i] == evts[i + 1] && rest[j] == evts[j + 1];
    assert evts[0] in evts && forall e <- rest :: e in evts;
  }

  lemma {:induction false} MatchingIsFiltered(evts: seq<Event>, w: W.Watch, lo: nat, hi: nat)
    requires Ordered(evts, hi)
    ensures W.Matching(evts, w, lo, hi) == Filtered(EventsFrom(evts, lo), w)
  {
    if evts == [] {
      assert W.Matching([], w, lo, hi) == [];
    } else {
      OrderedRest(evts, hi);
      hide W.Wanted, W.Matching, Filtered, Ordered;
      MatchingIsFiltered(evts[1..], w, lo, hi);
      MatchingFirst(evts, w, lo, hi);
      if evts[0].rev.upper >= lo {
        FilteredFirst(evts, w);
        AllFrom(evts[1..], lo);
      }
    }
  }

  lemma AllFrom(evts: seq<Event>, lo: nat)
    requires forall i | 0 <= i < |evts| :: evts[i].rev.upper >= lo
    ensures EventsFrom(evts, lo) == evts
  {}

  /** The read behind this event fails. */
  predicate Unread(h: map<bytes, Versions>, e: Event, withPrev: bool) {
    ReadWithPrev(Lookup(h, e.key), e.rev.upper, withPrev).Err?
  }

  function UnreadIn(s: Store, withPrev: bool): set<Event> {
    set e | e in s.evts && Unread(s.hist, e, withPrev)
  }

  /** The protocol's log, cut off where compaction has come to, is the event table of the replica. */
  ghost predicate Stored(m: State, s: W.Sys, w: W.Watch) {
    && m.store.evts == EventsFrom(s.log, s.floor) && s.floor <= s.rev
    && s.rev == m.rev && s.revMin == m.revMin && s.bad == UnreadIn(m.store, w.prev)
  }

  lemma FoundIs(s: W.Sys, w: W.Watch, since: nat)
    requires W.LogOk(s) && since > 0
    ensures W.Found(s, w, since) == Filtered(EventsFrom(EventsFrom(s.log, s.floor), since), w)
  {
    hide W.Matching, Filtered, EventsFrom;
    FromFrom(s.log, s.floor, since);
    MatchingIsFiltered(s.log, w, Max(since, s.floor), s.rev);
  }

  lemma FatalIs(m: State, s: W.Sys, w: W.Watch, e: Event)
    requires s.bad == UnreadIn(m.store, w.prev) && e in m.store.evts
    ensures W.Fatal(e, s.bad) <==> !e.rev.del && Unread(m.store.hist, e, w.prev)
  {
    hide Unread;
  }

  /** A scan comes upon exactly the wanted events in the event table, and stops at the first put whose read fails. */
  lemma ScanReads(m: State, s: W.Sys, w: W.Watch, since: nat)
    requires Stored(m, s, w) && W.LogOk(s) && since > 0
    ensures W.Found(s, w, since) == Filtered(EventsFrom(m.store.evts, since), w)
    ensures forall e <- W.Found(s, w, since) :: W.Fatal(e, s.bad) <==> !e.rev.del && Unread(m.store.hist, e, w.prev)
  {
    hide W.LogOk, W.Found, W.Fatal, EventsFrom, Filtered, Unread, UnreadIn;
    FoundIs(s, w, since);
    FilteredIn(EventsFrom(m.store.evts, since), w);
    FromIn(m.store.evts, since);
    forall e | e in W.Found(s, w, since) ensures W.Fatal(e, s.bad) <==> !e.rev.del && Unread(m.store.hist, e, w.prev) {
      FatalIs(m, s, w, e);
    }
  }

  lemma FromIn(evts: seq<Event>, since: nat)
    ensures forall e <- EventsFrom(evts, since) :: e in evts
  {
    hide EventsFrom;
    var r := EventsFrom(evts, since);
    assert r == evts[|evts| - |r|..];
  }

  lemma {:induction false} FilteredIn(evts: seq<Event>, w: W.Watch)
    ensures forall e <- Filtered(evts, w) :: e in evts
  {
    if evts != [] { FilteredIn(evts[..|evts| - 1], w); }
  }

  // ---- a batch ----

  /** The events one entry adds. */
  ghost function Logs(s: State, e: Entry, f: Flags): seq<Event>
    requires Step(s, e, f).Next?
  {
    var t := Step(s, e, f).s;
    if e.cmd.CompactCmd? || |t.store.evts| < |s.store.evts| then [] else t.store.evts[|s.store.evts|..]
  }

  ghost function NewEvents(m: State, es: seq<Entry>, f: Flags): seq<Event>
    requires Run(m, es, f).Batch?
  {
    if es == [] then []
    else NewEvents(m, es[..|es| - 1], f) + Logs(Run(m, es[..|es| - 1], f).s, es[|es| - 1], f)
  }

  /** The compaction targets of a batch. */
  function Targets(es: seq<Entry>): seq<nat> {
    if es == [] then []
    else Targets(es[..|es| - 1]) + if es[|es| - 1].cmd.CompactCmd? then [es[|es| - 1].cmd.revision] else []
  }

  function Highest(floor: nat, ts: seq<nat>): nat {
    if ts == [] then floor else Max(Highest(floor, ts[..|ts| - 1]), ts[|ts| - 1])
  }

  function LastOr(min: nat, ts: seq<nat>): nat { if ts == [] then min else ts[|ts| - 1] }

  lemma HighestSnoc(floor: nat, ts: seq<nat>, x: nat)
    ensures Highest(floor, ts + [x]) == Max(Highest(floor, ts), x)
  {
    assert (ts + [x])[..|ts|] == ts;
  }

  lemma CommitsTrans(a: nat, p: seq<Event>, b: nat, ks: seq<bytes>, q: seq<Event>, c: nat, ls: seq<bytes>)
    requires W.Commits(a, p, b, ks) && W.Commits(b, q, c, ls)
    ensures W.Commits(a, p + q, c, ks + ls)
  {
    var all := p + q;
    forall i, j | 0 <= i < j < |all| ensures all[i].rev.upper <= all[j].rev.upper {
      if i < |p| { assert all[i] in p; }
      if j >= |p| { assert all[j] in q && all[j] == q[j - |p|]; }
      if i >= |p| { assert all[i] == q[i - |p|]; }
    }
  }

  /** A batch from m to t: its new events are a commit, and its compactions cut the front of the log off. */
  ghost predicate BatchOk(m: State, log: seq<Event>, floor: nat, added: seq<Event>, ts: seq<nat>, t: State,
                          keys: seq<bytes>) {
    && W.Commits(m.rev, added, t.rev, keys)
    && t.store.evts == EventsFrom(log + added, Highest(floor, ts))
    && t.revMin == LastOr(m.revMin, ts)
    && (forall x <- ts :: x <= t.rev) && Highest(floor, ts) <= t.rev
  }

  lemma StepCompacts(s: State, e: Entry, f: Flags)
    requires Inv(s) && Step(s, e, f).Next? && e.cmd.CompactCmd?
    ensures var t := Step(s, e, f);
      && t.s.store.evts == EventsFrom(s.store.evts, e.cmd.revision) && t.s.rev == s.rev && t.keys == []
      && t.s.revMin == e.cmd.revision <= s.rev
  {
    hide Good, AllOlder, Inv, EventsFrom, ExecCompact;
    InvOlder(s);
    CompactOutcome(s, e.cmd.revision);
    NewestEvent(s.store, s.rev);
  }

  lemma CompactOutcome(s: State, max: nat)
    requires ExecCompact(s, max).Next?
    ensures var t := ExecCompact(s, max);
      && t.s.store.evts == EventsFrom(s.store.evts, max) && t.s.rev == s.rev && t.keys == [] && t.s.revMin == max
      && s.store.evts != [] && s.store.evts[|s.store.evts| - 1].rev.upper >= max
  {
    hide EventsFrom, LastBelow, CompactVersions, LastUpper;
  }

  lemma NewestEvent(s: Store, rev: nat)
    requires AllOlder(s, Rev(rev + 1, 0, false)) && s.evts != []
    ensures s.evts[|s.evts| - 1].rev.upper <= rev
  {
    assert s.evts[|s.evts| - 1] in s.evts && Older(s.evts[|s.evts| - 1].rev, Rev(rev + 1, 0, false));
  }

  lemma EntryCompacts(m: State, log: seq<Event>, floor: nat, added: seq<Event>, ts: seq<nat>, p: State,
                      keys: seq<bytes>,
                      x: nat, u: State)
    requires BatchOk(m, log, floor, added, ts, p, keys)
    requires u.store.evts == EventsFrom(p.store.evts, x) && u.rev == p.rev && u.revMin == x <= p.rev
    ensures BatchOk(m, log, floor, added, ts + [x], u, keys)
  {
    HighestSnoc(floor, ts, x);
    FromFrom(log + added, Highest(floor, ts), x);
    hide EventsFrom, Highest, W.Commits;
  }

  lemma CommitsAbove(rev: nat, more: seq<Event>, to: nat, ls: seq<bytes>, cut: nat)
    requires W.Commits(rev, more, to, ls) && cut <= rev
    ensures rev <= to && forall e <- more :: e.rev.upper >= cut
  {}

  lemma EntryCommits(m: State, log: seq<Event>, floor: nat, added: seq<Event>, ts: seq<nat>, p: State, keys: seq<bytes>,
                     more: seq<Event>, ls: seq<bytes>, u: State)
    requires BatchOk(m, log, floor, added, ts, p, keys)
    requires u.store.evts == p.store.evts + more && W.Commits(p.rev, more, u.rev, ls) && u.revMin == p.revMin
    ensures BatchOk(m, log, floor, added + more, ts, u, keys + ls)
  {
    hide EventsFrom, Highest, LastOr, W.Commits;
    CommitsAbove(p.rev, more, u.rev, ls, Highest(floor, ts));
    CommitsTrans(m.rev, added, p.rev, keys, more, u.rev, ls);
    FromConcat(log + added, more, Highest(floor, ts));
    assert log + (added + more) == log + added + more;
  }

  lemma RunLast(m: State, es: seq<Entry>, f: Flags)
    requires es != [] && Run(m, es, f).Batch?
    ensures var n := |es| - 1;
      var p := Run(m, es[..n], f);
      p.Batch? && var u := Step(p.s, es[n], f);
      u.Next? && Run(m, es, f).s == u.s && Run(m, es, f).keys == p.keys + u.keys
  {
    hide Step;
  }

  lemma NewLast(m: State, es: seq<Entry>, f: Flags)
    requires es != [] && Run(m, es, f).Batch?
    ensures var n := |es| - 1;
      var p := Run(m, es[..n], f);
      && p.Batch? && Step(p.s, es[n], f).Next?
      && NewEvents(m, es, f) == NewEvents(m, es[..n], f) + Logs(p.s, es[n], f)
      && Targets(es) == Targets(es[..n]) + if es[n].cmd.CompactCmd? then [es[n].cmd.revision] else []
  {
    RunLast(m, es, f);
    hide Run, Step, Logs;
  }

  lemma OneEntry(m: State, log: seq<Event>, floor: nat, added: seq<Event>, ts: seq<nat>, p: State, keys: seq<bytes>,
                 e: Entry, f: Flags)
    requires BatchOk(m, log, floor, added, ts, p, keys) && Inv(p) && CmdOk(e.cmd) && Step(p, e, f).Next?
    requires Room(Step(p, e, f).s)
    ensures var u := Step(p, e, f);
      BatchOk(m, log, floor, added + Logs(p, e, f), ts + (if e.cmd.CompactCmd? then [e.cmd.revision] else []),
              u.s, keys + u.keys)
  {
    hide Inv, Step, BatchOk, EventsFrom, CmdOk, Room;
    var u := Step(p, e, f);
    if e.cmd.CompactCmd? {
      StepCompacts(p, e, f);
      EntryCompacts(m, log, floor, added, ts, p, keys, e.cmd.revision, u.s);
      assert added + [] == added && keys + [] == keys;
    } else {
      StepCommits(p, e, f);
      StepMin(p, e, f);
      assert u.s.store.evts == p.store.evts + Logs(p, e, f);
      EntryCommits(m, log, floor, added, ts, p, keys, Logs(p, e, f), u.keys, u.s);
      assert ts + [] == ts;
    }
  }

  lemma EmptyBatch(m: State, log: seq<Event>, floor: nat)
    requires m.store.evts == EventsFrom(log, floor) && floor <= m.rev
    ensures BatchOk(m, log, floor, [], [], m, [])
  {
    hide EventsFrom;
    assert log + [] == log;
  }

  lemma EarlierRoom(s: State, e: Entry, f: Flags)
    requires Step(s, e, f).Next? && Room(Step(s, e, f).s)
    ensures Room(s)
  {
    hide Step;
    StepGrows(s, e, f);
  }

  lemma {:induction false} BatchCommits(m: State, log: seq<Event>, floor: nat, es: seq<Entry>, f: Flags)
    requires Inv(m) && EntriesOk(es) && Run(m, es, f).Batch? && Room(Run(m, es, f).s)
    requires m.store.evts == EventsFrom(log, floor) && floor <= m.rev
    ensures BatchOk(m, log, floor, NewEvents(m, es, f), Targets(es), Run(m, es, f).s, Run(m, es, f).keys)
  {
    hide Inv, Step, BatchOk, EventsFrom, CmdOk, Logs, Room;
    if es == [] {
      EmptyBatch(m, log, floor);
    } else {
      var n := |es| - 1;
      RunLast(m, es, f);
      NewLast(m, es, f);
      hide Run, NewEvents, Targets;
      assert es[n] in es && EntriesOk(es[..n]);
      var p := Run(m, es[..n], f);
      assert Room(p.s) by { EarlierRoom(p.s, es[n], f); }
      RunKeeps(m, es[..n], f);
      BatchCommits(m, log, floor, es[..n], f);
      OneEntry(m, log, floor, NewEvents(m, es[..n], f), Targets(es[..n]), p.s, p.keys, es[n], f);
    }
  }

  // ---- as steps of the protocol ----

  function Compactions(ts: seq<nat>, bad: set<Event>): seq<W.Action> {
    seq(|ts|, i requires 0 <= i < |ts| => W.Compact(ts[i], bad))
  }

  lemma {:induction false} CompactionsPlay(s: W.Sys, w: W.Watch, ts: seq<nat>)
    requires forall x <- ts :: x <= s.rev
    ensures W.Play(s, w, Compactions(ts, s.bad)) ==
      Some(s.(floor := Highest(s.floor, ts), revMin := LastOr(s.revMin, ts)))
  {
    if ts != [] {
      var n := |ts| - 1;
      assert Compactions(ts, s.bad)[..n] == Compactions(ts[..n], s.bad);
      assert ts[n] in ts && forall x <- ts[..n] :: x in ts;
      CompactionsPlay(s, w, ts[..n]);
    }
  }

  lemma {:induction false} PlayAfter(s: W.Sys, w: W.Watch, a: W.Action, rest: seq<W.Action>)
    requires W.Enabled(s, w, a)
    ensures W.Play(s, w, [a] + rest) == W.Play(W.Do(s, w, a), w, rest)
  {
    hide W.Do, W.Enabled;
    var all := [a] + rest;
    if rest == [] {
      assert all[..0] == [] && all == [a];
    } else {
      var n := |rest| - 1;
      assert all[..n + 1] == [a] + rest[..n];
      PlayAfter(s, w, a, rest[..n]);
    }
  }

  /** The watcher's side is left alone. */
  predicate SameWatcher(s: W.Sys, t: W.Sys) {
    && t.phase == s.phase && t.queue == s.queue && t.sent == s.sent && t.out == s.out
    && t.first == s.first && t.lost == s.lost
  }

  /**
   A batch, compactions among its entries or not, is a commit of the protocol and then compactions. They
   lead to a log that is again the event table of the replica, and to the lookup of the keys it reports.
   */
  lemma BatchPlays(m: State, s: W.Sys, w: W.Watch, es: seq<Entry>, f: Flags)
    requires Inv(m) && EntriesOk(es) && Run(m, es, f).Batch? && Room(Run(m, es, f).s)
    requires Stored(m, s, w) && s.committer.Idle?
    ensures var t := Run(m, es, f);
      var bad := UnreadIn(t.s.store, w.prev);
      var acts := [W.Commit(NewEvents(m, es, f), t.s.rev, t.keys, bad)] + Compactions(Targets(es), bad);
      var u := W.Play(s, w, acts);
      u.Some? && Stored(t.s, u.value, w) && u.value.committer == W.Committed(t.keys) && SameWatcher(s, u.value)
  {
    hide Inv, Run, EventsFrom, UnreadIn, W.Play;
    BatchCommits(m, s.log, s.floor, es, f);
    var t := Run(m, es, f);
    var bad := UnreadIn(t.s.store, w.prev);
    var a := W.Commit(NewEvents(m, es, f), t.s.rev, t.keys, bad);
    PlayAfter(s, w, a, Compactions(Targets(es), bad));
    CompactionsPlay(W.Do(s, w, a), w, Targets(es));
  }
}
