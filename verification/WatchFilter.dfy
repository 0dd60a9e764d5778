/**
 Which events reach a watcher, told from its request alone, and how they are announced. Everything
 here holds over every schedule.
 */
module WatchFilters {
  import opened Base
  import opened KeyRev
  import opened History
  import opened WatchProtocol
  import opened WatchLaws

  // ---- what a request asks for ----

  /** The key itself, and with an end all keys between the two. */
  predicate Covers(w: Watch, k: bytes) {
    k == w.key || (LexLess(w.key, k) && LexLess(k, w.end))
  }

  /** A change of such a key, unless it is a put and the request wants none, or a delete and it wants none. */
  predicate Asks(w: Watch, e: Event) {
    Covers(w, e.key) && (w.noPut ==> e.rev.del) && (w.noDelete ==> !e.rev.del)
  }

  lemma CoversIsInWatch(w: Watch, k: bytes)
    ensures Covers(w, k) <==> InWatch(w, k)
  {
    LexTotal(k, w.key);
    LexTotal(w.key, k);
  }

  lemma AsksIsWanted(w: Watch, e: Event)
    ensures Asks(w, e) <==> Wanted(w, e)
  {
    hide Covers, InWatch;
    CoversIsInWatch(w, e.key);
  }

  /** The places in the log of what was sent: in order, and all those asked for between two revisions. */
  ghost predicate Extracts(log: seq<Event>, w: Watch, lo: nat, hi: nat, sent: seq<Event>, at: seq<nat>) {
    && |at| == |sent| && (forall i, j | 0 <= i < j < |at| :: at[i] < at[j])
    && (forall i | 0 <= i < |at| :: at[i] < |log| && log[at[i]] == sent[i])
    && (forall j | 0 <= j < |log| :: j in at <==> lo <= log[j].rev.upper <= hi && Asks(w, log[j]))
  }

  lemma {:induction false} MatchingExtracts(log: seq<Event>, w: Watch, lo: nat, hi: nat) returns (at: seq<nat>)
    ensures Extracts(log, w, lo, hi, Matching(log, w, lo, hi), at)
  {
    hide Asks, Wanted;
    at := [];
    if log != [] {
      var n := |log| - 1;
      at := MatchingExtracts(log[..n], w, lo, hi);
      AsksIsWanted(w, log[n]);
      if lo <= log[n].rev.upper <= hi && Wanted(w, log[n]) { at := at + [n]; }
    }
  }

  /**
   As long as compaction did not overtake it, a watcher was sent exactly the changes it asks for, up to its
   cursor or up to the one it ended at, each once and in the order of the log.
   */
  lemma SentAsAsked(s: Sys, w: Watch, acts: seq<Action>, t: Sys) returns (all: seq<Event>, at: seq<nat>)
    requires Start(s) && Play(s, w, acts) == Some(t) && !t.lost && (HasCursor(t.phase) || t.phase.Ended?)
    ensures Extracts(t.log, w, Lo(t, w), if t.phase.Ended? then t.phase.upto else t.phase.cursor, all, at)
    ensures if t.phase.Ended? then EndsBefore(t.sent, all, t.phase.stop) else t.sent == all
  {
    hide Play, Start, Matching, EndsBefore, Extracts;
    EveryInterleaving(s, w, acts);
    var hi := if t.phase.Ended? then t.phase.upto else t.phase.cursor;
    all := Matching(t.log, w, Lo(t, w), hi);
    at := MatchingExtracts(t.log, w, Lo(t, w), hi);
  }

  lemma {:induction false} MatchingAsked(log: seq<Event>, w: Watch, lo: nat, hi: nat)
    ensures forall e <- Matching(log, w, lo, hi) :: e in log && Asks(w, e)
  {
    hide Asks, Wanted;
    if log != [] {
      MatchingAsked(log[..|log| - 1], w, lo, hi);
      AsksIsWanted(w, log[|log| - 1]);
    }
  }

  ghost predicate SentAsked(s: Sys, w: Watch) { forall e <- s.sent :: e in s.log && Asks(w, e) }

  lemma DoAsked(s: Sys, w: Watch, a: Action)
    requires Enabled(s, w, a) && SentAsked(s, w)
    ensures SentAsked(Do(s, w, a), w)
  {
    hide Asks, Matching, StopAt, Notes, InWatch, Commits;
    MatchingAsked(s.log, w, Max(ScansFrom(s, w, a), s.floor), s.rev);
    if !a.FirstScan? && !a.SecondScan? && !a.Rescan? { DoSendsNothing(s, w, a); }
  }

  lemma DoSendsNothing(s: Sys, w: Watch, a: Action)
    requires Enabled(s, w, a) && !a.FirstScan? && !a.SecondScan? && !a.Rescan?
    ensures Do(s, w, a).sent == s.sent && s.log <= Do(s, w, a).log
  {
    hide InWatch, Commits, Scan;
  }

  /** Even if compaction did, nothing it does not ask for was ever sent. */
  lemma {:induction false} NeverUnasked(s: Sys, w: Watch, acts: seq<Action>)
    requires Start(s) && Play(s, w, acts).Some?
    ensures forall e <- Play(s, w, acts).value.sent :: e in Play(s, w, acts).value.log && Asks(w, e)
  {
    hide Do, Enabled, Asks;
    if acts != [] {
      var n := |acts| - 1;
      NeverUnasked(s, w, acts[..n]);
      DoAsked(Play(s, w, acts[..n]).value, w, acts[n]);
    }
  }

  // ---- how it is announced ----

  /** The events among the notes. */
  function EventsOf(out: seq<Note>): seq<Event> {
    if out == [] then []
    else
      var n := out[|out| - 1];
      EventsOf(out[..|out| - 1]) + if n.Sent? then [n.event] else []
  }

  /**
   The notes so far. First comes the answer to the request: a refusal, and then nothing else, or that it
   is open. A sync comes right after the last change of a scan. A notice comes only if it was asked for.
   */
  ghost predicate Announced(w: Watch, out: seq<Note>) {
    forall i | 0 <= i < |out| :: Fitting(w, out, i)
  }

  predicate Fitting(w: Watch, out: seq<Note>, i: nat)
    requires i < |out|
  {
    match out[i]
    case Init => i == 0
    case Refusal(r) => |out| == 1 && 0 < w.since < r
    case Sent(r, e) => i > 0 && e.rev.upper <= r
    case Sync(r) => i > 0 && out[i - 1].Sent? && out[i - 1].rev == r
    case Notify(r) => i > 0 && w.progress && !out[i - 1].Sent?
  }

  /** Every change is followed by another of its scan or by the sync. */
  ghost predicate Followed(out: seq<Note>) {
    forall i | 0 <= i < |out| - 1 :: out[i].Sent? ==>
      (out[i + 1].Sent? || out[i + 1].Sync?) && out[i + 1].rev == out[i].rev
  }

  predicate Open(out: seq<Note>) { out != [] && out[|out| - 1].Sent? }

  /** The scan of the last change went to its end, unless the watch ended there. */
  ghost predicate OutOk(s: Sys, w: Watch) {
    && Announced(w, s.out) && Followed(s.out) && EventsOf(s.out) == s.sent && (Open(s.out) ==> s.phase.Ended?)
    && (s.phase.New? <==> s.out == []) && (s.phase.Refused? <==> s.out != [] && s.out[0].Refusal?)
  }

  lemma NoteAdded(w: Watch, out: seq<Note>, n: Note)
    requires Announced(w, out) && Followed(out) && out != [] && !out[0].Refusal?
    requires Fitting(w, out + [n], |out|)
    requires Open(out) ==> (n.Sent? || n.Sync?) && n.rev == out[|out| - 1].rev
    ensures Announced(w, out + [n]) && Followed(out + [n])
    ensures EventsOf(out + [n]) == EventsOf(out) + if n.Sent? then [n.event] else []
  {
    var more := out + [n];
    assert more[..|out|] == out;
    forall i | 0 <= i < |more| ensures Fitting(w, more, i) {
      if i < |out| { assert Fitting(w, out, i) && more[i] == out[i]; }
    }
  }

  lemma {:induction false} NotesAdded(w: Watch, out: seq<Note>, es: seq<Event>, rev: nat)
    requires Announced(w, out) && Followed(out) && out != [] && !out[0].Refusal? && !Open(out)
    requires forall e <- es :: e.rev.upper <= rev
    ensures var more := out + Notes(es, rev);
      && Announced(w, more) && Followed(more) && EventsOf(more) == EventsOf(out) + es
      && (es != [] ==> Open(more) && more[|more| - 1].rev == rev)
  {
    hide Announced, Followed, EventsOf;
    if es == [] {
      assert out + Notes(es, rev) == out && EventsOf(out) + es == EventsOf(out);
    } else {
      var k := |es| - 1;
      assert es == es[..k] + [es[k]];
      NotesAdded(w, out, es[..k], rev);
      var mid := out + Notes(es[..k], rev);
      assert out + Notes(es, rev) == mid + [Sent(rev, es[k])];
      NoteAdded(w, mid, Sent(rev, es[k]));
      assert EventsOf(out) + es[..k] + [es[k]] == EventsOf(out) + es;
    }
  }

  /** What a scan appends: its changes, and unless it ends the watch a sync, or without a change a notice if wanted. */
  function Report(es: seq<Event>, rev: nat, ended: bool, notice: bool): seq<Note> {
    Notes(es, rev) +
    if ended then [] else if es != [] then [Sync(rev)] else if notice then [Notify(rev)] else []
  }

  /** A notice comes from the rescan after an alert, if the request wants it. */
  lemma ScanReports(s: Sys, w: Watch, a: Action)
    requires Enabled(s, w, a) && (a.FirstScan? || a.SecondScan? || a.Rescan?)
    ensures var t := Do(s, w, a);
      && s.sent <= t.sent && t.log == s.log && (t.phase.Ended? || HasCursor(t.phase))
      && t.out == s.out + Report(t.sent[|s.sent|..], s.rev, t.phase.Ended?, a.Rescan? && w.progress)
  {
    hide Matching, Found, StopAt;
    var all := Found(s, w, ScansFrom(s, w, a));
    var more := all[..StopAt(all, s.bad)];
    assert (s.sent + more)[|s.sent|..] == more;
    assert s.sent + more == s.sent <==> more == [];
    hide Notes;
    var t := Do(s, w, a);
    assert Notes(more, s.rev) + [] == Notes(more, s.rev);
    assert s.out + (Notes(more, s.rev) + [Sync(s.rev)]) == s.out + Notes(more, s.rev) + [Sync(s.rev)];
    assert s.out + (Notes(more, s.rev) + [Notify(s.rev)]) == s.out + Notes(more, s.rev) + [Notify(s.rev)];
  }

  /** A request is refused exactly if it starts below the last compaction target. */
  lemma CheckRefuses(s: Sys, w: Watch)
    requires Enabled(s, w, Check)
    ensures var t := Do(s, w, Check);
      && (t.phase.Refused? <==> 0 < w.since < s.revMin) && (t.phase.Refused? || t.phase.Checked?)
      && t.out == s.out + [if t.phase.Refused? then Refusal(s.revMin) else Init] && t.sent == s.sent
  {}

  /** After a commit the watch is to be alerted exactly if the table has it and it covers a key of the batch. */
  lemma AlertedIff(s: Sys, w: Watch)
    requires Enabled(s, w, Find)
    ensures Do(s, w, Find).committer.Sending? <==>
      IsRegistered(s.phase) && w.accepted && exists k <- s.committer.keys :: Covers(w, k)
  {
    forall k ensures InWatch(w, k) <==> Covers(w, k) { CoversIsInWatch(w, k); }
    hide InWatch, Covers;
  }

  lemma ReportAdded(w: Watch, out: seq<Note>, es: seq<Event>, rev: nat, ended: bool, notice: bool)
    requires Announced(w, out) && Followed(out) && out != [] && !out[0].Refusal? && !Open(out)
    requires (forall e <- es :: e.rev.upper <= rev) && (notice ==> w.progress)
    ensures var more := out + Report(es, rev, ended, notice);
      && Announced(w, more) && Followed(more) && EventsOf(more) == EventsOf(out) + es
      && (Open(more) ==> ended)
  {
    hide Announced, Followed, EventsOf;
    NotesAdded(w, out, es, rev);
    var mid := out + Notes(es, rev);
    assert EventsOf(mid) + [] == EventsOf(mid);
    if ended {
      assert out + Report(es, rev, ended, notice) == mid;
    } else if es != [] {
      assert out + Report(es, rev, ended, notice) == mid + [Sync(rev)];
      NoteAdded(w, mid, Sync(rev));
    } else {
      assert mid == out;
      if notice {
        assert out + Report(es, rev, ended, notice) == out + [Notify(rev)];
        NoteAdded(w, out, Notify(rev));
      } else {
        assert out + Report(es, rev, ended, notice) == out;
      }
    }
  }

  lemma ScanBefore(s: Sys, w: Watch, a: Action)
    requires Inv(s, w) && Enabled(s, w, a) && (a.FirstScan? || a.SecondScan? || a.Rescan?)
    ensures !s.phase.New? && !s.phase.Refused? && !s.phase.Ended? && forall e <- s.log :: e.rev.upper <= s.rev
  {
    hide QueueOk, SentOk, Awake;
  }

  lemma ScanOut(s: Sys, w: Watch, a: Action)
    requires Inv(s, w) && OutOk(s, w) && Enabled(s, w, a) && (a.FirstScan? || a.SecondScan? || a.Rescan?)
    requires SentAsked(Do(s, w, a), w)
    ensures OutOk(Do(s, w, a), w)
  {
    hide Inv, Do, Enabled, Announced, Followed, EventsOf, Asks, Open, Report;
    var t := Do(s, w, a);
    ScanBefore(s, w, a);
    ScanReports(s, w, a);
    var more := t.sent[|s.sent|..];
    assert t.sent == s.sent + more;
    assert forall e <- more :: e in t.sent;
    ReportAdded(w, s.out, more, s.rev, t.phase.Ended?, a.Rescan? && w.progress);
  }

  lemma DoOut(s: Sys, w: Watch, a: Action)
    requires Inv(s, w) && OutOk(s, w) && Enabled(s, w, a) && SentAsked(Do(s, w, a), w)
    ensures OutOk(Do(s, w, a), w)
  {
    hide Inv, Announced, Followed, Asks, Scan, InWatch, Commits;
    match a
    case FirstScan => ScanOut(s, w, a);
    case SecondScan => ScanOut(s, w, a);
    case Rescan => ScanOut(s, w, a);
    case Check => CheckOut(s, w);
    case _ =>
  }

  lemma CheckOut(s: Sys, w: Watch)
    requires OutOk(s, w) && Enabled(s, w, Check)
    ensures OutOk(Do(s, w, Check), w)
  {
    var t := Do(s, w, Check);
    assert |t.out| == 1 && t.out[..0] == [] && EventsOf([]) == [];
  }

  /**
   Over every schedule the notes carry exactly what was sent, in order; nothing follows a refusal; every
   scan that sent something closes with a sync; and notices come only if asked for.
   */
  lemma {:induction false} EveryAnnouncement(s: Sys, w: Watch, acts: seq<Action>)
    requires Start(s) && Play(s, w, acts).Some?
    ensures OutOk(Play(s, w, acts).value, w)
  {
    hide Do, Enabled, Inv, SentAsked;
    if acts == [] {
      assert EventsOf([]) == [];
    } else {
      hide OutOk;
      var n := |acts| - 1;
      var t := Play(s, w, acts[..n]).value;
      EveryAnnouncement(s, w, acts[..n]);
      EveryInterleaving(s, w, acts[..n]);
      SentAskedAlways(s, w, acts[..n]);
      DoAsked(t, w, acts[n]);
      DoOut(t, w, acts[n]);
    }
  }

  lemma SentAskedAlways(s: Sys, w: Watch, acts: seq<Action>)
    requires Start(s) && Play(s, w, acts).Some?
    ensures SentAsked(Play(s, w, acts).value, w)
  {
    NeverUnasked(s, w, acts);
  }

  // ---- a filter at work ----

  const GONE := Event(0, [1], Rev(3, 0, true))

  /** One put and one delete of the key are there. */
  const BOTH := QUIET.(log := [Change(2), GONE], rev := 3)

  function Filtering(noPut: bool, noDelete: bool): Watch { Watch([1], [], 1, noPut, noDelete, false, false, true) }

  lemma FilteredScan(w: Watch, e: Event)
    requires (w == Filtering(true, false) && e == GONE) || (w == Filtering(false, true) && e == Change(2))
    ensures Found(BOTH, w, 1) == [e] && StopAt([e], {}) == 1
  {
    assert BOTH.log == [Change(2)] + [GONE] && [Change(2)] == [] + [Change(2)];
    MatchingSnoc([], Change(2), w, 1, 3);
    MatchingSnoc([Change(2)], GONE, w, 1, 3);
    assert Matching([], w, 1, 3) == [];
    assert [e][1..] == [] && StopAt([], {}) == 0;
  }

  /** A watcher that wants no puts is sent just the delete, and one that wants no deletes just the put. */
  lemma FilterWorks(w: Watch, e: Event)
    requires (w == Filtering(true, false) && e == GONE) || (w == Filtering(false, true) && e == Change(2))
    ensures Start(BOTH) && Play(BOTH, w, [Check, FirstScan]).Some?
    ensures var t := Play(BOTH, w, [Check, FirstScan]).value;
      t.sent == [e] && t.out == [Init, Sent(3, e), Sync(3)]
  {
    FilteredScan(w, e);
    hide Found, StopAt, Matching;
    var s1 := BOTH.(phase := Checked, out := [Init]);
    var s2 := s1.(phase := Scanned(3), first := 3, sent := [e], out := [Init, Sent(3, e), Sync(3)]);
    assert Leads(BOTH, w, Check, s1);
    FilteredStep(s1, w, e, s2);
    assert Play(BOTH, w, []) == Some(BOTH);
    hide Leads, Play;
    Then(BOTH, w, [], BOTH, Check, s1);
    assert [] + [Check] == [Check] && [Check] + [FirstScan] == [Check, FirstScan];
    Then(BOTH, w, [Check], s1, FirstScan, s2);
  }

  lemma FilteredStep(s: Sys, w: Watch, e: Event, t: Sys)
    requires s == BOTH.(phase := Checked, out := [Init]) && Found(BOTH, w, 1) == [e] && StopAt([e], {}) == 1
    requires w.since == 1
    requires t == s.(phase := Scanned(3), first := 3, sent := [e], out := [Init, Sent(3, e), Sync(3)])
    ensures Leads(s, w, FirstScan, t)
  {
    assert Found(s, w, 1) == Found(BOTH, w, 1);
    hide Found, StopAt;
    assert [e][..1] == [e] && Notes([e], 3) == [Sent(3, e)];
    hide Notes;
    assert [Init] + [Sent(3, e)] + [Sync(3)] == t.out && [] + [e] == [e];
  }
}
