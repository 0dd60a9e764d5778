/**
 The messages of a watch as the packing loop receives them: their order is what the loop
 relies on to mark fragments.
 */
module WatchStream {
  import opened Base
  import opened History
  import opened WatchProtocol
  import P = WatchPacking

  /** A message for a note: whatever pair it shows, it has the key and the revision of the event. */
  predicate Tells(m: P.Message, n: Note) {
    match n
    case Init => m == P.Opened(0)
    case Refusal(r) => m == P.Compacted(r)
    case Sent(r, e) => m.Changed? && m.rev == r && m.change.key == e.key && m.change.modRev == e.rev.upper
    case Sync(r) => m == P.Synced(r)
    case Notify(r) => m == P.Notified(r)
  }

  ghost predicate Told(ms: seq<P.Message>, out: seq<Note>) {
    |ms| == |out| && forall i | 0 <= i < |ms| :: Tells(ms[i], out[i])
  }

  /** These changes are the events, in order. */
  ghost predicate AreChanges(cs: seq<P.Change>, es: seq<Event>) {
    |cs| == |es| && forall i | 0 <= i < |cs| :: cs[i].key == es[i].key && cs[i].modRev == es[i].rev.upper
  }

  lemma OrderlySnoc(ms: seq<P.Message>, m: P.Message)
    requires P.Orderly(ms)
    requires P.Received(ms) != [] ==>
      !m.Opened? && (m.Changed? && P.SyncedSince(ms) ==> P.Last(P.Received(ms)).modRev < m.change.modRev)
    ensures P.Orderly(ms + [m])
  {
    hide P.SyncedSince, P.Received;
    var all := ms + [m];
    assert forall j | 0 <= j < |ms| :: all[j] == ms[j] && all[..j] == ms[..j];
    assert all[..|ms|] == ms;
  }

  lemma NoteOrderly(ms: seq<P.Message>, m: P.Message, sent: seq<Event>, rev: nat, e: Event)
    requires P.Orderly(ms) && AreChanges(P.Received(ms), sent) && Tells(m, Sent(rev, e))
    requires P.SyncedSince(ms) ==> forall x <- sent :: x.rev.upper < e.rev.upper
    ensures P.Orderly(ms + [m]) && AreChanges(P.Received(ms + [m]), sent + [e]) && !P.SyncedSince(ms + [m])
  {
    P.ReceivedSnoc(ms, m);
    hide P.Orderly, P.Received, P.SyncedSince;
    if sent != [] { assert sent[|sent| - 1] in sent; }
    OrderlySnoc(ms, m);
  }

  /** A scan's notes: all beyond what was received before. */
  lemma {:induction false} NotesOrderly(ms: seq<P.Message>, more: seq<P.Message>, sent: seq<Event>, es: seq<Event>,
                                        rev: nat)
    requires P.Orderly(ms) && AreChanges(P.Received(ms), sent) && Told(more, Notes(es, rev))
    requires forall x <- sent, e <- es :: x.rev.upper < e.rev.upper
    ensures P.Orderly(ms + more) && AreChanges(P.Received(ms + more), sent + es)
    ensures es != [] ==> !P.SyncedSince(ms + more)
  {
    hide P.Orderly, P.Received, P.SyncedSince, AreChanges;
    if es == [] {
      assert ms + more == ms && sent + es == sent;
    } else {
      var n := |es| - 1;
      assert Tells(more[n], Notes(es, rev)[n]);
      assert Told(more[..n], Notes(es[..n], rev)) by {
        assert forall i | 0 <= i < n :: Notes(es, rev)[i] == Notes(es[..n], rev)[i];
      }
      hide Told, Tells;
      assert es[n] in es && forall e <- es[..n] :: e in es;
      NotesOrderly(ms, more[..n], sent, es[..n], rev);
      assert ms + more == ms + more[..n] + [more[n]] && sent + es == sent + es[..n] + [es[n]];
      if n == 0 { assert ms + more[..n] == ms && sent + es[..n] == sent; }
      NoteOrderly(ms + more[..n], more[n], sent + es[..n], rev, es[n]);
    }
  }

  lemma OtherOrderly(ms: seq<P.Message>, m: P.Message, sent: seq<Event>)
    requires P.Orderly(ms) && AreChanges(P.Received(ms), sent) && !m.Changed? && (m.Opened? ==> sent == [])
    ensures P.Orderly(ms + [m]) && AreChanges(P.Received(ms + [m]), sent)
  {
    hide P.Orderly;
    P.ReceivedSnoc(ms, m);
    OrderlySnoc(ms, m);
    assert P.Received(ms) + [] == P.Received(ms);
  }

  /** Everything sent lies behind the cursor. */
  ghost predicate Behind(s: Sys) {
    match s.phase
    case New | Checked | Refused => s.sent == []
    case Ended(_, _, _) => true
    case _ => s.phase.cursor <= s.rev && forall e <- s.sent :: e.rev.upper <= s.phase.cursor
  }

  lemma {:induction false} MatchingIn(log: seq<Event>, w: Watch, lo: nat, hi: nat)
    ensures forall e <- Matching(log, w, lo, hi) :: lo <= e.rev.upper <= hi
  {
    hide Wanted;
    if log != [] { MatchingIn(log[..|log| - 1], w, lo, hi); }
  }

  /** What was told so far is in order and is what was sent. */
  ghost predicate StreamOk(s: Sys) {
    Behind(s) && forall ms | Told(ms, s.out) :: P.Orderly(ms) && AreChanges(P.Received(ms), s.sent)
  }

  lemma ToldSplit(ms: seq<P.Message>, p: seq<Note>, q: seq<Note>)
    requires Told(ms, p + q)
    ensures Told(ms[..|p|], p) && Told(ms[|p|..], q)
  {
    hide Tells;
    forall i | 0 <= i < |p| ensures Tells(ms[..|p|][i], p[i]) { assert (p + q)[i] == p[i]; }
    forall i | 0 <= i < |q| ensures Tells(ms[|p|..][i], q[i]) { assert (p + q)[|p| + i] == q[i]; }
  }

  lemma ScanTold(s: Sys, es: seq<Event>, sync: bool, ms: seq<P.Message>)
    requires StreamOk(s) && forall x <- s.sent, e <- es :: x.rev.upper < e.rev.upper
    requires Told(ms, s.out + Notes(es, s.rev) + if sync then [Sync(s.rev)] else [])
    ensures P.Orderly(ms) && AreChanges(P.Received(ms), s.sent + es)
  {
    hide P.Orderly, P.Received, AreChanges, Tells;
    var front, last := s.out + Notes(es, s.rev), if sync then [Sync(s.rev)] else [];
    ToldSplit(ms, front, last);
    var a, b := ms[..|front|], ms[|front|..];
    ToldSplit(a, s.out, Notes(es, s.rev));
    NotesOrderly(a[..|s.out|], a[|s.out|..], s.sent, es, s.rev);
    assert a == a[..|s.out|] + a[|s.out|..] && ms == a + b;
    if sync {
      assert Tells(b[0], Sync(s.rev)) && b == [b[0]];
      SyncOrderly(a, b[0], s.sent + es, s.rev);
    } else {
      assert ms == a;
    }
  }

  lemma SyncOrderly(ms: seq<P.Message>, m: P.Message, sent: seq<Event>, rev: nat)
    requires P.Orderly(ms) && AreChanges(P.Received(ms), sent) && Tells(m, Sync(rev))
    ensures P.Orderly(ms + [m]) && AreChanges(P.Received(ms + [m]), sent)
  {
    hide P.Orderly, P.Received, AreChanges;
    OtherOrderly(ms, m, sent);
  }

  lemma FoundIn(s: Sys, w: Watch, since: nat)
    ensures forall e <- Found(s, w, since) :: since <= e.rev.upper <= s.rev
  {
    hide Matching;
    MatchingIn(s.log, w, Max(since, s.floor), s.rev);
  }

  lemma StreamScan(s: Sys, w: Watch, since: nat, next: Phase, registered: bool)
    requires StreamOk(s) && HasCursor(next) && next.cursor == s.rev
    requires s.sent == [] || (since <= s.rev + 1 && forall x <- s.sent :: x.rev.upper < since)
    ensures StreamOk(Scan(s, w, since, next, registered))
  {
    var es := Found(s, w, since);
    var n := StopAt(es, s.bad);
    var t := Scan(s, w, since, next, registered);
    FoundIn(s, w, since);
    hide Found, StopAt, Matching;
    assert forall e <- es[..n] :: e in es;
    assert Behind(t);
    hide P.Orderly, P.Received, AreChanges, Told;
    forall ms | Told(ms, t.out) ensures P.Orderly(ms) && AreChanges(P.Received(ms), t.sent) {
      ScanTold(s, es[..n], 0 < n == |es|, ms);
    }
  }

  lemma StreamNote(s: Sys, n: Note, t: Sys)
    requires StreamOk(s) && !n.Sent? && (n.Init? ==> s.sent == [])
    requires t.sent == s.sent && t.out == s.out + [n] && Behind(t)
    ensures StreamOk(t)
  {
    hide P.Orderly, P.Received;
    forall ms | Told(ms, t.out) ensures P.Orderly(ms) && AreChanges(P.Received(ms), t.sent) {
      var k := |s.out|;
      assert Told(ms[..k], s.out) by { assert forall i | 0 <= i < k :: Tells(ms[i], t.out[i]); }
      assert Tells(ms[k], t.out[k]) && ms == ms[..k] + [ms[k]];
      OtherOrderly(ms[..k], ms[k], s.sent);
    }
  }

  lemma StreamStep(s: Sys, w: Watch, a: Action)
    requires StreamOk(s) && Enabled(s, w, a)
    ensures StreamOk(Do(s, w, a))
  {
    hide P.Orderly, P.Received, Told, Scan, Matching, InWatch;
    var t := Do(s, w, a);
    match a
    case Check => StreamNote(s, if t.phase.Refused? then Refusal(s.revMin) else Init, t);
    case FirstScan => StreamScan(s, w, w.since, Scanned(s.rev), false);
    case SecondScan => StreamScan(s, w, s.phase.cursor + 1, Waiting(s.rev), w.accepted);
    case Rescan =>
      var u := Scan(s, w, s.phase.cursor + 1, Waiting(s.rev), false);
      StreamScan(s, w, s.phase.cursor + 1, Waiting(s.rev), false);
      if t != u { StreamNote(u, Notify(s.rev), t); }
    case _ =>
  }

  /** Under every interleaving the packing loop gets the events that were sent, in the order it relies on. */
  lemma {:induction false} StreamOrderly(s: Sys, w: Watch, acts: seq<Action>, ms: seq<P.Message>)
    requires Start(s) && Play(s, w, acts).Some? && Told(ms, Play(s, w, acts).value.out)
    ensures P.Orderly(ms) && AreChanges(P.Received(ms), Play(s, w, acts).value.sent)
  {
    PlayStream(s, w, acts);
  }

  lemma {:induction false} PlayStream(s: Sys, w: Watch, acts: seq<Action>)
    requires Start(s) && Play(s, w, acts).Some?
    ensures StreamOk(Play(s, w, acts).value)
  {
    if acts == [] {
      assert forall ms | Told(ms, []) :: ms == [];
    } else {
      hide StreamOk, Do, Enabled;
      var n := |acts| - 1;
      PlayStream(s, w, acts[..n]);
      StreamStep(Play(s, w, acts[..n]).value, w, acts[n]);
    }
  }
}
