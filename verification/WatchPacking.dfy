/** service_watch.go: packing watch events into responses of bounded size. */
module WatchPacking {
  import opened Base

  /** A change as it goes to a client: the pair, its revision, and the pair before if asked for. */
  datatype Change = Change(key: bytes, val: bytes, modRev: nat, prev: Option<(bytes, bytes)>)

  /** What a watch delivers; `rev` in Changed is the revision of the store when it was read. */
  datatype Message =
    | Opened(rev: nat)
    | Changed(rev: nat, change: Change)
    | Synced(rev: nat)
    | Notified(rev: nat)
    | Compacted(rev: nat)

  datatype Response =
    | Created(rev: nat)
    | Events(rev: nat, fragment: bool, events: seq<Change>)
    | Progress(rev: nat)
    | Canceled(compactRev: nat)

  const META_KEY_VALUE: nat := 256
  const META_EVENT: nat := 256
  const META_HEADER: nat := 256
  const META_RESPONSE: nat := 256

  /** The estimated size of one change. */
  function SizeOf(c: Change): nat {
    |c.key| + |c.val| + META_KEY_VALUE + META_EVENT +
    if c.prev.Some? then |c.prev.value.0| + |c.prev.value.1| + META_KEY_VALUE else 0
  }

  function TotalSize(cs: seq<Change>): nat {
    if cs == [] then 0 else TotalSize(cs[..|cs| - 1]) + SizeOf(cs[|cs| - 1])
  }

  function Received(ms: seq<Message>): seq<Change> {
    if ms == [] then []
    else Received(ms[..|ms| - 1]) + if ms[|ms| - 1].Changed? then [ms[|ms| - 1].change] else []
  }

  function Carried(rs: seq<Response>): seq<Change> {
    if rs == [] then []
    else Carried(rs[..|rs| - 1]) + if rs[|rs| - 1].Events? then rs[|rs| - 1].events else []
  }

  lemma CarriedSnoc(rs: seq<Response>, r: Response)
    ensures Carried(rs + [r]) == Carried(rs) + if r.Events? then r.events else []
  {
    assert (rs + [r])[..|rs|] == rs;
  }

  lemma TotalSnoc(cs: seq<Change>, c: Change)
    ensures TotalSize(cs + [c]) == TotalSize(cs) + SizeOf(c)
  {
    assert (cs + [c])[..|cs|] == cs;
  }

  /** A response holds at most one change, or stays below the limit. */
  predicate Bounded(cs: seq<Change>, limit: nat) {
    |cs| <= 1 || TotalSize(cs) < limit
  }

  // ---- fragments ----

  /** The last message but for others than changes was a sync. */
  predicate SyncedSince(ms: seq<Message>) {
    ms != [] && !ms[|ms| - 1].Changed? && (ms[|ms| - 1].Synced? || SyncedSince(ms[..|ms| - 1]))
  }

  /** What a watch promises: it opens first, and changes after a sync belong to later revisions. */
  ghost predicate Orderly(ms: seq<Message>) {
    forall j | 0 <= j < |ms| && Received(ms[..j]) != [] ::
      && !ms[j].Opened?
      && (ms[j].Changed? && SyncedSince(ms[..j]) ==> Last(Received(ms[..j])).modRev < ms[j].change.modRev)
  }

  function Last(cs: seq<Change>): Change
    requires cs != []
  {
    cs[|cs| - 1]
  }

  /** The change received right after those of the first i + 1 responses, if any. */
  function After(sent: seq<Response>, recv: seq<Change>, i: nat): Option<Change>
    requires i < |sent|
  {
    var n := |Carried(sent[..i + 1])|;
    if n < |recv| then Some(recv[n]) else None
  }

  /** Marked as a fragment exactly if the next change has the same revision as the last one here. */
  predicate MarkOk(fragment: bool, last: Change, next: Option<Change>) {
    fragment <==> next.Some? && next.value.modRev == last.modRev
  }

  ghost predicate Marked(sent: seq<Response>, recv: seq<Change>, i: nat)
    requires i < |sent|
  {
    sent[i].Events? && sent[i].events != [] ==> MarkOk(sent[i].fragment, Last(sent[i].events), After(sent, recv, i))
  }

  ghost predicate AllMarked(sent: seq<Response>, recv: seq<Change>) {
    forall i | 0 <= i < |sent| :: Marked(sent, recv, i)
  }

  // ---- what each message causes ----

  /** The responses to what is not a change. */
  function Called(ms: seq<Message>): seq<Response> {
    if ms == [] then []
    else
      Called(ms[..|ms| - 1]) +
      match ms[|ms| - 1]
      case Opened(r) => [Created(r)]
      case Notified(r) => [Progress(r)]
      case Compacted(r) => [Created(0), Canceled(r)]
      case _ => []
  }

  /** The responses without changes. */
  function Others(rs: seq<Response>): seq<Response> {
    if rs == [] then []
    else Others(rs[..|rs| - 1]) + if rs[|rs| - 1].Events? then [] else [rs[|rs| - 1]]
  }

  /**
   Message j makes the loop send response i. Changes go out at a sync, if there are any, or when one more would make
   them too large. They bear the revision of that message, and are all that was received before it.
   */
  ghost predicate Caused(ms: seq<Message>, sent: seq<Response>, i: nat, j: nat)
    requires i < |sent| && j < |ms|
  {
    match sent[i]
    case Created(r) => ms[j] == Opened(r) || (ms[j].Compacted? && r == 0)
    case Canceled(r) => ms[j] == Compacted(r)
    case Progress(r) => ms[j] == Notified(r)
    case Events(r, _, events) =>
      && Carried(sent[..i + 1]) == Received(ms[..j])
      && (ms[j].Changed? || (ms[j].Synced? && events != [])) && ms[j].rev == r
  }

  /** `at` says which message caused each response: one each, in order, but two for a refusal. */
  ghost predicate Answers(ms: seq<Message>, sent: seq<Response>, at: seq<nat>) {
    && |at| == |sent| && (forall i | 0 <= i < |sent| :: at[i] < |ms| && Caused(ms, sent, i, at[i]))
    && (forall i, k | 0 <= i < k < |sent| ::
          at[i] < at[k] || (at[i] == at[k] && k == i + 1 && sent[i].Created? && sent[k].Canceled?))
  }

  /** As often as there are responses. */
  function Times(n: nat, more: seq<Response>): seq<nat> { seq(|more|, _ => n) }

  // ---- when a response is full ----

  /** The last of these places before j. */
  function CutBefore(cuts: seq<nat>, j: nat): Option<nat> {
    if cuts == [] then None
    else if cuts[|cuts| - 1] < j then Some(cuts[|cuts| - 1]) else CutBefore(cuts[..|cuts| - 1], j)
  }

  /** The size reckoned before message j: of all changes from the last cut on, sent meanwhile or not. */
  function Load(ms: seq<Message>, cuts: seq<nat>, j: nat): nat
    requires j <= |ms| && forall c <- cuts :: c <= |ms|
  {
    var c := CutBefore(cuts, j);
    if c.None? then TotalSize(Received(ms[..j]))
    else if c.value <= j then TotalSize(Received(ms[c.value..j])) + META_RESPONSE + META_HEADER else 0
  }

  /** The changes that do not fit, and only they, make the loop send what it has. */
  ghost predicate CutsAt(ms: seq<Message>, limit: nat, cuts: seq<nat>, sent: seq<Response>, at: seq<nat>) {
    && |at| == |sent| && (forall c <- cuts :: c < |ms|)
    && (forall j | 0 <= j < |ms| :: j in cuts <==> ms[j].Changed? && Load(ms, cuts, j) + SizeOf(ms[j].change) >= limit)
    && (forall j | 0 <= j < |ms| && ms[j].Changed? ::
          j in cuts <==> exists i | 0 <= i < |sent| :: sent[i].Events? && at[i] == j)
  }

  /** The responses up to message j are the first k. */
  ghost predicate SentBy(at: seq<nat>, j: nat, k: nat) {
    k <= |at| && (forall i | 0 <= i < k :: at[i] <= j) && (forall i | k <= i < |at| :: at[i] > j)
  }

  /** After a sync everything received has gone out. */
  ghost predicate Flushed(ms: seq<Message>, sent: seq<Response>, at: seq<nat>) {
    |at| == |sent| &&
    forall j: nat, k: nat | j < |ms| && ms[j].Synced? && SentBy(at, j, k) :: Carried(sent[..k]) == Received(ms[..j])
  }

  // ---- the loop ----

  /** What holds between messages: nothing is lost, nothing sent is too large, fragments are marked. */
  ghost predicate Packed(ms: seq<Message>, limit: nat, rev: nat, events: seq<Change>, size: nat, sent: seq<Response>) {
    && Carried(sent) + events == Received(ms)
    && TotalSize(events) <= size && (|events| <= 1 || size < limit)
    && (forall r <- sent :: r.Events? ==> Bounded(r.events, limit))
    && (Orderly(ms) ==>
          && (events != [] ==> rev == Last(events).modRev)
          && (events == [] && Received(ms) != [] ==> SyncedSince(ms))
          && AllMarked(sent, Received(ms)))
  }

  /**
   The loop over the messages of a watch. The responses carry the received changes in order, together with those
   still pending, and each is small enough.
   */
  method Pack(ms: seq<Message>, limit: nat) returns (sent: seq<Response>, pending: seq<Change>)
    ensures Carried(sent) + pending == Received(ms)
    ensures forall r <- sent :: r.Events? ==> Bounded(r.events, limit)
    ensures Bounded(pending, limit)
    ensures ms != [] && ms[|ms| - 1].Synced? ==> pending == []
    ensures Orderly(ms) ==> AllMarked(sent, Received(ms))
    ensures Others(sent) == Called(ms)
    ensures exists at: seq<nat>, cuts: seq<nat> ::
      Answers(ms, sent, at) && CutsAt(ms, limit, cuts, sent, at) && Flushed(ms, sent, at)
  {
    hide Packed, Traced;
    var rev: nat, size: nat := 0, 0;
    ghost var at: seq<nat>, cuts: seq<nat> := [], [];
    sent, pending := [], [];
    PackedStart(limit);
    TracedStart(limit);
    for i := 0 to |ms|
      invariant Packed(ms[..i], limit, rev, pending, size, sent)
      invariant Traced(ms[..i], limit, size, sent, at, cuts)
      invariant i > 0 && ms[i - 1].Synced? ==> pending == []
    {
      assert ms[..i + 1] == ms[..i] + [ms[i]];
      match ms[i] {
        case Opened(r) =>
          PackedOther(ms[..i], limit, rev, pending, size, sent, ms[i], r, [Created(r)]);
          TracedOther(ms[..i], limit, size, sent, at, cuts, ms[i], [Created(r)]);
          rev := r;
          sent, at := sent + [Created(r)], at + Times(i, [Created(r)]);
        case Changed(r, c) =>
          var sz := SizeOf(c);
          if size + sz < limit {
            PackedFits(ms[..i], limit, rev, pending, size, sent, r, c);
            TracedFits(ms[..i], limit, size, sent, at, cuts, r, c);
            rev, pending, size := c.modRev, pending + [c], size + sz;
          } else {
            PackedEnd(ms[..i], limit, rev, pending, size, sent);
            PackedSpills(ms[..i], limit, rev, pending, size, sent, r, c);
            TracedSpills(ms[..i], limit, size, sent, at, cuts, r, c, Events(r, rev == c.modRev, pending));
            sent, at, cuts := sent + [Events(r, rev == c.modRev, pending)], at + [i], cuts + [i];
            rev, pending, size := c.modRev, [c], sz + META_RESPONSE + META_HEADER;
          }
        case Synced(r) =>
          PackedEnd(ms[..i], limit, rev, pending, size, sent);
          PackedSync(ms[..i], limit, rev, pending, size, sent, r);
          TracedSync(ms[..i], limit, size, sent, at, cuts, r, pending);
          rev := r;
          if pending != [] {
            sent, at := sent + [Events(r, false, pending)], at + [i];
            rev, pending := 0, [];
          }
        case Notified(r) =>
          PackedOther(ms[..i], limit, rev, pending, size, sent, ms[i], rev, [Progress(r)]);
          TracedOther(ms[..i], limit, size, sent, at, cuts, ms[i], [Progress(r)]);
          sent, at := sent + [Progress(r)], at + Times(i, [Progress(r)]);
        case Compacted(r) =>
          PackedOther(ms[..i], limit, rev, pending, size, sent, ms[i], rev, [Created(0), Canceled(r)]);
          TracedOther(ms[..i], limit, size, sent, at, cuts, ms[i], [Created(0), Canceled(r)]);
          sent, at := sent + [Created(0), Canceled(r)], at + Times(i, [Created(0), Canceled(r)]);
      }
    }
    assert ms[..|ms|] == ms;
    PackedEnd(ms, limit, rev, pending, size, sent);
    TracedEnd(ms, limit, size, sent, at, cuts);
  }

  lemma PackedStart(limit: nat)
    ensures Packed([], limit, 0, [], 0, [])
  {}

  lemma PackedEnd(ms: seq<Message>, limit: nat, rev: nat, events: seq<Change>, size: nat, sent: seq<Response>)
    requires Packed(ms, limit, rev, events, size, sent)
    ensures Carried(sent) + events == Received(ms) && Bounded(events, limit)
    ensures forall r <- sent :: r.Events? ==> Bounded(r.events, limit)
    ensures Orderly(ms) ==> AllMarked(sent, Received(ms))
  {}

  lemma OrderlyPrefix(ms: seq<Message>, m: Message)
    requires Orderly(ms + [m])
    ensures Orderly(ms)
    ensures Received(ms) != [] ==>
      !m.Opened? && (m.Changed? && SyncedSince(ms) ==> Last(Received(ms)).modRev < m.change.modRev)
  {
    hide SyncedSince, Received;
    var all := ms + [m];
    assert all[|ms|] == m && all[..|ms|] == ms;
    assert forall j | 0 <= j < |ms| :: all[j] == ms[j] && all[..j] == ms[..j];
  }

  lemma ReceivedSnoc(ms: seq<Message>, m: Message)
    ensures Received(ms + [m]) == Received(ms) + if m.Changed? then [m.change] else []
    ensures SyncedSince(ms + [m]) <==> !m.Changed? && (m.Synced? || SyncedSince(ms))
  {
    assert (ms + [m])[..|ms|] == ms;
  }

  /** A response keeps its mark as long as the change after it stays the same. */
  lemma MarkedKept(sent: seq<Response>, more: seq<Response>, recv: seq<Change>, i: nat)
    requires i < |sent| && Marked(sent, recv, i)
    ensures Marked(sent + more, recv, i)
  {
    assert (sent + more)[..i + 1] == sent[..i + 1];
    hide Carried;
  }

  lemma {:induction false} CarriedPrefix(sent: seq<Response>, i: nat)
    requires i <= |sent|
    ensures Carried(sent[..i]) <= Carried(sent)
  {
    if i == |sent| {
      assert sent[..i] == sent;
    } else {
      CarriedPrefix(sent[..|sent| - 1], i);
      assert sent[..|sent| - 1][..i] == sent[..i];
    }
  }

  /** What the i-th response carries ends with its own changes. */
  lemma CarriedEnds(sent: seq<Response>, i: nat)
    requires i < |sent| && sent[i].Events? && sent[i].events != []
    ensures var n := |Carried(sent[..i + 1])|;
      0 < n <= |Carried(sent)| && Carried(sent)[n - 1] == Last(sent[i].events)
  {
    CarriedPrefix(sent, i + 1);
    assert sent[..i + 1] == sent[..i] + [sent[i]];
    CarriedSnoc(sent[..i], sent[i]);
  }

  /** One more change: only a response that was the last one gets a successor. */
  lemma AfterNext(sent: seq<Response>, events: seq<Change>, recv: seq<Change>, c: Change, i: nat)
    requires i < |sent| && Carried(sent) + events == recv && sent[i].Events? && sent[i].events != []
    ensures var next := After(sent, recv, i);
      After(sent, recv + [c], i) == if next.Some? then next else Some(c)
    ensures After(sent, recv, i).None? ==> events == [] && recv != [] && Last(recv) == Last(sent[i].events)
  {
    hide Carried;
    CarriedEnds(sent, i);
    NextIn(Carried(sent), events, recv, |Carried(sent[..i + 1])|, c);
  }

  lemma NextIn(all: seq<Change>, events: seq<Change>, recv: seq<Change>, n: nat, c: Change)
    requires recv == all + events && 0 < n <= |all|
    ensures n < |recv| ==> (recv + [c])[n] == recv[n]
    ensures n >= |recv| ==> n == |recv| && events == [] && recv == all && (recv + [c])[n] == c
  {}

  lemma MarkedNext(sent: seq<Response>, events: seq<Change>, recv: seq<Change>, c: Change, i: nat)
    requires i < |sent| && Marked(sent, recv, i) && Carried(sent) + events == recv
    requires events == [] && recv != [] ==> Last(recv).modRev < c.modRev
    ensures Marked(sent, recv + [c], i)
  {
    hide Carried, After;
    if sent[i].Events? && sent[i].events != [] { AfterNext(sent, events, recv, c, i); }
  }

  lemma AllMarkedMore(sent: seq<Response>, more: seq<Response>, recv: seq<Change>)
    requires AllMarked(sent, recv) && forall r <- more :: !r.Events?
    ensures AllMarked(sent + more, recv)
  {
    hide Marked;
    forall i | 0 <= i < |sent + more| ensures Marked(sent + more, recv, i) {
      if i < |sent| {
        MarkedKept(sent, more, recv, i);
      } else {
        assert (sent + more)[i] in more;
        NotEvents(sent + more, recv, i);
      }
    }
  }

  lemma NotEvents(sent: seq<Response>, recv: seq<Change>, i: nat)
    requires i < |sent| && !sent[i].Events?
    ensures Marked(sent, recv, i)
  {}

  /** Opened, Notified and Compacted carry no changes. */
  lemma PackedOther(ms: seq<Message>, limit: nat, rev: nat, events: seq<Change>, size: nat, sent: seq<Response>,
                    m: Message, rev2: nat, more: seq<Response>)
    requires Packed(ms, limit, rev, events, size, sent) && !m.Changed? && !m.Synced?
    requires (rev2 == rev || m.Opened?) && forall r <- more :: !r.Events?
    ensures Packed(ms + [m], limit, rev2, events, size, sent + more)
  {
    hide AllMarked, Bounded, Orderly;
    ReceivedSnoc(ms, m);
    CarriedNone(sent, more);
    assert Received(ms) + [] == Received(ms);
    if Orderly(ms + [m]) {
      OrderlyPrefix(ms, m);
      AllMarkedMore(sent, more, Received(ms));
      if events != [] { assert Received(ms) != []; }
    }
  }

  lemma {:induction false} CarriedNone(sent: seq<Response>, more: seq<Response>)
    requires forall r <- more :: !r.Events?
    ensures Carried(sent + more) == Carried(sent)
  {
    if more == [] {
      assert sent + more == sent;
    } else {
      var n := |more| - 1;
      assert more[n] in more && sent + more == (sent + more[..n]) + [more[n]];
      CarriedNone(sent, more[..n]);
      CarriedSnoc(sent + more[..n], more[n]);
    }
  }

  lemma PackedFits(ms: seq<Message>, limit: nat, rev: nat, events: seq<Change>, size: nat, sent: seq<Response>,
                   r: nat, c: Change)
    requires Packed(ms, limit, rev, events, size, sent) && size + SizeOf(c) < limit
    ensures Packed(ms + [Changed(r, c)], limit, c.modRev, events + [c], size + SizeOf(c), sent)
  {
    hide Marked, Bounded, Orderly, SizeOf;
    var m := Changed(r, c);
    ReceivedSnoc(ms, m);
    TotalSnoc(events, c);
    assert Carried(sent) + (events + [c]) == Received(ms) + [c];
    if Orderly(ms + [m]) {
      OrderlyPrefix(ms, m);
      forall i | 0 <= i < |sent| ensures Marked(sent, Received(ms) + [c], i) {
        MarkedNext(sent, events, Received(ms), c, i);
      }
    }
  }

  /** A response just sent carries everything received so far. */
  lemma AfterLast(sent: seq<Response>, resp: Response, recv: seq<Change>, more: seq<Change>)
    requires resp.Events? && Carried(sent) + resp.events == recv && |more| <= 1
    ensures After(sent + [resp], recv + more, |sent|) == if more == [] then None else Some(more[0])
  {
    assert (sent + [resp])[..|sent| + 1] == sent + [resp];
    CarriedSnoc(sent, resp);
    hide Carried;
  }

  lemma MarkedSpill(sent: seq<Response>, events: seq<Change>, recv: seq<Change>, r: nat, c: Change, fragment: bool)
    requires Carried(sent) + events == recv && (events != [] ==> (fragment <==> Last(events).modRev == c.modRev))
    ensures Marked(sent + [Events(r, fragment, events)], recv + [c], |sent|)
  {
    hide Carried, After;
    AfterLast(sent, Events(r, fragment, events), recv, [c]);
  }

  lemma PackedSpills(ms: seq<Message>, limit: nat, rev: nat, events: seq<Change>, size: nat, sent: seq<Response>,
                     r: nat, c: Change)
    requires Packed(ms, limit, rev, events, size, sent)
    ensures Packed(ms + [Changed(r, c)], limit, c.modRev, [c], SizeOf(c) + META_RESPONSE + META_HEADER,
                   sent + [Events(r, rev == c.modRev, events)])
  {
    hide Marked, Orderly, SizeOf;
    var m, resp := Changed(r, c), Events(r, rev == c.modRev, events);
    ReceivedSnoc(ms, m);
    CarriedSnoc(sent, resp);
    TotalSnoc([], c);
    assert [] + [c] == [c];
    if Orderly(ms + [m]) {
      OrderlyPrefix(ms, m);
      forall i | 0 <= i < |sent + [resp]| ensures Marked(sent + [resp], Received(ms) + [c], i) {
        if i < |sent| {
          MarkedNext(sent, events, Received(ms), c, i);
          MarkedKept(sent, [resp], Received(ms) + [c], i);
        } else {
          MarkedSpill(sent, events, Received(ms), r, c, rev == c.modRev);
        }
      }
    }
  }

  lemma MarkedFlush(sent: seq<Response>, events: seq<Change>, recv: seq<Change>, r: nat)
    requires Carried(sent) + events == recv
    ensures Marked(sent + [Events(r, false, events)], recv, |sent|)
  {
    hide Carried, After;
    AfterLast(sent, Events(r, false, events), recv, []);
    assert recv + [] == recv;
  }

  lemma PackedSync(ms: seq<Message>, limit: nat, rev: nat, events: seq<Change>, size: nat, sent: seq<Response>, r: nat)
    requires Packed(ms, limit, rev, events, size, sent)
    ensures events == [] ==> Packed(ms + [Synced(r)], limit, r, [], size, sent)
    ensures events != [] ==> Packed(ms + [Synced(r)], limit, 0, [], size, sent + [Events(r, false, events)])
  {
    hide Marked, Orderly, SizeOf;
    var m, resp := Synced(r), Events(r, false, events);
    ReceivedSnoc(ms, m);
    CarriedSnoc(sent, resp);
    assert Received(ms) + [] == Received(ms) && Carried(sent + [resp]) + [] == Carried(sent) + events;
    if Orderly(ms + [m]) {
      OrderlyPrefix(ms, m);
      forall i | 0 <= i < |sent + [resp]| ensures Marked(sent + [resp], Received(ms), i) {
        if i < |sent| {
          MarkedKept(sent, [resp], Received(ms), i);
        } else {
          MarkedFlush(sent, events, Received(ms), r);
        }
      }
    }
  }

  // ---- the trace ----

  /** What holds between messages of the responses and their causes. */
  ghost predicate Traced(ms: seq<Message>, limit: nat, size: nat, sent: seq<Response>, at: seq<nat>, cuts: seq<nat>) {
    && Others(sent) == Called(ms) && Answers(ms, sent, at) && CutsAt(ms, limit, cuts, sent, at)
    && Flushed(ms, sent, at) && size == Load(ms, cuts, |ms|)
  }

  lemma TracedStart(limit: nat)
    ensures Traced([], limit, 0, [], [], [])
  {}

  lemma TracedEnd(ms: seq<Message>, limit: nat, size: nat, sent: seq<Response>, at: seq<nat>, cuts: seq<nat>)
    requires Traced(ms, limit, size, sent, at, cuts)
    ensures Others(sent) == Called(ms)
    ensures Answers(ms, sent, at) && CutsAt(ms, limit, cuts, sent, at) && Flushed(ms, sent, at)
  {}

  lemma CausedKept(ms: seq<Message>, m: Message, sent: seq<Response>, more: seq<Response>, i: nat, j: nat)
    requires i < |sent| && j < |ms| && Caused(ms, sent, i, j)
    ensures Caused(ms + [m], sent + more, i, j)
  {
    hide Carried, Received;
    assert (ms + [m])[..j] == ms[..j] && (ms + [m])[j] == ms[j];
    assert (sent + more)[..i + 1] == sent[..i + 1] && (sent + more)[i] == sent[i];
  }

  lemma AnswersNext(ms: seq<Message>, m: Message, sent: seq<Response>, at: seq<nat>, more: seq<Response>)
    requires Answers(ms, sent, at) && |more| <= 2 && (|more| == 2 ==> more[0].Created? && more[1].Canceled?)
    requires forall i | |sent| <= i < |sent + more| :: Caused(ms + [m], sent + more, i, |ms|)
    ensures Answers(ms + [m], sent + more, at + Times(|ms|, more))
  {
    hide Caused;
    var a := at + Times(|ms|, more);
    forall i | 0 <= i < |sent + more| ensures a[i] < |ms + [m]| && Caused(ms + [m], sent + more, i, a[i]) {
      if i < |sent| { CausedKept(ms, m, sent, more, i, at[i]); }
    }
    forall i, k | 0 <= i < k < |sent + more| ensures a[i] < a[k] ||
      (a[i] == a[k] && k == i + 1 && (sent + more)[i].Created? && (sent + more)[k].Canceled?)
    {
      if i < |sent| && k < |sent| { assert (sent + more)[i] == sent[i] && (sent + more)[k] == sent[k]; }
    }
  }

  lemma CalledSnoc(ms: seq<Message>, m: Message)
    ensures Called(ms + [m]) == Called(ms) + Called([m])
  {
    assert (ms + [m])[..|ms|] == ms && [m][..0] == [];
    assert Called([]) == [];
  }

  lemma {:induction false} OthersJoin(p: seq<Response>, q: seq<Response>)
    ensures Others(p + q) == Others(p) + Others(q)
  {
    if q == [] {
      assert p + q == p;
    } else {
      var n := |q| - 1;
      assert (p + q)[..|p| + n] == p + q[..n];
      OthersJoin(p, q[..n]);
    }
  }

  lemma OthersCalled(m: Message, more: seq<Response>)
    requires match m
      case Opened(r) => more == [Created(r)]
      case Notified(r) => more == [Progress(r)]
      case Compacted(r) => more == [Created(0), Canceled(r)]
      case _ => more == [] || (|more| == 1 && more[0].Events?)
    ensures Others(more) == Called([m])
  {
    CalledOne(m);
    hide Called;
    if m.Compacted? {
      OthersOne(more[0]);
      OthersOne(more[1]);
      OthersJoin([more[0]], [more[1]]);
      assert more == [more[0]] + [more[1]];
    } else if |more| == 1 {
      OthersOne(more[0]);
      assert more == [more[0]];
    }
  }

  lemma CalledOne(m: Message)
    ensures Called([m]) ==
      match m
      case Opened(r) => [Created(r)]
      case Notified(r) => [Progress(r)]
      case Compacted(r) => [Created(0), Canceled(r)]
      case _ => []
  {
    assert [m][..0] == [] && Called([]) == [];
  }

  lemma OthersOne(r: Response)
    ensures Others([r]) == if r.Events? then [] else [r]
  {
    assert [r][..0] == [] && Others([]) == [];
  }

  // ---- cuts ----

  lemma {:induction false} CutBeforeSnoc(cuts: seq<nat>, c: nat, j: nat)
    ensures CutBefore(cuts + [c], j) == if c < j then Some(c) else CutBefore(cuts, j)
  {
    assert (cuts + [c])[..|cuts|] == cuts;
  }

  lemma {:induction false} CutBeforeBound(cuts: seq<nat>, j: nat)
    ensures CutBefore(cuts, j).Some? ==> CutBefore(cuts, j).value < j && CutBefore(cuts, j).value in cuts
  {
    if cuts != [] { CutBeforeBound(cuts[..|cuts| - 1], j); }
  }

  lemma {:induction false} CutBeforeNext(cuts: seq<nat>, j: nat)
    requires forall c <- cuts :: c < j
    ensures CutBefore(cuts, j + 1) == CutBefore(cuts, j)
  {
    if cuts != [] { assert cuts[|cuts| - 1] in cuts; }
  }

  lemma LoadKept(ms: seq<Message>, m: Message, cuts: seq<nat>, j: nat)
    requires j <= |ms| && forall c <- cuts :: c < |ms|
    ensures Load(ms + [m], cuts, j) == Load(ms, cuts, j)
  {
    hide TotalSize, Received, CutBefore;
    CutBeforeBound(cuts, j);
    var c := CutBefore(cuts, j);
    assert (ms + [m])[..j] == ms[..j];
    if c.Some? { assert (ms + [m])[c.value..j] == ms[c.value..j]; }
  }

  lemma LoadCut(ms: seq<Message>, cuts: seq<nat>, c: nat, j: nat)
    requires j <= c < |ms| && forall x <- cuts :: x < |ms|
    ensures Load(ms, cuts + [c], j) == Load(ms, cuts, j)
  {
    hide TotalSize, Received, CutBefore;
    CutBeforeSnoc(cuts, c, j);
  }

  lemma ReceivedGrows(ms: seq<Message>, m: Message, c: nat)
    requires c <= |ms|
    ensures TotalSize(Received((ms + [m])[c..])) ==
      TotalSize(Received(ms[c..])) + if m.Changed? then SizeOf(m.change) else 0
  {
    assert (ms + [m])[c..] == ms[c..] + [m];
    ReceivedSnoc(ms[c..], m);
    hide Received, TotalSize, SizeOf;
    if m.Changed? {
      TotalSnoc(Received(ms[c..]), m.change);
    } else {
      assert Received(ms[c..]) + [] == Received(ms[c..]);
    }
  }

  /** A change that fits adds its size, and nothing else adds any. */
  lemma LoadGrows(ms: seq<Message>, m: Message, cuts: seq<nat>)
    requires forall c <- cuts :: c < |ms|
    ensures Load(ms + [m], cuts, |ms| + 1) == Load(ms, cuts, |ms|) + if m.Changed? then SizeOf(m.change) else 0
  {
    hide TotalSize, Received, CutBefore, SizeOf;
    CutBeforeNext(cuts, |ms|);
    CutBeforeBound(cuts, |ms|);
    var all, b := ms + [m], CutBefore(cuts, |ms|);
    var c := if b.Some? then b.value else 0;
    ReceivedGrows(ms, m, c);
    assert all[..|ms| + 1] == all && all[c..|ms| + 1] == all[c..] && ms[..|ms|] == ms && ms[c..|ms|] == ms[c..];
    if b.None? { assert all[0..] == all && ms[0..] == ms; }
  }

  lemma LoadAnew(ms: seq<Message>, m: Message, cuts: seq<nat>)
    requires (forall c <- cuts :: c < |ms|) && m.Changed?
    ensures Load(ms + [m], cuts + [|ms|], |ms| + 1) == SizeOf(m.change) + META_RESPONSE + META_HEADER
  {
    hide TotalSize, Received, CutBefore, SizeOf;
    CutBeforeSnoc(cuts, |ms|, |ms| + 1);
    ReceivedGrows(ms, m, |ms|);
    NothingLoads();
    assert (ms + [m])[|ms|..|ms| + 1] == (ms + [m])[|ms|..] && ms[|ms|..] == [];
  }

  lemma NothingLoads()
    ensures Received([]) == [] && TotalSize([]) == 0 && TotalSize(Received([])) == 0
  {}

  lemma CutsNext(ms: seq<Message>, m: Message, limit: nat, cuts: seq<nat>, sent: seq<Response>, at: seq<nat>,
                 more: seq<Response>)
    requires CutsAt(ms, limit, cuts, sent, at) && (forall i | 0 <= i < |at| :: at[i] < |ms|)
    requires m.Changed? ==> Load(ms, cuts, |ms|) + SizeOf(m.change) < limit && more == []
    ensures CutsAt(ms + [m], limit, cuts, sent + more, at + Times(|ms|, more))
  {
    hide Load, SizeOf;
    var all, rs, a := ms + [m], sent + more, at + Times(|ms|, more);
    forall j | 0 <= j < |all|
      ensures j in cuts <==> all[j].Changed? && Load(all, cuts, j) + SizeOf(all[j].change) >= limit
    {
      LoadKept(ms, m, cuts, j);
      if j < |ms| { assert all[j] == ms[j]; }
    }
    forall j | 0 <= j < |all| && all[j].Changed?
      ensures j in cuts <==> exists i | 0 <= i < |rs| :: rs[i].Events? && a[i] == j
    {
      if j < |ms| {
        assert all[j] == ms[j];
        CauseKept(sent, at, more, |ms|, j);
      } else {
        assert more == [] && rs == sent && a == at;
      }
    }
  }

  /** Later responses have later causes. */
  lemma CauseKept(sent: seq<Response>, at: seq<nat>, more: seq<Response>, n: nat, j: nat)
    requires |at| == |sent| && j < n
    ensures var rs, a := sent + more, at + Times(n, more);
      (exists i | 0 <= i < |rs| :: rs[i].Events? && a[i] == j) <==>
      exists i | 0 <= i < |sent| :: sent[i].Events? && at[i] == j
  {
    var rs, a := sent + more, at + Times(n, more);
    if i :| 0 <= i < |rs| && rs[i].Events? && a[i] == j { assert i < |sent| && rs[i] == sent[i] && a[i] == at[i]; }
    if i :| 0 <= i < |sent| && sent[i].Events? && at[i] == j { assert rs[i] == sent[i] && a[i] == at[i]; }
  }

  lemma CutsMore(ms: seq<Message>, m: Message, limit: nat, cuts: seq<nat>, sent: seq<Response>, at: seq<nat>,
                 resp: Response)
    requires CutsAt(ms, limit, cuts, sent, at)
    requires m.Changed? && Load(ms, cuts, |ms|) + SizeOf(m.change) >= limit && resp.Events?
    ensures CutsAt(ms + [m], limit, cuts + [|ms|], sent + [resp], at + Times(|ms|, [resp]))
  {
    hide Load, SizeOf;
    var all, rs, a, cs := ms + [m], sent + [resp], at + Times(|ms|, [resp]), cuts + [|ms|];
    forall j | 0 <= j < |all|
      ensures j in cs <==> all[j].Changed? && Load(all, cs, j) + SizeOf(all[j].change) >= limit
    {
      LoadKept(ms, m, cuts, j);
      LoadCut(all, cuts, |ms|, j);
      if j < |ms| { assert all[j] == ms[j]; }
    }
    forall j | 0 <= j < |all| && all[j].Changed?
      ensures j in cs <==> exists i | 0 <= i < |rs| :: rs[i].Events? && a[i] == j
    {
      if j < |ms| {
        assert all[j] == ms[j];
        CauseKept(sent, at, [resp], |ms|, j);
      } else {
        assert rs[|sent|] == resp && a[|sent|] == j;
      }
    }
  }

  // ---- syncs ----

  lemma FlushedNext(ms: seq<Message>, m: Message, sent: seq<Response>, at: seq<nat>, more: seq<Response>)
    requires Flushed(ms, sent, at) && (forall i | 0 <= i < |at| :: at[i] < |ms|)
    requires m.Synced? ==> Carried(sent + more) == Received(ms)
    ensures Flushed(ms + [m], sent + more, at + Times(|ms|, more))
  {
    hide Carried, Received;
    var all, rs, a := ms + [m], sent + more, at + Times(|ms|, more);
    forall j: nat, k: nat | j < |all| && all[j].Synced? && SentBy(a, j, k)
      ensures Carried(rs[..k]) == Received(all[..j])
    {
      assert all[..j] == ms[..j];
      if j < |ms| {
        SentEarlier(at, more, |ms|, j, k);
        assert rs[..k] == sent[..k] && all[j] == ms[j];
      } else {
        SentAll(a, j, k);
        assert rs[..k] == rs && ms[..j] == ms;
      }
    }
  }

  lemma SentEarlier(at: seq<nat>, more: seq<Response>, n: nat, j: nat, k: nat)
    requires (forall i | 0 <= i < |at| :: at[i] < n) && j < n && SentBy(at + Times(n, more), j, k)
    ensures k <= |at| && SentBy(at, j, k)
  {
    var a := at + Times(n, more);
    assert more != [] ==> a[|at|] == n;
    forall i | 0 <= i < |at| ensures a[i] == at[i] {}
  }

  lemma SentAll(a: seq<nat>, j: nat, k: nat)
    requires SentBy(a, j, k) && forall i | 0 <= i < |a| :: a[i] <= j
    ensures k == |a|
  {
    if a != [] { assert a[|a| - 1] <= j; }
  }

  // ---- each message ----

  lemma AnswersBound(ms: seq<Message>, sent: seq<Response>, at: seq<nat>)
    requires Answers(ms, sent, at)
    ensures |at| == |sent| && forall i | 0 <= i < |at| :: at[i] < |ms|
  {}

  lemma TracedNext(ms: seq<Message>, limit: nat, size: nat, sent: seq<Response>, at: seq<nat>, cuts: seq<nat>,
                   m: Message, more: seq<Response>)
    requires Traced(ms, limit, size, sent, at, cuts)
    requires |more| <= 2 && (|more| == 2 ==> more[0].Created? && more[1].Canceled?)
    requires forall i | |sent| <= i < |sent + more| :: Caused(ms + [m], sent + more, i, |ms|)
    requires Others(more) == Called([m])
    requires m.Changed? ==> size + SizeOf(m.change) < limit && more == []
    requires m.Synced? ==> Carried(sent + more) == Received(ms)
    ensures Traced(ms + [m], limit, size + if m.Changed? then SizeOf(m.change) else 0, sent + more,
                   at + Times(|ms|, more), cuts)
  {
    hide Others, Called, Answers, Load, Flushed, Caused, SizeOf, Carried, Received;
    AnswersBound(ms, sent, at);
    AnswersNext(ms, m, sent, at, more);
    CalledSnoc(ms, m);
    OthersJoin(sent, more);
    CutsNext(ms, m, limit, cuts, sent, at, more);
    LoadGrows(ms, m, cuts);
    FlushedNext(ms, m, sent, at, more);
  }

  lemma TracedOther(ms: seq<Message>, limit: nat, size: nat, sent: seq<Response>, at: seq<nat>, cuts: seq<nat>,
                    m: Message, more: seq<Response>)
    requires Traced(ms, limit, size, sent, at, cuts)
    requires match m
      case Opened(r) => more == [Created(r)]
      case Notified(r) => more == [Progress(r)]
      case Compacted(r) => more == [Created(0), Canceled(r)]
      case _ => false
    ensures Traced(ms + [m], limit, size, sent + more, at + Times(|ms|, more), cuts)
  {
    hide Traced;
    OthersCalled(m, more);
    TracedNext(ms, limit, size, sent, at, cuts, m, more);
  }

  lemma TracedFits(ms: seq<Message>, limit: nat, size: nat, sent: seq<Response>, at: seq<nat>, cuts: seq<nat>,
                   r: nat, c: Change)
    requires Traced(ms, limit, size, sent, at, cuts) && size + SizeOf(c) < limit
    ensures Traced(ms + [Changed(r, c)], limit, size + SizeOf(c), sent, at, cuts)
  {
    hide Traced, SizeOf;
    OthersCalled(Changed(r, c), []);
    assert sent + [] == sent;
    TracedNext(ms, limit, size, sent, at, cuts, Changed(r, c), []);
    assert at + Times(|ms|, []) == at;
  }

  lemma EventsCaused(ms: seq<Message>, m: Message, sent: seq<Response>, resp: Response)
    requires resp.Events? && Carried(sent) + resp.events == Received(ms)
    requires (m.Changed? || (m.Synced? && resp.events != [])) && m.rev == resp.rev
    ensures Caused(ms + [m], sent + [resp], |sent|, |ms|) && Carried(sent + [resp]) == Received(ms)
  {
    CarriedSnoc(sent, resp);
    hide Carried, Received;
    assert (sent + [resp])[..|sent| + 1] == sent + [resp] && (ms + [m])[..|ms|] == ms;
  }

  lemma TracedSpills(ms: seq<Message>, limit: nat, size: nat, sent: seq<Response>, at: seq<nat>, cuts: seq<nat>,
                     r: nat, c: Change, resp: Response)
    requires Traced(ms, limit, size, sent, at, cuts) && size + SizeOf(c) >= limit
    requires resp.Events? && resp.rev == r && Carried(sent) + resp.events == Received(ms)
    ensures Traced(ms + [Changed(r, c)], limit, SizeOf(c) + META_RESPONSE + META_HEADER, sent + [resp], at + [|ms|],
                   cuts + [|ms|])
  {
    hide Others, Called, Answers, Load, Flushed, Caused, SizeOf, Carried, Received;
    var m := Changed(r, c);
    EventsCaused(ms, m, sent, resp);
    OthersCalled(m, [resp]);
    AnswersBound(ms, sent, at);
    AnswersNext(ms, m, sent, at, [resp]);
    CalledSnoc(ms, m);
    OthersJoin(sent, [resp]);
    CutsMore(ms, m, limit, cuts, sent, at, resp);
    LoadAnew(ms, m, cuts);
    FlushedNext(ms, m, sent, at, [resp]);
    assert Times(|ms|, [resp]) == [|ms|];
  }

  lemma TracedSync(ms: seq<Message>, limit: nat, size: nat, sent: seq<Response>, at: seq<nat>, cuts: seq<nat>,
                   r: nat, events: seq<Change>)
    requires Traced(ms, limit, size, sent, at, cuts) && Carried(sent) + events == Received(ms)
    ensures events == [] ==> Traced(ms + [Synced(r)], limit, size, sent, at, cuts)
    ensures events != [] ==>
      Traced(ms + [Synced(r)], limit, size, sent + [Events(r, false, events)], at + [|ms|], cuts)
  {
    hide Traced, Carried, Received, Caused;
    var m, resp := Synced(r), Events(r, false, events);
    if events == [] {
      OthersCalled(m, []);
      assert sent + [] == sent && Carried(sent) + [] == Carried(sent);
      TracedNext(ms, limit, size, sent, at, cuts, m, []);
      assert at + Times(|ms|, []) == at;
    } else {
      EventsCaused(ms, m, sent, resp);
      OthersCalled(m, [resp]);
      TracedNext(ms, limit, size, sent, at, cuts, m, [resp]);
      assert Times(|ms|, [resp]) == [|ms|];
    }
  }

  // ---- a response without changes ----

  lemma CutSends(ms: seq<Message>, limit: nat, sent: seq<Response>, at: seq<nat>, cuts: seq<nat>, j: nat)
    returns (i: nat)
    requires CutsAt(ms, limit, cuts, sent, at) && j < |ms| && ms[j].Changed?
    requires Load(ms, cuts, j) + SizeOf(ms[j].change) >= limit
    ensures i < |sent| && |at| == |sent| && sent[i].Events? && at[i] == j
  {
    hide Load, SizeOf;
    assert j in cuts;
    i :| 0 <= i < |sent| && sent[i].Events? && at[i] == j;
  }

  /** Before changes go out, everything sent was caused earlier. */
  lemma SentBefore(ms: seq<Message>, sent: seq<Response>, at: seq<nat>, i: nat)
    requires Answers(ms, sent, at) && i < |sent| && sent[i].Events? && at[i] > 0
    ensures at[i] < |ms| && Caused(ms, sent, i, at[i]) && SentBy(at, at[i] - 1, i)
  {
    hide Caused;
    forall k | i <= k < |at| ensures at[k] > at[i] - 1 { assert i == k || at[i] <= at[k]; }
  }

  lemma FlushedAt(ms: seq<Message>, sent: seq<Response>, at: seq<nat>, j: nat, k: nat)
    requires Flushed(ms, sent, at) && j < |ms| && ms[j].Synced? && SentBy(at, j, k)
    ensures k <= |sent| && Carried(sent[..k]) == Received(ms[..j])
  {
    hide Carried, Received;
  }

  /**
   A sync sends what there is but does not start the size anew. So a change right after it that
   does not fit is preceded by a response without changes.
   */
  lemma EmptyAfterSync(ms: seq<Message>, limit: nat, sent: seq<Response>, at: seq<nat>, cuts: seq<nat>, j: nat)
    returns (i: nat)
    requires Answers(ms, sent, at) && CutsAt(ms, limit, cuts, sent, at) && Flushed(ms, sent, at)
    requires 0 < j < |ms| && ms[j - 1].Synced? && ms[j].Changed?
    requires Load(ms, cuts, j) + SizeOf(ms[j].change) >= limit
    ensures i < |sent| && |at| == |sent| && at[i] == j
    ensures sent[i].Events? && sent[i].rev == ms[j].rev && sent[i].events == []
  {
    hide Answers, CutsAt, Flushed, SentBy, Carried, Received, Load, SizeOf;
    i := CutSends(ms, limit, sent, at, cuts, j);
    SentBefore(ms, sent, at, i);
    FlushedAt(ms, sent, at, j - 1, i);
    assert ms[..j] == ms[..j - 1] + [ms[j - 1]] && sent[..i + 1] == sent[..i] + [sent[i]];
    ReceivedSnoc(ms[..j - 1], ms[j - 1]);
    CarriedSnoc(sent[..i], sent[i]);
  }

  lemma OneReceived(r: nat, c: Change, s: nat)
    ensures TotalSize(Received([])) == 0 && TotalSize(Received([Changed(r, c), Synced(s)])) == SizeOf(c)
  {
    hide Received, TotalSize, SizeOf, SyncedSince;
    var m: Message := Changed(r, c);
    NothingLoads();
    ReceivedSnoc([], m);
    ReceivedSnoc([m], Synced(s));
    TotalSnoc([], c);
    assert [] + [m] == [m] && [m] + [Synced(s)] == [m, Synced(s)] && [] + [c] == [c] && [c] + [] == [c];
  }

  /** That happens: two changes with a sync in between, and room for just the first. */
  lemma EmptySent(c: Change, d: Change, sent: seq<Response>, at: seq<nat>, cuts: seq<nat>) returns (i: nat)
    requires var ms := [Changed(2, c), Synced(2), Changed(3, d)];
      Answers(ms, sent, at) && CutsAt(ms, SizeOf(c) + 1, cuts, sent, at) && Flushed(ms, sent, at)
    ensures i < |sent| && sent[i].Events? && sent[i].rev == 3 && sent[i].events == []
  {
    hide Received, TotalSize, CutBefore, Answers, Flushed, Carried;
    var ms := [Changed(2, c), Synced(2), Changed(3, d)];
    OneReceived(2, c, 2);
    assert ms[..0] == [] && ms[..2] == [Changed(2, c), Synced(2)];
    CutBeforeBound(cuts, 0);
    CutBeforeBound(cuts, 2);
    assert Load(ms, cuts, 0) == 0;
    assert 0 !in cuts && 1 !in cuts;
    assert Load(ms, cuts, 2) == SizeOf(c);
    hide Load, CutsAt;
    i := EmptyAfterSync(ms, SizeOf(c) + 1, sent, at, cuts, 2);
  }
}
