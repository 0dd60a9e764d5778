/**
 What the event log is worth to a watcher: what the read behind an event gives, and
 that a command logs events only for the keys it reports.
 */
module EventLaws {
  import opened Base
  import opened KeyRev
  import opened KvCodec
  import opened History
  import opened LeaseTables
  import opened DbKvs
  import opened Machine
  import opened Invariants
  import opened Snapshots
  import opened LeaseLaws
  import opened Growth
  import WatchProtocol

  // ---- one put per key and revision ----

  /** Under one revision a key has at most one put, and below it at most one tombstone. */
  ghost predicate Once(vs: Versions) {
    && (forall i, j | 0 <= i < j < |vs| && RevOf(vs[i]).upper == RevOf(vs[j]).upper :: vs[i].Live? && vs[j].Tomb?)
    && (forall v <- vs :: RevOf(v).upper > 0)
  }

  ghost predicate AllOnce(h: map<bytes, Versions>) {
    forall k <- h :: Once(h[k])
  }

  lemma OncePush(v: Version, vs: Versions)
    requires Once(vs) && Descending(vs) && (forall w <- vs :: RevOf(w).upper <= RevOf(v).upper)
    requires vs != [] && RevOf(vs[0]).upper == RevOf(v).upper ==> v.Live? && vs[0].Tomb?
    requires RevOf(v).upper > 0
    ensures Once([v] + vs)
  {
    var ws := [v] + vs;
    forall j | 1 <= j < |vs| ensures RevOf(vs[j]).upper < RevOf(v).upper {
      assert vs[0] in vs && vs[j] in vs && Older(RevOf(vs[j]), RevOf(vs[0]));
    }
    forall i, j | 0 <= i < j < |ws| && RevOf(ws[i]).upper == RevOf(ws[j]).upper ensures ws[i].Live? && ws[j].Tomb? {
      assert ws[j] == vs[j - 1];
      if i > 0 { assert ws[i] == vs[i - 1]; }
    }
  }

  lemma PushOnce(s: Store, epoch: nat, key: bytes, v: Version, next: Rev)
    requires Good(s) && AllOnce(s.hist) && AllOlder(s, next) && next.upper == RevOf(v).upper > 0
    requires var vs := Lookup(s.hist, key);
      vs != [] && RevOf(vs[0]).upper == RevOf(v).upper ==> v.Live? && vs[0].Tomb?
    ensures AllOnce(Push(s, epoch, key, v).hist)
  {
    var vs := Lookup(s.hist, key);
    if key in s.hist { assert GoodVersions(key, vs); }
    forall w | w in vs ensures RevOf(w).upper <= RevOf(v).upper { assert Older(RevOf(w), next); }
    OncePush(v, vs);
    hide Once;
    var t := Push(s, epoch, key, v);
    forall k | k in t.hist ensures Once(t.hist[k]) {
      if k != key { assert t.hist[k] == s.hist[k]; }
    }
  }

  lemma CmdPutOnce(s: State, rev: nat, sub: nat, q: PutReq, f: Flags)
    requires rev > 0 && Good(s.store) && AllOlder(s.store, Rev(rev, sub, false)) && AllOnce(s.store.hist)
    requires !f.multiWrite
    requires CmdPut(s, rev, sub, q, f).Did?
    ensures AllOnce(CmdPut(s, rev, sub, q, f).s.store.hist)
  {
    var a := ArgsOf(s, rev, sub, q);
    HeadCurrent(s.store.hist, q.key);
    hide Good, AllOlder, AllOnce, Push, Attach, Current;
    PushOnce(s.store, a.epoch, a.key, Live(Written(s.store, a), a.lease), Rev(rev, sub, false));
  }

  lemma {:induction false} DeleteAllOnce(s: Store, epoch: nat, ks: seq<bytes>, rev: nat, sub: nat)
    requires rev > 0 && Good(s) && AllOlder(s, Rev(rev, sub, false)) && Packable(Rev(rev, sub, true)) && AllOnce(s.hist)
    requires !WrittenAt(s, ks, rev)
    ensures AllOnce(DeleteAll(s, epoch, ks, Rev(rev, sub, true)).hist)
  {
    if ks != [] {
      var n, tomb := |ks| - 1, Rev(rev, sub, true);
      assert ks == ks[..n] + [ks[n]];
      DeleteAllOnce(s, epoch, ks[..n], rev, sub);
      var t := DeleteAll(s, epoch, ks[..n], tomb);
      DeleteStoreKeeps(s, epoch, ks[..n], rev, sub);
      DeleteAllLive(s, epoch, ks[..n], tomb, ks[n]);
      HeadCurrent(t.hist, ks[n]);
      HeadCurrent(s.hist, ks[n]);
      hide Good, AllOlder, AllOnce, Push, Current;
      if Current(t.hist, ks[n]).Some? {
        assert ks[n] in ks;
        PushOnce(t, epoch, ks[n], Tomb(tomb), Rev(rev, sub + 1, false));
      }
    }
  }

  lemma CmdDeleteOnce(s: State, rev: nat, sub: nat, q: DeleteReq, f: Flags)
    requires rev > 0 && Good(s.store) && AllOlder(s.store, Rev(rev, sub, false)) && Packable(Rev(rev, sub, true))
    requires AllOnce(s.store.hist) && !f.multiWrite && CmdDeleteRange(s, rev, sub, q, f).Did?
    ensures AllOnce(CmdDeleteRange(s, rev, sub, q, f).s.store.hist)
  {
    hide Good, AllOlder, AllOnce, DeleteAll, DeleteKeys, Doomed, Detach, PrevReads, WrittenAt;
    DeleteAllOnce(s.store, s.book.epoch, DeleteKeys(s.store.keys, q.key, q.end), rev, sub);
  }

  lemma {:induction false} RunOpsOnce(s: State, rev: nat, ops: seq<TxnOp>, f: Flags)
    requires Core(s, Rev(rev, 0, false)) && 0 < rev < UPPER_LIMIT && OpsOk(ops) && AllOnce(s.store.hist)
    requires !f.multiWrite
    requires RunOps(s, rev, ops, f).error.None?
    ensures AllOnce(RunOps(s, rev, ops, f).s.store.hist)
  {
    hide Good, AllOlder, RowsOk, AllOnce, CmdPut, CmdDeleteRange, QueryRange;
    if ops != [] {
      var n := |ops| - 1;
      RunOpsOnce(s, rev, ops[..n], f);
      RunOpsKeeps(s, rev, ops[..n], f);
      var p := RunOps(s, rev, ops[..n], f);
      match ops[n]
      case OpPut(q) => CmdPutOnce(p.s, rev, n, q, f);
      case OpDelete(q) => CmdDeleteOnce(p.s, rev, n, q, f);
      case _ =>
    }
  }

  lemma ExecRevokeOnce(s: State, id: nat)
    requires Inv(s) && s.rev + 1 < UPPER_LIMIT && AllOnce(s.store.hist) && ExecRevoke(s, id).Next?
    ensures AllOnce(ExecRevoke(s, id).s.store.hist)
  {
    hide Inv, AllOnce, ExecRevoke, LeaseKeys, DeleteAll, Good, AllOlder, WrittenAt, RowsWithout, Dropped, Bump;
    InvOlder(s);
    RevokeStore(s, id);
    if id in s.book.leases {
      NotYetWritten(s.store, LeaseKeys(s, id), s.rev + 1);
      DeleteAllOnce(s.store, s.book.epoch, LeaseKeys(s, id), s.rev + 1, 0);
    }
  }

  lemma {:induction false} ExpireOnce(s: State, due: seq<bytes>)
    requires Inv(s) && AllOnce(s.store.hist) && (forall row <- due :: |row| >= 9)
    requires Expire(s, due).Next? && Expire(s, due).s.rev + 1 < UPPER_LIMIT
    ensures AllOnce(Expire(s, due).s.store.hist)
  {
    hide Inv, AllOnce, ExecRevoke;
    if due != [] {
      var n := |due| - 1;
      var t := Expire(s, due[..n]).s;
      ExecRevokeGrows(t, ExpId(due[n]));
      ExpireKeeps(s, due[..n]);
      ExpireOnce(s, due[..n]);
      ExecRevokeOnce(t, ExpId(due[n]));
    }
  }

  lemma ExecTickOnce(s: State, term: nat)
    requires Inv(s) && AllOnce(s.store.hist) && ExecTick(s, term).Next? && Room(ExecTick(s, term).s)
    ensures AllOnce(ExecTick(s, term).s.store.hist)
  {
    hide Inv, AllOnce, Expire, Due;
    if s.term <= term {
      var t := s.(book := Ticked(s.book));
      InvFrame(s, t);
      ExpireOnce(t, Due(t.book.exp, t.book.epoch));
    }
  }

  lemma OncePrefix(vs: Versions, n: nat)
    requires Once(vs) && n <= |vs|
    ensures Once(vs[..n])
  {}

  lemma CompactedOnce(s: Store, k: bytes, max: nat)
    requires Good(s) && AllOnce(s.hist) && k in s.hist
    ensures Once(CompactVersions(s.hist[k], LastBelow(s.evts, k, max)))
  {
    var last := LastBelow(s.evts, k, max);
    if last.Some? {
      assert GoodVersions(k, s.hist[k]);
      KeepFromMembers(s.hist[k], last.value);
      var ws := KeepFrom(s.hist[k], last.value);
      assert ws == s.hist[k][..|ws|];
      OncePrefix(s.hist[k], |ws|);
    }
  }

  lemma CompactOnce(s: Store, max: nat)
    requires Good(s) && AllOnce(s.hist)
    ensures AllOnce(Compact(s, max).hist)
  {
    hide Good, Once, CompactVersions, LastBelow, EventsFrom;
    forall k | k in s.hist
      ensures Once(CompactVersions(s.hist[k], LastBelow(s.evts, k, max)))
    {
      CompactedOnce(s, k, max);
    }
  }

  lemma ExecTxnOnce(s: State, c: Cmd, f: Flags)
    requires Inv(s) && Room(s) && AllOnce(s.store.hist) && !f.multiWrite && c.TxnCmd? && CmdOk(c)
    requires ExecTxn(s, c, f).Next?
    ensures AllOnce(ExecTxn(s, c, f).s.store.hist)
  {
    hide Core, Leasing, AllOnce, RunOps, CompareAll;
    var ops := if CompareAll(s.store.hist, c.compare).value then c.success else c.failure;
    if RunOps(s, s.rev + 1, ops, f).error.None? { RunOpsOnce(s, s.rev + 1, ops, f); }
  }

  lemma ExecPutOnce(s: State, q: PutReq, f: Flags)
    requires Inv(s) && AllOnce(s.store.hist) && !f.multiWrite && ExecPut(s, q, f).Next?
    ensures AllOnce(ExecPut(s, q, f).s.store.hist)
  {
    hide Inv, Good, AllOlder, AllOnce, CmdPut, Answerable;
    InvOlder(s);
    var r := CmdPut(s, s.rev + 1, 0, q, f);
    if r.Did? { CmdPutOnce(s, s.rev + 1, 0, q, f); }
  }

  lemma ExecDeleteOnce(s: State, q: DeleteReq, f: Flags)
    requires Inv(s) && Room(s) && AllOnce(s.store.hist) && !f.multiWrite && ExecDelete(s, q, f).Next?
    ensures AllOnce(ExecDelete(s, q, f).s.store.hist)
  {
    hide Inv, Good, AllOlder, AllOnce, CmdDeleteRange;
    InvOlder(s);
    CmdDeleteOnce(s, s.rev + 1, 0, q, f);
  }

  lemma RoomRevision(s: State)
    requires Room(s)
    ensures s.rev + 1 < UPPER_LIMIT
  {}

  lemma ExecOnce(s: State, c: Cmd, f: Flags)
    requires Inv(s) && AllOnce(s.store.hist) && !f.multiWrite && CmdOk(c) && Exec(s, c, f).Next?
    requires Room(Exec(s, c, f).s)
    ensures AllOnce(Exec(s, c, f).s.store.hist)
  {
    hide Inv, Good, AllOlder, AllOnce, ExecPut, ExecDelete, ExecTxn, ExecTick, ExecRevoke;
    hide ExecCompact, Compact, Room, CmdOk;
    assert Room(s) by { RoomBefore(s, c, f); }
    match c
    case PutCmd(q) => ExecPutOnce(s, q, f);
    case DeleteCmd(q) => ExecDeleteOnce(s, q, f);
    case TxnCmd(_, _, _) => ExecTxnOnce(s, c, f);
    case RevokeCmd(id) =>
      RoomRevision(s);
      ExecRevokeOnce(s, U64(id));
    case TickCmd(term) => ExecTickOnce(s, term);
    case CompactCmd(max) =>
      InvOlder(s);
      CompactStep(s, c, f);
      CompactOnce(s.store, max);
    case _ => ExecBookStore(s, c, f);
  }

  /** With multi-write off, every run writes a key at most once per revision. */
  lemma {:induction false} RunOnce(s: State, es: seq<Entry>, f: Flags)
    requires Inv(s) && AllOnce(s.store.hist) && !f.multiWrite && EntriesOk(es)
    requires Run(s, es, f).Batch? && Room(Run(s, es, f).s)
    ensures AllOnce(Run(s, es, f).s.store.hist)
  {
    hide Inv, AllOnce, Exec;
    if es != [] {
      var n := |es| - 1;
      var t := Run(s, es[..n], f).s;
      assert es[n] in es;
      StepGrows(t, es[n], f);
      RunKeeps(s, es[..n], f);
      RunOnce(s, es[..n], f);
      ExecOnce(t, es[n].cmd, f);
    }
  }

  // ---- the pair behind an event ----

  /** A pair too short to be read back lies in the unbroken stretch of pairs from here up. */
  ghost predicate Blocked(vs: Versions, i: nat)
    requires i < |vs|
  {
    exists j | 0 <= j <= i :: vs[j].Live? && Short(vs[j].kv) && AllLive(vs, j, i)
  }

  predicate AllLive(vs: Versions, j: nat, i: nat)
    requires i < |vs|
  {
    forall m | j <= m <= i :: vs[m].Live?
  }

  lemma BlockedNext(vs: Versions, i: nat)
    requires 0 < i < |vs| && vs[i].Live?
    ensures Blocked(vs, i) <==> Blocked(vs[1..], i - 1) || (vs[0].Live? && Short(vs[0].kv) && AllLive(vs, 0, i))
    ensures AllLive(vs, 0, i) <==> vs[0].Live? && AllLive(vs[1..], 0, i - 1)
  {
    hide Short;
    var ws := vs[1..];
    if Blocked(vs, i) {
      var j :| 0 <= j <= i && vs[j].Live? && Short(vs[j].kv) && AllLive(vs, j, i);
      if j > 0 { assert ws[j - 1] == vs[j] && AllLive(ws, j - 1, i - 1); }
    }
    if Blocked(ws, i - 1) {
      var j :| 0 <= j <= i - 1 && ws[j].Live? && Short(ws[j].kv) && AllLive(ws, j, i - 1);
      assert vs[j + 1] == ws[j];
      forall m | j + 1 <= m <= i ensures vs[m].Live? { assert vs[m] == ws[m - 1]; }
      assert AllLive(vs, j + 1, i);
    }
    if AllLive(ws, 0, i - 1) && vs[0].Live? {
      forall m | 0 <= m <= i ensures vs[m].Live? { if m > 0 { assert vs[m] == ws[m - 1]; } }
    }
  }

  /** The version visible at r has index i; the read fails exactly if it is blocked. */
  lemma {:induction false} ReadIndex(vs: Versions, r: nat, i: nat, bad: bool)
    requires r > 0 && i < |vs| && vs[i].Live? && RevOf(vs[i]).upper <= r
    requires forall j | 0 <= j < i :: RevOf(vs[j]).upper > r
    ensures ReadAt(vs, r, bad) ==
      if Blocked(vs, i) || (bad && AllLive(vs, 0, i)) then Err(ChecksumMissing) else Ok(Some(vs[i].kv))
  {
    if i > 0 {
      var ws := vs[1..];
      BlockedNext(vs, i);
      assert forall j | 0 <= j < i - 1 :: ws[j] == vs[j + 1];
      hide Short, Blocked, AllLive;
      ReadIndex(ws, r, i - 1, vs[0].Live? && (bad || Short(vs[0].kv)));
    } else {
      hide Short;
      assert Blocked(vs, 0) <==> Short(vs[0].kv) by {
        if Short(vs[0].kv) { assert AllLive(vs, 0, 0); }
      }
    }
  }

  lemma {:induction false} BelowIndex(vs: Versions, r: nat, i: nat)
    requires r > 0 && i < |vs| && RevOf(vs[i]).upper <= r && forall j | 0 <= j < i :: RevOf(vs[j]).upper > r
    ensures Visible(vs, r) == Some(vs[i]) && Below(vs, r) == Before(vs, i)
    ensures vs[i].Tomb? ==> ReadAt(vs, r, false) == Ok(None)
  {
    if i > 0 {
      var ws := vs[1..];
      assert forall j | 0 <= j < i - 1 :: ws[j] == vs[j + 1];
      BelowIndex(ws, r, i - 1);
      TombReads(ws, r, i - 1, vs[0].Live? && Short(vs[0].kv));
    }
  }

  lemma {:induction false} TombReads(vs: Versions, r: nat, i: nat, bad: bool)
    requires r > 0 && i < |vs| && RevOf(vs[i]).upper <= r && forall j | 0 <= j < i :: RevOf(vs[j]).upper > r
    ensures vs[i].Tomb? ==> ReadAt(vs, r, bad) == Ok(None)
  {
    hide Short;
    if i > 0 {
      assert forall j | 0 <= j < i - 1 :: vs[1..][j] == vs[j + 1];
      TombReads(vs[1..], r, i - 1, vs[0].Live? && (bad || Short(vs[0].kv)));
    }
  }

  /** The pair right below a version. */
  function Before(vs: Versions, i: nat): Option<Kv>
    requires i < |vs|
  {
    if i + 1 < |vs| && vs[i + 1].Live? then Some(vs[i + 1].kv) else None
  }

  /** Where a key's history has the version of an event. */
  ghost predicate VersionOf(vs: Versions, i: nat, e: Event) {
    i < |vs| && RevOf(vs[i]) == e.rev && (e.rev.del <==> vs[i].Tomb?)
  }

  lemma EventHasVersion(s: Store, e: Event) returns (i: nat)
    requires Good(s) && e in s.evts
    ensures VersionOf(Lookup(s.hist, e.key), i, e)
  {
    assert Recorded(s.hist, e) && GoodVersions(e.key, s.hist[e.key]);
    var vs := s.hist[e.key];
    var v :| v in vs && RevOf(v) == e.rev;
    i :| 0 <= i < |vs| && vs[i] == v;
  }

  lemma AboveSelf(vs: Versions, i: nat, e: Event)
    requires Descending(vs) && Once(vs) && VersionOf(vs, i, e)
    ensures e.rev.upper > 0
    ensures vs[i].Live? || i == 0 || RevOf(vs[i - 1]).upper > e.rev.upper ==>
      forall j | 0 <= j < i :: RevOf(vs[j]).upper > e.rev.upper
  {
    assert vs[i] in vs;
    if vs[i].Live? || i == 0 || RevOf(vs[i - 1]).upper > e.rev.upper {
      forall j | 0 <= j < i ensures RevOf(vs[j]).upper > e.rev.upper {
        assert Older(RevOf(vs[i]), RevOf(vs[j]));
        if j < i - 1 { assert Older(RevOf(vs[i - 1]), RevOf(vs[j])); }
      }
    }
  }

  /**
   The read behind a put event gives the pair that event wrote, and the pair before it if
   asked for. It fails exactly if a pair too short to be read back lies from there up to the
   last tombstone above, or the pair before is one.
   */
  lemma PutEventResolves(s: Store, e: Event, i: nat, withPrev: bool)
    requires Good(s) && AllOnce(s.hist) && e in s.evts && !e.rev.del && VersionOf(Lookup(s.hist, e.key), i, e)
    ensures var vs := Lookup(s.hist, e.key);
      var before := if withPrev then Before(vs, i) else None;
      ReadWithPrev(vs, e.rev.upper, withPrev) ==
        if Blocked(vs, i) || (before.Some? && Short(before.value)) then Err(ChecksumMissing)
        else Ok((Some(vs[i].kv), before))
  {
    var vs := Lookup(s.hist, e.key);
    assert Recorded(s.hist, e) && GoodVersions(e.key, s.hist[e.key]);
    hide Good, Short, Blocked;
    AboveSelf(vs, i, e);
    ReadIndex(vs, e.rev.upper, i, false);
    BelowIndex(vs, e.rev.upper, i);
  }

  /** What a delete event shows of the pair before: a read that fails is passed over. */
  function ShownBefore(vs: Versions, r: nat): Option<Kv> {
    var got := ReadWithPrev(vs, r, true);
    if got.Ok? then got.value.1 else None
  }

  /**
   A delete event shows the deleted pair, unless that is too short to be read back or the
   same transaction has put the key again.
   */
  lemma DeleteEventShows(s: Store, e: Event, i: nat)
    requires Good(s) && AllOnce(s.hist) && e in s.evts && e.rev.del && VersionOf(Lookup(s.hist, e.key), i, e)
    ensures var vs := Lookup(s.hist, e.key);
      var again := i > 0 && RevOf(vs[i - 1]).upper == e.rev.upper;
      ShownBefore(vs, e.rev.upper) ==
        if again || (Before(vs, i).Some? && Short(Before(vs, i).value)) then None else Before(vs, i)
  {
    var vs := Lookup(s.hist, e.key);
    assert Recorded(s.hist, e) && GoodVersions(e.key, s.hist[e.key]);
    hide Good, Short;
    AboveSelf(vs, i, e);
    if i > 0 && RevOf(vs[i - 1]).upper == e.rev.upper {
      AboveSelf(vs, i - 1, Event(e.epoch, e.key, RevOf(vs[i - 1])));
      BelowIndex(vs, e.rev.upper, i - 1);
    } else {
      if i > 0 { assert Older(RevOf(vs[i]), RevOf(vs[i - 1])); }
      BelowIndex(vs, e.rev.upper, i);
    }
  }

  // ---- what a command reports ----

  /** Events are only added, for these keys and under revisions after `rev`. */
  ghost predicate Adds(a: seq<Event>, b: seq<Event>, keys: seq<bytes>, rev: nat) {
    a <= b && forall i | |a| <= i < |b| :: b[i].key in keys && b[i].rev.upper > rev
  }

  lemma AddsNone(a: seq<Event>, keys: seq<bytes>, rev: nat)
    ensures Adds(a, a, keys, rev)
  {}

  lemma AddsMore(a: seq<Event>, b: seq<Event>, keys: seq<bytes>, rev: nat, more: seq<bytes>)
    requires Adds(a, b, keys, rev)
    ensures Adds(a, b, more + keys, rev)
  {}

  lemma AddsTrans(a: seq<Event>, b: seq<Event>, c: seq<Event>, ks: seq<bytes>, ls: seq<bytes>, rev: nat, later: nat)
    requires Adds(a, b, ks, rev) && Adds(b, c, ls, later) && rev <= later
    ensures Adds(a, c, ks + ls, rev)
  {
    forall i | |a| <= i < |c| ensures c[i].key in ks + ls && c[i].rev.upper > rev {
      if i < |b| { assert c[i] == b[i]; }
    }
  }

  lemma CmdPutAdds(s: State, rev: nat, sub: nat, q: PutReq, f: Flags)
    requires CmdPut(s, rev + 1, sub, q, f).Did?
    ensures var r := CmdPut(s, rev + 1, sub, q, f); Adds(s.store.evts, r.s.store.evts, r.keys, rev)
  {
    hide Attach, PutFails, InsertKey, Current;
  }

  lemma {:induction false} DeleteAllAdds(s: Store, epoch: nat, ks: seq<bytes>, tomb: Rev, rev: nat)
    requires tomb.upper > rev
    ensures Adds(s.evts, DeleteAll(s, epoch, ks, tomb).evts, ItemKeys(Doomed(s, ks)), rev)
  {
    if ks != [] {
      var n := |ks| - 1;
      var t := DeleteAll(s, epoch, ks[..n], tomb);
      DeleteAllAdds(s, epoch, ks[..n], tomb, rev);
      DeleteAllLive(s, epoch, ks[..n], tomb, ks[n]);
      HeadCurrent(t.hist, ks[n]);
      HeadCurrent(s.hist, ks[n]);
      hide Current;
      var before, after := Doomed(s, ks[..n]), Doomed(s, ks);
      assert before <= after;
      forall k | k in ItemKeys(before) ensures k in ItemKeys(after) {
        var i :| 0 <= i < |before| && before[i].0 == k;
        assert ItemKeys(after)[i] == k;
      }
      if Current(t.hist, ks[n]).Some? {
        assert after[|before|].0 == ks[n] && ItemKeys(after)[|before|] == ks[n];
      }
    }
  }

  lemma CmdDeleteAdds(s: State, rev: nat, sub: nat, q: DeleteReq, f: Flags)
    requires CmdDeleteRange(s, rev + 1, sub, q, f).Did?
    ensures var r := CmdDeleteRange(s, rev + 1, sub, q, f); Adds(s.store.evts, r.s.store.evts, r.keys, rev)
  {
    hide DeleteAll, DeleteKeys, Doomed, Detach, PrevReads, WrittenAt, ItemKeys, Adds;
    var ks, tomb := DeleteKeys(s.store.keys, q.key, q.end), Rev(rev + 1, sub, true);
    DeleteAllAdds(s.store, s.book.epoch, ks, tomb, rev);
    AddsMore(s.store.evts, DeleteAll(s.store, s.book.epoch, ks, tomb).evts, ItemKeys(Doomed(s.store, ks)), rev,
             seq(|Doomed(s.store, ks)|, _ => []));
  }

  lemma {:induction false} RunOpsAdds(s: State, rev: nat, ops: seq<TxnOp>, f: Flags)
    ensures var r := RunOps(s, rev + 1, ops, f); Adds(s.store.evts, r.s.store.evts, r.keys, rev)
  {
    hide CmdPut, CmdDeleteRange, QueryRange, Adds;
    if ops == [] {
      AddsNone(s.store.evts, [], rev);
    } else {
      var n := |ops| - 1;
      RunOpsAdds(s, rev, ops[..n], f);
      var p := RunOps(s, rev + 1, ops[..n], f);
      var r := OneOp(p.s, rev + 1, n, ops[n], f);
      if p.error.None? && r.Did? {
        match ops[n] {
          case OpPut(q) => CmdPutAdds(p.s, rev, n, q, f);
          case OpDelete(q) => CmdDeleteAdds(p.s, rev, n, q, f);
          case _ => AddsNone(p.s.store.evts, [], rev);
        }
        AddsTrans(s.store.evts, p.s.store.evts, r.s.store.evts, p.keys, r.keys, rev, rev);
      }
    }
  }

  lemma {:induction false} DeleteAllAddsAny(s: Store, epoch: nat, ks: seq<bytes>, tomb: Rev, rev: nat)
    requires tomb.upper > rev
    ensures Adds(s.evts, DeleteAll(s, epoch, ks, tomb).evts, ks, rev)
  {
    if ks != [] {
      var n := |ks| - 1;
      DeleteAllAddsAny(s, epoch, ks[..n], tomb, rev);
      assert ks == ks[..n] + [ks[n]];
    }
  }

  lemma ExecRevokeAdds(s: State, id: nat)
    requires ExecRevoke(s, id).Next?
    ensures Adds(s.store.evts, ExecRevoke(s, id).s.store.evts, ExecRevoke(s, id).keys, s.rev)
  {
    hide DeleteAll, RowKeys, RowsWithout, Dropped, Adds;
    AddsNone(s.store.evts, [], s.rev);
    DeleteAllAddsAny(s.store, s.book.epoch, LeaseKeys(s, id), Rev(s.rev + 1, 0, true), s.rev);
  }

  lemma {:induction false} ExpireAdds(s: State, due: seq<bytes>)
    requires (forall row <- due :: |row| >= 9) && Expire(s, due).Next?
    ensures Adds(s.store.evts, Expire(s, due).s.store.evts, Expire(s, due).keys, s.rev)
  {
    hide ExecRevoke, Adds;
    if due == [] {
      AddsNone(s.store.evts, [], s.rev);
    } else {
      var n := |due| - 1;
      ExpireAdds(s, due[..n]);
      ExpireGrows(s, due[..n]);
      var t := Expire(s, due[..n]);
      ExecRevokeAdds(t.s, ExpId(due[n]));
      var u := ExecRevoke(t.s, ExpId(due[n]));
      AddsTrans(s.store.evts, t.s.store.evts, u.s.store.evts, t.keys, u.keys, s.rev, t.s.rev);
    }
  }

  lemma ExecTxnAdds(s: State, c: Cmd, f: Flags)
    requires c.TxnCmd? && ExecTxn(s, c, f).Next?
    ensures Adds(s.store.evts, ExecTxn(s, c, f).s.store.evts, ExecTxn(s, c, f).keys, s.rev)
  {
    hide RunOps, CompareAll, Adds;
    AddsNone(s.store.evts, [], s.rev);
    RunOpsAdds(s, s.rev, c.success, f);
    RunOpsAdds(s, s.rev, c.failure, f);
  }

  lemma ExecTickAdds(s: State, term: nat)
    requires ExecTick(s, term).Next?
    ensures Adds(s.store.evts, ExecTick(s, term).s.store.evts, ExecTick(s, term).keys, s.rev)
  {
    hide Expire, Due, Adds;
    AddsNone(s.store.evts, [], s.rev);
    if s.term <= term {
      var t := s.(book := Ticked(s.book));
      ExpireAdds(t, Due(t.book.exp, t.book.epoch));
    }
  }

  lemma ExecPutAdds(s: State, q: PutReq, f: Flags)
    requires ExecPut(s, q, f).Next?
    ensures Adds(s.store.evts, ExecPut(s, q, f).s.store.evts, ExecPut(s, q, f).keys, s.rev)
  {
    hide CmdPut, Adds;
    AddsNone(s.store.evts, [], s.rev);
    if CmdPut(s, s.rev + 1, 0, q, f).Did? { CmdPutAdds(s, s.rev, 0, q, f); }
  }

  lemma ExecDeleteAdds(s: State, q: DeleteReq, f: Flags)
    requires ExecDelete(s, q, f).Next?
    ensures Adds(s.store.evts, ExecDelete(s, q, f).s.store.evts, ExecDelete(s, q, f).keys, s.rev)
  {
    hide CmdDeleteRange, Adds;
    CmdDeleteAdds(s, s.rev, 0, q, f);
  }

  /** Every event a command adds belongs to a key it reports, and comes after the current revision. */
  lemma ExecAdds(s: State, c: Cmd, f: Flags)
    requires Exec(s, c, f).Next? && !c.CompactCmd?
    ensures Adds(s.store.evts, Exec(s, c, f).s.store.evts, Exec(s, c, f).keys, s.rev)
  {
    hide Adds, ExecPut, ExecDelete, ExecTxn, ExecTick, ExecRevoke;
    match c
    case PutCmd(q) => ExecPutAdds(s, q, f);
    case DeleteCmd(q) => ExecDeleteAdds(s, q, f);
    case TxnCmd(_, _, _) => ExecTxnAdds(s, c, f);
    case RevokeCmd(id) => ExecRevokeAdds(s, U64(id));
    case TickCmd(term) => ExecTickAdds(s, term);
    case _ =>
      ExecBookStore(s, c, f);
      AddsNone(s.store.evts, [], s.rev);
  }

  /** Ordered events of which those after the n-th are new and of these keys. */
  lemma AddedCommit(evts: seq<Event>, n: nat, rev: nat, to: nat, keys: seq<bytes>)
    requires n <= |evts| && rev <= to && SortedEvents(evts)
    requires forall i | n <= i < |evts| :: evts[i].key in keys && rev < evts[i].rev.upper <= to
    ensures WatchProtocol.Commits(rev, evts[n..], to, keys)
  {
    var after := evts[n..];
    forall i, j | 0 <= i < j < |after| ensures after[i].rev.upper <= after[j].rev.upper {
      assert after[i] == evts[n + i] && after[j] == evts[n + j];
      assert !Older(evts[n + j].rev, evts[n + i].rev);
    }
    forall x | x in after ensures rev < x.rev.upper <= to && x.key in keys {
      var i :| 0 <= i < |after| && after[i] == x;
      assert evts[n + i] == x;
    }
  }

  lemma EventsSoFar(s: State)
    requires Inv(s)
    ensures SortedEvents(s.store.evts) && forall i | 0 <= i < |s.store.evts| :: s.store.evts[i].rev.upper <= s.rev
  {
    InvOlder(s);
    hide Inv;
    forall i | 0 <= i < |s.store.evts| ensures s.store.evts[i].rev.upper <= s.rev {
      assert s.store.evts[i] in s.store.evts && Older(s.store.evts[i].rev, Rev(s.rev + 1, 0, false));
    }
  }

  /** What one entry logs: ordered new events of the keys it reports. */
  lemma StepCommits(s: State, e: Entry, f: Flags)
    requires Inv(s) && Step(s, e, f).Next? && !e.cmd.CompactCmd? && CmdOk(e.cmd) && Room(Step(s, e, f).s)
    ensures var t := Step(s, e, f);
      && s.store.evts <= t.s.store.evts
      && WatchProtocol.Commits(s.rev, t.s.store.evts[|s.store.evts|..], t.s.rev, t.keys)
  {
    hide Inv, Exec, CmdOk, SortedEvents, WatchProtocol.Commits;
    StepGrows(s, e, f);
    ExecKeeps(s, e.cmd, f);
    ExecAdds(s, e.cmd, f);
    var r := Exec(s, e.cmd, f);
    EventsSoFar(r.s);
    AddedCommit(r.s.store.evts, |s.store.evts|, s.rev, r.s.rev, r.keys);
  }

  /** Over runs whose puts are long enough, the read behind every put event succeeds. */
  lemma EveryEventReads(es: seq<Entry>, f: Flags, e: Event, i: nat, withPrev: bool)
    requires EntriesOk(es) && LongEntries(es) && !f.multiWrite
    requires Run(INITIAL, es, f).Batch? && Room(Run(INITIAL, es, f).s)
    requires var s := Run(INITIAL, es, f).s.store; e in s.evts && !e.rev.del && VersionOf(Lookup(s.hist, e.key), i, e)
    ensures var vs := Lookup(Run(INITIAL, es, f).s.store.hist, e.key);
      ReadWithPrev(vs, e.rev.upper, withPrev) == Ok((Some(vs[i].kv), if withPrev then Before(vs, i) else None))
  {
    hide Run, Inv, AllOnce, Good, Blocked;
    var s := Run(INITIAL, es, f).s;
    InitialInv();
    InitialGrowth();
    InitialOnce();
    RunKeeps(INITIAL, es, f);
    RunOnce(INITIAL, es, f);
    RunReadable(INITIAL, es, f);
    InvOlder(s);
    NotBlocked(Lookup(s.store.hist, e.key), i);
    PutEventResolves(s.store, e, i, withPrev);
  }

  lemma InitialOnce()
    ensures AllOnce(INITIAL.store.hist)
  {}

  lemma NotBlocked(vs: Versions, i: nat)
    requires NoneShort(vs) && i < |vs|
    ensures !Blocked(vs, i) && (Before(vs, i).Some? ==> !Short(Before(vs, i).value))
  {
    hide Short;
  }
}
