/**
 Revisions are immutable: what a key held as of a revision that was once current
 never changes, whatever is written later and however old values are stored.
 */
module Snapshots {
  import opened Base
  import opened KeyRev
  import opened History
  import opened LeaseTables
  import opened DbKvs
  import opened Machine
  import opened Invariants

  // ---- one version on top ----

  lemma PushedValue(v: Version, vs: Versions, r: nat)
    ensures ValueAt([v] + vs, r) ==
      if 0 < r < RevOf(v).upper then ValueAt(vs, r) else if v.Live? then Some(v.kv) else None
  {
    assert ([v] + vs)[1..] == vs;
  }

  /** Two histories in which every key had the same value show the same. */
  lemma SnapshotEqual(h: map<bytes, Versions>, g: map<bytes, Versions>, r: nat)
    requires forall k :: ValueAt(Lookup(g, k), r) == ValueAt(Lookup(h, k), r)
    ensures SnapshotAt(g, r) == SnapshotAt(h, r)
  {
    hide SnapshotAt, ValueAt, Lookup;
    forall k ensures k in SnapshotAt(g, r) <==> k in SnapshotAt(h, r) {
      SnapshotGet(g, r, k);
      SnapshotGet(h, r, k);
    }
    forall k | k in SnapshotAt(g, r) ensures SnapshotAt(g, r)[k] == SnapshotAt(h, r)[k] {
      SnapshotGet(g, r, k);
      SnapshotGet(h, r, k);
    }
  }

  lemma SnapshotPush(s: Store, epoch: nat, key: bytes, v: Version, r: nat)
    ensures var m := SnapshotAt(s.hist, r);
      SnapshotAt(Push(s, epoch, key, v).hist, r) ==
        if 0 < r < RevOf(v).upper then m else if v.Live? then m[key := v.kv] else m - {key}
  {
    hide SnapshotAt, ValueAt, RevOf, InsertKey;
    var m, g := SnapshotAt(s.hist, r), Push(s, epoch, key, v).hist;
    var n := if 0 < r < RevOf(v).upper then m else if v.Live? then m[key := v.kv] else m - {key};
    PushedValue(v, Lookup(s.hist, key), r);
    forall k ensures k in SnapshotAt(g, r) <==> k in n {
      SnapshotGet(g, r, k);
      SnapshotGet(s.hist, r, k);
    }
    forall k | k in n ensures SnapshotAt(g, r)[k] == n[k] {
      SnapshotGet(g, r, k);
      SnapshotGet(s.hist, r, k);
    }
  }

  /** What was visible at the revisions up to `rev` is still visible there. */
  ghost predicate SamePast(h: map<bytes, Versions>, g: map<bytes, Versions>, rev: nat) {
    forall r: nat | 0 < r <= rev :: SnapshotAt(g, r) == SnapshotAt(h, r)
  }

  lemma PushPast(s: Store, epoch: nat, key: bytes, v: Version, rev: nat)
    requires rev < RevOf(v).upper
    ensures SamePast(s.hist, Push(s, epoch, key, v).hist, rev)
  {
    hide SnapshotAt, Push;
    forall r: nat | 0 < r <= rev ensures SnapshotAt(Push(s, epoch, key, v).hist, r) == SnapshotAt(s.hist, r) {
      SnapshotPush(s, epoch, key, v, r);
    }
  }

  // ---- deletions ----

  lemma CurrentSnapshot(h: map<bytes, Versions>, k: bytes)
    ensures k in SnapshotAt(h, 0) <==> Current(h, k).Some?
    ensures k in SnapshotAt(h, 0) ==> SnapshotAt(h, 0)[k] == Current(h, k).value
  {}

  lemma {:induction false} SnapshotDeleteAll(s: Store, epoch: nat, ks: seq<bytes>, tomb: Rev)
    ensures SnapshotAt(DeleteAll(s, epoch, ks, tomb).hist, 0) == SnapshotAt(s.hist, 0) - (set k | k in ks)
  {
    hide SnapshotAt, Push;
    if ks != [] {
      var n := |ks| - 1;
      SnapshotDeleteAll(s, epoch, ks[..n], tomb);
      var t := DeleteAll(s, epoch, ks[..n], tomb);
      assert ks == ks[..n] + [ks[n]];
      assert (set k | k in ks) == (set k | k in ks[..n]) + {ks[n]};
      CurrentSnapshot(t.hist, ks[n]);
      if Current(t.hist, ks[n]).Some? { SnapshotPush(t, epoch, ks[n], Tomb(tomb), 0); }
    }
  }

  lemma {:induction false} DeleteAllPast(s: Store, epoch: nat, ks: seq<bytes>, tomb: Rev, rev: nat)
    requires rev < tomb.upper
    ensures SamePast(s.hist, DeleteAll(s, epoch, ks, tomb).hist, rev)
  {
    hide SnapshotAt, Push;
    if ks != [] {
      var n := |ks| - 1;
      DeleteAllPast(s, epoch, ks[..n], tomb, rev);
      var t := DeleteAll(s, epoch, ks[..n], tomb);
      if Current(t.hist, ks[n]).Some? { PushPast(t, epoch, ks[n], Tomb(tomb), rev); }
    }
  }

  // ---- compaction ----

  lemma CompactedVisible(s: Store, k: bytes, max: nat, r: nat)
    requires Good(s) && max > 0 && (r == 0 || r + 1 >= max) && k in s.hist
    ensures Visible(CompactVersions(s.hist[k], LastBelow(s.evts, k, max)), r) == Visible(s.hist[k], r)
  {
    LastBelowSound(s.evts, k, max);
    var last := LastBelow(s.evts, k, max);
    if last.Some? {
      var e :| e in s.evts && e.key == k && e.rev == last.value;
      assert Recorded(s.hist, e) && GoodVersions(k, s.hist[k]);
      hide Good, KeepFrom, Visible, LastBelow;
      VisibleKeep(s.hist[k], last.value, if r == 0 then max else r);
    }
  }

  lemma CompactedValue(s: Store, k: bytes, max: nat, r: nat)
    requires Good(s) && max > 0 && (r == 0 || r + 1 >= max)
    ensures ValueAt(Lookup(Compact(s, max).hist, k), r) == ValueAt(Lookup(s.hist, k), r)
  {
    hide Good, CompactVersions, LastBelow, Visible, EventsFrom;
    if k in s.hist {
      CompactedVisible(s, k, max, r);
    }
  }

  /** A compaction changes nothing at its target or later, nor now. */
  lemma CompactPast(s: Store, max: nat, r: nat)
    requires Good(s) && max > 0 && (r == 0 || r + 1 >= max)
    ensures SnapshotAt(Compact(s, max).hist, r) == SnapshotAt(s.hist, r)
  {
    hide *;
    forall k ensures ValueAt(Lookup(Compact(s, max).hist, k), r) == ValueAt(Lookup(s.hist, k), r) {
      CompactedValue(s, k, max, r);
    }
    SnapshotEqual(s.hist, Compact(s, max).hist, r);
  }

  /** The current revision shows what is there now. */
  lemma SnapshotNow(s: Store, rev: nat)
    requires rev > 0 && AllOlder(s, Rev(rev + 1, 0, false))
    ensures SnapshotAt(s.hist, rev) == SnapshotAt(s.hist, 0)
  {
    var h := s.hist;
    forall k ensures ValueAt(Lookup(h, k), rev) == ValueAt(Lookup(h, k), 0) {
      if k in h && h[k] != [] { assert Older(RevOf(h[k][0]), Rev(rev + 1, 0, false)); }
    }
    hide ValueAt;
  }

  // ---- commands ----

  lemma CmdPutPast(s: State, rev: nat, sub: nat, q: PutReq, f: Flags)
    requires CmdPut(s, rev + 1, sub, q, f).Did?
    ensures SamePast(s.store.hist, CmdPut(s, rev + 1, sub, q, f).s.store.hist, rev)
  {
    hide SamePast, Push, Attach, PutFails;
    var a := ArgsOf(s, rev + 1, sub, q);
    PushPast(s.store, a.epoch, a.key, Live(Written(s.store, a), a.lease), rev);
  }

  lemma CmdDeletePast(s: State, rev: nat, sub: nat, q: DeleteReq, f: Flags)
    requires CmdDeleteRange(s, rev + 1, sub, q, f).Did?
    ensures SamePast(s.store.hist, CmdDeleteRange(s, rev + 1, sub, q, f).s.store.hist, rev)
  {
    hide SamePast, DeleteAll, Detach, PrevReads, WrittenAt, Doomed, DeleteKeys;
    DeleteAllPast(s.store, s.book.epoch, DeleteKeys(s.store.keys, q.key, q.end), Rev(rev + 1, sub, true), rev);
  }

  lemma {:induction false} RunOpsPast(s: State, rev: nat, ops: seq<TxnOp>, f: Flags)
    ensures SamePast(s.store.hist, RunOps(s, rev + 1, ops, f).s.store.hist, rev)
  {
    hide SnapshotAt, CmdPut, CmdDeleteRange, QueryRange;
    if ops != [] {
      var n := |ops| - 1;
      RunOpsPast(s, rev, ops[..n], f);
      var p := RunOps(s, rev + 1, ops[..n], f);
      if p.error.None? && OneOp(p.s, rev + 1, n, ops[n], f).Did? {
        match ops[n]
        case OpPut(q) => CmdPutPast(p.s, rev, n, q, f);
        case OpDelete(q) => CmdDeletePast(p.s, rev, n, q, f);
        case _ =>
      }
    }
  }

  lemma ExecRevokePast(s: State, id: nat)
    requires ExecRevoke(s, id).Next?
    ensures SamePast(s.store.hist, ExecRevoke(s, id).s.store.hist, s.rev)
  {
    hide SnapshotAt, DeleteAll, RowKeys, RowsWithout, Dropped;
    DeleteAllPast(s.store, s.book.epoch, LeaseKeys(s, id), Rev(s.rev + 1, 0, true), s.rev);
  }

  lemma {:induction false} ExpirePast(s: State, due: seq<bytes>)
    requires (forall row <- due :: |row| >= 9) && Expire(s, due).Next?
    ensures SamePast(s.store.hist, Expire(s, due).s.store.hist, s.rev)
  {
    hide SnapshotAt, ExecRevoke;
    if due != [] {
      var n := |due| - 1;
      ExpirePast(s, due[..n]);
      ExpireGrows(s, due[..n]);
      ExecRevokePast(Expire(s, due[..n]).s, ExpId(due[n]));
    }
  }

  lemma ExecTxnPast(s: State, c: Cmd, f: Flags)
    requires c.TxnCmd? && ExecTxn(s, c, f).Next?
    ensures SamePast(s.store.hist, ExecTxn(s, c, f).s.store.hist, s.rev)
  {
    hide SnapshotAt, RunOps, CompareAll;
    RunOpsPast(s, s.rev, c.success, f);
    RunOpsPast(s, s.rev, c.failure, f);
  }

  lemma ExecTickPast(s: State, term: nat)
    requires ExecTick(s, term).Next?
    ensures SamePast(s.store.hist, ExecTick(s, term).s.store.hist, s.rev)
  {
    hide SnapshotAt, Expire, Due;
    if s.term <= term {
      var t := s.(book := Ticked(s.book));
      ExpirePast(t, Due(t.book.exp, t.book.epoch));
    }
  }

  /** No command but a compaction changes what any revision up to the current one shows. */
  lemma ExecPast(s: State, c: Cmd, f: Flags)
    requires Exec(s, c, f).Next? && !c.CompactCmd?
    ensures SamePast(s.store.hist, Exec(s, c, f).s.store.hist, s.rev)
  {
    hide SnapshotAt, CmdPut, CmdDeleteRange, ExecTxn, ExecTick, ExecRevoke, KeepAlive, Grant;
    match c
    case PutCmd(q) => if CmdPut(s, s.rev + 1, 0, q, f).Did? { CmdPutPast(s, s.rev, 0, q, f); }
    case DeleteCmd(q) => CmdDeletePast(s, s.rev, 0, q, f);
    case TxnCmd(_, _, _) => ExecTxnPast(s, c, f);
    case RevokeCmd(id) => ExecRevokePast(s, U64(id));
    case TickCmd(term) => ExecTickPast(s, term);
    case _ =>
  }

  lemma StepPast(s: State, e: Entry, f: Flags, r: nat)
    requires Inv(s) && Step(s, e, f).Next? && 0 < r <= s.rev && (e.cmd.CompactCmd? ==> e.cmd.revision <= r)
    ensures SnapshotAt(Step(s, e, f).s.store.hist, r) == SnapshotAt(s.store.hist, r)
  {
    hide SnapshotAt, Exec, Good;
    if e.cmd.CompactCmd? {
      CompactStep(s, e.cmd, f);
      CompactPast(s.store, e.cmd.revision, r);
    } else {
      ExecPast(s, e.cmd, f);
    }
  }

  lemma CompactStep(s: State, c: Cmd, f: Flags)
    requires c.CompactCmd? && Exec(s, c, f).Next?
    ensures c.revision > 0 && Exec(s, c, f).s.store == Compact(s.store, c.revision)
  {
    hide Compact;
  }

  /** No compaction among these entries goes beyond revision r. */
  ghost predicate CompactsUpTo(es: seq<Entry>, r: nat) {
    forall e <- es :: e.cmd.CompactCmd? ==> e.cmd.revision <= r
  }

  /** A revision once reached shows the same for ever, unless it is compacted away. */
  lemma {:induction false} RevisionsImmutable(s: State, es: seq<Entry>, f: Flags, r: nat)
    requires Inv(s) && EntriesOk(es) && Run(s, es, f).Batch? && Room(Run(s, es, f).s)
    requires 0 < r <= s.rev && CompactsUpTo(es, r)
    ensures SnapshotAt(Run(s, es, f).s.store.hist, r) == SnapshotAt(s.store.hist, r)
  {
    hide SnapshotAt, Step, Inv;
    if es != [] {
      var n := |es| - 1;
      var t := Run(s, es[..n], f).s;
      assert es[n] in es;
      StepGrows(t, es[n], f);
      RunKeeps(s, es[..n], f);
      RevisionsImmutable(s, es[..n], f, r);
      StepPast(t, es[n], f, r);
    }
  }

  /** So a read at a past revision shows what was current when that revision was. */
  lemma PastIsWhatWasCurrent(p: seq<Entry>, q: seq<Entry>, f: Flags)
    requires EntriesOk(p) && EntriesOk(q) && Run(INITIAL, p, f).Batch?
    requires var t := Run(INITIAL, p, f).s;
      Run(t, q, f).Batch? && Room(Run(t, q, f).s) && CompactsUpTo(q, t.rev)
    ensures var t := Run(INITIAL, p, f).s;
      && Run(INITIAL, p + q, f).Batch?
      && SnapshotAt(Run(INITIAL, p + q, f).s.store.hist, t.rev) == SnapshotAt(t.store.hist, 0)
  {
    hide SnapshotAt, Run, Inv;
    var t := Run(INITIAL, p, f).s;
    InitialInv();
    RunKeeps(t, q, f);
    RunKeeps(INITIAL, p, f);
    BatchBoundaries(INITIAL, p, q, f);
    RevisionsImmutable(t, q, f, t.rev);
    InvOlder(t);
    SnapshotNow(t.store, t.rev);
  }

  lemma InvOlder(s: State)
    requires Inv(s)
    ensures Good(s.store) && AllOlder(s.store, Rev(s.rev + 1, 0, false))
  {}
}
