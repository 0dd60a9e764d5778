/**
 How a store changes over a run: every command but a compaction only puts versions on
 top of keys. So every version but the oldest of its key has its event in the log, and
 a run whose puts are long enough never stores a pair that does not read back.
 */
module Growth {
  import opened Base
  import opened KeyRev
  import opened KvCodec
  import opened History
  import opened LeaseTables
  import opened DbKvs
  import opened Machine
  import opened Invariants
  import opened Snapshots
  import opened LeaseLaws

  // ---- pushes ----

  datatype Pushed = Pushed(epoch: nat, key: bytes, v: Version)

  function PushAll(s: Store, ps: seq<Pushed>): Store {
    if ps == [] then s
    else
      var p := ps[|ps| - 1];
      Push(PushAll(s, ps[..|ps| - 1]), p.epoch, p.key, p.v)
  }

  /** None of these versions is too short to read back. */
  ghost predicate AllLong(ps: seq<Pushed>) {
    forall p <- ps :: p.v.Live? ==> !Short(p.v.kv)
  }

  /** Versions were put on top of s, giving t; none of them too short if `long`. */
  ghost predicate Grown(s: Store, t: Store, long: bool) {
    exists ps :: t == PushAll(s, ps) && (long ==> AllLong(ps))
  }

  lemma GrownNone(s: Store, long: bool)
    ensures Grown(s, s, long)
  {
    assert s == PushAll(s, []);
  }

  lemma GrownPush(s: Store, epoch: nat, key: bytes, v: Version, long: bool)
    requires long && v.Live? ==> !Short(v.kv)
    ensures Grown(s, Push(s, epoch, key, v), long)
  {
    hide Push, Short;
    var ps := [Pushed(epoch, key, v)];
    assert ps[..0] == [];
    assert PushAll(s, ps) == Push(s, epoch, key, v);
  }

  lemma {:induction false} PushAllConcat(s: Store, ps: seq<Pushed>, qs: seq<Pushed>)
    ensures PushAll(s, ps + qs) == PushAll(PushAll(s, ps), qs)
  {
    hide Push;
    if qs == [] {
      assert ps + qs == ps;
    } else {
      var n := |qs| - 1;
      assert (ps + qs)[..|ps| + n] == ps + qs[..n];
      PushAllConcat(s, ps, qs[..n]);
    }
  }

  lemma GrownTrans(s: Store, t: Store, u: Store, long: bool)
    requires Grown(s, t, long) && Grown(t, u, long)
    ensures Grown(s, u, long)
  {
    hide PushAll, Short;
    var ps :| t == PushAll(s, ps) && (long ==> AllLong(ps));
    var qs :| u == PushAll(t, qs) && (long ==> AllLong(qs));
    PushAllConcat(s, ps, qs);
    assert long ==> AllLong(ps + qs);
  }

  // ---- which puts are long enough ----

  /** Any longer key, or a value that is really written. */
  predicate LongPut(q: PutReq) {
    |q.key| != 1 || (q.val != [] && !q.ignoreValue)
  }

  predicate LongOps(ops: seq<TxnOp>) {
    forall op <- ops :: op.OpPut? ==> LongPut(op.put)
  }

  predicate LongCmd(c: Cmd) {
    match c
    case PutCmd(q) => LongPut(q)
    case TxnCmd(_, success, failure) => LongOps(success) && LongOps(failure)
    case _ => true
  }

  ghost predicate LongEntries(es: seq<Entry>) {
    forall e <- es :: LongCmd(e.cmd)
  }

  // ---- every command ----

  lemma CmdPutGrown(s: State, rev: nat, sub: nat, q: PutReq, f: Flags)
    requires CmdPut(s, rev, sub, q, f).Did?
    ensures Grown(s.store, CmdPut(s, rev, sub, q, f).s.store, LongPut(q))
  {
    hide Grown, Push, Attach, Current;
    var a := ArgsOf(s, rev, sub, q);
    GrownPush(s.store, a.epoch, a.key, Live(Written(s.store, a), a.lease), LongPut(q));
  }

  lemma {:induction false} DeleteAllGrown(s: Store, epoch: nat, ks: seq<bytes>, tomb: Rev, long: bool)
    ensures Grown(s, DeleteAll(s, epoch, ks, tomb), long)
  {
    hide Grown, Push, Current;
    GrownNone(s, long);
    if ks != [] {
      var n := |ks| - 1;
      var t := DeleteAll(s, epoch, ks[..n], tomb);
      DeleteAllGrown(s, epoch, ks[..n], tomb, long);
      if Current(t.hist, ks[n]).Some? {
        GrownPush(t, epoch, ks[n], Tomb(tomb), long);
        GrownTrans(s, t, Push(t, epoch, ks[n], Tomb(tomb)), long);
      }
    }
  }

  lemma CmdDeleteGrown(s: State, rev: nat, sub: nat, q: DeleteReq, f: Flags, long: bool)
    requires CmdDeleteRange(s, rev, sub, q, f).Did?
    ensures Grown(s.store, CmdDeleteRange(s, rev, sub, q, f).s.store, long)
  {
    hide Grown, DeleteAll, DeleteKeys, Doomed, Detach, PrevReads, WrittenAt;
    DeleteAllGrown(s.store, s.book.epoch, DeleteKeys(s.store.keys, q.key, q.end), Rev(rev, sub, true), long);
  }

  lemma OneOpGrown(s: State, rev: nat, sub: nat, op: TxnOp, f: Flags, long: bool)
    requires OneOp(s, rev, sub, op, f).Did? && (long && op.OpPut? ==> LongPut(op.put))
    ensures Grown(s.store, OneOp(s, rev, sub, op, f).s.store, long)
  {
    hide CmdPut, CmdDeleteRange, QueryRange, LongPut, PushAll;
    match op
    case OpPut(q) => CmdPutGrown(s, rev, sub, q, f);
    case OpDelete(q) => CmdDeleteGrown(s, rev, sub, q, f, long);
    case _ => GrownNone(s.store, long);
  }

  lemma {:induction false} RunOpsGrown(s: State, rev: nat, ops: seq<TxnOp>, f: Flags, long: bool)
    requires long ==> LongOps(ops)
    ensures Grown(s.store, RunOps(s, rev, ops, f).s.store, long)
  {
    hide Grown, OneOp, LongPut;
    GrownNone(s.store, long);
    if ops != [] {
      var n := |ops| - 1;
      RunOpsGrown(s, rev, ops[..n], f, long);
      var p := RunOps(s, rev, ops[..n], f);
      var r := OneOp(p.s, rev, n, ops[n], f);
      assert ops[n] in ops;
      if p.error.None? && r.Did? {
        OneOpGrown(p.s, rev, n, ops[n], f, long);
        GrownTrans(s.store, p.s.store, r.s.store, long);
      }
    }
  }

  lemma ExecTxnGrown(s: State, c: Cmd, f: Flags)
    requires c.TxnCmd? && ExecTxn(s, c, f).Next?
    ensures Grown(s.store, ExecTxn(s, c, f).s.store, LongCmd(c))
  {
    hide Grown, RunOps, CompareAll, LongOps;
    GrownNone(s.store, LongCmd(c));
    RunOpsGrown(s, s.rev + 1, c.success, f, LongCmd(c));
    RunOpsGrown(s, s.rev + 1, c.failure, f, LongCmd(c));
  }

  lemma ExecRevokeGrown(s: State, id: nat, long: bool)
    requires ExecRevoke(s, id).Next?
    ensures Grown(s.store, ExecRevoke(s, id).s.store, long)
  {
    hide Grown, ExecRevoke, LeaseKeys, DeleteAll, RowsWithout, Dropped, Bump;
    RevokeStore(s, id);
    GrownNone(s.store, long);
    DeleteAllGrown(s.store, s.book.epoch, LeaseKeys(s, id), Rev(s.rev + 1, 0, true), long);
  }

  lemma {:induction false} ExpireGrown(s: State, due: seq<bytes>, long: bool)
    requires (forall row <- due :: |row| >= 9) && Expire(s, due).Next?
    ensures Grown(s.store, Expire(s, due).s.store, long)
  {
    hide Grown, ExecRevoke;
    GrownNone(s.store, long);
    if due != [] {
      var n := |due| - 1;
      ExpireGrown(s, due[..n], long);
      var t := Expire(s, due[..n]).s;
      ExecRevokeGrown(t, ExpId(due[n]), long);
      GrownTrans(s.store, t.store, ExecRevoke(t, ExpId(due[n])).s.store, long);
    }
  }

  lemma ExecTickGrown(s: State, term: nat, long: bool)
    requires ExecTick(s, term).Next?
    ensures Grown(s.store, ExecTick(s, term).s.store, long)
  {
    hide Grown, Expire, Due;
    GrownNone(s.store, long);
    if s.term <= term {
      var t := s.(book := Ticked(s.book));
      ExpireGrown(t, Due(t.book.exp, t.book.epoch), long);
    }
  }

  lemma ExecPutGrown(s: State, q: PutReq, f: Flags)
    requires ExecPut(s, q, f).Next?
    ensures Grown(s.store, ExecPut(s, q, f).s.store, LongPut(q))
  {
    hide Grown, CmdPut, LongPut;
    GrownNone(s.store, LongPut(q));
    if CmdPut(s, s.rev + 1, 0, q, f).Did? { CmdPutGrown(s, s.rev + 1, 0, q, f); }
  }

  lemma ExecDeleteGrown(s: State, q: DeleteReq, f: Flags, long: bool)
    requires ExecDelete(s, q, f).Next?
    ensures Grown(s.store, ExecDelete(s, q, f).s.store, long)
  {
    hide Grown, CmdDeleteRange;
    CmdDeleteGrown(s, s.rev + 1, 0, q, f, long);
  }

  lemma ExecBookStore(s: State, c: Cmd, f: Flags)
    requires c.GrantCmd? || c.KeepAliveCmd? || c.KeepAliveBatchCmd? || c.TermCmd? || c.Garbled?
    ensures Exec(s, c, f).Next? && Exec(s, c, f).s.store == s.store && Exec(s, c, f).s.rev == s.rev
    ensures Exec(s, c, f).s.rows == s.rows && Exec(s, c, f).keys == []
  {
    hide KeepAlive, Grant;
  }

  /** No command but a compaction takes anything out of the store. */
  lemma ExecGrown(s: State, c: Cmd, f: Flags)
    requires Exec(s, c, f).Next? && !c.CompactCmd?
    ensures Grown(s.store, Exec(s, c, f).s.store, LongCmd(c))
  {
    hide Grown, ExecPut, ExecDelete, ExecTxn, ExecTick, ExecRevoke, LongPut, LongOps;
    match c
    case PutCmd(q) => ExecPutGrown(s, q, f);
    case DeleteCmd(q) => ExecDeleteGrown(s, q, f, true);
    case TxnCmd(_, _, _) => ExecTxnGrown(s, c, f);
    case RevokeCmd(id) => ExecRevokeGrown(s, U64(id), true);
    case TickCmd(term) => ExecTickGrown(s, term, true);
    case _ =>
      ExecBookStore(s, c, f);
      GrownNone(s.store, true);
  }

  // ---- readable pairs ----

  /** Every pair ever stored, and still there, reads back. */
  ghost predicate Readable(h: map<bytes, Versions>) {
    forall k <- h :: NoneShort(h[k])
  }

  lemma PushReadable(s: Store, epoch: nat, key: bytes, v: Version)
    requires Readable(s.hist) && (v.Live? ==> !Short(v.kv))
    ensures Readable(Push(s, epoch, key, v).hist)
  {
    hide Short, InsertKey;
  }

  lemma {:induction false} PushAllReadable(s: Store, ps: seq<Pushed>)
    requires Readable(s.hist) && AllLong(ps)
    ensures Readable(PushAll(s, ps).hist)
  {
    hide Readable, Push, Short;
    if ps != [] {
      var p := ps[|ps| - 1];
      assert p in ps;
      PushAllReadable(s, ps[..|ps| - 1]);
      PushReadable(PushAll(s, ps[..|ps| - 1]), p.epoch, p.key, p.v);
    }
  }

  lemma CompactReadable(s: Store, max: nat)
    requires Good(s) && Readable(s.hist)
    ensures Readable(Compact(s, max).hist)
  {
    hide Short, Good, CompactVersions, LastBelow, EventsFrom;
    var g: map<bytes, Versions> := Compact(s, max).hist;
    forall k | k in g ensures NoneShort(g[k]) {
      CompactedVersions(s, k, max);
      assert NoneShort(s.hist[k]);
    }
  }

  lemma ExecReadable(s: State, c: Cmd, f: Flags)
    requires Inv(s) && Readable(s.store.hist) && LongCmd(c) && Exec(s, c, f).Next?
    ensures Readable(Exec(s, c, f).s.store.hist)
  {
    hide Inv, Exec, Readable, LongCmd, PushAll, AllLong, Compact, Good, AllOlder;
    if c.CompactCmd? {
      InvOlder(s);
      CompactStep(s, c, f);
      CompactReadable(s.store, c.revision);
    } else {
      ExecGrown(s, c, f);
      var ps :| Exec(s, c, f).s.store == PushAll(s.store, ps) && AllLong(ps);
      PushAllReadable(s.store, ps);
    }
  }

  /** Over every run whose puts are long enough, every pair reads back. */
  lemma {:induction false} RunReadable(s: State, es: seq<Entry>, f: Flags)
    requires Inv(s) && Readable(s.store.hist) && EntriesOk(es) && LongEntries(es)
    requires Run(s, es, f).Batch? && Room(Run(s, es, f).s)
    ensures Readable(Run(s, es, f).s.store.hist)
  {
    hide Inv, Readable, Exec, LongCmd;
    if es != [] {
      var n := |es| - 1;
      var t := Run(s, es[..n], f).s;
      assert es[n] in es;
      StepGrows(t, es[n], f);
      RunKeeps(s, es[..n], f);
      RunReadable(s, es[..n], f);
      ExecReadable(t, es[n].cmd, f);
    }
  }

  // ---- logged versions ----

  ghost predicate HasEvent(evts: seq<Event>, key: bytes, r: Rev) {
    exists e <- evts :: e.key == key && e.rev == r
  }

  /** Every version of a key but its oldest has its event in the log. */
  ghost predicate Logged(s: Store) {
    forall k, i | k in s.hist && 0 <= i < |s.hist[k]| - 1 :: HasEvent(s.evts, k, RevOf(s.hist[k][i]))
  }

  lemma PushLogged(s: Store, epoch: nat, key: bytes, v: Version)
    requires Logged(s)
    ensures Logged(Push(s, epoch, key, v))
  {
    hide InsertKey;
    var t := Push(s, epoch, key, v);
    assert t.evts[|s.evts|] == Event(epoch, key, RevOf(v));
    forall k, i | k in t.hist && 0 <= i < |t.hist[k]| - 1 ensures HasEvent(t.evts, k, RevOf(t.hist[k][i])) {
      if k == key && i == 0 {
        assert t.evts[|s.evts|] in t.evts;
      } else {
        var j := if k == key then i - 1 else i;
        assert t.hist[k][i] == s.hist[k][j];
        var e :| e in s.evts && e.key == k && e.rev == RevOf(s.hist[k][j]);
        assert e in t.evts;
      }
    }
  }

  lemma {:induction false} PushAllLogged(s: Store, ps: seq<Pushed>)
    requires Logged(s)
    ensures Logged(PushAll(s, ps))
  {
    hide Logged, Push;
    if ps != [] {
      var p := ps[|ps| - 1];
      PushAllLogged(s, ps[..|ps| - 1]);
      PushLogged(PushAll(s, ps[..|ps| - 1]), p.epoch, p.key, p.v);
    }
  }

  /** LastBelow finds the newest event of the key below the target. */
  lemma {:induction false} LastBelowNewest(evts: seq<Event>, key: bytes, max: nat, e: Event)
    requires SortedEvents(evts) && e in evts && e.key == key && e.rev.upper < max
    ensures var r := LastBelow(evts, key, max); r.Some? && !Older(r.value, e.rev)
  {
    var n := |evts| - 1;
    if evts[n].key == key && evts[n].rev.upper < max {
      var i :| 0 <= i < |evts| && evts[i] == e;
      if i < n { assert !Older(evts[n].rev, evts[i].rev); }
    } else {
      assert evts == evts[..n] + [evts[n]];
      LastBelowNewest(evts[..n], key, max, e);
    }
  }

  /** What compaction leaves of a key above its oldest version is at the target or later. */
  lemma KeptAbove(s: Store, k: bytes, max: nat, i: nat)
    requires Good(s) && Logged(s) && k in s.hist
    requires i < |CompactVersions(s.hist[k], LastBelow(s.evts, k, max))| - 1
    ensures CompactVersions(s.hist[k], LastBelow(s.evts, k, max)) <= s.hist[k]
    ensures RevOf(s.hist[k][i]).upper >= max
  {
    var vs, last := s.hist[k], LastBelow(s.evts, k, max);
    assert GoodVersions(k, vs);
    var ws := CompactVersions(vs, last);
    if last.Some? {
      LastBelowSound(s.evts, k, max);
      KeepFromMembers(vs, last.value);
      CutAbove(vs, last.value, i);
    }
    assert ws[i] == vs[i];
    var e :| e in s.evts && e.key == k && e.rev == RevOf(vs[i]);
    hide Good;
    if e.rev.upper < max { LastBelowNewest(s.evts, k, max, e); }
  }

  lemma CutAbove(vs: Versions, r: Rev, i: nat)
    requires Descending(vs) && KeepFrom(vs, r) <= vs && i < |KeepFrom(vs, r)| - 1
    requires forall v :: v in KeepFrom(vs, r) <==> v in vs && !Older(RevOf(v), r)
    ensures Older(r, RevOf(vs[i]))
  {
    var ws := KeepFrom(vs, r);
    assert ws[i + 1] in ws && ws[i + 1] == vs[i + 1];
    assert Older(RevOf(vs[i + 1]), RevOf(vs[i]));
  }

  lemma CompactLogged(s: Store, max: nat)
    requires Good(s) && Logged(s)
    ensures Logged(Compact(s, max))
  {
    hide Good, CompactVersions, LastBelow, EventsFrom, HasEvent, RevOf;
    var t := Compact(s, max);
    forall k, i | k in t.hist && 0 <= i < |t.hist[k]| - 1 ensures HasEvent(t.evts, k, RevOf(t.hist[k][i])) {
      KeptAbove(s, k, max, i);
      KeptEvent(s, k, max, RevOf(s.hist[k][i]));
    }
  }

  lemma KeptEvent(s: Store, k: bytes, max: nat, r: Rev)
    requires Good(s) && HasEvent(s.evts, k, r) && r.upper >= max
    ensures HasEvent(EventsFrom(s.evts, max), k, r)
  {
    EventsFromAll(s.evts, max);
    hide Good, EventsFrom;
    var e :| e in s.evts && e.key == k && e.rev == r;
    assert e in EventsFrom(s.evts, max);
  }

  lemma ExecLogged(s: State, c: Cmd, f: Flags)
    requires Inv(s) && Logged(s.store) && Exec(s, c, f).Next?
    ensures Logged(Exec(s, c, f).s.store)
  {
    hide Inv, Exec, Logged, PushAll, AllLong, Compact, Good, AllOlder, LongCmd;
    if c.CompactCmd? {
      InvOlder(s);
      CompactStep(s, c, f);
      CompactLogged(s.store, c.revision);
    } else {
      ExecGrown(s, c, f);
      var ps :| Exec(s, c, f).s.store == PushAll(s.store, ps);
      PushAllLogged(s.store, ps);
    }
  }

  /** Over every run, every version but the oldest of its key is in the log. */
  lemma {:induction false} RunLogged(s: State, es: seq<Entry>, f: Flags)
    requires Inv(s) && Logged(s.store) && EntriesOk(es) && Run(s, es, f).Batch? && Room(Run(s, es, f).s)
    ensures Logged(Run(s, es, f).s.store)
  {
    hide Inv, Logged, Exec;
    if es != [] {
      var n := |es| - 1;
      var t := Run(s, es[..n], f).s;
      assert es[n] in es;
      StepGrows(t, es[n], f);
      RunKeeps(s, es[..n], f);
      RunLogged(s, es[..n], f);
      ExecLogged(t, es[n].cmd, f);
    }
  }

  lemma InitialGrowth()
    ensures Logged(INITIAL.store) && Readable(INITIAL.store.hist)
  {}

  // ---- what compaction leaves of earlier revisions ----

  /** The index of the version visible at a revision. */
  lemma {:induction false} VisibleAt(vs: Versions, r: nat) returns (i: nat)
    requires r > 0
    ensures i <= |vs| && (forall m | 0 <= m < i :: RevOf(vs[m]).upper > r) && (i < |vs| ==> RevOf(vs[i]).upper <= r)
    ensures Visible(vs, r) == if i < |vs| then Some(vs[i]) else None
  {
    if vs == [] || RevOf(vs[0]).upper <= r {
      i := 0;
    } else {
      var j := VisibleAt(vs[1..], r);
      i := j + 1;
      assert forall m | 1 <= m < i :: vs[m] == vs[1..][m - 1];
    }
  }

  /** If something newer is below the target, the version visible at r is cut off. */
  lemma CutOff(s: Store, k: bytes, max: nat, r: nat, j: nat)
    requires Good(s) && Logged(s) && k in s.hist && 0 < r < max && j < |s.hist[k]| - 1
    requires r < RevOf(s.hist[k][j]).upper < max
    ensures Visible(CompactVersions(s.hist[k], LastBelow(s.evts, k, max)), r) == None
  {
    var vs := s.hist[k];
    assert GoodVersions(k, vs);
    var e :| e in s.evts && e.key == k && e.rev == RevOf(vs[j]);
    LastBelowNewest(s.evts, k, max, e);
    hide Good, GoodVersions, LastBelow;
    var q := LastBelow(s.evts, k, max).value;
    KeepFromMembers(vs, q);
    NoneVisible(KeepFrom(vs, q), r);
  }

  lemma {:induction false} NoneVisible(vs: Versions, r: nat)
    requires r > 0 && forall v <- vs :: RevOf(v).upper > r
    ensures Visible(vs, r) == None
  {
    if vs != [] {
      assert vs[0] in vs;
      NoneVisible(vs[1..], r);
    }
  }

  /** Of what a key held at an earlier revision, compaction leaves what was still unchanged right below its target. */
  lemma CompactedEarlier(s: Store, k: bytes, max: nat, r: nat)
    requires Good(s) && Logged(s) && k in s.hist && 0 < r < max
    ensures var w := ValueAt(s.hist[k], r);
      ValueAt(CompactVersions(s.hist[k], LastBelow(s.evts, k, max)), r) ==
        if w.Some? && ValueAt(s.hist[k], max - 1) == w then w else None
  {
    hide Good, Logged, LastBelow, CompactVersions, Visible;
    var vs := s.hist[k];
    var i := VisibleAt(vs, r);
    var j := VisibleAt(vs, max - 1);
    if i == |vs| {
      NeverVisible(s, k, max, r, i);
    } else if j < i {
      CutOff(s, k, max, r, j);
      GoodHead(s, k);
      SameVersion(k, vs, j, i);
    } else {
      StillVisible(s, k, max, r, i);
    }
  }

  lemma NeverVisible(s: Store, k: bytes, max: nat, r: nat, i: nat)
    requires Good(s) && k in s.hist && r > 0 && i == |s.hist[k]|
    requires forall m | 0 <= m < i :: RevOf(s.hist[k][m]).upper > r
    ensures Visible(CompactVersions(s.hist[k], LastBelow(s.evts, k, max)), r) == None
  {
    CompactedVersions(s, k, max);
    hide Good, LastBelow, CompactVersions;
    NoneVisible(CompactVersions(s.hist[k], LastBelow(s.evts, k, max)), r);
  }

  lemma StillVisible(s: Store, k: bytes, max: nat, r: nat, i: nat)
    requires Good(s) && k in s.hist && 0 < r < max && i < |s.hist[k]| && RevOf(s.hist[k][i]).upper <= r
    requires forall m | 0 <= m < i :: RevOf(s.hist[k][m]).upper >= max
    ensures Visible(CompactVersions(s.hist[k], LastBelow(s.evts, k, max)), r) == Visible(s.hist[k], r)
  {
    hide Good, LastBelow, KeepFrom, Visible;
    var vs, last := s.hist[k], LastBelow(s.evts, k, max);
    if last.Some? {
      GoodHead(s, k);
      var m := LastIndex(s, k, max);
      if m > i { assert Older(RevOf(vs[m]), RevOf(vs[i])); }
      assert vs[m] in vs;
      VisibleKeep(vs, last.value, r);
    }
  }

  lemma LastIndex(s: Store, k: bytes, max: nat) returns (m: nat)
    requires Good(s) && k in s.hist && LastBelow(s.evts, k, max).Some?
    ensures m < |s.hist[k]| && RevOf(s.hist[k][m]) == LastBelow(s.evts, k, max).value
    ensures LastBelow(s.evts, k, max).value.upper < max
  {
    LastBelowSound(s.evts, k, max);
    var e :| e in s.evts && e.key == k && e.rev == LastBelow(s.evts, k, max).value;
    assert Recorded(s.hist, e);
    var v :| v in s.hist[k] && RevOf(v) == e.rev;
    m :| 0 <= m < |s.hist[k]| && s.hist[k][m] == v;
  }

  /** The pairs of m that n holds unchanged. */
  ghost function Unchanged(m: map<bytes, Kv>, n: map<bytes, Kv>): map<bytes, Kv> {
    map k | k in m && k in n && n[k] == m[k] :: m[k]
  }

  lemma CompactedSnapshot(s: Store, max: nat, r: nat)
    requires Good(s) && Logged(s) && 0 < r < max
    ensures SnapshotAt(Compact(s, max).hist, r) == Unchanged(SnapshotAt(s.hist, r), SnapshotAt(s.hist, max - 1))
  {
    hide Good, Logged, SnapshotAt, ValueAt, CompactVersions, LastBelow, EventsFrom;
    var h, g := s.hist, Compact(s, max).hist;
    var m := Unchanged(SnapshotAt(h, r), SnapshotAt(h, max - 1));
    forall k ensures k in SnapshotAt(g, r) <==> k in m { CompactedPair(s, max, r, k); }
    forall k | k in m ensures SnapshotAt(g, r)[k] == m[k] { CompactedPair(s, max, r, k); }
  }

  lemma CompactedPair(s: Store, max: nat, r: nat, k: bytes)
    requires Good(s) && Logged(s) && 0 < r < max
    ensures var m := SnapshotAt(Compact(s, max).hist, r);
      var n := Unchanged(SnapshotAt(s.hist, r), SnapshotAt(s.hist, max - 1));
      (k in m <==> k in n) && (k in n ==> m[k] == n[k])
  {
    NoVersions(r);
    NoVersions(max - 1);
    hide Good, Logged, SnapshotAt, ValueAt, CompactVersions, LastBelow, EventsFrom;
    SnapshotGet(Compact(s, max).hist, r, k);
    SnapshotGet(s.hist, r, k);
    SnapshotGet(s.hist, max - 1, k);
    if k in s.hist { CompactedEarlier(s, k, max, r); }
  }

  lemma NoVersions(r: nat)
    ensures ValueAt([], r) == None
  {}

  // ---- how old a pair is ----

  lemma PairAge(h: map<bytes, Versions>, r: nat, k: bytes)
    requires r > 0 && k in SnapshotAt(h, r)
    ensures SnapshotAt(h, r)[k].rev.upper <= r
  {
    var i := VisibleAt(h[k], r);
  }

  /** A pair written at q or before and there at r was there at q. */
  lemma EarlierPair(h: map<bytes, Versions>, q: nat, r: nat, k: bytes)
    requires 0 < q <= r && k in SnapshotAt(h, r) && SnapshotAt(h, r)[k].rev.upper <= q
    ensures k in SnapshotAt(h, q) && SnapshotAt(h, q)[k] == SnapshotAt(h, r)[k]
  {
    var i := VisibleAt(h[k], r);
    var j := VisibleAt(h[k], q);
    assert i == j;
  }

  // ---- the compaction bound ----

  lemma CmdPutFrame(s: State, rev: nat, sub: nat, q: PutReq, f: Flags)
    requires CmdPut(s, rev, sub, q, f).Did?
    ensures var t := CmdPut(s, rev, sub, q, f).s; t == s.(store := t.store, rows := t.rows)
  {}

  lemma CmdDeleteFrame(s: State, rev: nat, sub: nat, q: DeleteReq, f: Flags)
    requires CmdDeleteRange(s, rev, sub, q, f).Did?
    ensures var t := CmdDeleteRange(s, rev, sub, q, f).s; t == s.(store := t.store, rows := t.rows)
  {}

  lemma ExecMin(s: State, c: Cmd, f: Flags)
    requires Exec(s, c, f).Next? && !c.CompactCmd?
    ensures Exec(s, c, f).s.revMin == s.revMin
  {
    hide ExecTxn, ExecTick, ExecRevoke, KeepAlive, Grant, CmdPut, CmdDeleteRange;
    match c
    case PutCmd(q) => if CmdPut(s, s.rev + 1, 0, q, f).Did? { CmdPutFrame(s, s.rev + 1, 0, q, f); }
    case DeleteCmd(q) => CmdDeleteFrame(s, s.rev + 1, 0, q, f);
    case TxnCmd(_, _, _) => TxnMin(s, c, f);
    case RevokeCmd(id) => RevokeMin(s, U64(id));
    case TickCmd(term) => TickMin(s, term);
    case _ =>
  }

  lemma TxnMin(s: State, c: Cmd, f: Flags)
    requires c.TxnCmd? && ExecTxn(s, c, f).Next?
    ensures ExecTxn(s, c, f).s.revMin == s.revMin
  {
    hide RunOps, CompareAll;
    RunOpsFrame(s, s.rev + 1, c.success, f);
    RunOpsFrame(s, s.rev + 1, c.failure, f);
  }

  lemma RevokeMin(s: State, id: nat)
    requires ExecRevoke(s, id).Next?
    ensures ExecRevoke(s, id).s.revMin == s.revMin
  {
    hide DeleteAll, LeaseKeys, RowsWithout, Dropped;
  }

  lemma {:induction false} ExpireMin(s: State, due: seq<bytes>)
    requires (forall row <- due :: |row| >= 9) && Expire(s, due).Next?
    ensures Expire(s, due).s.revMin == s.revMin
  {
    hide ExecRevoke;
    if due != [] {
      ExpireMin(s, due[..|due| - 1]);
      RevokeMin(Expire(s, due[..|due| - 1]).s, ExpId(due[|due| - 1]));
    }
  }

  lemma TickMin(s: State, term: nat)
    requires ExecTick(s, term).Next?
    ensures ExecTick(s, term).s.revMin == s.revMin
  {
    hide Expire, Due;
    if s.term <= term {
      var b := Ticked(s.book);
      ExpireMin(s.(book := b), Due(b.exp, b.epoch));
    }
  }

  lemma StepMin(s: State, e: Entry, f: Flags)
    requires Step(s, e, f).Next?
    ensures Step(s, e, f).s.revMin == if e.cmd.CompactCmd? then e.cmd.revision else s.revMin
  {
    if e.cmd.CompactCmd? {
      hide Compact;
    } else {
      hide Exec;
      ExecMin(s, e.cmd, f);
    }
  }
}
