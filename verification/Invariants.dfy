/** What every entry keeps: a well-formed store, and lease tables that agree with each other. */
module Invariants {
  import opened Base
  import opened KeyRev
  import opened KvCodec
  import opened History
  import opened LeaseTables
  import opened DbKvs
  import opened Ranges
  import opened Machine

  /** Every row is readable, and its key has a history. */
  ghost predicate RowsOk(rows: seq<bytes>, h: map<bytes, Versions>) {
    && SortedKeys(rows) && (forall row <- rows :: IsRow(row))
    && (forall id: nat, key: bytes :: id < UINT64_LIMIT && Row(id, key) in rows ==> key in h)
  }

  /** All writes so far are older than `next`. */
  ghost predicate Core(s: State, next: Rev) {
    Good(s.store) && AllOlder(s.store, next) && RowsOk(s.rows, s.store.hist)
  }

  /** Every lease has the entry of its expiry in the index. */
  ghost predicate LeasesOk(leases: map<nat, Lease>, exp: seq<bytes>) {
    forall id <- leases ::
      && 0 < id < UINT64_LIMIT && leases[id].expires < UINT64_LIMIT && leases[id].renewed < UINT64_LIMIT
      && ExpRow(leases[id].expires, id) in exp
  }

  ghost predicate Leasing(b: Book) {
    SortedKeys(b.exp) && (forall row <- b.exp :: IsExpRow(row)) && LeasesOk(b.leases, b.exp)
  }

  ghost predicate Inv(s: State) {
    Core(s, Rev(s.rev + 1, 0, false)) && Leasing(s.book)
  }

  /** The counters still fit their encodings. */
  predicate Room(s: State) {
    s.rev + 1 < UPPER_LIMIT && s.book.epoch < UINT64_LIMIT && s.book.leaseId < UINT64_LIMIT
  }

  /**
   What the encodings ask of a transaction's operations. A put that keeps the value must not
   bring one: that is checked for single puts only, and otherwise the value it replaces may be
   patched against a text it will not be read with.
   */
  predicate OpsOk(ops: seq<TxnOp>) {
    && |ops| <= LOWER_LIMIT
    && forall op <- ops :: op.OpPut? ==> |op.put.val| < INT_LIMIT && (op.put.ignoreValue ==> op.put.val == [])
  }

  predicate CmdOk(c: Cmd) {
    match c
    case PutCmd(q) => |q.val| < INT_LIMIT
    case TxnCmd(_, success, failure) => OpsOk(success) && OpsOk(failure)
    case _ => true
  }

  // ---- writes stay ordered ----

  lemma AllOlderLater(s: Store, p: Rev, q: Rev)
    requires AllOlder(s, p) && !Older(q, p)
    ensures AllOlder(s, q)
  {
    hide Older;
    forall k, v | k in s.hist && v in s.hist[k] ensures Older(RevOf(v), q) { OlderTransitive(RevOf(v), p, q); }
    forall e | e in s.evts ensures Older(e.rev, q) { OlderTransitive(e.rev, p, q); }
  }

  lemma PushOlder(s: Store, epoch: nat, key: bytes, v: Version, q: Rev)
    requires AllOlder(s, q) && Older(RevOf(v), q)
    ensures AllOlder(Push(s, epoch, key, v), q)
  {
    hide Older;
    var t := Push(s, epoch, key, v);
    forall k, w | k in t.hist && w in t.hist[k] ensures Older(RevOf(w), q) {
      if k == key && w != v { assert w in Lookup(s.hist, key); }
    }
  }

  lemma {:induction false} DeleteAllOlder(s: Store, epoch: nat, ks: seq<bytes>, rev: Rev, q: Rev)
    requires AllOlder(s, q) && Older(rev, q)
    ensures AllOlder(DeleteAll(s, epoch, ks, rev), q)
  {
    if ks != [] {
      var n := |ks| - 1;
      DeleteAllOlder(s, epoch, ks[..n], rev, q);
      var t := DeleteAll(s, epoch, ks[..n], rev);
      hide AllOlder, Older, Push;
      if Current(t.hist, ks[n]).Some? { PushOlder(t, epoch, ks[n], Tomb(rev), q); }
    }
  }

  lemma {:induction false} DeleteAllGood(s: Store, epoch: nat, ks: seq<bytes>, rev: Rev)
    requires Good(s) && Packable(rev) && rev.del && AllOlder(s, rev)
    ensures Good(DeleteAll(s, epoch, ks, rev))
  {
    if ks != [] {
      var n := |ks| - 1;
      DeleteAllGood(s, epoch, ks[..n], rev);
      assert ks[..n + 1] == ks;
      hide Good;
      BatchTurn(s, epoch, ks, n, rev);
      DeleteGood(DeleteAll(s, epoch, ks[..n], rev), epoch, ks[n], rev);
    }
  }

  lemma RowsOkGrow(rows: seq<bytes>, h: map<bytes, Versions>, g: map<bytes, Versions>)
    requires RowsOk(rows, h) && h.Keys <= g.Keys
    ensures RowsOk(rows, g)
  {
    hide SortedKeys, IsRow, Row;
  }

  lemma RowsOkInsert(rows: seq<bytes>, h: map<bytes, Versions>, id: nat, key: bytes)
    requires RowsOk(rows, h) && id < UINT64_LIMIT && key in h
    ensures RowsOk(InsertKey(rows, Row(id, key)), h)
  {
    hide LexLess, Seek, InsertKey;
    InsertKeySorted(rows, Row(id, key));
    forall i: nat, k: bytes | i < UINT64_LIMIT && Row(i, k) in InsertKey(rows, Row(id, key)) ensures k in h {
      if Row(i, k) !in rows { RowsApart(i, k, id, key); }
    }
  }

  lemma RowsOkRemove(rows: seq<bytes>, h: map<bytes, Versions>, row: bytes)
    requires RowsOk(rows, h)
    ensures RowsOk(Remove(rows, row), h)
  {
    hide LexLess, Seek, Remove, IsRow;
    RemoveMembers(rows, row);
  }

  // ---- put ----

  lemma AttachOk(rows: seq<bytes>, h: map<bytes, Versions>, q: PutReq, prev: nat)
    requires RowsOk(rows, h) && q.key in h && Attach(rows, q, prev).Some?
    ensures RowsOk(Attach(rows, q, prev).value, h)
  {
    hide RowsOk, InsertKey, Remove;
    if !(q.ignoreLease || I64(prev) == q.lease) {
      var r := rows;
      if q.lease > 0 {
        RowsOkInsert(rows, h, U64(q.lease), q.key);
        r := InsertKey(rows, Row(U64(q.lease), q.key));
      }
      RowsOkRemove(r, h, Row(prev, q.key));
    }
  }

  lemma CmdPutKeeps(s: State, rev: nat, sub: nat, q: PutReq, f: Flags)
    requires Core(s, Rev(rev, sub, false)) && Packable(Rev(rev, sub, false)) && |q.val| < INT_LIMIT
    requires CmdPut(s, rev, sub, q, f).Did?
    ensures var t := CmdPut(s, rev, sub, q, f).s;
      Core(t, Rev(rev, sub + 1, false)) && t == s.(store := t.store, rows := t.rows)
  {
    hide Good, RowsOk, Attach, Written, Push;
    var a := ArgsOf(s, rev, sub, q);
    var t := CmdPut(s, rev, sub, q, f).s;
    PutGood(s.store, a);
    PutAllOlder(s.store, a);
    PutKeys(s.store, a);
    RowsOkGrow(s.rows, s.store.hist, t.store.hist);
    AttachOk(s.rows, t.store.hist, q, LeaseOf(Current(s.store.hist, q.key)));
  }

  lemma PutAllOlder(s: Store, a: PutArgs)
    requires AllOlder(s, Rev(a.rev, a.subrev, false))
    ensures AllOlder(Put(s, a), Rev(a.rev, a.subrev + 1, false))
  {
    hide Push;
    var q := Rev(a.rev, a.subrev + 1, false);
    AllOlderLater(s, Rev(a.rev, a.subrev, false), q);
    hide AllOlder;
    PushOlder(s, a.epoch, a.key, Live(Written(s, a), a.lease), q);
  }

  lemma PutKeys(s: Store, a: PutArgs)
    ensures Put(s, a).hist.Keys == s.hist.Keys + {a.key}
  {}

  // ---- delete ----

  lemma {:induction false} DetachOk(rows: seq<bytes>, h: map<bytes, Versions>, items: seq<(bytes, KeyRecord)>)
    requires RowsOk(rows, h) && Detach(rows, items).Some?
    ensures RowsOk(Detach(rows, items).value, h)
  {
    hide RowsOk, Remove, Row;
    if items != [] {
      var n := |items| - 1;
      DetachOk(rows, h, items[..n]);
      RowsOkRemove(Detach(rows, items[..n]).value, h, Row(items[n].1.lease, items[n].0));
    }
  }

  lemma DeleteStoreKeeps(s: Store, epoch: nat, ks: seq<bytes>, rev: nat, sub: nat)
    requires Good(s) && AllOlder(s, Rev(rev, sub, false)) && Packable(Rev(rev, sub, true))
    ensures var t := DeleteAll(s, epoch, ks, Rev(rev, sub, true));
      Good(t) && AllOlder(t, Rev(rev, sub + 1, false)) && t.hist.Keys == s.hist.Keys && t.keys == s.keys
  {
    var tomb := Rev(rev, sub, true);
    AllOlderLater(s, Rev(rev, sub, false), tomb);
    AllOlderLater(s, Rev(rev, sub, false), Rev(rev, sub + 1, false));
    DeleteAllKeys(s, epoch, ks, tomb);
    hide AllOlder, Good;
    DeleteAllGood(s, epoch, ks, tomb);
    DeleteAllOlder(s, epoch, ks, tomb, Rev(rev, sub + 1, false));
  }

  lemma CmdDeleteKeeps(s: State, rev: nat, sub: nat, q: DeleteReq, f: Flags)
    requires Core(s, Rev(rev, sub, false)) && Packable(Rev(rev, sub, true))
    requires CmdDeleteRange(s, rev, sub, q, f).Did?
    ensures var t := CmdDeleteRange(s, rev, sub, q, f).s;
      Core(t, Rev(rev, sub + 1, false)) && t == s.(store := t.store, rows := t.rows)
  {
    hide Good, RowsOk, Detach, DeleteAll, DeleteKeys, Doomed, PrevReads, WrittenAt;
    var ks := DeleteKeys(s.store.keys, q.key, q.end);
    var t := CmdDeleteRange(s, rev, sub, q, f).s;
    DeleteStoreKeeps(s.store, s.book.epoch, ks, rev, sub);
    RowsOkGrow(s.rows, s.store.hist, t.store.hist);
    DetachOk(s.rows, t.store.hist, Doomed(s.store, ks));
  }

  // ---- transactions ----

  lemma OneOpKeeps(s: State, rev: nat, sub: nat, op: TxnOp, f: Flags)
    requires Core(s, Rev(rev, sub, false)) && Packable(Rev(rev, sub, true)) && (op.OpPut? ==> |op.put.val| < INT_LIMIT)
    requires OneOp(s, rev, sub, op, f).Did?
    ensures var t := OneOp(s, rev, sub, op, f).s;
      Core(t, Rev(rev, sub + 1, false)) && t == s.(store := t.store, rows := t.rows)
  {
    hide Good, RowsOk, CmdPut, CmdDeleteRange, QueryRange;
    match op
    case OpPut(q) => CmdPutKeeps(s, rev, sub, q, f);
    case OpDelete(q) => CmdDeleteKeeps(s, rev, sub, q, f);
    case _ => AllOlderLater(s.store, Rev(rev, sub, false), Rev(rev, sub + 1, false));
  }

  lemma {:induction false} RunOpsKeeps(s: State, rev: nat, ops: seq<TxnOp>, f: Flags)
    requires Core(s, Rev(rev, 0, false)) && rev < UPPER_LIMIT && OpsOk(ops)
    ensures var p := RunOps(s, rev, ops, f);
      && (p.error.None? ==> Core(p.s, Rev(rev, |ops|, false)))
      && p.s == s.(store := p.s.store, rows := p.s.rows)
  {
    hide Core, OneOp;
    if ops != [] {
      var n := |ops| - 1;
      RunOpsKeeps(s, rev, ops[..n], f);
      var p := RunOps(s, rev, ops[..n], f);
      assert ops[n] in ops;
      if p.error.None? && OneOp(p.s, rev, n, ops[n], f).Did? { OneOpKeeps(p.s, rev, n, ops[n], f); }
    }
  }

  lemma ExecTxnKeeps(s: State, c: Cmd, f: Flags)
    requires Inv(s) && Room(s) && c.TxnCmd? && CmdOk(c) && ExecTxn(s, c, f).Next?
    ensures Inv(ExecTxn(s, c, f).s)
  {
    hide Good, RowsOk, CompareAll, RunOps, Leasing;
    var cond := CompareAll(s.store.hist, c.compare);
    var ops := if cond.value then c.success else c.failure;
    RunOpsKeeps(s, s.rev + 1, ops, f);
    var r := RunOps(s, s.rev + 1, ops, f);
    if r.error.None? {
      if r.keys == [] {
        NoKeysNoChange(s, s.rev + 1, ops, f);
      } else {
        AllOlderLater(r.s.store, Rev(s.rev + 1, |ops|, false), Rev(s.rev + 2, 0, false));
      }
    } else {
      AllOlderLater(s.store, Rev(s.rev + 1, 0, false), Rev(s.rev + 2, 0, false));
    }
  }

  /** Operations that touch no key leave everything as it was. */
  lemma {:induction false} NoKeysNoChange(s: State, rev: nat, ops: seq<TxnOp>, f: Flags)
    requires RunOps(s, rev, ops, f).keys == [] && RunOps(s, rev, ops, f).error.None?
    ensures RunOps(s, rev, ops, f).s == s
  {
    hide CmdPut, CmdDeleteRange, QueryRange;
    if ops != [] {
      var n := |ops| - 1;
      NoKeysNoChange(s, rev, ops[..n], f);
      match ops[n]
      case OpPut(q) => CmdPutTouches(s, rev, n, q, f);
      case OpDelete(q) => CmdDeleteNothing(s, rev, n, q, f);
      case _ =>
    }
  }

  lemma CmdPutTouches(s: State, rev: nat, sub: nat, q: PutReq, f: Flags)
    requires CmdPut(s, rev, sub, q, f).Did?
    ensures CmdPut(s, rev, sub, q, f).keys == [q.key]
  {}

  lemma {:induction false} DoomedNone(s: Store, epoch: nat, ks: seq<bytes>, rev: Rev)
    requires Doomed(s, ks) == []
    ensures DeleteAll(s, epoch, ks, rev) == s
  {
    if ks != [] { DoomedNone(s, epoch, ks[..|ks| - 1], rev); }
  }

  lemma CmdDeleteNothing(s: State, rev: nat, sub: nat, q: DeleteReq, f: Flags)
    requires CmdDeleteRange(s, rev, sub, q, f).Did? && CmdDeleteRange(s, rev, sub, q, f).keys == []
    ensures CmdDeleteRange(s, rev, sub, q, f).s == s
  {
    var ks := DeleteKeys(s.store.keys, q.key, q.end);
    assert |Reported(Doomed(s.store, ks))| == 2 * |Doomed(s.store, ks)|;
    DoomedNone(s.store, s.book.epoch, ks, Rev(rev, sub, true));
  }

  // ---- the other commands ----

  lemma ExecPutKeeps(s: State, q: PutReq, f: Flags)
    requires Inv(s) && Room(s) && |q.val| < INT_LIMIT && ExecPut(s, q, f).Next?
    ensures Inv(ExecPut(s, q, f).s)
  {
    hide Good, RowsOk, Leasing, CmdPut;
    var r := CmdPut(s, s.rev + 1, 0, q, f);
    if r.Did? {
      CmdPutKeeps(s, s.rev + 1, 0, q, f);
      AllOlderLater(r.s.store, Rev(s.rev + 1, 1, false), Rev(s.rev + 2, 0, false));
    }
  }

  lemma ExecDeleteKeeps(s: State, q: DeleteReq, f: Flags)
    requires Inv(s) && Room(s) && ExecDelete(s, q, f).Next?
    ensures Inv(ExecDelete(s, q, f).s)
  {
    hide Good, RowsOk, Leasing, CmdDeleteRange;
    var r := CmdDeleteRange(s, s.rev + 1, 0, q, f);
    CmdDeleteKeeps(s, s.rev + 1, 0, q, f);
    if r.keys == [] {
      CmdDeleteNothing(s, s.rev + 1, 0, q, f);
    } else {
      AllOlderLater(r.s.store, Rev(s.rev + 1, 1, false), Rev(s.rev + 2, 0, false));
    }
  }

  lemma {:induction false} LastBelowSound(evts: seq<Event>, key: bytes, max: nat)
    ensures var r := LastBelow(evts, key, max);
      r.Some? ==> r.value.upper < max && exists e <- evts :: e.key == key && e.rev == r.value
  {
    if evts != [] && !(evts[|evts| - 1].key == key && evts[|evts| - 1].rev.upper < max) {
      LastBelowSound(evts[..|evts| - 1], key, max);
    }
  }

  lemma CompactedVersions(s: Store, k: bytes, max: nat)
    requires Good(s) && k in s.hist
    ensures var ws := CompactVersions(s.hist[k], LastBelow(s.evts, k, max));
      && GoodVersions(k, ws) && (forall v <- ws :: v in s.hist[k])
      && (forall v <- s.hist[k] :: RevOf(v).upper >= max ==> v in ws)
  {
    LastBelowSound(s.evts, k, max);
    var last := LastBelow(s.evts, k, max);
    if last.Some? {
      var e :| e in s.evts && e.key == k && e.rev == last.value;
      assert Recorded(s.hist, e);
      assert GoodVersions(k, s.hist[k]);
      hide Good;
      KeepFromGood(k, s.hist[k], last.value);
      KeepFromMembers(s.hist[k], last.value);
    }
  }

  lemma CompactGood(s: Store, max: nat)
    requires Good(s)
    ensures Good(Compact(s, max))
  {
    var t := Compact(s, max);
    hide GoodVersions, CompactVersions, EventsFrom;
    forall k | k in t.hist ensures GoodVersions(k, t.hist[k]) { CompactedVersions(s, k, max); }
    EventsFromAll(s.evts, max);
    forall e | e in t.evts ensures Recorded(t.hist, e) {
      assert Recorded(s.hist, e);
      var v :| v in s.hist[e.key] && RevOf(v) == e.rev;
      CompactedVersions(s, e.key, max);
      assert v in t.hist[e.key];
    }
  }

  /** The log keeps exactly the events from revision max on. */
  lemma {:induction false} EventsFromAll(evts: seq<Event>, max: nat)
    requires SortedEvents(evts)
    ensures SortedEvents(EventsFrom(evts, max))
    ensures forall e :: e in EventsFrom(evts, max) <==> e in evts && e.rev.upper >= max
  {
    if evts != [] {
      if evts[0].rev.upper < max {
        EventsFromAll(evts[1..], max);
        assert evts == [evts[0]] + evts[1..];
      } else {
        forall e | e in evts ensures e.rev.upper >= max {
          var i :| 0 <= i < |evts| && evts[i] == e;
          if i > 0 { assert !Older(evts[i].rev, evts[0].rev); }
        }
      }
    }
  }

  lemma CompactOlder(s: Store, max: nat, q: Rev)
    requires Good(s) && AllOlder(s, q)
    ensures AllOlder(Compact(s, max), q)
  {
    var t := Compact(s, max);
    hide GoodVersions, CompactVersions, Older;
    forall k, v | k in t.hist && v in t.hist[k] ensures Older(RevOf(v), q) { CompactedVersions(s, k, max); }
    assert forall e <- t.evts :: e in s.evts;
  }

  lemma ExecCompactKeeps(s: State, max: nat)
    requires Inv(s) && ExecCompact(s, max).Next?
    ensures Inv(ExecCompact(s, max).s)
  {
    CompactGood(s.store, max);
    CompactOlder(s.store, max, Rev(s.rev + 1, 0, false));
    hide Good, AllOlder, RowsOk, Leasing;
    var t := ExecCompact(s, max).s;
    RowsOkGrow(s.rows, s.store.hist, t.store.hist);
  }

  /** A new or renewed lease gets its entry in the index. */
  lemma EnteredKeeps(b: Book, id: nat, l: Lease)
    requires Leasing(b) && 0 < id < UINT64_LIMIT && l.expires < UINT64_LIMIT && l.renewed < UINT64_LIMIT
    ensures Leasing(Entered(b, id, l))
  {
    hide InsertKey, ExpRow;
    InsertKeySorted(b.exp, ExpRow(l.expires, id));
  }

  lemma GrantKeeps(b: Book, id: int, ttl: int)
    requires Leasing(b) && b.epoch < UINT64_LIMIT && Grant(b, id, ttl).1.leaseId < UINT64_LIMIT
    ensures Leasing(Grant(b, id, ttl).1)
  {
    hide Leasing, Entered, NextLease;
    var l := Lease(U64(b.epoch + ttl), b.epoch);
    if U64(id) == 0 {
      var n := NextLease(b.leases, b.leaseId);
      EnteredLeaseId(b.(leaseId := n), n, l);
      LeasingFrame(b, b.(leaseId := n));
      EnteredKeeps(b.(leaseId := n), n, l);
    } else {
      EnteredKeeps(b, U64(id), l);
    }
  }

  lemma EnteredLeaseId(b: Book, id: nat, l: Lease)
    ensures Entered(b, id, l).leaseId == b.leaseId
  {}

  lemma LeasingFrame(b: Book, c: Book)
    requires Leasing(b) && c.leases == b.leases && c.exp == b.exp
    ensures Leasing(c)
  {}

  lemma CoreFrame(s: State, t: State, next: Rev)
    requires Core(s, next) && t.store == s.store && t.rows == s.rows
    ensures Core(t, next)
  {}

  lemma InvBook(s: State)
    requires Inv(s)
    ensures Leasing(s.book) && forall id <- s.book.leases :: 0 < id < UINT64_LIMIT
  {}

  lemma LeaseBounds(b: Book, id: nat)
    requires Leasing(b) && id in b.leases
    ensures 0 < id < UINT64_LIMIT && ExpRow(b.leases[id].expires, id) in b.exp
    ensures b.leases[id].expires < UINT64_LIMIT && b.leases[id].renewed < UINT64_LIMIT
  {}

  lemma {:induction false} KeepAliveKeeps(b: Book, ids: seq<int>)
    requires Leasing(b) && b.epoch < UINT64_LIMIT
    ensures var c := KeepAlive(b, ids).0;
      Leasing(c) && c.epoch == b.epoch && c.leaseId == b.leaseId
  {
    hide Leasing, InsertKey;
    if ids != [] {
      var n := |ids| - 1;
      KeepAliveKeeps(b, ids[..n]);
      var c := KeepAlive(b, ids[..n]).0;
      var id := U64(ids[n]);
      if id in c.leases {
        LeaseBounds(c, id);
        EnteredKeeps(c, id, Lease(U64(c.epoch + Ttl(c.leases[id])), c.epoch));
      }
    }
  }

  lemma ExecGrantKeeps(s: State, id: int, ttl: int)
    requires Inv(s) && Room(s) && Room(ExecGrant(s, id, ttl).s)
    ensures Inv(ExecGrant(s, id, ttl).s)
  {
    hide Core, Leasing, Grant;
    GrantKeeps(s.book, id, ttl);
    CoreFrame(s, ExecGrant(s, id, ttl).s, Rev(s.rev + 1, 0, false));
  }

  lemma ExecKeepAliveKeeps(s: State, ids: seq<int>)
    requires Inv(s) && Room(s)
    ensures Inv(ExecKeepAlive(s, ids).s)
  {
    hide Core, Leasing, KeepAlive;
    KeepAliveKeeps(s.book, ids);
    CoreFrame(s, ExecKeepAlive(s, ids).s, Rev(s.rev + 1, 0, false));
  }

  /** In a well-formed state a revocation finds everything it has to delete. */
  lemma RevokeFindsAll(s: State, rev: nat, id: nat)
    requires Leasing(s.book) && RowsOk(s.rows, s.store.hist)
    ensures Revoked(s, rev, id).Some?
  {
    if id in s.book.leases {
      LeaseBounds(s.book, id);
      forall k | k in RowKeys(s.rows, id) ensures k in s.store.hist {
        RowKeysMembers(s.rows, id, k);
      }
    }
  }

  lemma DroppedKeeps(b: Book, id: nat)
    requires Leasing(b) && id in b.leases
    ensures Leasing(Dropped(b, id))
  {
    hide Seek, Remove, LexLess, ExpRow;
    var l := b.leases[id];
    RemoveMembers(b.exp, ExpRow(l.expires, id));
    var c := Dropped(b, id);
    forall i | i in c.leases ensures ExpRow(c.leases[i].expires, i) in c.exp {
      LeaseBounds(b, i);
      ExpRowsApart(l.expires, id, b.leases[i].expires, i);
    }
  }

  lemma RevokedLeasing(s: State, rev: nat, id: nat)
    requires Leasing(s.book) && Revoked(s, rev, id).Some?
    ensures Leasing(Revoked(s, rev, id).value.book)
  {
    hide Leasing, Dropped, DeleteAll;
    if id in s.book.leases { DroppedKeeps(s.book, id); }
  }

  lemma RowsWithoutOk(rows: seq<bytes>, h: map<bytes, Versions>, id: nat)
    requires RowsOk(rows, h)
    ensures RowsOk(RowsWithout(rows, id), h)
  {
    hide IsRow, LexLess, KeyFor;
    RowsWithoutSorted(rows, id);
    var r := RowsWithout(rows, id);
    forall row | row in r ensures row in rows { RowsWithoutMembers(rows, id, row); }
  }

  lemma RevokedCore(s: State, id: nat)
    requires Core(s, Rev(s.rev + 1, 0, false)) && s.rev + 1 < UPPER_LIMIT && id in s.book.leases
    requires Revoked(s, s.rev + 1, id).Some?
    ensures Core(Revoked(s, s.rev + 1, id).value, Rev(Bump(s.rev, LeaseKeys(s, id)) + 1, 0, false))
  {
    hide Good, AllOlder, RowsOk, RowKeys, RowsWithout, DeleteAll, Remove, ExpRow;
    var t := Revoked(s, s.rev + 1, id).value;
    var ks := LeaseKeys(s, id);
    DeleteStoreKeeps(s.store, s.book.epoch, ks, s.rev + 1, 0);
    RowsOkGrow(s.rows, s.store.hist, t.store.hist);
    RowsWithoutOk(s.rows, t.store.hist, id);
    if ks == [] {
      DeleteAllNone(s.store, s.book.epoch, Rev(s.rev + 1, 0, true));
    } else {
      AllOlderLater(t.store, Rev(s.rev + 1, 1, false), Rev(s.rev + 2, 0, false));
    }
  }

  lemma ExecRevokeKeeps(s: State, id: nat)
    requires Inv(s) && s.rev + 1 < UPPER_LIMIT
    ensures ExecRevoke(s, id).Next? && Inv(ExecRevoke(s, id).s)
  {
    hide Core, Leasing, LeaseKeys;
    RevokeFindsAll(s, s.rev + 1, id) by {
      assert RowsOk(s.rows, s.store.hist) by { CoreRows(s, Rev(s.rev + 1, 0, false)); }
    }
    RevokedLeasing(s, s.rev + 1, id);
    if id in s.book.leases { RevokedCore(s, id); }
    RevokedNone(s, s.rev + 1, id);
    hide Revoked;
    var u, t := Revoked(s, s.rev + 1, id).value, ExecRevoke(s, id).s;
    CoreFrame(u, t, Rev(t.rev + 1, 0, false));
  }

  lemma CoreRows(s: State, next: Rev)
    requires Core(s, next)
    ensures RowsOk(s.rows, s.store.hist)
  {}

  lemma RevokedNone(s: State, rev: nat, id: nat)
    ensures id !in s.book.leases ==> Revoked(s, rev, id) == Some(s) && LeaseKeys(s, id) == []
  {}

  /** Counters only grow. */
  ghost predicate Grows(s: State, t: State) {
    s.rev <= t.rev && s.book.epoch <= t.book.epoch && s.book.leaseId <= t.book.leaseId && s.term <= t.term
  }

  lemma ExecRevokeGrows(s: State, id: nat)
    requires ExecRevoke(s, id).Next?
    ensures var t := ExecRevoke(s, id).s;
      Grows(s, t) && t.book.epoch == s.book.epoch && t.book.leaseId == s.book.leaseId
  {
    hide RowKeys, RowsWithout, DeleteAll, Remove;
  }

  /** What revocations need to find what they delete, however large the revision has become. */
  ghost predicate Revocable(s: State) {
    && Leasing(s.book) && RowsOk(s.rows, s.store.hist)
    && SortedKeys(s.store.keys) && (forall k :: k in s.store.keys <==> k in s.store.hist)
  }

  lemma RevokeKeepsRevocable(s: State, id: nat)
    requires Revocable(s)
    ensures ExecRevoke(s, id).Next? && Revocable(ExecRevoke(s, id).s)
  {
    hide Revoked, RowsOk, LeaseKeys, SortedKeys, Leasing;
    RevokeFindsAll(s, s.rev + 1, id);
    RevokedLeasing(s, s.rev + 1, id);
    if id in s.book.leases { RevokedRows(s, id); }
    RevokedNone(s, s.rev + 1, id);
  }

  lemma RevokedRows(s: State, id: nat)
    requires Revocable(s) && id in s.book.leases && Revoked(s, s.rev + 1, id).Some?
    ensures var t := Revoked(s, s.rev + 1, id).value;
      && RowsOk(t.rows, t.store.hist)
      && SortedKeys(t.store.keys) && (forall k :: k in t.store.keys <==> k in t.store.hist)
  {
    hide RowsOk, Leasing, SortedKeys, RowKeys, RowsWithout, DeleteAll, Remove, ExpRow;
    var t := Revoked(s, s.rev + 1, id).value;
    DeleteAllKeys(s.store, s.book.epoch, LeaseKeys(s, id), Rev(s.rev + 1, 0, true));
    RowsOkGrow(s.rows, s.store.hist, t.store.hist);
    RowsWithoutOk(s.rows, t.store.hist, id);
    assert forall k :: k in t.store.keys <==> k in t.store.hist.Keys;
  }

  /** Expiry never brings a replica down. */
  lemma {:induction false} ExpireNeverCrashes(s: State, due: seq<bytes>)
    requires Revocable(s) && forall row <- due :: |row| >= 9
    ensures Expire(s, due).Next? && Revocable(Expire(s, due).s)
  {
    hide Revocable, ExecRevoke;
    if due != [] {
      var n := |due| - 1;
      ExpireNeverCrashes(s, due[..n]);
      RevokeKeepsRevocable(Expire(s, due[..n]).s, ExpId(due[n]));
    }
  }

  lemma {:induction false} ExpireGrows(s: State, due: seq<bytes>)
    requires (forall row <- due :: |row| >= 9) && Expire(s, due).Next?
    ensures var t := Expire(s, due).s; Grows(s, t) && t.book.epoch == s.book.epoch && t.book.leaseId == s.book.leaseId
  {
    hide ExecRevoke;
    if due != [] {
      var n := |due| - 1;
      ExpireGrows(s, due[..n]);
      ExecRevokeGrows(Expire(s, due[..n]).s, ExpId(due[n]));
    }
  }

  lemma InvRevocable(s: State)
    requires Inv(s)
    ensures Revocable(s)
  {}

  lemma {:induction false} ExpireKeeps(s: State, due: seq<bytes>)
    requires Inv(s) && (forall row <- due :: |row| >= 9)
    requires (Expire(s, due).Next? ==> Expire(s, due).s.rev + 1 < UPPER_LIMIT)
    ensures Expire(s, due).Next? && Inv(Expire(s, due).s)
  {
    InvRevocable(s);
    hide Inv, ExecRevoke, Revocable;
    ExpireNeverCrashes(s, due);
    if due != [] {
      var n := |due| - 1;
      ExpireNeverCrashes(s, due[..n]);
      var t := Expire(s, due[..n]).s;
      ExecRevokeGrows(t, ExpId(due[n]));
      ExpireKeeps(s, due[..n]);
      ExecRevokeKeeps(t, ExpId(due[n]));
    }
  }

  lemma ExecTickKeeps(s: State, term: nat)
    requires Inv(s)
    ensures ExecTick(s, term).Next?
    ensures Room(ExecTick(s, term).s) ==> Inv(ExecTick(s, term).s)
  {
    hide Inv, Expire, Revocable, Due;
    if s.term <= term {
      var t := s.(book := Ticked(s.book));
      InvFrame(s, t);
      InvRevocable(t);
      ExpireNeverCrashes(t, Due(t.book.exp, t.book.epoch));
      if Room(ExecTick(s, term).s) { ExpireKeeps(t, Due(t.book.exp, t.book.epoch)); }
    }
  }

  lemma InvFrame(s: State, t: State)
    requires Inv(s) && t.store == s.store && t.rows == s.rows && t.book.leases == s.book.leases
    requires t.book.exp == s.book.exp && t.rev == s.rev
    ensures Inv(t)
  {}

  // ---- entries ----

  lemma {:induction false} KeepAliveGrows(b: Book, ids: seq<int>)
    ensures var c := KeepAlive(b, ids).0; c.epoch == b.epoch && c.leaseId == b.leaseId
  {
    if ids != [] { KeepAliveGrows(b, ids[..|ids| - 1]); }
  }

  lemma OneOpFrame(s: State, rev: nat, sub: nat, op: TxnOp, f: Flags)
    requires OneOp(s, rev, sub, op, f).Did?
    ensures var t := OneOp(s, rev, sub, op, f).s; t == s.(store := t.store, rows := t.rows)
  {}

  lemma {:induction false} RunOpsFrame(s: State, rev: nat, ops: seq<TxnOp>, f: Flags)
    ensures var t := RunOps(s, rev, ops, f).s; t == s.(store := t.store, rows := t.rows)
  {
    hide OneOp;
    if ops != [] {
      var n := |ops| - 1;
      RunOpsFrame(s, rev, ops[..n], f);
      var p := RunOps(s, rev, ops[..n], f);
      if OneOp(p.s, rev, n, ops[n], f).Did? { OneOpFrame(p.s, rev, n, ops[n], f); }
    }
  }

  lemma ExecTxnGrows(s: State, c: Cmd, f: Flags)
    requires c.TxnCmd? && ExecTxn(s, c, f).Next?
    ensures Grows(s, ExecTxn(s, c, f).s)
  {
    hide RunOps, CompareAll;
    RunOpsFrame(s, s.rev + 1, c.success, f);
    RunOpsFrame(s, s.rev + 1, c.failure, f);
  }

  lemma ExecTickGrows(s: State, term: nat)
    requires ExecTick(s, term).Next?
    ensures Grows(s, ExecTick(s, term).s)
  {
    hide Expire, Due;
    if s.term <= term {
      var t := s.(book := Ticked(s.book));
      ExpireGrows(t, Due(t.book.exp, t.book.epoch));
    }
  }

  lemma ExecGrows(s: State, c: Cmd, f: Flags)
    requires Exec(s, c, f).Next?
    ensures Grows(s, Exec(s, c, f).s)
  {
    hide ExecTxn, ExecTick, ExecRevoke, KeepAlive, Inv, Revoked, RunOps;
    match c
    case TxnCmd(_, _, _) => ExecTxnGrows(s, c, f);
    case TickCmd(term) => ExecTickGrows(s, term);
    case RevokeCmd(id) => ExecRevokeGrows(s, U64(id));
    case KeepAliveCmd(id) => KeepAliveGrows(s.book, [id]);
    case KeepAliveBatchCmd(ids) => KeepAliveGrows(s.book, ids);
    case _ =>
  }

  lemma RoomBefore(s: State, c: Cmd, f: Flags)
    requires Exec(s, c, f).Next? && Room(Exec(s, c, f).s)
    ensures Room(s)
  {
    hide Exec;
    ExecGrows(s, c, f);
  }

  /** Every command keeps the invariant, as long as the counters fit. */
  lemma ExecKeeps(s: State, c: Cmd, f: Flags)
    requires Inv(s) && CmdOk(c) && Exec(s, c, f).Next? && Room(Exec(s, c, f).s)
    ensures Inv(Exec(s, c, f).s)
  {
    hide ExecTxn, ExecTick, ExecRevoke, ExecPut, ExecDelete, ExecCompact, ExecGrant, ExecKeepAlive, Inv, OpsOk;
    ExecGrows(s, c, f);
    match c
    case PutCmd(q) => ExecPutKeeps(s, q, f);
    case DeleteCmd(q) => ExecDeleteKeeps(s, q, f);
    case CompactCmd(max) => ExecCompactKeeps(s, max);
    case TxnCmd(_, _, _) => ExecTxnKeeps(s, c, f);
    case GrantCmd(id, ttl) => ExecGrantKeeps(s, id, ttl);
    case RevokeCmd(id) => ExecRevokeKeeps(s, U64(id));
    case KeepAliveCmd(id) => ExecKeepAliveKeeps(s, [id]);
    case KeepAliveBatchCmd(ids) => ExecKeepAliveKeeps(s, ids);
    case TickCmd(term) => ExecTickKeeps(s, term);
    case TermCmd(term) => InvFrame(s, Exec(s, c, f).s);
    case Garbled =>
  }

  lemma InitialInv()
    ensures Inv(INITIAL) && Room(INITIAL)
  {}

  ghost predicate EntriesOk(es: seq<Entry>) {
    forall e <- es :: CmdOk(e.cmd)
  }

  lemma StepGrows(s: State, e: Entry, f: Flags)
    requires Step(s, e, f).Next?
    ensures Grows(s, Step(s, e, f).s)
  {
    hide Exec;
    ExecGrows(s, e.cmd, f);
  }

  lemma StepKeeps(s: State, e: Entry, f: Flags)
    requires Inv(s) && Step(s, e, f).Next? && CmdOk(e.cmd) && Room(Step(s, e, f).s)
    ensures Inv(Step(s, e, f).s)
  {
    hide Exec, Inv;
    ExecKeeps(s, e.cmd, f);
    InvFrame(Exec(s, e.cmd, f).s, Step(s, e, f).s);
  }

  /** Every state a run reaches is well-formed, and the counters never go back. */
  lemma {:induction false} RunKeeps(s: State, es: seq<Entry>, f: Flags)
    requires Run(s, es, f).Batch?
    ensures Grows(s, Run(s, es, f).s)
    ensures Inv(s) && EntriesOk(es) && Room(Run(s, es, f).s) ==> Inv(Run(s, es, f).s)
  {
    hide Inv, Step;
    if es != [] {
      var n := |es| - 1;
      var t := Run(s, es[..n], f).s;
      RunKeeps(s, es[..n], f);
      StepGrows(t, es[n], f);
      if Inv(s) && EntriesOk(es) && Room(Run(s, es, f).s) {
        assert es[n] in es;
        StepKeeps(t, es[n], f);
      }
    }
  }

  // ---- a range inside a transaction ----

  lemma {:induction false} RunOpsStops(s: State, r: nat, ops: seq<TxnOp>, i: nat, f: Flags)
    requires i <= |ops| && RunOps(s, r, ops[..i], f).error.Some?
    ensures RunOps(s, r, ops, f) == RunOps(s, r, ops[..i], f)
  {
    hide OneOp;
    if i == |ops| {
      assert ops[..i] == ops;
    } else {
      assert ops[..|ops| - 1][..i] == ops[..i];
      RunOpsStops(s, r, ops[..|ops| - 1], i, f);
    }
  }

  /** A range request that a client on its own gets an error for. */
  ghost predicate RangeFails(s: State, rev: nat, q: RangeReq) {
    || 0 < q.revision < s.revMin || q.revision > rev
    || Stuck(s.store.hist, Picks(s.store.hist, s.store.keys, q), q)
  }

  lemma QueryFailsIff(s: State, rev: nat, q: RangeReq, f: Flags)
    requires Good(s.store)
    ensures QueryRange(s, rev, q, f).Err? <==> RangeFails(s, rev, q)
    ensures QueryRange(s, rev, q, f).Err? ==> !Answerable(QueryRange(s, rev, q, f).error)
  {
    GoodKeys(s.store);
    hide Good, Picks, RangeOf, Stuck, Ranged, Selects;
    RangeConcludes(s.store.hist, s.store.keys, q, f);
  }

  lemma RangeOpStep(s: State, rev: nat, ops: seq<TxnOp>, n: nat, f: Flags)
    requires Core(s, Rev(rev, 0, false)) && rev < UPPER_LIMIT && OpsOk(ops)
    requires n < |ops| && ops[n].OpRange? && RunOps(s, rev, ops[..n], f).error.None?
    ensures var before, after := RunOps(s, rev, ops[..n], f), RunOps(s, rev, ops[..n + 1], f);
      if RangeFails(before.s, rev, ops[n].range) then after.error.Some? && !Answerable(after.error.value)
      else after.error.None? && after.s == before.s && |after.out| == |before.out| + 1
  {
    hide RangeFails, Core, QueryRange, Answerable;
    RunOpsKeeps(s, rev, ops[..n], f);
    var before := RunOps(s, rev, ops[..n], f).s;
    CoreGood(before, Rev(rev, n, false));
    QueryFailsIff(before, rev, ops[n].range, f);
    assert ops[..n + 1][..n] == ops[..n];
  }

  /** It brings the replica down when a transaction comes to it, at any place; otherwise the transaction goes on. */
  lemma RangeInTxnCrashes(s: State, c: Cmd, n: nat, f: Flags)
    requires Inv(s) && s.rev + 1 < UPPER_LIMIT && c.TxnCmd? && CmdOk(c) && CompareAll(s.store.hist, c.compare).Ok?
    requires var ops := if CompareAll(s.store.hist, c.compare).value then c.success else c.failure;
      n < |ops| && ops[n].OpRange? && RunOps(s, s.rev + 1, ops[..n], f).error.None?
    ensures var ops := if CompareAll(s.store.hist, c.compare).value then c.success else c.failure;
      var before, after := RunOps(s, s.rev + 1, ops[..n], f), RunOps(s, s.rev + 1, ops[..n + 1], f);
      if RangeFails(before.s, s.rev + 1, ops[n].range) then ExecTxn(s, c, f).Crash?
      else after.error.None? && after.s == before.s && |after.out| == |before.out| + 1
  {
    hide CompareAll, RangeFails, Core, RunOps, OpsOk, Answerable;
    var ops := if CompareAll(s.store.hist, c.compare).value then c.success else c.failure;
    RangeOpStep(s, s.rev + 1, ops, n, f);
    if RunOps(s, s.rev + 1, ops[..n + 1], f).error.Some? { RunOpsStops(s, s.rev + 1, ops, n + 1, f); }
  }

  lemma CoreGood(s: State, next: Rev)
    requires Core(s, next)
    ensures Good(s.store)
  {}
}
