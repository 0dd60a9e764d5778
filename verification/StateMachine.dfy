/** state_machine.go: a replica applies batches of entries to its tables. */
module StateMachines {
  import opened Base
  import opened KeyRev
  import opened KvCodec
  import opened History
  import opened LeaseTables
  import opened DbKvs
  import opened Machine
  import opened Invariants
  import PlainTables

  class StateMachine {
    const kv: DbKv
    const lk: DbLeaseKey
    const le: DbLeaseExp
    const sweepLimit: nat
    var leases: map<nat, Lease>
    var epoch: nat
    var rev: nat
    var revMin: nat
    var revCompacted: nat
    var term: nat
    var leaseId: nat
    var index: nat

    /** The state in the middle of a batch, which has come to revision r at index i. */
    ghost function View(r: nat, i: nat): State
      reads this, kv, lk, le
    {
      State(kv.Abs(), lk.rows, Book(leases, le.rows, epoch, leaseId), r, revMin, revCompacted, term, i)
    }

    ghost function Abs(): State
      reads this, kv, lk, le
    {
      View(rev, index)
    }

    ghost predicate Valid()
      reads this, kv, lk, le
    {
      kv.Valid() && Inv(Abs()) && sweepLimit > 0
    }

    constructor (host: Host, cfg: Config, flags: Flags)
      requires Sound(host)
      ensures Valid() && Abs() == INITIAL && fresh(kv) && fresh(lk) && fresh(le) && kv.flags == flags
    {
      kv := new DbKv(host, cfg, flags);
      lk := new DbLeaseKey();
      le := new DbLeaseExp();
      sweepLimit := 100;
      leases, epoch, rev, revMin, revCompacted, term, leaseId, index := map[], 0, 1, 1, 0, 0, 0, 0;
      new;
      InitialInv();
    }

    // ---- put and delete ----

    /** cmdPut: the put, and the move of the key from its old lease to the new one. */
    method CmdPut(r: nat, sub: nat, q: PutReq, ghost s: State)
      returns (res: Result<OpReply, OpError>, affected: seq<bytes>)
      requires kv.Valid() && lk.Valid() && s == View(s.rev, s.index) && AllOlder(s.store, Rev(r, sub, false))
      requires Packable(Rev(r, sub, false)) && |q.val| < INT_LIMIT && (q.ignoreValue ==> q.val == [])
      modifies kv, lk
      ensures match Machine.CmdPut(s, r, sub, q, kv.flags)
        case Did(t, out, keys) =>
          && res.Ok? && out == Some(res.value) && affected == keys && t == View(s.rev, s.index)
          && kv.Valid() && lk.Valid()
        case Fails(e) => res == Err(e)
      ensures res.Err? && res.error != NotFound ==> unchanged(kv) && unchanged(lk)
    {
      hide Good, Represents, Sound, AllOlder, History.Put, PutFails, Current, Written, SortedKeys;
      hide IsRow, InsertKey, Remove, Row, FromBytes;
      var put := kv.Put(PutArgs(r, sub, U64(q.lease), epoch, q.key, q.val, q.ignoreValue, q.ignoreLease));
      if put.Err? { return Err(put.error), []; }
      var prev := put.value.prev;
      var lease := LeaseOf(prev);
      if !q.ignoreLease && I64(lease) != q.lease {
        if q.lease > 0 { lk.Put(U64(q.lease), q.key); }
        if lease > 0 {
          var found := lk.Del(lease, q.key);
          if !found { return Err(NotFound), []; }
        }
      }
      return Ok(PutReply(if q.prevKv then Some(prev) else None)), [q.key];
    }

    /** cmdDeleteRange: the tombstones, the rows of the deleted keys, and what they held if asked. */
    method CmdDeleteRange(r: nat, sub: nat, q: DeleteReq, ghost s: State)
      returns (res: Result<OpReply, OpError>, affected: seq<bytes>)
      requires kv.Valid() && lk.Valid() && s == View(s.rev, s.index) && AllOlder(s.store, Rev(r, sub, false))
      requires Packable(Rev(r, sub, true))
      modifies kv, lk
      ensures match Machine.CmdDeleteRange(s, r, sub, q, kv.flags)
        case Did(t, out, keys) =>
          && res.Ok? && out == Some(res.value) && affected == keys && t == View(s.rev, s.index)
          && kv.Valid() && lk.Valid()
        case Fails(e) => res == Err(e)
    {
      hide Good, Represents, Sound, AllOlder, History.DeleteRange, Doomed, DeleteKeys, SortedKeys;
      hide IsRow, Remove, Row, WrittenAt, Detach, PrevReads, ReadWithPrev;
      AllOlderLater(s.store, Rev(r, sub, false), Rev(r, sub, true));
      var del := kv.DeleteRange(r, sub, epoch, q.key, q.end);
      if del.Err? { return Err(del.error), []; }
      var items := del.value;
      var ok := DetachRows(items);
      if !ok { return Err(NotFound), []; }
      var prevs, err := [], None;
      if q.prevKv { prevs, err := ReadPrevs(items); }
      if err.Some? { return Err(Storage(err.value)), []; }
      return Ok(DeleteReply(|items|, prevs)), Reported(items);
    }

    /** The loop that deletes the lease_key rows of deleted keys. */
    method DetachRows(items: seq<(bytes, KeyRecord)>) returns (ok: bool)
      requires lk.Valid()
      modifies lk
      ensures lk.Valid()
      ensures if ok then Detach(old(lk.rows), items) == Some(lk.rows) else Detach(old(lk.rows), items).None?
    {
      hide SortedKeys, IsRow, Remove, Row;
      for i := 0 to |items|
        invariant lk.Valid() && Detach(old(lk.rows), items[..i]) == Some(lk.rows)
      {
        assert items[..i + 1][..i] == items[..i];
        if items[i].1.lease != 0 {
          var found := lk.Del(items[i].1.lease, items[i].0);
          if !found {
            DetachStops(old(lk.rows), items, i + 1);
            return false;
          }
        }
      }
      assert items[..|items|] == items;
      return true;
    }

    /** The loop that reads what the deleted keys held; only the last error is kept. */
    method ReadPrevs(items: seq<(bytes, KeyRecord)>) returns (prevs: seq<Option<Kv>>, err: Option<Error>)
      requires kv.Valid()
      ensures (prevs, err) == PrevReads(kv.hist, items)
    {
      hide Good, Represents, Sound, ReadWithPrev;
      prevs, err := [], None;
      for i := 0 to |items|
        invariant (prevs, err) == PrevReads(kv.hist, items[..i])
      {
        assert items[..i + 1][..i] == items[..i];
        var got := kv.GetRev(items[i].0, items[i].1.rev.upper, false);
        prevs := prevs + [if got.Ok? then got.value.0 else None];
        err := if got.Ok? then None else Some(got.error);
      }
      assert items[..|items|] == items;
    }

    // ---- transactions ----

    /** queryRange at revision r, which is the current one or, inside a transaction, the next. */
    method QueryRange(r: nat, q: RangeReq, ghost s: State) returns (res: Result<RangeResult, OpError>)
      requires kv.Valid() && s == View(s.rev, s.index)
      ensures res == Machine.QueryRange(s, r, q, kv.flags)
    {
      hide Good, Represents, Sound, RangeOf;
      if q.revision > 0 {
        if q.revision < revMin { return Err(Compacted); }
        if q.revision > r { return Err(FutureRev); }
      }
      var got := kv.GetRange(q);
      if got.Err? { return Err(Storage(got.error)); }
      var count := if q.countOnly || kv.flags.countFull || kv.flags.countFake then got.value.count else 0;
      if q.countOnly { return Ok(RangeResult([], count, false)); }
      return Ok(RangeResult(got.value.items, count, got.value.more));
    }

    /** txnCompare: reads the keys of the conditions up to the first that does not hold. */
    method TxnCompare(conds: seq<Compare>) returns (res: Result<bool, Error>)
      requires kv.Valid()
      ensures res == CompareAll(kv.hist, conds)
      ensures res.Ok? ==> (res.value <==> PlainTables.AllHold(SnapshotAt(kv.hist, 0), conds))
    {
      hide Good, Represents, Sound, ReadWithPrev, Holds, SnapshotAt, PlainTables.AllHold;
      PlainTables.CompareAgrees(kv.hist, conds);
      var i := 0;
      assert conds[0..] == conds;
      while i < |conds|
        invariant i <= |conds| && CompareAll(kv.hist, conds) == CompareAll(kv.hist, conds[i..])
      {
        assert conds[i..][1..] == conds[i + 1..];
        var item := kv.GetRev(conds[i].key, 0, false);
        if item.Err? { return Err(item.error); }
        if conds[i].target.Mismatched? { return Err(BadField); }
        if !Holds(conds[i], item.value.0) { return Ok(false); }
        i := i + 1;
      }
      return Ok(true);
    }

    /** One operation of a transaction. */
    method ApplyOp(r: nat, sub: nat, op: TxnOp, ghost s: State)
      returns (res: Result<Option<OpReply>, OpError>, affected: seq<bytes>)
      requires kv.Valid() && s == View(s.rev, s.index) && Core(s, Rev(r, sub, false)) && Packable(Rev(r, sub, true))
      requires op.OpPut? ==> |op.put.val| < INT_LIMIT && (op.put.ignoreValue ==> op.put.val == [])
      modifies kv, lk
      ensures match OneOp(s, r, sub, op, kv.flags)
        case Did(t, out, keys) => res == Ok(out) && affected == keys && t == View(s.rev, s.index) && kv.Valid()
        case Fails(e) => res == Err(e)
    {
      CoreLists(s, Rev(r, sub, false));
      hide Good, Represents, Sound, AllOlder, RowsOk, SortedKeys, IsRow, Machine.CmdPut;
      hide Machine.CmdDeleteRange, Machine.QueryRange, Core;
      match op {
        case OpPut(q) =>
          var put, keys := CmdPut(r, sub, q, s);
          if put.Err? { return Err(put.error), []; }
          return Ok(Some(put.value)), keys;
        case OpDelete(q) =>
          var del, keys := CmdDeleteRange(r, sub, q, s);
          if del.Err? { return Err(del.error), []; }
          return Ok(Some(del.value)), keys;
        case OpRange(q) =>
          var got := QueryRange(r, q, s);
          if got.Err? { return Err(got.error), []; }
          return Ok(Some(RangeReply(got.value))), [];
        case OpOther => return Ok(None), [];
      }
    }

    /** txnOps: all operations, or none: a failure takes the tables back to where they were. */
    method TxnOps(r: nat, ops: seq<TxnOp>, ghost s: State)
      returns (out: seq<OpReply>, keys: seq<bytes>, error: Option<OpError>)
      requires kv.Valid() && s == View(s.rev, s.index) && Core(s, Rev(r, 0, false)) && r < UPPER_LIMIT
      requires OpsOk(ops)
      modifies kv, lk
      ensures kv.Valid()
      ensures var p := RunOps(s, r, ops, kv.flags);
        && keys == p.keys && error == p.error
        && (error.None? ==> out == p.out && p.s == View(s.rev, s.index))
        && (error.Some? ==> View(s.rev, s.index) == s)
    {
      hide Good, Represents, Sound, Core, OneOp;
      var keys0, recs0, val0, evt0, rows0 := kv.keys, kv.recs, kv.val, kv.evt, lk.rows;
      ghost var hist0 := kv.hist;
      out, keys, error := [], [], None;
      for i := 0 to |ops|
        invariant kv.Valid() && RunOps(s, r, ops[..i], kv.flags) == Ops(View(s.rev, s.index), out, keys, None)
      {
        assert ops[..i + 1][..i] == ops[..i] && ops[i] in ops;
        RunOpsKeeps(s, r, ops[..i], kv.flags);
        var got, affected := ApplyOp(r, i, ops[i], View(s.rev, s.index));
        if got.Err? {
          RunOpsStops(s, r, ops, i + 1, kv.flags);
          kv.keys, kv.recs, kv.val, kv.evt, kv.hist := keys0, recs0, val0, evt0, hist0;
          lk.rows := rows0;
          return out, keys, Some(got.error);
        }
        out := out + if got.value.Some? then [got.value.value] else [];
        keys := keys + affected;
      }
      assert ops[..|ops|] == ops;
    }

    // ---- leases ----

    /** cmdLeaseGrant: under the id asked for, or under the next free one. */
    method LeaseGrant(id: int, ttl: int, r: nat, ghost s: State) returns (reply: Reply)
      requires s == View(r, s.index) && le.Valid() && Room(s) && Room(ExecGrant(s, id, ttl).s)
      modifies this`leases, this`leaseId, le
      ensures ExecGrant(s, id, ttl) == Next(View(r, s.index), reply, [])
      ensures reply == GrantExists(r) <==>
        U64(id) != 0 && U64(id) in old(leases) && old(leases)[U64(id)].expires > 0
      ensures reply == GrantExists(r) ==> leases == old(leases) && leaseId == old(leaseId) && le.rows == old(le.rows)
    {
      hide SortedKeys, IsExpRow, InsertKey, ExpRow, NextLease;
      var n := U64(id);
      if n == 0 {
        n := FreeId();
        leaseId := n;
      } else if n in leases && leases[n].expires > 0 {
        return GrantExists(r);
      }
      var l := Lease(U64(epoch + ttl), epoch);
      leases := leases[n := l];
      le.Put(n, l);
      return GrantDone(r, I64(n), ttl);
    }

    /** Counts up from the last id handed out, past those in use. */
    method FreeId() returns (n: nat)
      ensures n == NextLease(leases, leaseId)
    {
      n := leaseId + 1;
      while n in leases
        invariant n > leaseId && NextLease(leases, n - 1) == NextLease(leases, leaseId)
        decreases IdsAbove(leases, n - 1)
      {
        assert n in IdsAbove(leases, n - 1) && n !in IdsAbove(leases, n);
        n := n + 1;
      }
    }

    /** cmdLeaseRevoke: tombstones for the keys of the lease, then the lease itself goes. */
    method LeaseRevoke(r: nat, id: nat, ghost s: State) returns (crashed: bool, keys: seq<bytes>)
      requires kv.Valid() && s == View(s.rev, s.index) && Inv(s) && r == s.rev + 1 < UPPER_LIMIT && sweepLimit > 0
      modifies this`leases, kv, lk, le
      ensures crashed <==> Revoked(s, r, id).None?
      ensures !crashed ==> kv.Valid() && Revoked(s, r, id) == Some(View(s.rev, s.index)) && keys == LeaseKeys(s, id)
    {
      hide Good, Represents, Sound, Inv, SortedKeys, IsRow, IsExpRow, RowKeys, RowsWithout, DeleteAll, Remove, ExpRow;
      RevokeFacts(s, id);
      if id !in leases { return false, []; }
      crashed, keys := SweepKeys(r, id, s);
      if crashed { return; }
      var found := le.Del(id, leases[id]);
      if !found { return true, []; }
      leases := leases - {id};
    }

    /** The loop that sweeps the rows of a lease and deletes their keys, a batch at a time. */
    method SweepKeys(r: nat, id: nat, ghost s: State) returns (crashed: bool, keys: seq<bytes>)
      requires kv.Valid() && lk.Valid() && s == View(s.rev, s.index) && id < UINT64_LIMIT && sweepLimit > 0
      requires Packable(Rev(r, 0, true)) && AllOlder(s.store, Rev(r, 0, false))
      modifies kv, lk
      ensures crashed <==> exists k <- RowKeys(s.rows, id) :: k !in s.store.hist
      ensures !crashed ==> kv.Valid() && keys == RowKeys(s.rows, id) && lk.rows == RowsWithout(s.rows, id)
      ensures !crashed ==> kv.Abs() == DeleteAll(s.store, epoch, keys, Rev(r, 0, true))
    {
      StoreKeys(kv);
      hide Good, Represents, Sound, AllOlder, SortedKeys, IsRow, RowKeys, RowsWithout, DeleteAll, Sweeping;
      keys := [];
      SweepingStart(s, id, r);
      while true
        invariant kv.Valid() && lk.Valid() && Sweeping(s, lk.rows, kv.Abs(), keys, id, r)
        decreases |RowKeys(lk.rows, id)|
      {
        ghost var rows := lk.rows;
        var batch := lk.Sweep(id, sweepLimit);
        if batch == [] { break; }
        SweepingDelete(s, rows, kv.Abs(), keys, id, r, batch);
        var del := kv.DeleteBatch(r, 0, epoch, batch);
        if del.Err? {
          SweepingMissing(s, rows, kv.Abs(), keys, id, r, batch, lk.rows);
          return true, [];
        }
        SweepingTurn(s, rows, keys, id, r, batch, lk.rows);
        keys := keys + batch;
      }
      SweepingEnd(s, lk.rows, kv.Abs(), keys, id, r);
      return false, keys;
    }

    ghost function BookOf(): Book
      reads this, le
    {
      Book(leases, le.rows, epoch, leaseId)
    }

    /** cmdLeaseKeepAlive and cmdLeaseKeepAliveBatch. */
    method LeaseKeepAlive(ids: seq<int>, ghost b: Book) returns (ttls: seq<int>)
      requires b == BookOf() && Leasing(b) && epoch < UINT64_LIMIT
      modifies this`leases, le
      ensures (BookOf(), ttls) == KeepAlive(b, ids)
    {
      hide Leasing, Renewed;
      ttls := [];
      for i := 0 to |ids|
        invariant (BookOf(), ttls) == KeepAlive(b, ids[..i])
      {
        assert ids[..i + 1][..i] == ids[..i];
        KeepAliveKeeps(b, ids[..i]);
        var id := U64(ids[i]);
        if id in leases {
          var ttl := Renew(id, BookOf());
          ttls := ttls + [ttl];
        } else {
          ttls := ttls + [0];
        }
      }
      assert ids[..|ids|] == ids;
    }

    method Renew(id: nat, ghost b: Book) returns (ttl: int)
      requires b == BookOf() && Leasing(b) && epoch < UINT64_LIMIT && id in leases
      modifies this`leases, le
      ensures BookOf() == Renewed(b, id) && ttl == Ttl(b.leases[id])
    {
      hide Leasing, SortedKeys, IsExpRow, InsertKey, ExpRow, U64, Ttl;
      LeasingRows(b);
      LeaseBounds(b, id);
      ttl := Ttl(leases[id]);
      WordFits(epoch + ttl);
      var l := Lease(U64(epoch + ttl), epoch);
      leases := leases[id := l];
      le.Put(id, l);
    }

    /** The loop of a tick over the expiry index: a cursor that revocations delete under. */
    method ExpireDue(r: nat, ghost s: State) returns (crashed: bool, keys: seq<bytes>, newRev: nat)
      requires kv.Valid() && s == View(r, s.index) && Inv(s) && sweepLimit > 0
      requires Expire(s, Due(s.book.exp, s.book.epoch)).Next? ==> Room(Expire(s, Due(s.book.exp, s.book.epoch)).s)
      modifies this`leases, kv, lk, le
      ensures crashed <==> Expire(s, Due(s.book.exp, s.book.epoch)).Crash?
      ensures !crashed ==>
        kv.Valid() && Expire(s, Due(s.book.exp, s.book.epoch)) == Next(View(newRev, s.index), NoReply, keys)
    {
      hide Good, Represents, Sound, Inv, Ticking, Expire, Due, SortedKeys, IsExpRow, Revoked;
      hide LeaseKeys, ExpiryOf, ExpId, Room, LexLess;
      var last: Option<bytes> := None;
      ghost var n := 0;
      keys, newRev := [], r;
      TickingStart(s);
      while true
        invariant kv.Valid() && Inv(View(newRev, s.index)) && Ticking(s, View(newRev, s.index), keys, n, last)
        decreases |Due(s.book.exp, s.book.epoch)| - n
      {
        ghost var t := View(newRev, s.index);
        IndexRows(t);
        var i := le.Next(last);
        if i == |le.rows| || |le.rows[i]| < 9 || ExpiryOf(le.rows[i]) > epoch {
          TickingEnd(s, t, keys, n, last, i);
          break;
        }
        var row := le.rows[i];
        ghost var m := TickingNext(s, t, keys, n, last, i);
        TickingRoom(s, t, keys, m);
        var failed, swept := LeaseRevoke(newRev + 1, ExpId(row), t);
        if failed {
          TickingCrash(s, t, keys, m);
          return true, [], newRev;
        }
        TickingTurn(s, t, keys, n, last, m, View(t.rev, t.index));
        newRev := Bump(newRev, swept);
        keys := keys + swept;
        last := Some(row);
        n := m + 1;
      }
      return false, keys, newRev;
    }

    // ---- entries ----

    ghost predicate Ready(newRev: nat, s: State)
      reads this, kv, lk, le
    {
      kv.Valid() && s == View(newRev, s.index) && Inv(s) && Room(s) && sweepLimit > 0
    }

    method ApplyPut(q: PutReq, newRev: nat, ghost s: State)
      returns (crashed: bool, reply: Reply, keys: seq<bytes>, r: nat)
      requires Ready(newRev, s) && |q.val| < INT_LIMIT
      modifies kv, lk
      ensures crashed <==> ExecPut(s, q, kv.flags).Crash?
      ensures !crashed ==> kv.Valid() && ExecPut(s, q, kv.flags) == Next(View(r, s.index), reply, keys)
    {
      hide Good, Represents, Sound, Inv, AllOlder, SortedKeys, IsRow, Machine.CmdPut;
      InvLists(s);
      crashed, keys, r := false, [], newRev;
      if q.ignoreLease && q.lease != 0 { reply := Refused(LeaseProvided); return; }
      if q.ignoreValue && q.val != [] { reply := Refused(ValueProvided); return; }
      if q.lease != 0 && U64(q.lease) !in leases { reply := Refused(LeaseNotFound); return; }
      var put, affected := CmdPut(newRev + 1, 0, q, s);
      if put.Err? {
        if put.error == KeyTooLong || put.error == EmptyKey {
          reply := Refused(OpRefused(put.error));
        } else {
          crashed, reply := true, NoReply;
        }
        return;
      }
      CmdPutTouches(s, s.rev + 1, 0, q, kv.flags);
      if affected != [] { r := newRev + 1; }
      reply, keys := OpDone(r, Some(put.value)), affected;
    }

    method ApplyDelete(q: DeleteReq, newRev: nat, ghost s: State)
      returns (crashed: bool, reply: Reply, keys: seq<bytes>, r: nat)
      requires Ready(newRev, s)
      modifies kv, lk
      ensures crashed <==> ExecDelete(s, q, kv.flags).Crash?
      ensures !crashed ==> kv.Valid() && ExecDelete(s, q, kv.flags) == Next(View(r, s.index), reply, keys)
    {
      hide Good, Represents, Sound, Inv, AllOlder, SortedKeys, IsRow, Machine.CmdDeleteRange;
      InvLists(s);
      crashed, reply, keys, r := false, NoReply, [], newRev;
      var del, affected := CmdDeleteRange(newRev + 1, 0, q, s);
      if del.Err? { crashed := true; return; }
      if affected != [] { r := newRev + 1; }
      reply, keys := OpDone(r, Some(del.value)), affected;
    }

    method ApplyCompact(max: nat, newRev: nat, ghost s: State) returns (crashed: bool, reply: Reply)
      requires Ready(newRev, s)
      modifies kv, this`revMin, this`revCompacted
      ensures crashed <==> ExecCompact(s, max).Crash?
      ensures !crashed ==> kv.Valid() && ExecCompact(s, max) == Next(View(newRev, s.index), reply, [])
    {
      hide Good, Represents, Sound, Inv, History.Compact, LastUpper;
      var got := kv.Compact(max);
      if got.Err? { return true, NoReply; }
      revMin, revCompacted := max, got.value;
      return false, CompactDone(newRev);
    }

    /** A transaction: which branch, its operations, and a new revision even if a later operation failed. */
    method ApplyTxn(c: Cmd, newRev: nat, ghost s: State) returns (crashed: bool, reply: Reply, keys: seq<bytes>, r: nat)
      requires Ready(newRev, s) && c.TxnCmd? && CmdOk(c)
      modifies kv, lk
      ensures crashed <==> ExecTxn(s, c, kv.flags).Crash?
      ensures !crashed ==> kv.Valid() && ExecTxn(s, c, kv.flags) == Next(View(r, s.index), reply, keys)
    {
      hide Good, Represents, Sound, Core, Leasing, CompareAll, RunOps;
      crashed, reply, keys, r := false, NoReply, [], newRev;
      var cond := TxnCompare(c.compare);
      if cond.Err? { crashed := true; return; }
      var out, affected, error := TxnOps(newRev + 1, if cond.value then c.success else c.failure, s);
      if affected != [] { r := newRev + 1; }
      if error.None? {
        reply, keys := TxnDone(r, cond.value, out), affected;
      } else if Answerable(error.value) {
        reply := Refused(OpRefused(error.value));
      } else {
        crashed := true;
      }
    }

    method ApplyRevoke(id: nat, newRev: nat, ghost s: State)
      returns (crashed: bool, reply: Reply, keys: seq<bytes>, r: nat)
      requires Ready(newRev, s)
      modifies this`leases, kv, lk, le
      ensures crashed <==> ExecRevoke(s, id).Crash?
      ensures !crashed ==> kv.Valid() && ExecRevoke(s, id) == Next(View(r, s.index), reply, keys)
    {
      hide Good, Represents, Sound, Inv, Revoked, LeaseKeys;
      var found := id in leases;
      var failed, swept := LeaseRevoke(newRev + 1, id, s);
      if failed { return true, NoReply, [], newRev; }
      r := if swept == [] then newRev else newRev + 1;
      return false, RevokeDone(r, found), swept, r;
    }

    /** A tick of the current leader moves the clock and revokes what is due. */
    method ApplyTick(t: nat, newRev: nat, ghost s: State)
      returns (crashed: bool, reply: Reply, keys: seq<bytes>, r: nat)
      requires Ready(newRev, s) && (ExecTick(s, t).Next? ==> Room(ExecTick(s, t).s))
      modifies this`leases, this`epoch, kv, lk, le
      ensures crashed <==> ExecTick(s, t).Crash?
      ensures !crashed ==> kv.Valid() && ExecTick(s, t) == Next(View(r, s.index), reply, keys)
    {
      hide Good, Represents, Sound, Inv, Expire, Due;
      if term > t { return false, Refused(TermExpired), [], newRev; }
      epoch := epoch + 1;
      ghost var u := s.(book := Ticked(s.book));
      InvFrame(s, u);
      var failed, swept, rev2 := ExpireDue(newRev, u);
      if failed { return true, NoReply, [], newRev; }
      return false, TickDone(epoch), swept, rev2;
    }

    /** Grants, renewals and terms; these touch no key. */
    method ApplyBook(c: Cmd, newRev: nat, ghost s: State) returns (reply: Reply)
      requires Ready(newRev, s) && (c.GrantCmd? || c.KeepAliveCmd? || c.KeepAliveBatchCmd? || c.TermCmd?)
      requires c.GrantCmd? ==> Room(ExecGrant(s, c.id, c.ttl).s)
      modifies this`leases, this`leaseId, this`term, le
      ensures Exec(s, c, kv.flags) == Next(View(newRev, s.index), reply, [])
    {
      hide Good, Represents, Sound, Inv, Leasing, SortedKeys, IsExpRow, KeepAlive, ExecGrant;
      IndexRows(s);
      InvBook(s);
      match c {
        case GrantCmd(id, ttl) =>
          reply := LeaseGrant(id, ttl, newRev, s);
        case KeepAliveCmd(id) =>
          var ttls := LeaseKeepAlive([id], s.book);
          reply := KeepDone(newRev, ttls);
        case KeepAliveBatchCmd(ids) =>
          var ttls := LeaseKeepAlive(ids, s.book);
          reply := KeepDone(newRev, ttls);
        case TermCmd(t) =>
          if term > t { return Refused(TermExpired); }
          term := t;
          return TermDone;
      }
    }

    /** One entry. */
    method Apply(c: Cmd, newRev: nat, ghost s: State) returns (crashed: bool, reply: Reply, keys: seq<bytes>, r: nat)
      requires Ready(newRev, s) && CmdOk(c) && (Exec(s, c, kv.flags).Next? ==> Room(Exec(s, c, kv.flags).s))
      modifies this`leases, this`epoch, this`leaseId, this`revMin, this`revCompacted, this`term, kv, lk, le
      ensures crashed <==> Exec(s, c, kv.flags).Crash?
      ensures !crashed ==> kv.Valid() && Exec(s, c, kv.flags) == Next(View(r, s.index), reply, keys)
    {
      hide Good, Represents, Sound, Inv, ExecPut, ExecDelete, ExecCompact, ExecTxn, ExecRevoke;
      hide ExecTick, ExecKeepAlive, ExecGrant, Room;
      match c {
        case PutCmd(q) => crashed, reply, keys, r := ApplyPut(q, newRev, s);
        case DeleteCmd(q) => crashed, reply, keys, r := ApplyDelete(q, newRev, s);
        case CompactCmd(max) =>
          keys, r := [], newRev;
          crashed, reply := ApplyCompact(max, newRev, s);
        case TxnCmd(_, _, _) => crashed, reply, keys, r := ApplyTxn(c, newRev, s);
        case RevokeCmd(id) => crashed, reply, keys, r := ApplyRevoke(U64(id), newRev, s);
        case TickCmd(t) => crashed, reply, keys, r := ApplyTick(t, newRev, s);
        case Garbled => return false, NoReply, [], newRev;
        case GrantCmd(id, ttl) =>
          crashed, keys, r := false, [], newRev;
          GrantNext(s, id, ttl);
          reply := ApplyBook(c, newRev, s);
        case _ =>
          crashed, keys, r := false, [], newRev;
          reply := ApplyBook(c, newRev, s);
      }
    }

    /**
     Update: applies a batch in one storage transaction. The revision is kept aside until the
     end and written back once, yet the outcome is that of the entries one by one.
     */
    method Update(entries: seq<Entry>) returns (crashed: bool, replies: seq<Reply>, keys: seq<bytes>)
      requires Valid() && entries != [] && forall e <- entries :: CmdOk(e.cmd)
      requires RoomFor(Abs(), entries, kv.flags)
      modifies this, kv, lk, le
      ensures crashed <==> Run(old(Abs()), entries, kv.flags).Crashed?
      ensures !crashed ==> Valid() && Run(old(Abs()), entries, kv.flags) == Batch(Abs(), replies, keys)
    {
      hide Good, Represents, Sound, Inv, Room, RoomFor, Exec, CmdOk, Run, Step;
      ghost var s := Abs();
      var newRev: nat := rev;
      ghost var last: nat := index;
      replies, keys := [], [];
      RunNothing(s, entries, kv.flags);
      for i := 0 to |entries|
        invariant Run(s, entries[..i], kv.flags) == Batch(View(newRev, last), replies, keys) && kv.Valid()
        invariant sweepLimit > 0
        invariant Inv(View(newRev, last)) && rev == s.rev && (i > 0 ==> last == entries[i - 1].index)
      {
        ghost var t := View(newRev, last);
        assert entries[i] in entries;
        UpdateTurn(s, entries, i, kv.flags, t, replies, keys);
        StepIs(t, entries[i], kv.flags);
        var failed, reply, affected, r := Apply(entries[i].cmd, newRev, t);
        if failed { return true, [], []; }
        UpdateKeeps(t, entries[i], kv.flags);
        newRev, last := r, entries[i].index;
        replies, keys := replies + [reply], keys + affected;
      }
      assert entries[..|entries|] == entries;
      index := entries[|entries| - 1].index;
      if newRev > rev { rev := newRev; }
      BatchGrows(s, entries, kv.flags);
      return false, replies, keys;
    }

    /** Two batches one after the other: the state and the replies are those of the whole log. */
    method UpdateTwice(p: seq<Entry>, q: seq<Entry>) returns (crashed: bool, replies: seq<Reply>, keys: seq<bytes>)
      requires Valid() && p != [] && q != [] && forall e <- p + q :: CmdOk(e.cmd)
      requires RoomFor(Abs(), p + q, kv.flags)
      modifies this, kv, lk, le
      ensures crashed <==> Run(old(Abs()), p + q, kv.flags).Crashed?
      ensures !crashed ==> Valid() && Run(old(Abs()), p + q, kv.flags) == Batch(Abs(), replies, keys)
    {
      hide Good, Represents, Sound, Inv, Room, RoomFor, CmdOk, Run;
      ghost var s := Abs();
      RoomForParts(s, p, q, kv.flags);
      BatchBoundaries(s, p, q, kv.flags);
      assert forall e <- p :: e in p + q;
      crashed, replies, keys := Update(p);
      if crashed { return; }
      assert forall e <- q :: e in p + q;
      var more, moreKeys;
      crashed, more, moreKeys := Update(q);
      replies, keys := replies + more, keys + moreKeys;
    }
  }

  // ---- the loops, on values ----

  /** The counters fit in every state the batch passes through. */
  ghost predicate RoomFor(s: State, es: seq<Entry>, f: Flags) {
    forall i | 0 <= i <= |es| :: Run(s, es[..i], f).Batch? ==> Room(Run(s, es[..i], f).s)
  }

  lemma RoomForParts(s: State, p: seq<Entry>, q: seq<Entry>, f: Flags)
    requires RoomFor(s, p + q, f)
    ensures RoomFor(s, p, f) && (Run(s, p, f).Batch? ==> RoomFor(Run(s, p, f).s, q, f))
  {
    hide Run, Room;
    forall i | 0 <= i <= |p| ensures Run(s, p[..i], f).Batch? ==> Room(Run(s, p[..i], f).s) {
      assert (p + q)[..i] == p[..i];
    }
    if Run(s, p, f).Batch? {
      var t := Run(s, p, f).s;
      forall i | 0 <= i <= |q| ensures Run(t, q[..i], f).Batch? ==> Room(Run(t, q[..i], f).s) {
        assert (p + q)[..|p| + i] == p + q[..i];
        BatchBoundaries(s, p, q[..i], f);
      }
    }
  }

  lemma RunNothing(s: State, es: seq<Entry>, f: Flags)
    ensures Run(s, es[..0], f) == Batch(s, [], [])
  {}

  lemma StepIs(s: State, e: Entry, f: Flags)
    ensures match Exec(s, e.cmd, f)
      case Crash => Step(s, e, f) == Crash
      case Next(t, reply, keys) =>
        Step(s, e, f) == Next(t.(index := e.index), reply, keys) && (Room(Step(s, e, f).s) <==> Room(t))
  {
    hide Exec;
  }

  /** What one turn of a batch may rely on. */
  lemma UpdateTurn(s: State, es: seq<Entry>, i: nat, f: Flags, t: State, replies: seq<Reply>, keys: seq<bytes>)
    requires i < |es| && Run(s, es[..i], f) == Batch(t, replies, keys) && RoomFor(s, es, f)
    ensures Room(t)
    ensures match Step(t, es[i], f)
      case Crash => Run(s, es, f).Crashed?
      case Next(u, reply, more) => Run(s, es[..i + 1], f) == Batch(u, replies + [reply], keys + more) && Room(u)
  {
    hide Step, Room;
    assert es[..i + 1][..i] == es[..i];
    if Step(t, es[i], f).Crash? {
      BatchBoundaries(s, es[..i + 1], es[i + 1..], f);
      assert es[..i + 1] + es[i + 1..] == es;
    }
  }

  lemma UpdateKeeps(s: State, e: Entry, f: Flags)
    requires Inv(s) && CmdOk(e.cmd) && Step(s, e, f).Next? && Room(Step(s, e, f).s)
    ensures Inv(Step(s, e, f).s)
  {
    hide Inv, Step, Room;
    StepKeeps(s, e, f);
  }

  lemma BatchGrows(s: State, es: seq<Entry>, f: Flags)
    requires Run(s, es, f).Batch?
    ensures s.rev <= Run(s, es, f).s.rev
  {
    hide Run;
    RunKeeps(s, es, f);
  }

  lemma GrantNext(s: State, id: int, ttl: int)
    ensures ExecGrant(s, id, ttl).Next?
  {}

  lemma WordFits(x: int)
    ensures U64(x) < UINT64_LIMIT
  {}

  lemma InvLists(s: State)
    requires Inv(s)
    ensures AllOlder(s.store, Rev(s.rev + 1, 0, false)) && SortedKeys(s.rows) && forall row <- s.rows :: IsRow(row)
  {}

  lemma RevokeFacts(s: State, id: nat)
    requires Inv(s)
    ensures AllOlder(s.store, Rev(s.rev + 1, 0, false)) && SortedKeys(s.rows) && (forall row <- s.rows :: IsRow(row))
    ensures SortedKeys(s.book.exp) && (forall row <- s.book.exp :: IsExpRow(row))
    ensures id in s.book.leases ==> id < UINT64_LIMIT
    ensures SortedKeys(s.store.keys) && (forall k :: k in s.store.keys <==> k in s.store.hist)
  {}

  lemma LeasingRows(b: Book)
    requires Leasing(b)
    ensures SortedKeys(b.exp) && forall row <- b.exp :: IsExpRow(row)
  {}

  lemma {:induction false} NothingLeft(rows: seq<bytes>, id: nat)
    requires RowKeys(rows, id) == []
    ensures RowsWithout(rows, id) == rows
  {
    hide KeyFor;
    if rows != [] { NothingLeft(rows[1..], id); }
  }

  lemma {:induction false} DeleteAllConcat(s: Store, epoch: nat, ks: seq<bytes>, ls: seq<bytes>, tomb: Rev)
    ensures DeleteAll(s, epoch, ks + ls, tomb) == DeleteAll(DeleteAll(s, epoch, ks, tomb), epoch, ls, tomb)
  {
    hide Delete;
    if ls == [] {
      assert ks + ls == ks;
    } else {
      var n := |ls| - 1;
      assert (ks + ls)[..|ks| + n] == ks + ls[..n];
      DeleteAllConcat(s, epoch, ks, ls[..n], tomb);
    }
  }

  lemma StoreKeys(kv: DbKv)
    requires kv.Valid()
    ensures SortedKeys(kv.keys) && forall k :: k in kv.keys <==> k in kv.hist
  {}

  /** Some of the lease's keys are swept and deleted; the rows of the others are still there. */
  ghost predicate Sweeping(s: State, rows: seq<bytes>, t: Store, keys: seq<bytes>, id: nat, r: nat) {
    && RowKeys(s.rows, id) == keys + RowKeys(rows, id) && RowsWithout(rows, id) == RowsWithout(s.rows, id)
    && t == DeleteAll(s.store, s.book.epoch, keys, Rev(r, 0, true)) && (forall k <- keys :: k in s.store.hist)
    && AllOlder(s.store, Rev(r, 0, false)) && SortedKeys(s.store.keys)
    && (forall k :: k in s.store.keys <==> k in s.store.hist)
  }

  lemma SweepingStart(s: State, id: nat, r: nat)
    requires AllOlder(s.store, Rev(r, 0, false)) && SortedKeys(s.store.keys)
    requires (forall k :: k in s.store.keys <==> k in s.store.hist)
    ensures Sweeping(s, s.rows, s.store, [], id, r)
  {
    hide AllOlder, SortedKeys;
    assert [] + RowKeys(s.rows, id) == RowKeys(s.rows, id);
  }

  /** The next batch may be deleted on top of those before, under the same revision. */
  lemma SweepingDelete(s: State, rows: seq<bytes>, t: Store, keys: seq<bytes>, id: nat, r: nat, batch: seq<bytes>)
    requires Sweeping(s, rows, t, keys, id, r)
    ensures var tomb := Rev(r, 0, true);
      && (forall k <- batch :: Current(t.hist, k).Some? ==> forall w <- Lookup(t.hist, k) :: Older(RevOf(w), tomb))
      && (forall e <- t.evts :: !Older(tomb, e.rev))
      && t.hist.Keys == s.store.hist.Keys
      && DeleteAll(t, s.book.epoch, batch, tomb) == DeleteAll(s.store, s.book.epoch, keys + batch, tomb)
  {
    var tomb, epoch := Rev(r, 0, true), s.book.epoch;
    hide SortedKeys, RowKeys, RowsWithout;
    DeleteAllConcat(s.store, epoch, keys, batch, tomb);
    DeleteAllKeys(s.store, epoch, keys, tomb);
    DeleteAllEvents(s.store, epoch, keys, tomb);
    AllOlderLater(s.store, Rev(r, 0, false), tomb);
    hide DeleteAll;
    forall k | k in batch && Current(t.hist, k).Some? ensures forall w <- Lookup(t.hist, k) :: Older(RevOf(w), tomb) {
      DeleteAllLive(s.store, epoch, keys, tomb, k);
    }
  }

  lemma SweepingMissing(s: State, rows: seq<bytes>, t: Store, keys: seq<bytes>, id: nat, r: nat, batch: seq<bytes>,
                        left: seq<bytes>)
    requires Sweeping(s, rows, DeleteAll(s.store, s.book.epoch, keys, Rev(r, 0, true)), keys, id, r)
    requires RowKeys(rows, id) == batch + RowKeys(left, id) && exists k <- batch :: k !in s.store.hist
    ensures exists k <- RowKeys(s.rows, id) :: k !in s.store.hist
  {
    hide RowKeys, RowsWithout, DeleteAll, AllOlder, SortedKeys;
    var k :| k in batch && k !in s.store.hist;
    assert k in keys + (batch + RowKeys(left, id));
  }

  lemma SweepingTurn(s: State, rows: seq<bytes>, keys: seq<bytes>, id: nat, r: nat, batch: seq<bytes>, left: seq<bytes>)
    requires Sweeping(s, rows, DeleteAll(s.store, s.book.epoch, keys, Rev(r, 0, true)), keys, id, r)
    requires RowKeys(rows, id) == batch + RowKeys(left, id) && RowsWithout(left, id) == RowsWithout(rows, id)
    requires forall k <- batch :: k in s.store.hist
    ensures Sweeping(s, left, DeleteAll(s.store, s.book.epoch, keys + batch, Rev(r, 0, true)), keys + batch, id, r)
  {
    hide RowKeys, RowsWithout, DeleteAll, AllOlder, SortedKeys;
    assert keys + (batch + RowKeys(left, id)) == (keys + batch) + RowKeys(left, id);
  }

  lemma SweepingEnd(s: State, rows: seq<bytes>, t: Store, keys: seq<bytes>, id: nat, r: nat)
    requires Sweeping(s, rows, t, keys, id, r) && RowKeys(rows, id) == []
    ensures keys == RowKeys(s.rows, id) && rows == RowsWithout(s.rows, id) && forall k <- keys :: k in s.store.hist
    ensures t == DeleteAll(s.store, s.book.epoch, keys, Rev(r, 0, true))
  {
    hide RowKeys, RowsWithout, DeleteAll, AllOlder, SortedKeys;
    NothingLeft(rows, id);
    assert keys + [] == keys;
  }

  lemma {:induction false} DetachStops(rows: seq<bytes>, items: seq<(bytes, KeyRecord)>, i: nat)
    requires i <= |items| && Detach(rows, items[..i]).None?
    ensures Detach(rows, items).None?
  {
    hide Remove, Row;
    if i == |items| {
      assert items[..i] == items;
    } else {
      assert items[..|items| - 1][..i] == items[..i];
      DetachStops(rows, items[..|items| - 1], i);
    }
  }

  lemma CoreLists(s: State, next: Rev)
    requires Core(s, next)
    ensures AllOlder(s.store, next) && SortedKeys(s.rows) && forall row <- s.rows :: IsRow(row)
  {}

  // ---- the loop of a tick, on values ----

  /** The rows c has lost since b belonged to leases that are gone. */
  ghost predicate Leftovers(b: Book, c: Book) {
    && (forall row <- c.exp :: row in b.exp)
    && (forall row <- b.exp :: row !in c.exp ==> |row| >= 9 && ExpId(row) !in c.leases)
  }

  /** The cursor has seen the first n due rows of s, up to `last`; their leases are revoked, giving t. */
  ghost predicate Ticking(s: State, t: State, keys: seq<bytes>, n: nat, last: Option<bytes>) {
    var due := Due(s.book.exp, s.book.epoch);
    && n <= |due| && Expire(s, due[..n]) == Next(t, NoReply, keys)
    && last == (if n == 0 then None else Some(due[n - 1]))
    && Leasing(s.book) && Leftovers(s.book, t.book) && t.book.epoch == s.book.epoch
  }

  lemma IndexRows(s: State)
    requires Inv(s)
    ensures SortedKeys(s.book.exp) && forall row <- s.book.exp :: IsExpRow(row)
  {}

  lemma TickingStart(s: State)
    requires Inv(s)
    ensures Ticking(s, s, [], 0, None)
  {
    hide Core;
    assert Due(s.book.exp, s.book.epoch)[..0] == [];
  }

  /** Revoking a lease that is not there does nothing. */
  lemma RevokeAbsent(s: State, id: nat)
    requires id !in s.book.leases
    ensures ExecRevoke(s, id) == Next(s, RevokeDone(s.rev, false), [])
  {}

  lemma ExpireSnoc(s: State, due: seq<bytes>, m: nat, t: State, keys: seq<bytes>)
    requires (forall row <- due :: |row| >= 9) && m < |due| && Expire(s, due[..m]) == Next(t, NoReply, keys)
    ensures var r := ExecRevoke(t, ExpId(due[m]));
      Expire(s, due[..m + 1]) == if r.Crash? then Crash else Next(r.s, NoReply, keys + r.keys)
  {
    hide ExecRevoke, ExpId;
    assert due[..m + 1][..m] == due[..m];
  }

  lemma ExecRevokeIs(s: State, id: nat)
    ensures var u, keys := Revoked(s, s.rev + 1, id), LeaseKeys(s, id);
      var r := Bump(s.rev, keys);
      ExecRevoke(s, id) == if u.None? then Crash else Next(u.value.(rev := r), RevokeDone(r, id in s.book.leases), keys)
  {
    hide Revoked, LeaseKeys;
  }

  /** Where the cursor jumps over due rows, their leases were gone already. */
  lemma {:induction false} SkipDue(s: State, t: State, keys: seq<bytes>, due: seq<bytes>, n: nat, m: nat)
    requires n <= m <= |due| && (forall row <- due :: |row| >= 9) && Expire(s, due[..n]) == Next(t, NoReply, keys)
    requires forall j | n <= j < m :: ExpId(due[j]) !in t.book.leases
    ensures Expire(s, due[..m]) == Next(t, NoReply, keys)
  {
    hide ExecRevoke, ExpId, Expire;
    if n < m {
      SkipDue(s, t, keys, due, n, m - 1);
      ExpireSnoc(s, due, m - 1, t, keys);
      RevokeAbsent(t, ExpId(due[m - 1]));
      assert keys + [] == keys;
    }
  }

  /** No row past the cursor sits before the position it stands at. */
  lemma PastCursor(b: Book, c: Book, n: nat, last: Option<bytes>, i: nat, j: nat)
    requires SortedKeys(b.exp) && SortedKeys(c.exp) && n <= j < |b.exp| && i <= |c.exp|
    requires last == (if n == 0 then None else Some(b.exp[n - 1]))
    requires if last.None? then i == 0 else forall p | 0 <= p < i :: !LexLess(last.value, c.exp[p])
    ensures b.exp[j] !in c.exp[..i]
  {
    hide LexLess;
  }

  lemma TickingNext(s: State, t: State, keys: seq<bytes>, n: nat, last: Option<bytes>, i: nat) returns (m: nat)
    requires Ticking(s, t, keys, n, last) && SortedKeys(t.book.exp) && i < |t.book.exp|
    requires if last.None? then i == 0
      else (forall p | 0 <= p < i :: !LexLess(last.value, t.book.exp[p])) && LexLess(last.value, t.book.exp[i])
    requires |t.book.exp[i]| >= 9 && ExpiryOf(t.book.exp[i]) <= t.book.epoch
    ensures var due := Due(s.book.exp, s.book.epoch);
      n <= m < |due| && due[m] == t.book.exp[i] && Expire(s, due[..m]) == Next(t, NoReply, keys)
  {
    hide Expire, ExpiryOf, ExpId, LexLess, IsExpRow, Due, LeasesOk, SortedKeys;
    var due := Due(s.book.exp, s.book.epoch);
    m := CursorAt(s.book, t.book, n, last, i);
    forall j | n <= j < m ensures ExpId(due[j]) !in t.book.leases {
      Skipped(s.book, t.book, n, last, i, m, j);
    }
    SkipDue(s, t, keys, due, n, m);
  }

  lemma AfterLast(rows: seq<bytes>, n: nat, m: nat)
    requires SortedKeys(rows) && n <= |rows| && m < |rows| && (n > 0 ==> LexLess(rows[n - 1], rows[m]))
    ensures n <= m
  {
    hide LexLess;
    if m < n {
      LexTotal(rows[m], rows[m]);
      LexTotal(rows[m], rows[n - 1]);
    }
  }

  /** The row the cursor stands at is one of the due rows not yet seen. */
  lemma CursorAt(b: Book, c: Book, n: nat, last: Option<bytes>, i: nat) returns (m: nat)
    requires Leasing(b) && Leftovers(b, c) && n <= |Due(b.exp, b.epoch)| && i < |c.exp|
    requires last == (if n == 0 then None else Some(Due(b.exp, b.epoch)[n - 1]))
    requires (last.Some? ==> LexLess(last.value, c.exp[i]))
    requires |c.exp[i]| >= 9 && ExpiryOf(c.exp[i]) <= b.epoch
    ensures n <= m < |Due(b.exp, b.epoch)| && Due(b.exp, b.epoch)[m] == c.exp[i]
  {
    hide ExpiryOf, ExpId, LexLess, IsExpRow, Due, LeasesOk, SortedKeys;
    var due, row := Due(b.exp, b.epoch), c.exp[i];
    assert row in c.exp;
    DueMembers(b.exp, b.epoch, row);
    m :| 0 <= m < |due| && due[m] == row;
    AfterLast(b.exp, n, m);
  }

  lemma Skipped(b: Book, c: Book, n: nat, last: Option<bytes>, i: nat, m: nat, j: nat)
    requires SortedKeys(b.exp) && SortedKeys(c.exp) && Leftovers(b, c) && n <= j < m < |Due(b.exp, b.epoch)|
    requires i < |c.exp|
    requires last == (if n == 0 then None else Some(Due(b.exp, b.epoch)[n - 1]))
    requires if last.None? then i == 0 else forall p | 0 <= p < i :: !LexLess(last.value, c.exp[p])
    requires Due(b.exp, b.epoch)[m] == c.exp[i]
    ensures ExpId(Due(b.exp, b.epoch)[j]) !in c.leases
  {
    var due := Due(b.exp, b.epoch);
    hide ExpId, LexLess, Due;
    if due[j] in c.exp {
      PastCursor(b, c, n, last, i, j);
      var p :| 0 <= p < |c.exp| && c.exp[p] == due[j];
      LexTotal(due[j], due[m]);
    }
  }

  lemma TickingEnd(s: State, t: State, keys: seq<bytes>, n: nat, last: Option<bytes>, i: nat)
    requires Ticking(s, t, keys, n, last) && SortedKeys(t.book.exp) && (forall row <- t.book.exp :: IsExpRow(row))
    requires i <= |t.book.exp|
    requires if last.None? then i == 0 else forall p | 0 <= p < i :: !LexLess(last.value, t.book.exp[p])
    requires i < |t.book.exp| ==> |t.book.exp[i]| < 9 || ExpiryOf(t.book.exp[i]) > t.book.epoch
    ensures Expire(s, Due(s.book.exp, s.book.epoch)) == Next(t, NoReply, keys)
  {
    var b, due := s.book, Due(s.book.exp, s.book.epoch);
    hide Expire, ExpiryOf, ExpId, LexLess, IsExpRow, Due, LeasesOk;
    forall j | n <= j < |due| ensures ExpId(due[j]) !in t.book.leases {
      if due[j] in t.book.exp {
        PastCursor(b, t.book, n, last, i, j);
        var p :| 0 <= p < |t.book.exp| && t.book.exp[p] == due[j];
        DueMembers(b.exp, b.epoch, due[j]);
        ExpRowLong(t.book.exp[i]);
        if p > i { ExpRowOrder(t.book.exp[i], t.book.exp[p]); }
      }
    }
    SkipDue(s, t, keys, due, n, |due|);
    assert due[..|due|] == due;
  }

  lemma {:induction false} ExpirePrefix(s: State, due: seq<bytes>, m: nat)
    requires (forall row <- due :: |row| >= 9) && m <= |due| && Expire(s, due).Next?
    ensures Expire(s, due[..m]).Next? && Grows(Expire(s, due[..m]).s, Expire(s, due).s)
  {
    hide ExecRevoke;
    if m == |due| {
      assert due[..m] == due;
    } else {
      var n := |due| - 1;
      ExpirePrefix(s, due[..n], m);
      assert due[..n][..m] == due[..m];
      ExecRevokeGrows(Expire(s, due[..n]).s, ExpId(due[n]));
    }
  }

  lemma TickingRoom(s: State, t: State, keys: seq<bytes>, m: nat)
    requires Inv(s) && m <= |Due(s.book.exp, s.book.epoch)|
    requires Expire(s, Due(s.book.exp, s.book.epoch)[..m]) == Next(t, NoReply, keys)
    requires Expire(s, Due(s.book.exp, s.book.epoch)).Next? ==> Room(Expire(s, Due(s.book.exp, s.book.epoch)).s)
    ensures t.rev + 1 < UPPER_LIMIT
  {
    InvRevocable(s);
    hide Inv, Revocable, Expire, Due;
    ExpireNeverCrashes(s, Due(s.book.exp, s.book.epoch));
    ExpirePrefix(s, Due(s.book.exp, s.book.epoch), m);
  }

  lemma {:induction false} ExpireStops(s: State, due: seq<bytes>, m: nat)
    requires (forall row <- due :: |row| >= 9) && m <= |due| && Expire(s, due[..m]).Crash?
    ensures Expire(s, due).Crash?
  {
    hide ExecRevoke;
    if m == |due| {
      assert due[..m] == due;
    } else {
      assert due[..|due| - 1][..m] == due[..m];
      ExpireStops(s, due[..|due| - 1], m);
    }
  }

  lemma TickingCrash(s: State, t: State, keys: seq<bytes>, m: nat)
    requires var due := Due(s.book.exp, s.book.epoch);
      m < |due| && Expire(s, due[..m]) == Next(t, NoReply, keys) && Revoked(t, t.rev + 1, ExpId(due[m])).None?
    ensures Expire(s, Due(s.book.exp, s.book.epoch)).Crash?
  {
    var due := Due(s.book.exp, s.book.epoch);
    hide *;
    ExpireSnoc(s, due, m, t, keys);
    ExecRevokeIs(t, ExpId(due[m]));
    ExpireStops(s, due, m + 1);
  }

  lemma LeftoversTrans(b: Book, c: Book, id: nat)
    requires Leftovers(b, c) && Leasing(c) && id in c.leases
    ensures Leftovers(b, Dropped(c, id))
  {
    var row := ExpRow(c.leases[id].expires, id);
    LeaseBounds(c, id);
    ExpRowReads(c.leases[id].expires, id);
    hide ExpRow, ExpId, LexLess, Remove, Seek, LeasesOk;
    RemoveMembers(c.exp, row);
  }

  lemma TickingTurn(s: State, t: State, keys: seq<bytes>, n: nat, last: Option<bytes>, m: nat, u: State)
    requires Inv(t) && Ticking(s, t, keys, n, last) && t.rev + 1 < UPPER_LIMIT
    requires var due := Due(s.book.exp, s.book.epoch);
      m < |due| && Expire(s, due[..m]) == Next(t, NoReply, keys) && Revoked(t, t.rev + 1, ExpId(due[m])) == Some(u)
    ensures var row := Due(s.book.exp, s.book.epoch)[m];
      var swept := LeaseKeys(t, ExpId(row));
      var v := u.(rev := Bump(t.rev, swept));
      Inv(v) && Ticking(s, v, keys + swept, m + 1, Some(row))
  {
    hide Inv, Leasing, Leftovers, Due, LeaseKeys, Revoked, Dropped, ExpId, Expire, ExecRevoke, Bump;
    var due := Due(s.book.exp, s.book.epoch);
    var id := ExpId(due[m]);
    ExpireSnoc(s, due, m, t, keys);
    ExecRevokeIs(t, id);
    ExecRevokeKeeps(t, id);
    InvBook(t);
    RevokedBook(t, id);
    DroppedEpoch(t.book, id);
    if id in t.book.leases { LeftoversTrans(s.book, t.book, id); }
  }

  lemma DroppedEpoch(b: Book, id: nat)
    ensures id in b.leases ==> Dropped(b, id).epoch == b.epoch
  {}

  lemma RevokedBook(s: State, id: nat)
    requires Revoked(s, s.rev + 1, id).Some?
    ensures Revoked(s, s.rev + 1, id).value.book == if id in s.book.leases then Dropped(s.book, id) else s.book
  {
    hide DeleteAll, RowsWithout, Dropped;
  }
}
