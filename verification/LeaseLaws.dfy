/**
 What the lease_key table lists over every run in which puts name their lease, so which keys
 a revocation deletes; and exactly when a put or a deletion brings a replica down.
 */
module LeaseLaws {
  import opened Base
  import opened KeyRev
  import opened KvCodec
  import opened History
  import opened LeaseTables
  import opened DbKvs
  import opened Machine
  import opened Invariants
  import opened Snapshots

  // ---- the lease_key table ----

  /** As a signed word, the id is negative; such leases can be granted, but get no rows. */
  predicate Negative(id: nat) { id >= INT_LIMIT }

  /** The key is live and belongs to this lease. */
  predicate Owns(h: map<bytes, Versions>, id: nat, key: bytes) {
    id != 0 && Current(h, key).Some? && Current(h, key).value.lease == id
  }

  /** The newest record of a live key carries the lease of its value. */
  ghost predicate RecordsAgree(h: map<bytes, Versions>) {
    forall k <- h :: h[k] != [] && h[k][0].Live? ==> h[k][0].recLease == h[k][0].kv.lease < UINT64_LIMIT
  }

  ghost predicate Listed(rows: seq<bytes>, h: map<bytes, Versions>) {
    forall id: nat, key: bytes | id < UINT64_LIMIT :: Row(id, key) in rows <==> Owns(h, id, key) && !Negative(id)
  }

  ghost predicate Exact(s: State) {
    Listed(s.rows, s.store.hist) && RecordsAgree(s.store.hist)
  }

  /** Puts that name their lease, by any signed word. */
  predicate NamesLease(q: PutReq) { !q.ignoreLease && 0 <= q.lease + INT_LIMIT < UINT64_LIMIT }

  ghost predicate OpsNameLease(ops: seq<TxnOp>) {
    forall op <- ops :: op.OpPut? ==> NamesLease(op.put)
  }

  ghost predicate CmdNamesLease(c: Cmd) {
    match c
    case PutCmd(q) => NamesLease(q)
    case TxnCmd(_, success, failure) => OpsNameLease(success) && OpsNameLease(failure)
    case _ => true
  }

  lemma SignedWord(x: int)
    requires 0 <= x + INT_LIMIT < UINT64_LIMIT
    ensures U64(x) == if x >= 0 then x else x + UINT64_LIMIT
    ensures I64(U64(x)) == x && (Negative(U64(x)) <==> x < 0)
    ensures forall p: nat | p < UINT64_LIMIT :: I64(p) == x <==> p == U64(x)
  {
    SmallModulo(if x >= 0 then x else x + UINT64_LIMIT, UINT64_LIMIT);
  }

  // ---- put ----

  /** The pair has a lease without a row, and the put moves it to another one. */
  predicate Strands(q: PutReq, prev: nat) { Negative(prev) && U64(q.lease) != prev }

  /** The table after a put is exact again, unless the row to delete is one that was never there. */
  lemma AttachExact(rows: seq<bytes>, h: map<bytes, Versions>, g: map<bytes, Versions>, q: PutReq)
    requires SortedKeys(rows) && Listed(rows, h) && RecordsAgree(h) && NamesLease(q)
    requires forall k :: k != q.key ==> Current(g, k) == Current(h, k)
    requires Current(g, q.key).Some? && Current(g, q.key).value.lease == U64(q.lease)
    ensures var r, prev := Attach(rows, q, LeaseOf(Current(h, q.key))), LeaseOf(Current(h, q.key));
      (r.None? <==> Strands(q, prev)) && (r.Some? ==> Listed(r.value, g))
  {
    hide Current, LexLess, InsertKey, Remove, Row;
    var prev, next := LeaseOf(Current(h, q.key)), if q.lease > 0 then q.lease else 0;
    SignedWord(q.lease);
    CurrentLease(h, q.key);
    if prev != next { AttachMoves(rows, q.key, prev, next); }
    ListedAt(rows, h, prev, q.key);
    var r := Attach(rows, q, prev);
    if r.Some? {
      forall id: nat, key: bytes | id < UINT64_LIMIT
        ensures Row(id, key) in r.value <==> Owns(g, id, key) && !Negative(id)
      {
        RowsApart(id, key, next, q.key);
        RowsApart(id, key, prev, q.key);
        ListedAt(rows, h, id, key);
      }
    }
  }

  lemma CurrentLease(h: map<bytes, Versions>, k: bytes)
    requires RecordsAgree(h)
    ensures LeaseOf(Current(h, k)) < UINT64_LIMIT
  {}

  /** The row of the new lease goes in, that of the old one out. */
  lemma AttachMoves(rows: seq<bytes>, key: bytes, prev: nat, lease: nat)
    requires SortedKeys(rows) && prev < UINT64_LIMIT && lease < UINT64_LIMIT && prev != lease
    ensures var r := if lease > 0 then InsertKey(rows, Row(lease, key)) else rows;
      && (Row(prev, key) in r <==> Row(prev, key) in rows)
      && (forall x :: x in Remove(r, Row(prev, key)) <==>
        (x in rows || (lease > 0 && x == Row(lease, key))) && x != Row(prev, key))
      && (forall x :: x in r <==> x in rows || (lease > 0 && x == Row(lease, key)))
  {
    hide LexLess, Seek, InsertKey, Remove, Row;
    RowsApart(prev, key, lease, key);
    InsertKeySorted(rows, Row(lease, key));
    RemoveMembers(if lease > 0 then InsertKey(rows, Row(lease, key)) else rows, Row(prev, key));
  }

  lemma PutCurrent(s: Store, a: PutArgs, k: bytes)
    ensures Current(Put(s, a).hist, k) == if k == a.key then Some(Written(s, a)) else Current(s.hist, k)
  {
    hide Written, InsertKey;
  }

  lemma PutAgrees(s: Store, a: PutArgs)
    requires RecordsAgree(s.hist) && !a.ignoreLease && a.lease < UINT64_LIMIT
    ensures RecordsAgree(Put(s, a).hist) && Written(s, a).lease == a.lease
  {
    hide InsertKey;
  }

  lemma CmdPutExact(s: State, rev: nat, sub: nat, q: PutReq, f: Flags)
    requires RowsOk(s.rows, s.store.hist) && Exact(s) && NamesLease(q)
    ensures var r, e := CmdPut(s, rev, sub, q, f), PutFails(s.store, ArgsOf(s, rev, sub, q), f.multiWrite);
      if e.Some? then r == Fails(e.value)
      else if Strands(q, LeaseOf(Current(s.store.hist, q.key))) then r == Fails(NotFound)
      else r.Did? && Exact(r.s)
  {
    hide Listed, RecordsAgree, Attach, Put, PutFails, Current, Written, SortedKeys, Strands;
    var a := ArgsOf(s, rev, sub, q);
    var g := Put(s.store, a).hist;
    PutAgrees(s.store, a);
    forall k ensures Current(g, k) == if k == q.key then Some(Written(s.store, a)) else Current(s.store.hist, k) {
      PutCurrent(s.store, a, k);
    }
    AttachExact(s.rows, s.store.hist, g, q);
  }

  // ---- delete ----

  ghost predicate Distinct(ks: seq<bytes>) {
    forall i, j | 0 <= i < j < |ks| :: ks[i] != ks[j]
  }

  lemma {:induction false} DeleteKeysDistinct(ks: seq<bytes>, key: bytes, end: bytes)
    requires SortedKeys(ks)
    ensures Distinct(DeleteKeys(ks, key, end))
  {
    hide InDeleteRange;
    if ks != [] {
      var n := |ks| - 1;
      DeleteKeysDistinct(ks[..n], key, end);
      forall k | k in DeleteKeys(ks[..n], key, end) ensures k != ks[n] {
        var i :| 0 <= i < n && ks[i] == k;
        LexTotal(ks[i], ks[n]);
      }
    }
  }

  lemma DoomedSnoc(s: Store, ks: seq<bytes>, k: bytes)
    ensures var vs := Lookup(s.hist, k);
      Doomed(s, ks + [k]) ==
        if vs == [] || vs[0].Tomb? then Doomed(s, ks)
        else Doomed(s, ks) + [(k, KeyRecord(vs[0].kv.rev, vs[0].recLease))]
  {
    assert (ks + [k])[..|ks|] == ks;
  }

  lemma DetachSnoc(rows: seq<bytes>, items: seq<(bytes, KeyRecord)>, k: bytes, rec: KeyRecord)
    ensures var r := Detach(rows, items);
      Detach(rows, items + [(k, rec)]) ==
        if r.None? || rec.lease == 0 then r
        else if Row(rec.lease, k) in r.value then Some(Remove(r.value, Row(rec.lease, k))) else None
  {
    assert (items + [(k, rec)])[..|items|] == items;
  }

  lemma {:induction false} DetachRows(rows: seq<bytes>, items: seq<(bytes, KeyRecord)>)
    requires SortedKeys(rows) && Detach(rows, items).Some?
    ensures var r := Detach(rows, items).value;
      && SortedKeys(r)
      && forall x :: x in r <==> x in rows && !exists it <- items :: it.1.lease != 0 && x == Row(it.1.lease, it.0)
  {
    hide SortedKeys, Row, Remove;
    if items != [] {
      var n := |items| - 1;
      DetachRows(rows, items[..n]);
      assert items == items[..n] + [items[n]];
      RemoveMembers(Detach(rows, items[..n]).value, Row(items[n].1.lease, items[n].0));
    }
  }

  /** The record of a live key, as a deletion reports it. */
  ghost predicate IsHead(s: Store, k: bytes, rec: KeyRecord) {
    var vs := Lookup(s.hist, k);
    vs != [] && vs[0].Live? && rec == KeyRecord(vs[0].kv.rev, vs[0].recLease)
  }

  lemma {:induction false} DoomedItems(s: Store, ks: seq<bytes>, k: bytes, rec: KeyRecord)
    ensures (k, rec) in Doomed(s, ks) <==> k in ks && IsHead(s, k, rec)
  {
    if ks != [] {
      hide Doomed, Lookup;
      var n := |ks| - 1;
      DoomedItems(s, ks[..n], k, rec);
      assert ks == ks[..n] + [ks[n]];
      DoomedSnoc(s, ks[..n], ks[n]);
    }
  }

  /** A live key among these whose record names a lease that does not list it. */
  ghost predicate MissesRow(rows: seq<bytes>, s: Store, ks: seq<bytes>) {
    exists k <- ks :: Lookup(s.hist, k) != [] && Unlisted(rows, k, Lookup(s.hist, k)[0])
  }

  predicate Unlisted(rows: seq<bytes>, k: bytes, v: Version) {
    v.Live? && v.recLease != 0 && Row(v.recLease, k) !in rows
  }

  lemma HeadFits(s: Store, k: bytes)
    requires Good(s) && Lookup(s.hist, k) != [] && Lookup(s.hist, k)[0].Live?
    ensures Lookup(s.hist, k)[0].recLease < UINT64_LIMIT
  {
    assert GoodVersions(k, s.hist[k]) && s.hist[k][0] in s.hist[k];
  }

  /** The rows of other keys do not matter for the last one. */
  lemma DetachLast(rows: seq<bytes>, s: Store, ks: seq<bytes>, k: bytes, id: nat)
    requires Good(s) && SortedKeys(rows) && k !in ks && id < UINT64_LIMIT && Detach(rows, Doomed(s, ks)).Some?
    ensures Row(id, k) in Detach(rows, Doomed(s, ks)).value <==> Row(id, k) in rows
  {
    var items := Doomed(s, ks);
    DetachRows(rows, items);
    hide Good, Row, Detach, Doomed, SortedKeys;
    forall it | it in items && it.1.lease != 0 ensures Row(id, k) != Row(it.1.lease, it.0) {
      assert it == (it.0, it.1);
      DoomedItems(s, ks, it.0, it.1);
      HeadFits(s, it.0);
      RowsApart(id, k, it.1.lease, it.0);
    }
  }

  /** So a deletion fails on the lease table exactly if one of its keys has no row where it should have one. */
  lemma {:induction false} DetachNoneIff(rows: seq<bytes>, s: Store, ks: seq<bytes>)
    requires Good(s) && SortedKeys(rows) && Distinct(ks)
    ensures Detach(rows, Doomed(s, ks)).None? <==> MissesRow(rows, s, ks)
  {
    hide Good, SortedKeys, Row, Remove;
    if ks != [] {
      var n := |ks| - 1;
      var k := ks[n];
      assert ks == ks[..n] + [k] && k !in ks[..n];
      DetachNoneIff(rows, s, ks[..n]);
      MissesSnoc(rows, s, ks[..n], k);
      hide Doomed, Detach, Distinct, MissesRow;
      DetachTurn(rows, s, ks[..n], k);
    }
  }

  lemma MissesSnoc(rows: seq<bytes>, s: Store, ks: seq<bytes>, k: bytes)
    ensures MissesRow(rows, s, ks + [k]) <==>
      MissesRow(rows, s, ks) || (Lookup(s.hist, k) != [] && Unlisted(rows, k, Lookup(s.hist, k)[0]))
  {
    hide Unlisted, Lookup;
  }

  lemma DetachTurn(rows: seq<bytes>, s: Store, ks: seq<bytes>, k: bytes)
    requires Good(s) && SortedKeys(rows) && k !in ks
    ensures Detach(rows, Doomed(s, ks + [k])).None? <==>
      Detach(rows, Doomed(s, ks)).None? || (Lookup(s.hist, k) != [] && Unlisted(rows, k, Lookup(s.hist, k)[0]))
  {
    hide Good, SortedKeys, Row, Remove, Doomed, Detach;
    DoomedSnoc(s, ks, k);
    var vs := Lookup(s.hist, k);
    if vs != [] && vs[0].Live? {
      HeadFits(s, k);
      DetachSnoc(rows, Doomed(s, ks), k, KeyRecord(vs[0].kv.rev, vs[0].recLease));
      if Detach(rows, Doomed(s, ks)).Some? { DetachLast(rows, s, ks, k, vs[0].recLease); }
    }
  }

  lemma HeadCurrent(h: map<bytes, Versions>, k: bytes)
    ensures var vs := Lookup(h, k);
      Current(h, k) == if vs != [] && vs[0].Live? then Some(vs[0].kv) else None
  {}

  lemma RowsSorted(rows: seq<bytes>, h: map<bytes, Versions>)
    requires RowsOk(rows, h)
    ensures SortedKeys(rows)
  {}

  lemma AgreesAt(h: map<bytes, Versions>, k: bytes)
    requires RecordsAgree(h) && Lookup(h, k) != [] && Lookup(h, k)[0].Live?
    ensures h[k][0].recLease == h[k][0].kv.lease < UINT64_LIMIT
  {}

  lemma ListedAt(rows: seq<bytes>, h: map<bytes, Versions>, id: nat, key: bytes)
    requires Listed(rows, h) && id < UINT64_LIMIT
    ensures Row(id, key) in rows <==> Owns(h, id, key) && !Negative(id)
  {}

  lemma {:induction false} DeleteAllCurrent(s: Store, epoch: nat, ks: seq<bytes>, tomb: Rev, k: bytes)
    ensures Current(DeleteAll(s, epoch, ks, tomb).hist, k) == if k in ks then None else Current(s.hist, k)
  {
    DeleteAllLive(s, epoch, ks, tomb, k);
  }

  lemma DeleteAllAgrees(s: Store, epoch: nat, ks: seq<bytes>, tomb: Rev)
    requires RecordsAgree(s.hist) && SortedKeys(s.keys) && (forall k :: k in s.keys <==> k in s.hist)
    ensures RecordsAgree(DeleteAll(s, epoch, ks, tomb).hist)
  {
    hide DeleteAll, SortedKeys;
    var t := DeleteAll(s, epoch, ks, tomb);
    forall k | k in t.hist && t.hist[k] != [] && t.hist[k][0].Live?
      ensures t.hist[k][0].recLease == t.hist[k][0].kv.lease < UINT64_LIMIT
    {
      DeleteAllLive(s, epoch, ks, tomb, k);
    }
  }

  /** In an exact state a key misses its row exactly if its lease has a negative id. */
  lemma MissesNegative(rows: seq<bytes>, s: Store, ks: seq<bytes>)
    requires Listed(rows, s.hist) && RecordsAgree(s.hist)
    ensures MissesRow(rows, s, ks) <==> exists k <- ks :: Negative(LeaseOf(Current(s.hist, k)))
  {
    hide Listed, RecordsAgree, Current, Row;
    forall k | k in ks
      ensures Lookup(s.hist, k) != [] && Unlisted(rows, k, Lookup(s.hist, k)[0]) <==>
        Negative(LeaseOf(Current(s.hist, k)))
    {
      HeadCurrent(s.hist, k);
      if Lookup(s.hist, k) != [] && Lookup(s.hist, k)[0].Live? {
        AgreesAt(s.hist, k);
        ListedAt(rows, s.hist, LeaseOf(Current(s.hist, k)), k);
      }
    }
  }

  /** A deletion in an exact state leaves the table exact, unless a key it reaches has such a lease. */
  lemma CmdDeleteExact(s: State, rev: nat, sub: nat, q: DeleteReq, f: Flags)
    requires Good(s.store) && RowsOk(s.rows, s.store.hist) && Exact(s)
    ensures var r, ks := CmdDeleteRange(s, rev, sub, q, f), DeleteKeys(s.store.keys, q.key, q.end);
      if !f.multiWrite && WrittenAt(s.store, ks, rev) then r == Fails(DuplicateKey)
      else if exists k <- ks :: Negative(LeaseOf(Current(s.store.hist, k))) then r == Fails(NotFound)
      else match r case Did(t, _, _) => Exact(t) case Fails(e) => e.Storage?
  {
    GoodKeys(s.store);
    hide Good, RowsOk, Listed, RecordsAgree, Current, DeleteAll, DeleteKeys, Doomed, Detach, MissesRow;
    hide PrevReads, WrittenAt, SortedKeys;
    var ks, tomb := DeleteKeys(s.store.keys, q.key, q.end), Rev(rev, sub, true);
    DeleteKeysDistinct(s.store.keys, q.key, q.end);
    RowsSorted(s.rows, s.store.hist);
    DetachNoneIff(s.rows, s.store, ks);
    MissesNegative(s.rows, s.store, ks);
    DeleteAllAgrees(s.store, s.book.epoch, ks, tomb);
    if Detach(s.rows, Doomed(s.store, ks)).Some? { DetachListed(s.rows, s.store, ks, s.book.epoch, tomb); }
  }

  lemma DetachListed(rows: seq<bytes>, s: Store, ks: seq<bytes>, epoch: nat, tomb: Rev)
    requires Good(s) && SortedKeys(rows) && Listed(rows, s.hist) && RecordsAgree(s.hist)
    requires Detach(rows, Doomed(s, ks)).Some?
    ensures Listed(Detach(rows, Doomed(s, ks)).value, DeleteAll(s, epoch, ks, tomb).hist)
  {
    var r, g := Detach(rows, Doomed(s, ks)).value, DeleteAll(s, epoch, ks, tomb).hist;
    DetachRows(rows, Doomed(s, ks));
    hide Good, Current, DeleteAll, Row, Listed, RecordsAgree, Doomed, Detach, SortedKeys;
    forall id: nat, key: bytes | id < UINT64_LIMIT
      ensures Row(id, key) in r <==> Owns(g, id, key) && !Negative(id)
    {
      DeleteAllCurrent(s, epoch, ks, tomb, key);
      ListedAt(rows, s.hist, id, key);
      if Owns(s.hist, id, key) { RowDoomed(s, ks, id, key); }
    }
    assert Listed(r, g) by { ListedAll(r, g); }
  }

  lemma ListedAll(rows: seq<bytes>, h: map<bytes, Versions>)
    requires forall id: nat, key: bytes | id < UINT64_LIMIT ::
      Row(id, key) in rows <==> Owns(h, id, key) && !Negative(id)
    ensures Listed(rows, h)
  {}

  /** A row of a lease and its key goes exactly if the key is among those deleted. */
  lemma RowDoomed(s: Store, ks: seq<bytes>, id: nat, key: bytes)
    requires Good(s) && RecordsAgree(s.hist) && Owns(s.hist, id, key) && id < UINT64_LIMIT
    ensures (exists it <- Doomed(s, ks) :: it.1.lease != 0 && Row(id, key) == Row(it.1.lease, it.0)) <==> key in ks
  {
    hide Good, Current, Row, RecordsAgree, Doomed;
    HeadCurrent(s.hist, key);
    AgreesAt(s.hist, key);
    if it :| it in Doomed(s, ks) && it.1.lease != 0 && Row(id, key) == Row(it.1.lease, it.0) {
      assert it == (it.0, it.1);
      DoomedItems(s, ks, it.0, it.1);
      HeadFits(s, it.0);
      RowsApart(id, key, it.1.lease, it.0);
    }
    if key in ks {
      var it := (key, KeyRecord(s.hist[key][0].kv.rev, s.hist[key][0].recLease));
      DoomedItems(s, ks, key, it.1);
      assert it in Doomed(s, ks) && it.1.lease != 0 && Row(id, key) == Row(it.1.lease, it.0);
    }
  }

  // ---- revoke ----

  /** The keys a revocation deletes are the live keys of that lease, and none if its id is negative. */
  lemma RevokesOwnKeys(s: State, id: nat, key: bytes)
    requires RowsOk(s.rows, s.store.hist) && Listed(s.rows, s.store.hist) && id in s.book.leases && id < UINT64_LIMIT
    ensures key in LeaseKeys(s, id) <==> Owns(s.store.hist, id, key) && !Negative(id)
  {
    hide SortedKeys, IsRow, Owns, Row;
    RowKeysMembers(s.rows, id, key);
  }

  lemma ExecRevokeExact(s: State, id: nat)
    requires Revocable(s) && Exact(s)
    ensures ExecRevoke(s, id).Next? && Exact(ExecRevoke(s, id).s)
  {
    hide Leasing, Listed, RecordsAgree, SortedKeys, RowsOk, LeaseKeys, ExecRevoke;
    RevokeKeepsRevocable(s, id);
    RevokeStore(s, id);
    if id in s.book.leases {
      LeaseBounds(s.book, id);
      DeleteAllAgrees(s.store, s.book.epoch, LeaseKeys(s, id), Rev(s.rev + 1, 0, true));
      RevokeListed(s, id);
    }
  }

  lemma RevokeStore(s: State, id: nat)
    requires ExecRevoke(s, id).Next?
    ensures var t := ExecRevoke(s, id).s;
      if id !in s.book.leases then
        t.store == s.store && t.rows == s.rows && t.book == s.book && t.rev == s.rev && t.term == s.term
      else
        && t.store == DeleteAll(s.store, s.book.epoch, LeaseKeys(s, id), Rev(s.rev + 1, 0, true))
        && t.rows == RowsWithout(s.rows, id) && t.book == Dropped(s.book, id)
        && t.rev == Bump(s.rev, LeaseKeys(s, id)) && t.term == s.term
  {
    hide DeleteAll, RowKeys, RowsWithout, Dropped;
  }

  lemma RevokeListed(s: State, id: nat)
    requires RowsOk(s.rows, s.store.hist) && Listed(s.rows, s.store.hist) && id in s.book.leases && id < UINT64_LIMIT
    ensures Listed(RowsWithout(s.rows, id),
      DeleteAll(s.store, s.book.epoch, LeaseKeys(s, id), Rev(s.rev + 1, 0, true)).hist)
  {
    hide RowsOk, Current, DeleteAll, RowKeys, RowsWithout, LeaseKeys, Row, KeyFor;
    var ks, tomb := LeaseKeys(s, id), Rev(s.rev + 1, 0, true);
    var g := DeleteAll(s.store, s.book.epoch, ks, tomb).hist;
    forall i: nat, key: bytes | i < UINT64_LIMIT
      ensures Row(i, key) in RowsWithout(s.rows, id) <==> Owns(g, i, key) && !Negative(i)
    {
      RowsWithoutMembers(s.rows, id, Row(i, key));
      KeyForRow(i, key, id);
      DeleteAllCurrent(s.store, s.book.epoch, ks, tomb, key);
      RevokesOwnKeys(s, id, key);
      ListedAt(s.rows, s.store.hist, i, key);
    }
  }

  // ---- transactions and the rest ----

  lemma OneOpExact(s: State, rev: nat, sub: nat, op: TxnOp, f: Flags)
    requires Good(s.store) && RowsOk(s.rows, s.store.hist) && Exact(s) && (op.OpPut? ==> NamesLease(op.put))
    requires OneOp(s, rev, sub, op, f).Did?
    ensures Exact(OneOp(s, rev, sub, op, f).s)
  {
    hide Good, RowsOk, Exact, CmdPut, CmdDeleteRange, QueryRange;
    match op
    case OpPut(q) => CmdPutExact(s, rev, sub, q, f);
    case OpDelete(q) => CmdDeleteExact(s, rev, sub, q, f);
    case _ =>
  }

  lemma {:induction false} RunOpsExact(s: State, rev: nat, ops: seq<TxnOp>, f: Flags)
    requires Core(s, Rev(rev, 0, false)) && rev < UPPER_LIMIT && OpsOk(ops) && Exact(s) && OpsNameLease(ops)
    requires RunOps(s, rev, ops, f).error.None?
    ensures Exact(RunOps(s, rev, ops, f).s)
  {
    hide Good, AllOlder, RowsOk, Exact, OneOp;
    if ops != [] {
      var n := |ops| - 1;
      RunOpsExact(s, rev, ops[..n], f);
      RunOpsKeeps(s, rev, ops[..n], f);
      assert ops[n] in ops;
      OneOpExact(RunOps(s, rev, ops[..n], f).s, rev, n, ops[n], f);
    }
  }

  lemma ExactFrame(s: State, t: State)
    requires Exact(s) && t.rows == s.rows && t.store == s.store
    ensures Exact(t)
  {}

  lemma ExecTxnExact(s: State, c: Cmd, f: Flags)
    requires Inv(s) && Room(s) && Exact(s) && c.TxnCmd? && CmdOk(c) && CmdNamesLease(c) && ExecTxn(s, c, f).Next?
    ensures Exact(ExecTxn(s, c, f).s)
  {
    hide Core, Leasing, Exact, CompareAll, RunOps;
    var cond := CompareAll(s.store.hist, c.compare);
    var ops := if cond.value then c.success else c.failure;
    var r := RunOps(s, s.rev + 1, ops, f);
    if r.error.None? {
      RunOpsExact(s, s.rev + 1, ops, f);
      ExactFrame(r.s, ExecTxn(s, c, f).s);
    } else {
      ExactFrame(s, ExecTxn(s, c, f).s);
    }
  }

  lemma {:induction false} ExpireExact(s: State, due: seq<bytes>)
    requires Revocable(s) && Exact(s) && forall row <- due :: |row| >= 9
    ensures Expire(s, due).Next? && Revocable(Expire(s, due).s) && Exact(Expire(s, due).s)
  {
    hide Revocable, Exact, ExecRevoke;
    ExpireNeverCrashes(s, due);
    if due != [] {
      var n := |due| - 1;
      ExpireExact(s, due[..n]);
      ExecRevokeExact(Expire(s, due[..n]).s, ExpId(due[n]));
    }
  }

  lemma ExecTickExact(s: State, term: nat)
    requires Inv(s) && Exact(s)
    ensures ExecTick(s, term).Next? && Exact(ExecTick(s, term).s)
  {
    hide Inv, Exact, Expire, Revocable, Due;
    if s.term <= term {
      var t := s.(book := Ticked(s.book));
      InvFrame(s, t);
      InvRevocable(t);
      ExactFrame(s, t);
      ExpireExact(t, Due(t.book.exp, t.book.epoch));
    }
  }

  lemma CompactListed(s: Store, rows: seq<bytes>, max: nat)
    requires Good(s) && max > 0 && Listed(rows, s.hist)
    ensures Listed(rows, Compact(s, max).hist)
  {
    hide Good, Compact, Row, ValueAt, Lookup;
    forall id: nat, key: bytes | id < UINT64_LIMIT
      ensures Row(id, key) in rows <==> Owns(Compact(s, max).hist, id, key) && !Negative(id)
    {
      CompactedValue(s, key, max, 0);
      ListedAt(rows, s.hist, id, key);
    }
  }

  lemma CompactAgrees(s: Store, max: nat)
    requires Good(s) && max > 0 && RecordsAgree(s.hist)
    ensures RecordsAgree(Compact(s, max).hist)
  {
    hide Good, CompactVersions, LastBelow, EventsFrom;
    var g: map<bytes, Versions> := Compact(s, max).hist;
    forall k | k in g && g[k] != [] && g[k][0].Live? ensures g[k][0].recLease == g[k][0].kv.lease < UINT64_LIMIT {
      CompactedHead(s, k, max);
    }
  }

  lemma CompactedHead(s: Store, k: bytes, max: nat)
    requires Good(s) && max > 0 && k in s.hist
    ensures var ws := CompactVersions(s.hist[k], LastBelow(s.evts, k, max));
      ws != [] ==> s.hist[k] != [] && ws[0] == s.hist[k][0]
  {
    hide Good, LastBelow, CompactVersions;
    CompactedVisible(s, k, max, 0);
  }

  lemma ExecPutExact(s: State, q: PutReq, f: Flags)
    requires RowsOk(s.rows, s.store.hist) && Exact(s) && NamesLease(q) && ExecPut(s, q, f).Next?
    ensures Exact(ExecPut(s, q, f).s)
  {
    hide Exact, RowsOk, CmdPut;
    CmdPutExact(s, s.rev + 1, 0, q, f);
    var r := CmdPut(s, s.rev + 1, 0, q, f);
    if r.Did? { ExactFrame(r.s, r.s.(rev := s.rev + 1)); }
  }

  lemma ExecDeleteExact(s: State, q: DeleteReq, f: Flags)
    requires Good(s.store) && RowsOk(s.rows, s.store.hist) && Exact(s) && ExecDelete(s, q, f).Next?
    ensures Exact(ExecDelete(s, q, f).s)
  {
    hide Exact, RowsOk, CmdDeleteRange, Good;
    CmdDeleteExact(s, s.rev + 1, 0, q, f);
    ExactFrame(CmdDeleteRange(s, s.rev + 1, 0, q, f).s, ExecDelete(s, q, f).s);
  }

  lemma ExecBookExact(s: State, c: Cmd, f: Flags)
    requires Exact(s) && (c.GrantCmd? || c.KeepAliveCmd? || c.KeepAliveBatchCmd? || c.TermCmd? || c.Garbled?)
    ensures Exec(s, c, f).Next? && Exact(Exec(s, c, f).s)
  {
    hide Exact, KeepAlive, Grant;
    ExactFrame(s, Exec(s, c, f).s);
  }

  lemma ExecExact(s: State, c: Cmd, f: Flags)
    requires Inv(s) && Room(s) && Exact(s) && CmdOk(c) && CmdNamesLease(c) && Exec(s, c, f).Next?
    ensures Exact(Exec(s, c, f).s)
  {
    InvRevocable(s);
    InvOlder(s);
    CoreRows(s, Rev(s.rev + 1, 0, false));
    hide Exact, Good, RowsOk, Inv, ExecPut, ExecDelete, ExecTxn, ExecTick, ExecRevoke, ExecCompact, AllOlder, Revocable;
    match c
    case PutCmd(q) => ExecPutExact(s, q, f);
    case DeleteCmd(q) => ExecDeleteExact(s, q, f);
    case TxnCmd(_, _, _) => ExecTxnExact(s, c, f);
    case RevokeCmd(id) => ExecRevokeExact(s, U64(id));
    case TickCmd(term) => ExecTickExact(s, term);
    case CompactCmd(max) => ExecCompactExact(s, max);
    case _ => ExecBookExact(s, c, f);
  }

  lemma ExecCompactExact(s: State, max: nat)
    requires Good(s.store) && Exact(s) && ExecCompact(s, max).Next?
    ensures Exact(ExecCompact(s, max).s)
  {
    hide Good, Listed, RecordsAgree, Compact;
    CompactListed(s.store, s.rows, max);
    CompactAgrees(s.store, max);
  }

  /**
   Over every run in which puts name their lease, the table lists exactly the live keys of
   each lease whose id is not negative.
   */
  lemma {:induction false} TableListsLeaseKeys(s: State, es: seq<Entry>, f: Flags)
    requires Inv(s) && Exact(s) && EntriesOk(es) && (forall e <- es :: CmdNamesLease(e.cmd))
    requires Run(s, es, f).Batch? && Room(Run(s, es, f).s)
    ensures Exact(Run(s, es, f).s)
  {
    hide Inv, Exact, Step;
    if es != [] {
      var n := |es| - 1;
      var t := Run(s, es[..n], f).s;
      assert es[n] in es;
      StepGrows(t, es[n], f);
      RunKeeps(s, es[..n], f);
      TableListsLeaseKeys(s, es[..n], f);
      StepExact(t, es[n], f);
    }
  }

  lemma StepExact(s: State, e: Entry, f: Flags)
    requires Inv(s) && Room(s) && Exact(s) && CmdOk(e.cmd) && CmdNamesLease(e.cmd) && Step(s, e, f).Next?
    ensures Exact(Step(s, e, f).s)
  {
    hide Inv, Exact, Exec;
    ExecExact(s, e.cmd, f);
    ExactFrame(Exec(s, e.cmd, f).s, Step(s, e, f).s);
  }

  lemma InitialExact()
    ensures Exact(INITIAL)
  {}

  /** So it lists the live keys of every lease exactly if no live key has a lease with a negative id. */
  lemma ListsAllIff(s: State)
    requires Exact(s)
    ensures
      (forall id: nat, key: bytes | id < UINT64_LIMIT :: Row(id, key) in s.rows <==> Owns(s.store.hist, id, key)) <==>
      (forall key: bytes :: !Negative(LeaseOf(Current(s.store.hist, key))))
  {
    hide Row, Current;
    var h := s.store.hist;
    if forall id: nat, key: bytes | id < UINT64_LIMIT :: Row(id, key) in s.rows <==> Owns(h, id, key) {
      forall key: bytes ensures !Negative(LeaseOf(Current(h, key))) {
        var id := LeaseOf(Current(h, key));
        CurrentLease(h, key);
        assert Row(id, key) in s.rows <==> Owns(h, id, key);
        ListedAt(s.rows, h, id, key);
      }
    }
  }

  // ---- when a put or a deletion brings a replica down ----

  /** Nothing is current under a revision that is still to come. */
  lemma NotYetWritten(s: Store, ks: seq<bytes>, rev: nat)
    requires AllOlder(s, Rev(rev, 0, false))
    ensures !WrittenAt(s, ks, rev)
  {
    forall k | k in ks && Current(s.hist, k).Some? ensures Current(s.hist, k).value.rev.upper != rev {
      HeadCurrent(s.hist, k);
      assert s.hist[k][0] in s.hist[k];
    }
  }

  predicate ChecksFlags(s: State, q: PutReq) {
    && (q.ignoreLease ==> q.lease == 0) && (q.ignoreValue ==> q.val == [])
    && (q.lease != 0 ==> U64(q.lease) in s.book.leases)
  }

  /** The checks a single put has to pass. */
  predicate PassesChecks(s: State, q: PutReq) {
    ChecksFlags(s, q) && q.key != [] && |q.key| <= KEY_LIMIT
  }

  /** The put is to delete a row of the old lease that is not there. */
  predicate MissesOldRow(s: State, q: PutReq, prev: nat) {
    && !q.ignoreLease && prev != 0 && I64(prev) != q.lease
    && Row(prev, q.key) !in if q.lease > 0 then InsertKey(s.rows, Row(U64(q.lease), q.key)) else s.rows
  }

  lemma AttachNoneIff(s: State, q: PutReq, prev: nat)
    ensures Attach(s.rows, q, prev).None? <==> MissesOldRow(s, q, prev)
  {
    hide InsertKey, Remove, Row;
  }

  lemma CmdPutFails(s: State, rev: nat, sub: nat, q: PutReq, f: Flags)
    ensures var r, e := CmdPut(s, rev, sub, q, f), PutFails(s.store, ArgsOf(s, rev, sub, q), f.multiWrite);
      if e.Some? then r == Fails(e.value)
      else if Attach(s.rows, q, LeaseOf(Current(s.store.hist, q.key))).None? then r == Fails(NotFound)
      else r.Did?
  {
    hide PutFails, Attach, Put, Current;
  }

  /**
   A put that passes its checks brings the replica down exactly if the key is live and its pair
   is too short to read back, or has a lease that does not list it and is to be replaced.
   */
  lemma PutCrashesIff(s: State, q: PutReq, f: Flags)
    requires Inv(s)
    ensures var prev := Current(s.store.hist, q.key);
      ExecPut(s, q, f).Crash? <==>
        PassesChecks(s, q) && prev.Some? && (Short(prev.value) || MissesOldRow(s, q, prev.value.lease))
  {
    hide *;
    InvOlder(s);
    PutFatal(s, q, f);
    NotYetWritten(s.store, [q.key], s.rev + 1);
    PutFailsIs(s, q, f);
    CmdPutFails(s, s.rev + 1, 0, q, f);
    AttachNoneIff(s, q, LeaseOf(Current(s.store.hist, q.key)));
    CrashCases(s, q, Current(s.store.hist, q.key));
  }

  lemma PutFatal(s: State, q: PutReq, f: Flags)
    ensures var r := CmdPut(s, s.rev + 1, 0, q, f);
      ExecPut(s, q, f).Crash? <==> ChecksFlags(s, q) && r.Fails? && r.error != KeyTooLong && r.error != EmptyKey
  {
    hide CmdPut;
  }

  lemma PutFailsIs(s: State, q: PutReq, f: Flags)
    requires !WrittenAt(s.store, [q.key], s.rev + 1)
    ensures var prev, e := Current(s.store.hist, q.key), PutFails(s.store, ArgsOf(s, s.rev + 1, 0, q), f.multiWrite);
      e == if q.key == [] then Some(EmptyKey) else if |q.key| > KEY_LIMIT then Some(KeyTooLong)
        else if prev.Some? && Short(prev.value) then Some(Storage(ChecksumMissing)) else None
  {
    hide Current, Short;
    assert q.key in [q.key];
  }

  lemma CrashCases(s: State, q: PutReq, prev: Option<Kv>)
    ensures PassesChecks(s, q) <==> ChecksFlags(s, q) && q.key != [] && |q.key| <= KEY_LIMIT
    ensures MissesOldRow(s, q, LeaseOf(prev)) <==> prev.Some? && MissesOldRow(s, q, prev.value.lease)
  {}

  /** A deleted pair cannot be shown: it is too short, and its revision is not 0, which would mean now. */
  predicate LostPrev(kv: Kv) { Short(kv) && kv.rev.upper > 0 }

  predicate ReadLost(h: map<bytes, Versions>, k: bytes) {
    Current(h, k).Some? && LostPrev(Current(h, k).value)
  }

  /** That is when its read fails once its tombstone is on top. */
  lemma DeletedReads(vs: Versions, tomb: Rev)
    requires vs != [] && vs[0].Live? && RevOf(vs[0]).upper < tomb.upper
    ensures ReadWithPrev([Tomb(tomb)] + vs, vs[0].kv.rev.upper, false).Err? <==> LostPrev(vs[0].kv)
  {
    hide Short;
    var v: Version := Tomb(tomb);
    var ws, r := [v] + vs, vs[0].kv.rev.upper;
    assert ws[0] == v && ws[1..] == vs;
    assert ReadAt(ws, r, false) == if r > 0 then ReadAt(vs, r, false) else Ok(None);
  }

  lemma {:induction false} DeleteAllHist(s: Store, epoch: nat, ks: seq<bytes>, tomb: Rev, k: bytes)
    requires Distinct(ks) && Current(s.hist, k).Some?
    ensures Lookup(DeleteAll(s, epoch, ks, tomb).hist, k) == (if k in ks then [Tomb(tomb)] else []) + Lookup(s.hist, k)
  {
    if ks == [] {
      assert [] + Lookup(s.hist, k) == Lookup(s.hist, k);
    } else {
      var n := |ks| - 1;
      var t := DeleteAll(s, epoch, ks[..n], tomb);
      assert ks == ks[..n] + [ks[n]] && ks[n] !in ks[..n];
      DeleteAllHist(s, epoch, ks[..n], tomb, k);
      DeleteAllCurrent(s, epoch, ks[..n], tomb, ks[n]);
      hide Current, InsertKey, DeleteAll;
      if ks[n] == k { assert [] + Lookup(s.hist, k) == Lookup(s.hist, k); }
      assert DeleteAll(s, epoch, ks, tomb) == Delete(t, epoch, ks[n], tomb) by { DeleteAllLast(s, epoch, ks, tomb); }
    }
  }

  lemma DeleteAllLast(s: Store, epoch: nat, ks: seq<bytes>, tomb: Rev)
    requires ks != []
    ensures DeleteAll(s, epoch, ks, tomb) ==
      Delete(DeleteAll(s, epoch, ks[..|ks| - 1], tomb), epoch, ks[|ks| - 1], tomb)
  {}

  /** Only the read of the last deleted pair is heeded. */
  lemma PrevLast(h: map<bytes, Versions>, items: seq<(bytes, KeyRecord)>, k: bytes, rec: KeyRecord)
    requires items != [] && items[|items| - 1] == (k, rec)
    ensures PrevReads(h, items).1.Some? <==> ReadWithPrev(Lookup(h, k), rec.rev.upper, false).Err?
  {
    hide ReadWithPrev, Lookup;
  }

  lemma HeadOlder(s: Store, k: bytes, rev: nat)
    requires AllOlder(s, Rev(rev, 0, false)) && Lookup(s.hist, k) != []
    ensures RevOf(Lookup(s.hist, k)[0]).upper < rev
  {
    assert s.hist[k][0] in s.hist[k] && Older(RevOf(s.hist[k][0]), Rev(rev, 0, false));
  }

  lemma LastRead(s: Store, epoch: nat, ks: seq<bytes>, tomb: Rev)
    requires AllOlder(s, Rev(tomb.upper, 0, false)) && Distinct(ks) && Doomed(s, ks) != []
    ensures var items := Doomed(s, ks);
      PrevReads(DeleteAll(s, epoch, ks, tomb).hist, items).1.Some? <==> ReadLost(s.hist, items[|items| - 1].0)
  {
    hide AllOlder, Doomed, DeleteAll, Current, LostPrev, Distinct, PrevReads, ReadWithPrev, Lookup;
    var items, g := Doomed(s, ks), DeleteAll(s, epoch, ks, tomb).hist;
    var (k, rec) := items[|items| - 1];
    assert (k, rec) in items;
    DoomedItems(s, ks, k, rec);
    HeadCurrent(s.hist, k);
    HeadOlder(s, k, tomb.upper);
    DeleteAllHist(s, epoch, ks, tomb, k);
    DeletedReads(Lookup(s.hist, k), tomb);
    PrevLast(g, items, k, rec);
  }

  lemma DeleteOutcome(s: State, q: DeleteReq, f: Flags)
    ensures var ks := DeleteKeys(s.store.keys, q.key, q.end);
      var items, g := Doomed(s.store, ks), DeleteAll(s.store, s.book.epoch, ks, Rev(s.rev + 1, 0, true)).hist;
      ExecDelete(s, q, f).Crash? <==>
        || (!f.multiWrite && WrittenAt(s.store, ks, s.rev + 1))
        || Detach(s.rows, items).None? || (q.prevKv && PrevReads(g, items).1.Some?)
  {
    hide DeleteAll, DeleteKeys, Doomed, Detach, PrevReads, WrittenAt, Reported;
  }

  lemma InvRows(s: State)
    requires Inv(s)
    ensures RowsOk(s.rows, s.store.hist)
  {
    CoreRows(s, Rev(s.rev + 1, 0, false));
  }

  /**
   A deletion brings the replica down exactly if the record of a key it reaches names a lease that
   does not list it, or the pairs before are asked for and the last of them cannot be shown.
   */
  lemma DeleteCrashesIff(s: State, q: DeleteReq, f: Flags)
    requires Inv(s)
    ensures var ks := DeleteKeys(s.store.keys, q.key, q.end);
      var items := Doomed(s.store, ks);
      ExecDelete(s, q, f).Crash? <==>
        || MissesRow(s.rows, s.store, ks)
        || (q.prevKv && items != [] && ReadLost(s.store.hist, items[|items| - 1].0))
  {
    hide *;
    InvOlder(s);
    GoodKeys(s.store);
    InvRows(s);
    RowsSorted(s.rows, s.store.hist);
    var ks, tomb := DeleteKeys(s.store.keys, q.key, q.end), Rev(s.rev + 1, 0, true);
    DeleteOutcome(s, q, f);
    NotYetWritten(s.store, ks, s.rev + 1);
    DeleteKeysDistinct(s.store.keys, q.key, q.end);
    DetachNoneIff(s.rows, s.store, ks);
    if Doomed(s.store, ks) == [] {
      NoReads(DeleteAll(s.store, s.book.epoch, ks, tomb).hist);
    } else {
      LastRead(s.store, s.book.epoch, ks, tomb);
    }
  }

  lemma NoReads(h: map<bytes, Versions>)
    ensures PrevReads(h, []).1.None?
  {}

  // ---- puts that keep the old lease ----

  lemma LastIsNew(ks: seq<bytes>)
    requires SortedKeys(ks) && ks != []
    ensures SortedKeys(ks[..|ks| - 1]) && ks[|ks| - 1] !in ks[..|ks| - 1]
  {
    hide LexLess;
    LexTotal(ks[|ks| - 1], ks[|ks| - 1]);
  }

  lemma {:induction false} SingleDelete(ks: seq<bytes>, k: bytes)
    requires SortedKeys(ks)
    ensures DeleteKeys(ks, k, []) == if k in ks then [k] else []
  {
    hide SortedKeys;
    if ks != [] {
      var n := |ks| - 1;
      LastIsNew(ks);
      SingleDelete(ks[..n], k);
      assert ks == ks[..n] + [ks[n]];
    }
  }

  /** The delete of one key that is live. */
  lemma DeleteOne(s: State, k: bytes, rev: nat, sub: nat, f: Flags)
    requires Good(s.store) && k in s.store.hist && s.store.hist[k] != [] && s.store.hist[k][0].Live?
    requires s.store.hist[k][0].kv.rev.upper != rev
    ensures var r := CmdDeleteRange(s, rev, sub, DeleteReq(k, [], false), f);
      var lease := s.store.hist[k][0].recLease;
      if lease != 0 && Row(lease, k) !in s.rows then r == Fails(NotFound)
      else
        && r.Did? && r.s.store == DeleteAll(s.store, s.book.epoch, [k], Rev(rev, sub, true))
        && r.s.rows == if lease == 0 then s.rows else Remove(s.rows, Row(lease, k))
  {
    hide Good, SortedKeys, DeleteKeys, Doomed, Remove, Row, DeleteAll, Detach, WrittenAt, PrevReads;
    GoodKeys(s.store);
    SingleDelete(s.store.keys, k);
    DoomedOne(s.store, k);
    var v: Version := s.store.hist[k][0];
    DetachNone(s.rows);
    DetachSnoc(s.rows, [], k, KeyRecord(v.kv.rev, v.recLease));
    assert [] + [(k, KeyRecord(v.kv.rev, v.recLease))] == [(k, KeyRecord(v.kv.rev, v.recLease))];
  }

  lemma DetachNone(rows: seq<bytes>)
    ensures Detach(rows, []) == Some(rows)
  {}

  /**
   A put under IgnoreLease keeps the lease of the pair but records lease 0. Deleting such a
   key leaves its row behind: the table stays exact exactly if the record names the lease, or
   the lease has a negative id; and if both, there is no row to delete and the deletion fails.
   */
  lemma KeptLeaseLeavesRow(s: State, k: bytes, rev: nat, sub: nat, f: Flags)
    requires Good(s.store) && RowsOk(s.rows, s.store.hist) && Listed(s.rows, s.store.hist) && k in s.store.hist
    requires var vs := s.store.hist[k];
      && vs != [] && vs[0].Live? && 0 < vs[0].kv.lease < UINT64_LIMIT && vs[0].kv.rev.upper != rev
      && (vs[0].recLease == 0 || vs[0].recLease == vs[0].kv.lease)
    ensures var r, lease := CmdDeleteRange(s, rev, sub, DeleteReq(k, [], false), f), s.store.hist[k][0].kv.lease;
      var named := s.store.hist[k][0].recLease == lease;
      if named && Negative(lease) then r == Fails(NotFound)
      else r.Did? && (Listed(r.s.rows, r.s.store.hist) <==> named || Negative(lease))
  {
    hide Good, RowsOk, Listed, Current, SortedKeys, Remove, Row, DeleteAll, CmdDeleteRange;
    var h := s.store.hist;
    var v: Version := h[k][0];
    HeadCurrent(h, k);
    RowsSorted(s.rows, h);
    ListedAt(s.rows, h, v.kv.lease, k);
    DeleteOne(s, k, rev, sub, f);
    KeptRows(s, k, v.kv.lease, Rev(rev, sub, true));
  }

  lemma DoomedOne(s: Store, k: bytes)
    requires k in s.hist && s.hist[k] != [] && s.hist[k][0].Live?
    ensures Doomed(s, [k]) == [(k, KeyRecord(s.hist[k][0].kv.rev, s.hist[k][0].recLease))]
    ensures forall rev :: WrittenAt(s, [k], rev) <==> s.hist[k][0].kv.rev.upper == rev
  {
    HeadCurrent(s.hist, k);
    hide Current;
    assert [k][..0] == [];
  }

  lemma KeptRows(s: State, k: bytes, lease: nat, tomb: Rev)
    requires SortedKeys(s.rows) && Listed(s.rows, s.store.hist) && Owns(s.store.hist, lease, k) && lease < UINT64_LIMIT
    ensures var g := DeleteAll(s.store, s.book.epoch, [k], tomb).hist;
      (Listed(s.rows, g) <==> Negative(lease)) && Listed(Remove(s.rows, Row(lease, k)), g)
  {
    var g := DeleteAll(s.store, s.book.epoch, [k], tomb).hist;
    hide Current, DeleteAll, LexLess, Seek, Remove, Row;
    DeleteAllCurrent(s.store, s.book.epoch, [k], tomb, k);
    ListedAt(s.rows, s.store.hist, lease, k);
    RemoveMembers(s.rows, Row(lease, k));
    forall id: nat, key: bytes | id < UINT64_LIMIT
      ensures Row(id, key) in Remove(s.rows, Row(lease, k)) <==> Owns(g, id, key) && !Negative(id)
      ensures Negative(lease) ==> (Row(id, key) in s.rows <==> Owns(g, id, key) && !Negative(id))
    {
      DeleteAllCurrent(s.store, s.book.epoch, [k], tomb, key);
      ListedAt(s.rows, s.store.hist, id, key);
      RowsApart(id, key, lease, k);
    }
    if !Negative(lease) { assert Row(lease, k) in s.rows && !Owns(g, lease, k); }
  }
}
