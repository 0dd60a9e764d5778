/**
 What the tables hold now, without versions and byte rows: the pair of each live key, the
 lease its record names, and which lease claims which key. Puts, deletions and
 transactions on such a table, and the proof that the store does the same.
 */
module PlainTables {
  import opened Base
  import opened KeyRev
  import opened KvCodec
  import opened History
  import opened LeaseTables
  import opened DbKvs
  import opened Machine
  import opened Invariants
  import opened Snapshots
  import opened LeaseLaws
  import Uvarint

  type Pairs = map<bytes, Kv>

  type Claims = set<(nat, bytes)>

  datatype Table = Table(m: Pairs, named: map<bytes, nat>, claims: Claims)

  // ---- operations on a plain table ----

  function Find(m: Pairs, k: bytes): Option<Kv> { if k in m then Some(m[k]) else None }

  /** A put that keeps the old lease leaves the claims alone. */
  function PutClaims(c: Claims, q: PutReq, prev: nat): Claims {
    if q.ignoreLease || I64(prev) == q.lease then c
    else
      (if q.lease > 0 then c + {(U64(q.lease), q.key)} else c) - (if prev != 0 then {(prev, q.key)} else {})
  }

  function PutPair(m: Pairs, rev: nat, sub: nat, q: PutReq): Kv {
    if q.key !in m then Kv(Rev(rev, sub, false), 1, rev, U64(q.lease), q.key, q.val)
    else
      var held := m[q.key];
      Kv(Rev(rev, sub, false), held.version + 1, held.created,
         if q.ignoreLease then held.lease else U64(q.lease), q.key,
         if q.ignoreValue then held.val else q.val)
  }

  function PlainPut(t: Table, rev: nat, sub: nat, q: PutReq, multiWrite: bool): Result<Table, OpError> {
    if q.key == [] then Err(EmptyKey)
    else if |q.key| > KEY_LIMIT then Err(KeyTooLong)
    else if q.key in t.m && t.m[q.key].rev.upper == rev && !multiWrite then Err(DuplicateKey)
    else
      Ok(Table(t.m[q.key := PutPair(t.m, rev, sub, q)], t.named[q.key := U64(q.lease)],
               PutClaims(t.claims, q, LeaseOf(Find(t.m, q.key)))))
  }

  /** One key, or all from `key` up to and including `end`. */
  predicate Spans(q: DeleteReq, k: bytes) {
    if q.end == [] then k == q.key
    else (k == q.key || LexLess(q.key, k)) && (k == q.end || LexLess(k, q.end))
  }

  lemma SpansAgrees(q: DeleteReq, k: bytes)
    ensures Spans(q, k) <==> InDeleteRange(k, q.key, q.end)
  {
    LexTotal(q.key, k);
    LexTotal(k, q.end);
  }

  /** The live keys a deletion reaches. */
  ghost function Reached(m: Pairs, q: DeleteReq): set<bytes> {
    set k | k in m && Spans(q, k)
  }

  /** The claims of these keys, as far as their records name a lease. */
  ghost function ClaimsOf(named: map<bytes, nat>, ks: set<bytes>): Claims {
    set k | k in ks && k in named && named[k] != 0 :: (named[k], k)
  }

  ghost function PlainDelete(t: Table, rev: nat, q: DeleteReq, multiWrite: bool): Result<Table, OpError> {
    var gone := Reached(t.m, q);
    if !multiWrite && (exists k <- gone :: t.m[k].rev.upper == rev) then Err(DuplicateKey)
    else Ok(Table(t.m - gone, t.named - gone, t.claims - ClaimsOf(t.named, gone)))
  }

  datatype PlainOps = PlainOps(t: Table, touched: bool, error: Option<OpError>)

  ghost function PlainRunOps(t: Table, rev: nat, ops: seq<TxnOp>, multiWrite: bool): PlainOps {
    if ops == [] then PlainOps(t, false, None)
    else
      var n := |ops| - 1;
      var p := PlainRunOps(t, rev, ops[..n], multiWrite);
      if p.error.Some? then p
      else
        match ops[n]
        case OpPut(q) =>
          var r := PlainPut(p.t, rev, n, q, multiWrite);
          if r.Ok? then PlainOps(r.value, true, None) else p.(error := Some(r.error))
        case OpDelete(q) =>
          var r := PlainDelete(p.t, rev, q, multiWrite);
          if r.Ok? then PlainOps(r.value, p.touched || Reached(p.t.m, q) != {}, None) else p.(error := Some(r.error))
        case _ => p
  }

  // ---- conditions ----

  /** How two numbers compare; a relation that does not exist never holds. */
  predicate Related(relation: Relation, x: int, y: int) {
    || (relation.Equal? && x == y)
    || (relation.NotEqual? && (x < y || y < x))
    || (relation.Less? && x < y)
    || (relation.Greater? && y < x)
  }

  /** How two values compare, byte by byte; a relation that does not exist always holds. */
  predicate ValuesRelated(relation: Relation, x: bytes, y: bytes) {
    || (relation.Equal? && x == y)
    || (relation.NotEqual? && x != y)
    || (relation.Less? && LexLess(x, y))
    || (relation.Greater? && LexLess(y, x))
    || relation.OtherRelation?
  }

  /** The condition compares a field of the pair with its operand; of a missing key all fields are zero or empty. */
  predicate Meets(m: Pairs, c: Compare) {
    var there := c.key in m;
    match c.target
    case OnVersion(n) => Related(c.relation, if there then I64(m[c.key].version) else 0, n)
    case OnCreate(n) => Related(c.relation, if there then I64(m[c.key].created) else 0, n)
    case OnMod(n) => Related(c.relation, if there then m[c.key].rev.upper else 0, n)
    case OnLease(n) => Related(c.relation, if there then I64(m[c.key].lease) else 0, n)
    case OnValue(v) => ValuesRelated(c.relation, if there then m[c.key].val else [], v)
    case OnOther => true
    case Mismatched => false
  }

  lemma HoldsIsMeets(m: Pairs, c: Compare)
    ensures Holds(c, Find(m, c.key)) <==> Meets(m, c)
  {}

  ghost predicate AllHold(m: Pairs, cs: seq<Compare>) {
    forall c <- cs :: Meets(m, c)
  }

  /** The keys a lease claims. */
  ghost function ClaimedBy(c: Claims, id: nat): set<bytes> {
    set x | x in c && x.0 == id :: x.1
  }

  ghost function OtherClaims(c: Claims, id: nat): Claims {
    set x | x in c && x.0 != id
  }

  /** A revocation removes what the lease claims, live or not. */
  ghost function PlainRevoked(t: Table, id: nat): Table {
    var gone := ClaimedBy(t.claims, id);
    Table(t.m - gone, t.named - gone, OtherClaims(t.claims, id))
  }

  // ---- the table of a state ----

  function ParseRow(row: bytes): (nat, bytes) {
    var d := Uvarint.Decode(row);
    if d.Some? then (d.value.value, row[d.value.width..]) else (0, row)
  }

  ghost function ClaimsIn(rows: seq<bytes>): Claims {
    set row | row in rows :: ParseRow(row)
  }

  ghost function NamedIn(h: map<bytes, Versions>): map<bytes, nat> {
    map k | k in h && h[k] != [] && h[k][0].Live? :: h[k][0].recLease
  }

  ghost function TableOf(s: State): Table {
    Table(SnapshotAt(s.store.hist, 0), NamedIn(s.store.hist), ClaimsIn(s.rows))
  }

  lemma ParseRowOf(id: nat, key: bytes)
    requires id < UINT64_LIMIT
    ensures ParseRow(Row(id, key)) == (id, key)
  {
    Uvarint.RoundTrip(id, key);
  }

  /** A lease claims a key exactly if the table has the row that says so. */
  lemma ClaimsInHas(rows: seq<bytes>, id: nat, key: bytes)
    requires forall row <- rows :: IsRow(row)
    ensures (id, key) in ClaimsIn(rows) <==> id < UINT64_LIMIT && Row(id, key) in rows
  {
    hide ParseRow, Row;
    if (id, key) in ClaimsIn(rows) {
      var row :| row in rows && ParseRow(row) == (id, key);
      assert IsRow(row);
      var i: nat, k: bytes :| i < UINT64_LIMIT && row == Row(i, k);
      ParseRowOf(i, k);
    } else if id < UINT64_LIMIT && Row(id, key) in rows {
      ParseRowOf(id, key);
    }
  }

  lemma SameClaims(rows: seq<bytes>, c: Claims)
    requires forall row <- rows :: IsRow(row)
    requires forall id: nat, key: bytes :: (id, key) in c <==> id < UINT64_LIMIT && Row(id, key) in rows
    ensures ClaimsIn(rows) == c
  {
    hide Row, ClaimsIn, IsRow;
    forall x ensures x in ClaimsIn(rows) <==> x in c {
      ClaimsInHas(rows, x.0, x.1);
      assert x == (x.0, x.1);
    }
  }

  // ---- put ----

  lemma FindCurrent(h: map<bytes, Versions>, k: bytes)
    ensures Find(SnapshotAt(h, 0), k) == Current(h, k)
  {
    hide SnapshotAt, ValueAt, Lookup;
    SnapshotGet(h, 0, k);
  }

  /** What is in the rows after a put. */
  lemma AttachRows(rows: seq<bytes>, q: PutReq, prev: nat)
    requires SortedKeys(rows) && (forall row <- rows :: IsRow(row)) && prev < UINT64_LIMIT
    requires Attach(rows, q, prev).Some?
    requires !(q.ignoreLease || I64(prev) == q.lease)
    ensures var r := Attach(rows, q, prev).value;
      && (forall row <- r :: IsRow(row))
      && (forall x :: x in r <==>
        (x in rows || (q.lease > 0 && x == Row(U64(q.lease), q.key))) && (prev != 0 ==> x != Row(prev, q.key)))
  {
    hide LexLess, Seek, InsertKey, Remove, Row;
    var row := Row(U64(q.lease), q.key);
    InsertKeySorted(rows, row);
    RemoveMembers(if q.lease > 0 then InsertKey(rows, row) else rows, Row(prev, q.key));
    assert IsRow(row);
  }

  lemma AttachClaims(rows: seq<bytes>, q: PutReq, prev: nat)
    requires SortedKeys(rows) && (forall row <- rows :: IsRow(row)) && prev < UINT64_LIMIT
    requires Attach(rows, q, prev).Some?
    ensures ClaimsIn(Attach(rows, q, prev).value) == PutClaims(ClaimsIn(rows), q, prev)
  {
    if !(q.ignoreLease || I64(prev) == q.lease) {
      AttachRows(rows, q, prev);
      var r, c := Attach(rows, q, prev).value, PutClaims(ClaimsIn(rows), q, prev);
      hide Attach, Row, ClaimsIn, SortedKeys, IsRow;
      forall id: nat, key: bytes ensures (id, key) in c <==> id < UINT64_LIMIT && Row(id, key) in r {
        ClaimsInHas(rows, id, key);
        if id < UINT64_LIMIT {
          RowsApart(id, key, U64(q.lease), q.key);
          RowsApart(id, key, prev, q.key);
        }
      }
      SameClaims(r, c);
    }
  }

  lemma NamedPush(s: Store, epoch: nat, key: bytes, v: Version)
    ensures NamedIn(Push(s, epoch, key, v).hist) ==
      if v.Live? then NamedIn(s.hist)[key := v.recLease] else NamedIn(s.hist) - {key}
  {
    hide InsertKey;
    var g := Push(s, epoch, key, v).hist;
    assert g[key][0] == v;
    assert forall k :: k in g && k != key ==> k in s.hist && g[k] == s.hist[k];
  }

  lemma CurrentFits(s: Store, k: bytes)
    requires Good(s)
    ensures LeaseOf(Current(s.hist, k)) < UINT64_LIMIT
  {
    HeadCurrent(s.hist, k);
    if k in s.hist { assert GoodVersions(k, s.hist[k]) && s.hist[k][0] in s.hist[k]; }
  }

  lemma PutRefusals(s: State, rev: nat, sub: nat, q: PutReq, f: Flags)
    ensures var p := PlainPut(TableOf(s), rev, sub, q, f.multiWrite);
      var e := PutFails(s.store, ArgsOf(s, rev, sub, q), f.multiWrite);
      && (e.Some? && Answerable(e.value) ==> p == Err(e.value)) && (e.None? ==> p.Ok?)
  {
    hide SnapshotAt, NamedIn, ClaimsIn, Current, Short, PutClaims, PutPair;
    FindCurrent(s.store.hist, q.key);
  }

  lemma PutPairIs(s: State, rev: nat, sub: nat, q: PutReq)
    ensures PutPair(SnapshotAt(s.store.hist, 0), rev, sub, q) == Written(s.store, ArgsOf(s, rev, sub, q))
  {
    hide SnapshotAt, Current;
    FindCurrent(s.store.hist, q.key);
  }

  lemma PutTable(s: State, rev: nat, sub: nat, q: PutReq, rows: seq<bytes>)
    requires Good(s.store) && RowsOk(s.rows, s.store.hist)
    requires Attach(s.rows, q, LeaseOf(Current(s.store.hist, q.key))) == Some(rows)
    ensures var t, m := TableOf(s), SnapshotAt(s.store.hist, 0);
      TableOf(s.(store := Put(s.store, ArgsOf(s, rev, sub, q)), rows := rows)) ==
        Table(m[q.key := PutPair(m, rev, sub, q)], t.named[q.key := U64(q.lease)],
              PutClaims(t.claims, q, LeaseOf(Find(m, q.key))))
  {
    hide Good, RowsOk, SnapshotAt, NamedIn, ClaimsIn, Current, Push, Attach, SortedKeys, IsRow;
    hide PutClaims, PutPair, Written, U64;
    CurrentFits(s.store, q.key);
    CoreRowsSorted(s.rows, s.store.hist);
    var a := ArgsOf(s, rev, sub, q);
    var v := Live(Written(s.store, a), a.lease);
    FindCurrent(s.store.hist, q.key);
    PutPairIs(s, rev, sub, q);
    WrittenRev(s.store, a);
    SnapshotPush(s.store, a.epoch, a.key, v, 0);
    NamedPush(s.store, a.epoch, a.key, v);
    AttachClaims(s.rows, q, LeaseOf(Current(s.store.hist, q.key)));
  }

  lemma WrittenRev(s: Store, a: PutArgs)
    ensures Written(s, a).rev == Rev(a.rev, a.subrev, false)
  {}

  lemma PlainPutAgrees(s: State, rev: nat, sub: nat, q: PutReq, f: Flags)
    requires Good(s.store) && RowsOk(s.rows, s.store.hist)
    ensures var p := PlainPut(TableOf(s), rev, sub, q, f.multiWrite);
      match CmdPut(s, rev, sub, q, f)
      case Did(t, _, _) => p == Ok(TableOf(t))
      case Fails(e) => Answerable(e) ==> p == Err(e)
  {
    hide Good, RowsOk, SnapshotAt, NamedIn, ClaimsIn, Current, Put, PutFails, Attach, PutClaims, PutPair, ArgsOf;
    PutRefusals(s, rev, sub, q, f);
    var rows := Attach(s.rows, q, LeaseOf(Current(s.store.hist, q.key)));
    if rows.Some? { PutTable(s, rev, sub, q, rows.value); }
  }

  lemma CoreRowsSorted(rows: seq<bytes>, h: map<bytes, Versions>)
    requires RowsOk(rows, h)
    ensures SortedKeys(rows) && forall row <- rows :: IsRow(row)
  {}

  // ---- delete ----

  /** The live keys of a deletion are those it reaches. */
  lemma ReachedKeys(s: Store, q: DeleteReq, k: bytes)
    requires forall x :: x in s.keys <==> x in s.hist
    ensures k in Reached(SnapshotAt(s.hist, 0), q) <==>
      k in DeleteKeys(s.keys, q.key, q.end) && Current(s.hist, k).Some?
  {
    SpansAgrees(q, k);
    hide InDeleteRange, Spans;
    FindCurrent(s.hist, k);
  }

  lemma DeletePairs(s: Store, epoch: nat, q: DeleteReq, tomb: Rev)
    requires forall x :: x in s.keys <==> x in s.hist
    ensures var m := SnapshotAt(s.hist, 0);
      SnapshotAt(DeleteRange(s, epoch, q.key, q.end, tomb).hist, 0) == m - Reached(m, q)
  {
    hide SnapshotAt, DeleteAll, Current, Reached, DeleteKeys;
    var ks, m := DeleteKeys(s.keys, q.key, q.end), SnapshotAt(s.hist, 0);
    SnapshotDeleteAll(s, epoch, ks, tomb);
    forall k | k in m ensures k in ks <==> k in Reached(m, q) {
      FindCurrent(s.hist, k);
      ReachedKeys(s, q, k);
    }
  }

  lemma NamedLive(h: map<bytes, Versions>, k: bytes)
    ensures k in NamedIn(h) <==> Current(h, k).Some?
  {
    HeadCurrent(h, k);
  }

  lemma {:induction false} NamedDeleteAll(s: Store, epoch: nat, ks: seq<bytes>, tomb: Rev)
    ensures NamedIn(DeleteAll(s, epoch, ks, tomb).hist) == NamedIn(s.hist) - (set k | k in ks)
  {
    hide NamedIn, Push, Current;
    if ks != [] {
      var n := |ks| - 1;
      NamedDeleteAll(s, epoch, ks[..n], tomb);
      var t := DeleteAll(s, epoch, ks[..n], tomb);
      assert ks == ks[..n] + [ks[n]];
      assert (set k | k in ks) == (set k | k in ks[..n]) + {ks[n]};
      NamedLive(t.hist, ks[n]);
      if Current(t.hist, ks[n]).Some? { NamedPush(t, epoch, ks[n], Tomb(tomb)); }
    }
  }

  lemma DeleteNames(s: Store, epoch: nat, q: DeleteReq, tomb: Rev)
    requires forall x :: x in s.keys <==> x in s.hist
    ensures NamedIn(DeleteRange(s, epoch, q.key, q.end, tomb).hist) ==
      NamedIn(s.hist) - Reached(SnapshotAt(s.hist, 0), q)
  {
    hide SnapshotAt, NamedIn, DeleteAll, Current, Reached, DeleteKeys;
    var ks, n := DeleteKeys(s.keys, q.key, q.end), NamedIn(s.hist);
    NamedDeleteAll(s, epoch, ks, tomb);
    forall k | k in n ensures k in ks <==> k in Reached(SnapshotAt(s.hist, 0), q) {
      NamedLive(s.hist, k);
      ReachedKeys(s, q, k);
    }
  }

  lemma NamedFits(s: Store, k: bytes)
    requires Good(s) && k in NamedIn(s.hist)
    ensures NamedIn(s.hist)[k] < UINT64_LIMIT
  {
    assert GoodVersions(k, s.hist[k]) && s.hist[k][0] in s.hist[k];
  }

  /** A row is deleted exactly if it is the claim a deleted key's record names. */
  lemma DoomedRow(s: Store, q: DeleteReq, id: nat, key: bytes)
    requires Good(s) && id < UINT64_LIMIT
    ensures (exists it <- Doomed(s, DeleteKeys(s.keys, q.key, q.end)) ::
      it.1.lease != 0 && Row(id, key) == Row(it.1.lease, it.0)) <==>
      (id, key) in ClaimsOf(NamedIn(s.hist), Reached(SnapshotAt(s.hist, 0), q))
  {
    GoodKeys(s);
    hide Good, SnapshotAt, Reached, DeleteKeys, Row, Doomed, Current, SortedKeys;
    var ks, gone := DeleteKeys(s.keys, q.key, q.end), Reached(SnapshotAt(s.hist, 0), q);
    if it :| it in Doomed(s, ks) && it.1.lease != 0 && Row(id, key) == Row(it.1.lease, it.0) {
      assert it == (it.0, it.1);
      DoomedItems(s, ks, it.0, it.1);
      NamedFits(s, it.0);
      RowsApart(id, key, it.1.lease, it.0);
      NamedLive(s.hist, key);
      ReachedKeys(s, q, key);
    }
    if (id, key) in ClaimsOf(NamedIn(s.hist), gone) {
      NamedLive(s.hist, key);
      ReachedKeys(s, q, key);
      var rec := KeyRecord(s.hist[key][0].kv.rev, s.hist[key][0].recLease);
      DoomedItems(s, ks, key, rec);
      var it := (key, rec);
      assert it in Doomed(s, ks) && it.1.lease != 0 && Row(id, key) == Row(it.1.lease, it.0);
    }
  }

  lemma DeleteClaims(s: State, q: DeleteReq)
    requires Good(s.store) && RowsOk(s.rows, s.store.hist)
    requires Detach(s.rows, Doomed(s.store, DeleteKeys(s.store.keys, q.key, q.end))).Some?
    ensures var t := TableOf(s);
      ClaimsIn(Detach(s.rows, Doomed(s.store, DeleteKeys(s.store.keys, q.key, q.end))).value) ==
        t.claims - ClaimsOf(t.named, Reached(t.m, q))
  {
    CoreRowsSorted(s.rows, s.store.hist);
    var items := Doomed(s.store, DeleteKeys(s.store.keys, q.key, q.end));
    DetachRows(s.rows, items);
    var t, r := TableOf(s), Detach(s.rows, items).value;
    hide Good, RowsOk, SnapshotAt, NamedIn, ClaimsIn, ClaimsOf, Reached, DeleteKeys, Row, Doomed;
    hide Detach, SortedKeys, IsRow;
    var c := t.claims - ClaimsOf(t.named, Reached(t.m, q));
    forall id: nat, key: bytes ensures (id, key) in c <==> id < UINT64_LIMIT && Row(id, key) in r {
      ClaimsInHas(s.rows, id, key);
      if id < UINT64_LIMIT { DoomedRow(s.store, q, id, key); }
    }
    SameClaims(r, c);
  }

  lemma WrittenPairs(s: Store, q: DeleteReq, rev: nat)
    requires forall x :: x in s.keys <==> x in s.hist
    ensures var m := SnapshotAt(s.hist, 0);
      WrittenAt(s, DeleteKeys(s.keys, q.key, q.end), rev) <==> exists k <- Reached(m, q) :: m[k].rev.upper == rev
  {
    var m, ks := SnapshotAt(s.hist, 0), DeleteKeys(s.keys, q.key, q.end);
    assert forall k <- Reached(m, q) :: k in m;
    hide SnapshotAt, Current, Reached, DeleteKeys;
    forall k ensures k in Reached(m, q) && m[k].rev.upper == rev <==>
      k in ks && Current(s.hist, k).Some? && Current(s.hist, k).value.rev.upper == rev
    {
      FindCurrent(s.hist, k);
      ReachedKeys(s, q, k);
    }
  }

  lemma ReachedDoomed(s: Store, q: DeleteReq)
    requires forall x :: x in s.keys <==> x in s.hist
    ensures Reached(SnapshotAt(s.hist, 0), q) != {} <==> Doomed(s, DeleteKeys(s.keys, q.key, q.end)) != []
  {
    var ks := DeleteKeys(s.keys, q.key, q.end);
    var gone := Reached(SnapshotAt(s.hist, 0), q);
    hide SnapshotAt, Reached, DeleteKeys, Current, Doomed;
    if k :| k in gone {
      ReachedKeys(s, q, k);
      HeadCurrent(s.hist, k);
      DoomedItems(s, ks, k, KeyRecord(s.hist[k][0].kv.rev, s.hist[k][0].recLease));
    }
    if Doomed(s, ks) != [] {
      var it := Doomed(s, ks)[0];
      assert it == (it.0, it.1);
      DoomedItems(s, ks, it.0, it.1);
      HeadCurrent(s.hist, it.0);
      ReachedKeys(s, q, it.0);
    }
  }

  lemma DeleteTable(s: State, rev: nat, sub: nat, q: DeleteReq, rows: seq<bytes>)
    requires Good(s.store) && RowsOk(s.rows, s.store.hist)
    requires Detach(s.rows, Doomed(s.store, DeleteKeys(s.store.keys, q.key, q.end))) == Some(rows)
    ensures var t := TableOf(s);
      var gone := Reached(t.m, q);
      TableOf(s.(store := DeleteRange(s.store, s.book.epoch, q.key, q.end, Rev(rev, sub, true)), rows := rows)) ==
        Table(t.m - gone, t.named - gone, t.claims - ClaimsOf(t.named, gone))
  {
    hide Good, RowsOk, SnapshotAt, NamedIn, ClaimsIn, ClaimsOf, Reached, DeleteRange, Detach;
    hide Doomed, DeleteKeys, SortedKeys;
    GoodKeys(s.store);
    DeletePairs(s.store, s.book.epoch, q, Rev(rev, sub, true));
    DeleteNames(s.store, s.book.epoch, q, Rev(rev, sub, true));
    DeleteClaims(s, q);
  }

  lemma PlainDeleteAgrees(s: State, rev: nat, sub: nat, q: DeleteReq, f: Flags)
    requires Good(s.store) && RowsOk(s.rows, s.store.hist)
    ensures var p := PlainDelete(TableOf(s), rev, q, f.multiWrite);
      match CmdDeleteRange(s, rev, sub, q, f)
      case Did(t, _, keys) => p == Ok(TableOf(t)) && (keys != [] <==> Reached(TableOf(s).m, q) != {})
      case Fails(e) => Answerable(e) ==> p == Err(e)
  {
    hide Good, RowsOk, SnapshotAt, NamedIn, ClaimsIn, ClaimsOf, Reached, DeleteRange, DeleteKeys;
    hide Doomed, Detach, PrevReads;
    hide WrittenAt, SortedKeys;
    GoodKeys(s.store);
    WrittenPairs(s.store, q, rev);
    ReachedDoomed(s.store, q);
    var rows := Detach(s.rows, Doomed(s.store, DeleteKeys(s.store.keys, q.key, q.end)));
    if rows.Some? { DeleteTable(s, rev, sub, q, rows.value); }
  }

  // ---- transactions ----

  /** A condition that brings the replica down: its operand does not fit, or the pair is too short to read back. */
  predicate Unanswered(m: Pairs, c: Compare) {
    c.target.Mismatched? || (c.key in m && Short(m[c.key]))
  }

  lemma FirstCompared(h: map<bytes, Versions>, c: Compare)
    ensures var item, m := ReadWithPrev(Lookup(h, c.key), 0, false), SnapshotAt(h, 0);
      && (item.Err? <==> c.key in m && Short(m[c.key]))
      && (item.Ok? ==> (Holds(c, item.value.0) <==> Meets(m, c)))
  {
    var m := SnapshotAt(h, 0);
    FindCurrent(h, c.key);
    HoldsIsMeets(m, c);
    hide SnapshotAt, Holds, Meets, Short;
  }

  /** The conditions up to the first that does not hold are answered, or one of them cannot be. */
  lemma {:induction false} CompareAgrees(h: map<bytes, Versions>, cs: seq<Compare>)
    ensures CompareAll(h, cs).Ok? ==> (CompareAll(h, cs).value <==> AllHold(SnapshotAt(h, 0), cs))
    ensures CompareAll(h, cs).Err? <==>
      exists i | 0 <= i < |cs| :: AllHold(SnapshotAt(h, 0), cs[..i]) && Unanswered(SnapshotAt(h, 0), cs[i])
  {
    hide SnapshotAt, Holds, Meets, Short, ReadWithPrev;
    if cs != [] {
      var m, c, rest := SnapshotAt(h, 0), cs[0], cs[1..];
      CompareAgrees(h, rest);
      FirstCompared(h, c);
      assert cs == [c] + rest;
      hide Lookup;
      if Unanswered(m, c) {
        assert cs[..0] == [] && AllHold(m, cs[..0]) && Unanswered(m, cs[0]);
      } else if Meets(m, c) {
        UnansweredLater(m, cs);
      } else {
        forall i | 0 < i < |cs| ensures !AllHold(m, cs[..i]) { assert cs[..i][0] == c && c in cs[..i]; }
      }
    }
  }

  /** Behind a condition that holds, the rest decides. */
  lemma UnansweredLater(m: Pairs, cs: seq<Compare>)
    requires cs != [] && Meets(m, cs[0]) && !Unanswered(m, cs[0])
    ensures (exists i | 0 <= i < |cs| :: AllHold(m, cs[..i]) && Unanswered(m, cs[i])) <==>
      exists i | 0 <= i < |cs[1..]| :: AllHold(m, cs[1..][..i]) && Unanswered(m, cs[1..][i])
  {
    hide Meets, Unanswered;
    var rest := cs[1..];
    if i :| 0 <= i < |cs| && AllHold(m, cs[..i]) && Unanswered(m, cs[i]) {
      assert i > 0 && rest[..i - 1] == cs[..i][1..] && rest[i - 1] == cs[i];
      assert AllHold(m, rest[..i - 1]);
    }
    if i :| 0 <= i < |rest| && AllHold(m, rest[..i]) && Unanswered(m, rest[i]) {
      assert cs[..i + 1] == [cs[0]] + rest[..i] && cs[i + 1] == rest[i];
      assert AllHold(m, cs[..i + 1]);
    }
  }

  /** Either both refuse with the same error, or both go on with the same table. */
  ghost predicate OpsAgree(r: Ops, p: PlainOps) {
    r.error.None? || Answerable(r.error.value) ==>
      && p.error == r.error && (p.touched <==> r.keys != []) && (r.error.None? ==> p.t == TableOf(r.s))
  }

  lemma OneOpAgrees(s: State, rev: nat, n: nat, op: TxnOp, f: Flags)
    requires Good(s.store) && RowsOk(s.rows, s.store.hist)
    ensures var m := TableOf(s);
      match OneOp(s, rev, n, op, f)
      case Did(t, _, keys) =>
        && (op.OpPut? ==> PlainPut(m, rev, n, op.put, f.multiWrite) == Ok(TableOf(t)) && keys != [])
        && (op.OpDelete? ==>
              && PlainDelete(m, rev, op.del, f.multiWrite) == Ok(TableOf(t))
              && (keys != [] <==> Reached(m.m, op.del) != {}))
        && (!op.OpPut? && !op.OpDelete? ==> t == s && keys == [])
      case Fails(e) => Answerable(e) ==>
        && (op.OpPut? ==> PlainPut(m, rev, n, op.put, f.multiWrite) == Err(e))
        && (op.OpDelete? ==> PlainDelete(m, rev, op.del, f.multiWrite) == Err(e))
        && (op.OpPut? || op.OpDelete?)
  {
    hide Good, RowsOk, TableOf, CmdPut, CmdDeleteRange, PlainPut, PlainDelete, Reached, RangeOf;
    match op
    case OpPut(q) =>
      PlainPutAgrees(s, rev, n, q, f);
      if OneOp(s, rev, n, op, f).Did? { CmdPutTouches(s, rev, n, q, f); }
    case OpDelete(q) => PlainDeleteAgrees(s, rev, n, q, f);
    case _ =>
  }

  lemma {:induction false} RunOpsAgree(s: State, rev: nat, ops: seq<TxnOp>, f: Flags)
    requires Core(s, Rev(rev, 0, false)) && rev < UPPER_LIMIT && OpsOk(ops)
    ensures OpsAgree(RunOps(s, rev, ops, f), PlainRunOps(TableOf(s), rev, ops, f.multiWrite))
  {
    hide Good, AllOlder, RowsOk, TableOf, OneOp, PlainPut, PlainDelete, Reached;
    if ops != [] {
      var n := |ops| - 1;
      RunOpsAgree(s, rev, ops[..n], f);
      var r := RunOps(s, rev, ops[..n], f);
      if r.error.None? {
        RunOpsKeeps(s, rev, ops[..n], f);
        OneOpAgrees(r.s, rev, n, ops[n], f);
      }
    }
  }

  // ---- revoke ----

  lemma InClaimedBy(c: Claims, id: nat, k: bytes)
    ensures k in ClaimedBy(c, id) <==> (id, k) in c
  {
    if (id, k) in c { assert (id, k).1 in ClaimedBy(c, id); }
    if k in ClaimedBy(c, id) {
      var x :| x in c && x.0 == id && x.1 == k;
      assert x == (id, k);
    }
  }

  lemma RevokeKeys(s: State, id: nat, k: bytes)
    requires (forall row <- s.rows :: IsRow(row)) && id in s.book.leases && id < UINT64_LIMIT
    ensures k in LeaseKeys(s, id) <==> k in ClaimedBy(ClaimsIn(s.rows), id)
  {
    hide ClaimsIn, ClaimedBy, IsRow, Row, RowKeys;
    RowKeysMembers(s.rows, id, k);
    ClaimsInHas(s.rows, id, k);
    InClaimedBy(ClaimsIn(s.rows), id, k);
  }

  lemma RevokeRow(rows: seq<bytes>, id: nat, i: nat, key: bytes)
    requires forall row <- rows :: IsRow(row)
    ensures (i, key) in OtherClaims(ClaimsIn(rows), id) <==> i < UINT64_LIMIT && Row(i, key) in RowsWithout(rows, id)
  {
    hide ClaimsIn, IsRow, Row, RowsWithout, KeyFor;
    ClaimsInHas(rows, i, key);
    if i < UINT64_LIMIT {
      KeyForRow(i, key, id);
      RowsWithoutMembers(rows, id, Row(i, key));
    }
  }

  lemma RevokeClaims(s: State, id: nat)
    requires RowsOk(s.rows, s.store.hist) && id in s.book.leases && id < UINT64_LIMIT
    ensures forall k :: k in LeaseKeys(s, id) <==> k in ClaimedBy(ClaimsIn(s.rows), id)
    ensures ClaimsIn(RowsWithout(s.rows, id)) == OtherClaims(ClaimsIn(s.rows), id)
  {
    hide RowsOk, ClaimsIn, ClaimedBy, OtherClaims, SortedKeys, IsRow, Row, LeaseKeys, RowsWithout;
    CoreRowsSorted(s.rows, s.store.hist);
    forall k ensures k in LeaseKeys(s, id) <==> k in ClaimedBy(ClaimsIn(s.rows), id) { RevokeKeys(s, id, k); }
    forall row | row in RowsWithout(s.rows, id) ensures row in s.rows { RowsWithoutMembers(s.rows, id, row); }
    var rest := OtherClaims(ClaimsIn(s.rows), id);
    forall i: nat, key: bytes ensures (i, key) in rest <==> i < UINT64_LIMIT && Row(i, key) in RowsWithout(s.rows, id) {
      RevokeRow(s.rows, id, i, key);
    }
    SameClaims(RowsWithout(s.rows, id), rest);
  }

  /** A revocation on the store is one on the table, and touches a key exactly if one is claimed. */
  lemma PlainRevokeAgrees(s: State, id: nat)
    requires Inv(s) && id in s.book.leases && ExecRevoke(s, id).Next?
    ensures TableOf(ExecRevoke(s, id).s) == PlainRevoked(TableOf(s), id)
    ensures LeaseKeys(s, id) == [] <==> ClaimedBy(TableOf(s).claims, id) == {}
  {
    hide Core, Leasing, ExecRevoke, SnapshotAt, NamedIn, ClaimsIn, LeaseKeys, DeleteAll, RowsWithout, Dropped, Bump;
    hide ClaimedBy, OtherClaims;
    LeaseBounds(s.book, id);
    CoreRows(s, Rev(s.rev + 1, 0, false));
    RevokeStore(s, id);
    RevokeClaims(s, id);
    var ks, tomb := LeaseKeys(s, id), Rev(s.rev + 1, 0, true);
    SnapshotDeleteAll(s.store, s.book.epoch, ks, tomb);
    NamedDeleteAll(s.store, s.book.epoch, ks, tomb);
    var gone := ClaimedBy(ClaimsIn(s.rows), id);
    assert gone == set k | k in ks;
    if ks == [] {
      assert gone == {};
    } else {
      assert ks[0] in gone;
    }
  }

  // ---- compaction ----

  lemma CompactTable(s: Store, max: nat)
    requires Good(s) && max > 0
    ensures SnapshotAt(Compact(s, max).hist, 0) == SnapshotAt(s.hist, 0)
    ensures NamedIn(Compact(s, max).hist) == NamedIn(s.hist)
  {
    CompactPast(s, max, 0);
    hide Good, SnapshotAt, CompactVersions, LastBelow, EventsFrom;
    var g: map<bytes, Versions> := Compact(s, max).hist;
    forall k | k in s.hist ensures g[k] != [] && s.hist[k] != [] && g[k][0] == s.hist[k][0] {
      CompactedHead(s, k, max);
      CompactedVersions(s, k, max);
      CompactedNotEmpty(k, g[k]);
    }
  }

  lemma CompactedNotEmpty(k: bytes, vs: Versions)
    requires GoodVersions(k, vs)
    ensures vs != []
  {}

  // ---- when puts name their lease ----

  /** Then a lease claims exactly its own live keys, and none if its id is negative. */
  lemma ClaimsAreOwn(s: State, id: nat)
    requires RowsOk(s.rows, s.store.hist) && Exact(s) && 0 < id < UINT64_LIMIT
    ensures ClaimedBy(TableOf(s).claims, id) ==
      if Negative(id) then {} else set k | k in TableOf(s).m && TableOf(s).m[k].lease == id
  {
    CoreRowsSorted(s.rows, s.store.hist);
    var t := TableOf(s);
    hide RowsOk, RecordsAgree, Listed, ClaimsIn, NamedIn, SnapshotAt, SortedKeys, IsRow, Row, Current, ClaimedBy;
    forall k ensures k in ClaimedBy(t.claims, id) <==> k in t.m && t.m[k].lease == id && !Negative(id) {
      FindCurrent(s.store.hist, k);
      ListedAt(s.rows, s.store.hist, id, k);
      ClaimsInHas(s.rows, id, k);
      InClaimedBy(t.claims, id, k);
    }
  }

  /** So over every run from the start in which puts name their lease. */
  lemma EveryRunClaims(es: seq<Entry>, f: Flags, id: nat)
    requires EntriesOk(es) && (forall e <- es :: CmdNamesLease(e.cmd)) && 0 < id < UINT64_LIMIT
    requires Run(INITIAL, es, f).Batch? && Room(Run(INITIAL, es, f).s)
    ensures var t := TableOf(Run(INITIAL, es, f).s);
      ClaimedBy(t.claims, id) == if Negative(id) then {} else set k | k in t.m && t.m[k].lease == id
  {
    hide Run, Inv, Exact, RowsOk, Room, TableOf, ClaimedBy, CmdNamesLease;
    var s := Run(INITIAL, es, f).s;
    InitialInv();
    InitialExact();
    RunKeeps(INITIAL, es, f);
    TableListsLeaseKeys(INITIAL, es, f);
    InvRows(s);
    ClaimsAreOwn(s, id);
  }
}
