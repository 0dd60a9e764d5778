/** Runs from the start that reach the states in which the code does not do what one expects. */
module Counterexamples {
  import opened Base
  import opened KeyRev
  import opened KvCodec
  import opened History
  import opened LeaseTables
  import opened DbKvs
  import opened Ranges
  import opened Machine
  import opened Invariants
  import opened LeaseLaws

  lemma Onward(es: seq<Entry>, e: Entry, f: Flags)
    requires Run(INITIAL, es, f).Batch?
    ensures var p := Run(INITIAL, es, f);
      var u := Step(p.s, e, f);
      Run(INITIAL, es + [e], f) == if u.Crash? then Crashed else Batch(u.s, p.replies + [u.reply], p.keys + u.keys)
  {
    hide Step;
    assert (es + [e])[..|es|] == es;
  }

  ghost predicate Leads(s: State, e: Entry, f: Flags, t: State) {
    Step(s, e, f).Next? && Step(s, e, f).s == t
  }

  ghost predicate Reaches(es: seq<Entry>, f: Flags, s: State) {
    Run(INITIAL, es, f).Batch? && Run(INITIAL, es, f).s == s
  }

  lemma ReachesNext(es: seq<Entry>, e: Entry, f: Flags, s: State, t: State)
    requires Reaches(es, f, s) && Leads(s, e, f, t)
    ensures Reaches(es + [e], f, t)
  {
    hide Step, Run;
    Onward(es, e, f);
  }

  lemma ReachesOne(a: Entry, f: Flags, s: State)
    requires Leads(INITIAL, a, f, s)
    ensures Reaches([a], f, s)
  {
    assert Run(INITIAL, [], f) == Batch(INITIAL, [], []);
    hide Leads, Run;
    ReachesNext([], a, f, INITIAL, s);
    assert [] + [a] == [a];
  }

  lemma ReachesTwo(a: Entry, b: Entry, f: Flags, s: State, t: State)
    requires Leads(INITIAL, a, f, s) && Leads(s, b, f, t)
    ensures Reaches([a], f, s) && Reaches([a, b], f, t)
  {
    hide Leads, Reaches;
    ReachesOne(a, f, s);
    ReachesNext([a], b, f, s, t);
    assert [a] + [b] == [a, b];
  }

  lemma ReachesThree(a: Entry, b: Entry, c: Entry, f: Flags, s: State, t: State, u: State)
    requires Leads(INITIAL, a, f, s) && Leads(s, b, f, t) && Leads(t, c, f, u)
    ensures Reaches([a, b, c], f, u)
  {
    hide Leads, Reaches;
    ReachesTwo(a, b, f, s, t);
    ReachesNext([a, b], c, f, t, u);
    assert [a, b] + [c] == [a, b, c];
  }

  /** The state of a replica that has but one key, at index i. */
  function OneKey(k: bytes, vs: Versions, evts: seq<Event>, rows: seq<bytes>, book: Book, rev: nat, i: nat): State {
    State(Store([k], map[k := vs], evts), rows, book, rev, 1, 0, 0, i)
  }

  const NO_LEASES := Book(map[], [], 0, 0)

  function PlainPut(k: bytes, v: bytes): PutReq { PutReq(k, v, 0, false, false, false) }

  lemma FirstPut(k: bytes, v: bytes, f: Flags, i: nat)
    requires 0 < |k| <= KEY_LIMIT
    ensures var kv := Kv(Rev(2, 0, false), 1, 2, 0, k, v);
      Step(INITIAL, Entry(i, PutCmd(PlainPut(k, v))), f) ==
        Next(OneKey(k, [Live(kv, 0)], [Event(0, k, Rev(2, 0, false))], [], NO_LEASES, 2, i),
             OpDone(2, Some(PutReply(None))), [k])
  {
    assert U64(0) == 0;
    var vs := [Live(Kv(Rev(2, 0, false), 1, 2, 0, k, v), 0)];
    assert InsertKey([], k) == [k] && vs + [] == vs && map[][k := vs] == map[k := vs];
  }

  // ---- a pair too short to read back ----

  const TINY := Entry(1, PutCmd(PlainPut([1], [])))

  lemma TinyAgain(s: State, f: Flags)
    requires Current(s.store.hist, [1]) == Some(Kv(Rev(2, 0, false), 1, 2, 0, [1], [])) && s.rev == 2
    ensures Step(s, TINY.(index := 2), f).Crash?
  {
    hide Current, Put;
    assert U64(0) == 0;
  }

  lemma CrashesNext(a: Entry, b: Entry, f: Flags, s: State)
    requires Leads(INITIAL, a, f, s) && Step(s, b, f).Crash?
    ensures Run(INITIAL, [a], f).Batch? && Run(INITIAL, [a, b], f).Crashed?
  {
    assert Run(INITIAL, [], f) == Batch(INITIAL, [], []);
    hide Step, Run;
    assert [] + [a] == [a] && [a] + [b] == [a, b];
    Onward([], a, f);
    Onward([a], b, f);
  }

  /** One byte of key and no value: the next put on that key brings the replica down. */
  lemma TinyPutCrashes(f: Flags)
    ensures Run(INITIAL, [TINY], f).Batch? && Run(INITIAL, [TINY, TINY.(index := 2)], f).Crashed?
  {
    hide Step, Run;
    FirstPut([1], [], f, 1);
    var s := Step(INITIAL, TINY, f).s;
    TinyAgain(s, f);
    CrashesNext(TINY, TINY.(index := 2), f, s);
  }

  const TINY_PAIR := Kv(Rev(2, 0, false), 1, 2, 0, [1], [])

  lemma TinyRead(h: map<bytes, Versions>, withPrev: bool)
    requires [1] in h && h[[1]] == [Live(TINY_PAIR, 0)]
    ensures ReadWithPrev(Lookup(h, [1]), 2, withPrev) == Err(ChecksumMissing)
  {
    assert ReadAt(h[[1]], 2, false) == Err(ChecksumMissing);
  }

  /** And its event cannot be read. */
  lemma TinyUnread(f: Flags, withPrev: bool)
    ensures Run(INITIAL, [TINY], f).Batch?
    ensures var s := Run(INITIAL, [TINY], f).s.store;
      && s.evts == [Event(0, [1], Rev(2, 0, false))]
      && ReadWithPrev(Lookup(s.hist, [1]), 2, withPrev) == Err(ChecksumMissing)
  {
    hide Step, Run, ReadWithPrev;
    FirstPut([1], [], f, 1);
    var s := Step(INITIAL, TINY, f).s;
    ReachesOne(TINY, f, s);
    assert s.store.hist[[1]] == [Live(TINY_PAIR, 0)];
    TinyRead(s.store.hist, withPrev);
  }

  // ---- a refused transaction ----

  const TWICE := Entry(1, TxnCmd([], [OpPut(PlainPut([1, 1], [5])), OpPut(PlainPut([1, 1], [6]))], []))

  lemma TwicePrefix(f: Flags)
    ensures var ops := TWICE.cmd.success;
      var r := RunOps(INITIAL, 2, ops[..1], f);
      && r.error.None? && r.keys == [[1, 1]]
      && Current(r.s.store.hist, [1, 1]) == Some(Kv(Rev(2, 0, false), 1, 2, 0, [1, 1], [5]))
  {
    var ops := TWICE.cmd.success;
    assert ops[..1][..0] == [] && U64(0) == 0 && [] + [[1, 1]] == [[1, 1]];
    assert RunOps(INITIAL, 2, [], f) == Ops(INITIAL, [], [], None);
  }

  /** The same key twice: nothing is written, and yet a revision is gone. */
  lemma RefusedUsesRevision(f: Flags)
    requires !f.multiWrite
    ensures Run(INITIAL, [TWICE], f) == Batch(INITIAL.(rev := 2, index := 1), [Refused(OpRefused(DuplicateKey))], [])
  {
    var ops := TWICE.cmd.success;
    TwicePrefix(f);
    var p := RunOps(INITIAL, 2, ops[..1], f);
    assert OneOp(p.s, 2, 1, ops[1], f) == Fails(DuplicateKey);
    assert RunOps(INITIAL, 2, ops, f) == p.(error := Some(DuplicateKey)) by { hide OneOp; }
    hide RunOps;
    assert Step(INITIAL, TWICE, f) == Next(INITIAL.(rev := 2, index := 1), Refused(OpRefused(DuplicateKey)), []);
    assert Run(INITIAL, [], f) == Batch(INITIAL, [], []);
    hide Step, Run;
    Onward([], TWICE, f);
    assert [] + [TWICE] == [TWICE];
  }

  // ---- a kept lease ----

  const KEY: bytes := [1, 1]
  const SEVEN := Book(map[7 := Lease(10, 0)], [ExpRow(10, 7)], 0, 0)
  const LEASED := Kv(Rev(2, 0, false), 1, 2, 7, KEY, [5])
  const KEPT := Kv(Rev(3, 0, false), 2, 2, 7, KEY, [6])
  const GRANT := Entry(1, GrantCmd(7, 10))
  const ATTACH := Entry(2, PutCmd(PutReq(KEY, [5], 7, false, false, false)))
  const KEEP := Entry(3, PutCmd(PutReq(KEY, [6], 0, false, false, true)))
  const DELETE := Entry(4, DeleteCmd(DeleteReq(KEY, [], false)))

  lemma GrantStep(f: Flags)
    ensures Step(INITIAL, GRANT, f).Next? && Step(INITIAL, GRANT, f).s == INITIAL.(book := SEVEN, index := 1)
  {
    hide ExpRow;
    assert U64(7) == 7 && U64(10) == 10 && InsertKey([], ExpRow(10, 7)) == [ExpRow(10, 7)];
    assert map[][7 := Lease(10, 0)] == map[7 := Lease(10, 0)];
  }

  /** The key carries lease 7, and then a put keeps that lease but records none. */
  const HOLDING := OneKey(KEY, [Live(LEASED, 7)], [Event(0, KEY, Rev(2, 0, false))], [Row(7, KEY)], SEVEN, 2, 2)
  const KEEPING := OneKey(KEY, [Live(KEPT, 0), Live(LEASED, 7)],
                          [Event(0, KEY, Rev(2, 0, false)), Event(0, KEY, Rev(3, 0, false))],
                          [Row(7, KEY)], SEVEN, 3, 3)

  lemma AttachStep(f: Flags)
    ensures Step(INITIAL.(book := SEVEN, index := 1), ATTACH, f).Next?
    ensures Step(INITIAL.(book := SEVEN, index := 1), ATTACH, f).s == HOLDING
  {
    hide ExpRow, Row;
    assert U64(7) == 7 && InsertKey([], Row(7, KEY)) == [Row(7, KEY)] && InsertKey([], KEY) == [KEY];
    var vs := [Live(LEASED, 7)];
    assert vs + [] == vs && map[][KEY := vs] == map[KEY := vs];
  }

  lemma SameKey(k: bytes)
    ensures InsertKey([k], k) == [k]
  {
    SeekFinds([k], k);
  }

  lemma KeepStep(f: Flags)
    ensures Step(HOLDING, KEEP, f).Next? && Step(HOLDING, KEEP, f).s == KEEPING
  {
    hide ExpRow, Row;
    SameKey(KEY);
    hide InsertKey;
    assert U64(0) == 0 && !Short(LEASED);
    var h := HOLDING.store.hist;
    assert Current(h, KEY) == Some(LEASED) && Written(HOLDING.store, ArgsOf(HOLDING, 3, 0, KEEP.cmd.put)) == KEPT;
    assert [Live(KEPT, 0)] + [Live(LEASED, 7)] == [Live(KEPT, 0), Live(LEASED, 7)];
    assert h[KEY := [Live(KEPT, 0), Live(LEASED, 7)]] == KEEPING.store.hist;
  }

  lemma DeletedOnce(s: Store, k: bytes, epoch: nat, tomb: Rev)
    requires k in s.hist && Current(s.hist, k).Some?
    ensures Current(DeleteAll(s, epoch, [k], tomb).hist, k).None?
  {
    assert [k][..0] == [] && DeleteAll(s, epoch, [], tomb) == s;
    var v: Version := Tomb(tomb);
    hide Current;
    assert DeleteAll(s, epoch, [k], tomb) == Push(s, epoch, k, v);
    HeadCurrent(Push(s, epoch, k, v).hist, k);
  }

  lemma OnlyKey(k: bytes)
    ensures DeleteKeys([k], k, []) == [k]
  {
    assert [k][..0] == [] && DeleteKeys([], k, []) == [];
  }

  lemma DeletesOnly(s: State, k: bytes, f: Flags)
    requires s.store.keys == [k] && k in s.store.hist && s.store.hist[k] != [] && s.store.hist[k][0].Live?
    requires s.store.hist[k][0].recLease == 0 && s.store.hist[k][0].kv.rev.upper != s.rev + 1
    ensures var r := CmdDeleteRange(s, s.rev + 1, 0, DeleteReq(k, [], false), f);
      && r.Did? && r.s == s.(store := DeleteAll(s.store, s.book.epoch, [k], Rev(s.rev + 1, 0, true)))
      && r.out == Some(DeleteReply(1, []))
  {
    hide DeleteKeys, DeleteAll, Doomed, Detach, WrittenAt, PrevReads, Current, Reported;
    OnlyKey(k);
    DoomedOne(s.store, k);
    DetachNone(s.rows);
    var rec := KeyRecord(s.store.hist[k][0].kv.rev, 0);
    DetachSnoc(s.rows, [], k, rec);
    assert [] + [(k, rec)] == [(k, rec)];
  }

  /** A deletion of the only key, recorded without a lease, leaves the lease table alone. */
  lemma DeleteLeaves(s: State, k: bytes, i: nat, f: Flags)
    requires s.store.keys == [k] && k in s.store.hist && s.store.hist[k] != [] && s.store.hist[k][0].Live?
    requires s.store.hist[k][0].recLease == 0 && s.store.hist[k][0].kv.rev.upper != s.rev + 1
    ensures var r := Step(s, Entry(i, DeleteCmd(DeleteReq(k, [], false))), f);
      && r.Next? && r.s.rows == s.rows && r.s.book == s.book && r.s.rev <= s.rev + 1
      && Current(r.s.store.hist, k).None?
  {
    hide DeleteAll, Current, CmdDeleteRange;
    DeletesOnly(s, k, f);
    HeadCurrent(s.store.hist, k);
    DeletedOnce(s.store, k, s.book.epoch, Rev(s.rev + 1, 0, true));
  }

  /** In the end the key is deleted and its row is still in the lease's table. */
  lemma KeptLeaseReached(f: Flags)
    ensures Run(INITIAL, [GRANT, ATTACH, KEEP, DELETE], f).Batch?
    ensures var t := Run(INITIAL, [GRANT, ATTACH, KEEP, DELETE], f).s;
      t.rows == [Row(7, KEY)] && t.book == SEVEN && t.rev <= 4 && Current(t.store.hist, KEY).None?
  {
    GrantStep(f);
    AttachStep(f);
    KeepStep(f);
    DeleteLeaves(KEEPING, KEY, 4, f);
    hide Step, Run, Row, Current;
    FourReached(GRANT, ATTACH, KEEP, DELETE, f, INITIAL.(book := SEVEN, index := 1), HOLDING, KEEPING);
  }

  lemma FourReached(a: Entry, b: Entry, c: Entry, d: Entry, f: Flags, s: State, t: State, u: State)
    requires Leads(INITIAL, a, f, s) && Leads(s, b, f, t) && Leads(t, c, f, u) && Step(u, d, f).Next?
    ensures Run(INITIAL, [a, b, c, d], f).Batch? && Run(INITIAL, [a, b, c, d], f).s == Step(u, d, f).s
  {
    ReachesThree(a, b, c, f, s, t, u);
    hide Run, Step;
    ReachesNext([a, b, c], d, f, u, Step(u, d, f).s);
    assert [a, b, c] + [d] == [a, b, c, d];
  }

  /** A put of a key that is not live, without a lease. */
  lemma PutAgain(s: State, k: bytes, v: bytes, i: nat, f: Flags)
    requires 0 < |k| <= KEY_LIMIT && Current(s.store.hist, k).None?
    ensures var r := Step(s, Entry(i, PutCmd(PlainPut(k, v))), f);
      && r.Next? && r.s.rows == s.rows && r.s.book == s.book && r.s.rev == s.rev + 1
      && Current(r.s.store.hist, k) == Some(Kv(Rev(s.rev + 1, 0, false), 1, s.rev + 1, 0, k, v))
  {
    hide Current, InsertKey;
    assert U64(0) == 0;
    var a := ArgsOf(s, s.rev + 1, 0, PlainPut(k, v));
    PutCurrent(s.store, a, k);
    hide Put;
  }

  lemma RevokeStep(s: State, id: nat, i: nat, f: Flags)
    requires id < UINT64_LIMIT && ExecRevoke(s, id).Next?
    ensures var r := Step(s, Entry(i, RevokeCmd(id)), f); r.Next? && r.s == ExecRevoke(s, id).s.(index := i)
  {
    SmallModulo(id, UINT64_LIMIT);
    hide ExecRevoke;
  }

  /** A revocation deletes whatever the lease lists. */
  lemma RevokeTakes(s: State, id: nat, k: bytes, i: nat, f: Flags)
    requires Inv(s) && id in s.book.leases && Row(id, k) in s.rows
    ensures var r := Step(s, Entry(i, RevokeCmd(id)), f); r.Next? && Current(r.s.store.hist, k).None?
  {
    hide *;
    InvBook(s);
    InvRevocable(s);
    InvRows(s);
    RevokeKeepsRevocable(s, id);
    RevokeStore(s, id);
    RevokeStep(s, id, i, f);
    ListedTakes(s, id, k);
    DeleteAllCurrent(s.store, s.book.epoch, LeaseKeys(s, id), Rev(s.rev + 1, 0, true), k);
  }

  lemma ListedTakes(s: State, id: nat, k: bytes)
    requires RowsOk(s.rows, s.store.hist) && id in s.book.leases && id < UINT64_LIMIT && Row(id, k) in s.rows
    ensures k in LeaseKeys(s, id)
  {
    hide SortedKeys, IsRow, Row;
    RowKeysMembers(s.rows, id, k);
  }

  const AGAIN := Entry(5, PutCmd(PlainPut(KEY, [7])))
  const REVOKE := Entry(6, RevokeCmd(7))

  /** The key is put again without a lease, and then deleted by the end of a lease it never had. */
  lemma StrayRowDeletes(f: Flags)
    ensures var es := [GRANT, ATTACH, KEEP, DELETE, AGAIN];
      && Run(INITIAL, es, f).Batch? && Run(INITIAL, es + [REVOKE], f).Batch?
      && Current(Run(INITIAL, es, f).s.store.hist, KEY).Some?
      && Current(Run(INITIAL, es, f).s.store.hist, KEY).value.lease == 0
      && Current(Run(INITIAL, es + [REVOKE], f).s.store.hist, KEY).None?
  {
    var es := [GRANT, ATTACH, KEEP, DELETE];
    hide Step, Run, Row, Current;
    KeptLeaseReached(f);
    var t := Run(INITIAL, es, f).s;
    PutAgain(t, KEY, [7], 5, f);
    var u := Step(t, AGAIN, f).s;
    ReachesNext(es, AGAIN, f, t, u);
    assert es + [AGAIN] == [GRANT, ATTACH, KEEP, DELETE, AGAIN];
    InitialInv();
    assert EntriesOk(es + [AGAIN]) && Room(u);
    RunKeeps(INITIAL, es + [AGAIN], f);
    RevokeTakes(u, 7, KEY, 6, f);
    ReachesNext(es + [AGAIN], REVOKE, f, u, Step(u, REVOKE, f).s);
  }

  // ---- a lease that lists nothing ----

  const LAST_ID: nat := UINT64_LIMIT - 1
  const MINUS_ONE := Book(map[LAST_ID := Lease(10, 0)], [ExpRow(10, LAST_ID)], 0, 0)
  const GRANT_NEGATIVE := Entry(1, GrantCmd(-1, 10))
  const ATTACH_NEGATIVE := Entry(2, PutCmd(PutReq(KEY, [5], -1, false, false, false)))
  const DETACH := Entry(3, PutCmd(PlainPut(KEY, [6])))
  const NEGATIVE := OneKey(KEY, [Live(Kv(Rev(2, 0, false), 1, 2, LAST_ID, KEY, [5]), LAST_ID)],
                           [Event(0, KEY, Rev(2, 0, false))], [], MINUS_ONE, 2, 2)

  lemma NegativeSteps(f: Flags)
    ensures Leads(INITIAL, GRANT_NEGATIVE, f, INITIAL.(book := MINUS_ONE, index := 1))
    ensures Leads(INITIAL.(book := MINUS_ONE, index := 1), ATTACH_NEGATIVE, f, NEGATIVE)
  {
    hide ExpRow, Row;
    assert U64(-1) == LAST_ID && U64(10) == 10 && InsertKey([], ExpRow(10, LAST_ID)) == [ExpRow(10, LAST_ID)];
    assert map[][LAST_ID := Lease(10, 0)] == map[LAST_ID := Lease(10, 0)] && InsertKey([], KEY) == [KEY];
    var vs := NEGATIVE.store.hist[KEY];
    assert vs + [] == vs && map[][KEY := vs] == map[KEY := vs];
  }

  lemma NegativeMoves(f: Flags)
    ensures Step(NEGATIVE, DETACH, f).Crash?
  {
    hide ExpRow, Row;
    var prev := Kv(Rev(2, 0, false), 1, 2, LAST_ID, KEY, [5]);
    assert U64(0) == 0 && I64(LAST_ID) == -1 && Current(NEGATIVE.store.hist, KEY) == Some(prev) && !Short(prev);
    hide Current, Put;
    assert Attach([], PlainPut(KEY, [6]), LAST_ID).None?;
  }

  /** A key attached to lease -1 has no row, so taking it off that lease brings the replica down. */
  lemma NegativeLeaseCrashes(f: Flags)
    ensures Run(INITIAL, [GRANT_NEGATIVE, ATTACH_NEGATIVE], f).Batch?
    ensures Run(INITIAL, [GRANT_NEGATIVE, ATTACH_NEGATIVE, DETACH], f).Crashed?
  {
    NegativeSteps(f);
    NegativeMoves(f);
    hide Step, Run;
    var es := [GRANT_NEGATIVE, ATTACH_NEGATIVE];
    ReachesTwo(GRANT_NEGATIVE, ATTACH_NEGATIVE, f, INITIAL.(book := MINUS_ONE, index := 1), NEGATIVE);
    Onward(es, DETACH, f);
    assert es + [DETACH] == [GRANT_NEGATIVE, ATTACH_NEGATIVE, DETACH];
  }

  // ---- a lease that is not checked ----

  const UNCHECKED_PUT := OpPut(PutReq(KEY, [5], 9, false, false, true))
  const UNCHECKED := Entry(1, TxnCmd([], [UNCHECKED_PUT], []))
  const DROP := Entry(2, DeleteCmd(DeleteReq(KEY, [], false)))

  lemma UncheckedStep(f: Flags)
    ensures var kv := Kv(Rev(2, 0, false), 1, 2, 9, KEY, [5]);
      Leads(INITIAL, UNCHECKED, f, OneKey(KEY, [Live(kv, 9)], [Event(0, KEY, Rev(2, 0, false))], [], NO_LEASES, 2, 1))
  {
    var vs := [Live(Kv(Rev(2, 0, false), 1, 2, 9, KEY, [5]), 9)];
    assert U64(9) == 9 && InsertKey([], KEY) == [KEY] && vs + [] == vs && map[][KEY := vs] == map[KEY := vs];
    var ops := [UNCHECKED_PUT];
    assert ops[..0] == [] && RunOps(INITIAL, 2, [], f) == Ops(INITIAL, [], [], None);
    assert CompareAll(INITIAL.store.hist, []) == Ok(true) && [] + [KEY] == [KEY];
  }

  /** The deletion of the only key, whose recorded lease does not list it. */
  lemma DeleteMisses(s: State, k: bytes, i: nat, f: Flags)
    requires s.store.keys == [k] && k in s.store.hist && s.store.hist[k] != [] && s.store.hist[k][0].Live?
    requires s.store.hist[k][0].recLease != 0 && s.rows == []
    ensures Step(s, Entry(i, DeleteCmd(DeleteReq(k, [], false))), f).Crash?
  {
    assert [k][..0] == [] && DeleteKeys([], k, []) == [] && DeleteKeys([k], k, []) == [k];
    hide DeleteKeys, DeleteAll, Doomed, Detach, WrittenAt, PrevReads, Row;
    DoomedOne(s.store, k);
    DetachNone(s.rows);
    var rec := KeyRecord(s.store.hist[k][0].kv.rev, s.store.hist[k][0].recLease);
    DetachSnoc(s.rows, [], k, rec);
    assert [] + [(k, rec)] == [(k, rec)];
  }

  /** A transaction's put that keeps the lease and brings one, on a new key: its deletion brings the replica down. */
  lemma UncheckedLeaseCrashes(f: Flags)
    ensures Run(INITIAL, [UNCHECKED], f).Batch? && Run(INITIAL, [UNCHECKED, DROP], f).Crashed?
  {
    var kv := Kv(Rev(2, 0, false), 1, 2, 9, KEY, [5]);
    var s := OneKey(KEY, [Live(kv, 9)], [Event(0, KEY, Rev(2, 0, false))], [], NO_LEASES, 2, 1);
    hide Step, Run;
    UncheckedStep(f);
    DeleteMisses(s, KEY, 2, f);
    CrashesNext(UNCHECKED, DROP, f, s);
  }

  // ---- a compaction target that falls ----

  /** One more put on the only key. */
  lemma NextPut(k: bytes, vs: Versions, evts: seq<Event>, v: bytes, rev: nat, i: nat, f: Flags)
    requires 0 < |k| <= KEY_LIMIT && vs != [] && vs[0].Live? && !Short(vs[0].kv)
    requires vs[0].kv.rev.upper != rev + 1 && vs[0].kv.lease == 0
    ensures var s, e := OneKey(k, vs, evts, [], NO_LEASES, rev, i), Entry(i + 1, PutCmd(PlainPut(k, v)));
      var kv := Kv(Rev(rev + 1, 0, false), vs[0].kv.version + 1, vs[0].kv.created, 0, k, v);
      && Step(s, e, f).Next?
      && Step(s, e, f).s ==
        OneKey(k, [Live(kv, 0)] + vs, evts + [Event(0, k, Rev(rev + 1, 0, false))], [], NO_LEASES, rev + 1, i + 1)
  {
    SameKey(k);
    hide InsertKey, Short;
    assert U64(0) == 0;
    var s := OneKey(k, vs, evts, [], NO_LEASES, rev, i);
    var kv := Kv(Rev(rev + 1, 0, false), vs[0].kv.version + 1, vs[0].kv.created, 0, k, v);
    assert Current(s.store.hist, k) == Some(vs[0].kv);
    assert Written(s.store, ArgsOf(s, rev + 1, 0, PlainPut(k, v))) == kv;
    assert map[k := vs][k := [Live(kv, 0)] + vs] == map[k := [Live(kv, 0)] + vs];
  }

  function NthPut(n: byte): Version
    requires n >= 2
  {
    Live(Kv(Rev(n as nat, 0, false), n as nat - 1, 2, 0, KEY, [n]), 0)
  }

  function NthEvent(n: nat): Event { Event(0, KEY, Rev(n, 0, false)) }

  function PutEntry(n: byte): Entry
    requires n >= 2
  {
    Entry(n as nat - 1, PutCmd(PlainPut(KEY, [n])))
  }

  const THREE := OneKey(KEY, [NthPut(4), NthPut(3), NthPut(2)], [NthEvent(2), NthEvent(3), NthEvent(4)],
                        [], NO_LEASES, 4, 3)

  lemma PutsLead(f: Flags, s2: State, s3: State)
    requires s2 == OneKey(KEY, [NthPut(2)], [NthEvent(2)], [], NO_LEASES, 2, 1)
    requires s3 == OneKey(KEY, [NthPut(3), NthPut(2)], [NthEvent(2), NthEvent(3)], [], NO_LEASES, 3, 2)
    ensures Leads(INITIAL, PutEntry(2), f, s2) && Leads(s2, PutEntry(3), f, s3) && Leads(s3, PutEntry(4), f, THREE)
  {
    hide Step;
    FirstPut(KEY, [2], f, 1);
    NextPut(KEY, [NthPut(2)], [NthEvent(2)], [3], 2, 1, f);
    assert [NthPut(3)] + [NthPut(2)] == [NthPut(3), NthPut(2)];
    assert [NthEvent(2)] + [NthEvent(3)] == [NthEvent(2), NthEvent(3)];
    NextPut(KEY, [NthPut(3), NthPut(2)], [NthEvent(2), NthEvent(3)], [4], 3, 2, f);
    assert [NthPut(4)] + [NthPut(3), NthPut(2)] == [NthPut(4), NthPut(3), NthPut(2)];
    assert [NthEvent(2), NthEvent(3)] + [NthEvent(4)] == [NthEvent(2), NthEvent(3), NthEvent(4)];
  }

  lemma ThreeReached(f: Flags)
    ensures Reaches([PutEntry(2), PutEntry(3), PutEntry(4)], f, THREE)
  {
    hide Leads, Reaches;
    var s2 := OneKey(KEY, [NthPut(2)], [NthEvent(2)], [], NO_LEASES, 2, 1);
    var s3 := OneKey(KEY, [NthPut(3), NthPut(2)], [NthEvent(2), NthEvent(3)], [], NO_LEASES, 3, 2);
    PutsLead(f, s2, s3);
    ReachesThree(PutEntry(2), PutEntry(3), PutEntry(4), f, s2, s3, THREE);
  }

  lemma CutVersions(a: Version, b: Version, c: Version, r: Rev)
    requires !Older(RevOf(a), r) && !Older(RevOf(b), r) && Older(RevOf(c), r)
    ensures KeepFrom([a, b, c], r) == [a, b]
  {
    assert [a, b, c][1..] == [b, c] && [b, c][1..] == [c];
    assert KeepFrom([c], r) == [] && KeepFrom([b, c], r) == [b];
  }

  lemma CutEvents(a: Event, b: Event, c: Event, max: nat)
    requires a.rev.upper < max && b.rev.upper < max <= c.rev.upper && b.key == c.key
    ensures EventsFrom([a, b, c], max) == [c] && LastBelow([a, b, c], c.key, max) == Some(b.rev)
  {
    assert [a, b, c][1..] == [b, c] && [b, c][1..] == [c] && [a, b, c][..2] == [a, b];
    assert EventsFrom([b, c], max) == [c] && LastBelow([a, b], c.key, max) == Some(b.rev);
  }

  /** Compaction of a store with one key. */
  lemma CompactOne(k: bytes, vs: Versions, evts: seq<Event>, max: nat)
    ensures Compact(Store([k], map[k := vs], evts), max) ==
      Store([k], map[k := CompactVersions(vs, LastBelow(evts, k, max))], EventsFrom(evts, max))
  {
    hide EventsFrom, LastBelow, CompactVersions;
    var g := Compact(Store([k], map[k := vs], evts), max).hist;
    assert g.Keys == {k} && g[k] == CompactVersions(vs, LastBelow(evts, k, max));
  }

  lemma CutAtFour()
    ensures Compact(THREE.store, 4) == Store([KEY], map[KEY := [NthPut(4), NthPut(3)]], [NthEvent(4)])
  {
    hide Compact, EventsFrom, LastBelow, KeepFrom;
    CompactOne(KEY, [NthPut(4), NthPut(3), NthPut(2)], [NthEvent(2), NthEvent(3), NthEvent(4)], 4);
    CutEvents(NthEvent(2), NthEvent(3), NthEvent(4), 4);
    CutVersions(NthPut(4), NthPut(3), NthPut(2), Rev(3, 0, false));
  }

  lemma CutAtTwo()
    ensures var s := Store([KEY], map[KEY := [NthPut(4), NthPut(3)]], [NthEvent(4)]); Compact(s, 2) == s
  {
    var s := Store([KEY], map[KEY := [NthPut(4), NthPut(3)]], [NthEvent(4)]);
    assert [NthEvent(4)][..0] == [] && LastBelow([], KEY, 2).None? && LastBelow(s.evts, KEY, 2).None?;
    assert EventsFrom(s.evts, 2) == s.evts;
  }

  const FALLING := [PutEntry(2), PutEntry(3), PutEntry(4), Entry(4, CompactCmd(4)), Entry(5, CompactCmd(2))]
  const AT_TWO := RangeReq(KEY, [], 2, 0, 0, 0, 0, 0, false, false)

  lemma TwoMore(a: Entry, b: Entry, c: Entry, d: Entry, e: Entry, f: Flags, s: State, t: State, u: State)
    requires Reaches([a, b, c], f, s) && Leads(s, d, f, t) && Leads(t, e, f, u)
    ensures Reaches([a, b, c, d, e], f, u)
  {
    hide Leads, Reaches;
    ReachesNext([a, b, c], d, f, s, t);
    assert [a, b, c] + [d] == [a, b, c, d];
    ReachesNext([a, b, c, d], e, f, t, u);
    assert [a, b, c, d] + [e] == [a, b, c, d, e];
  }

  lemma CompactLeads(s: State, max: nat, i: nat, f: Flags)
    requires CanCompact(s.store, max)
    ensures var r := Step(s, Entry(i, CompactCmd(max)), f);
      r.Next? && r.s == s.(store := Compact(s.store, max), revMin := max, revCompacted := r.s.revCompacted, index := i)
  {
    hide Compact;
  }

  const LEFT := Store([KEY], map[KEY := [NthPut(4), NthPut(3)]], [NthEvent(4)])

  lemma Cuts(s: State, f: Flags) returns (t: State, u: State)
    requires CanCompact(s.store, 4) && CanCompact(Compact(s.store, 4), 2)
    ensures Leads(s, Entry(4, CompactCmd(4)), f, t) && Leads(t, Entry(5, CompactCmd(2)), f, u)
    ensures u.store == Compact(Compact(s.store, 4), 2) && u.rev == s.rev && u.revMin == 2
  {
    hide Compact, Step, CanCompact;
    CompactLeads(s, 4, 4, f);
    t := Step(s, Entry(4, CompactCmd(4)), f).s;
    CompactLeads(t, 2, 5, f);
    u := Step(t, Entry(5, CompactCmd(2)), f).s;
  }

  lemma FallingReached(f: Flags) returns (t: State)
    ensures Reaches(FALLING, f, t) && t.store == LEFT && t.rev == 4 && t.revMin == 2
  {
    CutAtFour();
    CutAtTwo();
    hide Compact, Leads, Reaches;
    var s;
    s, t := Cuts(THREE, f);
    ThreeReached(f);
    TwoMore(PutEntry(2), PutEntry(3), PutEntry(4), Entry(4, CompactCmd(4)), Entry(5, CompactCmd(2)), f, THREE, s, t);
  }

  /**
   A compaction to 4 and then one to 2: a range at revision 2 is answered again, but without
   the key that was there.
   */
  lemma FallingTargetLoses(f: Flags)
    ensures Run(INITIAL, FALLING[..3], f).Batch? && KEY in SnapshotAt(Run(INITIAL, FALLING[..3], f).s.store.hist, 2)
    ensures Run(INITIAL, FALLING, f).Batch?
    ensures var t := Run(INITIAL, FALLING, f).s;
      var r := QueryRange(t, t.rev, AT_TWO, f);
      r.Ok? && r.value.items == [] && r.value.count == 0
  {
    ThreeReached(f);
    var t := FallingReached(f);
    assert FALLING[..3] == [PutEntry(2), PutEntry(3), PutEntry(4)];
    hide Run, RangeOf, QueryRange, SnapshotAt;
    SeenBefore();
    NotSeen(t, f);
  }

  lemma SeenBefore()
    ensures KEY in SnapshotAt(THREE.store.hist, 2)
  {
    var vs := THREE.store.hist[KEY];
    assert vs[1..] == [NthPut(3), NthPut(2)] && vs[1..][1..] == [NthPut(2)];
    assert Visible([NthPut(2)], 2) == Some(NthPut(2)) == Visible(vs[1..], 2);
  }

  lemma NotSeen(s: State, f: Flags)
    requires s.store == LEFT && s.revMin == 2
    ensures var r := QueryRange(s, 4, AT_TWO, f); r.Ok? && r.value.items == [] && r.value.count == 0
  {
    var vs, h := [NthPut(4), NthPut(3)], LEFT.hist;
    assert vs[1..] == [NthPut(3)] && vs[1..][1..] == [] && Visible([NthPut(3)], 2) == None == Visible(vs, 2);
    assert !Picked(h[KEY], AT_TWO);
    hide Visible, Picked, NthPut;
    assert [KEY][..0] == [] && Picks(h, [], AT_TWO) == [] && Picks(h, [KEY], AT_TWO) == [];
    hide Picks, RangeOf;
    RangeConcludes(h, [KEY], AT_TWO, f);
    NothingPicked(h, AT_TWO, f, RangeOf(h, [KEY], AT_TWO, f));
  }

  lemma NothingPicked(h: map<bytes, Versions>, q: RangeReq, f: Flags, r: Result<RangeResult, Error>)
    requires Concluded(h, [], q, f, r)
    ensures r.Ok? && r.value.items == [] && r.value.count == 0
  {
    var cut: nat :| Ranged(Reads(h, q), [], cut, q, f, r.value);
    var none: seq<bytes> := [];
    assert none[..cut] == none;
  }
}
