/**
 The machine a client may imagine: a plain table, and one map from keys to pairs per
 revision. No versions, tombstones or events, and of the byte rows only the expiry index.
 The real state follows it over every run.
 */
module PlainMachine {
  import opened Base
  import opened KeyRev
  import opened History
  import opened LeaseTables
  import opened DbKvs
  import opened Machine
  import opened Invariants
  import opened Snapshots
  import opened LeaseLaws
  import opened Growth
  import opened EventLaws
  import opened PlainTables

  /** `floor` is the largest compaction target so far. */
  datatype Plain = Plain(tab: Table, past: map<nat, Pairs>, book: Book, rev: nat, floor: nat, term: nat)

  const PLAIN_INITIAL := Plain(Table(map[], map[], {}), map[1 := map[]], Book(map[], [], 0, 0), 1, 1, 0)

  // ---- commands ----

  /** A new revision with this table, if anything was touched. */
  function Commit(p: Plain, t: Table, touched: bool): Plain {
    if touched then p.(tab := t, rev := p.rev + 1, past := p.past[p.rev + 1 := t.m]) else p
  }

  /** The branch a transaction takes. */
  ghost function Branch(p: Plain, c: Cmd): seq<TxnOp>
    requires c.TxnCmd?
  {
    if AllHold(p.tab.m, c.compare) then c.success else c.failure
  }

  ghost function PlainTxn(p: Plain, c: Cmd, multiWrite: bool): Plain
    requires c.TxnCmd?
  {
    var r := PlainRunOps(p.tab, p.rev + 1, Branch(p, c), multiWrite);
    Commit(p, if r.error.None? then r.t else p.tab, r.touched)
  }

  ghost function PlainRevoke(p: Plain, id: nat): Plain {
    if id !in p.book.leases then p
    else Commit(p, PlainRevoked(p.tab, id), ClaimedBy(p.tab.claims, id) != {}).(book := Dropped(p.book, id))
  }

  ghost function PlainExpire(p: Plain, due: seq<bytes>): Plain
    requires forall row <- due :: |row| >= 9
  {
    if due == [] then p else PlainRevoke(PlainExpire(p, due[..|due| - 1]), ExpId(due[|due| - 1]))
  }

  function PlainPutCmd(p: Plain, q: PutReq, f: Flags): Plain {
    var r := PlainPut(p.tab, p.rev + 1, 0, q, f.multiWrite);
    if (q.ignoreLease && q.lease != 0) || (q.ignoreValue && q.val != []) then p
    else if q.lease != 0 && U64(q.lease) !in p.book.leases then p
    else if r.Ok? then Commit(p, r.value, true) else p
  }

  ghost function PlainDeleteCmd(p: Plain, q: DeleteReq, f: Flags): Plain {
    var r := PlainDelete(p.tab, p.rev + 1, q, f.multiWrite);
    if r.Ok? then Commit(p, r.value, Reached(p.tab.m, q) != {}) else p
  }

  ghost function PlainTick(p: Plain, term: nat): Plain {
    if p.term > term then p
    else
      var b := Ticked(p.book);
      PlainExpire(p.(book := b), Due(b.exp, b.epoch))
  }

  ghost function PlainExec(p: Plain, c: Cmd, f: Flags): Plain {
    match c
    case PutCmd(q) => PlainPutCmd(p, q, f)
    case DeleteCmd(q) => PlainDeleteCmd(p, q, f)
    case TxnCmd(_, _, _) => PlainTxn(p, c, f.multiWrite)
    case CompactCmd(max) => p.(floor := Max(p.floor, max))
    case GrantCmd(id, ttl) => p.(book := Grant(p.book, id, ttl).1)
    case RevokeCmd(id) => PlainRevoke(p, U64(id))
    case KeepAliveCmd(id) => p.(book := KeepAlive(p.book, [id]).0)
    case KeepAliveBatchCmd(ids) => p.(book := KeepAlive(p.book, ids).0)
    case TickCmd(term) => PlainTick(p, term)
    case TermCmd(term) => if p.term > term then p else p.(term := term)
    case Garbled => p
  }

  ghost function PlainRun(p: Plain, es: seq<Entry>, f: Flags): Plain {
    if es == [] then p else PlainExec(PlainRun(p, es[..|es| - 1], f), es[|es| - 1].cmd, f)
  }

  // ---- what is left to see of a revision ----

  /**
   From right below the largest compaction target on, a revision is seen as it was. Of an
   earlier one only the pairs are left that were still the same right below the target.
   */
  ghost function Seen(past: map<nat, Pairs>, floor: nat, r: nat): Pairs
    requires r in past
  {
    if floor <= r + 1 || floor - 1 !in past then past[r] else Unchanged(past[r], past[floor - 1])
  }

  ghost predicate PastAgrees(past: map<nat, Pairs>, h: map<bytes, Versions>, floor: nat, rev: nat) {
    && 0 < floor <= rev
    && forall r: nat | 0 < r <= rev :: r in past && SnapshotAt(h, r) == Seen(past, floor, r)
  }

  /** No pair is younger than its revision. */
  ghost predicate Aged(past: map<nat, Pairs>, rev: nat) {
    forall r: nat, k: bytes | 0 < r <= rev && r in past && k in past[r] :: past[r][k].rev.upper <= r
  }

  /** A pair of revision r that is no younger than q was there at q. */
  ghost predicate Lasting(past: map<nat, Pairs>, q: nat, r: nat)
    requires q in past && r in past
  {
    forall k <- past[r] :: past[r][k].rev.upper <= q ==> k in past[q] && past[q][k] == past[r][k]
  }

  ghost predicate Steady(past: map<nat, Pairs>, rev: nat) {
    && Aged(past, rev)
    && forall q: nat, r: nat | 0 < q <= r <= rev && q in past && r in past :: Lasting(past, q, r)
  }

  /** Every version but the oldest of its key has its event, and no event is below the floor. */
  ghost predicate Tidy(s: Store, floor: nat) {
    Logged(s) && forall e <- s.evts :: e.rev.upper >= floor
  }

  /** There was nothing at the first revision. */
  predicate Founded(past: map<nat, Pairs>) { 1 in past && past[1] == map[] }

  /** The real state follows the plain one. */
  ghost predicate Follows(s: State, p: Plain) {
    && p.tab == TableOf(s) && p.book == s.book && p.rev == s.rev && p.term == s.term
    && PastAgrees(p.past, s.store.hist, p.floor, p.rev) && Steady(p.past, p.rev) && Tidy(s.store, p.floor)
    && Founded(p.past)
  }

  lemma InitialFollows()
    ensures Follows(INITIAL, PLAIN_INITIAL)
  {
    assert SnapshotAt(map[], 0) == map[] && SnapshotAt(map[], 1) == map[];
    assert NamedIn(map[]) == map[] && ClaimsIn([]) == {};
    InitialGrowth();
  }

  lemma TidyGrown(s: Store, t: Store, floor: nat, long: bool, keys: seq<bytes>, rev: nat)
    requires Tidy(s, floor) && Grown(s, t, long) && Adds(s.evts, t.evts, keys, rev) && floor <= rev
    ensures Tidy(t, floor)
  {
    hide PushAll, AllLong, Logged;
    var ps :| t == PushAll(s, ps) && (long ==> AllLong(ps));
    PushAllLogged(s, ps);
    forall e | e in t.evts ensures e.rev.upper >= floor {
      var i :| 0 <= i < |t.evts| && t.evts[i] == e;
      if i < |s.evts| { assert e == s.evts[i]; }
    }
  }

  // ---- commits ----

  lemma SeenWithin(past: map<nat, Pairs>, floor: nat, r: nat, k: bytes)
    requires r in past && k in Seen(past, floor, r)
    ensures k in past[r] && past[r][k] == Seen(past, floor, r)[k]
  {}

  /** The pairs of the new revision fit those recorded before. */
  lemma CommitSteady(past: map<nat, Pairs>, h: map<bytes, Versions>, floor: nat, rev: nat, m: Pairs)
    requires Steady(past, rev) && PastAgrees(past, h, floor, rev) && m == SnapshotAt(h, rev + 1)
    ensures Steady(past[rev + 1 := m], rev + 1)
  {
    hide SnapshotAt, PastAgrees, Lasting, Aged;
    var next := past[rev + 1 := m];
    CommitAged(past, h, rev, m);
    forall q: nat, r: nat | 0 < q <= r <= rev + 1 && q in next && r in next ensures Lasting(next, q, r) {
      if r <= rev {
        assert Lasting(past, q, r);
        LastingSame(past, next, q, r);
      } else {
        CommitLasting(past, h, floor, rev, m, q);
      }
    }
  }

  lemma CommitAged(past: map<nat, Pairs>, h: map<bytes, Versions>, rev: nat, m: Pairs)
    requires Aged(past, rev) && m == SnapshotAt(h, rev + 1)
    ensures Aged(past[rev + 1 := m], rev + 1)
  {
    hide SnapshotAt;
    forall k | k in m ensures m[k].rev.upper <= rev + 1 { PairAge(h, rev + 1, k); }
  }

  lemma LastingSame(past: map<nat, Pairs>, next: map<nat, Pairs>, q: nat, r: nat)
    requires q in past && r in past && q in next && r in next && next[q] == past[q] && next[r] == past[r]
    requires Lasting(past, q, r)
    ensures Lasting(next, q, r)
  {}

  lemma CommitLasting(past: map<nat, Pairs>, h: map<bytes, Versions>, floor: nat, rev: nat, m: Pairs, q: nat)
    requires PastAgrees(past, h, floor, rev) && m == SnapshotAt(h, rev + 1)
    requires 0 < q <= rev + 1 && q in past[rev + 1 := m]
    ensures Lasting(past[rev + 1 := m], q, rev + 1)
  {
    hide SnapshotAt, Seen;
    if q <= rev {
      forall k | k in m && m[k].rev.upper <= q ensures k in past[q] && past[q][k] == m[k] {
        EarlierPair(h, q, rev + 1, k);
        SeenWithin(past, floor, q, k);
      }
    }
  }

  lemma CommitPast(past: map<nat, Pairs>, h: map<bytes, Versions>, g: map<bytes, Versions>, floor: nat, rev: nat,
                   m: Pairs)
    requires PastAgrees(past, h, floor, rev) && SamePast(h, g, rev) && m == SnapshotAt(g, rev + 1)
    ensures PastAgrees(past, g, floor, rev) && PastAgrees(past[rev + 1 := m], g, floor, rev + 1)
  {
    hide SnapshotAt, Unchanged;
    var next := past[rev + 1 := m];
    forall r: nat | 0 < r <= rev + 1 ensures r in next && SnapshotAt(g, r) == Seen(next, floor, r) {
      if r <= rev {
        assert SnapshotAt(g, r) == SnapshotAt(h, r) == Seen(past, floor, r);
        assert floor - 1 in past || floor == 1;
      }
    }
  }

  /** One revision more, with the past left alone. */
  lemma CommitFollows(s: State, p: Plain, t: State)
    requires Follows(s, p) && t.rev == s.rev + 1 && t.book == s.book && t.term == s.term
    requires SamePast(s.store.hist, t.store.hist, s.rev) && AllOlder(t.store, Rev(t.rev + 1, 0, false))
    requires Tidy(t.store, p.floor)
    ensures Follows(t, Commit(p, TableOf(t), true))
  {
    hide TableOf, SnapshotAt, AllOlder, SamePast, PastAgrees, Steady, Tidy, Founded;
    CommitFounded(p, s.store.hist, TableOf(t).m);
    TablePairs(t);
    SnapshotNow(t.store, t.rev);
    CommitPast(p.past, s.store.hist, t.store.hist, p.floor, p.rev, TableOf(t).m);
    CommitSteady(p.past, t.store.hist, p.floor, p.rev, TableOf(t).m);
  }

  lemma CommitFounded(p: Plain, h: map<bytes, Versions>, m: Pairs)
    requires PastAgrees(p.past, h, p.floor, p.rev) && Founded(p.past)
    ensures Founded(p.past[p.rev + 1 := m])
  {}

  lemma TablePairs(s: State)
    ensures TableOf(s).m == SnapshotAt(s.store.hist, 0)
  {}

  lemma SameFollows(s: State, p: Plain, t: State)
    requires Follows(s, p) && t.rev == s.rev && t.book == s.book && t.term == s.term
    requires t.store == s.store && t.rows == s.rows
    ensures Follows(t, p)
  {}

  // ---- transactions ----

  /** What a transaction that does not crash leaves behind. */
  lemma TxnShape(s: State, c: Cmd, f: Flags)
    requires c.TxnCmd? && ExecTxn(s, c, f).Next?
    ensures CompareAll(s.store.hist, c.compare).Ok?
    ensures var ops := if CompareAll(s.store.hist, c.compare).value then c.success else c.failure;
      var r, out := RunOps(s, s.rev + 1, ops, f), ExecTxn(s, c, f);
      var t := out.s;
      && (r.error.None? || Answerable(r.error.value))
      && t.rev == Bump(s.rev, r.keys) && t.book == s.book && t.term == s.term
      && t.store == (if r.error.None? then r.s.store else s.store)
      && t.rows == (if r.error.None? then r.s.rows else s.rows)
      && (r.error.Some? ==> out.reply == Refused(OpRefused(r.error.value))) && (r.error.None? ==> out.reply.TxnDone?)
  {
    hide RunOps, CompareAll;
    RunOpsFrame(s, s.rev + 1, c.success, f);
    RunOpsFrame(s, s.rev + 1, c.failure, f);
  }

  lemma OpsAgreeing(r: Ops, p: PlainOps)
    requires OpsAgree(r, p) && (r.error.None? || Answerable(r.error.value))
    ensures p.error == r.error && (p.touched <==> r.keys != [])
    ensures r.error.None? ==> p.t == TableOf(r.s)
  {
    hide TableOf;
  }

  /**
   A transaction that does not crash is refused exactly if its operations fail on the plain
   table, with the same error, and then changes nothing; yet it uses up a revision
   exactly if some operation had touched a key.
   */
  lemma TxnOnPlain(s: State, p: Plain, c: Cmd, f: Flags)
    requires Inv(s) && Room(s) && Follows(s, p) && c.TxnCmd? && CmdOk(c) && ExecTxn(s, c, f).Next?
    ensures var r, out := PlainRunOps(p.tab, p.rev + 1, Branch(p, c), f.multiWrite), ExecTxn(s, c, f);
      && (r.error.Some? ==>
        out.reply == Refused(OpRefused(r.error.value)) && out.s.store == s.store && out.s.rows == s.rows)
      && (r.error.None? ==> out.reply.TxnDone? && TableOf(out.s) == r.t)
      && out.s.rev == (if r.touched then s.rev + 1 else s.rev)
  {
    hide Core, Leasing, RunOps, PlainRunOps, CompareAll, AllHold, ExecTxn, OpsOk, Answerable, PastAgrees, Steady, Tidy;
    var h := s.store.hist;
    CompareAgrees(h, c.compare);
    TxnShape(s, c, f);
    RunOpsAgree(s, s.rev + 1, Branch(p, c), f);
    hide Inv, OpsAgree;
    var r := RunOps(s, s.rev + 1, Branch(p, c), f);
    OpsAgreeing(r, PlainRunOps(p.tab, p.rev + 1, Branch(p, c), f.multiWrite));
    if r.error.None? { SameTable(r.s, ExecTxn(s, c, f).s); }
  }

  lemma SameTable(s: State, t: State)
    requires t.store == s.store && t.rows == s.rows
    ensures TableOf(t) == TableOf(s)
  {}

  lemma UntouchedTxn(s: State, c: Cmd, f: Flags)
    requires c.TxnCmd? && ExecTxn(s, c, f).Next? && ExecTxn(s, c, f).s.rev == s.rev
    ensures ExecTxn(s, c, f).s.store == s.store && ExecTxn(s, c, f).s.rows == s.rows
  {
    hide RunOps, CompareAll, ExecTxn;
    TxnShape(s, c, f);
    var ops := if CompareAll(s.store.hist, c.compare).value then c.success else c.failure;
    if RunOps(s, s.rev + 1, ops, f).error.None? { NoKeysNoChange(s, s.rev + 1, ops, f); }
  }

  lemma TxnFollows(s: State, p: Plain, c: Cmd, f: Flags)
    requires Inv(s) && Room(s) && Follows(s, p) && c.TxnCmd? && CmdOk(c) && ExecTxn(s, c, f).Next?
    requires Inv(ExecTxn(s, c, f).s) && Tidy(ExecTxn(s, c, f).s.store, p.floor)
    ensures Follows(ExecTxn(s, c, f).s, PlainTxn(p, c, f.multiWrite))
  {
    hide Inv, ExecTxn, PlainRunOps, Branch, TableOf, PastAgrees, Steady, Tidy, AllOlder, Good, SamePast, CmdOk;
    var t := ExecTxn(s, c, f).s;
    TxnOnPlain(s, p, c, f);
    TxnBook(s, c, f);
    InvOlder(t);
    if t.rev == s.rev {
      UntouchedTxn(s, c, f);
      SameFollows(s, p, t);
    } else {
      ExecTxnPast(s, c, f);
      SameTable(s, t.(store := s.store, rows := s.rows));
      if PlainRunOps(p.tab, p.rev + 1, Branch(p, c), f.multiWrite).error.Some? { SameTable(s, t); }
      CommitFollows(s, p, t);
    }
  }

  lemma TxnBook(s: State, c: Cmd, f: Flags)
    requires c.TxnCmd? && ExecTxn(s, c, f).Next?
    ensures ExecTxn(s, c, f).s.book == s.book && ExecTxn(s, c, f).s.term == s.term
  {
    hide ExecTxn, RunOps, CompareAll;
    TxnShape(s, c, f);
  }

  // ---- leases ----

  lemma RevokedNothing(t: Table, id: nat)
    requires ClaimedBy(t.claims, id) == {}
    ensures PlainRevoked(t, id) == t
  {
    forall x | x in t.claims ensures x.0 != id { InClaimedBy(t.claims, x.0, x.1); }
    assert OtherClaims(t.claims, id) == t.claims;
  }

  lemma RevokeTidy(s: State, floor: nat, id: nat)
    requires Tidy(s.store, floor) && floor <= s.rev && ExecRevoke(s, id).Next?
    ensures Tidy(ExecRevoke(s, id).s.store, floor)
  {
    hide ExecRevoke, Tidy, Grown, Adds;
    ExecRevokeAdds(s, id);
    ExecRevokeGrown(s, id, false);
    TidyGrown(s.store, ExecRevoke(s, id).s.store, floor, false, ExecRevoke(s, id).keys, s.rev);
  }

  lemma FollowsFloor(s: State, p: Plain)
    requires Follows(s, p)
    ensures p.floor <= p.rev == s.rev && Tidy(s.store, p.floor)
  {}

  lemma RevokeFollows(s: State, p: Plain, id: nat)
    requires Inv(s) && Follows(s, p) && ExecRevoke(s, id).Next? && Inv(ExecRevoke(s, id).s)
    ensures Follows(ExecRevoke(s, id).s, PlainRevoke(p, id))
  {
    hide Inv, Follows, ExecRevoke, Tidy, AllOlder, SamePast, Good;
    var t := ExecRevoke(s, id).s;
    FollowsFloor(s, p);
    RevokeTidy(s, p.floor, id);
    InvOlder(t);
    if id in s.book.leases {
      RevokeLeaseFollows(s, p, id);
    } else {
      RevokeStore(s, id);
      FollowsBook(s, p);
      SameFollows(s, p, t);
    }
  }

  lemma FollowsBook(s: State, p: Plain)
    requires Follows(s, p)
    ensures p.book == s.book && p.tab == TableOf(s)
  {}

  lemma RevokeLeaseFollows(s: State, p: Plain, id: nat)
    requires Inv(s) && Follows(s, p) && ExecRevoke(s, id).Next? && id in s.book.leases
    requires Tidy(ExecRevoke(s, id).s.store, p.floor)
    requires AllOlder(ExecRevoke(s, id).s.store, Rev(ExecRevoke(s, id).s.rev + 1, 0, false))
    ensures Follows(ExecRevoke(s, id).s, PlainRevoke(p, id))
  {
    hide Inv, ExecRevoke, TableOf, LeaseKeys, Dropped, AllOlder, PastAgrees, Steady, PlainRevoked, ClaimedBy, DeleteAll;
    hide RowsWithout, Tidy, SamePast;
    var t := ExecRevoke(s, id).s;
    RevokeStore(s, id);
    PlainRevokeAgrees(s, id);
    if LeaseKeys(s, id) == [] {
      RevokedNothing(p.tab, id);
      DeleteAllNone(s.store, s.book.epoch, Rev(s.rev + 1, 0, true));
    } else {
      ExecRevokePast(s, id);
      var u := t.(book := s.book);
      SameTable(t, u);
      CommitFollows(s, p, u);
    }
  }

  lemma {:induction false} ExpireFollows(s: State, p: Plain, due: seq<bytes>)
    requires Inv(s) && Follows(s, p) && (forall row <- due :: |row| >= 9)
    requires Expire(s, due).Next? && Expire(s, due).s.rev + 1 < UPPER_LIMIT
    ensures Follows(Expire(s, due).s, PlainExpire(p, due))
  {
    hide Inv, Follows, ExecRevoke, PlainRevoke;
    if due != [] {
      var n := |due| - 1;
      var t := Expire(s, due[..n]).s;
      ExecRevokeGrows(t, ExpId(due[n]));
      ExpireKeeps(s, due[..n]);
      ExpireFollows(s, p, due[..n]);
      ExecRevokeKeeps(t, ExpId(due[n]));
      RevokeFollows(t, PlainExpire(p, due[..n]), ExpId(due[n]));
    }
  }

  lemma TickFollows(s: State, p: Plain, term: nat)
    requires Inv(s) && Follows(s, p) && ExecTick(s, term).Next? && Room(ExecTick(s, term).s)
    ensures Follows(ExecTick(s, term).s, PlainTick(p, term))
  {
    hide Inv, Expire, Due, PlainExpire, PastAgrees, Steady, Tidy;
    if s.term <= term {
      var b := Ticked(s.book);
      var t, q := s.(book := b), p.(book := b);
      InvFrame(s, t);
      SameTable(s, t);
      ExpireFollows(t, q, Due(b.exp, b.epoch));
    }
  }

  // ---- the rest ----

  /** A put is either refused and changes nothing, or commits a revision. */
  lemma PutShape(s: State, q: PutReq, f: Flags)
    requires ExecPut(s, q, f).Next?
    ensures var r := CmdPut(s, s.rev + 1, 0, q, f);
      var t := ExecPut(s, q, f).s;
      if (q.ignoreLease && q.lease != 0) || (q.ignoreValue && q.val != []) then t == s
      else if q.lease != 0 && U64(q.lease) !in s.book.leases then t == s
      else if r.Fails? then t == s && Answerable(r.error)
      else t.rev == s.rev + 1 && t.store == r.s.store && t.rows == r.s.rows && t.book == s.book && t.term == s.term
  {
    hide CmdPut;
    if CmdPut(s, s.rev + 1, 0, q, f).Did? { CmdPutFrame(s, s.rev + 1, 0, q, f); }
  }

  lemma PutFollows(s: State, p: Plain, q: PutReq, f: Flags)
    requires Inv(s) && Follows(s, p) && ExecPut(s, q, f).Next?
    requires Inv(ExecPut(s, q, f).s) && Tidy(ExecPut(s, q, f).s.store, p.floor)
    ensures Follows(ExecPut(s, q, f).s, PlainPutCmd(p, q, f))
  {
    hide Inv, ExecPut, TableOf, PastAgrees, Steady, Tidy, CmdPut, PlainPut, AllOlder, Good, RowsOk;
    hide Answerable, SamePast;
    var t, r := ExecPut(s, q, f).s, CmdPut(s, s.rev + 1, 0, q, f);
    InvOlder(t);
    InvOlder(s);
    InvRows(s);
    PlainPutAgrees(s, s.rev + 1, 0, q, f);
    PutShape(s, q, f);
    if t.rev == s.rev + 1 {
      SameTable(r.s, t);
      CmdPutPast(s, s.rev, 0, q, f);
      CommitFollows(s, p, t);
    }
  }

  lemma DeleteShape(s: State, q: DeleteReq, f: Flags)
    requires ExecDelete(s, q, f).Next?
    ensures var r := CmdDeleteRange(s, s.rev + 1, 0, q, f);
      var t := ExecDelete(s, q, f).s;
      && r.Did? && t.rev == Bump(s.rev, r.keys) && t.store == r.s.store && t.rows == r.s.rows
      && t.book == s.book && t.term == s.term
  {
    hide CmdDeleteRange;
    CmdDeleteFrame(s, s.rev + 1, 0, q, f);
  }

  lemma DeleteFollows(s: State, p: Plain, q: DeleteReq, f: Flags)
    requires Inv(s) && Follows(s, p) && ExecDelete(s, q, f).Next?
    requires Inv(ExecDelete(s, q, f).s) && Tidy(ExecDelete(s, q, f).s.store, p.floor)
    ensures Follows(ExecDelete(s, q, f).s, PlainDeleteCmd(p, q, f))
  {
    hide Inv, ExecDelete, TableOf, PastAgrees, Steady, Tidy, CmdDeleteRange, PlainDelete, Reached;
    hide AllOlder, Good, RowsOk, SamePast;
    var t, r := ExecDelete(s, q, f).s, CmdDeleteRange(s, s.rev + 1, 0, q, f);
    InvOlder(t);
    InvOlder(s);
    InvRows(s);
    PlainDeleteAgrees(s, s.rev + 1, 0, q, f);
    DeleteShape(s, q, f);
    if r.keys == [] {
      CmdDeleteNothing(s, s.rev + 1, 0, q, f);
      SameFollows(s, p, t);
    } else {
      SameTable(r.s, t);
      CmdDeletePast(s, s.rev, 0, q, f);
      CommitFollows(s, p, t);
    }
  }

  lemma CompactShape(s: State, max: nat)
    requires ExecCompact(s, max).Next?
    ensures var t := ExecCompact(s, max).s;
      && max > 0 && t.store == Compact(s.store, max)
      && t == s.(store := t.store, revMin := max, revCompacted := t.revCompacted)
      && s.store.evts != [] && s.store.evts[|s.store.evts| - 1].rev.upper >= max
  {
    hide Compact;
  }

  lemma InvEvents(s: State)
    requires Inv(s)
    ensures SortedEvents(s.store.evts)
  {}

  /** A compaction brings the replica down exactly if its target is zero or no event is left at or above it. */
  lemma CompactCrashesIff(s: State, max: nat)
    requires Inv(s)
    ensures ExecCompact(s, max).Crash? <==> max == 0 || forall e <- s.store.evts :: e.rev.upper < max
  {
    hide Inv, Compact;
    InvEvents(s);
    var evts := s.store.evts;
    if evts != [] {
      assert evts[|evts| - 1] in evts;
      forall e | e in evts ensures e.rev.upper <= evts[|evts| - 1].rev.upper {
        var i :| 0 <= i < |evts| && evts[i] == e;
        assert i < |evts| - 1 ==> !Older(evts[|evts| - 1].rev, evts[i].rev);
      }
    }
  }

  /** The events below the target go, and the largest revision among them is remembered. */
  lemma CompactRemembers(s: State, max: nat)
    requires Inv(s) && ExecCompact(s, max).Next?
    ensures var t := ExecCompact(s, max).s;
      && (forall e :: e in t.store.evts <==> e in s.store.evts && e.rev.upper >= max)
      && (forall e <- s.store.evts :: e.rev.upper < max ==> e.rev.upper <= t.revCompacted)
      && (t.revCompacted != 0 ==> exists e <- s.store.evts :: e.rev.upper == t.revCompacted < max)
  {
    hide Inv, EventsFrom, LastUpper, LastBelow, CompactVersions, SortedEvents;
    InvEvents(s);
    EventsFromAll(s.store.evts, max);
    GoneEvents(s.store.evts, max);
  }

  lemma {:induction false} GoneBelow(evts: seq<Event>, max: nat)
    ensures forall i | 0 <= i < |evts| - |EventsFrom(evts, max)| :: evts[i].rev.upper < max
  {
    if evts != [] && evts[0].rev.upper < max {
      GoneBelow(evts[1..], max);
      forall i | 0 < i < |evts| - |EventsFrom(evts, max)| ensures evts[i].rev.upper < max {
        assert evts[1..][i - 1] == evts[i];
      }
    }
  }

  lemma GoneEvents(evts: seq<Event>, max: nat)
    requires SortedEvents(evts) && forall e :: e in EventsFrom(evts, max) <==> e in evts && e.rev.upper >= max
    ensures var n := LastUpper(evts[..|evts| - |EventsFrom(evts, max)|]);
      && (forall e <- evts :: e.rev.upper < max ==> e.rev.upper <= n)
      && (n != 0 ==> exists e <- evts :: e.rev.upper == n < max)
  {
    hide EventsFrom;
    GoneBelow(evts, max);
    var left := EventsFrom(evts, max);
    var k := |evts| - |left|;
    assert evts == evts[..k] + left;
    forall e | e in evts && e.rev.upper < max ensures e.rev.upper <= LastUpper(evts[..k]) {
      var i :| 0 <= i < k && evts[i] == e;
      assert i < k - 1 ==> !Older(evts[k - 1].rev, evts[i].rev);
    }
    if k > 0 { assert evts[k - 1] in evts; }
  }

  /** Below the floor there is nothing left to compact. */
  lemma CompactedAlready(s: Store, floor: nat, max: nat)
    requires Tidy(s, floor) && max <= floor
    ensures Compact(s, max).hist == s.hist
  {
    hide Logged, EventsFrom;
    forall k | k in s.hist ensures LastBelow(s.evts, k, max) == None { LastBelowSound(s.evts, k, max); }
  }

  /** What was unchanged up to the higher target was unchanged up to the lower one. */
  lemma UnchangedTwice(past: map<nat, Pairs>, rev: nat, r: nat, mid: nat, hi: nat)
    requires Steady(past, rev) && 0 < r <= mid <= hi <= rev && r in past && mid in past && hi in past
    ensures Unchanged(Unchanged(past[r], past[mid]), past[hi]) == Unchanged(past[r], past[hi])
  {
    var m := past[r];
    assert Lasting(past, mid, hi);
    hide Lasting;
    forall k | k in m && k in past[hi] && past[hi][k] == m[k] ensures k in past[mid] && past[mid][k] == m[k] {
      KeptBetween(past, rev, r, mid, hi, k);
    }
  }

  lemma KeptBetween(past: map<nat, Pairs>, rev: nat, r: nat, mid: nat, hi: nat, k: bytes)
    requires Aged(past, rev) && 0 < r <= mid <= hi <= rev && r in past && mid in past && hi in past
    requires Lasting(past, mid, hi)
    requires k in past[r] && k in past[hi] && past[hi][k] == past[r][k]
    ensures k in past[mid] && past[mid][k] == past[r][k]
  {
    assert past[r][k].rev.upper <= r;
  }

  lemma CompactSeen(s: Store, past: map<nat, Pairs>, floor: nat, rev: nat, max: nat, r: nat)
    requires Good(s) && Tidy(s, floor) && PastAgrees(past, s.hist, floor, rev) && Steady(past, rev)
    requires floor < max <= rev && 0 < r <= rev
    ensures r in past && SnapshotAt(Compact(s, max).hist, r) == Seen(past, max, r)
  {
    hide Good, Logged, SnapshotAt, Compact, Unchanged, Steady;
    if max <= r + 1 {
      CompactPast(s, max, r);
    } else {
      CompactedSnapshot(s, max, r);
      assert SnapshotAt(s.hist, max - 1) == past[max - 1];
      if r + 1 < floor { UnchangedTwice(past, rev, r, floor - 1, max - 1); }
    }
  }

  lemma LastEvent(s: Store, next: Rev)
    requires AllOlder(s, next) && s.evts != []
    ensures Older(s.evts[|s.evts| - 1].rev, next)
  {
    assert s.evts[|s.evts| - 1] in s.evts;
  }

  lemma CompactTidy(s: Store, floor: nat, max: nat)
    requires Good(s) && Tidy(s, floor)
    ensures Tidy(Compact(s, max), Max(floor, max))
  {
    CompactLogged(s, max);
    EventsFromAll(s.evts, max);
    hide Logged, Good, EventsFrom;
  }

  lemma CompactFollows(s: State, p: Plain, max: nat)
    requires Inv(s) && Follows(s, p) && ExecCompact(s, max).Next?
    ensures Follows(ExecCompact(s, max).s, p.(floor := Max(p.floor, max)))
  {
    hide Inv, ExecCompact, SnapshotAt, Compact, Good, Steady, Tidy, NamedIn, ClaimsIn, Seen;
    InvOlder(s);
    CompactShape(s, max);
    CompactTable(s.store, max);
    CompactTidy(s.store, p.floor, max);
    LastEvent(s.store, Rev(s.rev + 1, 0, false));
    hide AllOlder;
    if max <= p.floor {
      CompactedAlready(s.store, p.floor, max);
    } else {
      forall r: nat | 0 < r <= p.rev
        ensures r in p.past && SnapshotAt(Compact(s.store, max).hist, r) == Seen(p.past, max, r)
      {
        CompactSeen(s.store, p.past, p.floor, p.rev, max, r);
      }
    }
  }

  lemma BookFollows(s: State, p: Plain, c: Cmd, f: Flags)
    requires Follows(s, p) && (c.GrantCmd? || c.KeepAliveCmd? || c.KeepAliveBatchCmd? || c.TermCmd? || c.Garbled?)
    ensures Exec(s, c, f).Next? && Follows(Exec(s, c, f).s, PlainExec(p, c, f))
  {
    hide PastAgrees, Steady, Tidy, KeepAlive, Grant, SnapshotAt, NamedIn, ClaimsIn;
  }

  lemma ExecTidy(s: State, c: Cmd, f: Flags, floor: nat)
    requires Tidy(s.store, floor) && floor <= s.rev && Exec(s, c, f).Next? && !c.CompactCmd?
    ensures Tidy(Exec(s, c, f).s.store, floor)
  {
    hide Exec, Tidy, Grown, Adds, LongCmd;
    ExecGrown(s, c, f);
    ExecAdds(s, c, f);
    TidyGrown(s.store, Exec(s, c, f).s.store, floor, LongCmd(c), Exec(s, c, f).keys, s.rev);
  }

  lemma ExecFollows(s: State, p: Plain, c: Cmd, f: Flags)
    requires Inv(s) && Follows(s, p) && CmdOk(c) && Exec(s, c, f).Next? && Room(Exec(s, c, f).s)
    ensures Follows(Exec(s, c, f).s, PlainExec(p, c, f))
  {
    hide Inv, Follows, Room, CmdOk, ExecPut, ExecDelete, ExecTxn, ExecTick, ExecRevoke, ExecCompact, Tidy;
    hide PlainTxn, PlainRevoke, PlainPutCmd, PlainDeleteCmd, PlainTick, U64, I64;
    FollowsFloor(s, p);
    RoomBefore(s, c, f);
    ExecKeeps(s, c, f);
    if !c.CompactCmd? { ExecTidy(s, c, f, p.floor); }
    match c
    case PutCmd(q) => PutFollows(s, p, q, f);
    case DeleteCmd(q) => DeleteFollows(s, p, q, f);
    case TxnCmd(_, _, _) => TxnFollows(s, p, c, f);
    case RevokeCmd(id) => RevokeFollows(s, p, U64(id));
    case TickCmd(term) => TickFollows(s, p, term);
    case CompactCmd(max) => CompactFollows(s, p, max);
    case _ => BookFollows(s, p, c, f);
  }

  /** The main theorem: the real state follows the plain one over every run. */
  lemma {:induction false} RunFollows(s: State, p: Plain, es: seq<Entry>, f: Flags)
    requires Inv(s) && Follows(s, p) && EntriesOk(es) && Run(s, es, f).Batch? && Room(Run(s, es, f).s)
    ensures Follows(Run(s, es, f).s, PlainRun(p, es, f))
  {
    hide Inv, Follows, Exec, PlainExec;
    if es != [] {
      var n := |es| - 1;
      var t, q := Run(s, es[..n], f).s, PlainRun(p, es[..n], f);
      assert es[n] in es;
      StepGrows(t, es[n], f);
      RunKeeps(s, es[..n], f);
      RunFollows(s, p, es[..n], f);
      ExecFollows(t, q, es[n].cmd, f);
      SameFollows(Exec(t, es[n].cmd, f).s, PlainExec(q, es[n].cmd, f), Step(t, es[n], f).s);
    }
  }

  /** From the first entry on. */
  lemma EveryRunFollows(es: seq<Entry>, f: Flags)
    requires EntriesOk(es) && Run(INITIAL, es, f).Batch? && Room(Run(INITIAL, es, f).s)
    ensures Inv(Run(INITIAL, es, f).s) && Follows(Run(INITIAL, es, f).s, PlainRun(PLAIN_INITIAL, es, f))
  {
    hide *;
    InitialInv();
    InitialFollows();
    RunKeeps(INITIAL, es, f);
    RunFollows(INITIAL, PLAIN_INITIAL, es, f);
  }
}
