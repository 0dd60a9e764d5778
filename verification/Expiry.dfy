/** What a tick expires, and what a renewal leaves behind in the expiry index. */
module Expiry {
  import opened Base
  import opened KeyRev
  import opened History
  import opened LeaseTables
  import opened DbKvs
  import opened Machine
  import opened Invariants
  import opened LeaseLaws

  /** The index holds an entry of this lease that is due. */
  ghost predicate HasDue(exp: seq<bytes>, id: nat, epoch: nat) {
    exists x: nat :: x <= epoch && x < UINT64_LIMIT && ExpRow(x, id) in exp
  }

  lemma DueRow(exp: seq<bytes>, epoch: nat, row: bytes)
    requires SortedKeys(exp) && (forall r <- exp :: IsExpRow(r)) && row in Due(exp, epoch)
    ensures |row| >= 9 && HasDue(exp, ExpId(row), epoch)
  {
    hide SortedKeys, ExpRow, ExpiryOf, ExpId;
    DueMembers(exp, epoch, row);
    assert IsExpRow(row);
    var x: nat, id: nat :| x < UINT64_LIMIT && id < UINT64_LIMIT && row == ExpRow(x, id);
    ExpRowReads(x, id);
  }

  lemma RowDue(exp: seq<bytes>, epoch: nat, x: nat, id: nat)
    requires SortedKeys(exp) && (forall r <- exp :: IsExpRow(r))
    requires x <= epoch && x < UINT64_LIMIT && id < UINT64_LIMIT && ExpRow(x, id) in exp
    ensures |ExpRow(x, id)| >= 9 && ExpRow(x, id) in Due(exp, epoch) && ExpId(ExpRow(x, id)) == id
  {
    hide SortedKeys, ExpRow, ExpiryOf, ExpId;
    ExpRowReads(x, id);
    DueMembers(exp, epoch, ExpRow(x, id));
  }

  lemma RevokeLeases(s: State, id: nat)
    requires ExecRevoke(s, id).Next?
    ensures ExecRevoke(s, id).s.book.leases == s.book.leases - {id} && ExecRevoke(s, id).s.book.epoch == s.book.epoch
  {
    hide LeaseKeys, ExecRevoke, DeleteAll, RowsWithout, Remove, ExpRow, Bump;
    RevokeStore(s, id);
  }

  ghost function IdsOf(due: seq<bytes>): set<nat>
    requires forall row <- due :: |row| >= 9
  {
    set row | row in due :: ExpId(row)
  }

  lemma {:induction false} ExpireLeases(s: State, due: seq<bytes>)
    requires (forall row <- due :: |row| >= 9) && Expire(s, due).Next?
    ensures Expire(s, due).s.book.leases == s.book.leases - IdsOf(due)
  {
    hide ExecRevoke, ExpId;
    if due != [] {
      var n := |due| - 1;
      ExpireLeases(s, due[..n]);
      RevokeLeases(Expire(s, due[..n]).s, ExpId(due[n]));
      assert due == due[..n] + [due[n]];
      assert IdsOf(due) == IdsOf(due[..n]) + {ExpId(due[n])};
    }
  }

  lemma DueIds(b: Book, epoch: nat, id: nat)
    requires Leasing(b) && id < UINT64_LIMIT
    ensures id in IdsOf(Due(b.exp, epoch)) <==> HasDue(b.exp, id, epoch)
  {
    assert SortedKeys(b.exp) && forall r <- b.exp :: IsExpRow(r);
    hide Leasing, HasDue, ExpId, Due, ExpRow, SortedKeys, IsExpRow;
    if HasDue(b.exp, id, epoch) {
      var x := DueWitness(b.exp, id, epoch);
      RowDue(b.exp, epoch, x, id);
    }
    if id in IdsOf(Due(b.exp, epoch)) {
      var row :| row in Due(b.exp, epoch) && ExpId(row) == id;
      DueRow(b.exp, epoch, row);
    }
  }

  /** A tick takes away exactly the leases that have an entry due, and leaves the others as they are. */
  lemma TickRevokes(s: State, term: nat, id: nat)
    requires Inv(s) && s.term <= term && id in s.book.leases
    ensures ExecTick(s, term).Next?
    ensures var t := ExecTick(s, term).s;
      && (id in t.book.leases <==> !HasDue(s.book.exp, id, s.book.epoch + 1))
      && (id in t.book.leases ==> t.book.leases[id] == s.book.leases[id])
  {
    hide *;
    ExecTickKeeps(s, term);
    TickLeases(s, term);
    InvBook(s);
    DueIds(s.book, s.book.epoch + 1, id);
  }

  lemma TickLeases(s: State, term: nat)
    requires s.term <= term && ExecTick(s, term).Next?
    ensures ExecTick(s, term).s.book.leases == s.book.leases - IdsOf(Due(s.book.exp, s.book.epoch + 1))
  {
    hide Expire, Due, IdsOf;
    var b := Ticked(s.book);
    ExpireLeases(s.(book := b), Due(b.exp, b.epoch));
  }

  lemma DueWitness(exp: seq<bytes>, id: nat, epoch: nat) returns (x: nat)
    requires HasDue(exp, id, epoch)
    ensures x <= epoch && x < UINT64_LIMIT && ExpRow(x, id) in exp
  {
    x :| x <= epoch && x < UINT64_LIMIT && ExpRow(x, id) in exp;
  }

  lemma TickAddsNone(s: State, term: nat)
    requires Inv(s) && s.term <= term
    ensures ExecTick(s, term).Next? && ExecTick(s, term).s.book.leases.Keys <= s.book.leases.Keys
    ensures ExecTick(s, term).s.book.epoch == s.book.epoch + 1
  {
    ExecTickKeeps(s, term);
    hide Inv, Expire, Due, ExpId;
    var t := s.(book := Ticked(s.book));
    ExpireLeases(t, Due(t.book.exp, t.book.epoch));
    ExpireGrows(t, Due(t.book.exp, t.book.epoch));
  }

  lemma OwnEntryDue(b: Book, id: nat, e: nat)
    requires Leasing(b) && id in b.leases
    ensures b.leases[id].expires <= e ==> HasDue(b.exp, id, e)
  {
    LeaseBounds(b, id);
    hide ExpRow;
  }

  /** After an accepted tick no lease is left that expires at the new epoch or before. */
  lemma NoneOverdue(s: State, term: nat, id: nat)
    requires Inv(s) && s.term <= term
    ensures ExecTick(s, term).Next?
    ensures var t := ExecTick(s, term).s; id in t.book.leases ==> t.book.leases[id].expires > t.book.epoch
  {
    TickAddsNone(s, term);
    if id in ExecTick(s, term).s.book.leases {
      OwnEntryDue(s.book, id, s.book.epoch + 1);
      TickRevokes(s, term, id);
    }
  }

  // ---- renewals ----

  /** The index knows no expiry of this lease but its own. */
  ghost predicate OnlyOwnEntry(b: Book, id: nat)
    requires id in b.leases
  {
    forall x: nat | x < UINT64_LIMIT :: ExpRow(x, id) in b.exp ==> x == b.leases[id].expires
  }

  /** Without leftovers of earlier renewals, a tick revokes a lease exactly if it has expired. */
  lemma ExpiresInTime(s: State, term: nat, id: nat)
    requires Inv(s) && s.term <= term && id in s.book.leases && OnlyOwnEntry(s.book, id)
    ensures ExecTick(s, term).Next?
    ensures id in ExecTick(s, term).s.book.leases <==> s.book.leases[id].expires > s.book.epoch + 1
  {
    TickRevokes(s, term, id);
    NoneOverdue(s, term, id);
    TickAddsNone(s, term);
    hide Inv, ExecTick, ExpRow;
    if HasDue(s.book.exp, id, s.book.epoch + 1) {
      var x := DueWitness(s.book.exp, id, s.book.epoch + 1);
    }
  }

  /** A renewal adds the new expiry and leaves the old one in the index. */
  lemma RenewalEntries(b: Book, id: nat, x: nat)
    requires Leasing(b) && id in b.leases && x < UINT64_LIMIT
    ensures ExpRow(x, id) in Renewed(b, id).exp <==> ExpRow(x, id) in b.exp || x == Renewed(b, id).leases[id].expires
  {
    hide InsertKey, ExpRow, LexLess;
    LeaseBounds(b, id);
    var y := Renewed(b, id).leases[id].expires;
    InsertKeySorted(b.exp, ExpRow(y, id));
    ExpRowsApart(x, id, y, id);
  }

  /**
   So a lease just renewed for the first time is gone at the next tick if its old expiry
   is due then, although the renewal put it off: it outlives the tick exactly if
   neither expiry is due.
   */
  lemma RenewalForgotten(s: State, f: Flags, id: int, term: nat)
    requires Inv(s) && Room(s) && s.term <= term && U64(id) in s.book.leases && OnlyOwnEntry(s.book, U64(id))
    ensures Exec(s, KeepAliveCmd(id), f).Next?
    ensures var t := Exec(s, KeepAliveCmd(id), f).s;
      && U64(id) in t.book.leases && ExecTick(t, term).Next?
      && (U64(id) in ExecTick(t, term).s.book.leases <==>
            s.book.leases[U64(id)].expires > s.book.epoch + 1 && t.book.leases[U64(id)].expires > s.book.epoch + 1)
  {
    var n := U64(id);
    KeepOne(s.book, id);
    ExecKeepAliveKeeps(s, [id]);
    var t := Exec(s, KeepAliveCmd(id), f).s;
    assert t.book == Renewed(s.book, n) && t.term == s.term;
    TickRevokes(t, term, n);
    LeaseBounds(s.book, n);
    hide Inv, ExecTick, ExpRow, Renewed, Exec, HasDue, KeepAlive;
    RenewedLease(s.book, n);
    DueAfterRenewal(s.book, n, s.book.epoch + 1);
  }

  lemma RenewedLease(b: Book, id: nat)
    requires id in b.leases
    ensures Renewed(b, id).epoch == b.epoch
    ensures id in Renewed(b, id).leases && Renewed(b, id).leases[id].expires < UINT64_LIMIT
  {}

  lemma DueAfterRenewal(b: Book, id: nat, e: nat)
    requires Leasing(b) && id in b.leases && OnlyOwnEntry(b, id)
    ensures HasDue(Renewed(b, id).exp, id, e) <==> b.leases[id].expires <= e || Renewed(b, id).leases[id].expires <= e
  {
    LeaseBounds(b, id);
    RenewedLease(b, id);
    var x, y := b.leases[id].expires, Renewed(b, id).leases[id].expires;
    hide ExpRow, Renewed, Leasing;
    RenewalEntries(b, id, x);
    RenewalEntries(b, id, y);
    if HasDue(Renewed(b, id).exp, id, e) {
      var z := DueWitness(Renewed(b, id).exp, id, e);
      RenewalEntries(b, id, z);
    }
  }

  lemma KeepOne(b: Book, id: int)
    ensures KeepAlive(b, [id]).0 == if U64(id) in b.leases then Renewed(b, U64(id)) else b
  {
    hide Renewed;
    assert [id][..0] == [];
    assert KeepAlive(b, []) == (b, []);
  }

  // ---- a lease that nobody renews ----

  /** The lease is as granted, and the index has just the one entry for it. */
  ghost predicate Alive(b: Book, id: nat, l: Lease) {
    id in b.leases && b.leases[id] == l && OnlyOwnEntry(b, id)
  }

  /** Commands that renew or revoke this very lease. A grant of its id is refused while it lasts. */
  predicate Names(c: Cmd, id: nat) {
    match c
    case RevokeCmd(i) => U64(i) == id
    case KeepAliveCmd(i) => U64(i) == id
    case KeepAliveBatchCmd(ids) => exists i <- ids :: U64(i) == id
    case _ => false
  }

  /** A fresh grant lives for its time to live. */
  lemma GrantStarts(b: Book, id: int, ttl: int)
    requires Leasing(b) && 0 < U64(id) && b.epoch < UINT64_LIMIT && 0 <= ttl && b.epoch + ttl < UINT64_LIMIT
    requires U64(id) !in b.leases && forall x: nat | x < UINT64_LIMIT :: ExpRow(x, U64(id)) !in b.exp
    ensures Grant(b, id, ttl).0 == Some(U64(id))
    ensures Alive(Grant(b, id, ttl).1, U64(id), Lease(b.epoch + ttl, b.epoch))
  {
    hide InsertKey, ExpRow, LexLess;
    SmallModulo(b.epoch + ttl, UINT64_LIMIT);
    var n, e := U64(id), b.epoch + ttl;
    InsertKeySorted(b.exp, ExpRow(e, n));
    forall x: nat | x < UINT64_LIMIT ensures ExpRow(x, n) in InsertKey(b.exp, ExpRow(e, n)) ==> x == e {
      ExpRowsApart(x, n, e, n);
    }
  }

  lemma EnteredAlive(b: Book, id: nat, l: Lease, other: nat, m: Lease)
    requires Leasing(b) && Alive(b, id, l) && other != id && other < UINT64_LIMIT && m.expires < UINT64_LIMIT
    ensures Alive(Entered(b, other, m), id, l)
  {
    LeaseBounds(b, id);
    hide InsertKey, ExpRow, LexLess, LeasesOk;
    InsertKeySorted(b.exp, ExpRow(m.expires, other));
    forall x: nat | x < UINT64_LIMIT ensures ExpRow(x, id) in Entered(b, other, m).exp ==> x == l.expires {
      ExpRowsApart(x, id, m.expires, other);
    }
  }

  lemma DroppedAlive(b: Book, id: nat, l: Lease, other: nat)
    requires Leasing(b) && Alive(b, id, l) && other != id && other in b.leases
    ensures Alive(Dropped(b, other), id, l)
  {
    hide Remove, ExpRow, LexLess, LeasesOk;
    RemoveMembers(b.exp, ExpRow(b.leases[other].expires, other));
  }

  lemma GrantAlive(b: Book, id: nat, l: Lease, i: int, ttl: int)
    requires Leasing(b) && Alive(b, id, l) && 0 < l.expires && b.epoch < UINT64_LIMIT
    requires Grant(b, i, ttl).1.leaseId < UINT64_LIMIT
    ensures Alive(Grant(b, i, ttl).1, id, l)
  {
    hide Leasing, OnlyOwnEntry, Entered;
    var m := Lease(U64(b.epoch + ttl), b.epoch);
    if U64(i) == 0 {
      var n := NextLease(b.leases, b.leaseId);
      EnteredLeaseId(b.(leaseId := n), n, m);
      FreeAlive(b, id, l, m);
    } else if U64(i) != id {
      EnteredAlive(b, id, l, U64(i), m);
    }
  }

  lemma FreeAlive(b: Book, id: nat, l: Lease, m: Lease)
    requires Leasing(b) && Alive(b, id, l) && m.expires < UINT64_LIMIT
    requires NextLease(b.leases, b.leaseId) < UINT64_LIMIT
    ensures Alive(Entered(b.(leaseId := NextLease(b.leases, b.leaseId)), NextLease(b.leases, b.leaseId), m), id, l)
  {
    hide Leasing, OnlyOwnEntry, Entered, NextLease;
    var n := NextLease(b.leases, b.leaseId);
    EnteredLeaseId(b.(leaseId := n), n, m);
    LeasingFrame(b, b.(leaseId := n));
    AliveFrame(b, b.(leaseId := n), id, l);
    EnteredAlive(b.(leaseId := n), id, l, n, m);
  }

  lemma AliveFrame(b: Book, c: Book, id: nat, l: Lease)
    requires Alive(b, id, l) && c.leases == b.leases && c.exp == b.exp
    ensures Alive(c, id, l)
  {}

  lemma {:induction false} KeepAliveAlive(b: Book, id: nat, l: Lease, ids: seq<int>)
    requires Leasing(b) && Alive(b, id, l) && b.epoch < UINT64_LIMIT && forall i <- ids :: U64(i) != id
    ensures Alive(KeepAlive(b, ids).0, id, l)
  {
    hide Leasing, Alive, Entered;
    if ids != [] {
      var n := |ids| - 1;
      assert ids[n] in ids;
      KeepAliveAlive(b, id, l, ids[..n]);
      KeepAliveKeeps(b, ids[..n]);
      var c := KeepAlive(b, ids[..n]).0;
      if U64(ids[n]) in c.leases {
        EnteredAlive(c, id, l, U64(ids[n]), Lease(U64(c.epoch + Ttl(c.leases[U64(ids[n])])), c.epoch));
      }
    }
  }

  lemma RevokeAlive(s: State, id: nat, l: Lease, other: nat)
    requires Leasing(s.book) && Alive(s.book, id, l) && other != id && ExecRevoke(s, other).Next?
    ensures Alive(ExecRevoke(s, other).s.book, id, l)
  {
    hide Leasing, Alive, ExecRevoke, LeaseKeys, DeleteAll, RowsWithout, Dropped, Bump;
    RevokeStore(s, other);
    if other in s.book.leases { DroppedAlive(s.book, id, l, other); }
  }

  lemma {:induction false} ExpireAlive(s: State, due: seq<bytes>, id: nat, l: Lease)
    requires Revocable(s) && Alive(s.book, id, l) && (forall row <- due :: |row| >= 9 && ExpId(row) != id)
    ensures Expire(s, due).Next? && Alive(Expire(s, due).s.book, id, l)
  {
    hide Revocable, Alive, ExecRevoke, ExpId;
    ExpireNeverCrashes(s, due);
    if due != [] {
      var n := |due| - 1;
      assert due[n] in due;
      ExpireAlive(s, due[..n], id, l);
      ExpireNeverCrashes(s, due[..n]);
      RevocableLeasing(Expire(s, due[..n]).s);
      RevokeAlive(Expire(s, due[..n]).s, id, l, ExpId(due[n]));
    }
  }

  lemma RevocableLeasing(s: State)
    requires Revocable(s)
    ensures Leasing(s.book)
  {}

  lemma NotDue(b: Book, id: nat, l: Lease, epoch: nat)
    requires Leasing(b) && Alive(b, id, l) && epoch < l.expires
    ensures forall row <- Due(b.exp, epoch) :: |row| >= 9 && ExpId(row) != id
  {
    hide LeasesOk, ExpRow, ExpId, Due, SortedKeys, IsExpRow;
    forall row | row in Due(b.exp, epoch) ensures |row| >= 9 && ExpId(row) != id {
      DueRow(b.exp, epoch, row);
      if ExpId(row) == id { var x := DueWitness(b.exp, id, epoch); }
    }
  }

  lemma TickAlive(s: State, term: nat, id: nat, l: Lease)
    requires Inv(s) && Alive(s.book, id, l) && ExecTick(s, term).Next? && ExecTick(s, term).s.book.epoch < l.expires
    ensures Alive(ExecTick(s, term).s.book, id, l)
  {
    hide Inv, Leasing, Alive, Expire, Due, Revocable;
    if s.term <= term {
      TickAddsNone(s, term);
      var t := s.(book := Ticked(s.book));
      InvFrame(s, t);
      InvRevocable(t);
      RevocableLeasing(t);
      AliveFrame(s.book, t.book, id, l);
      NotDue(t.book, id, l, t.book.epoch);
      ExpireAlive(t, Due(t.book.exp, t.book.epoch), id, l);
    }
  }

  lemma ExecBookSame(s: State, c: Cmd, f: Flags)
    requires (c.PutCmd? || c.DeleteCmd? || c.CompactCmd? || c.TxnCmd? || c.TermCmd? || c.Garbled?)
    requires Exec(s, c, f).Next?
    ensures Exec(s, c, f).s.book == s.book
  {
    hide CompareAll, RunOps, Compact;
    match c
    case TxnCmd(_, success, failure) =>
      RunOpsFrame(s, s.rev + 1, success, f);
      RunOpsFrame(s, s.rev + 1, failure, f);
    case _ =>
  }

  lemma ExecAlive(s: State, c: Cmd, f: Flags, id: nat, l: Lease)
    requires Inv(s) && Alive(s.book, id, l) && !Names(c, id) && Exec(s, c, f).Next? && Room(Exec(s, c, f).s)
    requires Exec(s, c, f).s.book.epoch < l.expires
    ensures Alive(Exec(s, c, f).s.book, id, l)
  {
    hide Inv, Leasing, Alive, ExecPut, ExecDelete, ExecTxn, ExecCompact, ExecTick, ExecRevoke;
    hide Grant, KeepAlive, U64, I64;
    InvBook(s);
    RoomBefore(s, c, f);
    match c
    case GrantCmd(i, ttl) => GrantAlive(s.book, id, l, i, ttl);
    case RevokeCmd(i) => RevokeAlive(s, id, l, U64(i));
    case KeepAliveCmd(i) => KeepAliveAlive(s.book, id, l, [i]);
    case KeepAliveBatchCmd(ids) => KeepAliveAlive(s.book, id, l, ids);
    case TickCmd(term) => TickAlive(s, term, id, l);
    case _ => ExecBookSame(s, c, f);
  }

  /** Whatever else happens, a lease that is neither renewed nor revoked lasts until its expiry. */
  lemma {:induction false} LivesUntilExpiry(s: State, es: seq<Entry>, f: Flags, id: nat, l: Lease)
    requires Inv(s) && Alive(s.book, id, l) && EntriesOk(es) && (forall e <- es :: !Names(e.cmd, id))
    requires Run(s, es, f).Batch? && Room(Run(s, es, f).s) && Run(s, es, f).s.book.epoch < l.expires
    ensures Alive(Run(s, es, f).s.book, id, l)
  {
    hide Inv, Alive, Exec, Names;
    if es != [] {
      var n := |es| - 1;
      var t := Run(s, es[..n], f).s;
      assert es[n] in es;
      StepGrows(t, es[n], f);
      RunKeeps(s, es[..n], f);
      LivesUntilExpiry(s, es[..n], f, id, l);
      ExecAlive(t, es[n].cmd, f, id, l);
    }
  }

  // ---- a renewed lease ----

  /** A lease of two ticks, after the first of them. */
  const ONE_TICK := State(EMPTY, [], Book(map[7 := Lease(2, 0)], [ExpRow(2, 7)], 1, 0), 1, 1, 0, 0, 2)

  lemma OneTickReached(f: Flags)
    ensures Run(INITIAL, [Entry(1, GrantCmd(7, 2)), Entry(2, TickCmd(0))], f) ==
      Batch(ONE_TICK, [GrantDone(1, 7, 2), TickDone(1)], [])
  {
    hide ExpRow;
    var g, k := Entry(1, GrantCmd(7, 2)), Entry(2, TickCmd(0));
    var s := ONE_TICK.(book := ONE_TICK.book.(epoch := 0), index := 1);
    assert U64(7) == 7 && U64(2) == 2;
    assert Entered(INITIAL.book, 7, Lease(2, 0)).exp == [ExpRow(2, 7)];
    assert Step(INITIAL, g, f) == Next(s, GrantDone(1, 7, 2), []);
    ExpRowReads(2, 7);
    assert Due([ExpRow(2, 7)], 1) == [];
    assert Step(s, k, f) == Next(ONE_TICK, TickDone(1), []);
    assert [g, k][..1] == [g] && [g][..0] == [];
    assert Run(INITIAL, [], f) == Batch(INITIAL, [], []);
    assert Run(INITIAL, [g], f) == Batch(s, [GrantDone(1, 7, 2)], []);
  }

  /** Renewed there, it is revoked at the second tick although its expiry was put off to the third. */
  lemma RenewedTooLate(f: Flags)
    ensures Inv(ONE_TICK) && Room(ONE_TICK) && Exec(ONE_TICK, KeepAliveCmd(7), f).Next?
    ensures var t := Exec(ONE_TICK, KeepAliveCmd(7), f).s;
      && 7 in t.book.leases && t.book.leases[7] == Lease(3, 1)
      && ExecTick(t, 0).Next? && ExecTick(t, 0).s.book.epoch == 2 && 7 !in ExecTick(t, 0).s.book.leases
  {
    var s := ONE_TICK;
    hide ExpRow, ExecTick, KeepAlive;
    OneTickGood();
    assert U64(7) == 7 && Ttl(Lease(2, 0)) == 2 && U64(3) == 3;
    KeepOne(s.book, 7);
    var t := Exec(s, KeepAliveCmd(7), f).s;
    assert t.book.leases[7] == Lease(3, 1);
    hide Inv, InsertKey, Renewed;
    ExecKeepAliveKeeps(s, [7]);
    RenewalForgotten(s, f, 7, 0);
    TickAddsNone(t, 0);
  }

  lemma OneTickGood()
    ensures Inv(ONE_TICK) && Room(ONE_TICK) && 7 in ONE_TICK.book.leases && OnlyOwnEntry(ONE_TICK.book, 7)
  {
    hide ExpRow;
    assert IsExpRow(ExpRow(2, 7));
    forall x: nat | x < UINT64_LIMIT ensures ExpRow(x, 7) in ONE_TICK.book.exp ==> x == 2 { ExpRowsApart(x, 7, 2, 7); }
  }
}
