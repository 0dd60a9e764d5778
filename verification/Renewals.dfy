/**
 What renewals are worth over whole runs: nothing. The tick that reaches the first entry a
 lease has in the expiry index revokes it, however often it was renewed in between.
 */
module Renewals {
  import opened Base
  import opened KeyRev
  import opened History
  import opened LeaseTables
  import opened DbKvs
  import opened Machine
  import opened Invariants
  import opened LeaseLaws
  import opened Expiry

  /** The first expiry the index has for this lease is x. */
  ghost predicate FirstEntry(exp: seq<bytes>, id: nat, x: nat) {
    x < UINT64_LIMIT && ExpRow(x, id) in exp && forall y: nat | y < UINT64_LIMIT :: ExpRow(y, id) in exp ==> x <= y
  }

  /** The lease was granted or renewed for `ttl` ticks. */
  predicate OnTime(l: Lease, ttl: nat, epoch: nat) {
    l.expires == l.renewed + ttl && l.renewed <= epoch
  }

  ghost predicate Held(b: Book, id: nat, x: nat, ttl: nat) {
    id in b.leases && OnTime(b.leases[id], ttl, b.epoch) && FirstEntry(b.exp, id, x)
  }

  lemma HeldDueIff(b: Book, id: nat, x: nat, epoch: nat)
    requires FirstEntry(b.exp, id, x)
    ensures HasDue(b.exp, id, epoch) <==> x <= epoch
  {
    hide ExpRow;
  }

  // ---- other leases ----

  lemma EnteredHeld(b: Book, id: nat, x: nat, ttl: nat, other: nat, m: Lease)
    requires Leasing(b) && Held(b, id, x, ttl) && other != id && other < UINT64_LIMIT && m.expires < UINT64_LIMIT
    ensures Held(Entered(b, other, m), id, x, ttl)
  {
    LeaseBounds(b, id);
    hide InsertKey, ExpRow, LexLess, LeasesOk;
    InsertKeySorted(b.exp, ExpRow(m.expires, other));
    forall y: nat | y < UINT64_LIMIT ensures ExpRow(y, id) in Entered(b, other, m).exp ==> x <= y {
      ExpRowsApart(y, id, m.expires, other);
    }
  }

  lemma DroppedHeld(b: Book, id: nat, x: nat, ttl: nat, other: nat)
    requires Leasing(b) && Held(b, id, x, ttl) && other != id && other in b.leases
    ensures Held(Dropped(b, other), id, x, ttl)
  {
    LeaseBounds(b, id);
    LeaseBounds(b, other);
    hide Remove, ExpRow, LexLess, LeasesOk;
    RemoveMembers(b.exp, ExpRow(b.leases[other].expires, other));
    ExpRowsApart(x, id, b.leases[other].expires, other);
  }

  lemma HeldFrame(b: Book, c: Book, id: nat, x: nat, ttl: nat)
    requires Held(b, id, x, ttl) && c.leases == b.leases && c.exp == b.exp && b.epoch <= c.epoch
    ensures Held(c, id, x, ttl)
  {}

  lemma HeldInUse(b: Book, id: nat, x: nat, ttl: nat)
    requires Leasing(b) && Held(b, id, x, ttl)
    ensures 0 < id && id in b.leases && x <= b.leases[id].expires
  {
    LeaseBounds(b, id);
    hide ExpRow;
  }

  lemma GrantHeld(b: Book, id: nat, x: nat, ttl: nat, i: int, t: int)
    requires Leasing(b) && Held(b, id, x, ttl) && 0 < x && b.epoch < UINT64_LIMIT
    requires Grant(b, i, t).1.leaseId < UINT64_LIMIT
    ensures Held(Grant(b, i, t).1, id, x, ttl)
  {
    hide Leasing, Held, Entered;
    HeldInUse(b, id, x, ttl);
    var m := Lease(U64(b.epoch + t), b.epoch);
    if U64(i) == 0 {
      var n := NextLease(b.leases, b.leaseId);
      EnteredLeaseId(b.(leaseId := n), n, m);
      FreeHeld(b, id, x, ttl, m);
    } else if U64(i) != id {
      EnteredHeld(b, id, x, ttl, U64(i), m);
    }
  }

  lemma FreeHeld(b: Book, id: nat, x: nat, ttl: nat, m: Lease)
    requires Leasing(b) && Held(b, id, x, ttl) && m.expires < UINT64_LIMIT
    requires NextLease(b.leases, b.leaseId) < UINT64_LIMIT
    ensures Held(Entered(b.(leaseId := NextLease(b.leases, b.leaseId)), NextLease(b.leases, b.leaseId), m), id, x, ttl)
  {
    hide Leasing, FirstEntry, Entered, NextLease, OnTime;
    var n := NextLease(b.leases, b.leaseId);
    EnteredLeaseId(b.(leaseId := n), n, m);
    LeasingFrame(b, b.(leaseId := n));
    HeldFrame(b, b.(leaseId := n), id, x, ttl);
    EnteredHeld(b.(leaseId := n), id, x, ttl, n, m);
  }

  // ---- the lease itself ----

  lemma TtlKept(l: Lease, ttl: nat, epoch: nat)
    requires OnTime(l, ttl, epoch) && ttl < INT_LIMIT && epoch + ttl < UINT64_LIMIT
    ensures Ttl(l) == ttl && OnTime(Lease(U64(epoch + Ttl(l)), epoch), ttl, epoch) && l.expires <= U64(epoch + Ttl(l))
  {
    SmallModulo(ttl, UINT64_LIMIT);
    SmallModulo(epoch + ttl, UINT64_LIMIT);
  }

  lemma RenewedLater(b: Book, id: nat, ttl: nat)
    requires id in b.leases && OnTime(b.leases[id], ttl, b.epoch) && ttl < INT_LIMIT && b.epoch + ttl < UINT64_LIMIT
    ensures var c := Renewed(b, id);
      && id in c.leases && OnTime(c.leases[id], ttl, c.epoch) && b.leases[id].expires <= c.leases[id].expires
  {
    TtlKept(b.leases[id], ttl, b.epoch);
    hide Ttl, OnTime, U64;
  }

  /** A renewal adds a later entry, and the first one stays. */
  lemma RenewedHeld(b: Book, id: nat, x: nat, ttl: nat)
    requires Leasing(b) && Held(b, id, x, ttl) && ttl < INT_LIMIT && b.epoch + ttl < UINT64_LIMIT
    ensures Held(Renewed(b, id), id, x, ttl)
  {
    hide ExpRow, Leasing, OnTime, Renewed;
    LeaseBounds(b, id);
    RenewedLater(b, id, ttl);
    var c := Renewed(b, id);
    forall y: nat | y < UINT64_LIMIT ensures ExpRow(y, id) in c.exp ==> x <= y { RenewalEntries(b, id, y); }
    RenewalEntries(b, id, x);
  }

  lemma {:induction false} KeepAliveHeld(b: Book, id: nat, x: nat, ttl: nat, ids: seq<int>)
    requires Leasing(b) && Held(b, id, x, ttl) && ttl < INT_LIMIT && b.epoch + ttl < UINT64_LIMIT
    ensures Held(KeepAlive(b, ids).0, id, x, ttl) && KeepAlive(b, ids).0.epoch == b.epoch
  {
    hide Leasing, Held, Entered, Ttl;
    if ids != [] {
      var n := |ids| - 1;
      KeepAliveHeld(b, id, x, ttl, ids[..n]);
      KeepAliveKeeps(b, ids[..n]);
      var c, i := KeepAlive(b, ids[..n]).0, U64(ids[n]);
      if i == id {
        HeldThere(c, id, x, ttl);
        RenewedHeld(c, id, x, ttl);
        RenewedEpoch(c, id);
      } else if i in c.leases {
        EnteredHeld(c, id, x, ttl, i, Lease(U64(c.epoch + Ttl(c.leases[i])), c.epoch));
        RenewedEpoch(c, i);
      }
    }
  }

  lemma HeldThere(b: Book, id: nat, x: nat, ttl: nat)
    requires Held(b, id, x, ttl)
    ensures id in b.leases
  {}

  lemma RenewedEpoch(b: Book, id: nat)
    requires id in b.leases
    ensures Renewed(b, id).epoch == b.epoch && Renewed(b, id).leases.Keys == b.leases.Keys
  {}

  // ---- revocations and ticks ----

  lemma RevokeHeld(s: State, id: nat, x: nat, ttl: nat, other: nat)
    requires Leasing(s.book) && Held(s.book, id, x, ttl) && other != id && ExecRevoke(s, other).Next?
    ensures Held(ExecRevoke(s, other).s.book, id, x, ttl)
  {
    hide Leasing, Held, ExecRevoke, LeaseKeys, DeleteAll, RowsWithout, Dropped, Bump;
    RevokeStore(s, other);
    if other in s.book.leases { DroppedHeld(s.book, id, x, ttl, other); }
  }

  lemma {:induction false} ExpireHeld(s: State, due: seq<bytes>, id: nat, x: nat, ttl: nat)
    requires Revocable(s) && Held(s.book, id, x, ttl) && (forall row <- due :: |row| >= 9 && ExpId(row) != id)
    ensures Expire(s, due).Next? && Held(Expire(s, due).s.book, id, x, ttl)
  {
    hide Revocable, Held, ExecRevoke, ExpId;
    ExpireNeverCrashes(s, due);
    if due != [] {
      var n := |due| - 1;
      assert due[n] in due;
      ExpireHeld(s, due[..n], id, x, ttl);
      ExpireNeverCrashes(s, due[..n]);
      RevocableLeasing(Expire(s, due[..n]).s);
      RevokeHeld(Expire(s, due[..n]).s, id, x, ttl, ExpId(due[n]));
    }
  }

  lemma NotYetDue(b: Book, id: nat, x: nat, epoch: nat)
    requires Leasing(b) && FirstEntry(b.exp, id, x) && epoch < x
    ensures forall row <- Due(b.exp, epoch) :: |row| >= 9 && ExpId(row) != id
  {
    hide LeasesOk, ExpRow, ExpId, Due, SortedKeys, IsExpRow, HasDue, FirstEntry;
    HeldDueIff(b, id, x, epoch);
    forall row | row in Due(b.exp, epoch) ensures |row| >= 9 && ExpId(row) != id { DueRow(b.exp, epoch, row); }
  }

  /** A tick before the first entry leaves the lease alone; the one that reaches it takes it away. */
  lemma TickHeld(s: State, term: nat, id: nat, x: nat, ttl: nat)
    requires Inv(s) && Held(s.book, id, x, ttl) && s.book.epoch < x && ExecTick(s, term).Next?
    ensures var t := ExecTick(s, term).s;
      if t.book.epoch < x then Held(t.book, id, x, ttl) else id !in t.book.leases
  {
    if s.term <= term {
      TickAddsNone(s, term);
      TickRevokes(s, term, id);
      HeldDueIff(s.book, id, x, s.book.epoch + 1);
      hide Inv, Leasing, Expire, Due, Revocable, HasDue;
      if s.book.epoch + 1 < x {
        var t := s.(book := Ticked(s.book));
        InvFrame(s, t);
        InvRevocable(t);
        RevocableLeasing(t);
        HeldFrame(s.book, t.book, id, x, ttl);
        NotYetDue(t.book, id, x, t.book.epoch);
        hide Held;
        ExpireHeld(t, Due(t.book.exp, t.book.epoch), id, x, ttl);
      }
    }
  }

  // ---- gone for good ----

  /** This command may bring a lease with this id back: it asks for it, or for a new id not below it. */
  predicate Regrants(c: Cmd, id: nat, leaseId: nat) {
    c.GrantCmd? && (U64(c.id) == id || (U64(c.id) == 0 && leaseId < id))
  }

  lemma {:induction false} KeepAliveKeys(b: Book, ids: seq<int>)
    ensures KeepAlive(b, ids).0.leases.Keys == b.leases.Keys
  {
    hide Renewed;
    if ids != [] {
      var n := |ids| - 1;
      KeepAliveKeys(b, ids[..n]);
      var c := KeepAlive(b, ids[..n]).0;
      if U64(ids[n]) in c.leases { RenewedEpoch(c, U64(ids[n])); }
    }
  }

  lemma ExecGone(s: State, c: Cmd, f: Flags, id: nat)
    requires Inv(s) && id !in s.book.leases && !Regrants(c, id, s.book.leaseId) && Exec(s, c, f).Next?
    ensures id !in Exec(s, c, f).s.book.leases
  {
    hide Inv, ExecPut, ExecDelete, ExecTxn, ExecCompact, ExecTick, ExecRevoke, KeepAlive, NextLease;
    match c
    case GrantCmd(i, ttl) =>
    case RevokeCmd(i) => RevokeLeases(s, U64(i));
    case KeepAliveCmd(i) => KeepAliveKeys(s.book, [i]);
    case KeepAliveBatchCmd(ids) => KeepAliveKeys(s.book, ids);
    case TickCmd(term) => TickGone(s, term, id);
    case _ => ExecBookSame(s, c, f);
  }

  lemma TickGone(s: State, term: nat, id: nat)
    requires Inv(s) && id !in s.book.leases && ExecTick(s, term).Next?
    ensures id !in ExecTick(s, term).s.book.leases
  {
    if s.term <= term { TickAddsNone(s, term); }
  }

  // ---- runs ----

  /** While the first entry lies ahead the lease is held, and from then on it is gone. */
  ghost predicate Fate(b: Book, id: nat, x: nat, ttl: nat) {
    if b.epoch < x then Held(b, id, x, ttl) else id !in b.leases
  }

  lemma ExecHeld(s: State, c: Cmd, f: Flags, id: nat, x: nat, ttl: nat)
    requires Inv(s) && Held(s.book, id, x, ttl) && s.book.epoch < x && Exec(s, c, f).Next? && Room(Exec(s, c, f).s)
    requires !(c.RevokeCmd? && U64(c.id) == id)
    requires ttl < INT_LIMIT && s.book.epoch + ttl < UINT64_LIMIT
    ensures Fate(Exec(s, c, f).s.book, id, x, ttl)
  {
    hide Inv, Leasing, Held, ExecPut, ExecDelete, ExecTxn, ExecCompact, ExecTick, ExecRevoke;
    hide Grant, KeepAlive, U64, I64;
    InvBook(s);
    RoomBefore(s, c, f);
    match c
    case GrantCmd(i, t) =>
      GrantHeld(s.book, id, x, ttl, i, t);
      GrantEpoch(s.book, i, t);
    case RevokeCmd(i) =>
      RevokeHeld(s, id, x, ttl, U64(i));
      RevokeLeases(s, U64(i));
    case KeepAliveCmd(i) => KeepAliveHeld(s.book, id, x, ttl, [i]);
    case KeepAliveBatchCmd(ids) => KeepAliveHeld(s.book, id, x, ttl, ids);
    case TickCmd(term) => TickHeld(s, term, id, x, ttl);
    case _ => ExecBookSame(s, c, f);
  }

  lemma GrantEpoch(b: Book, i: int, t: int)
    ensures Grant(b, i, t).1.epoch == b.epoch && Grant(b, i, t).1.leaseId >= b.leaseId
  {
    hide NextLease;
  }

  /** The command leaves the lease to its fate: once its time has come, a grant may bring the id back. */
  predicate Leaves(c: Cmd, id: nat, x: nat, epoch: nat, leaseId: nat) {
    !(c.RevokeCmd? && U64(c.id) == id) && (Regrants(c, id, leaseId) ==> epoch < x)
  }

  /** So does every entry of the run. */
  ghost predicate Unassisted(s: State, es: seq<Entry>, f: Flags, id: nat, x: nat) {
    forall i | 0 <= i < |es| && Run(s, es[..i], f).Batch? ::
      Leaves(es[i].cmd, id, x, Run(s, es[..i], f).s.book.epoch, s.book.leaseId)
  }

  lemma UnassistedBefore(s: State, es: seq<Entry>, f: Flags, id: nat, x: nat)
    requires es != [] && Unassisted(s, es, f, id, x)
    ensures Unassisted(s, es[..|es| - 1], f, id, x)
  {
    hide Run, Leaves;
    var n := |es| - 1;
    forall i | 0 <= i < n && Run(s, es[..n][..i], f).Batch?
      ensures Leaves(es[..n][i].cmd, id, x, Run(s, es[..n][..i], f).s.book.epoch, s.book.leaseId)
    {
      assert es[..n][..i] == es[..i];
    }
  }

  lemma LeavesLast(s: State, es: seq<Entry>, f: Flags, id: nat, x: nat)
    requires es != [] && Unassisted(s, es, f, id, x) && Run(s, es[..|es| - 1], f).Batch?
    ensures Leaves(es[|es| - 1].cmd, id, x, Run(s, es[..|es| - 1], f).s.book.epoch, s.book.leaseId)
  {
    hide Run, Leaves;
  }

  lemma ExecFate(s: State, c: Cmd, f: Flags, id: nat, x: nat, ttl: nat, leaseId: nat)
    requires Inv(s) && Fate(s.book, id, x, ttl) && Exec(s, c, f).Next? && Room(Exec(s, c, f).s)
    requires Leaves(c, id, x, s.book.epoch, leaseId) && leaseId <= s.book.leaseId
    requires ttl < INT_LIMIT && s.book.epoch + ttl < UINT64_LIMIT
    ensures Fate(Exec(s, c, f).s.book, id, x, ttl)
  {
    hide Inv, Exec, Held;
    ExecGrows(s, c, f);
    if s.book.epoch < x {
      ExecHeld(s, c, f, id, x, ttl);
    } else {
      ExecGone(s, c, f, id);
    }
  }

  /**
   Unless it is revoked by name or its id granted anew after its time, a lease is there exactly until the epoch
   reaches the first entry the index has for it, whatever renewals come.
   */
  lemma {:induction false} RenewalsIgnored(s: State, es: seq<Entry>, f: Flags, id: nat, x: nat, ttl: nat)
    requires Inv(s) && Held(s.book, id, x, ttl) && s.book.epoch < x && EntriesOk(es)
    requires Unassisted(s, es, f, id, x)
    requires Run(s, es, f).Batch? && Room(Run(s, es, f).s)
    requires ttl < INT_LIMIT && Run(s, es, f).s.book.epoch + ttl < UINT64_LIMIT
    ensures id in Run(s, es, f).s.book.leases <==> Run(s, es, f).s.book.epoch < x
  {
    RunFate(s, es, f, id, x, ttl);
  }

  lemma {:induction false} RunFate(s: State, es: seq<Entry>, f: Flags, id: nat, x: nat, ttl: nat)
    requires Inv(s) && Held(s.book, id, x, ttl) && s.book.epoch < x && EntriesOk(es)
    requires Unassisted(s, es, f, id, x)
    requires Run(s, es, f).Batch? && Room(Run(s, es, f).s)
    requires ttl < INT_LIMIT && Run(s, es, f).s.book.epoch + ttl < UINT64_LIMIT
    ensures Fate(Run(s, es, f).s.book, id, x, ttl) && s.book.leaseId <= Run(s, es, f).s.book.leaseId
  {
    hide Inv, Held, Exec, Leaves;
    if es != [] {
      var n := |es| - 1;
      UnassistedBefore(s, es, f, id, x);
      hide Unassisted;
      var t := Run(s, es[..n], f).s;
      assert es[n] in es;
      StepGrows(t, es[n], f);
      RunKeeps(s, es[..n], f);
      RunFate(s, es[..n], f, id, x, ttl);
      hide Fate;
      LeavesLast(s, es, f, id, x);
      ExecFate(t, es[n].cmd, f, id, x, ttl, s.book.leaseId);
    }
  }

  /** A lease that was never renewed has its own expiry as first entry. */
  lemma AliveHeld(b: Book, id: nat, l: Lease)
    requires Leasing(b) && Alive(b, id, l) && l.renewed <= b.epoch && l.renewed <= l.expires
    ensures Held(b, id, l.expires, l.expires - l.renewed)
  {
    LeaseBounds(b, id);
    hide ExpRow;
  }
}
