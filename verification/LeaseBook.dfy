/** What grants, renewals and revocations do to the leases and to the expiry index, and what they answer. */
module LeaseBooks {
  import opened Base
  import opened KeyRev
  import opened History
  import opened LeaseTables
  import opened DbKvs
  import opened Machine
  import opened Invariants
  import opened LeaseLaws

  // ---- times to live ----

  /** The lease lasts for t ticks from its last renewal, in 64-bit arithmetic. */
  predicate LastsFor(l: Lease, t: int) {
    0 <= t + INT_LIMIT < UINT64_LIMIT && (l.renewed + t - l.expires) % UINT64_LIMIT == 0
  }

  lemma WordApart(x: int, y: int)
    requires (x - y) % UINT64_LIMIT == 0
    ensures U64(x) == U64(y)
  {
    assert x == y + UINT64_LIMIT * ((x - y) / UINT64_LIMIT);
  }

  lemma WordSame(x: int, y: int)
    requires U64(x) == U64(y)
    ensures (x - y) % UINT64_LIMIT == 0
  {
    assert x - y == UINT64_LIMIT * (x / UINT64_LIMIT - y / UINT64_LIMIT);
  }

  /** That determines the time to live, and it is the one the code computes. */
  lemma TtlIsIt(l: Lease, t: int)
    requires l.expires < UINT64_LIMIT && l.renewed < UINT64_LIMIT
    ensures LastsFor(l, t) <==> t == Ttl(l)
  {
    var d := l.expires - l.renewed;
    WordRange(U64(d));
    assert U64(U64(d)) == U64(d);
    WordSame(U64(d), d);
    WordSame(I64(U64(d)), U64(d)) by { SignedSame(U64(d)); }
    Chain3(I64(U64(d)), U64(d), d);
    if LastsFor(l, t) { SameSigned(t, I64(U64(d)), d); }
  }

  lemma WordRange(x: nat)
    requires x < UINT64_LIMIT
    ensures 0 <= I64(x) + INT_LIMIT < UINT64_LIMIT
  {}

  lemma SignedSame(x: nat)
    requires x < UINT64_LIMIT
    ensures U64(I64(x)) == U64(x)
  {
    if x >= INT_LIMIT { WordApart(I64(x), x); }
  }

  lemma Chain3(x: int, y: int, z: int)
    requires (x - y) % UINT64_LIMIT == 0 && (y - z) % UINT64_LIMIT == 0
    ensures (x - z) % UINT64_LIMIT == 0
  {
    assert x - z == (x - y) + (y - z);
  }

  lemma SameSigned(t: int, u: int, d: int)
    requires 0 <= t + INT_LIMIT < UINT64_LIMIT && 0 <= u + INT_LIMIT < UINT64_LIMIT
    requires (t - d) % UINT64_LIMIT == 0 && (u - d) % UINT64_LIMIT == 0
    ensures t == u
  {
    WordApart(t, d);
    WordApart(u, d);
    SignedWord(t);
    SignedWord(u);
  }

  // ---- grants ----

  predicate InUse(b: Book, id: nat) { id in b.leases && b.leases[id].expires > 0 }

  /** The book c has one lease more, or anew: this id, renewed now, for this long, and indexed. */
  ghost predicate Granted(b: Book, c: Book, id: nat, ttl: int) {
    && c.epoch == b.epoch && c.leases.Keys == b.leases.Keys + {id}
    && (forall n <- b.leases :: n != id ==> c.leases[n] == b.leases[n])
    && c.leases[id].renewed == b.epoch && c.leases[id].expires < UINT64_LIMIT
    && (c.leases[id].renewed + ttl - c.leases[id].expires) % UINT64_LIMIT == 0
    && (forall row :: row in c.exp <==> row in b.exp || row == ExpRow(c.leases[id].expires, id))
  }

  lemma EnteredGrants(b: Book, id: nat, ttl: int)
    requires Leasing(b)
    ensures Granted(b, Entered(b, id, Lease(U64(b.epoch + ttl), b.epoch)), id, ttl)
  {
    hide InsertKey, ExpRow, LexLess;
    var l := Lease(U64(b.epoch + ttl), b.epoch);
    InsertKeySorted(b.exp, ExpRow(l.expires, id));
    WordSame(b.epoch + ttl, U64(b.epoch + ttl)) by { SmallModulo(U64(b.epoch + ttl), UINT64_LIMIT); }
  }

  /** A grant of an id in use is refused and changes nothing. */
  lemma IdInUseRefused(s: State, id: int, ttl: int, f: Flags)
    requires Inv(s) && InUse(s.book, U64(id))
    ensures Exec(s, GrantCmd(id, ttl), f) == Next(s, GrantExists(s.rev), [])
  {
    hide Inv, U64, Exec;
    InvBook(s);
    ExecGrants(s, id, ttl, f);
  }

  lemma ExecGrants(s: State, id: int, ttl: int, f: Flags)
    ensures Exec(s, GrantCmd(id, ttl), f) == ExecGrant(s, id, ttl)
  {
    hide ExecGrant;
  }

  lemma AskedGranted(b: Book, id: int, ttl: int)
    requires Leasing(b) && U64(id) != 0 && !InUse(b, U64(id))
    ensures var (g, c) := Grant(b, id, ttl);
      g == Some(U64(id)) && c.leaseId == b.leaseId && Granted(b, c, U64(id), ttl)
  {
    hide Leasing, U64, Granted, Entered;
    EnteredGrants(b, U64(id), ttl);
    EnteredLeaseId(b, U64(id), Lease(U64(b.epoch + ttl), b.epoch));
  }

  lemma SignedId(id: int)
    ensures U64(I64(U64(id))) == U64(id) && (0 <= id + INT_LIMIT < UINT64_LIMIT ==> I64(U64(id)) == id)
  {
    SmallModulo(U64(id), UINT64_LIMIT);
    SignedSame(U64(id));
    if 0 <= id + INT_LIMIT < UINT64_LIMIT { SignedWord(id); }
  }

  /** Any other grant of an id makes that lease, and answers with the id and the time asked for. */
  lemma GrantsAsked(s: State, id: int, ttl: int, f: Flags)
    requires Inv(s) && U64(id) != 0 && !InUse(s.book, U64(id))
    ensures var r := Exec(s, GrantCmd(id, ttl), f);
      && r.Next? && r.keys == [] && r.s == s.(book := r.s.book) && r.s.book.leaseId == s.book.leaseId
      && Granted(s.book, r.s.book, U64(id), ttl)
      && r.reply.GrantDone? && r.reply.header == s.rev && r.reply.ttl == ttl && U64(r.reply.id) == U64(id)
      && (0 <= id + INT_LIMIT < UINT64_LIMIT ==> r.reply.id == id)
  {
    hide Inv, Leasing, Granted, Grant, U64, I64, Exec;
    InvBook(s);
    ExecGrants(s, id, ttl, f);
    AskedGranted(s.book, id, ttl);
    SignedId(id);
  }

  lemma FreeGranted(b: Book, n: nat, ttl: int)
    requires Leasing(b)
    ensures var c := Entered(b.(leaseId := n), n, Lease(U64(b.epoch + ttl), b.epoch));
      Granted(b, c, n, ttl) && c.leaseId == n
  {
    hide Leasing, U64, Granted, Entered;
    var c := b.(leaseId := n);
    LeasingFrame(b, c);
    EnteredGrants(c, n, ttl);
    EnteredLeaseId(c, n, Lease(U64(b.epoch + ttl), b.epoch));
    GrantedFrame(b, c, Entered(c, n, Lease(U64(b.epoch + ttl), b.epoch)), n, ttl);
  }

  /** Without an id the first free one after the last that was handed out so is granted, and remembered. */
  lemma GrantsFree(s: State, id: int, ttl: int, f: Flags) returns (n: nat)
    requires Inv(s) && U64(id) == 0
    ensures n > s.book.leaseId && n !in s.book.leases && forall m | s.book.leaseId < m < n :: m in s.book.leases
    ensures var r := Exec(s, GrantCmd(id, ttl), f);
      && r.Next? && r.keys == [] && r.s == s.(book := r.s.book) && r.s.book.leaseId == n
      && Granted(s.book, r.s.book, n, ttl)
      && r.reply == GrantDone(s.rev, I64(n), ttl)
  {
    hide Inv, Leasing, Granted, Entered, U64, I64, Exec;
    InvBook(s);
    ExecGrants(s, id, ttl, f);
    n := NextLease(s.book.leases, s.book.leaseId);
    FreeGranted(s.book, n, ttl);
  }

  lemma GrantedFrame(b: Book, c: Book, d: Book, id: nat, ttl: int)
    requires Granted(c, d, id, ttl) && b.leases == c.leases && b.exp == c.exp && b.epoch == c.epoch
    ensures Granted(b, d, id, ttl)
  {
    hide ExpRow;
  }

  /** So over every run, ids handed out that way only rise. */
  lemma FreeIdsRise(s: State, id: int, ttl: int, es: seq<Entry>, id2: int, ttl2: int, f: Flags)
    requires Inv(s) && EntriesOk(es) && U64(id) == 0 && U64(id2) == 0 && Exec(s, GrantCmd(id, ttl), f).Next?
    requires var t := Exec(s, GrantCmd(id, ttl), f).s;
      Inv(t) && Run(t, es, f).Batch? && Room(Run(t, es, f).s)
    ensures var t := Exec(s, GrantCmd(id, ttl), f).s;
      var u := Run(t, es, f).s;
      && Exec(u, GrantCmd(id2, ttl2), f).Next?
      && t.book.leaseId in t.book.leases && Exec(u, GrantCmd(id2, ttl2), f).s.book.leaseId > t.book.leaseId
  {
    hide Inv, Exec, Run, Granted, Room;
    var t := Exec(s, GrantCmd(id, ttl), f).s;
    RunKeeps(t, es, f);
    var n := GrantsFree(s, id, ttl, f);
    assert n in t.book.leases by { GrantedThere(s.book, t.book, n, ttl); }
    var m := GrantsFree(Run(t, es, f).s, id2, ttl2, f);
  }

  lemma GrantedThere(b: Book, c: Book, id: nat, ttl: int)
    requires Granted(b, c, id, ttl)
    ensures id in c.leases
  {}

  // ---- renewals ----

  predicate Named(ids: seq<int>, n: nat) { exists i | 0 <= i < |ids| :: U64(ids[i]) == n }

  /** The leases named, as far as they exist, last as long as before from now on; the index gains their new expiries. */
  ghost predicate Prolonged(b: Book, c: Book, ids: seq<int>) {
    && c.epoch == b.epoch && c.leaseId == b.leaseId && c.leases.Keys == b.leases.Keys
    && (forall n <- b.leases :: if Named(ids, n) then RenewedNow(b.leases[n], c.leases[n], b.epoch)
                                else c.leases[n] == b.leases[n])
    && (forall row :: row in c.exp <==> row in b.exp || NewEntry(c, ids, row))
  }

  ghost predicate RenewedNow(l: Lease, m: Lease, epoch: nat) {
    m.renewed == epoch && m.expires < UINT64_LIMIT && forall t :: LastsFor(l, t) <==> LastsFor(m, t)
  }

  ghost predicate NewEntry(c: Book, ids: seq<int>, row: bytes) {
    exists n <- c.leases :: Named(ids, n) && row == ExpRow(c.leases[n].expires, n)
  }

  /** Each answer is the time to live of the lease as it was, or zero. */
  ghost predicate Lived(b: Book, ids: seq<int>, ttls: seq<int>) {
    |ttls| == |ids| && forall i | 0 <= i < |ids| :: LivedFor(b, U64(ids[i]), ttls[i])
  }

  predicate LivedFor(b: Book, id: nat, t: int) {
    if id in b.leases then LastsFor(b.leases[id], t) else t == 0
  }

  lemma RenewalKeepsTtl(l: Lease, epoch: nat)
    requires l.expires < UINT64_LIMIT && l.renewed < UINT64_LIMIT && epoch < UINT64_LIMIT
    ensures RenewedNow(l, Lease(U64(epoch + Ttl(l)), epoch), epoch)
  {
    var m := Lease(U64(epoch + Ttl(l)), epoch);
    WordSame(epoch + Ttl(l), U64(epoch + Ttl(l))) by { SmallModulo(U64(epoch + Ttl(l)), UINT64_LIMIT); }
    hide Ttl;
    TtlIsIt(l, Ttl(l));
    forall t ensures LastsFor(l, t) <==> LastsFor(m, t) {
      TtlIsIt(l, t);
      TtlIsIt(m, t);
      TtlIsIt(m, Ttl(l));
    }
  }

  lemma NamedSnoc(ids: seq<int>, n: nat)
    requires ids != []
    ensures Named(ids, n) <==> Named(ids[..|ids| - 1], n) || U64(ids[|ids| - 1]) == n
  {
    var k := |ids| - 1;
    if Named(ids, n) {
      var i :| 0 <= i < |ids| && U64(ids[i]) == n;
      if i < k { assert ids[..k][i] == ids[i]; }
    }
    if Named(ids[..k], n) {
      var i :| 0 <= i < k && U64(ids[..k][i]) == n;
      assert ids[i] == ids[..k][i];
    }
  }

  lemma RenewedAgain(l: Lease)
    requires l.expires < UINT64_LIMIT && l.renewed < UINT64_LIMIT
    ensures U64(l.renewed + Ttl(l)) == l.expires
  {
    TtlIsIt(l, Ttl(l));
    WordApart(l.renewed + Ttl(l), l.expires);
    SmallModulo(l.expires, UINT64_LIMIT);
  }

  /** One more renewal of a lease that is there. */
  lemma OneMore(b: Book, c: Book, ids: seq<int>, id: nat)
    requires ids != [] && Leasing(c) && b.epoch < UINT64_LIMIT && id == U64(ids[|ids| - 1])
    requires Prolonged(b, c, ids[..|ids| - 1]) && id in c.leases
    ensures Prolonged(b, Renewed(c, id), ids)
  {
    hide LastsFor, ExpRow, Named, Leasing, Ttl, U64, InsertKey, NewEntry;
    var k := |ids| - 1;
    var d := Renewed(c, id);
    LeaseBounds(c, id);
    RenewalKeepsTtl(c.leases[id], c.epoch);
    forall n ensures Named(ids, n) <==> Named(ids[..k], n) || n == id { NamedSnoc(ids, n); }
    assert RenewedNow(b.leases[id], d.leases[id], b.epoch);
    assert Named(ids[..k], id) ==> c.leases[id].renewed == c.epoch;
    hide RenewedNow;
    forall row ensures row in d.exp <==> row in b.exp || NewEntry(d, ids, row) { OneMoreRow(c, ids, id, row); }
  }

  lemma OneMoreRow(c: Book, ids: seq<int>, id: nat, row: bytes)
    requires ids != [] && Leasing(c) && id == U64(ids[|ids| - 1]) && id in c.leases
    requires Named(ids[..|ids| - 1], id) ==> c.leases[id].renewed == c.epoch
    ensures row in Renewed(c, id).exp <==> row in c.exp || row == ExpRow(Renewed(c, id).leases[id].expires, id)
    ensures NewEntry(Renewed(c, id), ids, row) <==>
      NewEntry(c, ids[..|ids| - 1], row) || row == ExpRow(Renewed(c, id).leases[id].expires, id)
  {
    hide ExpRow, Named, Leasing, Ttl, U64, InsertKey;
    var k := |ids| - 1;
    LeaseBounds(c, id);
    if Named(ids[..k], id) { RenewedAgain(c.leases[id]); }
    forall n ensures Named(ids, n) <==> Named(ids[..k], n) || n == id { NamedSnoc(ids, n); }
    OneMoreEntry(c, id);
  }

  lemma OneMoreEntry(c: Book, id: nat)
    requires Leasing(c) && id in c.leases
    ensures var d := Renewed(c, id);
      forall row :: row in d.exp <==> row in c.exp || row == ExpRow(d.leases[id].expires, id)
  {
    LeaseBounds(c, id);
    hide ExpRow, LexLess, InsertKey, U64, Ttl;
    InsertKeySorted(c.exp, ExpRow(Renewed(c, id).leases[id].expires, id));
  }

  /** A renewal gives the leases it names, as far as they exist, their time anew, and answers how long that is. */
  lemma {:induction false} KeepAliveProlongs(b: Book, ids: seq<int>)
    requires Leasing(b) && b.epoch < UINT64_LIMIT
    ensures var (c, ttls) := KeepAlive(b, ids); Prolonged(b, c, ids) && Lived(b, ids, ttls)
  {
    hide Leasing, Renewed, Ttl, U64, LastsFor;
    if ids == [] {
      assert forall n :: !Named(ids, n);
    } else {
      var k, id := |ids| - 1, U64(ids[|ids| - 1]);
      KeepAliveProlongs(b, ids[..k]);
      KeepAliveKeeps(b, ids[..k]);
      var (c, ttls) := KeepAlive(b, ids[..k]);
      if id in c.leases {
        OneMore(b, c, ids, id);
        StillLives(b, c, ids[..k], id);
      } else {
        NoneMore(b, c, ids, id);
      }
      hide Prolonged, LivedFor;
      forall i | 0 <= i < |ids| ensures LivedFor(b, U64(ids[i]), KeepAlive(b, ids).1[i]) {
        if i < k { assert ids[..k][i] == ids[i]; }
      }
    }
  }

  /** However often a lease was renewed, its time to live is the same. */
  lemma StillLives(b: Book, c: Book, ids: seq<int>, id: nat)
    requires Leasing(c) && Prolonged(b, c, ids) && id in c.leases
    ensures LivedFor(b, id, Ttl(c.leases[id]))
  {
    hide NewEntry;
    LeaseBounds(c, id);
    TtlIsIt(c.leases[id], Ttl(c.leases[id]));
    hide LastsFor, Ttl, Named;
  }

  /** A renewal of a lease that is not there changes nothing. */
  lemma NoneMore(b: Book, c: Book, ids: seq<int>, id: nat)
    requires ids != [] && id == U64(ids[|ids| - 1])
    requires Prolonged(b, c, ids[..|ids| - 1]) && id !in c.leases
    ensures Prolonged(b, c, ids) && LivedFor(b, id, 0)
  {
    hide LastsFor, ExpRow, Named, U64, RenewedNow;
    forall n ensures Named(ids, n) <==> Named(ids[..|ids| - 1], n) || n == id { NamedSnoc(ids, n); }
    forall row ensures NewEntry(c, ids, row) <==> NewEntry(c, ids[..|ids| - 1], row) {}
  }

  /** So do both commands that renew. */
  lemma Renews(s: State, c: Cmd, ids: seq<int>, f: Flags)
    requires Inv(s) && Room(s)
    requires c == KeepAliveBatchCmd(ids) || (|ids| == 1 && c == KeepAliveCmd(ids[0]))
    ensures var r := Exec(s, c, f);
      && r.Next? && r.keys == [] && r.s == s.(book := r.s.book) && Prolonged(s.book, r.s.book, ids)
      && r.reply.KeepDone? && r.reply.header == s.rev && Lived(s.book, ids, r.reply.ttls)
  {
    hide Inv, Leasing, Prolonged, Lived, KeepAlive;
    InvBook(s);
    KeepAliveProlongs(s.book, ids);
    assert |ids| == 1 ==> ids == [ids[0]];
  }

  // ---- revocations ----

  /** The lease is gone, with the one entry of the index that has its expiry. */
  ghost predicate Withdrawn(b: Book, c: Book, id: nat)
    requires id in b.leases
  {
    && c.epoch == b.epoch && c.leaseId == b.leaseId && c.leases == b.leases - {id}
    && (forall row :: row in c.exp <==> row in b.exp && row != ExpRow(b.leases[id].expires, id))
  }

  /** A revocation takes out the lease, and says whether there was one. */
  lemma Revokes(s: State, id: int, f: Flags)
    requires Inv(s)
    ensures var r := Exec(s, RevokeCmd(id), f);
      && r.Next? && r.reply == RevokeDone(r.s.rev, U64(id) in s.book.leases)
      && (if U64(id) in s.book.leases then Withdrawn(s.book, r.s.book, U64(id)) else r.s == s && r.keys == [])
  {
    hide Inv, Leasing, ExecRevoke, U64, Revocable;
    InvBook(s);
    InvRevocable(s);
    RevokeKeepsRevocable(s, U64(id));
    RevokesById(s, U64(id));
  }

  lemma RevokesById(s: State, id: nat)
    requires Leasing(s.book) && ExecRevoke(s, id).Next?
    ensures var r := ExecRevoke(s, id);
      && r.reply == RevokeDone(r.s.rev, id in s.book.leases)
      && (if id in s.book.leases then Withdrawn(s.book, r.s.book, id) else r.s == s && r.keys == [])
  {
    hide DeleteAll, RowKeys, RowsWithout, ExpRow, LexLess, Remove;
    if id in s.book.leases { RemoveMembers(s.book.exp, ExpRow(s.book.leases[id].expires, id)); }
  }
}
