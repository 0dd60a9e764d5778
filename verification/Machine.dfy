/**
 What one log entry does to the replicated state, as values: the commands of
 state_machine.go over the store and the lease tables.
 */
module Machine {
  import opened Base
  import opened KeyRev
  import opened KvCodec
  import opened History
  import opened LeaseTables
  import opened DbKvs

  /** The leases, the rows of lease_exp, and the counters they depend on. */
  datatype Book = Book(leases: map<nat, Lease>, exp: seq<bytes>, epoch: nat, leaseId: nat)

  /** The store, the rows of lease_key, the leases, and the other counters of db_meta.go. */
  datatype State = State(store: Store, rows: seq<bytes>, book: Book,
                         rev: nat, revMin: nat, revCompacted: nat, term: nat, index: nat)

  const INITIAL := State(EMPTY, [], Book(map[], [], 0, 0), 1, 1, 0, 0, 0)

  // ---- requests and replies ----

  datatype PutReq = PutReq(key: bytes, val: bytes, lease: int, prevKv: bool, ignoreValue: bool, ignoreLease: bool)

  datatype DeleteReq = DeleteReq(key: bytes, end: bytes, prevKv: bool)

  /** OtherRelation is any other number on the wire. */
  datatype Relation = Equal | Greater | Less | NotEqual | OtherRelation

  /** Mismatched brings no operand, or one of another kind than it names; OnOther is any other number on the wire. */
  datatype Target =
    | OnVersion(n: int)
    | OnCreate(n: int)
    | OnMod(n: int)
    | OnLease(n: int)
    | OnValue(val: bytes)
    | OnOther
    | Mismatched

  datatype Compare = Compare(key: bytes, relation: Relation, target: Target)

  /** OpOther is any other kind of operation; a transaction skips it. */
  datatype TxnOp = OpPut(put: PutReq) | OpDelete(del: DeleteReq) | OpRange(range: RangeReq) | OpOther

  /** Garbled is a command that does not decode; it is logged and skipped. */
  datatype Cmd =
    | PutCmd(put: PutReq)
    | DeleteCmd(del: DeleteReq)
    | CompactCmd(revision: nat)
    | TxnCmd(compare: seq<Compare>, success: seq<TxnOp>, failure: seq<TxnOp>)
    | GrantCmd(id: int, ttl: int)
    | RevokeCmd(id: int)
    | KeepAliveCmd(id: int)
    | KeepAliveBatchCmd(ids: seq<int>)
    | TickCmd(term: nat)
    | TermCmd(term: nat)
    | Garbled

  datatype Entry = Entry(index: nat, cmd: Cmd)

  datatype OpReply =
    | PutReply(prev: Option<Option<Kv>>)
    | DeleteReply(deleted: nat, prevs: seq<Option<Kv>>)
    | RangeReply(range: RangeResult)

  datatype Refusal = LeaseProvided | ValueProvided | LeaseNotFound | TermExpired | OpRefused(error: OpError)

  datatype Reply =
    | NoReply
    | Refused(why: Refusal)
    | OpDone(header: nat, op: Option<OpReply>)
    | TxnDone(header: nat, succeeded: bool, ops: seq<OpReply>)
    | CompactDone(header: nat)
    | GrantDone(header: nat, id: int, ttl: int)
    | GrantExists(header: nat)
    | RevokeDone(header: nat, found: bool)
    | KeepDone(header: nat, ttls: seq<int>)
    | TickDone(epoch: nat)
    | TermDone

  /** An entry moves to a new state with a reply and the keys it touched, or brings the replica down. */
  datatype Outcome = Next(s: State, reply: Reply, keys: seq<bytes>) | Crash

  datatype Try = Did(s: State, out: Option<OpReply>, keys: seq<bytes>) | Fails(error: OpError)

  // ---- machine words ----

  function U64(x: int): nat { x % UINT64_LIMIT }

  function I64(x: nat): int { if x < INT_LIMIT then x else x - UINT64_LIMIT }

  // ---- put and delete ----

  function LeaseOf(kv: Option<Kv>): nat { if kv.Some? then kv.value.lease else 0 }

  /** The lease_key table after a put; None if the row to delete is not there. */
  function Attach(rows: seq<bytes>, q: PutReq, prev: nat): Option<seq<bytes>> {
    if q.ignoreLease || I64(prev) == q.lease then Some(rows)
    else
      var r := if q.lease > 0 then InsertKey(rows, Row(U64(q.lease), q.key)) else rows;
      if prev == 0 then Some(r)
      else if Row(prev, q.key) in r then Some(Remove(r, Row(prev, q.key))) else None
  }

  function ArgsOf(s: State, rev: nat, sub: nat, q: PutReq): PutArgs {
    PutArgs(rev, sub, U64(q.lease), s.book.epoch, q.key, q.val, q.ignoreValue, q.ignoreLease)
  }

  ghost function CmdPut(s: State, rev: nat, sub: nat, q: PutReq, f: Flags): Try {
    var a := ArgsOf(s, rev, sub, q);
    var prev := Current(s.store.hist, q.key);
    var fails := PutFails(s.store, a, f.multiWrite);
    var rows := Attach(s.rows, q, LeaseOf(prev));
    if fails.Some? then Fails(fails.value)
    else if rows.None? then Fails(NotFound)
    else
      Did(s.(store := Put(s.store, a), rows := rows.value),
          Some(PutReply(if q.prevKv then Some(prev) else None)), [q.key])
  }

  /** The lease_key table after deletions; None if a row to delete is not there. */
  function Detach(rows: seq<bytes>, items: seq<(bytes, KeyRecord)>): Option<seq<bytes>> {
    if items == [] then Some(rows)
    else
      var (k, rec) := items[|items| - 1];
      var r := Detach(rows, items[..|items| - 1]);
      if r.None? || rec.lease == 0 then r
      else if Row(rec.lease, k) in r.value then Some(Remove(r.value, Row(rec.lease, k))) else None
  }

  /** What the deleted keys held, as far as it reads back, and the error of the last read. */
  function PrevReads(h: map<bytes, Versions>, items: seq<(bytes, KeyRecord)>): (seq<Option<Kv>>, Option<Error>) {
    if items == [] then ([], None)
    else
      var (k, rec) := items[|items| - 1];
      var r := ReadWithPrev(Lookup(h, k), rec.rev.upper, false);
      var (prevs, _) := PrevReads(h, items[..|items| - 1]);
      (prevs + [if r.Ok? then r.value.0 else None], if r.Ok? then None else Some(r.error))
  }

  function ItemKeys(items: seq<(bytes, KeyRecord)>): seq<bytes> {
    seq(|items|, i requires 0 <= i < |items| => items[i].0)
  }

  /** What a range deletion reports: an empty key for each, from a list made too long, then the keys. */
  function Reported(items: seq<(bytes, KeyRecord)>): seq<bytes> {
    seq(|items|, _ => []) + ItemKeys(items)
  }

  ghost function CmdDeleteRange(s: State, rev: nat, sub: nat, q: DeleteReq, f: Flags): Try {
    var ks := DeleteKeys(s.store.keys, q.key, q.end);
    var items := Doomed(s.store, ks);
    var store := DeleteRange(s.store, s.book.epoch, q.key, q.end, Rev(rev, sub, true));
    var rows := Detach(s.rows, items);
    var (prevs, err) := if q.prevKv then PrevReads(store.hist, items) else ([], None);
    if !f.multiWrite && WrittenAt(s.store, ks, rev) then Fails(DuplicateKey)
    else if rows.None? then Fails(NotFound)
    else if err.Some? then Fails(Storage(err.value))
    else Did(s.(store := store, rows := rows.value), Some(DeleteReply(|items|, prevs)), Reported(items))
  }

  // ---- transactions ----

  function QueryRange(s: State, rev: nat, q: RangeReq, f: Flags): Result<RangeResult, OpError> {
    if q.revision > 0 && q.revision < s.revMin then Err(Compacted)
    else if q.revision > rev then Err(FutureRev)
    else
      var r := RangeOf(s.store.hist, s.store.keys, q, f);
      if r.Err? then Err(Storage(r.error))
      else
        var count := if q.countOnly || f.countFull || f.countFake then r.value.count else 0;
        Ok(if q.countOnly then RangeResult([], count, false) else RangeResult(r.value.items, count, r.value.more))
  }

  function IntCompare(relation: Relation, a: int, b: int): bool {
    match relation
    case Equal => a == b
    case Greater => a > b
    case Less => a < b
    case NotEqual => a != b
    case OtherRelation => false
  }

  /** A condition on what a key holds, where a missing key counts as all zeroes. */
  function Holds(c: Compare, item: Option<Kv>): bool {
    var kv := if item.Some? then item.value else Kv(Rev(0, 0, false), 0, 0, 0, [], []);
    match c.target
    case OnVersion(n) => IntCompare(c.relation, I64(kv.version), n)
    case OnCreate(n) => IntCompare(c.relation, I64(kv.created), n)
    case OnMod(n) => IntCompare(c.relation, kv.rev.upper, n)
    case OnLease(n) => IntCompare(c.relation, I64(kv.lease), n)
    case OnOther => true
    case Mismatched => false
    case OnValue(v) =>
      match c.relation
      case Equal => kv.val == v
      case Greater => LexLess(v, kv.val)
      case Less => LexLess(kv.val, v)
      case NotEqual => kv.val != v
      case OtherRelation => true
  }

  /**
   The conditions are read one after the other, up to the first that does not hold. One
   with a mismatched operand is not answered at all.
   */
  function CompareAll(h: map<bytes, Versions>, cs: seq<Compare>): Result<bool, Error> {
    if cs == [] then Ok(true)
    else
      var item := ReadWithPrev(Lookup(h, cs[0].key), 0, false);
      if item.Err? then Err(item.error)
      else if cs[0].target.Mismatched? then Err(BadField)
      else if Holds(cs[0], item.value.0) then CompareAll(h, cs[1..]) else Ok(false)
  }

  ghost function OneOp(s: State, rev: nat, sub: nat, op: TxnOp, f: Flags): Try {
    match op
    case OpPut(q) => CmdPut(s, rev, sub, q, f)
    case OpDelete(q) => CmdDeleteRange(s, rev, sub, q, f)
    case OpRange(q) =>
      var r := QueryRange(s, rev, q, f);
      if r.Err? then Fails(r.error) else Did(s, Some(RangeReply(r.value)), [])
    case OpOther => Did(s, None, [])
  }

  datatype Ops = Ops(s: State, out: seq<OpReply>, keys: seq<bytes>, error: Option<OpError>)

  /** The operations of a transaction, up to the first that fails. */
  ghost function RunOps(s: State, rev: nat, ops: seq<TxnOp>, f: Flags): Ops {
    if ops == [] then Ops(s, [], [], None)
    else
      var n := |ops| - 1;
      var p := RunOps(s, rev, ops[..n], f);
      if p.error.Some? then p
      else
        match OneOp(p.s, rev, n, ops[n], f)
        case Did(t, out, keys) => Ops(t, p.out + if out.Some? then [out.value] else [], p.keys + keys, None)
        case Fails(e) => p.(error := Some(e))
  }

  predicate Answerable(e: OpError) { e == DuplicateKey || e == KeyTooLong || e == EmptyKey }

  /** The revision after a command that touched these keys. */
  function Bump(rev: nat, keys: seq<bytes>): nat { if keys == [] then rev else rev + 1 }

  ghost function ExecTxn(s: State, c: Cmd, f: Flags): Outcome
    requires c.TxnCmd?
  {
    var cond := CompareAll(s.store.hist, c.compare);
    if cond.Err? then Crash
    else
      var r := RunOps(s, s.rev + 1, if cond.value then c.success else c.failure, f);
      var rev := Bump(s.rev, r.keys);
      if r.error.None? then Next(r.s.(rev := rev), TxnDone(rev, cond.value, r.out), r.keys)
      else if Answerable(r.error.value) then Next(s.(rev := rev), Refused(OpRefused(r.error.value)), [])
      else Crash
  }

  ghost function ExecPut(s: State, q: PutReq, f: Flags): Outcome {
    if q.ignoreLease && q.lease != 0 then Next(s, Refused(LeaseProvided), [])
    else if q.ignoreValue && q.val != [] then Next(s, Refused(ValueProvided), [])
    else if q.lease != 0 && U64(q.lease) !in s.book.leases then Next(s, Refused(LeaseNotFound), [])
    else
      match CmdPut(s, s.rev + 1, 0, q, f)
      case Did(t, out, keys) => Next(t.(rev := s.rev + 1), OpDone(s.rev + 1, out), keys)
      case Fails(e) => if e == KeyTooLong || e == EmptyKey then Next(s, Refused(OpRefused(e)), []) else Crash
  }

  ghost function ExecDelete(s: State, q: DeleteReq, f: Flags): Outcome {
    match CmdDeleteRange(s, s.rev + 1, 0, q, f)
    case Did(t, out, keys) => Next(t.(rev := Bump(s.rev, keys)), OpDone(Bump(s.rev, keys), out), keys)
    case Fails(_) => Crash
  }

  ghost function ExecCompact(s: State, max: nat): Outcome {
    if !CanCompact(s.store, max) then Crash
    else
      var t := Compact(s.store, max);
      var gone := s.store.evts[..|s.store.evts| - |t.evts|];
      Next(s.(store := t, revMin := max, revCompacted := LastUpper(gone)), CompactDone(s.rev), [])
  }

  // ---- leases ----

  function IdsAbove(leases: map<nat, Lease>, id: nat): set<nat> {
    set i | i in leases && i > id
  }

  /** The first free id after `id`. */
  function NextLease(leases: map<nat, Lease>, id: nat): (r: nat)
    ensures r > id && r !in leases && forall i | id < i < r :: i in leases
    decreases IdsAbove(leases, id)
  {
    if id + 1 in leases then
      assert id + 1 in IdsAbove(leases, id) && id + 1 !in IdsAbove(leases, id + 1);
      NextLease(leases, id + 1)
    else id + 1
  }

  function Entered(b: Book, id: nat, l: Lease): Book {
    b.(leases := b.leases[id := l], exp := InsertKey(b.exp, ExpRow(l.expires, id)))
  }

  /** The id granted, unless that lease exists, and the leases after that. */
  function Grant(b: Book, id: int, ttl: int): (Option<nat>, Book) {
    var l := Lease(U64(b.epoch + ttl), b.epoch);
    if U64(id) == 0 then
      var n := NextLease(b.leases, b.leaseId);
      (Some(n), Entered(b.(leaseId := n), n, l))
    else if U64(id) in b.leases && b.leases[U64(id)].expires > 0 then (None, b)
    else (Some(U64(id)), Entered(b, U64(id), l))
  }

  ghost function ExecGrant(s: State, id: int, ttl: int): Outcome {
    var (granted, b) := Grant(s.book, id, ttl);
    Next(s.(book := b), if granted.Some? then GrantDone(s.rev, I64(granted.value), ttl) else GrantExists(s.rev), [])
  }

  /** The keys a revocation deletes. */
  function LeaseKeys(s: State, id: nat): seq<bytes> {
    if id in s.book.leases then RowKeys(s.rows, id) else []
  }

  /** A lease leaves its table and the index. */
  function Dropped(b: Book, id: nat): Book
    requires id in b.leases
  {
    b.(leases := b.leases - {id}, exp := Remove(b.exp, ExpRow(b.leases[id].expires, id)))
  }

  /**
   A revocation tombstones the keys of the lease and takes the lease out of all three
   tables; None if one of them lacks what is to be deleted.
   */
  ghost function Revoked(s: State, rev: nat, id: nat): Option<State> {
    if id !in s.book.leases then Some(s)
    else
      var ks := LeaseKeys(s, id);
      if (exists k <- ks :: k !in s.store.hist) || ExpRow(s.book.leases[id].expires, id) !in s.book.exp then None
      else
        Some(s.(store := DeleteAll(s.store, s.book.epoch, ks, Rev(rev, 0, true)),
                rows := RowsWithout(s.rows, id), book := Dropped(s.book, id)))
  }

  ghost function ExecRevoke(s: State, id: nat): Outcome {
    var t := Revoked(s, s.rev + 1, id);
    var keys := LeaseKeys(s, id);
    var rev := Bump(s.rev, keys);
    if t.None? then Crash else Next(t.value.(rev := rev), RevokeDone(rev, id in s.book.leases), keys)
  }

  function Ttl(l: Lease): int { I64(U64(l.expires - l.renewed)) }

  /** A renewal; the entry of the old expiry stays in the index. */
  function Renewed(b: Book, id: nat): Book
    requires id in b.leases
  {
    Entered(b, id, Lease(U64(b.epoch + Ttl(b.leases[id])), b.epoch))
  }

  function KeepAlive(b: Book, ids: seq<int>): (Book, seq<int>) {
    if ids == [] then (b, [])
    else
      var n := |ids| - 1;
      var (c, ttls) := KeepAlive(b, ids[..n]);
      var id := U64(ids[n]);
      if id in c.leases then (Renewed(c, id), ttls + [Ttl(c.leases[id])]) else (c, ttls + [0])
  }

  ghost function ExecKeepAlive(s: State, ids: seq<int>): Outcome {
    var (b, ttls) := KeepAlive(s.book, ids);
    Next(s.(book := b), KeepDone(s.rev, ttls), [])
  }

  /** Revokes the lease of each of these expiry rows, in order. */
  ghost function Expire(s: State, due: seq<bytes>): Outcome
    requires forall row <- due :: |row| >= 9
  {
    if due == [] then Next(s, NoReply, [])
    else
      var n := |due| - 1;
      match Expire(s, due[..n])
      case Crash => Crash
      case Next(t, _, keys) =>
        match ExecRevoke(t, ExpId(due[n]))
        case Crash => Crash
        case Next(u, _, more) => Next(u, NoReply, keys + more)
  }

  function Ticked(b: Book): Book { b.(epoch := b.epoch + 1) }

  ghost function ExecTick(s: State, term: nat): Outcome {
    if s.term > term then Next(s, Refused(TermExpired), [])
    else
      var b := Ticked(s.book);
      match Expire(s.(book := b), Due(b.exp, b.epoch))
      case Crash => Crash
      case Next(u, _, keys) => Next(u, TickDone(b.epoch), keys)
  }

  // ---- entries ----

  ghost function Exec(s: State, c: Cmd, f: Flags): Outcome {
    match c
    case PutCmd(q) => ExecPut(s, q, f)
    case DeleteCmd(q) => ExecDelete(s, q, f)
    case CompactCmd(max) => ExecCompact(s, max)
    case TxnCmd(_, _, _) => ExecTxn(s, c, f)
    case GrantCmd(id, ttl) => ExecGrant(s, id, ttl)
    case RevokeCmd(id) => ExecRevoke(s, U64(id))
    case KeepAliveCmd(id) => ExecKeepAlive(s, [id])
    case KeepAliveBatchCmd(ids) => ExecKeepAlive(s, ids)
    case TickCmd(term) => ExecTick(s, term)
    case TermCmd(term) =>
      if s.term > term then Next(s, Refused(TermExpired), []) else Next(s.(term := term), TermDone, [])
    case Garbled => Next(s, NoReply, [])
  }

  ghost function Step(s: State, e: Entry, f: Flags): Outcome {
    match Exec(s, e.cmd, f)
    case Crash => Crash
    case Next(t, reply, keys) => Next(t.(index := e.index), reply, keys)
  }

  datatype Batch = Batch(s: State, replies: seq<Reply>, keys: seq<bytes>) | Crashed

  /** A run of entries: the state it leads to, the replies, and the keys touched. */
  ghost function Run(s: State, es: seq<Entry>, f: Flags): Batch {
    if es == [] then Batch(s, [], [])
    else
      var n := |es| - 1;
      match Run(s, es[..n], f)
      case Crashed => Crashed
      case Batch(t, replies, keys) =>
        match Step(t, es[n], f)
        case Crash => Crashed
        case Next(u, reply, more) => Batch(u, replies + [reply], keys + more)
  }

  /** How a log is cut into batches does not matter. */
  lemma {:induction false} BatchBoundaries(s: State, p: seq<Entry>, q: seq<Entry>, f: Flags)
    ensures var whole := Run(s, p + q, f);
      match Run(s, p, f)
      case Crashed => whole == Crashed
      case Batch(t, rs, ks) =>
        match Run(t, q, f)
        case Crashed => whole == Crashed
        case Batch(u, rs2, ks2) => whole == Batch(u, rs + rs2, ks + ks2)
  {
    hide Step;
    if q == [] {
      assert p + q == p;
    } else {
      var n := |q| - 1;
      assert (p + q)[..|p| + n] == p + q[..n] && (p + q)[|p| + n] == q[n];
      BatchBoundaries(s, p, q[..n], f);
      if Run(s, p, f).Batch? {
        var a, b := Run(s, p, f), Run(Run(s, p, f).s, q[..n], f);
        if b.Batch? && Step(b.s, q[n], f).Next? {
          var u := Step(b.s, q[n], f);
          assert (a.replies + b.replies) + [u.reply] == a.replies + (b.replies + [u.reply]);
          assert (a.keys + b.keys) + u.keys == a.keys + (b.keys + u.keys);
        }
      }
    }
  }
}
