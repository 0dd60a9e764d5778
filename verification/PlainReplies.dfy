/** The reply to every command, told from the plain machine alone. */
module PlainReplies {
  import opened Base
  import opened KeyRev
  import opened KvCodec
  import opened History
  import opened LeaseTables
  import opened DbKvs
  import opened Ranges
  import opened Machine
  import opened Invariants
  import opened Snapshots
  import opened LeaseLaws
  import opened LeaseBooks
  import opened Growth
  import opened PlainTables
  import opened PlainMachine
  import opened PlainAnswers

  // ---- deletions ----

  /** The keys of the set in byte order. */
  ghost predicate InOrder(ks: seq<bytes>, s: set<bytes>) {
    SortedKeys(ks) && |ks| == |s| && forall k :: k in ks <==> k in s
  }

  /**
   What is shown of a deleted pair: nothing if it is too short to read back, or was written
   under the revision that deletes it.
   */
  function Former(kv: Kv, rev: nat): Option<Kv> {
    if Short(kv) || kv.rev.upper == rev then None else Some(kv)
  }

  /** The keys are counted, and shown if asked for. */
  ghost predicate DeleteAnswer(m: Pairs, rev: nat, q: DeleteReq, r: OpReply) {
    && r.DeleteReply? && r.deleted == |Reached(m, q)|
    && exists ks: seq<bytes> :: InOrder(ks, Reached(m, q)) && ShowsFormer(m, rev, ks, q.prevKv, r.prevs)
  }

  ghost predicate ShowsFormer(m: Pairs, rev: nat, ks: seq<bytes>, prevKv: bool, prevs: seq<Option<Kv>>) {
    if !prevKv then prevs == []
    else |prevs| == |ks| && forall i | 0 <= i < |ks| :: ks[i] in m && prevs[i] == Former(m[ks[i]], rev)
  }

  /** Revision 0 means now, so no pair must bear it. */
  ghost predicate Dated(m: Pairs) { forall k <- m :: m[k].rev.upper > 0 }

  lemma {:induction false} SortedSize(ks: seq<bytes>)
    requires SortedKeys(ks)
    ensures |set k | k in ks| == |ks|
  {
    if ks == [] {
      assert (set k | k in ks) == {};
    } else {
      var n := |ks| - 1;
      LastIsNew(ks);
      SortedSize(ks[..n]);
      assert ks == ks[..n] + [ks[n]];
      assert (set k | k in ks) == (set k | k in ks[..n]) + {ks[n]};
    }
  }

  /** Every key of ks is below k. */
  ghost predicate AllBelow(ks: seq<bytes>, k: bytes) { forall x <- ks :: LexLess(x, k) }

  lemma SortedSnoc(ks: seq<bytes>, k: bytes)
    requires SortedKeys(ks) && AllBelow(ks, k)
    ensures SortedKeys(ks + [k])
  {
    hide LexLess;
  }

  lemma SortedBelow(ks: seq<bytes>)
    requires SortedKeys(ks) && ks != []
    ensures SortedKeys(ks[..|ks| - 1]) && AllBelow(ks[..|ks| - 1], ks[|ks| - 1])
  {
    hide LexLess;
  }

  lemma {:induction false} DeleteKeysSorted(ks: seq<bytes>, key: bytes, end: bytes)
    requires SortedKeys(ks)
    ensures SortedKeys(DeleteKeys(ks, key, end))
  {
    hide SortedKeys, InDeleteRange, LexLess;
    if ks == [] {
      NothingSorted();
    } else {
      var n := |ks| - 1;
      SortedBelow(ks);
      DeleteKeysSorted(ks[..n], key, end);
      var r := DeleteKeys(ks[..n], key, end);
      if InDeleteRange(ks[n], key, end) { SortedSnoc(r, ks[n]); } else { assert r + [] == r; }
    }
  }

  lemma NothingSorted()
    ensures SortedKeys([])
  {}

  lemma {:induction false} DoomedSorted(s: Store, ks: seq<bytes>)
    requires SortedKeys(ks)
    ensures SortedKeys(ItemKeys(Doomed(s, ks)))
    ensures forall k :: k in ItemKeys(Doomed(s, ks)) ==> k in ks
  {
    hide SortedKeys, LexLess, Lookup, Doomed;
    if ks == [] {
      NothingDoomed(s);
      NothingSorted();
    } else {
      var n := |ks| - 1;
      SortedBelow(ks);
      DoomedSorted(s, ks[..n]);
      assert ks == ks[..n] + [ks[n]];
      DoomedSnoc(s, ks[..n], ks[n]);
      var items := Doomed(s, ks[..n]);
      if Doomed(s, ks) != items {
        ItemKeysSnoc(items, Doomed(s, ks)[|items|]);
        SortedSnoc(ItemKeys(items), ks[n]);
      }
    }
  }

  lemma NothingDoomed(s: Store)
    ensures ItemKeys(Doomed(s, [])) == []
  {}

  lemma ItemKeysSnoc(items: seq<(bytes, KeyRecord)>, it: (bytes, KeyRecord))
    ensures ItemKeys(items + [it]) == ItemKeys(items) + [it.0]
  {}

  lemma InItemKeys(items: seq<(bytes, KeyRecord)>, k: bytes)
    ensures k in ItemKeys(items) <==> exists it <- items :: it.0 == k
  {
    if k in ItemKeys(items) {
      var i :| 0 <= i < |items| && ItemKeys(items)[i] == k;
      assert items[i] in items;
    }
    if it :| it in items && it.0 == k {
      var i :| 0 <= i < |items| && items[i] == it;
      assert ItemKeys(items)[i] == k;
    }
  }

  /** A deletion reports the keys it reaches, in byte order. */
  lemma ItemsReached(s: Store, q: DeleteReq)
    requires SortedKeys(s.keys) && forall k :: k in s.keys <==> k in s.hist
    ensures InOrder(ItemKeys(Doomed(s, DeleteKeys(s.keys, q.key, q.end))), Reached(SnapshotAt(s.hist, 0), q))
  {
    var ks := DeleteKeys(s.keys, q.key, q.end);
    var items, gone := Doomed(s, ks), Reached(SnapshotAt(s.hist, 0), q);
    hide SortedKeys, DeleteKeys, Doomed, Reached, SnapshotAt, ItemKeys, Current;
    DeleteKeysSorted(s.keys, q.key, q.end);
    DoomedSorted(s, ks);
    forall k ensures k in ItemKeys(items) <==> k in gone { ItemReached(s, q, k); }
    SortedSize(ItemKeys(items));
    assert (set k | k in ItemKeys(items)) == gone;
  }

  lemma ItemReached(s: Store, q: DeleteReq, k: bytes)
    requires forall x :: x in s.keys <==> x in s.hist
    ensures k in ItemKeys(Doomed(s, DeleteKeys(s.keys, q.key, q.end))) <==> k in Reached(SnapshotAt(s.hist, 0), q)
  {
    var ks := DeleteKeys(s.keys, q.key, q.end);
    hide DeleteKeys, Doomed, Reached, SnapshotAt, ItemKeys, Current;
    ReachedKeys(s, q, k);
    HeadCurrent(s.hist, k);
    InItemKeys(Doomed(s, ks), k);
    if k in ItemKeys(Doomed(s, ks)) {
      var it :| it in Doomed(s, ks) && it.0 == k;
      assert it == (k, it.1);
      DoomedItems(s, ks, k, it.1);
    }
    if k in Reached(SnapshotAt(s.hist, 0), q) {
      DoomedItems(s, ks, k, KeyRecord(s.hist[k][0].kv.rev, s.hist[k][0].recLease));
    }
  }

  lemma {:induction false} PrevReadsAt(h: map<bytes, Versions>, items: seq<(bytes, KeyRecord)>)
    ensures |PrevReads(h, items).0| == |items|
    ensures forall i | 0 <= i < |items| ::
      PrevReads(h, items).0[i] ==
        var r := ReadWithPrev(Lookup(h, items[i].0), items[i].1.rev.upper, false);
        if r.Ok? then r.value.0 else None
  {
    hide ReadWithPrev, Lookup;
    if items != [] {
      var n := |items| - 1;
      PrevReadsAt(h, items[..n]);
      forall i | 0 <= i < n ensures items[..n][i] == items[i] {}
    }
  }

  /** Under its tombstone a pair reads back as it was, unless the tombstone has its very revision. */
  lemma FormerReads(vs: Versions, tomb: Rev)
    requires vs != [] && vs[0].Live? && 0 < RevOf(vs[0]).upper <= tomb.upper
    ensures var r := ReadWithPrev([Tomb(tomb)] + vs, vs[0].kv.rev.upper, false);
      (if r.Ok? then r.value.0 else None) == Former(vs[0].kv, tomb.upper)
  {
    hide Short;
    var v: Version := Tomb(tomb);
    var ws, r := [v] + vs, vs[0].kv.rev.upper;
    assert ws[0] == v && ws[1..] == vs;
    assert ReadAt(ws, r, false) == if tomb.upper > r then ReadAt(vs, r, false) else Ok(None);
  }

  lemma HeadAtMost(s: Store, k: bytes, rev: nat, sub: nat)
    requires AllOlder(s, Rev(rev, sub, false)) && Lookup(s.hist, k) != []
    ensures RevOf(Lookup(s.hist, k)[0]).upper <= rev
  {
    assert s.hist[k][0] in s.hist[k] && Older(RevOf(s.hist[k][0]), Rev(rev, sub, false));
  }

  lemma ItemFormer(s: Store, epoch: nat, ks: seq<bytes>, rev: nat, sub: nat, k: bytes, rec: KeyRecord)
    requires Distinct(ks) && AllOlder(s, Rev(rev, sub, false)) && Dated(SnapshotAt(s.hist, 0))
    requires (k, rec) in Doomed(s, ks)
    ensures var h := DeleteAll(s, epoch, ks, Rev(rev, sub, true)).hist;
      var r := ReadWithPrev(Lookup(h, k), rec.rev.upper, false);
      k in SnapshotAt(s.hist, 0) &&
      (if r.Ok? then r.value.0 else None) == Former(SnapshotAt(s.hist, 0)[k], rev)
  {
    hide AllOlder, Doomed, DeleteAll, Current, Distinct, ReadWithPrev, Lookup, SnapshotAt, Former;
    var tomb := Rev(rev, sub, true);
    DoomedItems(s, ks, k, rec);
    HeadCurrent(s.hist, k);
    FindCurrent(s.hist, k);
    HeadAtMost(s, k, rev, sub);
    DeleteAllHist(s, epoch, ks, tomb, k);
    FormerReads(Lookup(s.hist, k), tomb);
  }

  lemma DeleteShowsFormer(s: Store, epoch: nat, q: DeleteReq, rev: nat, sub: nat)
    requires Good(s) && AllOlder(s, Rev(rev, sub, false)) && Dated(SnapshotAt(s.hist, 0))
    ensures var items := Doomed(s, DeleteKeys(s.keys, q.key, q.end));
      var h := DeleteRange(s, epoch, q.key, q.end, Rev(rev, sub, true)).hist;
      ShowsFormer(SnapshotAt(s.hist, 0), rev, ItemKeys(items), true, PrevReads(h, items).0)
  {
    hide Good, AllOlder, Doomed, DeleteKeys, DeleteAll, SnapshotAt, PrevReads, ReadWithPrev, Lookup, Former;
    hide Distinct, SortedKeys, Dated;
    GoodKeys(s);
    var ks := DeleteKeys(s.keys, q.key, q.end);
    var items := Doomed(s, ks);
    DeleteKeysDistinct(s.keys, q.key, q.end);
    PrevReadsAt(DeleteAll(s, epoch, ks, Rev(rev, sub, true)).hist, items);
    forall i | 0 <= i < |items|
      ensures items[i].0 in SnapshotAt(s.hist, 0)
      ensures PrevReads(DeleteAll(s, epoch, ks, Rev(rev, sub, true)).hist, items).0[i] ==
        Former(SnapshotAt(s.hist, 0)[items[i].0], rev)
    {
      assert items[i] == (items[i].0, items[i].1) && items[i] in items;
      ItemFormer(s, epoch, ks, rev, sub, items[i].0, items[i].1);
    }
  }

  /** A deletion that is done counts what it reaches and shows what that was. */
  lemma DeleteAnswers(s: State, rev: nat, sub: nat, q: DeleteReq, f: Flags)
    requires Good(s.store) && AllOlder(s.store, Rev(rev, sub, false)) && Dated(TableOf(s).m)
    requires CmdDeleteRange(s, rev, sub, q, f).Did?
    ensures var out := CmdDeleteRange(s, rev, sub, q, f).out;
      out.Some? && DeleteAnswer(TableOf(s).m, rev, q, out.value)
  {
    hide Good, AllOlder, Doomed, DeleteKeys, DeleteRange, SnapshotAt, PrevReads, Detach, WrittenAt, SortedKeys;
    hide Reached, Dated, ShowsFormer, NamedIn, ClaimsIn, Reported;
    GoodKeys(s.store);
    ItemsReached(s.store, q);
    var items := Doomed(s.store, DeleteKeys(s.store.keys, q.key, q.end));
    DeleteShowsFormer(s.store, s.book.epoch, q, rev, sub);
    ShowsNone(TableOf(s).m, rev, ItemKeys(items));
    hide InOrder;
    assert |ItemKeys(items)| == |items|;
  }

  /** It reports those keys to the watchers, behind as many empty ones. */
  lemma DeleteTouches(s: State, rev: nat, sub: nat, q: DeleteReq, f: Flags) returns (ks: seq<bytes>)
    requires Good(s.store) && CmdDeleteRange(s, rev, sub, q, f).Did?
    ensures InOrder(ks, Reached(TableOf(s).m, q))
    ensures CmdDeleteRange(s, rev, sub, q, f).keys == seq(|ks|, _ => []) + ks
  {
    hide Good, Doomed, DeleteKeys, DeleteRange, SnapshotAt, PrevReads, Detach, WrittenAt, SortedKeys;
    hide Reached, NamedIn, ClaimsIn, InOrder;
    GoodKeys(s.store);
    ItemsReached(s.store, q);
    ks := ItemKeys(Doomed(s.store, DeleteKeys(s.store.keys, q.key, q.end)));
  }

  lemma ShowsNone(m: Pairs, rev: nat, ks: seq<bytes>)
    ensures ShowsFormer(m, rev, ks, false, [])
  {}

  // ---- one operation ----

  /** A put shows what it replaces, if asked for. */
  function PutAnswer(m: Pairs, q: PutReq): OpReply {
    PutReply(if q.prevKv then Some(Find(m, q.key)) else None)
  }

  /**
   The map a range within a transaction is answered from: what the operations before it made of
   the table if it asks for now or for the revision to come, and otherwise that of its revision.
   */
  ghost predicate ReadsFrom(p: Plain, m: Pairs, r: nat, source: Pairs) {
    if r == 0 || r == p.rev + 1 then source == m else r in p.past && source == Source(p, r)
  }

  /** The reply to one operation of a transaction that finds the pairs m. */
  ghost predicate OpAnswer(p: Plain, m: Pairs, op: TxnOp, f: Flags, r: OpReply) {
    match op
    case OpPut(q) => r == PutAnswer(m, q)
    case OpDelete(q) => DeleteAnswer(m, p.rev + 1, q, r)
    case OpRange(q) =>
      r.RangeReply? && exists source: Pairs :: ReadsFrom(p, m, q.revision, source) && Replied(source, q, f, r.range)
    case OpOther => false
  }

  /** One reply for each operation but those of another kind, in order. */
  ghost predicate AllAnswered(p: Plain, ops: seq<TxnOp>, f: Flags, out: seq<OpReply>)
    decreases |ops|
  {
    if ops == [] then out == []
    else
      var n := |ops| - 1;
      var m := PlainRunOps(p.tab, p.rev + 1, ops[..n], f.multiWrite).t.m;
      if ops[n].OpOther? then AllAnswered(p, ops[..n], f, out)
      else
        && out != [] && AllAnswered(p, ops[..n], f, out[..|out| - 1])
        && OpAnswer(p, m, ops[n], f, out[|out| - 1])
  }

  lemma PutAnswers(s: State, rev: nat, sub: nat, q: PutReq, f: Flags)
    requires CmdPut(s, rev, sub, q, f).Did?
    ensures CmdPut(s, rev, sub, q, f).out == Some(PutAnswer(TableOf(s).m, q))
  {
    hide SnapshotAt, NamedIn, ClaimsIn, Current, PutFails, Attach, Put;
    FindCurrent(s.store.hist, q.key);
  }

  lemma RangeAnswers(s: State, rev: nat, q: RangeReq, f: Flags)
    requires Good(s.store) && QueryRange(s, rev, q, f).Ok?
    ensures Replied(SnapshotAt(s.store.hist, q.revision), q, f, QueryRange(s, rev, q, f).value)
  {
    hide Good, SnapshotAt, RangeOf, Picks, Selects, Ranged, Stuck, SortedKeys, Replied;
    GoodKeys(s.store);
    RangeConcludes(s.store.hist, s.store.keys, q, f);
    QueryReplies(s, rev, q, f, SnapshotAt(s.store.hist, q.revision), Picks(s.store.hist, s.store.keys, q));
  }

  /** Within a transaction, what a revision shows. */
  lemma ReadsWithin(s: State, p: Plain, t: State, r: nat)
    requires Follows(s, p) && SamePast(s.store.hist, t.store.hist, s.rev) && r <= s.rev + 1
    requires AllOlder(t.store, Rev(s.rev + 2, 0, false))
    ensures ReadsFrom(p, TableOf(t).m, r, SnapshotAt(t.store.hist, r))
  {
    hide SnapshotAt, AllOlder, Source, Follows, TableOf;
    TablePairs(t);
    if r == s.rev + 1 {
      SnapshotNow(t.store, r);
    } else if r > 0 {
      SourceIs(s, p, r);
    }
    FollowsFloor(s, p);
  }

  /** The operation runs within a transaction on s, on the state t. */
  ghost predicate Amid(s: State, t: State, n: nat) {
    && Good(t.store) && AllOlder(t.store, Rev(s.rev + 1, n, false)) && n <= LOWER_LIMIT && Dated(TableOf(t).m)
    && SamePast(s.store.hist, t.store.hist, s.rev)
  }

  lemma OlderStill(s: Store, rev: nat, n: nat)
    requires AllOlder(s, Rev(rev, n, false))
    ensures AllOlder(s, Rev(rev + 1, 0, false))
  {
    forall k, v | k in s.hist && v in s.hist[k] ensures Older(RevOf(v), Rev(rev + 1, 0, false)) {
      assert Older(RevOf(v), Rev(rev, n, false));
    }
    forall e | e in s.evts ensures Older(e.rev, Rev(rev + 1, 0, false)) {
      assert Older(e.rev, Rev(rev, n, false));
    }
  }

  lemma OpAnswers(s: State, p: Plain, t: State, n: nat, op: TxnOp, f: Flags)
    requires Follows(s, p) && Amid(s, t, n) && OneOp(t, s.rev + 1, n, op, f).Did?
    ensures var out := OneOp(t, s.rev + 1, n, op, f).out;
      if op.OpOther? then out == None else out.Some? && OpAnswer(p, TableOf(t).m, op, f, out.value)
  {
    hide Good, AllOlder, Dated, TableOf, SamePast, CmdPut, CmdDeleteRange, QueryRange, PutAnswer, DeleteAnswer, Replied;
    hide ReadsFrom, Follows;
    FollowsFloor(s, p);
    match op
    case OpPut(q) => PutAnswers(t, s.rev + 1, n, q, f);
    case OpDelete(q) => DeleteAnswers(t, s.rev + 1, n, q, f);
    case OpRange(q) =>
      OlderStill(t.store, s.rev + 1, n);
      RangeAnswers(t, s.rev + 1, q, f);
      RangeInTime(t, s.rev + 1, q, f);
      ReadsWithin(s, p, t, q.revision);
    case OpOther =>
  }

  lemma RangeInTime(s: State, rev: nat, q: RangeReq, f: Flags)
    requires QueryRange(s, rev, q, f).Ok?
    ensures q.revision <= rev
  {
    hide RangeOf;
  }

  // ---- transactions ----

  /** Every pair was written after the first revision. */
  lemma TableDated(s: State, p: Plain)
    requires Inv(s) && Follows(s, p)
    ensures Dated(TableOf(s).m)
  {
    hide Inv, Follows, SnapshotAt, Seen, TableOf, AllOlder, Good;
    var h := s.store.hist;
    FollowsPast(s, p);
    InvOlder(s);
    TablePairs(s);
    SnapshotNow(s.store, s.rev);
    forall k | k in SnapshotAt(h, 0) ensures SnapshotAt(h, 0)[k].rev.upper > 0 {
      if SnapshotAt(h, s.rev)[k].rev.upper == 0 {
        EarlierPair(h, 1, s.rev, k);
        SeenWithin(p.past, p.floor, 1, k);
      }
    }
  }

  lemma FollowsPast(s: State, p: Plain)
    requires Follows(s, p)
    ensures 0 < s.rev && 1 in p.past && p.past[1] == map[]
    ensures SnapshotAt(s.store.hist, 1) == Seen(p.past, p.floor, 1)
  {
    hide SnapshotAt, Seen, Steady, Tidy, TableOf;
  }

  lemma {:induction false} OpsDated(t: Table, rev: nat, ops: seq<TxnOp>, multiWrite: bool)
    requires Dated(t.m) && rev > 0
    ensures Dated(PlainRunOps(t, rev, ops, multiWrite).t.m)
  {
    hide Reached, PutClaims, ClaimsOf;
    if ops != [] { OpsDated(t, rev, ops[..|ops| - 1], multiWrite); }
  }

  lemma OpsTable(s: State, p: Plain, ops: seq<TxnOp>, f: Flags)
    requires Inv(s) && Room(s) && Follows(s, p) && OpsOk(ops) && RunOps(s, s.rev + 1, ops, f).error.None?
    ensures TableOf(RunOps(s, s.rev + 1, ops, f).s) == PlainRunOps(p.tab, p.rev + 1, ops, f.multiWrite).t
  {
    hide Inv, Core, Follows, RunOps, PlainRunOps, TableOf, OpsAgree, OpsOk;
    InvCore(s);
    FollowsTable(s, p);
    RunOpsAgree(s, s.rev + 1, ops, f);
    OpsAgreeing(RunOps(s, s.rev + 1, ops, f), PlainRunOps(p.tab, p.rev + 1, ops, f.multiWrite));
  }

  lemma AmidOps(s: State, p: Plain, ops: seq<TxnOp>, f: Flags)
    requires Inv(s) && Room(s) && Follows(s, p) && OpsOk(ops) && RunOps(s, s.rev + 1, ops, f).error.None?
    ensures Amid(s, RunOps(s, s.rev + 1, ops, f).s, |ops|)
    ensures TableOf(RunOps(s, s.rev + 1, ops, f).s) == PlainRunOps(p.tab, p.rev + 1, ops, f.multiWrite).t
  {
    hide Inv, Core, Follows, RunOps, PlainRunOps, TableOf, SamePast, Dated, OpsOk, Good, AllOlder;
    InvCore(s);
    FollowsTable(s, p);
    OpsTable(s, p, ops, f);
    RunOpsKeeps(s, s.rev + 1, ops, f);
    RunOpsPast(s, s.rev, ops, f);
    TableDated(s, p);
    OpsDated(p.tab, p.rev + 1, ops, f.multiWrite);
    OpsShort(ops);
    CoreParts(RunOps(s, s.rev + 1, ops, f).s, Rev(s.rev + 1, |ops|, false));
  }

  lemma CoreParts(s: State, next: Rev)
    requires Core(s, next)
    ensures Good(s.store) && AllOlder(s.store, next)
  {}

  lemma InvCore(s: State)
    requires Inv(s)
    ensures Core(s, Rev(s.rev + 1, 0, false))
  {}

  lemma OpsShort(ops: seq<TxnOp>)
    requires OpsOk(ops)
    ensures |ops| <= LOWER_LIMIT && forall i | 0 <= i <= |ops| :: OpsOk(ops[..i])
  {}

  lemma FollowsTable(s: State, p: Plain)
    requires Follows(s, p)
    ensures p.tab == TableOf(s) && p.rev == s.rev
  {}

  lemma {:induction false} OpsAnswers(s: State, p: Plain, ops: seq<TxnOp>, f: Flags)
    requires Inv(s) && Room(s) && Follows(s, p) && OpsOk(ops) && RunOps(s, s.rev + 1, ops, f).error.None?
    ensures AllAnswered(p, ops, f, RunOps(s, s.rev + 1, ops, f).out)
  {
    hide Inv, Room, Follows, OpsOk, TableOf, PlainRunOps, OneOp, OpAnswer, Amid;
    if ops != [] {
      var n := |ops| - 1;
      OpsShort(ops);
      OpsAnswers(s, p, ops[..n], f);
      AmidOps(s, p, ops[..n], f);
      var r := RunOps(s, s.rev + 1, ops[..n], f);
      OpAnswers(s, p, r.s, n, ops[n], f);
      var out := RunOps(s, s.rev + 1, ops, f).out;
      if ops[n].OpOther? {
        assert out == r.out;
      } else {
        assert out[..|out| - 1] == r.out;
      }
    }
  }

  /** A transaction reports whether all its conditions hold, and answers its operations in order. */
  ghost predicate TxnAnswer(p: Plain, c: Cmd, f: Flags, reply: Reply)
    requires c.TxnCmd?
  {
    var r := PlainRunOps(p.tab, p.rev + 1, Branch(p, c), f.multiWrite);
    if r.error.Some? then reply == Refused(OpRefused(r.error.value))
    else
      && reply.TxnDone? && reply.header == (if r.touched then p.rev + 1 else p.rev)
      && (reply.succeeded <==> AllHold(p.tab.m, c.compare)) && AllAnswered(p, Branch(p, c), f, reply.ops)
  }

  lemma TxnReplyShape(s: State, c: Cmd, f: Flags)
    requires c.TxnCmd? && ExecTxn(s, c, f).Next? && ExecTxn(s, c, f).reply.TxnDone?
    ensures CompareAll(s.store.hist, c.compare).Ok?
    ensures var cond := CompareAll(s.store.hist, c.compare).value;
      var r, out := RunOps(s, s.rev + 1, if cond then c.success else c.failure, f), ExecTxn(s, c, f);
      r.error.None? && out.reply == TxnDone(out.s.rev, cond, r.out)
  {
    hide RunOps, CompareAll;
  }

  lemma TxnAnswers(s: State, p: Plain, c: Cmd, f: Flags)
    requires Inv(s) && Room(s) && Follows(s, p) && c.TxnCmd? && CmdOk(c) && ExecTxn(s, c, f).Next?
    ensures TxnAnswer(p, c, f, ExecTxn(s, c, f).reply)
  {
    hide Inv, Room, Follows, ExecTxn, RunOps, CompareAll, PlainRunOps, AllAnswered, AllHold, OpsOk, TableOf, SnapshotAt;
    FollowsTable(s, p);
    TablePairs(s);
    TxnOnPlain(s, p, c, f);
    if ExecTxn(s, c, f).reply.TxnDone? {
      TxnReplyShape(s, c, f);
      CompareAgrees(s.store.hist, c.compare);
      OpsAnswers(s, p, Branch(p, c), f);
    }
  }

  // ---- commands ----

  /** A put is refused, or answered at the revision it makes. */
  ghost predicate PutCmdAnswer(p: Plain, q: PutReq, reply: Reply) {
    if q.ignoreLease && q.lease != 0 then reply == Refused(LeaseProvided)
    else if q.ignoreValue && q.val != [] then reply == Refused(ValueProvided)
    else if q.lease != 0 && U64(q.lease) !in p.book.leases then reply == Refused(LeaseNotFound)
    else if q.key == [] then reply == Refused(OpRefused(EmptyKey))
    else if |q.key| > KEY_LIMIT then reply == Refused(OpRefused(KeyTooLong))
    else reply == OpDone(p.rev + 1, Some(PutAnswer(p.tab.m, q)))
  }

  lemma PutCmdAnswers(s: State, p: Plain, q: PutReq, f: Flags)
    requires Follows(s, p) && ExecPut(s, q, f).Next?
    ensures PutCmdAnswer(p, q, ExecPut(s, q, f).reply)
  {
    hide Follows, TableOf, PutAnswer, CmdPut;
    FollowsTable(s, p);
    FollowsBook(s, p);
    var r := CmdPut(s, s.rev + 1, 0, q, f);
    PutKeyChecks(s, s.rev + 1, 0, q, f);
    if r.Did? { PutAnswers(s, s.rev + 1, 0, q, f); }
  }

  lemma PutKeyChecks(s: State, rev: nat, sub: nat, q: PutReq, f: Flags)
    ensures var r := CmdPut(s, rev, sub, q, f);
      && (q.key == [] <==> r == Fails(EmptyKey))
      && (|q.key| > KEY_LIMIT <==> r == Fails(KeyTooLong))
  {
    hide Current, Attach, Put, Short;
  }

  /** Whether a deletion made a revision. */
  ghost predicate DeleteCmdAnswer(p: Plain, q: DeleteReq, reply: Reply) {
    && reply.OpDone? && reply.header == (if Reached(p.tab.m, q) == {} then p.rev else p.rev + 1)
    && reply.op.Some? && DeleteAnswer(p.tab.m, p.rev + 1, q, reply.op.value)
  }

  lemma DeleteReplyShape(s: State, q: DeleteReq, f: Flags)
    requires ExecDelete(s, q, f).Next?
    ensures var r := CmdDeleteRange(s, s.rev + 1, 0, q, f);
      r.Did? && ExecDelete(s, q, f).reply == OpDone(if r.keys == [] then s.rev else s.rev + 1, r.out)
  {
    hide CmdDeleteRange;
  }

  lemma DeleteCmdAnswers(s: State, p: Plain, q: DeleteReq, f: Flags)
    requires Inv(s) && Follows(s, p) && ExecDelete(s, q, f).Next?
    ensures DeleteCmdAnswer(p, q, ExecDelete(s, q, f).reply)
  {
    hide Inv, Follows, TableOf, CmdDeleteRange, DeleteAnswer, Good, AllOlder, RowsOk, Reached, PlainDelete;
    hide ExecDelete, Dated;
    FollowsTable(s, p);
    InvOlder(s);
    InvRows(s);
    TableDated(s, p);
    DeleteReplyShape(s, q, f);
    DeleteAnswers(s, s.rev + 1, 0, q, f);
    PlainDeleteAgrees(s, s.rev + 1, 0, q, f);
  }

  /** The count, and the pairs in the order of the keys, but for those too short to read back. */
  ghost predicate ShowsDeleted(m: Pairs, ks: seq<bytes>, q: DeleteReq, reply: Reply)
    requires forall k <- ks :: k in m
  {
    && reply.OpDone? && reply.op.Some? && reply.op.value.DeleteReply? && reply.op.value.deleted == |ks|
    && reply.op.value.prevs ==
      if q.prevKv then seq(|ks|, i requires 0 <= i < |ks| => if Short(m[ks[i]]) then None else Some(m[ks[i]])) else []
  }

  /**
   So a deletion counts the keys it reaches, and if asked shows their pairs as they were. Nothing
   is missing but what is too short to read back.
   */
  lemma DeletionShown(s: State, p: Plain, q: DeleteReq, f: Flags) returns (ks: seq<bytes>)
    requires Inv(s) && Follows(s, p) && Exec(s, DeleteCmd(q), f).Next?
    ensures InOrder(ks, Reached(p.tab.m, q)) && (forall k <- ks :: k in p.tab.m)
    ensures ShowsDeleted(p.tab.m, ks, q, Exec(s, DeleteCmd(q), f).reply)
  {
    hide Inv, Follows, TableOf, ExecDelete, Short, SortedKeys, Reached;
    FollowsTable(s, p);
    DeleteCmdAnswers(s, p, q, f);
    NoneFromLater(s, p);
    ReachedThere(p.tab.m, q);
    var reply := ExecDelete(s, q, f).reply;
    ks :| InOrder(ks, Reached(p.tab.m, q)) && ShowsFormer(p.tab.m, p.rev + 1, ks, q.prevKv, reply.op.value.prevs);
    FormerShown(p.tab.m, p.rev, ks, q, reply);
    hide ShowsDeleted;
  }

  lemma FormerShown(m: Pairs, rev: nat, ks: seq<bytes>, q: DeleteReq, reply: Reply)
    requires (forall k <- ks :: k in m) && (forall k <- m :: m[k].rev.upper <= rev)
    requires reply.OpDone? && reply.op.Some? && reply.op.value.DeleteReply? && reply.op.value.deleted == |ks|
    requires ShowsFormer(m, rev + 1, ks, q.prevKv, reply.op.value.prevs)
    ensures ShowsDeleted(m, ks, q, reply)
  {
    hide Short;
  }

  lemma ReachedThere(m: Pairs, q: DeleteReq)
    ensures forall k <- Reached(m, q) :: k in m
  {}

  lemma NoneFromLater(s: State, p: Plain)
    requires Inv(s) && Follows(s, p)
    ensures forall k <- p.tab.m :: p.tab.m[k].rev.upper <= p.rev
  {
    hide Inv, Follows, TableOf, SnapshotAt, Seen, AllOlder, Good;
    FollowsTable(s, p);
    FollowsPast(s, p);
    InvOlder(s);
    TablePairs(s);
    SnapshotNow(s.store, s.rev);
    forall k | k in p.tab.m ensures p.tab.m[k].rev.upper <= p.rev { PairAge(s.store.hist, s.rev, k); }
  }

  /** The id a grant hands out: the one asked for, or the first free one after the last handed out so. */
  predicate GrantedId(b: Book, id: int, n: nat) {
    if U64(id) != 0 then n == U64(id)
    else n > b.leaseId && n !in b.leases && forall m | b.leaseId < m < n :: m in b.leases
  }

  ghost predicate GrantAnswer(p: Plain, id: int, ttl: int, reply: Reply) {
    if InUse(p.book, U64(id)) then reply == GrantExists(p.rev)
    else exists n: nat :: GrantedId(p.book, id, n) && reply == GrantDone(p.rev, I64(n), ttl)
  }

  lemma GrantAnswers(s: State, p: Plain, id: int, ttl: int, f: Flags)
    requires Inv(s) && Follows(s, p)
    ensures Exec(s, GrantCmd(id, ttl), f).Next? && GrantAnswer(p, id, ttl, Exec(s, GrantCmd(id, ttl), f).reply)
  {
    hide Inv, Follows, TableOf, Leasing, Entered, NextLease, U64, I64, Exec;
    FollowsTable(s, p);
    FollowsBook(s, p);
    InvBook(s);
    ExecGrants(s, id, ttl, f);
    var n := if U64(id) != 0 then U64(id) else NextLease(s.book.leases, s.book.leaseId);
    assert GrantedId(p.book, id, n);
  }

  /** A revocation is answered at the revision it leaves. */
  ghost predicate RevokeAnswer(p: Plain, id: nat, reply: Reply) {
    var found := id in p.book.leases;
    reply == RevokeDone(if found && ClaimedBy(p.tab.claims, id) != {} then p.rev + 1 else p.rev, found)
  }

  lemma RevokeAnswers(s: State, p: Plain, id: nat)
    requires Inv(s) && Follows(s, p) && ExecRevoke(s, id).Next?
    ensures RevokeAnswer(p, id, ExecRevoke(s, id).reply)
  {
    hide Inv, Follows, TableOf, Leasing, ExecRevoke, ClaimedBy, LeaseKeys, DeleteAll, RowsWithout, Dropped, Withdrawn;
    FollowsTable(s, p);
    FollowsBook(s, p);
    InvBook(s);
    RevokesById(s, id);
    RevokeStore(s, id);
    if id in s.book.leases { PlainRevokeAgrees(s, id); }
  }

  ghost predicate KeepAnswer(p: Plain, ids: seq<int>, reply: Reply) {
    reply.KeepDone? && reply.header == p.rev && Lived(p.book, ids, reply.ttls)
  }

  /** The reply to each command. */
  ghost predicate Replies(p: Plain, c: Cmd, f: Flags, reply: Reply) {
    match c
    case PutCmd(q) => PutCmdAnswer(p, q, reply)
    case DeleteCmd(q) => DeleteCmdAnswer(p, q, reply)
    case TxnCmd(_, _, _) => TxnAnswer(p, c, f, reply)
    case CompactCmd(_) => reply == CompactDone(p.rev)
    case GrantCmd(id, ttl) => GrantAnswer(p, id, ttl, reply)
    case RevokeCmd(id) => RevokeAnswer(p, U64(id), reply)
    case KeepAliveCmd(id) => KeepAnswer(p, [id], reply)
    case KeepAliveBatchCmd(ids) => KeepAnswer(p, ids, reply)
    case TickCmd(term) => reply == if term < p.term then Refused(TermExpired) else TickDone(p.book.epoch + 1)
    case TermCmd(term) => reply == if term < p.term then Refused(TermExpired) else TermDone
    case Garbled => reply == NoReply
  }

  lemma KeepAnswers(s: State, p: Plain, c: Cmd, ids: seq<int>, f: Flags)
    requires Inv(s) && Room(s) && Follows(s, p)
    requires c == KeepAliveBatchCmd(ids) || (|ids| == 1 && c == KeepAliveCmd(ids[0]))
    ensures Exec(s, c, f).Next? && KeepAnswer(p, ids, Exec(s, c, f).reply)
  {
    hide Inv, Room, Follows, TableOf, Exec, Lived, Prolonged;
    FollowsTable(s, p);
    FollowsBook(s, p);
    Renews(s, c, ids, f);
  }

  lemma OtherAnswers(s: State, p: Plain, c: Cmd, f: Flags)
    requires Follows(s, p) && Exec(s, c, f).Next? && (c.CompactCmd? || c.TickCmd? || c.TermCmd? || c.Garbled?)
    ensures Replies(p, c, f, Exec(s, c, f).reply)
  {
    hide Follows, TableOf, Compact, CanCompact, Expire, Due;
    FollowsTable(s, p);
    FollowsBook(s, p);
    FollowsTerm(s, p);
  }

  lemma FollowsTerm(s: State, p: Plain)
    requires Follows(s, p)
    ensures p.term == s.term
  {}

  /** Whatever the command, its reply is the one the plain machine calls for. */
  lemma ExecReplies(s: State, p: Plain, c: Cmd, f: Flags)
    requires Inv(s) && Follows(s, p) && CmdOk(c) && Exec(s, c, f).Next? && Room(Exec(s, c, f).s)
    ensures Replies(p, c, f, Exec(s, c, f).reply)
  {
    hide Inv, Follows, Room, CmdOk, PutCmdAnswer, DeleteCmdAnswer, TxnAnswer, GrantAnswer, RevokeAnswer, KeepAnswer;
    hide ExecPut, ExecDelete, ExecTxn, ExecRevoke, ExecGrant, ExecKeepAlive, ExecTick, ExecCompact;
    RoomBefore(s, c, f);
    match c
    case PutCmd(q) => PutCmdAnswers(s, p, q, f);
    case DeleteCmd(q) => DeleteCmdAnswers(s, p, q, f);
    case TxnCmd(_, _, _) => TxnAnswers(s, p, c, f);
    case GrantCmd(id, ttl) => GrantAnswers(s, p, id, ttl, f);
    case RevokeCmd(id) => RevokeAnswers(s, p, U64(id));
    case KeepAliveCmd(id) => KeepAnswers(s, p, c, [id], f);
    case KeepAliveBatchCmd(ids) => KeepAnswers(s, p, c, ids, f);
    case _ => OtherAnswers(s, p, c, f);
  }

  // ---- runs ----

  /** Every entry got the reply the plain machine calls for after the entries before it. */
  ghost predicate AllReplied(p: Plain, es: seq<Entry>, f: Flags, replies: seq<Reply>) {
    |replies| == |es| && forall i | 0 <= i < |es| :: Replies(PlainRun(p, es[..i], f), es[i].cmd, f, replies[i])
  }

  lemma {:induction false} RunReplies(s: State, p: Plain, es: seq<Entry>, f: Flags)
    requires Inv(s) && Follows(s, p) && EntriesOk(es) && Run(s, es, f).Batch? && Room(Run(s, es, f).s)
    ensures AllReplied(p, es, f, Run(s, es, f).replies)
    ensures es != [] ==> Run(s, es, f).s.index == es[|es| - 1].index
  {
    hide Inv, Follows, Exec, PlainRun, Replies;
    if es != [] {
      var n := |es| - 1;
      var t := Run(s, es[..n], f);
      assert es[n] in es;
      StepGrows(t.s, es[n], f);
      RunKeeps(s, es[..n], f);
      RunFollows(s, p, es[..n], f);
      RunReplies(s, p, es[..n], f);
      ExecReplies(t.s, PlainRun(p, es[..n], f), es[n].cmd, f);
      forall i | 0 <= i < |es| ensures Replies(PlainRun(p, es[..i], f), es[i].cmd, f, Run(s, es, f).replies[i]) {
        if i < n { assert es[..n][..i] == es[..i] && es[..n][i] == es[i]; }
      }
    }
  }

  /** So every run from the first entry on, if it does not bring the replica down, is answered as the plain one. */
  lemma EveryRunReplies(es: seq<Entry>, f: Flags)
    requires EntriesOk(es) && Run(INITIAL, es, f).Batch? && Room(Run(INITIAL, es, f).s)
    ensures AllReplied(PLAIN_INITIAL, es, f, Run(INITIAL, es, f).replies)
    ensures es != [] ==> Run(INITIAL, es, f).s.index == es[|es| - 1].index
  {
    hide *;
    InitialInv();
    InitialFollows();
    RunReplies(INITIAL, PLAIN_INITIAL, es, f);
  }
}
