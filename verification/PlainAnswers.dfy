/**
 Reads and ranges are answered from the maps of the plain machine: the pairs, their
 order, the count and the limit.
 */
module PlainAnswers {
  import opened Base
  import opened History
  import opened LeaseTables
  import opened DbKvs
  import opened Ranges
  import opened Machine
  import opened Invariants
  import opened Snapshots
  import opened Growth
  import opened PlainTables
  import opened PlainMachine

  /** The map a request at revision r is answered from, where 0 means now. */
  ghost function Source(p: Plain, r: nat): Pairs
    requires r == 0 || r in p.past
  {
    if r == 0 then p.tab.m else Seen(p.past, p.floor, r)
  }

  lemma SourceIs(s: State, p: Plain, r: nat)
    requires Follows(s, p) && r <= s.rev
    ensures r == 0 || r in p.past
    ensures SnapshotAt(s.store.hist, r) == Source(p, r)
  {
    hide SnapshotAt, Seen, Steady, Tidy, NamedIn, ClaimsIn;
  }

  // ---- one key ----

  lemma ReadableAt(h: map<bytes, Versions>, k: bytes)
    requires Readable(h)
    ensures NoneShort(Lookup(h, k))
  {}

  /**
   A read of one key gives the pair of that map. It can fail only on a pair too short to
   read back, and no run whose puts are long enough stores one.
   */
  lemma ReadShowsPlain(s: State, p: Plain, key: bytes, r: nat)
    requires Follows(s, p) && r <= s.rev
    ensures r == 0 || r in p.past
    ensures var got := ReadWithPrev(Lookup(s.store.hist, key), r, false);
      && (got.Ok? ==> got.value == (Find(Source(p, r), key), None))
      && (Readable(s.store.hist) ==> got.Ok?)
  {
    var h := s.store.hist;
    hide SnapshotAt, ReadAt, ValueAt, Follows, Readable, Seen, Below;
    SourceIs(s, p, r);
    ReadAtSound(Lookup(h, key), r, false);
    SnapshotGet(h, r, key);
    if Readable(h) {
      ReadableAt(h, key);
      ReadAtIsValueAt(Lookup(h, key), r);
    }
  }

  // ---- ranges ----

  lemma ReadableRange(h: map<bytes, Versions>, sel: seq<bytes>, q: RangeReq)
    requires Readable(h)
    ensures !Stuck(h, sel, q)
  {
    hide Readable, Born;
    forall k ensures !Unread(h, q, k) {
      ReadableAt(h, k);
      ReadAtIsValueAt(Lookup(h, k), q.revision);
    }
    hide Unread;
  }

  /** A range answers from the map, or fails exactly if it gets stuck at a pair too short to read back. */
  lemma RangeShowsPlain(s: State, p: Plain, q: RangeReq, f: Flags)
    requires Inv(s) && Follows(s, p) && q.revision <= s.rev
    ensures q.revision == 0 || q.revision in p.past
    ensures var r, sel := RangeOf(s.store.hist, s.store.keys, q, f), Picks(s.store.hist, s.store.keys, q);
      && Selects(Source(p, q.revision), sel, q)
      && (r.Ok? ==> exists cut: nat :: Ranged(Source(p, q.revision), sel, cut, q, f, r.value))
      && (r.Err? <==> Stuck(s.store.hist, sel, q))
      && (Readable(s.store.hist) ==> r.Ok?)
  {
    hide Inv, Follows, Good, AllOlder, SnapshotAt, Source, RangeOf, Picks, Selects, Ranged, Readable, Stuck, SortedKeys;
    InvOlder(s);
    GoodKeys(s.store);
    SourceIs(s, p, q.revision);
    RangeConcludes(s.store.hist, s.store.keys, q, f);
    if Readable(s.store.hist) { ReadableRange(s.store.hist, Picks(s.store.hist, s.store.keys, q), q); }
  }

  /** What a client is told: the count is left out unless it is asked for or switched on. */
  ghost predicate Replied(m: Pairs, q: RangeReq, f: Flags, r: RangeResult) {
    exists sel: seq<bytes>, cut: nat, count: nat :: RepliedWith(m, sel, cut, count, q, f, r)
  }

  ghost predicate RepliedWith(m: Pairs, sel: seq<bytes>, cut: nat, count: nat, q: RangeReq, f: Flags, r: RangeResult) {
    && Ranged(m, sel, cut, q, f, r.(count := count))
    && r.count == if q.countOnly || f.countFull || f.countFake then count else 0
  }

  lemma QueryReplies(s: State, rev: nat, q: RangeReq, f: Flags, m: Pairs, sel: seq<bytes>)
    requires !(0 < q.revision < s.revMin) && q.revision <= rev
    requires RangeOf(s.store.hist, s.store.keys, q, f).Ok? ==>
      exists cut: nat :: Ranged(m, sel, cut, q, f, RangeOf(s.store.hist, s.store.keys, q, f).value)
    ensures var r := QueryRange(s, rev, q, f);
      (r.Ok? <==> RangeOf(s.store.hist, s.store.keys, q, f).Ok?) && (r.Ok? ==> Replied(m, q, f, r.value))
  {
    hide RangeOf, Selects, Born, Lists;
    var got := RangeOf(s.store.hist, s.store.keys, q, f);
    if got.Ok? {
      var cut: nat :| Ranged(m, sel, cut, q, f, got.value);
      var r := QueryRange(s, rev, q, f).value;
      assert r.(count := got.value.count) == got.value;
      hide Ranged;
      assert RepliedWith(m, sel, cut, got.value.count, q, f, r);
    }
  }

  /** A range request: refused below the last compaction target and in the future, otherwise answered from the map. */
  lemma QueryShowsPlain(s: State, p: Plain, q: RangeReq, f: Flags)
    requires Inv(s) && Follows(s, p)
    ensures var r := QueryRange(s, s.rev, q, f);
      if 0 < q.revision < s.revMin then r == Err(Compacted)
      else if q.revision > s.rev then r == Err(FutureRev)
      else
        && (q.revision == 0 || q.revision in p.past)
        && (r.Ok? ==> Replied(Source(p, q.revision), q, f, r.value)) && (Readable(s.store.hist) ==> r.Ok?)
  {
    hide Inv, Follows, Source, RangeOf, Picks, Ranged, Selects, Replied, Readable, Stuck;
    if q.revision <= s.rev {
      RangeShowsPlain(s, p, q, f);
      if !(0 < q.revision < s.revMin) {
        QueryReplies(s, s.rev, q, f, Source(p, q.revision), Picks(s.store.hist, s.store.keys, q));
      }
    }
  }

  // ---- which revisions are seen as they were ----

  /**
   A revision is seen as it was exactly if it is not below the largest compaction target,
   or lies right below it, or all its pairs were still the same right below it.
   */
  lemma SeenAsItWasIff(s: State, p: Plain, r: nat)
    requires Follows(s, p) && 0 < r <= s.rev
    ensures r in p.past && (p.floor > r + 1 ==> p.floor - 1 in p.past)
    ensures SnapshotAt(s.store.hist, r) == p.past[r] <==>
      p.floor <= r + 1 || forall k <- p.past[r] :: k in p.past[p.floor - 1] && p.past[p.floor - 1][k] == p.past[r][k]
  {
    hide SnapshotAt, Steady, Tidy, NamedIn, ClaimsIn;
    assert p.floor > r + 1 ==> p.floor - 1 in p.past;
    if p.floor > r + 1 {
      var m := Unchanged(p.past[r], p.past[p.floor - 1]);
      if m == p.past[r] {
        forall k | k in p.past[r] ensures k in p.past[p.floor - 1] && p.past[p.floor - 1][k] == p.past[r][k] {
          assert k in m;
        }
      }
    }
  }

  lemma {:induction false} ExpireFloor(p: Plain, due: seq<bytes>)
    requires forall row <- due :: |row| >= 9
    ensures PlainExpire(p, due).floor == p.floor
  {
    hide PlainRevoked, ClaimedBy, Dropped;
    if due != [] { ExpireFloor(p, due[..|due| - 1]); }
  }

  lemma PlainFloor(p: Plain, c: Cmd, f: Flags)
    ensures PlainExec(p, c, f).floor == if c.CompactCmd? then Max(p.floor, c.revision) else p.floor
  {
    hide PlainExpire, Due, PlainRunOps, PlainPut, PlainDelete, PlainRevoked, ClaimedBy, Dropped;
    hide KeepAlive, Grant, Reached;
    if c.TickCmd? {
      var b := Ticked(p.book);
      ExpireFloor(p.(book := b), Due(b.exp, b.epoch));
    }
  }

  /** Compaction targets never fall, and start at `low`. */
  ghost predicate Rising(es: seq<Entry>, low: nat) {
    && (forall e <- es :: e.cmd.CompactCmd? ==> e.cmd.revision >= low)
    && (forall i, j | 0 <= i < j < |es| && es[i].cmd.CompactCmd? && es[j].cmd.CompactCmd? ::
          es[i].cmd.revision <= es[j].cmd.revision)
  }

  lemma {:induction false} FloorBelow(p: Plain, es: seq<Entry>, f: Flags, x: nat)
    requires p.floor <= x && forall e <- es :: e.cmd.CompactCmd? ==> e.cmd.revision <= x
    ensures PlainRun(p, es, f).floor <= x
  {
    hide PlainExec;
    if es != [] {
      var n := |es| - 1;
      assert es[n] in es;
      FloorBelow(p, es[..n], f, x);
      PlainFloor(PlainRun(p, es[..n], f), es[n].cmd, f);
    }
  }

  /**
   The bound below which requests are refused is the last compaction target. It never
   exceeds the largest one, and equals it if targets never fall.
   */
  lemma {:induction false} MinAndFloor(s: State, p: Plain, es: seq<Entry>, f: Flags)
    requires s.revMin == p.floor && Run(s, es, f).Batch?
    ensures Run(s, es, f).s.revMin <= PlainRun(p, es, f).floor
    ensures Rising(es, p.floor) ==> Run(s, es, f).s.revMin == PlainRun(p, es, f).floor
  {
    hide Step, PlainExec;
    if es != [] {
      var n := |es| - 1;
      var t, q := Run(s, es[..n], f).s, PlainRun(p, es[..n], f);
      MinAndFloor(s, p, es[..n], f);
      StepMin(t, es[n], f);
      PlainFloor(q, es[n].cmd, f);
      assert es[n] in es;
      if Rising(es, p.floor) {
        assert forall e <- es[..n] :: e in es;
        assert Rising(es[..n], p.floor);
        if es[n].cmd.CompactCmd? {
          forall e | e in es[..n] && e.cmd.CompactCmd? ensures e.cmd.revision <= es[n].cmd.revision {
            var i :| 0 <= i < n && es[i] == e;
          }
          FloorBelow(p, es[..n], f, es[n].cmd.revision);
        }
      }
    }
  }

  /**
   So, over every run from the start whose puts are long enough, every range request is
   refused or answered from the map of its revision; and if compaction targets never fall,
   every map that answers is the one recorded for that revision.
   */
  lemma EveryRunAnswers(es: seq<Entry>, q: RangeReq, f: Flags)
    requires EntriesOk(es) && LongEntries(es)
    requires Run(INITIAL, es, f).Batch? && Room(Run(INITIAL, es, f).s)
    ensures var s, p := Run(INITIAL, es, f).s, PlainRun(PLAIN_INITIAL, es, f);
      var r := QueryRange(s, s.rev, q, f);
      if 0 < q.revision < s.revMin then r == Err(Compacted)
      else if q.revision > s.rev then r == Err(FutureRev)
      else
        && (q.revision == 0 || q.revision in p.past)
        && r.Ok? && Replied(Source(p, q.revision), q, f, r.value)
        && (Rising(es, 1) && q.revision > 0 ==> Source(p, q.revision) == p.past[q.revision])
  {
    hide *;
    InitialInv();
    InitialGrowth();
    EveryRunFollows(es, f);
    RunReadable(INITIAL, es, f);
    InitialMin();
    MinAndFloor(INITIAL, PLAIN_INITIAL, es, f);
    var s, p := Run(INITIAL, es, f).s, PlainRun(PLAIN_INITIAL, es, f);
    QueryShowsPlain(s, p, q, f);
    if 0 < q.revision && q.revision in p.past { SourceAbove(p, q.revision); }
  }

  lemma InitialMin()
    ensures INITIAL.revMin == PLAIN_INITIAL.floor == 1
  {}

  lemma SourceAbove(p: Plain, r: nat)
    requires 0 < r && r in p.past
    ensures p.floor <= r ==> Source(p, r) == p.past[r]
  {}
}
