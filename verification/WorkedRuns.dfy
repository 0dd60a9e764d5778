/** Short runs from the start with the replies they get. */
module WorkedRuns {
  import opened Base
  import opened KeyRev
  import opened KvCodec
  import opened History
  import opened DbKvs
  import opened Machine
  import opened Counterexamples

  const PUT := Entry(1, PutCmd(PlainPut(KEY, [5])))

  const PAIR := Kv(Rev(2, 0, false), 1, 2, 0, KEY, [5])

  /** The state after the put. */
  const HOLDS_ONE := OneKey(KEY, [Live(PAIR, 0)], [Event(0, KEY, Rev(2, 0, false))], [], NO_LEASES, 2, 1)

  /** Deletes the key if its version compares so with 0. */
  function DeleteIf(relation: Relation): Entry {
    Entry(2, TxnCmd([Compare(KEY, relation, OnVersion(0))], [OpDelete(DeleteReq(KEY, [], false))], []))
  }

  lemma VersionCompared(relation: Relation)
    ensures CompareAll(HOLDS_ONE.store.hist, [Compare(KEY, relation, OnVersion(0))]) ==
      Ok(relation.Greater? || relation.NotEqual?)
  {
    var h, c := HOLDS_ONE.store.hist, Compare(KEY, relation, OnVersion(0));
    assert ReadAt(h[KEY], 0, false) == Ok(Some(PAIR));
    assert [c][1..] == [] && CompareAll(h, []) == Ok(true);
  }

  lemma OneDeleted(f: Flags)
    ensures var r := CmdDeleteRange(HOLDS_ONE, 3, 0, DeleteReq(KEY, [], false), f);
      r.Did? && r.out == Some(DeleteReply(1, [])) && r.keys != []
  {
    hide DeleteKeys, DeleteAll, Doomed, Detach, WrittenAt, PrevReads;
    DeletesOnly(HOLDS_ONE, KEY, f);
  }

  lemma OneOpRun(s: State, rev: nat, op: TxnOp, f: Flags)
    requires OneOp(s, rev, 0, op, f).Did? && OneOp(s, rev, 0, op, f).out.Some?
    ensures var t, r := OneOp(s, rev, 0, op, f), RunOps(s, rev, [op], f);
      r.error.None? && r.out == [t.out.value] && r.keys == t.keys
  {
    hide OneOp;
    assert [op][..0] == [] && RunOps(s, rev, [], f) == Ops(s, [], [], None);
    assert [] + OneOp(s, rev, 0, op, f).keys == OneOp(s, rev, 0, op, f).keys;
  }

  /** What the transaction is answered. */
  function Verdict(relation: Relation): Reply {
    if relation.Greater? || relation.NotEqual? then TxnDone(3, true, [DeleteReply(1, [])]) else TxnDone(2, false, [])
  }

  lemma Compared(relation: Relation, f: Flags)
    ensures var r := Step(HOLDS_ONE, DeleteIf(relation), f);
      r.Next? && r.reply == Verdict(relation)
  {
    VersionCompared(relation);
    OneDeleted(f);
    hide CompareAll, CmdDeleteRange;
    var op := OpDelete(DeleteReq(KEY, [], false));
    OneOpRun(HOLDS_ONE, 3, op, f);
    assert RunOps(HOLDS_ONE, 3, [], f) == Ops(HOLDS_ONE, [], [], None);
    hide RunOps, OneOp;
  }

  lemma RunsTwo(a: Entry, b: Entry, f: Flags)
    requires Step(INITIAL, a, f).Next? && Step(Step(INITIAL, a, f).s, b, f).Next?
    ensures var r := Run(INITIAL, [a, b], f);
      r.Batch? && r.replies == [Step(INITIAL, a, f).reply, Step(Step(INITIAL, a, f).s, b, f).reply]
  {
    hide Step;
    assert Run(INITIAL, [], f) == Batch(INITIAL, [], []);
    hide Run;
    Onward([], a, f);
    Onward([a], b, f);
    assert [] + [a] == [a] && [a] + [b] == [a, b];
  }

  /**
   The version of the key is 1. So it is deleted exactly if the relation asked for is greater or not
   equal, and then one key is reported as deleted.
   */
  lemma VersionDecides(relation: Relation, f: Flags)
    ensures Run(INITIAL, [PUT, DeleteIf(relation)], f).Batch?
    ensures Run(INITIAL, [PUT, DeleteIf(relation)], f).replies == [OpDone(2, Some(PutReply(None))), Verdict(relation)]
  {
    hide Step, Run;
    FirstPut(KEY, [5], f, 1);
    Compared(relation, f);
    RunsTwo(PUT, DeleteIf(relation), f);
  }

  // ---- more for nothing ----

  const LATER: bytes := [1, 2]

  const PUT_LATER := Entry(2, PutCmd(PlainPut(LATER, [5])))

  const LATER_PAIR := Kv(Rev(3, 0, false), 1, 3, 0, LATER, [5])

  /** The state after both puts. */
  const HOLDS_TWO := State(
    Store([KEY, LATER], map[KEY := [Live(PAIR, 0)], LATER := [Live(LATER_PAIR, 0)]],
          [Event(0, KEY, Rev(2, 0, false)), Event(0, LATER, Rev(3, 0, false))]),
    [], NO_LEASES, 3, 1, 0, 0, 2)

  lemma SecondPut(f: Flags)
    ensures Step(HOLDS_ONE, PUT_LATER, f) == Next(HOLDS_TWO, OpDone(3, Some(PutReply(None))), [LATER])
  {
    assert U64(0) == 0;
    assert LexLess(KEY, LATER) && !LexLess(LATER, KEY);
    assert Seek([KEY], LATER) == 1 && InsertKey([KEY], LATER) == [KEY, LATER];
    var vs: Versions := [Live(LATER_PAIR, 0)];
    assert vs + [] == vs;
    assert HOLDS_ONE.store.hist[LATER := vs] == HOLDS_TWO.store.hist;
    assert [Event(0, KEY, Rev(2, 0, false))] + [Event(0, LATER, Rev(3, 0, false))] == HOLDS_TWO.store.evts;
  }

  /** What was there at revision 2 from [1] up to [2], but one pair at most. */
  const AT_TWO := RangeReq([1], [2], 2, 0, 0, 0, 0, 1, false, false)

  lemma TwoOutcomes(c: bool)
    ensures OutcomeOf([Live(PAIR, 0)], AT_TWO, false) == Item(PAIR)
    ensures OutcomeOf([Live(LATER_PAIR, 0)], AT_TWO, c) == Skip
  {
    var a: Versions, b: Versions := [Live(PAIR, 0)], [Live(LATER_PAIR, 0)];
    assert ReadAt(a, 2, false) == Ok(Some(PAIR)) && Visible(a, 2) == Some(a[0]);
    assert b[1..] == [] && Visible(b, 2) == None;
  }

  lemma ScansTwo(f: Flags)
    ensures var h, ks := HOLDS_TWO.store.hist, HOLDS_TWO.store.keys;
      RangeOf(h, ks, AT_TWO, f) == Ok(RangeResult([PAIR], 1, true)) && Picks(h, ks, AT_TWO) == [KEY]
  {
    var h, ks, q := HOLDS_TWO.store.hist, HOLDS_TWO.store.keys, AT_TWO;
    TwoOutcomes(true);
    TwoOutcomes(false);
    TwoKeys();
    hide OutcomeOf, LexLess, Seek;
    var st := Scan([PAIR], 1, false, false);
    assert [] + [PAIR] == [PAIR];
    var full := st.(more := true, countOnly := true);
    assert ScanFrom(h, ks, 2, full, q, f) == Ok(RangeResult([PAIR], 1, true));
    assert ScanFrom(h, ks, 1, st, q, f) == Ok(RangeResult([PAIR], 1, true));
    assert ScanFrom(h, ks, 0, Scan([], 0, false, false), q, f) == ScanFrom(h, ks, 1, st, q, f);
  }

  lemma TwoKeys()
    ensures !EndsRange(KEY, AT_TWO) && !EndsRange(LATER, AT_TWO) && Seek([KEY, LATER], [1]) == 0
    ensures Picks(HOLDS_TWO.store.hist, HOLDS_TWO.store.keys, AT_TWO) == [KEY]
  {
    var h, ks := HOLDS_TWO.store.hist, HOLDS_TWO.store.keys;
    assert LexLess([1], KEY) && LexLess([1], LATER) && LexLess(KEY, [2]) && LexLess(LATER, [2]);
    assert !LexLess(KEY, [1]);
    var a: Versions, b: Versions := [Live(PAIR, 0)], [Live(LATER_PAIR, 0)];
    assert Picked(a, AT_TWO);
    assert b[1..] == [] && Visible(b, 2) == None;
    assert ks[..1] == [KEY] && [KEY][..0] == [] && Picks(h, [], AT_TWO) == [];
    hide Picked, LexLess;
    assert Picks(h, [KEY], AT_TWO) == [KEY];
  }

  /** One pair, and more to come, says the range; but there was only the one. */
  lemma MoreForNothing(f: Flags)
    ensures Reaches([PUT, PUT_LATER], f, HOLDS_TWO)
    ensures var r := Machine.QueryRange(HOLDS_TWO, 3, AT_TWO, f);
      && r.Ok? && r.value.items == [PAIR] && r.value.more
      && Picks(HOLDS_TWO.store.hist, HOLDS_TWO.store.keys, AT_TWO) == [KEY]
  {
    hide Step, Run, RangeOf, Picks;
    FirstPut(KEY, [5], f, 1);
    SecondPut(f);
    ScansTwo(f);
    ReachesTwo(PUT, PUT_LATER, f, HOLDS_ONE, HOLDS_TWO);
  }
}
