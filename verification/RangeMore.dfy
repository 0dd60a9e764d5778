/** When a range says that there is more: exactly if the limit is reached and another key in range is on record. */
module RangeMores {
  import opened Base
  import opened KeyRev
  import opened History
  import opened DbKvs
  import opened Ranges

  /** The keys that would be shown, were there no limit. */
  ghost function Wholly(h: map<bytes, Versions>, ks: seq<bytes>, q: RangeReq): seq<bytes> {
    var sel, m := Picks(h, ks, q), Reads(h, q);
    if AllThere(m, sel) then Born(m, sel, q) else []
  }

  /** The limit is reached, and the table knows another key in range behind the last one shown, live or not. */
  ghost predicate GoesOn(h: map<bytes, Versions>, ks: seq<bytes>, q: RangeReq) {
    var shown := Wholly(h, ks, q);
    && !q.countOnly && 0 < q.limit <= |shown| && q.end != []
    && exists k <- ks :: Within(q, k) && LexLess(shown[q.limit - 1], k)
  }

  lemma PickThere(h: map<bytes, Versions>, ks: seq<bytes>, q: RangeReq)
    ensures AllThere(Reads(h, q), Picks(h, ks, q))
  {
    hide Picked, InRange, Reads;
    if ks != [] {
      var n := |ks| - 1;
      PickThere(h, ks[..n], q);
      PickedPair(h, q, ks[n]);
    }
  }

  /** A key that is read is shown if it is picked and was created within the bounds. */
  lemma ShownIff(h: map<bytes, Versions>, k: bytes, q: RangeReq)
    ensures var o := OutcomeOf(Lookup(h, k), q, false);
      && !o.Count?
      && (!o.Fail? ==> (o.Item? <==> Picked(Lookup(h, k), q) && k in Reads(h, q) && BornOk(Reads(h, q)[k], q)))
  {
    hide Reads, Presents, Picked, ReadAt, ItemOf, BornOk, CreatedOk;
    PickedPair(h, q, k);
    if Picked(Lookup(h, k), q) { BornIsCreated(Reads(h, q)[k], q); }
  }

  lemma WhollyMore(h: map<bytes, Versions>, ks: seq<bytes>, more: seq<bytes>, k: bytes, q: RangeReq)
    requires Picks(h, more, q) == Picks(h, ks, q) + if Picked(Lookup(h, k), q) then [k] else []
    ensures Picked(Lookup(h, k), q) ==> k in Reads(h, q)
    ensures Wholly(h, more, q) ==
      Wholly(h, ks, q) + if Picked(Lookup(h, k), q) && BornOk(Reads(h, q)[k], q) then [k] else []
  {
    hide Picks, Reads, BornOk, Picked, Born;
    PickThere(h, ks, q);
    PickThere(h, more, q);
    var sel := Picks(h, ks, q);
    if Picked(Lookup(h, k), q) {
      BornSnoc(Reads(h, q), sel, k, q);
    } else {
      assert sel + [] == sel && Wholly(h, ks, q) + [] == Wholly(h, ks, q);
    }
  }

  lemma WhollySnoc(h: map<bytes, Versions>, ks: seq<bytes>, i: nat, q: RangeReq)
    requires SortedKeys(ks) && Seek(ks, q.key) <= i < |ks| && !EndsRange(ks[i], q)
    ensures var o := OutcomeOf(Lookup(h, ks[i]), q, false);
      && !o.Count?
      && (!o.Fail? ==> Wholly(h, ks[..i + 1], q) == Wholly(h, ks[..i], q) + if o.Item? then [ks[i]] else [])
  {
    RangePick(h, ks, i, q);
    hide SortedKeys, Seek, LexLess, Picks, Reads, BornOk, Picked, Wholly, OutcomeOf;
    ShownIff(h, ks[i], q);
    WhollyMore(h, ks[..i], ks[..i + 1], ks[i], q);
  }

  lemma WhollyLast(h: map<bytes, Versions>, ks: seq<bytes>, q: RangeReq)
    requires ks != []
    ensures Wholly(h, ks[..|ks| - 1], q) <= Wholly(h, ks, q)
  {
    hide Picked, InRange, Reads, BornOk, Born;
    var n := |ks| - 1;
    var sel, all := Picks(h, ks[..n], q), Picks(h, ks, q);
    assert all == sel || all == sel + [ks[n]];
    hide Picks;
    PickThere(h, ks[..n], q);
    PickThere(h, ks, q);
    if all != sel { BornSnoc(Reads(h, q), sel, ks[n], q); }
  }

  lemma {:induction false} WhollyPrefix(h: map<bytes, Versions>, ks: seq<bytes>, i: nat, q: RangeReq)
    requires i <= |ks|
    ensures Wholly(h, ks[..i], q) <= Wholly(h, ks, q)
  {
    hide Wholly;
    if i == |ks| {
      assert ks[..i] == ks;
    } else {
      WhollyPrefix(h, ks[..|ks| - 1], i, q);
      assert ks[..|ks| - 1][..i] == ks[..i];
      WhollyLast(h, ks, q);
    }
  }

  /** A key at or past the seek position that did not end the loop is in range. */
  lemma StillWithin(ks: seq<bytes>, i: nat, q: RangeReq)
    requires SortedKeys(ks) && Seek(ks, q.key) <= i < |ks| && !EndsRange(ks[i], q)
    ensures Within(q, ks[i])
  {
    hide LexLess;
    var m := Seek(ks, q.key);
    LexTotal(ks[m], q.key);
    LexTotal(ks[i], q.key);
    if m < i && LexLess(ks[i], q.key) { LexTransitive(ks[m], ks[i], q.key); }
  }

  /** And behind one that did, none is. */
  lemma NoneBehind(ks: seq<bytes>, i: nat, q: RangeReq, k: bytes)
    requires SortedKeys(ks) && 0 < i <= |ks| && (i < |ks| ==> EndsRange(ks[i], q)) && q.end != []
    requires k in ks && LexLess(ks[i - 1], k)
    ensures !Within(q, k)
  {
    var j :| 0 <= j < |ks| && ks[j] == k;
    hide LexLess;
    LexTotal(ks[i - 1], k);
    LexTotal(k, q.end);
    if i < j && LexLess(k, q.end) { LexTransitive(ks[i], k, q.end); }
  }

  // ---- the loop ----

  /** While pairs are shown, the last one that fills the limit is the key just read. */
  ghost predicate Filling(h: map<bytes, Versions>, ks: seq<bytes>, i: nat, st: Scan, q: RangeReq)
    requires i <= |ks|
  {
    var shown := Wholly(h, ks[..i], q);
    && !st.more && |st.items| == |shown| && (q.end == [] ==> shown == [])
    && (q.limit > 0 ==> |shown| <= q.limit)
    && (0 < q.limit == |shown| ==> i > 0 && shown[q.limit - 1] == ks[i - 1])
  }

  ghost predicate Going(h: map<bytes, Versions>, ks: seq<bytes>, i: nat, st: Scan, q: RangeReq)
    requires i <= |ks|
  {
    if st.countOnly then st.more && GoesOn(h, ks, q) else Filling(h, ks, i, st, q)
  }

  /** At the end of the loop. */
  lemma GoingEnds(h: map<bytes, Versions>, ks: seq<bytes>, i: nat, st: Scan, q: RangeReq)
    requires SortedKeys(ks) && Seek(ks, q.key) <= i <= |ks| && (i < |ks| ==> EndsRange(ks[i], q))
    requires !q.countOnly && Going(h, ks, i, st, q)
    ensures st.more <==> GoesOn(h, ks, q)
  {
    RangeEnd(h, ks, i, q);
    hide SortedKeys, Seek, LexLess, EndsRange, Within, Picks, Reads, Born;
    if !st.countOnly && GoesOn(h, ks, q) {
      var shown := Wholly(h, ks, q);
      assert shown == Wholly(h, ks[..i], q);
      hide Wholly;
      var k :| k in ks && Within(q, k) && LexLess(shown[q.limit - 1], k);
      NoneBehind(ks, i, q, k);
    }
  }

  /** The limit is reached and there is one more key. */
  lemma GoingOn(h: map<bytes, Versions>, ks: seq<bytes>, i: nat, st: Scan, q: RangeReq)
    requires SortedKeys(ks) && Seek(ks, q.key) <= i < |ks| && !EndsRange(ks[i], q) && !q.countOnly
    requires !st.countOnly && Filling(h, ks, i, st, q) && 0 < q.limit == |st.items|
    ensures GoesOn(h, ks, q)
  {
    assert LexLess(ks[i - 1], ks[i]);
    hide Seek, LexLess, EndsRange, Within, Wholly;
    WhollyPrefix(h, ks, i, q);
    StillWithin(ks, i, q);
    var shown := Wholly(h, ks, q);
    assert ks[i] in ks && Within(q, ks[i]) && LexLess(shown[q.limit - 1], ks[i]);
  }

  lemma GoingNext(h: map<bytes, Versions>, ks: seq<bytes>, i: nat, st: Scan, q: RangeReq, o: KeyOutcome)
    requires SortedKeys(ks) && Seek(ks, q.key) <= i < |ks| && !EndsRange(ks[i], q) && !q.countOnly && q.end != []
    requires Going(h, ks, i, st, q) && (!st.countOnly && q.limit > 0 ==> |st.items| < q.limit)
    requires o == OutcomeOf(Lookup(h, ks[i]), q, st.countOnly) && !o.Fail?
    ensures Going(h, ks, i + 1, Tally(st, o), q)
  {
    hide SortedKeys, Seek, EndsRange, Wholly, GoesOn;
    if !st.countOnly { WhollySnoc(h, ks, i, q); }
    hide OutcomeOf;
  }

  lemma {:induction false} LoopGoesOn(h: map<bytes, Versions>, ks: seq<bytes>, i: nat, st: Scan, q: RangeReq, f: Flags)
    requires SortedKeys(ks) && Seek(ks, q.key) <= i <= |ks| && !q.countOnly && Going(h, ks, i, st, q)
    ensures var r := ScanFrom(h, ks, i, st, q, f); r.Ok? ==> (r.value.more <==> GoesOn(h, ks, q))
    decreases |ks| - i
  {
    hide Going, OutcomeOf, SortedKeys, Seek, LexLess, EndsRange, Tally, GoesOn;
    if i == |ks| || EndsRange(ks[i], q) {
      GoingEnds(h, ks, i, st, q);
    } else {
      var full := !st.countOnly && q.limit > 0 && |st.items| == q.limit;
      var st1 := if full then st.(more := true, countOnly := true) else st;
      if full { GoingFull(h, ks, i, st, q); }
      if !(full && !f.countFull && !f.countFake) {
        var o := OutcomeOf(Lookup(h, ks[i]), q, st1.countOnly);
        TallyKeeps(st1, o);
        GoingMore(h, ks, i, st1, q);
        if !o.Fail? && !(o.Count? && f.countFake) && q.end != [] {
          GoingNext(h, ks, i, st1, q, o);
          LoopGoesOn(h, ks, i + 1, Tally(st1, o), q, f);
        } else {
          OnlyCounted(h, ks[i], q, st1);
        }
      }
    }
  }

  lemma GoingFull(h: map<bytes, Versions>, ks: seq<bytes>, i: nat, st: Scan, q: RangeReq)
    requires SortedKeys(ks) && Seek(ks, q.key) <= i < |ks| && !EndsRange(ks[i], q) && !q.countOnly
    requires Going(h, ks, i, st, q) && !st.countOnly && 0 < q.limit == |st.items|
    ensures GoesOn(h, ks, q) && Going(h, ks, i, st.(more := true, countOnly := true), q)
    ensures !(!st.countOnly && q.limit > 0 && |st.items| < q.limit)
  {
    hide SortedKeys, Seek, EndsRange, GoesOn;
    GoingOn(h, ks, i, st, q);
  }

  lemma GoingMore(h: map<bytes, Versions>, ks: seq<bytes>, i: nat, st: Scan, q: RangeReq)
    requires i <= |ks| && Going(h, ks, i, st, q)
    ensures st.countOnly ==> st.more && GoesOn(h, ks, q)
    ensures !st.countOnly ==> !st.more && (q.limit > 0 ==> |st.items| <= q.limit)
    ensures q.end == [] ==> !GoesOn(h, ks, q)
  {
    hide Wholly, LexLess, Within;
  }

  lemma TallyKeeps(st: Scan, o: KeyOutcome)
    ensures Tally(st, o).more == st.more && Tally(st, o).countOnly == st.countOnly
  {}

  lemma OnlyCounted(h: map<bytes, Versions>, k: bytes, q: RangeReq, st: Scan)
    ensures OutcomeOf(Lookup(h, k), q, st.countOnly).Count? ==> st.countOnly
  {
    hide Picked, ReadAt, CreatedOk, ItemOf;
  }

  lemma GoingStarts(h: map<bytes, Versions>, ks: seq<bytes>, i: nat, q: RangeReq)
    requires i <= |ks| && Picks(h, ks[..i], q) == []
    ensures Going(h, ks, i, Scan([], 0, false, false), q)
  {
    hide Picks, Reads;
    assert Wholly(h, ks[..i], q) == [];
  }

  /** `more` is set exactly if the limit is reached and the table knows another key in range behind, live or not. */
  lemma MoreIff(h: map<bytes, Versions>, ks: seq<bytes>, q: RangeReq, f: Flags)
    requires SortedKeys(ks) && !q.countOnly
    ensures var r := RangeOf(h, ks, q, f); r.Ok? ==> (r.value.more <==> GoesOn(h, ks, q))
  {
    hide Going, SortedKeys, Seek, ScanFrom, Picks, GoesOn;
    RangeStart(h, ks, q);
    GoingStarts(h, ks, Seek(ks, q.key), q);
    LoopGoesOn(h, ks, Seek(ks, q.key), Scan([], 0, false, false), q, f);
  }
}
