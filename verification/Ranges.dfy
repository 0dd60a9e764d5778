/**
 What a range answers, for every switch and every filter: which pairs are shown, in what
 order and form, how many are counted, and when it fails.
 */
module Ranges {
  import opened Base
  import opened KeyRev
  import opened KvCodec
  import opened History
  import opened DbKvs

  /** From `key` up to but not including `end`; the one key without an end; all keys if both are the zero byte. */
  predicate Within(q: RangeReq, k: bytes) {
    if q.key == [0] && q.end == [0] then k == [0] || LexLess([0], k)
    else if q.end == [] then k == q.key
    else (k == q.key || LexLess(q.key, k)) && LexLess(k, q.end)
  }

  lemma WithinAgrees(q: RangeReq, k: bytes)
    ensures Within(q, k) <==> InRange(k, q)
  {
    LexTotal(q.key, k);
  }

  /** The last change lies between the bounds given. */
  predicate ModOk(kv: Kv, q: RangeReq) {
    (q.minMod == 0 || q.minMod <= kv.rev.upper) && (q.maxMod == 0 || kv.rev.upper <= q.maxMod)
  }

  /** So does the creation. */
  predicate BornOk(kv: Kv, q: RangeReq) {
    (q.minCreated == 0 || q.minCreated <= kv.created) && (q.maxCreated == 0 || kv.created <= q.maxCreated)
  }

  /** The pair as it is shown: without its value if only keys are asked for. */
  predicate Presents(item: Kv, kv: Kv, q: RangeReq) {
    && item.key == kv.key && item.rev == kv.rev && item.version == kv.version && item.created == kv.created
    && item.lease == kv.lease && item.val == if q.keysOnly then [] else kv.val
  }

  /** `sel` are the keys of the map in range that pass the filter on the last change, in byte order. */
  ghost predicate Selects(m: map<bytes, Kv>, sel: seq<bytes>, q: RangeReq) {
    SortedKeys(sel) && forall k :: k in sel <==> k in m && Within(q, k) && ModOk(m[k], q)
  }

  /** Those of the keys that pass the filter on the creation, in order. */
  ghost function Born(m: map<bytes, Kv>, ks: seq<bytes>, q: RangeReq): seq<bytes>
    requires forall k <- ks :: k in m
    ensures forall k <- Born(m, ks, q) :: k in m
  {
    if ks == [] then []
    else
      var n := |ks| - 1;
      Born(m, ks[..n], q) + if BornOk(m[ks[n]], q) then [ks[n]] else []
  }

  /** What is counted of the keys beyond the limit. */
  function Beyond(n: nat, f: Flags): nat {
    if f.countFake then Min(1, n) else if f.countFull then n else 0
  }

  ghost predicate Lists(items: seq<Kv>, m: map<bytes, Kv>, ks: seq<bytes>, q: RangeReq)
    requires forall k <- ks :: k in m
  {
    |items| == |ks| && forall i | 0 <= i < |ks| :: Presents(items[i], m[ks[i]], q)
  }

  /**
   The first `cut` selected keys are read: up to the limit, or all. Those created within the bounds
   are shown and counted. The keys behind them are counted as the switches say, whenever created.
   */
  ghost predicate Ranged(m: map<bytes, Kv>, sel: seq<bytes>, cut: nat, q: RangeReq, f: Flags, r: RangeResult) {
    Selects(m, sel, q) && cut <= |sel| && (forall k <- sel[..cut] :: k in m) &&
    if q.countOnly then
      cut == 0 && r == RangeResult([], if f.countFake then Min(1, |sel|) else |sel|, false)
    else
      var shown := Born(m, sel[..cut], q);
      && Lists(r.items, m, shown, q)
      && (q.limit > 0 ==> |shown| <= q.limit)
      && (cut < |sel| ==> 0 < q.limit == |shown| && r.more && 0 < cut && BornOk(m[sel[cut - 1]], q))
      && (r.more ==> 0 < q.limit == |shown|)
      && r.count == |shown| + Beyond(|sel| - cut, f)
  }

  // ---- the loop ----

  ghost function Reads(h: map<bytes, Versions>, q: RangeReq): map<bytes, Kv> { SnapshotAt(h, q.revision) }

  lemma PickedPair(h: map<bytes, Versions>, q: RangeReq, k: bytes)
    ensures var m := Reads(h, q);
      && (Picked(Lookup(h, k), q) <==> k in m && ModOk(m[k], q))
      && (Picked(Lookup(h, k), q) ==>
            && Presents(ItemOf(Lookup(h, k), q), m[k], q)
            && (ReadAt(Lookup(h, k), q.revision, false).Ok? ==>
                  ReadAt(Lookup(h, k), q.revision, false).value == Some(m[k])))
  {
    hide SnapshotAt, ValueAt, ReadAt;
    SnapshotGet(h, q.revision, k);
    ReadAtSound(Lookup(h, k), q.revision, false);
  }

  ghost predicate AllThere(m: map<bytes, Kv>, sel: seq<bytes>) {
    forall k <- sel :: k in m
  }

  /** The keys picked so far, of which `cut` were read, and what the loop has made of them. */
  ghost predicate Doing(m: map<bytes, Kv>, sel: seq<bytes>, cut: nat, st: Scan, q: RangeReq, f: Flags) {
    AllThere(m, sel) && cut <= |sel| && AllThere(m, sel[..cut]) &&
    if q.countOnly then st == Scan([], |sel|, false, true) && cut == 0 && (f.countFake ==> sel == [])
    else
      var shown := Born(m, sel[..cut], q);
      && Lists(st.items, m, shown, q) && (q.limit > 0 ==> |shown| <= q.limit)
      && (0 < q.limit == |shown| ==> 0 < cut && BornOk(m[sel[cut - 1]], q))
      && (if st.countOnly then
            && 0 < q.limit == |shown| && st.more && (f.countFull || f.countFake)
            && st.count == |shown| + (|sel| - cut) && (f.countFake ==> cut == |sel|)
          else cut == |sel| && !st.more && st.count == |shown|)
  }

  lemma BornSnoc(m: map<bytes, Kv>, ks: seq<bytes>, k: bytes, q: RangeReq)
    requires AllThere(m, ks + [k])
    ensures AllThere(m, ks) && k in m
    ensures Born(m, ks + [k], q) == Born(m, ks, q) + if BornOk(m[k], q) then [k] else []
  {
    assert (ks + [k])[..|ks|] == ks && (ks + [k])[|ks|] == k;
    assert forall x <- ks :: x in ks + [k];
  }

  lemma ThereSnoc(m: map<bytes, Kv>, sel: seq<bytes>, k: bytes)
    requires AllThere(m, sel) && k in m
    ensures AllThere(m, sel + [k])
  {}

  lemma {:induction false} BornAtMost(m: map<bytes, Kv>, ks: seq<bytes>, q: RangeReq, j: nat)
    requires AllThere(m, ks) && j <= |ks| && AllThere(m, ks[..j])
    ensures |Born(m, ks[..j], q)| <= |Born(m, ks, q)|
  {
    hide BornOk;
    if j == |ks| {
      assert ks[..j] == ks;
    } else {
      var n := |ks| - 1;
      assert ks == ks[..n] + [ks[n]] && ks[..n][..j] == ks[..j];
      BornSnoc(m, ks[..n], ks[n], q);
      BornAtMost(m, ks[..n], q, j);
    }
  }

  /** The loop reaches the limit. */
  lemma DoingLimit(m: map<bytes, Kv>, sel: seq<bytes>, cut: nat, st: Scan, q: RangeReq, f: Flags)
    requires Doing(m, sel, cut, st, q, f) && !st.countOnly && 0 < q.limit == |st.items| && (f.countFull || f.countFake)
    ensures Doing(m, sel, cut, st.(more := true, countOnly := true), q, f)
  {
    hide BornOk, Presents;
  }

  /** A picked key that is only counted. */
  lemma DoingCount(m: map<bytes, Kv>, sel: seq<bytes>, cut: nat, st: Scan, q: RangeReq, f: Flags, k: bytes)
    requires Doing(m, sel, cut, st, q, f) && st.countOnly && k in m && !f.countFake
    ensures Doing(m, sel + [k], cut, st.(count := st.count + 1), q, f)
  {
    hide BornOk, Presents, Born;
    ThereSnoc(m, sel, k);
    assert (sel + [k])[..cut] == sel[..cut];
    assert cut > 0 ==> (sel + [k])[cut - 1] == sel[cut - 1];
  }

  /** A picked key that is read, and shown or rejected. */
  lemma DoingRead(m: map<bytes, Kv>, sel: seq<bytes>, st: Scan, q: RangeReq, f: Flags, k: bytes, item: Kv)
    requires Doing(m, sel, |sel|, st, q, f) && !st.countOnly && !q.countOnly && k in m && Presents(item, m[k], q)
    requires q.limit > 0 ==> |st.items| < q.limit
    ensures Doing(m, sel + [k], |sel| + 1,
      if BornOk(m[k], q) then st.(count := st.count + 1, items := st.items + [item]) else st, q, f)
  {
    hide BornOk, Presents, Born;
    ThereSnoc(m, sel, k);
    assert sel[..|sel|] == sel && (sel + [k])[..|sel| + 1] == sel + [k] && (sel + [k])[|sel|] == k;
    BornSnoc(m, sel, k, q);
  }

  // ---- how it ends ----

  ghost predicate Unread(h: map<bytes, Versions>, q: RangeReq, k: bytes) {
    ReadAt(Lookup(h, k), q.revision, false).Err?
  }

  /** The loop comes upon a pair it cannot read before it has shown as many as it may. */
  ghost predicate Stuck(h: map<bytes, Versions>, sel: seq<bytes>, q: RangeReq) {
    !q.countOnly && AllThere(Reads(h, q), sel) &&
    exists j | 0 <= j < |sel| :: StuckAt(h, sel, q, j)
  }

  ghost predicate StuckAt(h: map<bytes, Versions>, sel: seq<bytes>, q: RangeReq, j: nat)
    requires j < |sel| && AllThere(Reads(h, q), sel)
  {
    && Unread(h, q, sel[j]) && AllThere(Reads(h, q), sel[..j])
    && (q.limit > 0 ==> |Born(Reads(h, q), sel[..j], q)| < q.limit)
  }

  /** All keys read so far could be read. */
  ghost predicate Smooth(h: map<bytes, Versions>, sel: seq<bytes>, cut: nat, q: RangeReq) {
    cut <= |sel| && forall k <- sel[..cut] :: !Unread(h, q, k)
  }

  lemma SmoothSnoc(h: map<bytes, Versions>, sel: seq<bytes>, k: bytes, q: RangeReq)
    requires Smooth(h, sel, |sel|, q) && !Unread(h, q, k)
    ensures Smooth(h, sel + [k], |sel| + 1, q)
  {
    hide Unread;
    assert sel[..|sel|] == sel && (sel + [k])[..|sel| + 1] == sel + [k];
  }

  /** What the loop has made of the keys it read is final once the limit is reached or no key is left. */
  lemma NotStuck(h: map<bytes, Versions>, sel: seq<bytes>, cut: nat, q: RangeReq)
    requires AllThere(Reads(h, q), sel) && Smooth(h, sel, cut, q) && AllThere(Reads(h, q), sel[..cut])
    requires cut < |sel| ==> 0 < q.limit <= |Born(Reads(h, q), sel[..cut], q)|
    ensures !Stuck(h, sel, q)
  {
    hide Reads, Unread, Born;
    var m := Reads(h, q);
    forall j | 0 <= j < |sel| ensures !StuckAt(h, sel, q, j) {
      if j < cut {
        assert sel[..cut][j] == sel[j] && sel[j] in sel[..cut];
      } else {
        assert AllThere(m, sel[..j]) && sel[..j][..cut] == sel[..cut];
        BornAtMost(m, sel[..j], q, cut);
      }
    }
  }

  lemma PrefixThere(m: map<bytes, Kv>, sel: seq<bytes>, cut: nat)
    requires AllThere(m, sel) && cut <= |sel|
    ensures AllThere(m, sel[..cut])
  {}

  /** The loop comes to its end. */
  lemma DoingDone(m: map<bytes, Kv>, sel: seq<bytes>, cut: nat, st: Scan, q: RangeReq, f: Flags)
    requires Doing(m, sel, cut, st, q, f) && Selects(m, sel, q)
    ensures Ranged(m, sel, cut, q, f, RangeResult(st.items, st.count, st.more))
    ensures !q.countOnly && cut < |sel| ==> 0 < q.limit <= |Born(m, sel[..cut], q)|
  {
    hide BornOk, Presents, Born, Selects;
  }

  /** The loop stops at the limit, or at the first key beyond it. */
  lemma DoingStops(m: map<bytes, Kv>, sel: seq<bytes>, all: seq<bytes>, cut: nat, st: Scan, q: RangeReq, f: Flags)
    requires Doing(m, sel, cut, st, q, f) && !st.countOnly && 0 < q.limit == |st.items|
    requires sel <= all && Selects(m, all, q) && AllThere(m, all[..cut]) && !f.countFull && !f.countFake
    ensures Ranged(m, all, cut, q, f, RangeResult(st.items, st.count, true))
    ensures 0 < q.limit <= |Born(m, all[..cut], q)|
  {
    hide BornOk, Presents, Born, Selects;
    assert all[..cut] == sel[..cut] && (cut > 0 ==> all[cut - 1] == sel[cut - 1]);
  }

  lemma DoingFakes(m: map<bytes, Kv>, sel: seq<bytes>, all: seq<bytes>, cut: nat, st: Scan, q: RangeReq, f: Flags)
    requires Doing(m, sel, cut, st, q, f) && st.countOnly && f.countFake
    requires sel < all && Selects(m, all, q) && AllThere(m, all[..cut])
    ensures Ranged(m, all, cut, q, f, RangeResult(st.items, st.count + 1, st.more))
    ensures !q.countOnly ==> 0 < q.limit <= |Born(m, all[..cut], q)|
  {
    hide BornOk, Presents, Born, Selects;
    assert all[..cut] == sel[..cut] && (cut > 0 ==> all[cut - 1] == sel[cut - 1]);
  }

  /** The answer is what `Ranged` says, or a failure exactly if the loop gets stuck. */
  ghost predicate Concluded(h: map<bytes, Versions>, sel: seq<bytes>, q: RangeReq, f: Flags,
                            r: Result<RangeResult, Error>) {
    && Selects(Reads(h, q), sel, q)
    && (if Stuck(h, sel, q) then r == Err(ChecksumMissing)
        else r.Ok? && exists cut: nat :: Ranged(Reads(h, q), sel, cut, q, f, r.value))
  }

  lemma Conclude(h: map<bytes, Versions>, sel: seq<bytes>, q: RangeReq, f: Flags, cut: nat, r: RangeResult)
    requires Ranged(Reads(h, q), sel, cut, q, f, r) && Smooth(h, sel, cut, q)
    requires AllThere(Reads(h, q), sel) && AllThere(Reads(h, q), sel[..cut])
    requires !q.countOnly && cut < |sel| ==> 0 < q.limit <= |Born(Reads(h, q), sel[..cut], q)|
    ensures Concluded(h, sel, q, f, Ok(r))
  {
    assert Selects(Reads(h, q), sel, q);
    hide Reads, Ranged, Smooth, Born, Selects;
    if !q.countOnly { NotStuck(h, sel, cut, q); }
  }

  lemma ConcludeFail(h: map<bytes, Versions>, sel: seq<bytes>, all: seq<bytes>, q: RangeReq, f: Flags, st: Scan,
                     k: bytes)
    requires Doing(Reads(h, q), sel, |sel|, st, q, f) && !st.countOnly && !q.countOnly && Unread(h, q, k)
    requires (q.limit > 0 ==> |st.items| < q.limit) && sel + [k] <= all && Selects(Reads(h, q), all, q)
    requires AllThere(Reads(h, q), all)
    ensures Concluded(h, all, q, f, Err(ChecksumMissing))
  {
    hide BornOk, Presents, Born, Selects, Reads, Unread;
    assert all[..|sel|] == sel == sel[..|sel|] && all[|sel|] == k;
    assert StuckAt(h, all, q, |sel|);
  }

  lemma SelectsThere(m: map<bytes, Kv>, sel: seq<bytes>, q: RangeReq)
    requires Selects(m, sel, q)
    ensures AllThere(m, sel)
  {}

  lemma PicksSelect(h: map<bytes, Versions>, ks: seq<bytes>, q: RangeReq)
    requires SortedKeys(ks) && forall k :: k in ks <==> k in h
    ensures Selects(Reads(h, q), Picks(h, ks, q), q)
  {
    hide Reads, Picked, InRange, Within, Picks, SortedKeys, ModOk;
    PicksMembers(h, ks, q);
    var m, sel := Reads(h, q), Picks(h, ks, q);
    forall k ensures k in sel <==> k in m && Within(q, k) && ModOk(m[k], q) {
      WithinAgrees(q, k);
      PickedPair(h, q, k);
      if k !in h { NotThere(h, q, k); }
    }
  }

  lemma NotThere(h: map<bytes, Versions>, q: RangeReq, k: bytes)
    requires k !in h
    ensures k !in Reads(h, q)
  {}

  /** The loop at index i, with this much done. */
  ghost predicate At(h: map<bytes, Versions>, ks: seq<bytes>, i: nat, st: Scan, q: RangeReq, f: Flags, cut: nat) {
    && i <= |ks| && Doing(Reads(h, q), Picks(h, ks[..i], q), cut, st, q, f)
    && Smooth(h, Picks(h, ks[..i], q), cut, q)
  }

  lemma AtEnd(h: map<bytes, Versions>, ks: seq<bytes>, i: nat, st: Scan, q: RangeReq, f: Flags, cut: nat)
    requires SortedKeys(ks) && (forall k :: k in ks <==> k in h) && At(h, ks, i, st, q, f, cut)
    requires Seek(ks, q.key) <= i && (i < |ks| ==> EndsRange(ks[i], q))
    ensures Concluded(h, Picks(h, ks, q), q, f, Ok(RangeResult(st.items, st.count, st.more)))
  {
    hide SortedKeys, Seek, LexLess, Picks, Doing, Smooth, Ranged, Concluded, Selects, Born, Reads, FullScan;
    RangeEnd(h, ks, i, q);
    PicksSelect(h, ks, q);
    var sel, m := Picks(h, ks, q), Reads(h, q);
    SelectsThere(m, sel, q);
    SmoothCut(h, sel, cut, q);
    PrefixThere(m, sel, cut);
    DoingDone(m, sel, cut, st, q, f);
    Conclude(h, sel, q, f, cut, RangeResult(st.items, st.count, st.more));
  }

  lemma SmoothCut(h: map<bytes, Versions>, sel: seq<bytes>, cut: nat, q: RangeReq)
    requires Smooth(h, sel, cut, q)
    ensures cut <= |sel|
  {}

  lemma SmoothMore(h: map<bytes, Versions>, sel: seq<bytes>, all: seq<bytes>, cut: nat, q: RangeReq)
    requires Smooth(h, sel, cut, q) && sel <= all
    ensures Smooth(h, all, cut, q)
  {
    assert all[..cut] == sel[..cut];
  }

  lemma AtStop(h: map<bytes, Versions>, ks: seq<bytes>, i: nat, st: Scan, q: RangeReq, f: Flags, cut: nat)
    requires SortedKeys(ks) && (forall k :: k in ks <==> k in h) && At(h, ks, i, st, q, f, cut)
    requires !st.countOnly && 0 < q.limit == |st.items| && !f.countFull && !f.countFake
    ensures Concluded(h, Picks(h, ks, q), q, f, Ok(RangeResult(st.items, st.count, true)))
  {
    hide SortedKeys, Picks, Doing, Smooth, Ranged, Concluded, Selects, Born, Reads;
    PicksSelect(h, ks, q);
    PicksPrefix(h, ks, i, q);
    var sel, all, m := Picks(h, ks[..i], q), Picks(h, ks, q), Reads(h, q);
    SelectsThere(m, all, q);
    SmoothMore(h, sel, all, cut, q);
    SmoothCut(h, all, cut, q);
    PrefixThere(m, all, cut);
    DoingStops(m, sel, all, cut, st, q, f);
    Conclude(h, all, q, f, cut, RangeResult(st.items, st.count, true));
  }

  lemma AtFake(h: map<bytes, Versions>, ks: seq<bytes>, i: nat, st: Scan, q: RangeReq, f: Flags, cut: nat)
    requires SortedKeys(ks) && (forall k :: k in ks <==> k in h) && At(h, ks, i, st, q, f, cut) && i < |ks|
    requires st.countOnly && f.countFake && Picks(h, ks[..i + 1], q) == Picks(h, ks[..i], q) + [ks[i]]
    ensures Concluded(h, Picks(h, ks, q), q, f, Ok(RangeResult(st.items, st.count + 1, st.more)))
  {
    hide SortedKeys, Picks, Doing, Smooth, Ranged, Concluded, Selects, Born, Reads;
    PicksSelect(h, ks, q);
    PicksPrefix(h, ks, i + 1, q);
    var sel, all, m := Picks(h, ks[..i], q), Picks(h, ks, q), Reads(h, q);
    assert sel < all by { assert sel + [ks[i]] <= all; }
    SelectsThere(m, all, q);
    SmoothMore(h, sel, all, cut, q);
    SmoothCut(h, all, cut, q);
    PrefixThere(m, all, cut);
    DoingFakes(m, sel, all, cut, st, q, f);
    Conclude(h, all, q, f, cut, RangeResult(st.items, st.count + 1, st.more));
  }

  lemma AtFail(h: map<bytes, Versions>, ks: seq<bytes>, i: nat, st: Scan, q: RangeReq, f: Flags, cut: nat)
    requires SortedKeys(ks) && (forall k :: k in ks <==> k in h) && At(h, ks, i, st, q, f, cut) && i < |ks|
    requires !st.countOnly && (q.limit > 0 ==> |st.items| < q.limit) && Unread(h, q, ks[i])
    requires Picks(h, ks[..i + 1], q) == Picks(h, ks[..i], q) + [ks[i]]
    ensures Concluded(h, Picks(h, ks, q), q, f, Err(ChecksumMissing))
  {
    hide SortedKeys, Picks, Smooth, Ranged, Concluded, Selects, Born, Reads, Unread, Lists, BornOk;
    PicksSelect(h, ks, q);
    PicksPrefix(h, ks, i + 1, q);
    var sel, all := Picks(h, ks[..i], q), Picks(h, ks, q);
    SelectsThere(Reads(h, q), all, q);
    ConcludeFail(h, sel, all, q, f, st, ks[i]);
  }

  /** One key is read, and shown or rejected; or counted; or passed over. */
  lemma AtNext(h: map<bytes, Versions>, ks: seq<bytes>, i: nat, st: Scan, q: RangeReq, f: Flags, cut: nat,
               o: KeyOutcome)
    returns (next: nat)
    requires SortedKeys(ks) && Seek(ks, q.key) <= i < |ks| && !EndsRange(ks[i], q) && At(h, ks, i, st, q, f, cut)
    requires o == OutcomeOf(Lookup(h, ks[i]), q, st.countOnly) && !o.Fail? && (o.Count? ==> !f.countFake)
    requires !st.countOnly && q.limit > 0 ==> |st.items| < q.limit
    ensures At(h, ks, i + 1, Tally(st, o), q, f, next)
  {
    var sel, k, m := Picks(h, ks[..i], q), ks[i], Reads(h, q);
    RangePick(h, ks, i, q);
    hide SortedKeys, Seek, LexLess, Picks, Reads, BornOk, Presents, Picked, ReadAt, Smooth;
    next := cut;
    PickedPair(h, q, k);
    if !Picked(Lookup(h, k), q) {
      assert sel + [] == sel;
    } else if st.countOnly {
      hide Doing;
      DoingCount(m, sel, cut, st, q, f, k);
      SmoothMore(h, sel, sel + [k], cut, q);
    } else {
      assert cut == |sel|;
      next := cut + 1;
      DoingRead(m, sel, st, q, f, k, ItemOf(Lookup(h, k), q));
      SmoothSnoc(h, sel, k, q);
      BornIsCreated(m[k], q);
    }
  }

  lemma BornIsCreated(kv: Kv, q: RangeReq)
    ensures BornOk(kv, q) <==> CreatedOk(kv, q)
  {}

  lemma {:induction false} LoopConcludes(h: map<bytes, Versions>, ks: seq<bytes>, i: nat, st: Scan, q: RangeReq,
                                         f: Flags, cut: nat)
    requires SortedKeys(ks) && (forall k :: k in ks <==> k in h) && Seek(ks, q.key) <= i <= |ks|
    requires At(h, ks, i, st, q, f, cut)
    requires !st.countOnly && q.limit > 0 ==> |st.items| <= q.limit
    ensures Concluded(h, Picks(h, ks, q), q, f, ScanFrom(h, ks, i, st, q, f))
    decreases |ks| - i
  {
    hide Concluded, At, OutcomeOf, SortedKeys, Seek, LexLess, EndsRange, Tally, Picks, Unread;
    if i == |ks| || EndsRange(ks[i], q) {
      AtEnd(h, ks, i, st, q, f, cut);
    } else {
      var full := !st.countOnly && q.limit > 0 && |st.items| == q.limit;
      if full && !f.countFull && !f.countFake {
        AtStop(h, ks, i, st, q, f, cut);
      } else {
        var st1 := if full then st.(more := true, countOnly := true) else st;
        if full { AtLimit(h, ks, i, st, q, f, cut); }
        var o := OutcomeOf(Lookup(h, ks[i]), q, st1.countOnly);
        OutcomeCases(h, ks, i, q, st1.countOnly);
        if o.Fail? {
          AtFail(h, ks, i, st1, q, f, cut);
        } else if o.Count? && f.countFake {
          AtFake(h, ks, i, st1, q, f, cut);
          TallyCount(st1);
        } else {
          var next := AtNext(h, ks, i, st1, q, f, cut, o);
          TallyFits(st1, o);
          if q.end == [] {
            SingleKey(ks, i, q);
            AtEnd(h, ks, i + 1, Tally(st1, o), q, f, next);
          } else {
            AtFits(h, ks, i + 1, Tally(st1, o), q, f, next);
            LoopConcludes(h, ks, i + 1, Tally(st1, o), q, f, next);
          }
        }
      }
    }
  }

  lemma AtLimit(h: map<bytes, Versions>, ks: seq<bytes>, i: nat, st: Scan, q: RangeReq, f: Flags, cut: nat)
    requires At(h, ks, i, st, q, f, cut) && !st.countOnly && 0 < q.limit == |st.items| && (f.countFull || f.countFake)
    ensures At(h, ks, i, st.(more := true, countOnly := true), q, f, cut)
  {
    hide Doing, Smooth, Picks, Reads;
    DoingLimit(Reads(h, q), Picks(h, ks[..i], q), cut, st, q, f);
  }

  lemma AtFits(h: map<bytes, Versions>, ks: seq<bytes>, i: nat, st: Scan, q: RangeReq, f: Flags, cut: nat)
    requires At(h, ks, i, st, q, f, cut)
    ensures !st.countOnly && q.limit > 0 ==> |st.items| <= q.limit
  {
    hide Smooth, Picks, Reads, Born, BornOk, Presents;
  }

  lemma TallyCount(st: Scan)
    ensures Tally(st, Count) == st.(count := st.count + 1)
  {}

  lemma TallyFits(st: Scan, o: KeyOutcome)
    ensures Tally(st, o).countOnly == st.countOnly
  {}

  lemma OutcomeCases(h: map<bytes, Versions>, ks: seq<bytes>, i: nat, q: RangeReq, countOnly: bool)
    requires SortedKeys(ks) && Seek(ks, q.key) <= i < |ks| && !EndsRange(ks[i], q)
    ensures var o := OutcomeOf(Lookup(h, ks[i]), q, countOnly);
      && (o.Fail? ==> o.error == ChecksumMissing && !countOnly && Unread(h, q, ks[i]))
      && (o.Count? ==> countOnly)
      && (o.Fail? || o.Count? ==> Picks(h, ks[..i + 1], q) == Picks(h, ks[..i], q) + [ks[i]])
  {
    RangePick(h, ks, i, q);
    OnlyShort(Lookup(h, ks[i]), q.revision, false);
    hide SortedKeys, Seek, LexLess, Picks, Picked, ReadAt, EndsRange, CreatedOk, ItemOf;
  }

  lemma AtStart(h: map<bytes, Versions>, ks: seq<bytes>, i: nat, q: RangeReq, f: Flags)
    requires i <= |ks| && Picks(h, ks[..i], q) == []
    ensures At(h, ks, i, Scan([], 0, false, q.countOnly), q, f, 0)
  {
    hide Picks, Reads, BornOk, Presents;
    var none: seq<bytes> := [];
    assert none[..0] == none && Born(Reads(h, q), none, q) == none;
  }

  /** So the whole range answers. */
  lemma RangeConcludes(h: map<bytes, Versions>, ks: seq<bytes>, q: RangeReq, f: Flags)
    requires SortedKeys(ks) && forall k :: k in ks <==> k in h
    ensures Concluded(h, Picks(h, ks, q), q, f, RangeOf(h, ks, q, f))
  {
    hide Concluded, At, SortedKeys, Seek, ScanFrom, Picks;
    RangeStart(h, ks, q);
    AtStart(h, ks, Seek(ks, q.key), q, f);
    LoopConcludes(h, ks, Seek(ks, q.key), Scan([], 0, false, q.countOnly), q, f, 0);
  }
}
