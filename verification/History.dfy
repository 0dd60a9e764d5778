/**
 What the three tables of db_kv.go stand for: for every key its versions,
 newest first, and the log of events. Operations are given here on these values;
 DbKv proves that the tables, in which old values are patches, follow them.
 */
module History {
  import opened Base
  import opened KeyRev
  import opened KvCodec

  /** A put, with the lease its key record carries, or a tombstone. */
  datatype Version = Live(kv: Kv, recLease: nat) | Tomb(tomb: Rev)

  datatype Event = Event(epoch: nat, key: bytes, rev: Rev)

  type Versions = seq<Version>

  /** The keys in byte order, the versions of each, and the events in order of revision. */
  datatype Store = Store(keys: seq<bytes>, hist: map<bytes, Versions>, evts: seq<Event>)

  const EMPTY := Store([], map[], [])

  function RevOf(v: Version): Rev {
    match v
    case Live(kv, _) => kv.rev
    case Tomb(r) => r
  }

  // ---- order of keys ----

  predicate LexAtMost(s: bytes, t: bytes) { !LexLess(t, s) }

  lemma {:induction false} LexTotal(s: bytes, t: bytes)
    ensures s == t <==> !LexLess(s, t) && !LexLess(t, s)
    ensures !(LexLess(s, t) && LexLess(t, s))
  {
    if s != [] && t != [] && s[0] == t[0] {
      LexTotal(s[1..], t[1..]);
      assert s == [s[0]] + s[1..] && t == [t[0]] + t[1..];
    }
  }

  lemma {:induction false} LexTransitive(s: bytes, t: bytes, u: bytes)
    requires LexLess(s, t) && !LexLess(u, t)
    ensures LexLess(s, u)
  {
    if s != [] && t != [] && u != [] && s[0] == t[0] == u[0] {
      LexTransitive(s[1..], t[1..], u[1..]);
    }
  }

  ghost predicate SortedKeys(ks: seq<bytes>) {
    forall i, j | 0 <= i < j < |ks| :: LexLess(ks[i], ks[j])
  }

  /** The position at which a seek for `key` stops. */
  function Seek(ks: seq<bytes>, key: bytes): (i: nat)
    ensures i <= |ks| && (forall j | 0 <= j < i :: LexLess(ks[j], key))
    ensures i < |ks| ==> !LexLess(ks[i], key)
  {
    if ks == [] || !LexLess(ks[0], key) then 0 else 1 + Seek(ks[1..], key)
  }

  function InsertKey(ks: seq<bytes>, key: bytes): seq<bytes> {
    var i := Seek(ks, key);
    if i < |ks| && ks[i] == key then ks else ks[..i] + [key] + ks[i..]
  }

  lemma InsertedBefore(ks: seq<bytes>, key: bytes, j: nat)
    requires SortedKeys(ks) && Seek(ks, key) <= j < |ks| && ks[Seek(ks, key)] != key
    ensures LexLess(key, ks[j])
  {
    var i := Seek(ks, key);
    LexTotal(key, ks[i]);
    LexTotal(ks[i], ks[j]);
    LexTransitive(key, ks[i], ks[j]);
  }

  lemma InsertKeySorted(ks: seq<bytes>, key: bytes)
    requires SortedKeys(ks)
    ensures SortedKeys(InsertKey(ks, key))
    ensures forall k :: k in InsertKey(ks, key) <==> k in ks || k == key
  {
    var i := Seek(ks, key);
    if !(i < |ks| && ks[i] == key) {
      forall j | i <= j < |ks| ensures LexLess(key, ks[j]) { InsertedBefore(ks, key, j); }
      assert forall j | 0 <= j < i :: LexLess(ks[j], key);
      hide LexLess, Seek;
      InsertAtSorted(ks, key, i);
    } else {
      assert key in ks;
    }
  }

  lemma InsertAtSorted(ks: seq<bytes>, key: bytes, i: nat)
    requires SortedKeys(ks) && i <= |ks|
    requires (forall j | 0 <= j < i :: LexLess(ks[j], key)) && (forall j | i <= j < |ks| :: LexLess(key, ks[j]))
    ensures SortedKeys(ks[..i] + [key] + ks[i..])
    ensures forall k :: k in ks[..i] + [key] + ks[i..] <==> k in ks || k == key
  {
    hide LexLess;
    var r := ks[..i] + [key] + ks[i..];
    assert ks == ks[..i] + ks[i..];
    forall m, n | 0 <= m < n < |r| ensures LexLess(r[m], r[n]) {
      assert r[m] == if m < i then ks[m] else if m == i then key else ks[m - 1];
      assert r[n] == if n < i then ks[n] else if n == i then key else ks[n - 1];
    }
  }

  /** A seek finds a key that is there, and only then. */
  lemma SeekFinds(ks: seq<bytes>, key: bytes)
    requires SortedKeys(ks)
    ensures var i := Seek(ks, key); (i < |ks| && ks[i] == key) <==> key in ks
  {
    var i := Seek(ks, key);
    if key in ks {
      var j :| 0 <= j < |ks| && ks[j] == key;
      LexTotal(key, key);
      forall m | 0 <= m < j ensures LexLess(ks[m], key) {}
    }
  }

  // ---- versions ----

  ghost predicate Descending(vs: Versions) {
    forall i, j | 0 <= i < j < |vs| :: Older(RevOf(vs[j]), RevOf(vs[i]))
  }

  /** The version of a key as of revision r, where 0 means now. */
  function Visible(vs: Versions, r: nat): (v: Option<Version>) {
    if vs == [] then None
    else if r > 0 && RevOf(vs[0]).upper > r then Visible(vs[1..], r)
    else Some(vs[0])
  }

  /** The pair a key held as of revision r. */
  function ValueAt(vs: Versions, r: nat): Option<Kv> {
    var v := Visible(vs, r);
    if v.Some? && v.value.Live? then Some(v.value.kv) else None
  }

  /**
   A read of that pair. It replays the values from the newest version down to the
   last tombstone above the pair, so it fails exactly if one of those is too short
   to be read back; `bad` says one was already met.
   */
  function ReadAt(vs: Versions, r: nat, bad: bool): Result<Option<Kv>, Error> {
    if vs == [] then Ok(None)
    else if r > 0 && RevOf(vs[0]).upper > r then
      ReadAt(vs[1..], r, vs[0].Live? && (bad || Short(vs[0].kv)))
    else
      match vs[0]
      case Tomb(_) => Ok(None)
      case Live(kv, _) => if bad || Short(kv) then Err(ChecksumMissing) else Ok(Some(kv))
  }

  /** One of these versions is too short to be read back. */
  function AnyShort(vs: Versions): bool {
    vs != [] && (AnyShort(vs[..|vs| - 1]) || (vs[|vs| - 1].Live? && Short(vs[|vs| - 1].kv)))
  }

  /** The pair just below the version visible at r, if that is not a tombstone. */
  function Below(vs: Versions, r: nat): Option<Kv> {
    if vs == [] then None
    else if r > 0 && RevOf(vs[0]).upper > r then Below(vs[1..], r)
    else if |vs| > 1 && vs[1].Live? then Some(vs[1].kv) else None
  }

  /** A read of a pair together with the one it replaced. */
  function ReadWithPrev(vs: Versions, r: nat, withPrev: bool): Result<(Option<Kv>, Option<Kv>), Error> {
    var item := ReadAt(vs, r, false);
    if item.Err? then Err(item.error)
    else if !withPrev || Below(vs, r).None? then Ok((item.value, None))
    else if Short(Below(vs, r).value) then Err(ChecksumMissing)
    else Ok((item.value, Below(vs, r)))
  }

  ghost predicate NoneShort(vs: Versions) {
    forall v <- vs :: v.Live? ==> !Short(v.kv)
  }

  /** Away from such values every read succeeds with the value as of that revision. */
  lemma {:induction false} ReadAtIsValueAt(vs: Versions, r: nat)
    requires NoneShort(vs)
    ensures ReadAt(vs, r, false) == Ok(ValueAt(vs, r))
  {
    if vs != [] && r > 0 && RevOf(vs[0]).upper > r {
      assert vs[0] in vs;
      ReadAtIsValueAt(vs[1..], r);
    } else if vs != [] {
      assert vs[0] in vs;
    }
  }

  /** A successful read is always the value as of that revision. */
  lemma {:induction false} ReadAtSound(vs: Versions, r: nat, bad: bool)
    ensures ReadAt(vs, r, bad).Ok? ==> ReadAt(vs, r, bad).value == ValueAt(vs, r)
  {
    if vs != [] && r > 0 && RevOf(vs[0]).upper > r {
      ReadAtSound(vs[1..], r, vs[0].Live? && (bad || Short(vs[0].kv)));
    }
  }

  /** A tombstone lies above the version visible at r. */
  predicate TombAbove(vs: Versions, r: nat) {
    vs != [] && r > 0 && RevOf(vs[0]).upper > r && (vs[0].Tomb? || TombAbove(vs[1..], r))
  }

  lemma {:induction false} ReadBad(vs: Versions, r: nat, bad: bool)
    requires NoneShort(vs)
    ensures ReadAt(vs, r, bad).Err? <==> bad && ValueAt(vs, r).Some? && !TombAbove(vs, r)
  {
    if vs != [] {
      assert vs[0] in vs;
      if r > 0 && RevOf(vs[0]).upper > r { ReadBad(vs[1..], r, vs[0].Live? && bad); }
    }
  }

  /**
   A put of a pair too short to read back also hides what its key held before, back to
   the last tombstone, although the older values themselves are sound.
   */
  lemma ShortHidesPast(v: Version, vs: Versions, r: nat)
    requires v.Live? && Short(v.kv) && NoneShort(vs) && 0 < r < v.kv.rev.upper
    ensures ReadAt([v] + vs, r, false).Err? <==> ValueAt(vs, r).Some? && !TombAbove(vs, r)
  {
    assert ([v] + vs)[1..] == vs;
    ReadBad(vs, r, true);
  }

  function Lookup(h: map<bytes, Versions>, key: bytes): Versions {
    if key in h then h[key] else []
  }

  /** What every key held as of revision r. */
  function SnapshotAt(h: map<bytes, Versions>, r: nat): map<bytes, Kv> {
    map k | k in h && ValueAt(h[k], r).Some? :: ValueAt(h[k], r).value
  }

  lemma SnapshotGet(h: map<bytes, Versions>, r: nat, k: bytes)
    ensures k in SnapshotAt(h, r) <==> ValueAt(Lookup(h, k), r).Some?
    ensures k in SnapshotAt(h, r) ==> SnapshotAt(h, r)[k] == ValueAt(Lookup(h, k), r).value
  {
    assert ValueAt([], r) == None;
    hide ValueAt;
  }

  // ---- range ----

  datatype RangeReq = RangeReq(key: bytes, end: bytes, revision: nat, minMod: nat, maxMod: nat,
                               minCreated: nat, maxCreated: nat, limit: nat, countOnly: bool, keysOnly: bool)

  predicate FullScan(q: RangeReq) { q.key == [0] && q.end == [0] }

  /** getRange stops short of its end key, unless both bounds are the zero byte. */
  predicate InRange(k: bytes, q: RangeReq) {
    if FullScan(q) then LexAtMost(q.key, k)
    else if q.end == [] then k == q.key
    else LexAtMost(q.key, k) && LexLess(k, q.end)
  }

  /** The key is live at the requested revision and passes the filters on its last change. */
  predicate Picked(vs: Versions, q: RangeReq) {
    var kv := ValueAt(vs, q.revision);
    kv.Some? && (q.minMod > 0 ==> kv.value.rev.upper >= q.minMod) && (q.maxMod > 0 ==> kv.value.rev.upper <= q.maxMod)
  }

  function Picks(h: map<bytes, Versions>, ks: seq<bytes>, q: RangeReq): (r: seq<bytes>)
    ensures forall i | 0 <= i < |r| :: InRange(r[i], q) && Picked(Lookup(h, r[i]), q)
  {
    if ks == [] then []
    else
      var n := |ks| - 1;
      Picks(h, ks[..n], q) + if InRange(ks[n], q) && Picked(Lookup(h, ks[n]), q) then [ks[n]] else []
  }

  predicate CreatedOk(kv: Kv, q: RangeReq) {
    (q.minCreated > 0 ==> kv.created >= q.minCreated) && (q.maxCreated > 0 ==> kv.created <= q.maxCreated)
  }

  function Shown(kv: Kv, q: RangeReq): Kv {
    if q.keysOnly then kv.(val := []) else kv
  }

  function ItemOf(vs: Versions, q: RangeReq): Kv
    requires Picked(vs, q)
  {
    Shown(ValueAt(vs, q.revision).value, q)
  }

  /** The picked keys are exactly the keys of the table in range that pass the filters, in order. */
  lemma {:induction false} PicksMembers(h: map<bytes, Versions>, ks: seq<bytes>, q: RangeReq)
    requires SortedKeys(ks)
    ensures SortedKeys(Picks(h, ks, q))
    ensures forall k :: k in Picks(h, ks, q) <==> k in ks && InRange(k, q) && Picked(Lookup(h, k), q)
  {
    hide InRange, Picked, Lookup, LexLess;
    if ks != [] {
      var n := |ks| - 1;
      PicksMembers(h, ks[..n], q);
      assert ks == ks[..n] + [ks[n]];
      var r := Picks(h, ks[..n], q);
      forall j | 0 <= j < |r| ensures LexLess(r[j], ks[n]) {
        assert r[j] in ks[..n];
        var m :| 0 <= m < n && ks[m] == r[j];
      }
    }
  }

  lemma {:induction false} PicksPrefix(h: map<bytes, Versions>, ks: seq<bytes>, i: nat, q: RangeReq)
    requires i <= |ks|
    ensures Picks(h, ks[..i], q) <= Picks(h, ks, q)
  {
    hide InRange, Picked, Lookup;
    if i == |ks| {
      assert ks[..i] == ks;
    } else {
      PicksPrefix(h, ks[..|ks| - 1], i, q);
      assert ks[..|ks| - 1][..i] == ks[..i];
    }
  }

  lemma {:induction false} PicksTail(h: map<bytes, Versions>, ks: seq<bytes>, i: nat, q: RangeReq)
    requires i <= |ks| && forall j | i <= j < |ks| :: !InRange(ks[j], q)
    ensures Picks(h, ks[..i], q) == Picks(h, ks, q)
  {
    hide InRange, Picked, Lookup;
    if i == |ks| {
      assert ks[..i] == ks;
    } else {
      PicksTail(h, ks[..|ks| - 1], i, q);
      assert ks[..|ks| - 1][..i] == ks[..i];
    }
  }

  lemma {:induction false} PicksNone(h: map<bytes, Versions>, ks: seq<bytes>, q: RangeReq)
    requires forall j | 0 <= j < |ks| :: !InRange(ks[j], q)
    ensures Picks(h, ks, q) == []
  {
    hide InRange, Picked, Lookup;
    if ks != [] { PicksNone(h, ks[..|ks| - 1], q); }
  }

  /** Keys before the seek position of a range are not in it. */
  lemma BeforeRange(ks: seq<bytes>, q: RangeReq)
    requires SortedKeys(ks)
    ensures forall j | 0 <= j < Seek(ks, q.key) :: !InRange(ks[j], q)
  {
    forall j | 0 <= j < Seek(ks, q.key) ensures !InRange(ks[j], q) {
      LexTotal(ks[j], q.key);
    }
  }

  /** From the first key past the end of a range on, none is in it. */
  lemma PastRange(ks: seq<bytes>, q: RangeReq, i: nat)
    requires SortedKeys(ks) && Seek(ks, q.key) <= i < |ks| && !FullScan(q)
    requires if q.end == [] then ks[i] != q.key else !LexLess(ks[i], q.end)
    ensures forall j | i <= j < |ks| :: !InRange(ks[j], q)
  {
    forall j | i <= j < |ks| ensures !InRange(ks[j], q) {
      if q.end == [] {
        LexTotal(ks[Seek(ks, q.key)], q.key);
        LexTotal(ks[i], q.key);
      } else if i < j && LexLess(ks[j], q.end) {
        LexTotal(ks[i], ks[j]);
        LexTotal(ks[j], q.end);
        LexTransitive(ks[i], ks[j], q.end);
      }
    }
  }

  // ---- put ----

  datatype PutArgs = PutArgs(rev: nat, subrev: nat, lease: nat, epoch: nat, key: bytes, val: bytes,
                             ignoreValue: bool, ignoreLease: bool)

  datatype OpError = EmptyKey | KeyTooLong | DuplicateKey | Compacted | FutureRev | NotFound | Storage(error: Error)

  const KEY_LIMIT: nat := 480

  function Current(h: map<bytes, Versions>, key: bytes): Option<Kv> {
    ValueAt(Lookup(h, key), 0)
  }

  /** Why a put fails, if it does. */
  function PutFails(s: Store, a: PutArgs, multiWrite: bool): Option<OpError> {
    var prev := Current(s.hist, a.key);
    if a.key == [] then Some(EmptyKey)
    else if |a.key| > KEY_LIMIT then Some(KeyTooLong)
    else if prev.None? then None
    else if prev.value.rev.upper == a.rev && !multiWrite then Some(DuplicateKey)
    else if Short(prev.value) then Some(Storage(ChecksumMissing))
    else None
  }

  /** The pair a put writes. */
  function Written(s: Store, a: PutArgs): Kv {
    var prev := Current(s.hist, a.key);
    var rev := Rev(a.rev, a.subrev, false);
    if prev.None? then Kv(rev, 1, a.rev, a.lease, a.key, a.val)
    else
      Kv(rev, prev.value.version + 1, prev.value.created,
         if a.ignoreLease then prev.value.lease else a.lease, a.key,
         if a.ignoreValue then prev.value.val else a.val)
  }

  /** Puts a version on top of a key and logs it. */
  function Push(s: Store, epoch: nat, key: bytes, v: Version): Store {
    Store(InsertKey(s.keys, key),
          s.hist[key := [v] + Lookup(s.hist, key)],
          s.evts + [Event(epoch, key, RevOf(v))])
  }

  function Put(s: Store, a: PutArgs): Store {
    Push(s, a.epoch, a.key, Live(Written(s, a), a.lease))
  }

  // ---- delete ----

  function Delete(s: Store, epoch: nat, key: bytes, rev: Rev): Store {
    if Current(s.hist, key).Some? then Push(s, epoch, key, Tomb(rev)) else s
  }

  /** Deletes the keys one after the other, all under one revision. */
  function DeleteAll(s: Store, epoch: nat, ks: seq<bytes>, rev: Rev): Store {
    if ks == [] then s
    else Delete(DeleteAll(s, epoch, ks[..|ks| - 1], rev), epoch, ks[|ks| - 1], rev)
  }

  /** deleteRange reaches its end key, and without an end just the one key. */
  predicate InDeleteRange(k: bytes, key: bytes, end: bytes) {
    if end == [] then k == key else LexAtMost(key, k) && LexAtMost(k, end)
  }

  function DeleteKeys(ks: seq<bytes>, key: bytes, end: bytes): (r: seq<bytes>)
    ensures forall k :: k in r <==> k in ks && InDeleteRange(k, key, end)
  {
    if ks == [] then []
    else
      var n := |ks| - 1;
      assert ks == ks[..n] + [ks[n]];
      DeleteKeys(ks[..n], key, end) + if InDeleteRange(ks[n], key, end) then [ks[n]] else []
  }

  function DeleteRange(s: Store, epoch: nat, key: bytes, end: bytes, rev: Rev): Store {
    DeleteAll(s, epoch, DeleteKeys(s.keys, key, end), rev)
  }

  // ---- compaction ----

  /** The last event of a key below revision max. */
  function LastBelow(evts: seq<Event>, key: bytes, max: nat): Option<Rev> {
    if evts == [] then None
    else
      var e := evts[|evts| - 1];
      if e.key == key && e.rev.upper < max then Some(e.rev) else LastBelow(evts[..|evts| - 1], key, max)
  }

  /** The versions not older than r. */
  function KeepFrom(vs: Versions, r: Rev): Versions {
    if vs == [] || Older(RevOf(vs[0]), r) then [] else [vs[0]] + KeepFrom(vs[1..], r)
  }

  function CompactVersions(vs: Versions, last: Option<Rev>): Versions {
    if last.None? then vs else KeepFrom(vs, last.value)
  }

  function EventsFrom(evts: seq<Event>, max: nat): (r: seq<Event>)
    ensures |r| <= |evts| && r == evts[|evts| - |r|..]
  {
    if evts == [] then []
    else if evts[0].rev.upper < max then EventsFrom(evts[1..], max) else evts
  }

  function Compact(s: Store, max: nat): Store {
    Store(s.keys,
          map k | k in s.hist :: CompactVersions(s.hist[k], LastBelow(s.evts, k, max)),
          EventsFrom(s.evts, max))
  }

  /** compact answers only if some event at or above the target is left to stop at. */
  predicate CanCompact(s: Store, max: nat) {
    max > 0 && s.evts != [] && s.evts[|s.evts| - 1].rev.upper >= max
  }

  // ---- well-formed stores ----

  ghost predicate SortedEvents(evts: seq<Event>) {
    forall i, j | 0 <= i < j < |evts| :: !Older(evts[j].rev, evts[i].rev)
  }

  ghost predicate Recorded(h: map<bytes, Versions>, e: Event) {
    e.key in h && exists v <- h[e.key] :: RevOf(v) == e.rev
  }

  /** The versions of one key: newest first, all writable, none heavier than its revision allows. */
  ghost predicate GoodVersions(key: bytes, vs: Versions) {
    && vs != [] && Descending(vs) && key != [] && |key| <= KEY_LIMIT
    && (forall v <- vs :: Packable(RevOf(v)))
    && (forall v <- vs :: v.Live? ==> v.kv.key == key && Fits(v.kv) && v.recLease < UINT64_LIMIT
                                      && v.kv.version <= v.kv.rev.upper * LOWER_LIMIT + v.kv.rev.lower + 1)
    && (forall v <- vs :: v.Tomb? ==> v.tomb.del)
  }

  ghost predicate Good(s: Store) {
    && SortedKeys(s.keys) && (forall k :: k in s.keys <==> k in s.hist)
    && (forall k <- s.hist :: GoodVersions(k, s.hist[k]))
    && SortedEvents(s.evts) && (forall e <- s.evts :: Recorded(s.hist, e))
  }

  /** Every write so far is older than r. */
  ghost predicate AllOlder(s: Store, r: Rev) {
    && (forall k <- s.hist :: forall v <- s.hist[k] :: Older(RevOf(v), r))
    && (forall e <- s.evts :: Older(e.rev, r))
  }

  /** A version that may go on top of a key. */
  ghost predicate Fresh(s: Store, key: bytes, v: Version) {
    && GoodVersions(key, [v])
    && (forall w <- Lookup(s.hist, key) :: Older(RevOf(w), RevOf(v)))
    && (forall e <- s.evts :: !Older(RevOf(v), e.rev))
  }

  lemma PushVersions(key: bytes, v: Version, vs: Versions)
    requires GoodVersions(key, [v]) && (vs == [] || GoodVersions(key, vs))
    requires forall w <- vs :: Older(RevOf(w), RevOf(v))
    ensures GoodVersions(key, [v] + vs)
  {
    var r := [v] + vs;
    assert [v][0] == v && v in [v];
    forall i, j | 0 <= i < j < |r| ensures Older(RevOf(r[j]), RevOf(r[i])) {
      assert r[j] == vs[j - 1] && vs[j - 1] in vs;
    }
    assert forall w <- r :: w == v || w in vs;
  }

  lemma RecordedKept(s: Store, epoch: nat, key: bytes, v: Version, e: Event)
    requires Recorded(s.hist, e) || e == Event(epoch, key, RevOf(v))
    ensures Recorded(Push(s, epoch, key, v).hist, e)
  {
    var t := Push(s, epoch, key, v);
    if Recorded(s.hist, e) {
      var w :| w in s.hist[e.key] && RevOf(w) == e.rev;
      assert w in t.hist[e.key];
    } else {
      assert t.hist[key][0] == v;
    }
  }

  lemma PushGood(s: Store, epoch: nat, key: bytes, v: Version)
    requires Good(s) && Fresh(s, key, v)
    ensures Good(Push(s, epoch, key, v))
  {
    var t := Push(s, epoch, key, v);
    InsertKeySorted(s.keys, key);
    PushVersions(key, v, Lookup(s.hist, key));
    forall e | e in t.evts ensures Recorded(t.hist, e) {
      RecordedKept(s, epoch, key, v, e);
    }
    forall i, j | 0 <= i < j < |t.evts| ensures !Older(t.evts[j].rev, t.evts[i].rev) {
      if j == |s.evts| { assert t.evts[i] in s.evts; }
    }
  }

  /** The arguments the callers of put respect: ranges of the encoding and a new revision. */
  ghost predicate PutArgsOk(s: Store, a: PutArgs) {
    && Packable(Rev(a.rev, a.subrev, false)) && a.lease < UINT64_LIMIT && |a.val| < INT_LIMIT
    && AllOlder(s, Rev(a.rev, a.subrev, false))
  }

  lemma VersionsNewest(key: bytes, vs: Versions)
    requires GoodVersions(key, vs)
    ensures vs[0] in vs && ValueAt(vs, 0) == if vs[0].Live? then Some(vs[0].kv) else None
  {}

  lemma WrittenFresh(s: Store, a: PutArgs)
    requires Good(s) && PutArgsOk(s, a) && PutFails(s, a, true).None?
    ensures Fresh(s, a.key, Live(Written(s, a), a.lease))
  {
    var v := Live(Written(s, a), a.lease);
    if a.key in s.hist {
      VersionsNewest(a.key, s.hist[a.key]);
      assert Older(RevOf(s.hist[a.key][0]), RevOf(v));
    }
    assert forall w <- [v] :: w == v;
  }

  lemma PutGood(s: Store, a: PutArgs)
    requires Good(s) && PutArgsOk(s, a) && PutFails(s, a, true).None?
    ensures Good(Put(s, a))
  {
    WrittenFresh(s, a);
    PushGood(s, a.epoch, a.key, Live(Written(s, a), a.lease));
  }

  lemma DeleteGood(s: Store, epoch: nat, key: bytes, rev: Rev)
    requires Good(s) && Packable(rev) && rev.del && (forall e <- s.evts :: !Older(rev, e.rev))
    requires Current(s.hist, key).Some? ==> forall w <- Lookup(s.hist, key) :: Older(RevOf(w), rev)
    ensures Good(Delete(s, epoch, key, rev))
  {
    if Current(s.hist, key).Some? {
      assert GoodVersions(key, s.hist[key]);
      assert forall w <- [Tomb(rev)] :: w == Tomb(rev);
      PushGood(s, epoch, key, Tomb(rev));
    }
  }

  /** A key that is still live after some deletions was not touched by them. */
  lemma {:induction false} DeleteAllLive(s: Store, epoch: nat, ks: seq<bytes>, rev: Rev, key: bytes)
    ensures var t := DeleteAll(s, epoch, ks, rev);
      && (Current(t.hist, key).Some? || key !in ks ==> Lookup(t.hist, key) == Lookup(s.hist, key))
      && (key in ks ==> Current(t.hist, key).None?)
  {
    if ks != [] {
      var n := |ks| - 1;
      DeleteAllLive(s, epoch, ks[..n], rev, key);
      assert ks == ks[..n] + [ks[n]];
    }
  }

  lemma {:induction false} DeleteAllEvents(s: Store, epoch: nat, ks: seq<bytes>, rev: Rev)
    ensures var t := DeleteAll(s, epoch, ks, rev); forall e <- t.evts :: e in s.evts || e.rev == rev
  {
    if ks != [] { DeleteAllEvents(s, epoch, ks[..|ks| - 1], rev); }
  }

  lemma {:induction false} DeleteAllKeys(s: Store, epoch: nat, ks: seq<bytes>, rev: Rev)
    requires SortedKeys(s.keys) && (forall k :: k in s.keys <==> k in s.hist)
    ensures var t := DeleteAll(s, epoch, ks, rev); t.keys == s.keys && t.hist.Keys == s.hist.Keys
  {
    if ks != [] {
      var n := |ks| - 1;
      DeleteAllKeys(s, epoch, ks[..n], rev);
      SeekFinds(s.keys, ks[n]);
    }
  }

  /** The records a deletion reports: the newest of each key that was live. */
  function Doomed(s: Store, ks: seq<bytes>): (r: seq<(bytes, KeyRecord)>) {
    if ks == [] then []
    else
      var n := |ks| - 1;
      var vs := Lookup(s.hist, ks[n]);
      Doomed(s, ks[..n]) + if vs != [] && vs[0].Live? then [(ks[n], KeyRecord(vs[0].kv.rev, vs[0].recLease))] else []
  }

  /** One of these keys was already written under this revision. */
  ghost predicate WrittenAt(s: Store, ks: seq<bytes>, upper: nat) {
    exists k <- ks :: Current(s.hist, k).Some? && Current(s.hist, k).value.rev.upper == upper
  }

  lemma {:induction false} DeleteKeysPrefix(ks: seq<bytes>, key: bytes, end: bytes, i: nat)
    requires i <= |ks|
    ensures DeleteKeys(ks[..i], key, end) <= DeleteKeys(ks, key, end)
    ensures (forall j | i <= j < |ks| :: !InDeleteRange(ks[j], key, end)) ==>
      DeleteKeys(ks[..i], key, end) == DeleteKeys(ks, key, end)
  {
    hide InDeleteRange;
    if i == |ks| {
      assert ks[..i] == ks;
    } else {
      DeleteKeysPrefix(ks[..|ks| - 1], key, end, i);
      assert ks[..|ks| - 1][..i] == ks[..i];
    }
  }

  lemma {:induction false} DeleteKeysNone(ks: seq<bytes>, key: bytes, end: bytes)
    requires forall j | 0 <= j < |ks| :: !InDeleteRange(ks[j], key, end)
    ensures DeleteKeys(ks, key, end) == []
  {
    hide InDeleteRange;
    if ks != [] { DeleteKeysNone(ks[..|ks| - 1], key, end); }
  }

  lemma BeforeDelete(ks: seq<bytes>, key: bytes, end: bytes)
    requires SortedKeys(ks)
    ensures DeleteKeys(ks[..Seek(ks, key)], key, end) == []
  {
    forall j | 0 <= j < Seek(ks, key) ensures !InDeleteRange(ks[j], key, end) {
      LexTotal(ks[j], key);
    }
    DeleteKeysNone(ks[..Seek(ks, key)], key, end);
  }

  /** What ends the loop of deleteRange. */
  predicate EndsDelete(k: bytes, key: bytes, end: bytes) {
    if end == [] then k != key else LexLess(end, k)
  }

  lemma PastDelete(ks: seq<bytes>, key: bytes, end: bytes, i: nat)
    requires SortedKeys(ks) && Seek(ks, key) <= i <= |ks| && (i < |ks| ==> EndsDelete(ks[i], key, end))
    ensures DeleteKeys(ks[..i], key, end) == DeleteKeys(ks, key, end)
  {
    forall j | i <= j < |ks| ensures !InDeleteRange(ks[j], key, end) {
      if end == [] {
        LexTotal(ks[Seek(ks, key)], key);
        LexTotal(ks[i], key);
      } else if i < j {
        LexTotal(ks[i], ks[j]);
        LexTotal(end, ks[i]);
        LexTransitive(end, ks[i], ks[j]);
      }
    }
    DeleteKeysPrefix(ks, key, end, i);
  }

  lemma AtDelete(ks: seq<bytes>, key: bytes, end: bytes, i: nat)
    requires SortedKeys(ks) && Seek(ks, key) <= i < |ks| && !EndsDelete(ks[i], key, end)
    ensures DeleteKeys(ks[..i + 1], key, end) == DeleteKeys(ks[..i], key, end) + [ks[i]]
    ensures ks[i] !in DeleteKeys(ks[..i], key, end)
  {
    var m := Seek(ks, key);
    LexTotal(ks[m], key);
    LexTotal(ks[i], key);
    LexTotal(ks[i], ks[m]);
    if LexLess(ks[i], key) { LexTransitive(ks[i], key, ks[m]); }
    assert InDeleteRange(ks[i], key, end);
    assert ks[..i + 1][..i] == ks[..i];
    LexTotal(ks[i], ks[i]);
  }

  // ---- compaction ----

  lemma OlderTransitive(p: Rev, q: Rev, r: Rev)
    requires Older(p, q) && !Older(r, q)
    ensures Older(p, r)
  {}

  /** What is kept are the versions not older than r, a stretch from the newest down. */
  lemma {:induction false} KeepFromMembers(vs: Versions, r: Rev)
    requires Descending(vs)
    ensures KeepFrom(vs, r) <= vs && Descending(KeepFrom(vs, r))
    ensures forall v :: v in KeepFrom(vs, r) <==> v in vs && !Older(RevOf(v), r)
  {
    hide Older;
    if vs != [] {
      if Older(RevOf(vs[0]), r) {
        forall v | v in vs ensures Older(RevOf(v), r) {
          var i :| 0 <= i < |vs| && vs[i] == v;
          if i > 0 { OlderMoves(RevOf(vs[i]), RevOf(vs[0]), r); }
        }
      } else {
        KeepFromMembers(vs[1..], r);
        assert vs == [vs[0]] + vs[1..];
      }
    }
  }

  lemma OlderMoves(p: Rev, q: Rev, r: Rev)
    requires Older(p, q) && Older(q, r)
    ensures Older(p, r)
  {}

  /** Compacting further from an already compacted list forgets the first target. */
  lemma {:induction false} KeepFromAgain(vs: Versions, q: Rev, r: Rev)
    requires Descending(vs) && !Older(r, q)
    ensures KeepFrom(KeepFrom(vs, q), r) == KeepFrom(vs, r)
  {
    if vs != [] {
      if Older(RevOf(vs[0]), q) {
        OlderTransitive(RevOf(vs[0]), q, r);
      } else {
        KeepFromAgain(vs[1..], q, r);
        assert KeepFrom(vs, q)[1..] == KeepFrom(vs[1..], q);
      }
    }
  }

  lemma KeepFromGood(key: bytes, vs: Versions, r: Rev)
    requires GoodVersions(key, vs) && exists v <- vs :: RevOf(v) == r
    ensures GoodVersions(key, KeepFrom(vs, r))
  {
    KeepFromMembers(vs, r);
    var v :| v in vs && RevOf(v) == r;
    assert v in KeepFrom(vs, r);
  }

  /** One key of a store is cut back to the versions not older than r. */
  function Truncate(s: Store, key: bytes, r: Rev): Store
    requires key in s.hist
  {
    s.(hist := s.hist[key := KeepFrom(s.hist[key], r)])
  }

  lemma TruncateGood(s: Store, key: bytes, r: Rev)
    requires Good(s) && key in s.hist && (exists v <- s.hist[key] :: RevOf(v) == r)
    requires forall e <- s.evts :: e.key == key ==> !Older(e.rev, r)
    ensures Good(Truncate(s, key, r))
  {
    var t := Truncate(s, key, r);
    KeepFromGood(key, s.hist[key], r);
    KeepFromMembers(s.hist[key], r);
    hide GoodVersions, Older, KeepFrom;
    forall e | e in t.evts ensures Recorded(t.hist, e) {
      assert Recorded(s.hist, e);
      var v :| v in s.hist[e.key] && RevOf(v) == e.rev;
      assert v in t.hist[e.key];
    }
  }

  /** The last event of a key among these. */
  function LastOf(evts: seq<Event>, key: bytes): Option<Rev> {
    if evts == [] then None
    else if evts[|evts| - 1].key == key then Some(evts[|evts| - 1].rev)
    else LastOf(evts[..|evts| - 1], key)
  }

  lemma {:induction false} LastOfBelow(evts: seq<Event>, n: nat, max: nat, key: bytes)
    requires n <= |evts| && (forall i | 0 <= i < n :: evts[i].rev.upper < max)
    requires forall i | n <= i < |evts| :: evts[i].rev.upper >= max
    ensures LastBelow(evts, key, max) == LastOf(evts[..n], key)
  {
    if |evts| > 0 {
      var m := |evts| - 1;
      if n == |evts| {
        assert evts[..n] == evts && evts[..m][..m] == evts[..m];
        LastOfBelow(evts[..m], m, max, key);
      } else {
        LastOfBelow(evts[..m], n, max, key);
        assert evts[..m][..n] == evts[..n];
      }
    }
  }

  lemma {:induction false} EventsFromSplit(evts: seq<Event>, n: nat, max: nat)
    requires n <= |evts| && (forall i | 0 <= i < n :: evts[i].rev.upper < max)
    requires n < |evts| ==> evts[n].rev.upper >= max
    ensures EventsFrom(evts, max) == evts[n..]
  {
    if n > 0 {
      EventsFromSplit(evts[1..], n - 1, max);
      assert evts[1..][n - 1..] == evts[n..];
    }
  }

  lemma {:induction false} LastOfSound(evts: seq<Event>, key: bytes)
    ensures LastOf(evts, key).Some? ==> exists e <- evts :: e.key == key && e.rev == LastOf(evts, key).value
  {
    if evts != [] && evts[|evts| - 1].key != key {
      LastOfSound(evts[..|evts| - 1], key);
    }
  }

  // ---- what compaction and later writes leave alone ----

  /** A cut below a version that is visible at r, or older, changes nothing at r. */
  lemma {:induction false} VisibleKeep(vs: Versions, q: Rev, r: nat)
    requires r >= q.upper && exists v <- vs :: RevOf(v) == q
    requires Descending(vs)
    ensures r > 0 ==> Visible(KeepFrom(vs, q), r) == Visible(vs, r)
    ensures Visible(KeepFrom(vs, q), 0) == Visible(vs, 0)
  {
    var v :| v in vs && RevOf(v) == q;
    var i :| 0 <= i < |vs| && vs[i] == v;
    if i > 0 {
      assert Older(RevOf(vs[i]), RevOf(vs[0]));
      assert v in vs[1..];
      VisibleKeep(vs[1..], q, r);
      assert KeepFrom(vs, q)[1..] == KeepFrom(vs[1..], q);
    }
  }
}
