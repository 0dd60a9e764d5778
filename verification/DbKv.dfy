/** db_kv.go: the revision, value and event tables and the operations on them. */
module DbKvs {
  import opened Base
  import opened KeyRev
  import opened KvCodec
  import opened History

  /** How a value lies in the value table: whole, or as a patch against the next newer one. */
  ghost predicate StoredAs(h: Host, cfg: Config, kv: Kv, next: Option<bytes>, buf: bytes) {
    buf == WholeBytes(h, cfg, kv) || (next.Some? && EncodesPatch(h, cfg, kv, next.value, buf))
  }

  /**
   The chain of a key from its newest version down: the newest value and the value
   right below a tombstone are whole, and any other value is whole or a patch
   against the live value just above it.
   */
  ghost predicate Chain(h: Host, cfg: Config, val: map<Rev, bytes>, vs: Versions, next: Option<bytes>) {
    vs == [] ||
    match vs[0]
    case Tomb(_) => Chain(h, cfg, val, vs[1..], None)
    case Live(kv, _) =>
      && kv.rev in val && StoredAs(h, cfg, kv, next, val[kv.rev])
      && Chain(h, cfg, val, vs[1..], Some(kv.val))
  }

  function RecordOf(v: Version): KeyRecord {
    match v
    case Live(kv, lease) => KeyRecord(kv.rev, lease)
    case Tomb(r) => KeyRecord(r, 0)
  }

  function Records(vs: Versions): (r: seq<KeyRecord>)
    ensures |r| == |vs| && forall i | 0 <= i < |vs| :: r[i] == RecordOf(vs[i])
  {
    seq(|vs|, i requires 0 <= i < |vs| => RecordOf(vs[i]))
  }

  lemma StoredReads(h: Host, cfg: Config, kv: Kv, next: Option<bytes>, buf: bytes)
    requires Sound(h) && Fits(kv) && StoredAs(h, cfg, kv, next, buf)
    ensures FromBytes(h, kv.rev, buf, next, false) == if Short(kv) then Err(ChecksumMissing) else Ok(kv)
    ensures forall n ::
      FromBytes(h, kv.rev, buf, n, true) == if Short(kv) then Err(ChecksumMissing) else Ok(kv.(val := []))
  {
    assert Encodes(h, kv, next, buf) by {
      hide WholeBytes, EncodesPatch;
      if buf == WholeBytes(h, cfg, kv) {
        WholeEncodes(h, cfg, kv, next);
      } else {
        PatchEncodes(h, cfg, kv, next.value, buf);
      }
    }
    hide Encodes, Sound, StoredAs;
    ReadsBack(h, kv, next, buf, false);
    ReadsBack(h, kv, next, buf, true);
    forall n ensures FromBytes(h, kv.rev, buf, n, true) == FromBytes(h, kv.rev, buf, next, true) {
      KeysOnlyIgnoresNext(h, kv.rev, buf, n, next);
    }
  }

  lemma KeysOnlyIgnoresNext(h: Host, rev: Rev, buf: bytes, m: Option<bytes>, n: Option<bytes>)
    ensures FromBytes(h, rev, buf, m, true) == FromBytes(h, rev, buf, n, true)
  {
    hide ReadField, ReadFields, RevKey;
  }

  // ---- the key inside a stored value tells whose it is ----

  lemma SealedKey(h: Host, p: Kv, f: byte, s: bytes, q: Kv, g: byte, t: bytes)
    requires Sound(h) && Fits(p) && Fits(q) && p.rev == q.rev
    requires Sealed(h, p.rev, Body(p, f, s)) == Sealed(h, q.rev, Body(q, g, t))
    ensures p.key == q.key
  {
    var x, y := Body(p, f, s), Body(q, g, t);
    var sx, sy := Sealed(h, p.rev, x), Sealed(h, q.rev, y);
    assert |h.crc(RevKey(p.rev), x)| == 4 && |h.crc(RevKey(q.rev), y)| == 4;
    assert x == sx[..|sx| - 4] && y == sy[..|sy| - 4];
    var rx, ry := p.key + (Header(p, f) + s), q.key + (Header(q, g) + t);
    FieldReadsBack(|p.key|, rx);
    FieldReadsBack(|q.key|, ry);
    assert rx == ry && p.key == rx[..|p.key|] && q.key == ry[..|q.key|];
  }

  ghost predicate IsSealed(h: Host, kv: Kv, buf: bytes) {
    exists f: byte, s: bytes :: buf == Sealed(h, kv.rev, Body(kv, f, s))
  }

  lemma StoredIsSealed(h: Host, cfg: Config, kv: Kv, next: Option<bytes>, buf: bytes)
    requires StoredAs(h, cfg, kv, next, buf)
    ensures IsSealed(h, kv, buf)
  {
    hide Body, Sealed;
    if buf == WholeBytes(h, cfg, kv) {
      var (f, s) := Squeezed(h, cfg, 0, kv.val);
      assert buf == Sealed(h, kv.rev, Body(kv, f, s));
    } else {
      var p :| Patch.ApplyPatch(next.value, p) == Patch.Applied(kv.val) && 2 <= |p| < |kv.val|
        && buf == PatchBytes(h, cfg, kv, p);
      var (f, s) := Squeezed(h, cfg, FLAG_PATCH, p);
      assert buf == Sealed(h, kv.rev, Body(kv, f, s));
    }
  }

  lemma StoredKey(h: Host, cfg: Config, p: Kv, np: Option<bytes>, q: Kv, nq: Option<bytes>, buf: bytes)
    requires Sound(h) && Fits(p) && Fits(q) && p.rev == q.rev
    requires StoredAs(h, cfg, p, np, buf) && StoredAs(h, cfg, q, nq, buf)
    ensures p.key == q.key
  {
    StoredIsSealed(h, cfg, p, np, buf);
    StoredIsSealed(h, cfg, q, nq, buf);
    hide Body, Sealed, StoredAs, Sound;
    var f: byte, s: bytes :| buf == Sealed(h, p.rev, Body(p, f, s));
    var g: byte, t: bytes :| buf == Sealed(h, q.rev, Body(q, g, t));
    SealedKey(h, p, f, s, q, g, t);
  }

  // ---- chains ----

  /** A chain does not notice changes to other entries of the value table. */
  lemma {:induction false} ChainFrame(h: Host, cfg: Config, val: map<Rev, bytes>, wal: map<Rev, bytes>,
                                      vs: Versions, next: Option<bytes>)
    requires Chain(h, cfg, val, vs, next)
    requires forall v <- vs :: v.Live? && v.kv.rev in val ==> v.kv.rev in wal && wal[v.kv.rev] == val[v.kv.rev]
    ensures Chain(h, cfg, wal, vs, next)
  {
    hide StoredAs;
    if vs != [] {
      assert vs[0] in vs;
      assert forall v <- vs[1..] :: v in vs;
      ChainFrame(h, cfg, val, wal, vs[1..], if vs[0].Tomb? then None else Some(vs[0].kv.val));
    }
  }

  /** Every live version of a chain is stored, in one of the two forms. */
  lemma {:induction false} ChainHas(h: Host, cfg: Config, val: map<Rev, bytes>, vs: Versions, next: Option<bytes>,
                                    v: Version)
    returns (n: Option<bytes>)
    requires Chain(h, cfg, val, vs, next) && v in vs && v.Live?
    ensures v.kv.rev in val && StoredAs(h, cfg, v.kv, n, val[v.kv.rev])
  {
    hide StoredAs;
    if v == vs[0] {
      n := next;
    } else {
      n := ChainHas(h, cfg, val, vs[1..], if vs[0].Tomb? then None else Some(vs[0].kv.val), v);
    }
  }

  /** Versions of different keys never share an entry of the value table. */
  lemma KeysApart(h: Host, cfg: Config, val: map<Rev, bytes>, k: bytes, vs: Versions, l: bytes, ws: Versions,
                  v: Version, w: Version)
    requires Sound(h) && k != l && GoodVersions(k, vs) && GoodVersions(l, ws)
    requires Chain(h, cfg, val, vs, None) && Chain(h, cfg, val, ws, None)
    requires v in vs && v.Live? && w in ws && w.Live?
    ensures v.kv.rev != w.kv.rev
  {
    var m := ChainHas(h, cfg, val, vs, None, v);
    var n := ChainHas(h, cfg, val, ws, None, w);
    if v.kv.rev == w.kv.rev {
      hide Chain, StoredAs, Sound;
      StoredKey(h, cfg, v.kv, m, w.kv, n, val[v.kv.rev]);
    }
  }

  lemma ChainPush(h: Host, cfg: Config, val: map<Rev, bytes>, vs: Versions, v: Version)
    requires v.Live? ==> v.kv.rev in val && val[v.kv.rev] == WholeBytes(h, cfg, v.kv)
    requires Chain(h, cfg, val, vs, if v.Live? then Some(v.kv.val) else None)
    ensures Chain(h, cfg, val, [v] + vs, None)
  {
    hide WholeBytes, EncodesPatch;
    assert ([v] + vs)[1..] == vs;
  }

  /** The old newest value may become a patch against the new one; everything below stays. */
  lemma ChainRebase(h: Host, cfg: Config, val: map<Rev, bytes>, wal: map<Rev, bytes>, key: bytes, vs: Versions,
                    next: bytes)
    requires Chain(h, cfg, val, vs, None) && (vs == [] || GoodVersions(key, vs))
    requires forall v <- vs :: v.Live? && v.kv.rev in val && v != vs[0] ==>
      v.kv.rev in wal && wal[v.kv.rev] == val[v.kv.rev]
    requires vs != [] && vs[0].Live? ==>
      vs[0].kv.rev in wal && StoredAs(h, cfg, vs[0].kv, Some(next), wal[vs[0].kv.rev])
    ensures Chain(h, cfg, wal, vs, Some(next))
  {
    hide StoredAs;
    if vs != [] {
      forall v | v in vs[1..] ensures v in vs && v != vs[0] {
        var i :| 0 <= i < |vs[1..]| && vs[1..][i] == v;
        assert v == vs[i + 1] && Older(RevOf(vs[i + 1]), RevOf(vs[0]));
      }
      ChainFrame(h, cfg, val, wal, vs[1..], if vs[0].Tomb? then None else Some(vs[0].kv.val));
    }
  }

  /** Every key's records and values agree with its versions. */
  ghost predicate Represents(h: Host, cfg: Config, recs: map<bytes, seq<KeyRecord>>, val: map<Rev, bytes>, s: Store) {
    && recs.Keys == s.hist.Keys
    && forall k <- s.hist :: recs[k] == Records(s.hist[k]) && Chain(h, cfg, val, s.hist[k], None)
  }

  /** One key gets a version on top, written whole, and its old newest value may be rewritten. */
  lemma RepresentsPut(h: Host, cfg: Config, recs: map<bytes, seq<KeyRecord>>, val: map<Rev, bytes>, s: Store,
                      epoch: nat, key: bytes, v: Version, rw: Option<(Rev, bytes)>)
    requires Sound(h) && Good(s) && Represents(h, cfg, recs, val, s) && Fresh(s, key, v) && v.Live?
    requires forall k <- s.hist :: forall w <- s.hist[k] :: Older(RevOf(w), RevOf(v))
    requires rw.Some? ==>
      && key in s.hist && s.hist[key][0].Live? && s.hist[key][0].kv.rev == rw.value.0
      && StoredAs(h, cfg, s.hist[key][0].kv, Some(v.kv.val), rw.value.1)
    ensures var wal := (if rw.Some? then val[rw.value.0 := rw.value.1] else val)[v.kv.rev := WholeBytes(h, cfg, v.kv)];
      var t := Push(s, epoch, key, v);
      Represents(h, cfg, recs[key := [RecordOf(v)] + (if key in recs then recs[key] else [])], wal, t)
  {
    hide StoredAs, WholeBytes, Sound, Chain, Good, Fresh;
    var vs := Lookup(s.hist, key);
    var mid := if rw.Some? then val[rw.value.0 := rw.value.1] else val;
    var wal := mid[v.kv.rev := WholeBytes(h, cfg, v.kv)];
    EmptyChain(h, cfg, val);
    if key in s.hist { GoodHead(s, key); }
    assert Chain(h, cfg, val, vs, None);
    forall k | k in s.hist && k != key ensures Chain(h, cfg, wal, s.hist[k], None) {
      OtherChainKept(h, cfg, val, wal, s, k, key, v, rw);
    }
    PutOnChain(h, cfg, val, wal, s, key, v, rw);
    assert Records([v] + vs) == [RecordOf(v)] + Records(vs);
  }

  lemma EmptyChain(h: Host, cfg: Config, val: map<Rev, bytes>)
    ensures Chain(h, cfg, val, [], None)
  {}

  lemma OtherChainKept(h: Host, cfg: Config, val: map<Rev, bytes>, wal: map<Rev, bytes>, s: Store,
                       k: bytes, key: bytes, v: Version, rw: Option<(Rev, bytes)>)
    requires Sound(h) && Good(s) && v.Live? && k in s.hist && k != key
    requires Chain(h, cfg, val, s.hist[k], None) && Chain(h, cfg, val, Lookup(s.hist, key), None)
    requires forall w <- s.hist[k] :: Older(RevOf(w), RevOf(v))
    requires wal == (if rw.Some? then val[rw.value.0 := rw.value.1] else val)[v.kv.rev := WholeBytes(h, cfg, v.kv)]
    requires rw.Some? ==>
      key in s.hist && s.hist[key] != [] && s.hist[key][0].Live? && s.hist[key][0].kv.rev == rw.value.0
    ensures Chain(h, cfg, wal, s.hist[k], None)
  {
    GoodHead(s, k);
    hide StoredAs, WholeBytes, Sound, Chain, Good, GoodVersions;
    if rw.Some? { GoodHead(s, key); }
    forall w | w in s.hist[k] && w.Live? && w.kv.rev in val ensures w.kv.rev in wal && wal[w.kv.rev] == val[w.kv.rev] {
      assert Older(RevOf(w), RevOf(v));
      if rw.Some? {
        KeysApart(h, cfg, val, k, s.hist[k], key, s.hist[key], w, s.hist[key][0]);
      }
    }
    ChainFrame(h, cfg, val, wal, s.hist[k], None);
  }

  lemma GoodHead(s: Store, key: bytes)
    requires Good(s) && key in s.hist
    ensures GoodVersions(key, s.hist[key]) && s.hist[key] != [] && s.hist[key][0] in s.hist[key]
  {}

  lemma PutOnChain(h: Host, cfg: Config, val: map<Rev, bytes>, wal: map<Rev, bytes>, s: Store,
                   key: bytes, v: Version, rw: Option<(Rev, bytes)>)
    requires Sound(h) && Good(s) && v.Live? && Chain(h, cfg, val, Lookup(s.hist, key), None)
    requires forall w <- Lookup(s.hist, key) :: Older(RevOf(w), RevOf(v))
    requires wal == (if rw.Some? then val[rw.value.0 := rw.value.1] else val)[v.kv.rev := WholeBytes(h, cfg, v.kv)]
    requires rw.Some? ==>
      && key in s.hist && s.hist[key][0].Live? && s.hist[key][0].kv.rev == rw.value.0
      && StoredAs(h, cfg, s.hist[key][0].kv, Some(v.kv.val), rw.value.1)
    ensures Chain(h, cfg, wal, [v] + Lookup(s.hist, key), None)
  {
    hide StoredAs, WholeBytes, Sound, Good, Chain, GoodVersions;
    var vs := Lookup(s.hist, key);
    if vs != [] {
      GoodHead(s, key);
      if vs[0].Live? { HeadStored(h, cfg, val, vs, v.kv.val); }
      forall w | w in vs && w.Live? && w.kv.rev in val && w != vs[0]
        ensures w.kv.rev in wal && wal[w.kv.rev] == val[w.kv.rev]
      {
        NotHead(key, vs, w);
      }
    }
    ChainRebase(h, cfg, val, wal, key, vs, v.kv.val);
    ChainPush(h, cfg, wal, vs, v);
  }

  lemma HeadStored(h: Host, cfg: Config, val: map<Rev, bytes>, vs: Versions, next: bytes)
    requires Chain(h, cfg, val, vs, None) && vs != [] && vs[0].Live?
    ensures vs[0].kv.rev in val && StoredAs(h, cfg, vs[0].kv, Some(next), val[vs[0].kv.rev])
  {
    hide WholeBytes, EncodesPatch;
  }

  lemma NotHead(key: bytes, vs: Versions, w: Version)
    requires GoodVersions(key, vs) && w in vs && w != vs[0]
    ensures RevOf(w) != RevOf(vs[0])
  {
    var i :| 0 < i < |vs| && vs[i] == w;
    assert Older(RevOf(vs[i]), RevOf(vs[0]));
  }

  lemma KeyFacts(h: Host, cfg: Config, recs: map<bytes, seq<KeyRecord>>, val: map<Rev, bytes>, s: Store, key: bytes)
    requires Good(s) && Represents(h, cfg, recs, val, s) && key in s.hist
    ensures key in recs && recs[key] == Records(s.hist[key])
    ensures GoodVersions(key, s.hist[key]) && Chain(h, cfg, val, s.hist[key], None)
  {}

  /** The newest value of a live key is stored whole and reads back without any other. */
  lemma NewestWhole(h: Host, cfg: Config, recs: map<bytes, seq<KeyRecord>>, val: map<Rev, bytes>, s: Store, key: bytes)
    requires Sound(h) && Good(s) && Represents(h, cfg, recs, val, s)
    requires key in s.hist && s.hist[key] != [] && s.hist[key][0].Live?
    ensures var kv := s.hist[key][0].kv;
      && Fits(kv) && kv.key == key && kv.rev in val && val[kv.rev] == WholeBytes(h, cfg, kv)
      && FromBytes(h, kv.rev, val[kv.rev], None, false) == if Short(kv) then Err(ChecksumMissing) else Ok(kv)
  {
    hide WholeBytes, EncodesPatch, Sound, FromBytes;
    GoodHead(s, key);
    var kv := s.hist[key][0].kv;
    assert Chain(h, cfg, val, s.hist[key], None);
    StoredReads(h, cfg, kv, None, val[kv.rev]);
  }

  /** A value patched against one text keeps the chain under another exactly if it still reads back. */
  lemma StoredIffReads(h: Host, cfg: Config, kv: Kv, brought: bytes, next: bytes, buf: bytes)
    requires Sound(h) && Fits(kv) && !Short(kv) && EncodesPatch(h, cfg, kv, brought, buf)
    ensures StoredAs(h, cfg, kv, Some(next), buf) <==> FromBytes(h, kv.rev, buf, Some(next), false) == Ok(kv)
  {
    hide WholeBytes, Sound, FromBytes, Short, Patch.ApplyPatch, PatchBytes;
    if StoredAs(h, cfg, kv, Some(next), buf) { StoredReads(h, cfg, kv, Some(next), buf); }
    var p :| Patch.ApplyPatch(brought, p) == Patch.Applied(kv.val) && 2 <= |p| < |kv.val|
      && buf == PatchBytes(h, cfg, kv, p);
    PatchReadsBackIff(h, cfg, kv, p, next);
  }

  lemma SecondStored(h: Host, cfg: Config, recs: map<bytes, seq<KeyRecord>>, val: map<Rev, bytes>, s: Store, key: bytes)
    requires Represents(h, cfg, recs, val, s) && key in s.hist && |s.hist[key]| > 1
    requires s.hist[key][0].Live? && s.hist[key][1].Live?
    ensures s.hist[key][1].kv.rev in val
    ensures StoredAs(h, cfg, s.hist[key][1].kv, Some(s.hist[key][0].kv.val), val[s.hist[key][1].kv.rev])
  {
    hide StoredAs;
    ChainAt(h, cfg, val, s.hist[key], None, 1);
  }

  // ---- descending a chain ----

  function RevsOf(vs: Versions): (r: seq<Rev>)
    ensures |r| == |vs| && forall i | 0 <= i < |vs| :: r[i] == RevOf(vs[i])
  {
    seq(|vs|, i requires 0 <= i < |vs| => RevOf(vs[i]))
  }

  lemma RevsSlice(vs: Versions, start: nat, i: nat)
    requires start <= i <= |vs|
    ensures start == i ==> RevsOf(vs[start..i]) == []
    ensures i < |vs| ==> RevsOf(vs[start..i + 1]) == RevsOf(vs[start..i]) + [RevOf(vs[i])]
  {}

  /** After skipping the i newest versions, those from `start` on are live and lead down the chain. */
  ghost predicate Descended(h: Host, cfg: Config, val: map<Rev, bytes>, vs: Versions, r: nat, start: nat, i: nat) {
    && start <= i <= |vs| && Chain(h, cfg, val, vs[start..], None)
    && (forall m | start <= m < i :: vs[m].Live?)
    && ReadAt(vs, r, false) == ReadAt(vs[i..], r, AnyShort(vs[start..i]))
    && Visible(vs, r) == Visible(vs[i..], r) && Below(vs, r) == Below(vs[i..], r)
  }

  /** A chain can be entered below any tombstone. */
  lemma {:induction false} ChainBelow(h: Host, cfg: Config, val: map<Rev, bytes>, vs: Versions, next: Option<bytes>,
                                      i: nat)
    requires Chain(h, cfg, val, vs, next) && i < |vs| && vs[i].Tomb?
    ensures Chain(h, cfg, val, vs[i + 1..], None)
  {
    hide StoredAs;
    if i > 0 {
      ChainBelow(h, cfg, val, vs[1..], if vs[0].Tomb? then None else Some(vs[0].kv.val), i - 1);
      assert vs[1..][i..] == vs[i + 1..];
    }
  }

  lemma DescendStart(h: Host, cfg: Config, val: map<Rev, bytes>, vs: Versions, r: nat)
    requires Chain(h, cfg, val, vs, None)
    ensures Descended(h, cfg, val, vs, r, 0, 0)
  {
    hide Chain;
    assert vs[0..] == vs && vs[0..0] == [];
  }

  lemma DescendStep(h: Host, cfg: Config, val: map<Rev, bytes>, vs: Versions, r: nat, start: nat, i: nat)
    requires Descended(h, cfg, val, vs, r, start, i) && i < |vs| && r > 0 && RevOf(vs[i]).upper > r
    ensures Descended(h, cfg, val, vs, r, if vs[i].Tomb? then i + 1 else start, i + 1)
  {
    assert vs[i..][0] == vs[i] && vs[i..][1..] == vs[i + 1..];
    if vs[i].Tomb? {
      ChainBelow(h, cfg, val, vs[start..], None, i - start);
      assert vs[start..][i - start + 1..] == vs[i + 1..] && vs[i + 1..i + 1] == [];
    } else {
      assert vs[start..i + 1][..i - start] == vs[start..i];
    }
    hide Chain, StoredAs, Short;
  }

  /** The version at index i is stored against the one just above it. */
  lemma {:induction false} ChainAt(h: Host, cfg: Config, val: map<Rev, bytes>, vs: Versions, next: Option<bytes>,
                                   i: nat)
    requires Chain(h, cfg, val, vs, next) && i < |vs| && vs[i].Live?
    ensures vs[i].kv.rev in val
    ensures StoredAs(h, cfg, vs[i].kv,
      if i == 0 then next else if vs[i - 1].Live? then Some(vs[i - 1].kv.val) else None, val[vs[i].kv.rev])
  {
    hide StoredAs;
    if i > 0 {
      ChainAt(h, cfg, val, vs[1..], if vs[0].Tomb? then None else Some(vs[0].kv.val), i - 1);
    }
  }

  lemma DescendEnd(h: Host, cfg: Config, val: map<Rev, bytes>, vs: Versions, r: nat, start: nat, i: nat)
    requires Descended(h, cfg, val, vs, r, start, i)
    requires i < |vs| ==> !(r > 0 && RevOf(vs[i]).upper > r)
    ensures i == |vs| ==> ReadAt(vs, r, false) == Ok(None) && Visible(vs, r).None? && Below(vs, r).None?
    ensures i < |vs| ==> Visible(vs, r) == Some(vs[i])
    ensures i < |vs| ==> Below(vs, r) == (if i + 1 < |vs| && vs[i + 1].Live? then Some(vs[i + 1].kv) else None)
    ensures i < |vs| && vs[i].Tomb? ==> ReadAt(vs, r, false) == Ok(None)
    ensures i < |vs| && vs[i].Live? ==>
      ReadAt(vs, r, false) == if AnyShort(vs[start..i + 1]) then Err(ChecksumMissing) else Ok(Some(vs[i].kv))
  {
    hide Chain, Short;
    var ws := vs[i..];
    if i == |vs| {
      assert ws == [];
    } else {
      assert ws[0] == vs[i] && (i + 1 < |vs| ==> ws[1] == vs[i + 1]) && |ws| == |vs| - i;
      assert Visible(ws, r) == Some(vs[i]);
      AnyShortSnoc(vs[start..], i - start);
      assert vs[start..][..i - start + 1] == vs[start..i + 1] && vs[start..][..i - start] == vs[start..i];
    }
  }

  lemma AnyShortSnoc(vs: Versions, i: nat)
    requires i < |vs|
    ensures AnyShort(vs[..i + 1]) == (AnyShort(vs[..i]) || (vs[i].Live? && Short(vs[i].kv)))
  {
    assert vs[..i + 1][..i] == vs[..i];
  }

  lemma {:induction false} AnyShortPrefix(vs: Versions, i: nat)
    requires i <= |vs| && AnyShort(vs[..i])
    ensures AnyShort(vs)
  {
    if i < |vs| {
      assert vs[..|vs| - 1][..i] == vs[..i];
      AnyShortPrefix(vs[..|vs| - 1], i);
    } else {
      assert vs[..i] == vs;
    }
  }

  // ---- the tables ----

  /** Switches that change what the operations answer, not what they store. */
  datatype Flags = Flags(multiWrite: bool, countFull: bool, countFake: bool)

  /** What a range read makes of one key. */
  datatype KeyOutcome = Skip | Count | Item(kv: Kv) | Reject | Fail(error: Error)

  datatype RangeResult = RangeResult(items: seq<Kv>, count: nat, more: bool)

  datatype PutResult = PutResult(prev: Option<Kv>, next: Kv, patched: bool)

  class DbKv {
    const host: Host
    const cfg: Config
    const flags: Flags
    var keys: seq<bytes>                      // keys of the revision table, in byte order
    var recs: map<bytes, seq<KeyRecord>>      // the duplicates under each key, newest first
    var val: map<Rev, bytes>                  // the value table
    var evt: seq<Event>                       // the event table, oldest first
    ghost var hist: map<bytes, Versions>

    ghost function Abs(): Store
      reads this
    {
      Store(keys, hist, evt)
    }

    ghost predicate Valid()
      reads this
    {
      Sound(host) && Good(Abs()) && Represents(host, cfg, recs, val, Abs())
    }

    constructor (host: Host, cfg: Config, flags: Flags)
      requires Sound(host)
      ensures Valid() && Abs() == EMPTY
      ensures this.host == host && this.cfg == cfg && this.flags == flags
    {
      this.host, this.cfg, this.flags := host, cfg, flags;
      keys, recs, val, evt, hist := [], map[], map[], [], map[];
    }

    /** The record of the newest version of a key. */
    method NewestRecord(key: bytes) returns (krec: Option<KeyRecord>)
      requires Valid()
      ensures krec.Some? <==> key in hist
      ensures krec.Some? ==> hist[key] != [] && krec.value == RecordOf(hist[key][0])
      ensures krec.Some? ==> (krec.value.rev.del <==> hist[key][0].Tomb?)
    {
      var i := Seek(keys, key);
      SeekFinds(keys, key);
      if i < |keys| && keys[i] == key {
        GoodHead(Abs(), key);
        return Some(recs[key][0]);
      }
      return None;
    }

    /** A put: the new value is stored whole, the value it replaces as a patch if that is shorter. */
    method Put(a: PutArgs) returns (r: Result<PutResult, OpError>)
      requires Valid() && PutArgsOk(Abs(), a)
      modifies this
      ensures PutFails(old(Abs()), a, flags.multiWrite) == if r.Err? then Some(r.error) else None
      ensures r.Err? ==> unchanged(this)
      ensures r.Ok? ==> Abs() == History.Put(old(Abs()), a)
      ensures r.Ok? ==> r.value.prev == Current(old(hist), a.key) && r.value.next == Written(old(Abs()), a)
      ensures r.Ok? && (a.ignoreValue ==> a.val == [] || r.value.prev.None? || a.val == r.value.next.val) ==> Valid()
      ensures r.Ok? && !r.value.patched ==> Valid()
      ensures r.Ok? && r.value.patched ==>
        && r.value.prev.Some? && r.value.prev.value.rev in val
        && EncodesPatch(host, cfg, r.value.prev.value, a.val, val[r.value.prev.value.rev])
      ensures r.Ok? && r.value.patched ==>
        var prev := r.value.prev.value;
        Valid() <==> FromBytes(host, prev.rev, val[prev.rev], Some(r.value.next.val), false) == Ok(prev)
      ensures r.Ok? && a.ignoreValue && r.value.patched && |a.val| != |r.value.next.val| ==>
        var prev := r.value.prev.value;
        FromBytes(host, prev.rev, val[prev.rev], Some(r.value.next.val), false) == Err(PatchCorrupt)
    {
      hide Good, Represents, Sound, Short, EncodesPatch, WholeBytes, FromBytes, PutArgsOk, Fits;
      if a.key == [] { return Err(EmptyKey); }
      if |a.key| > KEY_LIMIT { return Err(KeyTooLong); }
      var krec := NewestRecord(a.key);
      if krec.None? || krec.value.rev.del {
        var next := Kv(Rev(a.rev, a.subrev, false), 1, a.rev, a.lease, a.key, a.val);
        Write(a, next, None);
        return Ok(PutResult(None, next, false));
      }
      if krec.value.rev.upper == a.rev && !flags.multiWrite { return Err(DuplicateKey); }
      r := PutOver(a, krec.value.rev);
    }

    /** The branch of put for a key that is live under `rev`. */
    method PutOver(a: PutArgs, rev: Rev) returns (r: Result<PutResult, OpError>)
      requires Valid() && PutArgsOk(Abs(), a) && a.key in hist && hist[a.key] != []
      requires a.key != [] && |a.key| <= KEY_LIMIT
      requires hist[a.key][0].Live? && rev == hist[a.key][0].kv.rev && (rev.upper == a.rev ==> flags.multiWrite)
      modifies this
      ensures PutFails(old(Abs()), a, flags.multiWrite) == if r.Err? then Some(r.error) else None
      ensures r.Err? ==> unchanged(this)
      ensures r.Ok? ==> Abs() == History.Put(old(Abs()), a)
      ensures r.Ok? ==> r.value.prev == Current(old(hist), a.key) && r.value.next == Written(old(Abs()), a)
      ensures r.Ok? && (a.ignoreValue ==> a.val == [] || r.value.prev.None? || a.val == r.value.next.val) ==> Valid()
      ensures r.Ok? && !r.value.patched ==> Valid()
      ensures r.Ok? && r.value.patched ==>
        && r.value.prev.Some? && r.value.prev.value.rev in val
        && EncodesPatch(host, cfg, r.value.prev.value, a.val, val[r.value.prev.value.rev])
      ensures r.Ok? && r.value.patched ==>
        var prev := r.value.prev.value;
        Valid() <==> FromBytes(host, prev.rev, val[prev.rev], Some(r.value.next.val), false) == Ok(prev)
      ensures r.Ok? && a.ignoreValue && r.value.patched && |a.val| != |r.value.next.val| ==>
        var prev := r.value.prev.value;
        FromBytes(host, prev.rev, val[prev.rev], Some(r.value.next.val), false) == Err(PatchCorrupt)
    {
      hide WholeBytes, EncodesPatch, Sound, Good, FromBytes, Represents;
      NewestWhole(host, cfg, recs, val, Abs(), a.key);
      var v := val[rev];
      var got := FromBytes(host, rev, v, None, false);
      if got.Err? { return Err(Storage(got.error)); }
      var prev := got.value;
      var next := Kv(Rev(a.rev, a.subrev, false), prev.version + 1, prev.created,
                     if a.ignoreLease then prev.lease else a.lease, a.key,
                     if a.ignoreValue then prev.val else a.val);
      var patched := false;
      if cfg.patchEnabled {
        var buf := Bytes(host, cfg, prev, Some(a.val));
        patched := |buf| < |v|;
        if patched {
          assert EncodesPatch(host, cfg, prev, a.val, buf);
          Write(a, next, Some((rev, buf)));
          StoredIffReads(host, cfg, prev, a.val, next.val, buf);
          if Valid() { SecondStored(host, cfg, recs, val, Abs(), a.key); }
          if a.ignoreValue && |a.val| != |next.val| {
            PatchReadOnOtherBase(host, cfg, prev, a.val, next.val, buf);
          }
          return Ok(PutResult(Some(prev), next, true));
        }
      }
      Write(a, next, None);
      return Ok(PutResult(Some(prev), next, false));
    }

    /** Rewrites the replaced value if asked to, then adds the record, the value and the event. */
    method Write(a: PutArgs, next: Kv, rewrite: Option<(Rev, bytes)>)
      requires Valid() && PutArgsOk(Abs(), a) && PutFails(Abs(), a, true).None? && next == Written(Abs(), a)
      requires rewrite.Some? ==>
        a.key in hist && hist[a.key] != [] && hist[a.key][0].Live? && hist[a.key][0].kv.rev == rewrite.value.0
      modifies this
      ensures Abs() == History.Put(old(Abs()), a)
      ensures rewrite.Some? ==> rewrite.value.0 in val && val[rewrite.value.0] == rewrite.value.1
      ensures (rewrite.Some? ==> StoredAs(host, cfg, old(hist[a.key][0].kv), Some(next.val), rewrite.value.1)) ==>
        Valid()
    {
      hide Represents, Good, StoredAs, EncodesPatch, WholeBytes, Sound, Fresh;
      ghost var s := Abs();
      ghost var v := Live(next, a.lease);
      WrittenFresh(s, a);
      PushGood(s, a.epoch, a.key, v);
      if rewrite.Some? ==> StoredAs(host, cfg, hist[a.key][0].kv, Some(next.val), rewrite.value.1) {
        RepresentsPut(host, cfg, recs, val, s, a.epoch, a.key, v, rewrite);
      }
      if rewrite.Some? {
        assert Older(rewrite.value.0, next.rev) by { assert hist[a.key][0] in hist[a.key]; }
        val := val[rewrite.value.0 := rewrite.value.1];
      }
      keys := InsertKey(keys, a.key);
      recs := recs[a.key := [KeyRecord(next.rev, a.lease)] + (if a.key in recs then recs[a.key] else [])];
      val := val[next.rev := WholeBytes(host, cfg, next)];
      evt := evt + [Event(a.epoch, a.key, next.rev)];
      hist := Push(s, a.epoch, a.key, v).hist;
    }

    // ---- reads ----

    /** Walks down the records of a key past those newer than `revision`. */
    method Descend(key: bytes, revision: nat, collect: bool) returns (i: nat, next: seq<Rev>, ghost start: nat)
      requires Valid() && key in hist
      ensures i <= |hist[key]| && Descended(host, cfg, val, hist[key], revision, start, i)
      ensures i < |hist[key]| ==> !(revision > 0 && RevOf(hist[key][i]).upper > revision)
      ensures collect ==> next == RevsOf(hist[key][start..i])
    {
      hide Good, Represents, Descended, Sound, GoodVersions, Chain, RevsOf, Records;
      KeyFacts(host, cfg, recs, val, Abs(), key);
      ghost var vs := hist[key];
      var rs := recs[key];
      i, next, start := 0, [], 0;
      DescendStart(host, cfg, val, vs, revision);
      RevsSlice(vs, 0, 0);
      while i < |rs| && revision > 0 && rs[i].rev.upper > revision
        invariant start <= i <= |rs| && Descended(host, cfg, val, vs, revision, start, i)
        invariant collect ==> next == RevsOf(vs[start..i])
      {
        DescendStep(host, cfg, val, vs, revision, start, i);
        TombIsDel(key, vs, i);
        RevsSlice(vs, start, i);
        RevsSlice(vs, i + 1, i + 1);
        if rs[i].rev.del {
          next, start := [], i + 1;
        } else if collect {
          next := next + [rs[i].rev];
        }
        i := i + 1;
      }
    }

    /** Decodes the values under `revs` from the newest down; each is the patch base of the next. */
    method Replay(revs: seq<Rev>, noval: bool, ghost vs: Versions) returns (r: Result<Kv, Error>)
      requires Sound(host) && vs != [] && revs == RevsOf(vs)
      requires forall v <- vs :: v.Live? && Fits(v.kv)
      requires exists rest :: Chain(host, cfg, val, vs + rest, None)
      ensures r == if AnyShort(vs) then Err(ChecksumMissing)
                   else Ok(if noval then vs[|vs| - 1].kv.(val := []) else vs[|vs| - 1].kv)
    {
      ghost var rest :| Chain(host, cfg, val, vs + rest, None);
      var base: Option<bytes> := None;
      var item := Kv(Rev(0, 0, false), 0, 0, 0, [], []);
      ghost var true_base: Option<bytes> := None;
      assert (vs + rest)[0..] == vs + rest;
      for j := 0 to |revs|
        invariant Chain(host, cfg, val, (vs + rest)[j..], true_base)
        invariant !noval ==> base == true_base
        invariant !AnyShort(vs[..j])
        invariant j > 0 ==> item == if noval then vs[j - 1].kv.(val := []) else vs[j - 1].kv
      {
        ghost var kv := vs[j].kv;
        assert vs[j] in vs && (vs + rest)[j..][0] == vs[j] && (vs + rest)[j..][1..] == (vs + rest)[j + 1..];
        assert kv.rev in val && StoredAs(host, cfg, kv, true_base, val[kv.rev]);
        StoredReads(host, cfg, kv, true_base, val[kv.rev]);
        AnyShortSnoc(vs, j);
        var got := FromBytes(host, revs[j], val[revs[j]], base, noval);
        if got.Err? {
          AnyShortPrefix(vs, j + 1);
          return Err(got.error);
        }
        item := got.value;
        base := Some(item.val);
        true_base := Some(kv.val);
      }
      assert vs[..|vs|] == vs;
      return Ok(item);
    }

    /** The pair under a key as of a revision, decoded through its chain. */
    method ReadChain(key: bytes, i: nat, next: seq<Rev>, noval: bool, ghost start: nat, ghost revision: nat)
      returns (r: Result<Kv, Error>)
      requires Valid() && key in hist && i < |hist[key]| && hist[key][i].Live?
      requires Descended(host, cfg, val, hist[key], revision, start, i) && next == RevsOf(hist[key][start..i])
      ensures r == if AnyShort(hist[key][start..i + 1]) then Err(ChecksumMissing)
                   else Ok(if noval then hist[key][i].kv.(val := []) else hist[key][i].kv)
    {
      hide Good, Represents, Sound, GoodVersions, Chain, RevsOf, Records, AnyShort;
      KeyFacts(host, cfg, recs, val, Abs(), key);
      ghost var vs := hist[key];
      ghost var part := vs[start..i + 1];
      RevsSlice(vs, start, i);
      assert part + vs[i + 1..] == vs[start..];
      forall v | v in part ensures v.Live? && Fits(v.kv) {
        var m :| start <= m <= i && vs[m] == v;
        TombIsDel(key, vs, m);
      }
      r := Replay(next + [recs[key][i].rev], noval, part);
    }

    /** The record below position i, decoded against the pair at i. */
    method Prev(key: bytes, i: nat, base: Option<bytes>) returns (r: Result<Option<Kv>, Error>)
      requires Valid() && key in hist && i < |hist[key]|
      requires base == if hist[key][i].Live? then Some(hist[key][i].kv.val) else None
      ensures var p := if i + 1 < |hist[key]| && hist[key][i + 1].Live? then Some(hist[key][i + 1].kv) else None;
        r == if p.Some? && Short(p.value) then Err(ChecksumMissing) else Ok(p)
    {
      hide Good, Represents, Sound, GoodVersions, Chain, FromBytes, StoredAs;
      KeyFacts(host, cfg, recs, val, Abs(), key);
      ghost var vs := hist[key];
      if i + 1 == |recs[key]| { return Ok(None); }
      TombIsDel(key, vs, i + 1);
      var rev := recs[key][i + 1].rev;
      if rev.del { return Ok(None); }
      ChainAt(host, cfg, val, vs, None, i + 1);
      StoredReads(host, cfg, vs[i + 1].kv, base, val[rev]);
      var got := FromBytes(host, rev, val[rev], base, false);
      if got.Err? { return Err(got.error); }
      return Ok(Some(got.value));
    }

    /** getRev: the pair under a key as of a revision (0 for now) and, if asked, the one before it. */
    method GetRev(key: bytes, revision: nat, withPrev: bool) returns (r: Result<(Option<Kv>, Option<Kv>), Error>)
      requires Valid()
      ensures r == ReadWithPrev(Lookup(hist, key), revision, withPrev)
    {
      hide Good, Represents, Sound, Chain, AnyShort, Descended;
      var krec := NewestRecord(key);
      if krec.None? { return Ok((None, None)); }
      var i, next, start := Descend(key, revision, true);
      ghost var vs := hist[key];
      DescendEnd(host, cfg, val, vs, revision, start, i);
      KeyFacts(host, cfg, recs, val, Abs(), key);
      hide GoodVersions;
      if i == |recs[key]| { return Ok((None, None)); }
      TombIsDel(key, vs, i);
      var item: Option<Kv> := None;
      if !recs[key][i].rev.del {
        var got := ReadChain(key, i, next, false, start, revision);
        if got.Err? { return Err(got.error); }
        item := Some(got.value);
      }
      if !withPrev { return Ok((item, None)); }
      var prev := Prev(key, i, if item.Some? then Some(item.value.val) else None);
      if prev.Err? { return Err(prev.error); }
      return Ok((item, prev.value));
    }

    /** scan: the events from revision `since` on, in the order of the log. */
    method ScanEvents(since: nat) returns (r: seq<Event>)
      requires Valid()
      ensures r == EventsFrom(evt, since)
    {
      var i := 0;
      while i < |evt| && evt[i].rev.upper < since
        invariant i <= |evt| && forall j | 0 <= j < i :: evt[j].rev.upper < since
      {
        i := i + 1;
      }
      EventsFromSplit(evt, i, since);
      return evt[i..];
    }

    // ---- deletes ----

    /** Adds a tombstone on top of a live key. */
    method Tombstone(key: bytes, rev: Rev, epoch: nat)
      requires Valid() && key in hist && hist[key] != [] && hist[key][0].Live? && Packable(rev) && rev.del
      requires (forall w <- hist[key] :: Older(RevOf(w), rev)) && (forall e <- evt :: !Older(rev, e.rev))
      modifies this
      ensures Valid() && Abs() == Delete(old(Abs()), epoch, key, rev)
    {
      hide Good, Represents, Sound;
      ghost var s := Abs();
      DeleteGood(s, epoch, key, rev);
      RepresentsDelete(host, cfg, recs, val, s, epoch, key, rev);
      KeyFacts(host, cfg, recs, val, s, key);
      keys := InsertKey(keys, key);
      recs := recs[key := [KeyRecord(rev, 0)] + recs[key]];
      evt := evt + [Event(epoch, key, rev)];
      hist := Push(s, epoch, key, Tomb(rev)).hist;
    }

    /** One turn of the loop of deleteRange. */
    method DeleteKey(k: bytes, tomb: Rev, epoch: nat) returns (dup: bool, item: Option<KeyRecord>)
      requires Valid() && k in keys && Packable(tomb) && tomb.del
      requires (forall w <- Lookup(hist, k) :: Older(RevOf(w), tomb)) && (forall e <- evt :: !Older(tomb, e.rev))
      modifies this
      ensures Valid()
      ensures var vs := old(Lookup(hist, k));
        && vs != []
        && (dup <==> !flags.multiWrite && vs[0].Live? && vs[0].kv.rev.upper == tomb.upper)
        && (!dup && vs[0].Live? ==> Abs() == Delete(old(Abs()), epoch, k, tomb)
                                    && item == Some(KeyRecord(vs[0].kv.rev, vs[0].recLease)))
        && (!dup && vs[0].Tomb? ==> Abs() == old(Abs()) && item == None)
    {
      hide Good, Represents, Sound, Delete;
      GoodKeys(Abs());
      dup, item := false, None;
      var krec := NewestRecord(k);
      if !krec.value.rev.del {
        if krec.value.rev.upper == tomb.upper && !flags.multiWrite { return true, None; }
        Tombstone(k, tomb, epoch);
        item := krec;
      }
    }

    /** deleteRange: tombstones for the live keys from `key` to `end`, both included. */
    method DeleteRange(rev: nat, subrev: nat, epoch: nat, key: bytes, end: bytes)
      returns (r: Result<seq<(bytes, KeyRecord)>, OpError>)
      requires Valid() && Packable(Rev(rev, subrev, true)) && AllOlder(Abs(), Rev(rev, subrev, true))
      modifies this
      ensures Valid()
      ensures r.Err? <==> !flags.multiWrite && WrittenAt(old(Abs()), DeleteKeys(old(keys), key, end), rev)
      ensures r.Err? ==> r.error == DuplicateKey
      ensures r.Ok? ==> Abs() == History.DeleteRange(old(Abs()), epoch, key, end, Rev(rev, subrev, true))
      ensures r.Ok? ==> r.value == Doomed(old(Abs()), DeleteKeys(old(keys), key, end))
    {
      hide Good, Represents, Sound, Seek, DeleteKeys, Doomed, DeleteAll, EndsDelete, SortedKeys;
      hide WrittenAt, DeletePart, Delete;
      ghost var s := Abs();
      var tomb := Rev(rev, subrev, true);
      GoodKeys(s);
      BeforeDelete(keys, key, end);
      DeleteNothing(s, epoch, tomb, flags.multiWrite);
      var items: seq<(bytes, KeyRecord)> := [];
      var i := Seek(keys, key);
      while i < |keys|
        invariant Valid() && keys == s.keys && Seek(keys, key) <= i <= |keys|
        invariant DeletePart(s, Abs(), epoch, DeleteKeys(s.keys[..i], key, end), tomb, items, flags.multiWrite)
      {
        var k := keys[i];
        if EndsDelete(k, key, end) { break; }
        AtDelete(keys, key, end, i);
        ghost var ks := DeleteKeys(s.keys[..i], key, end);
        DeletePartNext(s, Abs(), epoch, ks, tomb, items, flags.multiWrite, k);
        assert k in keys;
        var dup, item := DeleteKey(k, tomb, epoch);
        if dup {
          DeleteConflict(s, s.keys, key, end, i, rev);
          return Err(DuplicateKey);
        }
        if item.Some? { items := items + [(k, item.value)]; }
        DeletePartKeys(s, Abs(), epoch, ks + [k], tomb, items, flags.multiWrite);
        i := i + 1;
        if end == [] {
          OnlyOnce(keys, i - 1);
          break;
        }
      }
      PastDelete(s.keys, key, end, i);
      DeletePartDone(s, Abs(), epoch, DeleteKeys(s.keys, key, end), tomb, items, flags.multiWrite);
      return Ok(items);
    }

    /** deleteBatch: tombstones for the live ones among the given keys, which must all exist. */
    method DeleteBatch(rev: nat, subrev: nat, epoch: nat, ks: seq<bytes>) returns (r: Result<(), OpError>)
      requires Valid() && Packable(Rev(rev, subrev, true))
      requires forall k <- ks :: Current(hist, k).Some? ==>
        forall w <- Lookup(hist, k) :: Older(RevOf(w), Rev(rev, subrev, true))
      requires forall e <- evt :: !Older(Rev(rev, subrev, true), e.rev)
      modifies this
      ensures Valid()
      ensures r.Ok? <==> forall k <- ks :: k in old(hist)
      ensures r.Ok? ==> Abs() == DeleteAll(old(Abs()), epoch, ks, Rev(rev, subrev, true))
    {
      hide Good, Represents, Sound, DeleteAll, Older;
      ghost var s := Abs();
      var tomb := Rev(rev, subrev, true);
      DeleteAllNone(s, epoch, tomb);
      for j := 0 to |ks|
        invariant Valid() && Abs() == DeleteAll(s, epoch, ks[..j], tomb)
        invariant forall k <- ks[..j] :: k in s.hist
      {
        var k := ks[j];
        BatchTurn(s, epoch, ks, j, tomb);
        var krec := NewestRecord(k);
        if krec.None? { return Err(NotFound); }
        if !krec.value.rev.del {
          Tombstone(k, tomb, epoch);
        }
        assert ks[..j + 1] == ks[..j] + [k];
      }
      assert ks[..|ks|] == ks;
      return Ok(());
    }

    // ---- compaction ----

    /** Deletes the records of a key older than `rev`, and their values. */
    method TruncateKey(key: bytes, rev: Rev)
      requires Valid() && key in hist && (exists v <- hist[key] :: RevOf(v) == rev)
      requires forall e <- evt :: e.key == key ==> !Older(e.rev, rev)
      modifies this
      ensures Valid() && Abs() == Truncate(old(Abs()), key, rev)
      ensures val == old(val) - DroppedRevs(old(hist[key]), rev)
    {
      hide Good, Represents, Sound, KeepFrom, Older, GoodVersions, DroppedRevs, DroppedBetween;
      ghost var s, vs, n := Abs(), hist[key], |KeepFrom(hist[key], rev)|;
      KeyFacts(host, cfg, recs, val, s, key);
      TruncateGood(s, key, rev);
      KeepFromSplit(key, vs, rev);
      RepresentsTruncate(host, cfg, recs, val, s, key, rev);
      var kept := DropRecords(key, rev, vs, n);
      DroppedAll(key, vs, rev);
      recs := recs[key := kept];
      hist := hist[key := KeepFrom(vs, rev)];
    }

    /** The loop over the records of a key: keeps those not older than `rev`, deletes the values of the others. */
    method DropRecords(key: bytes, rev: Rev, ghost vs: Versions, ghost n: nat) returns (kept: seq<KeyRecord>)
      requires key in recs && recs[key] == Records(vs) && GoodVersions(key, vs) && 1 <= n <= |vs|
      requires forall i | 0 <= i < |vs| :: Older(RevOf(vs[i]), rev) <==> i >= n
      modifies `val
      ensures kept == recs[key][..n] && val == old(val) - DroppedBetween(vs, n, |vs|)
    {
      hide Older, GoodVersions, Records, DroppedBetween;
      var rs := recs[key];
      kept := [];
      var hasNewer := false;
      var i := 0;
      DroppedNone(vs, n);
      while i < |rs|
        invariant i <= |rs| && kept == rs[..if i <= n then i else n] && hasNewer == (i > 0)
        invariant val == old(val) - DroppedBetween(vs, n, i)
      {
        DroppedStep(vs, n, i);
        TombIsDel(key, vs, i);
        if !Older(rs[i].rev, rev) {
          kept := kept + [rs[i]];
        } else if hasNewer && !rs[i].rev.del {
          val := val - {rs[i].rev};
        }
        hasNewer := true;
        i := i + 1;
      }
    }

    /**
     compact: takes the events below `max` off the log in batches, and cuts each key
     back to its last event among them. It fails once it runs off the end of the log.
     */
    method Compact(max: nat) returns (r: Result<nat, Error>)
      requires Valid()
      modifies this
      ensures r.Ok? <==> CanCompact(old(Abs()), max)
      ensures r.Ok? ==> Valid() && Abs() == History.Compact(old(Abs()), max)
      ensures r.Ok? ==> |evt| <= |old(evt)| && r.value == LastUpper(old(evt)[..|old(evt)| - |evt|])
      ensures r.Err? ==> r.error == if old(evt) == [] then ChecksumMissing else ChecksumInvalid
    {
      hide Good, Represents, Sound, Compacting;
      ghost var s := Abs();
      if evt == [] { return Err(ChecksumMissing); }
      CompactingStart(s, max);
      var last, done := 0, false;
      while !done
        invariant Valid() && |evt| <= |s.evts| && Compacting(s, Abs(), max, map[])
        invariant last == LastUpper(s.evts[..|s.evts| - |evt|])
        invariant done ==> max > 0 && evt != [] && evt[0].rev.upper >= max
        decreases !done, |evt|
      {
        if evt == [] {
          CompactingOver(s, Abs(), max);
          return Err(ChecksumInvalid);
        }
        var batch;
        last, done, batch := TakeEvents(max, last, s);
        TruncateBatch(batch, s, max);
      }
      CompactingDone(s, Abs(), max);
      return Ok(last);
    }

    /** Takes events off the log until the target, the end of the log, or a full batch of keys. */
    method TakeEvents(max: nat, last0: nat, ghost s: Store) returns (last: nat, done: bool, batch: map<bytes, Rev>)
      requires Valid() && Good(s) && evt != [] && |evt| <= |s.evts| && Compacting(s, Abs(), max, map[])
      requires last0 == LastUpper(s.evts[..|s.evts| - |evt|])
      modifies this
      ensures Valid() && |evt| <= |s.evts| && Compacting(s, Abs(), max, batch)
      ensures last == LastUpper(s.evts[..|s.evts| - |evt|])
      ensures done ==> max > 0 && evt != [] && evt[0].rev.upper >= max
      ensures !done ==> |evt| < |old(evt)|
      ensures |evt| <= |old(evt)|
    {
      hide Good, Represents, Sound, Compacting, LastUpper;
      last, done, batch := last0, false, map[];
      while evt != []
        invariant Valid() && |evt| <= |s.evts| && Compacting(s, Abs(), max, batch)
        invariant last == LastUpper(s.evts[..|s.evts| - |evt|]) && !done
        invariant |evt| <= |old(evt)| && (|evt| == |old(evt)| ==> batch == map[])
        decreases |evt|
      {
        if max > 0 && evt[0].rev.upper >= max {
          done := true;
          break;
        }
        if |batch| >= MAX_KEYS { break; }
        CompactingTake(s, Abs(), max, batch);
        RepresentsEvents(host, cfg, recs, val, Abs(), evt[1..]);
        last := evt[0].rev.upper;
        batch := batch[evt[0].key := evt[0].rev];
        evt := evt[1..];
      }
    }

    /** Cuts back the keys of a batch, in no particular order. */
    method TruncateBatch(batch: map<bytes, Rev>, ghost s: Store, ghost max: nat)
      requires Valid() && Good(s) && Compacting(s, Abs(), max, batch)
      modifies this
      ensures Valid() && Compacting(s, Abs(), max, map[]) && evt == old(evt)
    {
      hide Good, Represents, Sound, Compacting, KeepFrom, Older;
      var todo := batch;
      while todo != map[]
        invariant Valid() && Compacting(s, Abs(), max, todo) && evt == old(evt)
        decreases |todo|
      {
        var key :| key in todo;
        CompactingCut(s, Abs(), max, todo, key);
        TruncateKey(key, todo[key]);
        assert |todo - {key}| < |todo| by { assert todo.Keys == (todo - {key}).Keys + {key}; }
        todo := todo - {key};
      }
    }

    /** One turn of the loop of getRange. */
    method RangeKey(key: bytes, q: RangeReq, countOnly: bool) returns (o: KeyOutcome)
      requires Valid() && key in hist
      ensures IsOutcome(hist[key], q, countOnly, o)
    {
      hide Good, Represents, Sound, Chain, AnyShort, Descended;
      var i, next, start := Descend(key, q.revision, !countOnly);
      ghost var vs := hist[key];
      DescendEnd(host, cfg, val, vs, q.revision, start, i);
      KeyFacts(host, cfg, recs, val, Abs(), key);
      hide GoodVersions;
      if i == |recs[key]| { return Skip; }
      TombIsDel(key, vs, i);
      var rev := recs[key][i].rev;
      if q.minMod > 0 && rev.upper < q.minMod { return Skip; }
      if q.maxMod > 0 && rev.upper > q.maxMod { return Skip; }
      if rev.del { return Skip; }
      if countOnly { return Count; }
      var got := ReadChain(key, i, next, q.keysOnly, start, q.revision);
      if got.Err? { return Fail(got.error); }
      var item := got.value;
      if q.minCreated > 0 && item.created < q.minCreated { return Reject; }
      if q.maxCreated > 0 && item.created > q.maxCreated { return Reject; }
      return Item(item);
    }

    /** getRange, whose answer is a function of the history. */
    method GetRange(q: RangeReq) returns (r: Result<RangeResult, Error>)
      requires Valid()
      ensures r == RangeOf(hist, keys, q, flags)
    {
      hide Good, Represents, Sound, IsOutcome, SortedKeys, Seek, LexLess, EndsRange, Tally, OutcomeOf;
      GoodKeys(Abs());
      var st := Scan([], 0, false, q.countOnly);
      var i := Seek(keys, q.key);
      while i < |keys|
        invariant i <= |keys| && RangeOf(hist, keys, q, flags) == ScanFrom(hist, keys, i, st, q, flags)
      {
        var k := keys[i];
        if EndsRange(k, q) { break; }
        if !st.countOnly && q.limit > 0 && |st.items| == q.limit {
          st := st.(more := true);
          if !flags.countFull && !flags.countFake { return Ok(RangeResult(st.items, st.count, st.more)); }
          st := st.(countOnly := true);
        }
        assert k in keys && k in hist;
        var o := RangeKey(k, q, st.countOnly);
        OutcomeUnique(hist[k], q, st.countOnly, o);
        if o.Fail? { return Err(o.error); }
        st := Tally(st, o);
        if o.Count? && flags.countFake { return Ok(RangeResult(st.items, st.count, st.more)); }
        if q.end == [] { return Ok(RangeResult(st.items, st.count, st.more)); }
        i := i + 1;
      }
      return Ok(RangeResult(st.items, st.count, st.more));
    }
  }

  // ---- compaction, on values ----

  const MAX_KEYS: nat := 1000

  /** The revision of the last of these events. */
  function LastUpper(evts: seq<Event>): nat {
    if evts == [] then 0 else evts[|evts| - 1].rev.upper
  }

  /**
   Some events of s have been taken off, giving t. A key in `todo` waits to be cut
   back to its last such event; every other key already is.
   */
  ghost predicate Compacting(s: Store, t: Store, max: nat, todo: map<bytes, Rev>) {
    var n := |s.evts| - |t.evts|;
    && 0 <= n && t.evts == s.evts[n..] && t.keys == s.keys && t.hist.Keys == s.hist.Keys && todo.Keys <= s.hist.Keys
    && (max > 0 ==> forall i | 0 <= i < n :: s.evts[i].rev.upper < max)
    && forall k <- s.hist ::
      Cut(s.hist[k], t.hist[k], LastOf(s.evts[..n], k), if k in todo then Some(todo[k]) else None)
  }

  ghost predicate Cut(vs: Versions, ws: Versions, last: Option<Rev>, pending: Option<Rev>) {
    if pending.None? then ws == CompactVersions(vs, last)
    else last == pending && KeepFrom(ws, pending.value) == KeepFrom(vs, pending.value)
  }

  lemma CompactingStart(s: Store, max: nat)
    ensures Compacting(s, s, max, map[])
  {
    assert s.evts[0..] == s.evts && s.evts[..0] == [];
  }

  lemma CompactingOver(s: Store, t: Store, max: nat)
    requires Compacting(s, t, max, map[]) && t.evts == []
    ensures !CanCompact(s, max)
  {}

  lemma CompactingDone(s: Store, t: Store, max: nat)
    requires Good(s) && Compacting(s, t, max, map[])
    requires max > 0 && t.evts != [] && t.evts[0].rev.upper >= max
    ensures CanCompact(s, max) && t == History.Compact(s, max)
  {
    hide Good, EventsFrom, CompactVersions, LastBelow, LastOf;
    var n := |s.evts| - |t.evts|;
    assert s.evts[n] == t.evts[0];
    LaterEvents(s, n, max);
    EventsFromSplit(s.evts, n, max);
    forall k | k in s.hist ensures t.hist[k] == CompactVersions(s.hist[k], LastBelow(s.evts, k, max)) {
      LastOfBelow(s.evts, n, max, k);
    }
    CompactIs(s, t, max);
  }

  lemma LaterEvents(s: Store, n: nat, max: nat)
    requires Good(s) && n < |s.evts| && s.evts[n].rev.upper >= max
    ensures forall i | n <= i < |s.evts| :: s.evts[i].rev.upper >= max
  {
    forall i | n <= i < |s.evts| ensures s.evts[i].rev.upper >= max {
      if i > n { assert !Older(s.evts[i].rev, s.evts[n].rev); }
    }
  }

  lemma CompactIs(s: Store, t: Store, max: nat)
    requires t.keys == s.keys && t.hist.Keys == s.hist.Keys && t.evts == EventsFrom(s.evts, max)
    requires forall k <- s.hist :: t.hist[k] == CompactVersions(s.hist[k], LastBelow(s.evts, k, max))
    ensures t == History.Compact(s, max)
  {
    hide EventsFrom, CompactVersions, LastBelow;
    assert t.hist == History.Compact(s, max).hist;
  }

  /** The last event taken for a key is not newer than any event still in the log. */
  lemma LastNotNewer(s: Store, n: nat, k: bytes, i: nat)
    requires Good(s) && n <= i < |s.evts| && LastOf(s.evts[..n], k).Some?
    ensures !Older(s.evts[i].rev, LastOf(s.evts[..n], k).value)
  {
    LastOfSound(s.evts[..n], k);
    var e :| e in s.evts[..n] && e.key == k && e.rev == LastOf(s.evts[..n], k).value;
    var j :| 0 <= j < n && s.evts[j] == e;
  }

  lemma RepresentsEvents(h: Host, cfg: Config, recs: map<bytes, seq<KeyRecord>>, val: map<Rev, bytes>, s: Store,
                         evts: seq<Event>)
    requires Represents(h, cfg, recs, val, s)
    ensures Represents(h, cfg, recs, val, s.(evts := evts))
  {}

  lemma CompactingTake(s: Store, t: Store, max: nat, todo: map<bytes, Rev>)
    requires Good(s) && Good(t) && Compacting(s, t, max, todo) && t.evts != []
    requires (max > 0 ==> t.evts[0].rev.upper < max)
    ensures var e := t.evts[0];
      var u := t.(evts := t.evts[1..]);
      && Good(u) && Compacting(s, u, max, todo[e.key := e.rev])
      && LastUpper(s.evts[..|s.evts| - |u.evts|]) == e.rev.upper
  {
    hide Good, Cut, LastOf;
    var e := t.evts[0];
    var u := t.(evts := t.evts[1..]);
    var n := |s.evts| - |t.evts|;
    assert e == s.evts[n] && u.evts == s.evts[n + 1..];
    GoodTail(t);
    EventKey(s, n);
    var todo2 := todo[e.key := e.rev];
    forall k | k in s.hist
      ensures Cut(s.hist[k], u.hist[k], LastOf(s.evts[..n + 1], k), if k in todo2 then Some(todo2[k]) else None)
    {
      CutTake(s, t, n, k, if k in todo then Some(todo[k]) else None);
    }
  }

  lemma EventKey(s: Store, n: nat)
    requires Good(s) && n < |s.evts|
    ensures s.evts[n].key in s.hist
  {
    assert Recorded(s.hist, s.evts[n]);
  }

  lemma CutTake(s: Store, t: Store, n: nat, k: bytes, pending: Option<Rev>)
    requires Good(s) && Good(t) && n < |s.evts| && k in s.hist && k in t.hist
    requires Cut(s.hist[k], t.hist[k], LastOf(s.evts[..n], k), pending)
    ensures Cut(s.hist[k], t.hist[k], LastOf(s.evts[..n + 1], k),
                if k == s.evts[n].key then Some(s.evts[n].rev) else pending)
  {
    var e := s.evts[n];
    var last := LastOf(s.evts[..n], k);
    assert s.evts[..n + 1][..n] == s.evts[..n];
    if k == e.key && last.Some? {
      LastNotNewer(s, n, k, n);
      GoodHead(s, k);
      GoodHead(t, k);
      hide Good, KeepFrom, Older;
      CutFurther(k, s.hist[k], t.hist[k], last.value, pending, e.rev);
    }
  }

  lemma GoodTail(t: Store)
    requires Good(t) && t.evts != []
    ensures Good(t.(evts := t.evts[1..]))
  {
    hide GoodVersions, Older, Recorded;
    assert forall e <- t.evts[1..] :: e in t.evts;
  }

  lemma CutFurther(k: bytes, vs: Versions, ws: Versions, last: Rev, pending: Option<Rev>, r: Rev)
    requires Descending(vs) && Descending(ws) && Cut(vs, ws, Some(last), pending) && !Older(r, last)
    ensures KeepFrom(ws, r) == KeepFrom(vs, r)
  {
    hide KeepFrom;
    KeepFromAgain(vs, last, r);
    if pending.Some? { KeepFromAgain(ws, last, r); }
  }

  /** The version a pending key is to be cut back to is there. */
  lemma CutTarget(s: Store, t: Store, n: nat, key: bytes, r: Rev)
    requires Good(s) && Good(t) && n <= |s.evts| && key in s.hist && key in t.hist
    requires Cut(s.hist[key], t.hist[key], LastOf(s.evts[..n], key), Some(r))
    ensures exists v <- t.hist[key] :: RevOf(v) == r
  {
    LastOfSound(s.evts[..n], key);
    var e :| e in s.evts[..n] && e.key == key && e.rev == r;
    assert e in s.evts;
    assert Recorded(s.hist, e);
    var v :| v in s.hist[key] && RevOf(v) == r;
    GoodHead(s, key);
    GoodHead(t, key);
    hide Good, KeepFrom, Recorded;
    KeepFromMembers(s.hist[key], r);
    KeepFromMembers(t.hist[key], r);
    assert v in KeepFrom(s.hist[key], r);
  }

  lemma CutLater(s: Store, t: Store, n: nat, key: bytes, r: Rev)
    requires Good(s) && n <= |s.evts| && t.evts == s.evts[n..] && LastOf(s.evts[..n], key) == Some(r)
    ensures forall e <- t.evts :: !Older(e.rev, r)
  {
    hide Good, Older, LastOf;
    forall e | e in t.evts ensures !Older(e.rev, r) {
      var i :| 0 <= i < |t.evts| && t.evts[i] == e;
      LastNotNewer(s, n, key, n + i);
    }
  }

  lemma CompactingCut(s: Store, t: Store, max: nat, todo: map<bytes, Rev>, key: bytes)
    requires Good(s) && Good(t) && Compacting(s, t, max, todo) && key in todo
    ensures key in t.hist && (exists v <- t.hist[key] :: RevOf(v) == todo[key])
    ensures forall e <- t.evts :: e.key == key ==> !Older(e.rev, todo[key])
    ensures Compacting(s, Truncate(t, key, todo[key]), max, todo - {key})
  {
    hide Good, KeepFrom, Older, LastOf;
    var n := |s.evts| - |t.evts|;
    var r := todo[key];
    assert Cut(s.hist[key], t.hist[key], LastOf(s.evts[..n], key), Some(r));
    CutTarget(s, t, n, key, r);
    CutLater(s, t, n, key, r);
    var u := Truncate(t, key, r);
    forall k | k in s.hist
      ensures Cut(s.hist[k], u.hist[k], LastOf(s.evts[..n], k),
        if k in todo - {key} then Some((todo - {key})[k]) else None)
    {
      assert Cut(s.hist[k], t.hist[k], LastOf(s.evts[..n], k), if k in todo then Some(todo[k]) else None);
    }
  }

  // ---- cutting a key back, on values ----

  /** The values that belong to versions older than r. */
  ghost function DroppedRevs(vs: Versions, r: Rev): set<Rev> {
    set v | v in vs && v.Live? && Older(RevOf(v), r) :: RevOf(v)
  }

  ghost function DroppedBetween(vs: Versions, n: nat, i: nat): set<Rev>
    requires i <= |vs|
  {
    set j | n <= j < i && vs[j].Live? :: RevOf(vs[j])
  }

  lemma DroppedNone(vs: Versions, n: nat)
    ensures DroppedBetween(vs, n, 0) == {}
  {}

  lemma DroppedStep(vs: Versions, n: nat, i: nat)
    requires i < |vs|
    ensures DroppedBetween(vs, n, i + 1) ==
      DroppedBetween(vs, n, i) + if n <= i && vs[i].Live? then {RevOf(vs[i])} else {}
  {}

  lemma KeepFromSplit(key: bytes, vs: Versions, r: Rev)
    requires GoodVersions(key, vs) && exists v <- vs :: RevOf(v) == r
    ensures var n := |KeepFrom(vs, r)|;
      && 1 <= n <= |vs| && KeepFrom(vs, r) == vs[..n]
      && (forall i | 0 <= i < |vs| :: Older(RevOf(vs[i]), r) <==> i >= n)
  {
    hide Older;
    KeepFromMembers(vs, r);
    KeepFromGood(key, vs, r);
    var k := KeepFrom(vs, r);
    forall i | 0 <= i < |vs| ensures Older(RevOf(vs[i]), r) <==> i >= |k| {
      if i < |k| {
        assert k[i] == vs[i] && k[i] in k;
      } else if !Older(RevOf(vs[i]), r) {
        assert vs[i] in vs && vs[i] in k;
        var j :| 0 <= j < |k| && k[j] == vs[i];
        SameVersion(key, vs, j, i);
      }
    }
  }

  lemma SameVersion(key: bytes, vs: Versions, j: nat, i: nat)
    requires GoodVersions(key, vs) && j < i < |vs|
    ensures vs[j] != vs[i] && RevOf(vs[j]) != RevOf(vs[i])
  {
    assert Older(RevOf(vs[i]), RevOf(vs[j]));
  }

  lemma DroppedAll(key: bytes, vs: Versions, r: Rev)
    requires GoodVersions(key, vs) && exists v <- vs :: RevOf(v) == r
    ensures DroppedBetween(vs, |KeepFrom(vs, r)|, |vs|) == DroppedRevs(vs, r)
  {
    KeepFromSplit(key, vs, r);
    hide Older, GoodVersions, KeepFrom;
    var n := |KeepFrom(vs, r)|;
    forall x | x in DroppedRevs(vs, r) ensures x in DroppedBetween(vs, n, |vs|) {
      var v :| v in vs && v.Live? && Older(RevOf(v), r) && RevOf(v) == x;
      var j :| 0 <= j < |vs| && vs[j] == v;
    }
    forall x | x in DroppedBetween(vs, n, |vs|) ensures x in DroppedRevs(vs, r) {
      var j :| n <= j < |vs| && vs[j].Live? && RevOf(vs[j]) == x;
      assert vs[j] in vs;
    }
  }

  lemma {:induction false} ChainPrefix(h: Host, cfg: Config, val: map<Rev, bytes>, vs: Versions, next: Option<bytes>,
                                       n: nat)
    requires Chain(h, cfg, val, vs, next) && n <= |vs|
    ensures Chain(h, cfg, val, vs[..n], next)
  {
    hide StoredAs;
    if n > 0 {
      ChainPrefix(h, cfg, val, vs[1..], if vs[0].Tomb? then None else Some(vs[0].kv.val), n - 1);
      assert vs[..n][1..] == vs[1..][..n - 1];
    }
  }

  lemma TruncateOther(h: Host, cfg: Config, val: map<Rev, bytes>, s: Store, k: bytes, key: bytes, r: Rev)
    requires Sound(h) && Good(s) && k in s.hist && key in s.hist && k != key
    requires Chain(h, cfg, val, s.hist[k], None) && Chain(h, cfg, val, s.hist[key], None)
    ensures Chain(h, cfg, val - DroppedRevs(s.hist[key], r), s.hist[k], None)
  {
    GoodHead(s, k);
    GoodHead(s, key);
    hide Chain, Good, GoodVersions, Sound, Older;
    var wal := val - DroppedRevs(s.hist[key], r);
    forall w | w in s.hist[k] && w.Live? && w.kv.rev in val ensures w.kv.rev in wal && wal[w.kv.rev] == val[w.kv.rev] {
      if w.kv.rev in DroppedRevs(s.hist[key], r) {
        var v :| v in s.hist[key] && v.Live? && Older(RevOf(v), r) && RevOf(v) == w.kv.rev;
        KeysApart(h, cfg, val, k, s.hist[k], key, s.hist[key], w, v);
      }
    }
    ChainFrame(h, cfg, val, wal, s.hist[k], None);
  }

  lemma TruncateSelf(h: Host, cfg: Config, val: map<Rev, bytes>, key: bytes, vs: Versions, r: Rev)
    requires GoodVersions(key, vs) && (exists v <- vs :: RevOf(v) == r) && Chain(h, cfg, val, vs, None)
    ensures Chain(h, cfg, val - DroppedRevs(vs, r), KeepFrom(vs, r), None)
  {
    KeepFromSplit(key, vs, r);
    var n := |KeepFrom(vs, r)|;
    ChainPrefix(h, cfg, val, vs, None, n);
    hide Chain, GoodVersions, Older, KeepFrom;
    var wal := val - DroppedRevs(vs, r);
    forall w | w in vs[..n] && w.Live? && w.kv.rev in val ensures w.kv.rev in wal && wal[w.kv.rev] == val[w.kv.rev] {
      var i :| 0 <= i < n && vs[i] == w;
      assert !Older(w.kv.rev, r);
    }
    ChainFrame(h, cfg, val, wal, vs[..n], None);
  }

  lemma RepresentsTruncate(h: Host, cfg: Config, recs: map<bytes, seq<KeyRecord>>, val: map<Rev, bytes>, s: Store,
                           key: bytes, r: Rev)
    requires Sound(h) && Good(s) && Represents(h, cfg, recs, val, s)
    requires key in s.hist && exists v <- s.hist[key] :: RevOf(v) == r
    ensures |KeepFrom(s.hist[key], r)| <= |recs[key]|
    ensures Represents(h, cfg, recs[key := recs[key][..|KeepFrom(s.hist[key], r)|]],
                       val - DroppedRevs(s.hist[key], r), Truncate(s, key, r))
  {
    GoodHead(s, key);
    KeepFromSplit(key, s.hist[key], r);
    hide Chain, Good, GoodVersions, Sound, Older, KeepFrom, DroppedRevs;
    TruncateSelf(h, cfg, val, key, s.hist[key], r);
    forall k | k in s.hist && k != key ensures Chain(h, cfg, val - DroppedRevs(s.hist[key], r), s.hist[k], None) {
      TruncateOther(h, cfg, val, s, k, key, r);
    }
    var n := |KeepFrom(s.hist[key], r)|;
    assert Records(s.hist[key])[..n] == Records(s.hist[key][..n]);
  }

  // ---- the loops of the deletes, on values ----

  lemma RepresentsDelete(h: Host, cfg: Config, recs: map<bytes, seq<KeyRecord>>, val: map<Rev, bytes>, s: Store,
                         epoch: nat, key: bytes, rev: Rev)
    requires Represents(h, cfg, recs, val, s) && key in s.hist && s.hist[key] != [] && s.hist[key][0].Live?
    ensures Represents(h, cfg, recs[key := [KeyRecord(rev, 0)] + recs[key]], val, Delete(s, epoch, key, rev))
  {
    hide StoredAs;
    ChainPush(h, cfg, val, s.hist[key], Tomb(rev));
    assert Records([Tomb(rev)] + s.hist[key]) == [KeyRecord(rev, 0)] + Records(s.hist[key]);
    hide Chain;
  }

  lemma DeleteAllNone(s: Store, epoch: nat, tomb: Rev)
    ensures DeleteAll(s, epoch, [], tomb) == s
  {}

  /** What a turn of deleteBatch needs to know, and what it does to the store. */
  lemma BatchTurn(s: Store, epoch: nat, ks: seq<bytes>, j: nat, tomb: Rev)
    requires Good(s) && j < |ks| && (forall e <- s.evts :: !Older(tomb, e.rev))
    requires forall k <- ks :: Current(s.hist, k).Some? ==> forall w <- Lookup(s.hist, k) :: Older(RevOf(w), tomb)
    ensures var t := DeleteAll(s, epoch, ks[..j], tomb);
      && DeleteAll(s, epoch, ks[..j + 1], tomb) == Delete(t, epoch, ks[j], tomb)
      && t.hist.Keys == s.hist.Keys && (forall e <- t.evts :: !Older(tomb, e.rev))
      && (Current(t.hist, ks[j]).Some? ==> forall w <- Lookup(t.hist, ks[j]) :: Older(RevOf(w), tomb))
  {
    DeleteAllLive(s, epoch, ks[..j], tomb, ks[j]);
    DeleteAllEvents(s, epoch, ks[..j], tomb);
    DeleteAllKeys(s, epoch, ks[..j], tomb);
    assert ks[..j + 1][..j] == ks[..j];
    assert ks[j] in ks;
  }

  /** The keys `ks` of s are deleted, giving t. */
  ghost predicate DeletePart(s: Store, t: Store, epoch: nat, ks: seq<bytes>, tomb: Rev,
                             items: seq<(bytes, KeyRecord)>, multiWrite: bool)
  {
    && t == DeleteAll(s, epoch, ks, tomb) && items == Doomed(s, ks)
    && (!multiWrite ==> !WrittenAt(s, ks, tomb.upper))
  }

  lemma DeleteNothing(s: Store, epoch: nat, tomb: Rev, multiWrite: bool)
    ensures DeletePart(s, s, epoch, [], tomb, [], multiWrite)
  {}

  lemma DeletePartDone(s: Store, t: Store, epoch: nat, ks: seq<bytes>, tomb: Rev, items: seq<(bytes, KeyRecord)>,
                       multiWrite: bool)
    requires DeletePart(s, t, epoch, ks, tomb, items, multiWrite)
    ensures t == DeleteAll(s, epoch, ks, tomb) && items == Doomed(s, ks)
    ensures !multiWrite ==> !WrittenAt(s, ks, tomb.upper)
  {}

  lemma DeletePartNext(s: Store, t: Store, epoch: nat, ks: seq<bytes>, tomb: Rev, items: seq<(bytes, KeyRecord)>,
                       multiWrite: bool, k: bytes)
    requires DeletePart(s, t, epoch, ks, tomb, items, multiWrite) && k !in ks && AllOlder(s, tomb)
    ensures Lookup(t.hist, k) == Lookup(s.hist, k) && forall e <- t.evts :: !Older(tomb, e.rev)
    ensures forall w <- Lookup(t.hist, k) :: Older(RevOf(w), tomb)
    ensures var vs := Lookup(s.hist, k);
      var live := vs != [] && vs[0].Live?;
      (live && vs[0].kv.rev.upper == tomb.upper ==> multiWrite) ==>
      DeletePart(s, if live then Delete(t, epoch, k, tomb) else t, epoch, ks + [k], tomb,
                 if live then items + [(k, KeyRecord(vs[0].kv.rev, vs[0].recLease))] else items, multiWrite)
  {
    DeleteAllLive(s, epoch, ks, tomb, k);
    DeleteAllEvents(s, epoch, ks, tomb);
    assert (ks + [k])[..|ks|] == ks;
    assert forall x <- ks + [k] :: x in ks || x == k;
  }

  lemma DeletePartKeys(s: Store, t: Store, epoch: nat, ks: seq<bytes>, tomb: Rev,
                       items: seq<(bytes, KeyRecord)>, multiWrite: bool)
    requires Good(s) && DeletePart(s, t, epoch, ks, tomb, items, multiWrite)
    ensures t.keys == s.keys
  {
    DeleteAllKeys(s, epoch, ks, tomb);
  }

  lemma DeleteConflict(s: Store, ks: seq<bytes>, key: bytes, end: bytes, i: nat, upper: nat)
    requires i < |ks| && DeleteKeys(ks[..i + 1], key, end) == DeleteKeys(ks[..i], key, end) + [ks[i]]
    requires Current(s.hist, ks[i]).Some? && Current(s.hist, ks[i]).value.rev.upper == upper
    ensures WrittenAt(s, DeleteKeys(ks, key, end), upper)
  {
    DeleteKeysPrefix(ks, key, end, i + 1);
    var part := DeleteKeys(ks[..i + 1], key, end);
    assert part[|part| - 1] == ks[i];
    assert ks[i] in DeleteKeys(ks, key, end);
  }

  // ---- the loop of getRange, on values ----

  /** The variables of the loop. */
  datatype Scan = Scan(items: seq<Kv>, count: nat, more: bool, countOnly: bool)

  predicate EndsRange(k: bytes, q: RangeReq) {
    !FullScan(q) && if q.end == [] then k != q.key else !LexLess(k, q.end)
  }

  function Tally(st: Scan, o: KeyOutcome): Scan {
    match o
    case Count => st.(count := st.count + 1)
    case Item(kv) => st.(count := st.count + 1, items := st.items + [kv])
    case _ => st
  }

  /** What one key contributes: nothing, a count, its pair, or the failure to read it. */
  ghost predicate IsOutcome(vs: Versions, q: RangeReq, countOnly: bool, o: KeyOutcome) {
    if !Picked(vs, q) then o == Skip
    else if countOnly then o == Count
    else
      match ReadAt(vs, q.revision, false)
      case Err(e) => o == Fail(e)
      case Ok(kv) => kv.Some? && o == if CreatedOk(kv.value, q) then Item(ItemOf(vs, q)) else Reject
  }

  function OutcomeOf(vs: Versions, q: RangeReq, countOnly: bool): KeyOutcome {
    if !Picked(vs, q) then Skip
    else if countOnly then Count
    else
      var kv := ReadAt(vs, q.revision, false);
      if kv.Err? then Fail(kv.error)
      else if kv.value.Some? && CreatedOk(kv.value.value, q) then Item(ItemOf(vs, q)) else Reject
  }

  lemma OutcomeUnique(vs: Versions, q: RangeReq, countOnly: bool, o: KeyOutcome)
    requires IsOutcome(vs, q, countOnly, o)
    ensures o == OutcomeOf(vs, q, countOnly)
  {
    hide Picked, ReadAt, ItemOf, CreatedOk;
  }

  /** The answer of a range from the key at index i on. */
  function ScanFrom(h: map<bytes, Versions>, ks: seq<bytes>, i: nat, st: Scan, q: RangeReq,
                    f: Flags): Result<RangeResult, Error>
    requires i <= |ks|
    decreases |ks| - i
  {
    if i == |ks| || EndsRange(ks[i], q) then Ok(RangeResult(st.items, st.count, st.more))
    else
      var full := !st.countOnly && q.limit > 0 && |st.items| == q.limit;
      var st1 := if full then st.(more := true, countOnly := true) else st;
      if full && !f.countFull && !f.countFake then Ok(RangeResult(st1.items, st1.count, st1.more))
      else
        var o := OutcomeOf(Lookup(h, ks[i]), q, st1.countOnly);
        var st2 := Tally(st1, o);
        if o.Fail? then Err(o.error)
        else if (o.Count? && f.countFake) || q.end == [] then Ok(RangeResult(st2.items, st2.count, st2.more))
        else ScanFrom(h, ks, i + 1, st2, q, f)
  }

  /** The answer of a range, whatever the switches. */
  function RangeOf(h: map<bytes, Versions>, ks: seq<bytes>, q: RangeReq, f: Flags): Result<RangeResult, Error> {
    ScanFrom(h, ks, Seek(ks, q.key), Scan([], 0, false, q.countOnly), q, f)
  }

  lemma GoodKeys(s: Store)
    requires Good(s)
    ensures SortedKeys(s.keys) && forall k :: k in s.keys <==> k in s.hist
  {}

  lemma RangeStart(h: map<bytes, Versions>, ks: seq<bytes>, q: RangeReq)
    requires SortedKeys(ks)
    ensures Picks(h, ks[..Seek(ks, q.key)], q) == []
  {
    hide InRange;
    BeforeRange(ks, q);
    PicksNone(h, ks[..Seek(ks, q.key)], q);
  }

  /** A key at or past the seek position that did not end the loop is in range. */
  lemma RangePick(h: map<bytes, Versions>, ks: seq<bytes>, i: nat, q: RangeReq)
    requires SortedKeys(ks) && Seek(ks, q.key) <= i < |ks|
    requires !FullScan(q) && q.end == [] ==> ks[i] == q.key
    requires !FullScan(q) && q.end != [] ==> LexLess(ks[i], q.end)
    ensures Picks(h, ks[..i + 1], q) == Picks(h, ks[..i], q) + if Picked(Lookup(h, ks[i]), q) then [ks[i]] else []
  {
    var m := Seek(ks, q.key);
    LexTotal(ks[m], q.key);
    LexTotal(ks[i], q.key);
    LexTotal(ks[i], ks[m]);
    assert InRange(ks[i], q) by {
      if LexLess(ks[i], q.key) {
        LexTransitive(ks[i], q.key, ks[m]);
      }
    }
    hide InRange, Picked;
    assert ks[..i + 1][..i] == ks[..i];
  }

  lemma OnlyOnce(ks: seq<bytes>, i: nat)
    requires SortedKeys(ks) && i < |ks|
    ensures i + 1 < |ks| ==> ks[i + 1] != ks[i]
  {
    if i + 1 < |ks| { LexTotal(ks[i], ks[i + 1]); }
  }

  lemma SingleKey(ks: seq<bytes>, i: nat, q: RangeReq)
    requires SortedKeys(ks) && i < |ks| && q.end == [] && !EndsRange(ks[i], q)
    ensures i + 1 < |ks| ==> EndsRange(ks[i + 1], q)
  {
    OnlyOnce(ks, i);
  }

  lemma RangeEnd(h: map<bytes, Versions>, ks: seq<bytes>, i: nat, q: RangeReq)
    requires SortedKeys(ks) && Seek(ks, q.key) <= i <= |ks|
    requires i < |ks| ==> !FullScan(q)
    requires i < |ks| ==> if q.end == [] then ks[i] != q.key else !LexLess(ks[i], q.end)
    ensures Picks(h, ks[..i], q) == Picks(h, ks, q)
  {
    if i < |ks| { PastRange(ks, q, i); }
    hide InRange, Picked;
    PicksTail(h, ks, i, q);
  }

  lemma {:induction false} OnlyShort(vs: Versions, r: nat, bad: bool)
    ensures ReadAt(vs, r, bad).Err? ==> ReadAt(vs, r, bad).error == ChecksumMissing
  {
    if vs != [] && r > 0 && RevOf(vs[0]).upper > r {
      OnlyShort(vs[1..], r, vs[0].Live? && (bad || Short(vs[0].kv)));
    }
  }

  lemma TombIsDel(key: bytes, vs: Versions, i: nat)
    requires GoodVersions(key, vs) && i < |vs|
    ensures vs[i].Tomb? <==> RevOf(vs[i]).del
    ensures vs[i].Live? ==> Fits(vs[i].kv)
  {
    assert vs[i] in vs;
  }
}
