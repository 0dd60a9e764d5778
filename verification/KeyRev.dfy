/** kv.go: revisions packed into 64 bits, and the byte order of the tables. */
module KeyRev {
  import opened Base

  /** A revision, the position of the operation inside it, and whether it deletes. */
  datatype Rev = Rev(upper: nat, lower: nat, del: bool)

  const UPPER_LIMIT: nat := 0x10_0000_0000_0000 // 1 << 52
  const LOWER_LIMIT: nat := 1024

  predicate Packable(r: Rev) {
    r.upper < UPPER_LIMIT && r.lower < LOWER_LIMIT
  }

  const WORD_QUARTER: nat := 0x4000_0000_0000_0000 // 1 << 62

  /** newkeyrev: 64-bit arithmetic, so a large sub-revision spills into the revision. */
  function Pack(upper: nat, lower: nat, del: bool): (kr: nat)
    ensures kr < UINT64_LIMIT
  {
    4 * ((upper * 1024 + lower) % WORD_QUARTER) + if del then 2 else 0
  }

  function Upper(kr: nat): nat { kr / 4096 }

  function Lower(kr: nat): nat { (kr / 4) % LOWER_LIMIT }

  predicate IsDel(kr: nat) { (kr / 2) % 2 == 1 }

  function Invert(kr: nat): nat
    requires kr < UINT64_LIMIT
  {
    UINT64_LIMIT - 1 - kr
  }

  /** Older in the order of the event log: by revision, then position, a deletion last. */
  predicate Older(p: Rev, q: Rev) {
    p.upper < q.upper || (p.upper == q.upper && (p.lower < q.lower || (p.lower == q.lower && !p.del && q.del)))
  }

  function Packed(r: Rev): (kr: nat)
    ensures kr < UINT64_LIMIT
  {
    Pack(r.upper, r.lower, r.del)
  }

  lemma SmallModulo(x: nat, m: nat)
    requires x < m
    ensures x % m == x
  {}

  lemma PackedInRange(r: Rev)
    requires Packable(r)
    ensures Packed(r) == r.upper * 4096 + r.lower * 4 + if r.del then 2 else 0
  {
    SmallModulo(r.upper * 1024 + r.lower, WORD_QUARTER);
  }

  /** Packing loses nothing while both parts are in range. */
  lemma PackRoundTrip(r: Rev)
    requires Packable(r)
    ensures Rev(Upper(Packed(r)), Lower(Packed(r)), IsDel(Packed(r))) == r
  {
    hide Packed;
    PackedInRange(r);
    var d := if r.del then 2 else 0;
    var kr := Packed(r);
    assert kr / 4096 == r.upper;
    assert kr / 4 == r.upper * 1024 + r.lower;
    assert (kr / 4) % 1024 == r.lower;
    assert kr / 2 == (r.upper * 1024 + r.lower) * 2 + d / 2;
  }

  /** The 64-bit order is the logical order. */
  lemma PackOrder(p: Rev, q: Rev)
    requires Packable(p) && Packable(q)
    ensures Packed(p) < Packed(q) <==> Older(p, q)
  {
    hide Packed;
    PackedInRange(p);
    PackedInRange(q);
  }

  /** The 1025th operation of a transaction is indistinguishable from the next revision. */
  lemma SubRevisionSpills(upper: nat, del: bool)
    ensures Pack(upper, LOWER_LIMIT, del) == Pack(upper + 1, 0, del)
  {}

  // ---- byte order ----

  /** bytes.Compare(s, t) < 0. */
  predicate LexLess(s: bytes, t: bytes) {
    t != [] && (s == [] || s[0] < t[0] || (s[0] == t[0] && LexLess(s[1..], t[1..])))
  }

  function BigEndian(n: nat, width: nat): (r: bytes)
    ensures |r| == width
  {
    if width == 0 then [] else BigEndian(n / 256, width - 1) + [(n % 256) as byte]
  }

  function Power256(w: nat): (p: nat)
    ensures p >= 1
  {
    if w == 0 then 1 else 256 * Power256(w - 1)
  }

  /** The last byte decides only between equal prefixes. */
  lemma {:induction false} LexLast(s: bytes, t: bytes, x: byte, y: byte)
    requires |s| == |t|
    ensures LexLess(s + [x], t + [y]) <==> LexLess(s, t) || (s == t && x < y)
  {
    if s != [] {
      assert (s + [x])[1..] == s[1..] + [x] && (t + [y])[1..] == t[1..] + [y];
      LexLast(s[1..], t[1..], x, y);
      assert s == t <==> s[0] == t[0] && s[1..] == t[1..];
    }
  }

  lemma {:induction false} BigEndianInjective(m: nat, n: nat, w: nat)
    requires m < Power256(w) && n < Power256(w) && BigEndian(m, w) == BigEndian(n, w)
    ensures m == n
  {
    if w > 0 {
      var s, t := BigEndian(m / 256, w - 1), BigEndian(n / 256, w - 1);
      assert BigEndian(m, w)[..w - 1] == s && BigEndian(n, w)[..w - 1] == t;
      assert BigEndian(m, w)[w - 1] == BigEndian(n, w)[w - 1];
      BigEndianInjective(m / 256, n / 256, w - 1);
    }
  }

  /** Big-endian words sort as numbers. */
  lemma {:induction false} BigEndianOrder(m: nat, n: nat, w: nat)
    requires m < Power256(w) && n < Power256(w)
    ensures LexLess(BigEndian(m, w), BigEndian(n, w)) <==> m < n
  {
    if w > 0 {
      var s, t := BigEndian(m / 256, w - 1), BigEndian(n / 256, w - 1);
      LexLast(s, t, (m % 256) as byte, (n % 256) as byte);
      BigEndianOrder(m / 256, n / 256, w - 1);
      if s == t { BigEndianInjective(m / 256, n / 256, w - 1); }
    }
  }

  lemma {:induction false} LexPrefix(s: bytes, t: bytes, x: bytes, y: bytes)
    requires |s| == |t| && LexLess(s, t)
    ensures LexLess(s + x, t + y)
  {
    if s != [] {
      assert (s + x)[1..] == s[1..] + x && (t + y)[1..] == t[1..] + y;
      if s[0] == t[0] { LexPrefix(s[1..], t[1..], x, y); }
    }
  }

  lemma Power256Word()
    ensures Power256(8) == UINT64_LIMIT
  {
    assert Power256(2) == 65536;
    assert Power256(4) == 65536 * 65536;
    assert Power256(6) == 65536 * 65536 * 65536;
  }

  /** The key of the value table and of the event table. */
  function RevKey(r: Rev): bytes {
    BigEndian(Packed(r), 8)
  }

  /** Events and values are stored oldest first, under distinct keys. */
  lemma RevKeyOrder(p: Rev, q: Rev)
    requires Packable(p) && Packable(q)
    ensures LexLess(RevKey(p), RevKey(q)) <==> Older(p, q)
    ensures RevKey(p) == RevKey(q) ==> p == q
  {
    Power256Word();
    PackOrder(p, q);
    BigEndianOrder(Packed(p), Packed(q), 8);
    if RevKey(p) == RevKey(q) {
      BigEndianInjective(Packed(p), Packed(q), 8);
      PackRoundTrip(p);
      PackRoundTrip(q);
    }
  }

  /** The leading bytes of a key record, whatever follows them, sort newest first. */
  lemma RecordsNewestFirst(p: Rev, q: Rev, x: bytes, y: bytes)
    requires Packable(p) && Packable(q) && Older(p, q)
    ensures LexLess(BigEndian(Invert(Packed(q)), 8) + x, BigEndian(Invert(Packed(p)), 8) + y)
  {
    Power256Word();
    PackOrder(p, q);
    BigEndianOrder(Invert(Packed(q)), Invert(Packed(p)), 8);
    LexPrefix(BigEndian(Invert(Packed(q)), 8), BigEndian(Invert(Packed(p)), 8), x, y);
  }

  /** A seek to revision `since` lands exactly on the first event of that revision or later. */
  lemma SeekSplitsEvents(r: Rev, since: nat)
    requires Packable(r) && since < UPPER_LIMIT
    ensures LexLess(RevKey(r), BigEndian(since * 4096, 8)) <==> r.upper < since
  {
    hide Packed, BigEndian, LexLess, Power256;
    Power256Word();
    BigEndianOrder(Packed(r), since * 4096, 8);
    PackedInRange(r);
  }
}
