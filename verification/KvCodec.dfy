/**
 kv.go: the stored form of a key-value pair, whole or as a patch against the
 next newer value of the same key, and the stored form of a key record.
 */
module KvCodec {
  import opened Base
  import opened KeyRev
  import Uvarint
  import Patch

  /** The checksum and the compressor are library code; only these laws of them are used. */
  datatype Host = Host(
    crc: (bytes, bytes) -> bytes,
    compress: bytes -> bytes,
    decompress: bytes -> Option<bytes>)

  ghost predicate Sound(h: Host) {
    && (forall k, v :: |h.crc(k, v)| == 4)
    && (forall x :: h.decompress(h.compress(x)) == Some(x) && h.compress(x) != [])
  }

  /** The two switches that decide how a value is stored. */
  datatype Config = Config(patchEnabled: bool, compressionEnabled: bool)

  datatype Kv = Kv(rev: Rev, version: nat, created: nat, lease: nat, key: bytes, val: bytes)

  datatype Error = ChecksumMissing | ChecksumInvalid | PatchInvalid | PatchCorrupt | BadField | SliceBounds

  const FLAG_PATCH: byte := 1
  const FLAG_COMPRESSED: byte := 2

  predicate IsPatch(flags: byte) { flags % 2 == 1 }

  predicate IsCompressed(flags: byte) { (flags / 2) % 2 == 1 }

  // ---- writing ----

  function Header(kv: Kv, flags: byte): bytes {
    Uvarint.Encode(kv.created) + (Uvarint.Encode(kv.version) + (Uvarint.Encode(kv.lease) + [flags]))
  }

  function Body(kv: Kv, flags: byte, stored: bytes): bytes {
    Uvarint.Encode(|kv.key|) + (kv.key + (Header(kv, flags) + stored))
  }

  function Sealed(h: Host, rev: Rev, body: bytes): bytes {
    body + h.crc(RevKey(rev), body)
  }

  /** Everything that fits the 64-bit fields of the encoding. */
  predicate Fits(kv: Kv) {
    && Packable(kv.rev) && !kv.rev.del && 1 <= |kv.key| < INT_LIMIT && |kv.val| < INT_LIMIT
    && kv.version < UINT64_LIMIT && kv.created < UINT64_LIMIT && kv.lease < UINT64_LIMIT
  }

  /** What the reader makes of the stored value bytes, given the next newer value. */
  function Unfold(h: Host, flags: byte, stored: bytes, next: Option<bytes>): Result<bytes, Error> {
    var plain := if IsCompressed(flags) then h.decompress(stored) else Some(stored);
    if plain.None? then Err(BadField)
    else if !IsPatch(flags) then Ok(plain.value)
    else if next.None? then Err(PatchInvalid)
    else
      match Patch.ApplyPatch(next.value, plain.value)
      case Applied(b) => Ok(b)
      case Corrupt => Err(PatchCorrupt)
      case Panicked => Err(SliceBounds)
  }

  /** `buf` is a stored form of kv, readable with the given newer value at hand. */
  ghost predicate Encodes(h: Host, kv: Kv, next: Option<bytes>, buf: bytes) {
    exists flags: byte, stored: bytes ::
      && buf == Sealed(h, kv.rev, Body(kv, flags, stored))
      && Unfold(h, flags, stored, next) == Ok(kv.val)
      && (stored == [] <==> kv.val == [])
  }

  lemma HunkFromNothing(r: bytes, prev: int)
    requires prev <= 0
    ensures var h := Patch.ReadHunk([], r, prev); h.AHunk? ==> |h.text| + |h.rest| <= |r|
  {
    hide Patch.ReadInt;
  }

  /** With nothing to copy from, a patch is longer than the text it makes. */
  lemma {:induction false} HunksFromNothing(r: bytes, count: int, prev: int, b: bytes)
    requires prev <= 0
    ensures var o := Patch.ApplyHunks([], r, count, prev, b); o.Applied? ==> |o.b| <= |b| + |r|
    decreases count
  {
    hide Patch.ReadHunk;
    if count > 0 {
      var h := Patch.ReadHunk([], r, prev);
      HunkFromNothing(r, prev);
      if h.AHunk? {
        HunksFromNothing(h.rest, count - 1, h.end, b + h.text);
      }
    }
  }

  lemma PatchFromNothing(patch: bytes)
    ensures var o := Patch.ApplyPatch([], patch); o.Applied? ==> |o.b| < |patch|
  {
    var size := Patch.ReadInt(patch);
    if size.AnInt? {
      var count := Patch.ReadInt(size.rest);
      if count.AnInt? { HunksFromNothing(count.rest, count.value, 0, []); }
    }
  }

  /** The compression step: taken only for longer values, and only if it helps. */
  function Squeezed(h: Host, cfg: Config, flags: byte, stored: bytes): (r: (byte, bytes))
    requires flags < 2
  {
    if cfg.compressionEnabled && |stored| > 16 && |h.compress(stored)| < |stored|
    then (flags + FLAG_COMPRESSED, h.compress(stored)) else (flags, stored)
  }

  /** The bytes of a live pair that is stored whole. */
  function WholeBytes(h: Host, cfg: Config, kv: Kv): bytes {
    var (flags, stored) := Squeezed(h, cfg, 0, kv.val);
    Sealed(h, kv.rev, Body(kv, flags, stored))
  }

  /** `buf` is kv stored as a patch that was made against the text `next`. */
  ghost predicate EncodesPatch(h: Host, cfg: Config, kv: Kv, next: bytes, buf: bytes) {
    exists p: bytes ::
      && Patch.ApplyPatch(next, p) == Patch.Applied(kv.val) && 2 <= |p| < |kv.val|
      && buf == PatchBytes(h, cfg, kv, p)
  }

  function PatchBytes(h: Host, cfg: Config, kv: Kv, p: bytes): bytes {
    var (flags, stored) := Squeezed(h, cfg, FLAG_PATCH, p);
    Sealed(h, kv.rev, Body(kv, flags, stored))
  }

  /** Compression is undone before anything else is read. */
  lemma SqueezedUnfolds(h: Host, cfg: Config, flags: byte, stored: bytes, next: Option<bytes>)
    requires Sound(h) && flags < 2
    ensures var (f, s) := Squeezed(h, cfg, flags, stored);
      Unfold(h, f, s, next) == Unfold(h, flags, stored, next) && (s == [] <==> stored == [])
  {
    hide Patch.ApplyPatch;
    assert IsPatch(flags + FLAG_COMPRESSED) == IsPatch(flags) && IsCompressed(flags + FLAG_COMPRESSED);
    assert !IsCompressed(flags);
  }

  lemma EncodesBy(h: Host, kv: Kv, next: Option<bytes>, buf: bytes, flags: byte, stored: bytes)
    requires buf == Sealed(h, kv.rev, Body(kv, flags, stored))
    requires Unfold(h, flags, stored, next) == Ok(kv.val) && (stored == [] <==> kv.val == [])
    ensures Encodes(h, kv, next, buf)
  {
    hide Body, Unfold, Sealed;
  }

  lemma WholeEncodes(h: Host, cfg: Config, kv: Kv, next: Option<bytes>)
    requires Sound(h)
    ensures Encodes(h, kv, next, WholeBytes(h, cfg, kv))
  {
    hide Body, Squeezed, Sealed, Encodes, Sound;
    assert Unfold(h, 0, kv.val, next) == Ok(kv.val);
    SqueezedUnfolds(h, cfg, 0, kv.val, next);
    var (f, s) := Squeezed(h, cfg, 0, kv.val);
    EncodesBy(h, kv, next, WholeBytes(h, cfg, kv), f, s);
  }

  lemma PatchEncodes(h: Host, cfg: Config, kv: Kv, next: bytes, buf: bytes)
    requires Sound(h) && EncodesPatch(h, cfg, kv, next, buf)
    ensures Encodes(h, kv, Some(next), buf)
  {
    hide Body, Patch.ApplyPatch, Squeezed, Sealed, Encodes, Sound;
    var p :| Patch.ApplyPatch(next, p) == Patch.Applied(kv.val) && 2 <= |p| < |kv.val|
      && buf == PatchBytes(h, cfg, kv, p);
    assert Unfold(h, FLAG_PATCH, p, Some(next)) == Ok(kv.val);
    SqueezedUnfolds(h, cfg, FLAG_PATCH, p, Some(next));
    var (f, s) := Squeezed(h, cfg, FLAG_PATCH, p);
    EncodesBy(h, kv, Some(next), buf, f, s);
  }

  /** kv.Bytes for a live pair: patched if that is shorter, then compressed if that is shorter. */
  method Bytes(h: Host, cfg: Config, kv: Kv, next: Option<bytes>) returns (buf: bytes)
    requires Fits(kv) && (next.Some? ==> |next.value| < INT_LIMIT)
    ensures buf == WholeBytes(h, cfg, kv) || (next.Some? && EncodesPatch(h, cfg, kv, next.value, buf))
    ensures next.None? || next.value == [] || !cfg.patchEnabled ==> buf == WholeBytes(h, cfg, kv)
  {
    hide Body, Patch.ApplyPatch, Sealed, Squeezed;
    if next.Some? && cfg.patchEnabled {
      var p := Patch.Generate(next.value, kv.val);
      if |p| < |kv.val| {
        assert next.value != [] by { if next.value == [] { PatchFromNothing(p); } }
        return PatchBytes(h, cfg, kv, p);
      }
    }
    return WholeBytes(h, cfg, kv);
  }

  // ---- a patch against the wrong text ----

  /** On a base of another length the same hunks give a text of another length, or fail. */
  lemma {:induction false} HunksOnOtherBase(a: bytes, c: bytes, r: bytes, count: int, prev: int, b: bytes, d: bytes)
    requires prev <= |a| && prev <= |c|
    requires Patch.ApplyHunks(a, r, count, prev, b).Applied?
    ensures var o := Patch.ApplyHunks(c, r, count, prev, d);
      o == Patch.Corrupt ||
      (o.Applied? && |o.b| - |d| - |c| == |Patch.ApplyHunks(a, r, count, prev, b).b| - |b| - |a|)
    decreases count
  {
    hide Patch.ReadInt;
    if count > 0 {
      var g, h := Patch.ReadHunk(a, r, prev), Patch.ReadHunk(c, r, prev);
      if h.AHunk? {
        hide Patch.ReadHunk;
        HunksOnOtherBase(a, c, g.rest, count - 1, g.end, b + g.text, d + h.text);
      }
    }
  }

  /** A patch never applies to a text of another length than the one it was made for. */
  lemma PatchOnOtherBase(a: bytes, c: bytes, patch: bytes)
    requires Patch.ApplyPatch(a, patch).Applied? && |a| != |c|
    ensures Patch.ApplyPatch(c, patch) == Patch.Corrupt
  {
    hide Patch.ReadInt, Patch.ApplyHunks;
    var size := Patch.ReadInt(patch);
    var count := Patch.ReadInt(size.rest);
    HunksOnOtherBase(a, c, count.rest, count.value, 0, [], []);
  }

  // ---- reading ----

  datatype Fields = NoFields | Fields(created: nat, version: nat, lease: nat, flags: byte, rest: bytes)

  datatype Field = NoField | Field(value: nat, rest: bytes)

  function ReadField(r: bytes): Field {
    var u := Uvarint.Decode(r);
    if u.None? then NoField else Field(u.value.value, r[u.value.width..])
  }

  function ReadFields(r: bytes): Fields {
    var created := ReadField(r);
    if created.NoField? then NoFields else
    var version := ReadField(created.rest);
    if version.NoField? then NoFields else
    var lease := ReadField(version.rest);
    if lease.NoField? || lease.rest == [] then NoFields
    else Fields(created.value, version.value, lease.value, lease.rest[0], lease.rest[1..])
  }

  const MIN_LENGTH: nat := 11

  /** kv.FromBytes; `noval` leaves the value empty, as range reads of keys only do. */
  function FromBytes(h: Host, rev: Rev, buf: bytes, next: Option<bytes>, noval: bool): (r: Result<Kv, Error>)
    ensures r.Ok? ==> r.value.rev == rev
  {
    if |buf| < MIN_LENGTH then Err(ChecksumMissing) else
    var body := buf[..|buf| - 4];
    if buf[|buf| - 4..] != h.crc(RevKey(rev), body) then Err(ChecksumInvalid)
    else if rev.del then Ok(Kv(rev, 0, 0, 0, [], []))
    else
      var keylen := ReadField(body);
      if keylen.NoField? || keylen.value > |keylen.rest| then Err(SliceBounds)
      else
        var key := keylen.rest[..keylen.value];
        var f := ReadFields(keylen.rest[keylen.value..]);
        if f.NoFields? then Err(BadField)
        else if noval then Ok(Kv(rev, f.version, f.created, f.lease, key, []))
        else
          var val := Unfold(h, f.flags, f.rest, next);
          if val.Err? then Err(val.error)
          else Ok(Kv(rev, f.version, f.created, f.lease, key, val.value))
  }

  // ---- round trip ----

  lemma FieldReadsBack(n: nat, rest: bytes)
    requires n < UINT64_LIMIT
    ensures ReadField(Uvarint.Encode(n) + rest) == Field(n, rest)
  {
    Uvarint.RoundTrip(n, rest);
  }

  lemma HeaderReadsBack(kv: Kv, flags: byte, rest: bytes)
    requires Fits(kv)
    ensures ReadFields(Header(kv, flags) + rest) == Fields(kv.created, kv.version, kv.lease, flags, rest)
  {
    hide ReadField, Uvarint.Encode;
    var r3 := [flags] + rest;
    var r2 := Uvarint.Encode(kv.lease) + r3;
    var r1 := Uvarint.Encode(kv.version) + r2;
    assert Header(kv, flags) + rest == Uvarint.Encode(kv.created) + r1;
    FieldReadsBack(kv.created, r1);
    FieldReadsBack(kv.version, r2);
    FieldReadsBack(kv.lease, r3);
    assert r3[1..] == rest;
  }

  /** The one shape whose encoding is under the reader's minimum length. */
  predicate Short(kv: Kv) {
    |kv.key| == 1 && kv.val == [] && kv.created < 128 && kv.version < 128 && kv.lease < 128
  }

  /** The order of the fields, on numbers that take one byte each. */
  lemma Layout(kv: Kv, flags: byte, stored: bytes)
    requires |kv.key| < 128 && kv.created < 128 && kv.version < 128 && kv.lease < 128
    ensures Body(kv, flags, stored) ==
      [|kv.key| as byte] + kv.key + [kv.created as byte, kv.version as byte, kv.lease as byte, flags] + stored
  {}

  lemma EncodedLength(h: Host, kv: Kv, flags: byte, stored: bytes)
    requires Sound(h) && Fits(kv) && (stored == [] <==> kv.val == [])
    ensures |Sealed(h, kv.rev, Body(kv, flags, stored))| < MIN_LENGTH <==> Short(kv)
  {
    Uvarint.WidthOne(kv.created);
    Uvarint.WidthOne(kv.version);
    Uvarint.WidthOne(kv.lease);
    Uvarint.WidthOne(|kv.key|);
  }

  lemma BodyReadsBack(h: Host, kv: Kv, flags: byte, stored: bytes, next: Option<bytes>, noval: bool)
    requires Sound(h) && Fits(kv)
    requires |Sealed(h, kv.rev, Body(kv, flags, stored))| >= MIN_LENGTH
    ensures FromBytes(h, kv.rev, Sealed(h, kv.rev, Body(kv, flags, stored)), next, noval) ==
      if noval then Ok(kv.(val := []))
      else
        match Unfold(h, flags, stored, next)
        case Ok(v) => Ok(kv.(val := v))
        case Err(e) => Err(e)
  {
    hide ReadField, ReadFields, Unfold, Header, Uvarint.Encode, RevKey;
    var body := Body(kv, flags, stored);
    var buf := Sealed(h, kv.rev, body);
    var tail := h.crc(RevKey(kv.rev), body);
    assert |tail| == 4;
    assert buf[..|buf| - 4] == body && buf[|buf| - 4..] == tail;
    var r2 := Header(kv, flags) + stored;
    var r1 := kv.key + r2;
    FieldReadsBack(|kv.key|, r1);
    HeaderReadsBack(kv, flags, stored);
    assert r1[..|kv.key|] == kv.key && r1[|kv.key|..] == r2;
  }

  /**
   Reading back a stored pair gives exactly that pair, unless it is so small that
   the reader takes its checksum for missing: then, and only then, it fails.
   */
  lemma ReadsBack(h: Host, kv: Kv, next: Option<bytes>, buf: bytes, noval: bool)
    requires Sound(h) && Fits(kv) && Encodes(h, kv, next, buf)
    ensures FromBytes(h, kv.rev, buf, next, noval) ==
      if Short(kv) then Err(ChecksumMissing) else Ok(if noval then kv.(val := []) else kv)
  {
    hide FromBytes, Body, Unfold, Sound, Sealed;
    var flags: byte, stored: bytes :| buf == Sealed(h, kv.rev, Body(kv, flags, stored))
      && Unfold(h, flags, stored, next) == Ok(kv.val) && (stored == [] <==> kv.val == []);
    EncodedLength(h, kv, flags, stored);
    if Short(kv) {
      TooShort(h, kv.rev, buf, next, noval);
    } else {
      BodyReadsBack(h, kv, flags, stored, next, noval);
    }
  }

  /** A stored patch is read as whatever it makes of the text at hand, be it the one it was made against or not. */
  lemma PatchReadsAs(h: Host, cfg: Config, kv: Kv, p: bytes, text: bytes)
    requires Sound(h) && Fits(kv) && p != [] && kv.val != []
    ensures FromBytes(h, kv.rev, PatchBytes(h, cfg, kv, p), Some(text), false) ==
      match Patch.ApplyPatch(text, p)
      case Applied(b) => Ok(kv.(val := b))
      case Corrupt => Err(PatchCorrupt)
      case Panicked => Err(SliceBounds)
  {
    hide Body, Patch.ApplyPatch, FromBytes;
    var (flags, stored) := Squeezed(h, cfg, FLAG_PATCH, p);
    SqueezedUnfolds(h, cfg, FLAG_PATCH, p, Some(text));
    hide Squeezed, Sealed;
    EncodedLength(h, kv, flags, stored);
    BodyReadsBack(h, kv, flags, stored, Some(text), false);
  }

  /** So the pair reads back exactly if the patch makes its value of that text. */
  lemma PatchReadsBackIff(h: Host, cfg: Config, kv: Kv, p: bytes, text: bytes)
    requires Sound(h) && Fits(kv) && p != [] && kv.val != []
    ensures FromBytes(h, kv.rev, PatchBytes(h, cfg, kv, p), Some(text), false) == Ok(kv) <==>
      Patch.ApplyPatch(text, p) == Patch.Applied(kv.val)
  {
    hide Patch.ApplyPatch, FromBytes, PatchBytes;
    PatchReadsAs(h, cfg, kv, p, text);
  }

  lemma PatchReadOnOtherBase(h: Host, cfg: Config, kv: Kv, next: bytes, other: bytes, buf: bytes)
    requires Sound(h) && Fits(kv) && EncodesPatch(h, cfg, kv, next, buf) && |other| != |next|
    ensures FromBytes(h, kv.rev, buf, Some(other), false) == Err(PatchCorrupt)
  {
    hide Patch.ApplyPatch, FromBytes, PatchBytes;
    var p :| Patch.ApplyPatch(next, p) == Patch.Applied(kv.val) && 2 <= |p| < |kv.val|
      && buf == PatchBytes(h, cfg, kv, p);
    PatchOnOtherBase(next, other, p);
    PatchReadsAs(h, cfg, kv, p, other);
  }

  /** A patch that drops the first of twelve bytes and puts another at the end. */
  const SHIFT: bytes := [12, 2, 0, 1, 0, 12, 12, 1, 99]

  lemma ShiftWritten()
    ensures Patch.Hunk([99], Patch.Diff(0, 1, 0, 0)) == [0, 1, 0]
    ensures Patch.Hunk([99], Patch.Diff(12, 12, 0, 1)) == [12, 12, 1, 99]
    ensures Uvarint.Encode(12) == [12] && Uvarint.Encode(2) == [2]
  {
    assert Uvarint.Encode(0) == [0] && Uvarint.Encode(1) == [1] && Uvarint.Encode(12) == [12];
    hide Uvarint.Encode;
    assert [99][0..0] == [] && [99][0..1] == [99];
  }

  lemma ShiftHunks(text: bytes)
    requires |text| == 12
    ensures Patch.ReadHunk(text, [0, 1, 0] + [12, 12, 1, 99], 0) == Patch.AHunk([], 1, [12, 12, 1, 99])
    ensures Patch.ReadHunk(text, [12, 12, 1, 99], 1) == Patch.AHunk(text[1..] + [99], 12, [])
  {
    ShiftWritten();
    hide Patch.Hunk, Patch.ReadHunk;
    Patch.HunkReadsBack(text, [99], Patch.Diff(0, 1, 0, 0), [12, 12, 1, 99], 0);
    Patch.HunkReadsBack(text, [99], Patch.Diff(12, 12, 0, 1), [], 1);
    assert [12, 12, 1, 99] + [] == [12, 12, 1, 99];
    assert text[0..0] + [99][0..0] == [] && text[1..12] + [99][0..1] == text[1..] + [99];
  }

  /** The two numbers in front of the hunks: how long the result is, and how many hunks there are. */
  lemma PatchHeader(text: bytes, size: nat, count: nat, rest: bytes)
    requires size < INT_LIMIT && count < INT_LIMIT
    ensures var o := Patch.ApplyHunks(text, rest, count, 0, []);
      Patch.ApplyPatch(text, Uvarint.Encode(size) + (Uvarint.Encode(count) + rest)) ==
        if o.Applied? && size != |o.b| then Patch.Corrupt else o
  {
    hide Patch.ReadInt, Patch.ApplyHunks, Uvarint.Encode;
    Patch.ReadBack(size, Uvarint.Encode(count) + rest);
    Patch.ReadBack(count, rest);
  }

  lemma ShiftApplies(text: bytes)
    requires |text| == 12
    ensures Patch.ApplyPatch(text, SHIFT) == Patch.Applied(text[1..] + [99])
  {
    var rest := [0, 1, 0] + [12, 12, 1, 99];
    ShiftWritten();
    assert SHIFT == [12] + ([2] + rest);
    hide Patch.ApplyPatch, Patch.ApplyHunks, Patch.ReadHunk, Patch.Hunk, Uvarint.Encode;
    ShiftHunks(text);
    ShiftLoop(text, rest);
    PatchHeader(text, 12, 2, rest);
  }

  lemma ShiftLoop(text: bytes, rest: bytes)
    requires |text| == 12 && Patch.ReadHunk(text, rest, 0) == Patch.AHunk([], 1, [12, 12, 1, 99])
    requires Patch.ReadHunk(text, [12, 12, 1, 99], 1) == Patch.AHunk(text[1..] + [99], 12, [])
    ensures Patch.ApplyHunks(text, rest, 2, 0, []) == Patch.Applied(text[1..] + [99])
  {
    hide Patch.ReadHunk;
    var out := text[1..] + [99];
    assert [] + out == out && out + text[12..] == out;
    assert Patch.ApplyHunks(text, [], 0, 12, out) == Patch.Applied(out);
    assert Patch.ApplyHunks(text, [12, 12, 1, 99], 1, 1, []) == Patch.Applied(out);
  }

  /**
   A patch against a text of the same length as the kept one may be read without an error as
   another value: this value was patched against the text it would be with its bytes one place on.
   */
  lemma WrongTextRead(h: Host, cfg: Config, kv: Kv, x: byte)
    requires Sound(h) && Fits(kv) && |kv.val| == 12 && kv.val[11] == 99
    ensures var brought, buf := [x] + kv.val[..11], PatchBytes(h, cfg, kv, SHIFT);
      && |brought| == |kv.val| && EncodesPatch(h, cfg, kv, brought, buf)
      && FromBytes(h, kv.rev, buf, Some(kv.val), false) == Ok(kv.(val := kv.val[1..] + [99]))
      && (kv.val[0] != kv.val[1] ==> FromBytes(h, kv.rev, buf, Some(kv.val), false) != Ok(kv))
  {
    hide Patch.ApplyPatch, FromBytes, PatchBytes;
    var brought := [x] + kv.val[..11];
    ShiftApplies(brought);
    assert brought[1..] + [99] == kv.val;
    ShiftApplies(kv.val);
    PatchReadsAs(h, cfg, kv, SHIFT, kv.val);
    assert (kv.val[1..] + [99])[0] == kv.val[1];
  }

  lemma TooShort(h: Host, rev: Rev, buf: bytes, next: Option<bytes>, noval: bool)
    requires |buf| < MIN_LENGTH
    ensures FromBytes(h, rev, buf, next, noval) == Err(ChecksumMissing)
  {}

  // ---- key records ----

  datatype KeyRecord = KeyRecord(rev: Rev, lease: nat)

  function RecordBytes(h: Host, key: bytes, r: KeyRecord): bytes {
    var body := BigEndian(Invert(Packed(r.rev)), 8) + if r.rev.del then [] else Uvarint.Encode(r.lease);
    body + h.crc(key, body)
  }

  /** A word read back from big-endian bytes. */
  function FromBigEndian(s: bytes): (n: nat)
    ensures n < Power256(|s|)
  {
    if s == [] then 0 else FromBigEndian(s[..|s| - 1]) * 256 + s[|s| - 1] as nat
  }

  function RecordFromBytes(h: Host, key: bytes, buf: bytes): (r: Result<KeyRecord, Error>) {
    if |buf| < MIN_LENGTH then Err(ChecksumMissing) else
    var body := buf[..|buf| - 4];
    if buf[|buf| - 4..] != h.crc(key, body) then Err(ChecksumInvalid)
    else
      var word := FromBigEndian(buf[..8]);
      Power256Word();
      var kr := Invert(word);
      var rev := Rev(Upper(kr), Lower(kr), IsDel(kr));
      var lease := ReadField(buf[8..]);
      Ok(KeyRecord(rev, if rev.del || lease.NoField? then 0 else lease.value))
  }

  lemma {:induction false} BigEndianReadsBack(n: nat, w: nat)
    requires n < Power256(w)
    ensures FromBigEndian(BigEndian(n, w)) == n
  {
    if w > 0 {
      var s, q := BigEndian(n, w), n / 256;
      assert n == 256 * q + n % 256 && q < Power256(w - 1);
      assert s[..w - 1] == BigEndian(q, w - 1) && s[w - 1] as nat == n % 256;
      hide BigEndian, Power256;
      BigEndianReadsBack(q, w - 1);
    }
  }

  /** A key record survives its encoding; a tombstone carries no lease. */
  lemma RecordReadsBack(h: Host, key: bytes, r: KeyRecord)
    requires Sound(h) && Packable(r.rev) && r.lease < UINT64_LIMIT && (r.rev.del ==> r.lease == 0)
    ensures RecordFromBytes(h, key, RecordBytes(h, key, r)) == Ok(r)
  {
    var word := BigEndian(Invert(Packed(r.rev)), 8);
    var body := word + if r.rev.del then [] else Uvarint.Encode(r.lease);
    var tail := h.crc(key, body);
    var buf := RecordBytes(h, key, r);
    assert buf == body + tail && |tail| == 4;
    assert buf[..|buf| - 4] == body && buf[|buf| - 4..] == tail && buf[..8] == word;
    Power256Word();
    BigEndianReadsBack(Invert(Packed(r.rev)), 8);
    PackRoundTrip(r.rev);
    if !r.rev.del {
      assert buf[8..] == Uvarint.Encode(r.lease) + tail;
      FieldReadsBack(r.lease, tail);
    }
  }

  /** The records of one key, as bytes, are in order of falling revision. */
  lemma RecordOrder(h: Host, key: bytes, p: KeyRecord, q: KeyRecord)
    requires Packable(p.rev) && Packable(q.rev) && Older(p.rev, q.rev)
    ensures LexLess(RecordBytes(h, key, q), RecordBytes(h, key, p))
  {
    var wp, wq := BigEndian(Invert(Packed(p.rev)), 8), BigEndian(Invert(Packed(q.rev)), 8);
    var xp := RecordBytes(h, key, p)[8..];
    var xq := RecordBytes(h, key, q)[8..];
    assert RecordBytes(h, key, p) == wp + xp && RecordBytes(h, key, q) == wq + xq;
    RecordsNewestFirst(p.rev, q.rev, xq, xp);
  }
}
