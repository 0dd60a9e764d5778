/** internal/patch: turning a common subsequence into a patch, and applying a patch. */
module Patch {
  import opened Base
  import opened LcsCommon
  import opened EditGraphs
  import Uvarint

  /** A replacement of a[start..end] by b[replStart..replEnd]. */
  datatype Diff = Diff(start: int, end: int, replStart: int, replEnd: int)

  /** Where copying from `a` resumes after the given replacements. */
  function LastEnd(diffs: seq<Diff>): int {
    if diffs == [] then 0 else diffs[|diffs| - 1].end
  }

  ghost predicate Ordered(a: bytes, b: bytes, diffs: seq<Diff>) {
    forall i | 0 <= i < |diffs| ::
      && 0 <= LastEnd(diffs[..i]) <= diffs[i].start <= diffs[i].end <= |a|
      && 0 <= diffs[i].replStart <= diffs[i].replEnd <= |b|
  }

  /** The text written once the given replacements are done and nothing after them is copied. */
  ghost function Emitted(a: bytes, b: bytes, diffs: seq<Diff>): bytes
    requires Ordered(a, b, diffs)
  {
    if diffs == [] then []
    else
      var n := |diffs| - 1;
      OrderedPrefix(a, b, diffs, n);
      Emitted(a, b, diffs[..n]) + a[LastEnd(diffs[..n])..diffs[n].start] + b[diffs[n].replStart..diffs[n].replEnd]
  }

  /** The replacements turn a into b. */
  ghost predicate Rewrites(a: bytes, b: bytes, diffs: seq<Diff>) {
    Ordered(a, b, diffs) && LastEnd(diffs) <= |a| && Emitted(a, b, diffs) + a[LastEnd(diffs)..] == b
  }

  lemma OrderedPrefix(a: bytes, b: bytes, diffs: seq<Diff>, n: nat)
    requires Ordered(a, b, diffs) && n <= |diffs|
    ensures Ordered(a, b, diffs[..n]) && 0 <= LastEnd(diffs[..n]) <= |a|
  {
    forall i | 0 <= i < n ensures diffs[..n][..i] == diffs[..i] {}
    if n > 0 {
      assert LastEnd(diffs[..n]) == diffs[n - 1].end;
    }
  }

  lemma EmittedSnoc(a: bytes, b: bytes, diffs: seq<Diff>, d: Diff)
    requires Ordered(a, b, diffs) && LastEnd(diffs) <= d.start <= d.end <= |a|
    requires 0 <= d.replStart <= d.replEnd <= |b|
    ensures Ordered(a, b, diffs + [d]) && 0 <= LastEnd(diffs)
    ensures Emitted(a, b, diffs + [d]) ==
      Emitted(a, b, diffs) + a[LastEnd(diffs)..d.start] + b[d.replStart..d.replEnd]
  {
    var r := diffs + [d];
    OrderedPrefix(a, b, diffs, |diffs|);
    assert diffs[..|diffs|] == diffs;
    forall i | 0 <= i < |r|
      ensures 0 <= LastEnd(r[..i]) <= r[i].start <= r[i].end <= |a| && 0 <= r[i].replStart <= r[i].replEnd <= |b|
    {
      assert r[..i] == diffs[..i];
    }
    assert r[..|diffs|] == diffs;
  }

  /** After the diagonals so far, b[..pb] is what was emitted plus what is still to be copied. */
  ghost predicate Caught(a: bytes, b: bytes, diffs: seq<Diff>, pa: int, pb: int) {
    && Ordered(a, b, diffs) && 0 <= LastEnd(diffs) <= pa <= |a| && 0 <= pb <= |b|
    && Emitted(a, b, diffs) + a[LastEnd(diffs)..pa] == b[..pb]
  }

  lemma CaughtGap(a: bytes, b: bytes, diffs: seq<Diff>, pa: int, pb: int, x: int, y: int)
    requires Caught(a, b, diffs, pa, pb) && pa <= x <= |a| && pb <= y <= |b|
    ensures Caught(a, b, diffs + [Diff(pa, x, pb, y)], x, y)
  {
    var d := Diff(pa, x, pb, y);
    hide Emitted, Ordered;
    EmittedSnoc(a, b, diffs, d);
    assert LastEnd(diffs + [d]) == x;
    hide LastEnd;
    assert a[x..x] == [] && Emitted(a, b, diffs + [d]) + [] == Emitted(a, b, diffs + [d]);
    assert b[..y] == b[..pb] + b[pb..y];
  }

  lemma CaughtCopy(a: bytes, b: bytes, diffs: seq<Diff>, x: int, y: int, n: int)
    requires Caught(a, b, diffs, x, y) && 0 <= n && x + n <= |a| && y + n <= |b|
    requires a[x..x + n] == b[y..y + n]
    ensures Caught(a, b, diffs, x + n, y + n)
  {
    var e := LastEnd(diffs);
    assert a[e..x + n] == a[e..x] + a[x..x + n];
    assert b[..y + n] == b[..y] + b[y..y + n];
    assert Emitted(a, b, diffs) + a[e..x + n] == (Emitted(a, b, diffs) + a[e..x]) + a[x..x + n];
  }

  lemma CaughtStart(a: bytes, b: bytes)
    ensures Caught(a, b, [], 0, 0)
  {
    assert a[0..0] == [] && b[..0] == [];
  }

  lemma CaughtAll(a: bytes, b: bytes, diffs: seq<Diff>)
    requires Caught(a, b, diffs, |a|, |b|)
    ensures Rewrites(a, b, diffs)
  {
    assert b[..|b|] == b && a[LastEnd(diffs)..|a|] == a[LastEnd(diffs)..];
  }

  lemma CaughtBounds(a: bytes, b: bytes, diffs: seq<Diff>, pa: int, pb: int)
    requires Caught(a, b, diffs, pa, pb)
    ensures 0 <= pa <= |a| && 0 <= pb <= |b|
  {}

  /** Converts a common subsequence to a list of replacements. */
  method ToDiffs(a: bytes, b: bytes, l: Lcs) returns (diffs: seq<Diff>)
    requires AllMatch(a, b, l) && Chain(l)
    ensures Rewrites(a, b, diffs)
    ensures 3 * |diffs| <= |a| + |b| + 2
  {
    diffs := [];
    var pa, pb := 0, 0;
    CaughtStart(a, b);
    hide Caught, Rewrites;
    for i := 0 to |l|
      invariant Caught(a, b, diffs, pa, pb)
      invariant i > 0 ==> pa == l[i - 1].x + l[i - 1].len && pb == l[i - 1].y + l[i - 1].len
      invariant i == 0 ==> pa == 0 && pb == 0
      invariant |diffs| <= i && 2 * i + |diffs| <= pa + pb
    {
      assert l[i] in l;
      assert i > 0 ==> Before(l[i - 1], l[i]);
      if pa < l[i].x || pb < l[i].y {
        CaughtGap(a, b, diffs, pa, pb, l[i].x, l[i].y);
        diffs := diffs + [Diff(pa, l[i].x, pb, l[i].y)];
      }
      assert IsMatch(a, b, l[i]);
      CaughtCopy(a, b, diffs, l[i].x, l[i].y, l[i].len);
      pa := l[i].x + l[i].len;
      pb := l[i].y + l[i].len;
    }
    CaughtBounds(a, b, diffs, pa, pb);
    if pa < |a| || pb < |b| {
      CaughtGap(a, b, diffs, pa, pb, |a|, |b|);
      diffs := diffs + [Diff(pa, |a|, pb, |b|)];
    }
    CaughtAll(a, b, diffs);
  }

  const MAX_DIFFS: int := 8

  /** The differences between two byte strings, with the depth limit the package fixes. */
  method DiffBytes(a: bytes, b: bytes) returns (diffs: seq<Diff>)
    ensures Rewrites(a, b, diffs)
    ensures 3 * |diffs| <= |a| + |b| + 2
  {
    var g := new EditGraph(a, b, MAX_DIFFS / 2, [], []);
    var l := g.TwoSided();
    diffs := ToDiffs(a, b, l);
  }

  // ---- writing ----

  function Hunk(b: bytes, d: Diff): bytes
    requires 0 <= d.start && 0 <= d.end && 0 <= d.replStart <= d.replEnd <= |b|
  {
    Uvarint.Encode(d.start) + Uvarint.Encode(d.end) + Uvarint.Encode(d.replEnd - d.replStart) +
      b[d.replStart..d.replEnd]
  }

  ghost predicate Writable(b: bytes, diffs: seq<Diff>) {
    forall d <- diffs :: 0 <= d.start && 0 <= d.end && 0 <= d.replStart <= d.replEnd <= |b|
  }

  ghost function HunksFrom(b: bytes, diffs: seq<Diff>, i: nat): bytes
    requires i <= |diffs| && Writable(b, diffs)
    decreases |diffs| - i
  {
    if i == |diffs| then [] else Hunk(b, diffs[i]) + HunksFrom(b, diffs, i + 1)
  }

  lemma OrderedIsWritable(a: bytes, b: bytes, diffs: seq<Diff>)
    requires Ordered(a, b, diffs)
    ensures Writable(b, diffs)
  {}

  /** A patch that recreates b from a. */
  method Generate(a: bytes, b: bytes) returns (patch: bytes)
    requires |a| < INT_LIMIT && |b| < INT_LIMIT
    ensures ApplyPatch(a, patch) == Applied(b) && |patch| >= 2
  {
    var diffs := DiffBytes(a, b);
    OrderedIsWritable(a, b, diffs);
    patch := Uvarint.Encode(|b|) + Uvarint.Encode(|diffs|);
    for i := 0 to |diffs|
      invariant |patch| >= 2
      invariant patch + HunksFrom(b, diffs, i) ==
        Uvarint.Encode(|b|) + Uvarint.Encode(|diffs|) + HunksFrom(b, diffs, 0)
    {
      assert diffs[i] in diffs;
      assert patch + HunksFrom(b, diffs, i) == patch + Hunk(b, diffs[i]) + HunksFrom(b, diffs, i + 1);
      patch := patch + Hunk(b, diffs[i]);
    }
    assert patch == Uvarint.Encode(|b|) + Uvarint.Encode(|diffs|) + HunksFrom(b, diffs, 0);
    GeneratedApplies(a, b, diffs, patch);
  }

  // ---- reading ----

  /** Apply returns, reports a corrupt patch, or runs off a slice. */
  datatype Outcome = Applied(b: bytes) | Corrupt | Panicked

  datatype IntRead = NoInt | AnInt(value: int, rest: bytes)

  /** readUvarint: an unsigned varint converted to a signed 64-bit int. */
  function ReadInt(r: bytes): (n: IntRead)
    ensures n.AnInt? ==> |n.rest| < |r|
  {
    var u := Uvarint.Decode(r);
    if u.None? then NoInt
    else
      var v := u.value.value;
      AnInt(if v < INT_LIMIT then v else v - UINT64_LIMIT, r[u.value.width..])
  }

  datatype HunkRead = BadHunk(o: Outcome) | AHunk(text: bytes, end: int, rest: bytes)

  /** One round of the loop: the text it appends, where copying resumes, and the unread bytes. */
  function ReadHunk(a: bytes, r: bytes, prev: int): (h: HunkRead)
    requires prev <= |a|
    ensures h.AHunk? ==> h.end <= |a|
    ensures h.BadHunk? ==> !h.o.Applied?
  {
    var start := ReadInt(r);
    if start.NoInt? || start.value > |a| then BadHunk(Corrupt) else
    var end := ReadInt(start.rest);
    if end.NoInt? || end.value > |a| then BadHunk(Corrupt) else
    var diff := ReadInt(end.rest);
    if diff.NoInt? then BadHunk(Corrupt)
    else if !(0 <= prev <= start.value) || diff.value < 0 then BadHunk(Panicked)
    else
      var n := Min(diff.value, |diff.rest|);
      AHunk(a[prev..start.value] + diff.rest[..n], end.value, diff.rest[n..])
  }

  /** The loop of Apply with `count` rounds to go, followed by the final copy. */
  function ApplyHunks(a: bytes, r: bytes, count: int, prev: int, b: bytes): (o: Outcome)
    requires prev <= |a|
    decreases count
  {
    if count <= 0 then
      if prev < 0 then Panicked else Applied(b + a[prev..])
    else
      var h := ReadHunk(a, r, prev);
      if h.BadHunk? then h.o else ApplyHunks(a, h.rest, count - 1, h.end, b + h.text)
  }

  function ApplyPatch(a: bytes, patch: bytes): (o: Outcome) {
    var size := ReadInt(patch);
    if size.NoInt? then Corrupt else
    var count := ReadInt(size.rest);
    if count.NoInt? then Corrupt else
    var o := ApplyHunks(a, count.rest, count.value, 0, []);
    if o.Applied? && size.value != |o.b| then Corrupt else o
  }

  /** Recreates b from a and a patch. */
  method Apply(a: bytes, patch: bytes) returns (o: Outcome)
    ensures o == ApplyPatch(a, patch)
  {
    hide ReadInt, ReadHunk;
    var size := ReadInt(patch);
    if size.NoInt? { return Corrupt; }
    var count := ReadInt(size.rest);
    if count.NoInt? { return Corrupt; }
    var r := count.rest;
    var b: bytes := [];
    var prev := 0;
    var i := 0;
    while i < count.value
      invariant 0 <= i && (i <= count.value || i == 0) && prev <= |a|
      invariant ApplyHunks(a, r, count.value - i, prev, b) == ApplyHunks(a, count.rest, count.value, 0, [])
    {
      var h := ReadHunk(a, r, prev);
      if h.BadHunk? { return h.o; }
      b := b + h.text;
      r := h.rest;
      prev := h.end;
      i := i + 1;
    }
    if prev < 0 { return Panicked; }
    b := b + a[prev..];
    if size.value != |b| { return Corrupt; }
    return Applied(b);
  }

  // ---- round trip ----

  lemma ReadBack(n: nat, rest: bytes)
    requires n < INT_LIMIT
    ensures ReadInt(Uvarint.Encode(n) + rest) == AnInt(n, rest)
  {
    Uvarint.RoundTrip(n, rest);
  }

  /** Reading one written hunk performs exactly its replacement. */
  lemma HunkReadsBack(a: bytes, b: bytes, d: Diff, rest: bytes, prev: int)
    requires |a| < INT_LIMIT && |b| < INT_LIMIT
    requires 0 <= prev <= d.start <= d.end <= |a| && 0 <= d.replStart <= d.replEnd <= |b|
    ensures ReadHunk(a, Hunk(b, d) + rest, prev) ==
      AHunk(a[prev..d.start] + b[d.replStart..d.replEnd], d.end, rest)
  {
    hide ReadInt, Uvarint.Encode;
    var repl := b[d.replStart..d.replEnd];
    var r3 := repl + rest;
    var r2 := Uvarint.Encode(|repl|) + r3;
    var r1 := Uvarint.Encode(d.end) + r2;
    ReadBack(|repl|, r3);
    ReadBack(d.end, r2);
    ReadBack(d.start, r1);
    assert Hunk(b, d) + rest == Uvarint.Encode(d.start) + r1;
    assert r3[..|repl|] == repl && r3[|repl|..] == rest;
  }

  lemma Assoc(x: bytes, y: bytes, z: bytes)
    ensures x + y + z == x + (y + z)
  {}

  lemma EmittedStep(a: bytes, b: bytes, diffs: seq<Diff>, i: nat)
    requires Ordered(a, b, diffs) && i < |diffs|
    ensures Ordered(a, b, diffs[..i]) && Ordered(a, b, diffs[..i + 1])
    ensures var d := diffs[i];
      && 0 <= LastEnd(diffs[..i]) <= d.start <= d.end <= |a| && 0 <= d.replStart <= d.replEnd <= |b|
      && LastEnd(diffs[..i + 1]) == d.end
      && Emitted(a, b, diffs[..i + 1]) ==
        Emitted(a, b, diffs[..i]) + (a[LastEnd(diffs[..i])..d.start] + b[d.replStart..d.replEnd])
  {
    OrderedPrefix(a, b, diffs, i);
    var d, e := diffs[i], LastEnd(diffs[..i]);
    assert 0 <= e <= d.start <= d.end <= |a| && 0 <= d.replStart <= d.replEnd <= |b|;
    hide Emitted, Ordered;
    EmittedSnoc(a, b, diffs[..i], d);
    assert diffs[..i + 1] == diffs[..i] + [d];
    Assoc(Emitted(a, b, diffs[..i]), a[e..d.start], b[d.replStart..d.replEnd]);
  }

  /** What the loop of Apply makes of all hunks from the i-th on. */
  lemma {:induction false} HunksApply(a: bytes, b: bytes, diffs: seq<Diff>, i: nat, out: bytes)
    requires |a| < INT_LIMIT && |b| < INT_LIMIT && i <= |diffs|
    requires Ordered(a, b, diffs) && Writable(b, diffs)
    requires Ordered(a, b, diffs[..i]) && out == Emitted(a, b, diffs[..i])
    requires LastEnd(diffs[..i]) <= |a| && 0 <= LastEnd(diffs) <= |a|
    ensures ApplyHunks(a, HunksFrom(b, diffs, i), |diffs| - i, LastEnd(diffs[..i]), out) ==
      Applied(Emitted(a, b, diffs) + a[LastEnd(diffs)..])
    decreases |diffs| - i
  {
    hide ReadHunk, Hunk, Emitted, Ordered, LastEnd;
    if i == |diffs| {
      assert diffs[..i] == diffs;
    } else {
      var d := diffs[i];
      EmittedStep(a, b, diffs, i);
      HunkReadsBack(a, b, d, HunksFrom(b, diffs, i + 1), LastEnd(diffs[..i]));
      HunksApply(a, b, diffs, i + 1, Emitted(a, b, diffs[..i + 1]));
    }
  }

  lemma WholeEmitted(a: bytes, b: bytes, diffs: seq<Diff>)
    requires Rewrites(a, b, diffs) && |a| < INT_LIMIT && |b| < INT_LIMIT && Writable(b, diffs)
    ensures ApplyHunks(a, HunksFrom(b, diffs, 0), |diffs|, 0, []) == Applied(b)
  {
    OrderedPrefix(a, b, diffs, |diffs|);
    assert diffs[..|diffs|] == diffs && diffs[..0] == [];
    HunksApply(a, b, diffs, 0, []);
  }

  lemma GeneratedApplies(a: bytes, b: bytes, diffs: seq<Diff>, patch: bytes)
    requires |a| < INT_LIMIT && |b| < INT_LIMIT && |diffs| < INT_LIMIT
    requires Rewrites(a, b, diffs) && Writable(b, diffs)
    requires patch == Uvarint.Encode(|b|) + Uvarint.Encode(|diffs|) + HunksFrom(b, diffs, 0)
    ensures ApplyPatch(a, patch) == Applied(b)
  {
    hide ReadInt, ApplyHunks, HunksFrom, Uvarint.Encode, Rewrites;
    var r := Uvarint.Encode(|diffs|) + HunksFrom(b, diffs, 0);
    assert patch == Uvarint.Encode(|b|) + r;
    ReadBack(|b|, r);
    ReadBack(|diffs|, HunksFrom(b, diffs, 0));
    WholeEmitted(a, b, diffs);
  }
}
