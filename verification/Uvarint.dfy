/**
 Base-128 varints as written by binary.AppendUvarint and read by
 binary.ReadUvarint and binary.Uvarint.
 */
module Uvarint {
  import opened Base

  datatype Read = Read(value: nat, width: nat)

  const MAX_WIDTH: nat := 10

  /** Number of values that still fit once `i` groups of seven bits were read. */
  function Room(i: nat): (r: nat)
    requires i < MAX_WIDTH
    ensures r >= 2 && (i < MAX_WIDTH - 1 ==> r >= 256)
    decreases MAX_WIDTH - i
  {
    if i == MAX_WIDTH - 1 then 2 else 128 * Room(i + 1)
  }

  lemma RoomOfWord()
    ensures Room(0) == UINT64_LIMIT
  {
    assert Room(8) == 256;
    assert Room(6) == 256 * 16384;
    assert Room(4) == 256 * 16384 * 16384;
    assert Room(2) == 256 * 16384 * 16384 * 16384;
  }

  function Encode(n: nat): (r: bytes)
    ensures |r| >= 1
  {
    if n < 128 then [n as byte] else [(n % 128 + 128) as byte] + Encode(n / 128)
  }

  /** The reader after `i` bytes: fails at end of input and on overflow of 64 bits. */
  function DecodeFrom(s: bytes, i: nat): (r: Option<Read>)
    requires i < MAX_WIDTH
    ensures r.Some? ==> 1 <= r.value.width <= |s| && r.value.value < Room(i)
    decreases MAX_WIDTH - i
  {
    if s == [] then None
    else if s[0] < 128 then
      if i == MAX_WIDTH - 1 && s[0] > 1 then None else Some(Read(s[0] as nat, 1))
    else if i == MAX_WIDTH - 1 then None
    else
      var rest := DecodeFrom(s[1..], i + 1);
      if rest.None? then None
      else Some(Read((s[0] - 128) as nat + 128 * rest.value.value, 1 + rest.value.width))
  }

  function Decode(s: bytes): (r: Option<Read>)
    ensures r.Some? ==> 1 <= r.value.width <= |s| && r.value.value < UINT64_LIMIT
  {
    RoomOfWord();
    DecodeFrom(s, 0)
  }

  lemma {:induction false} DecodeFromEncode(n: nat, rest: bytes, i: nat)
    requires i < MAX_WIDTH && n < Room(i)
    ensures DecodeFrom(Encode(n) + rest, i) == Some(Read(n, |Encode(n)|))
    decreases MAX_WIDTH - i
  {
    var s := Encode(n) + rest;
    if n >= 128 {
      assert s[1..] == Encode(n / 128) + rest;
      DecodeFromEncode(n / 128, rest, i + 1);
    }
  }

  /** Reading back what was appended yields the number and consumes exactly its bytes. */
  lemma RoundTrip(n: nat, rest: bytes)
    requires n < UINT64_LIMIT
    ensures Decode(Encode(n) + rest) == Some(Read(n, |Encode(n)|))
    ensures (Encode(n) + rest)[|Encode(n)|..] == rest
  {
    RoomOfWord();
    DecodeFromEncode(n, rest, 0);
  }

  /** No encoding is a proper prefix of another. */
  lemma PrefixFree(m: nat, n: nat, s: bytes, t: bytes)
    requires m < UINT64_LIMIT && n < UINT64_LIMIT
    requires Encode(m) + s == Encode(n) + t
    ensures m == n && s == t
  {
    RoundTrip(m, s);
    RoundTrip(n, t);
  }

  lemma WidthOne(n: nat)
    ensures |Encode(n)| == 1 <==> n < 128
  {}

  /** The number these bytes stand for: seven bits each, the lowest first. */
  function Value(s: bytes): nat {
    if s == [] then 0 else s[0] as nat % 128 + 128 * Value(s[1..])
  }

  /** The bytes are the seven-bit digits of the number, with no zero on top, each but the last marked. */
  lemma {:induction false} Digits(n: nat)
    ensures var s := Encode(n);
      && Value(s) == n && s[|s| - 1] < 128 && (forall i | 0 <= i < |s| - 1 :: s[i] >= 128)
      && (s[|s| - 1] == 0 ==> n == 0)
  {
    if n >= 128 {
      Digits(n / 128);
      assert Encode(n)[1..] == Encode(n / 128);
    }
  }
}
