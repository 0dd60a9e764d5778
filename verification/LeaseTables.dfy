/** db_lease.go, db_lease_exp.go and db_lease_key.go: the codec of a lease, and the two index tables. */
module LeaseTables {
  import opened Base
  import opened KeyRev
  import opened KvCodec
  import opened History
  import Uvarint

  // ---- the lease record ----

  datatype Lease = Lease(expires: nat, renewed: nat)

  function LeaseBytes(h: Host, id: nat, l: Lease): bytes {
    var body := Uvarint.Encode(l.expires) + Uvarint.Encode(l.renewed);
    body + h.crc(Uvarint.Encode(id), body)
  }

  function LeaseFromBytes(h: Host, key: bytes, buf: bytes): (r: Result<(nat, Lease), Error>) {
    if |buf| < 6 then Err(ChecksumMissing)
    else
      var body := buf[..|buf| - 4];
      if buf[|buf| - 4..] != h.crc(key, body) then Err(ChecksumInvalid)
      else
        var id := Uvarint.Decode(key);
        var e := Uvarint.Decode(body);
        if id.None? || e.None? then Err(BadField)
        else
          var n := Uvarint.Decode(body[e.value.width..]);
          if n.None? then Err(BadField) else Ok((id.value.value, Lease(e.value.value, n.value.value)))
  }

  /** A lease reads back under its own key. */
  lemma LeaseReadsBack(h: Host, id: nat, l: Lease)
    requires Sound(h) && id < UINT64_LIMIT && l.expires < UINT64_LIMIT && l.renewed < UINT64_LIMIT
    ensures LeaseFromBytes(h, Uvarint.Encode(id), LeaseBytes(h, id, l)) == Ok((id, l))
  {
    var e, n := Uvarint.Encode(l.expires), Uvarint.Encode(l.renewed);
    var buf := LeaseBytes(h, id, l);
    assert |h.crc(Uvarint.Encode(id), e + n)| == 4;
    assert buf[..|buf| - 4] == e + n;
    Uvarint.RoundTrip(id, []);
    assert Uvarint.Encode(id) + [] == Uvarint.Encode(id);
    Uvarint.RoundTrip(l.expires, n);
    Uvarint.RoundTrip(l.renewed, []);
    assert n + [] == n;
  }

  // ---- sorted tables ----

  /** The table without one of its rows. */
  function Remove(rows: seq<bytes>, row: bytes): seq<bytes> {
    var i := Seek(rows, row);
    if i < |rows| && rows[i] == row then rows[..i] + rows[i + 1..] else rows
  }

  lemma RemoveAtSorted(rows: seq<bytes>, i: nat, j: nat)
    requires SortedKeys(rows) && i <= j <= |rows|
    ensures SortedKeys(rows[..i] + rows[j..])
    ensures forall x :: x in rows[..i] + rows[j..] ==> x in rows
    ensures forall x :: x in rows && x !in rows[i..j] ==> x in rows[..i] + rows[j..]
    ensures forall x :: x in rows[i..j] ==> x !in rows[..i] + rows[j..]
  {
    var r := rows[..i] + rows[j..];
    assert rows == rows[..i] + rows[i..j] + rows[j..];
    forall m, n | 0 <= m < n < |r| ensures LexLess(r[m], r[n]) {
      assert r[m] == if m < i then rows[m] else rows[m + (j - i)];
      assert r[n] == if n < i then rows[n] else rows[n + (j - i)];
    }
    forall x | x in rows[i..j] ensures x !in r {
      var m :| i <= m < j && rows[m] == x;
      if x in r {
        var n :| 0 <= n < |r| && r[n] == x;
        assert r[n] == rows[if n < i then n else n + (j - i)];
        LexTotal(x, x);
      }
    }
  }

  lemma RemoveMembers(rows: seq<bytes>, row: bytes)
    requires SortedKeys(rows)
    ensures SortedKeys(Remove(rows, row))
    ensures forall x :: x in Remove(rows, row) <==> x in rows && x != row
  {
    hide LexLess;
    var i := Seek(rows, row);
    SeekFinds(rows, row);
    if i < |rows| && rows[i] == row {
      RemoveAtSorted(rows, i, i + 1);
      assert rows[i..i + 1] == [row];
    }
  }

  // ---- lease_key ----

  function Row(id: nat, key: bytes): bytes {
    Uvarint.Encode(id) + key
  }

  ghost predicate IsRow(row: bytes) {
    exists id: nat, key: bytes :: id < UINT64_LIMIT && row == Row(id, key)
  }

  /** The key of a row that belongs to lease `id`. */
  function KeyFor(row: bytes, id: nat): Option<bytes> {
    var d := Uvarint.Decode(row);
    if d.Some? && d.value.value == id then Some(row[d.value.width..]) else None
  }

  lemma KeyForRow(id: nat, key: bytes, other: nat)
    requires id < UINT64_LIMIT
    ensures KeyFor(Row(id, key), other) == if id == other then Some(key) else None
  {
    Uvarint.RoundTrip(id, key);
  }

  lemma RowsApart(i: nat, k: bytes, j: nat, l: bytes)
    requires i < UINT64_LIMIT && j < UINT64_LIMIT
    ensures Row(i, k) == Row(j, l) <==> i == j && k == l
  {
    if Row(i, k) == Row(j, l) { Uvarint.PrefixFree(i, j, k, l); }
  }

  /** The keys attached to a lease, in table order. */
  function RowKeys(rows: seq<bytes>, id: nat): seq<bytes> {
    if rows == [] then []
    else
      var k := KeyFor(rows[0], id);
      (if k.Some? then [k.value] else []) + RowKeys(rows[1..], id)
  }

  function RowsWithout(rows: seq<bytes>, id: nat): seq<bytes> {
    if rows == [] then []
    else (if KeyFor(rows[0], id).Some? then [] else [rows[0]]) + RowsWithout(rows[1..], id)
  }

  lemma {:induction false} RowKeysConcat(p: seq<bytes>, q: seq<bytes>, id: nat)
    ensures RowKeys(p + q, id) == RowKeys(p, id) + RowKeys(q, id)
    ensures RowsWithout(p + q, id) == RowsWithout(p, id) + RowsWithout(q, id)
  {
    hide KeyFor;
    if p == [] {
      assert p + q == q;
    } else {
      assert (p + q)[1..] == p[1..] + q;
      RowKeysConcat(p[1..], q, id);
    }
  }

  lemma {:induction false} RowKeysNone(rows: seq<bytes>, id: nat)
    requires forall row <- rows :: KeyFor(row, id).None?
    ensures RowKeys(rows, id) == [] && RowsWithout(rows, id) == rows
  {
    hide KeyFor;
    if rows != [] {
      assert rows[0] in rows;
      RowKeysNone(rows[1..], id);
      assert rows == [rows[0]] + rows[1..];
    }
  }

  /** A key is attached to a lease exactly if the table has the row that says so. */
  lemma {:induction false} RowKeysMembers(rows: seq<bytes>, id: nat, key: bytes)
    requires id < UINT64_LIMIT && forall row <- rows :: IsRow(row)
    ensures key in RowKeys(rows, id) <==> Row(id, key) in rows
  {
    hide KeyFor, Row;
    if rows != [] {
      assert IsRow(rows[0]);
      var i: nat, k: bytes :| i < UINT64_LIMIT && rows[0] == Row(i, k);
      KeyForRow(i, k, id);
      RowsApart(i, k, id, key);
      assert rows == [rows[0]] + rows[1..];
      RowKeysMembers(rows[1..], id, key);
    }
  }

  lemma {:induction false} RowsWithoutMembers(rows: seq<bytes>, id: nat, row: bytes)
    ensures row in RowsWithout(rows, id) <==> row in rows && KeyFor(row, id).None?
  {
    hide KeyFor;
    if rows != [] {
      assert rows == [rows[0]] + rows[1..];
      RowsWithoutMembers(rows[1..], id, row);
    }
  }

  lemma {:induction false} RowsWithoutSorted(rows: seq<bytes>, id: nat)
    requires SortedKeys(rows)
    ensures SortedKeys(RowsWithout(rows, id))
  {
    hide KeyFor, LexLess;
    if rows != [] {
      RowsWithoutSorted(rows[1..], id);
      var r := RowsWithout(rows[1..], id);
      forall j | 0 <= j < |r| ensures LexLess(rows[0], r[j]) {
        RowsWithoutMembers(rows[1..], id, r[j]);
        assert r[j] in r;
        var m :| 0 <= m < |rows[1..]| && rows[1..][m] == r[j];
        assert rows[1..][m] == rows[m + 1];
      }
    }
  }

  // ---- the rows of one lease are one block ----

  lemma {:induction false} PrefixNotLess(p: bytes, x: bytes)
    ensures !LexLess(p + x, p)
  {
    if p != [] {
      assert (p + x)[1..] == p[1..] + x;
      PrefixNotLess(p[1..], x);
    }
  }

  /** Anything between a string and one that extends it extends it too. */
  lemma {:induction false} BetweenPrefix(p: bytes, r: bytes, y: bytes)
    requires !LexLess(r, p) && LexLess(r, p + y)
    ensures p <= r
  {
    if p != [] {
      assert (p + y)[1..] == p[1..] + y;
      BetweenPrefix(p[1..], r[1..], y);
      assert r == [r[0]] + r[1..] && p == [p[0]] + p[1..];
    }
  }

  /** A row that sorts between the start of a lease's rows and one of them is one of them. */
  lemma InBlock(row: bytes, id: nat, k: bytes)
    requires id < UINT64_LIMIT && !LexLess(row, Uvarint.Encode(id)) && LexLess(row, Row(id, k))
    ensures KeyFor(row, id).Some?
  {
    hide LexLess, KeyFor;
    var p := Uvarint.Encode(id);
    BetweenPrefix(p, row, k);
    assert row == Row(id, row[|p|..]);
    KeyForRow(id, row[|p|..], id);
  }

  /** Rows before the seek position do not belong to the lease, and no gap opens after it. */
  lemma LeaseBlock(rows: seq<bytes>, id: nat)
    requires SortedKeys(rows) && id < UINT64_LIMIT && forall row <- rows :: IsRow(row)
    ensures var i := Seek(rows, Uvarint.Encode(id));
      && (forall m | 0 <= m < i :: KeyFor(rows[m], id).None?)
      && (forall m, n | i <= m < n < |rows| :: KeyFor(rows[n], id).Some? ==> KeyFor(rows[m], id).Some?)
  {
    hide LexLess, KeyFor, IsRow;
    var p := Uvarint.Encode(id);
    var i := Seek(rows, p);
    forall m | 0 <= m < i ensures KeyFor(rows[m], id).None? {
      if KeyFor(rows[m], id).Some? {
        var k := OwnRow(rows[m], id);
        PrefixNotLess(p, k);
      }
    }
    forall m, n | i <= m < n < |rows| && KeyFor(rows[n], id).Some? ensures KeyFor(rows[m], id).Some? {
      var k := OwnRow(rows[n], id);
      SeekAtLeast(rows, p, m);
      InBlock(rows[m], id, k);
    }
  }

  lemma SeekAtLeast(rows: seq<bytes>, p: bytes, m: nat)
    requires SortedKeys(rows) && Seek(rows, p) <= m < |rows|
    ensures !LexLess(rows[m], p)
  {
    hide LexLess;
    var i := Seek(rows, p);
    if LexLess(rows[m], p) && m > i {
      LexTotal(rows[m], p);
      LexTransitive(rows[i], rows[m], p);
    }
  }

  lemma OwnRow(row: bytes, id: nat) returns (k: bytes)
    requires IsRow(row) && KeyFor(row, id).Some?
    ensures row == Row(id, k) && KeyFor(row, id) == Some(k)
  {
    var i: nat, key: bytes :| i < UINT64_LIMIT && row == Row(i, key);
    KeyForRow(i, key, id);
    k := key;
  }

  /** Taking the first rows of a lease's block off the table. */
  lemma SweepSplits(rows: seq<bytes>, id: nat, i: nat, n: nat)
    requires i + n <= |rows|
    requires (forall m | 0 <= m < i :: KeyFor(rows[m], id).None?)
    requires (forall m | i <= m < i + n :: KeyFor(rows[m], id).Some?)
    ensures var left := rows[..i] + rows[i + n..];
      && RowKeys(rows, id) == RowKeys(rows[i..i + n], id) + RowKeys(left, id)
      && RowsWithout(left, id) == RowsWithout(rows, id)
  {
    hide KeyFor, RowKeys, RowsWithout;
    var a, b, c := rows[..i], rows[i..i + n], rows[i + n..];
    assert rows == a + (b + c);
    RowKeysNone(a, id);
    RowsAll(b, id);
    BlockSplits(a, b, c, id);
  }

  lemma BlockSplits(a: seq<bytes>, b: seq<bytes>, c: seq<bytes>, id: nat)
    requires RowKeys(a, id) == [] && RowsWithout(b, id) == []
    ensures RowKeys(a + (b + c), id) == RowKeys(b, id) + RowKeys(a + c, id)
    ensures RowsWithout(a + c, id) == RowsWithout(a + (b + c), id)
  {
    hide RowKeys, RowsWithout;
    RowKeysConcat(a, b + c, id);
    RowKeysConcat(b, c, id);
    RowKeysConcat(a, c, id);
  }

  lemma {:induction false} RowsAll(rows: seq<bytes>, id: nat)
    requires forall m | 0 <= m < |rows| :: KeyFor(rows[m], id).Some?
    ensures RowsWithout(rows, id) == [] && |RowKeys(rows, id)| == |rows|
  {
    hide KeyFor;
    if rows != [] {
      RowsAll(rows[1..], id);
    }
  }

  class DbLeaseKey {
    var rows: seq<bytes>

    ghost predicate Valid()
      reads this
    {
      SortedKeys(rows) && forall row <- rows :: IsRow(row)
    }

    constructor ()
      ensures Valid() && rows == []
    {
      rows := [];
    }

    method Put(id: nat, key: bytes)
      requires Valid() && id < UINT64_LIMIT
      modifies this
      ensures Valid() && rows == InsertKey(old(rows), Row(id, key))
    {
      InsertKeySorted(rows, Row(id, key));
      rows := InsertKey(rows, Row(id, key));
    }

    /** Fails if the row is not there, as the table does. */
    method Del(id: nat, key: bytes) returns (found: bool)
      requires Valid()
      modifies this
      ensures Valid() && rows == Remove(old(rows), Row(id, key)) && (found <==> Row(id, key) in old(rows))
    {
      var row := Row(id, key);
      RemoveMembers(rows, row);
      SeekFinds(rows, row);
      var i := Seek(rows, row);
      found := i < |rows| && rows[i] == row;
      if found { rows := rows[..i] + rows[i + 1..]; }
    }

    /** Takes up to `limit` keys of a lease off the table, from the position where its rows start. */
    method Sweep(id: nat, limit: nat) returns (batch: seq<bytes>)
      requires Valid() && id < UINT64_LIMIT
      modifies this
      ensures Valid()
      ensures RowKeys(old(rows), id) == batch + RowKeys(rows, id) && |batch| <= limit
      ensures RowsWithout(rows, id) == RowsWithout(old(rows), id)
      ensures |batch| < limit ==> RowKeys(rows, id) == []
    {
      hide SortedKeys, IsRow, KeyFor, RowKeys, RowsWithout, LexLess;
      LeaseBlock(rows, id);
      var i := Seek(rows, Uvarint.Encode(id));
      batch := [];
      SweepStart(rows, i, id);
      while |batch| < limit && i < |rows|
        invariant Valid() && i <= |rows| && |batch| <= limit && SweptTo(old(rows), rows, id, i, batch)
        decreases |rows|
      {
        var k := KeyFor(rows[i], id);
        if k.None? { break; }
        SweepTurn(old(rows), rows, id, i, batch);
        RemoveAtSorted(rows, i, i + 1);
        rows := rows[..i] + rows[i + 1..];
        batch := batch + [k.value];
      }
      SweepEnd(old(rows), rows, id, i, batch);
      if |batch| < limit { SweepOver(old(rows), rows, id, i, batch); }
    }
  }

  /** The rows left after a sweep took |batch| of them at position i. */
  ghost predicate SweptTo(was: seq<bytes>, rows: seq<bytes>, id: nat, i: nat, batch: seq<bytes>) {
    var n := |batch|;
    && i + n <= |was| && rows == was[..i] + was[i + n..] && batch == RowKeys(was[i..i + n], id)
    && (forall m | 0 <= m < i :: KeyFor(was[m], id).None?) && (forall m | i <= m < i + n :: KeyFor(was[m], id).Some?)
    && (forall m, n | i <= m < n < |was| :: KeyFor(was[n], id).Some? ==> KeyFor(was[m], id).Some?)
  }

  lemma SweepStart(rows: seq<bytes>, i: nat, id: nat)
    requires i <= |rows| && forall m | 0 <= m < i :: KeyFor(rows[m], id).None?
    requires forall m, n | i <= m < n < |rows| :: KeyFor(rows[n], id).Some? ==> KeyFor(rows[m], id).Some?
    ensures SweptTo(rows, rows, id, i, [])
  {
    assert rows[..i] + rows[i + 0..] == rows;
    assert rows[i..i + 0] == [];
  }

  lemma SweepTurn(was: seq<bytes>, rows: seq<bytes>, id: nat, i: nat, batch: seq<bytes>)
    requires SweptTo(was, rows, id, i, batch) && i < |rows| && KeyFor(rows[i], id).Some?
    ensures SweptTo(was, rows[..i] + rows[i + 1..], id, i, batch + [KeyFor(rows[i], id).value])
  {
    hide KeyFor;
    var n := |batch|;
    assert rows[i] == was[i + n];
    assert was[i..i + (n + 1)] == was[i..i + n] + [was[i + n]];
    RowKeysConcat(was[i..i + n], [was[i + n]], id);
    assert [was[i + n]][1..] == [];
    assert rows[..i] + rows[i + 1..] == was[..i] + was[i + (n + 1)..];
  }

  lemma SweepEnd(was: seq<bytes>, rows: seq<bytes>, id: nat, i: nat, batch: seq<bytes>)
    requires SweptTo(was, rows, id, i, batch)
    ensures RowKeys(was, id) == batch + RowKeys(rows, id) && RowsWithout(rows, id) == RowsWithout(was, id)
  {
    hide KeyFor;
    SweepSplits(was, id, i, |batch|);
  }

  /** A sweep that stops short of its limit has taken every row of the lease. */
  lemma SweepOver(was: seq<bytes>, rows: seq<bytes>, id: nat, i: nat, batch: seq<bytes>)
    requires SweptTo(was, rows, id, i, batch) && (i < |rows| ==> KeyFor(rows[i], id).None?)
    ensures RowKeys(rows, id) == []
  {
    hide KeyFor;
    var n := |batch|;
    forall row | row in rows ensures KeyFor(row, id).None? {
      var m :| 0 <= m < |rows| && rows[m] == row;
      if m > i {
        assert rows[i] == was[i + n] && rows[m] == was[m + n];
      }
    }
    RowKeysNone(rows, id);
  }

  // ---- lease_exp ----

  function ExpRow(expires: nat, id: nat): bytes {
    BigEndian(expires, 8) + Uvarint.Encode(id)
  }

  ghost predicate IsExpRow(row: bytes) {
    exists expires: nat, id: nat :: expires < UINT64_LIMIT && id < UINT64_LIMIT && row == ExpRow(expires, id)
  }

  function ExpiryOf(row: bytes): nat
    requires |row| >= 8
  {
    FromBigEndian(row[..8])
  }

  function ExpId(row: bytes): nat
    requires |row| >= 8
  {
    var d := Uvarint.Decode(row[8..]);
    if d.Some? then d.value.value else 0
  }

  lemma ExpRowReads(expires: nat, id: nat)
    requires expires < UINT64_LIMIT && id < UINT64_LIMIT
    ensures |ExpRow(expires, id)| >= 9
    ensures ExpiryOf(ExpRow(expires, id)) == expires && ExpId(ExpRow(expires, id)) == id
  {
    var row := ExpRow(expires, id);
    assert row[..8] == BigEndian(expires, 8) && row[8..] == Uvarint.Encode(id) + [];
    Power256Word();
    BigEndianReadsBack(expires, 8);
    Uvarint.RoundTrip(id, []);
  }

  lemma ExpRowsApart(e: nat, i: nat, f: nat, j: nat)
    requires e < UINT64_LIMIT && i < UINT64_LIMIT && f < UINT64_LIMIT && j < UINT64_LIMIT
    ensures ExpRow(e, i) == ExpRow(f, j) <==> e == f && i == j
  {
    ExpRowReads(e, i);
    ExpRowReads(f, j);
  }

  /** Rows sort by expiry first. */
  lemma ExpRowOrder(row: bytes, other: bytes)
    requires IsExpRow(row) && IsExpRow(other) && LexLess(row, other)
    ensures |row| >= 9 && |other| >= 9 && ExpiryOf(row) <= ExpiryOf(other)
  {
    hide LexLess, BigEndian, FromBigEndian;
    var e: nat, i: nat :| e < UINT64_LIMIT && i < UINT64_LIMIT && row == ExpRow(e, i);
    var f: nat, j: nat :| f < UINT64_LIMIT && j < UINT64_LIMIT && other == ExpRow(f, j);
    ExpRowReads(e, i);
    ExpRowReads(f, j);
    if f < e {
      Power256Word();
      BigEndianOrder(f, e, 8);
      LexPrefix(BigEndian(f, 8), BigEndian(e, 8), Uvarint.Encode(j), Uvarint.Encode(i));
      LexTotal(row, other);
    }
  }

  /** The rows due at an epoch: the leading ones that do not expire later. */
  function Due(rows: seq<bytes>, epoch: nat): (r: seq<bytes>)
    ensures r <= rows && forall row <- r :: |row| >= 9
  {
    if rows == [] || |rows[0]| < 9 || ExpiryOf(rows[0]) > epoch then []
    else [rows[0]] + Due(rows[1..], epoch)
  }

  /** These are all the rows that do not expire later. */
  lemma {:induction false} DueMembers(rows: seq<bytes>, epoch: nat, row: bytes)
    requires SortedKeys(rows) && forall r <- rows :: IsExpRow(r)
    ensures row in Due(rows, epoch) <==> row in rows && |row| >= 9 && ExpiryOf(row) <= epoch
  {
    hide LexLess, IsExpRow, ExpiryOf;
    if rows != [] {
      assert rows[0] in rows;
      ExpRowLong(rows[0]);
      if ExpiryOf(rows[0]) > epoch {
        if row in rows {
          var m :| 0 <= m < |rows| && rows[m] == row;
          if m > 0 { ExpRowOrder(rows[0], rows[m]); }
        }
      } else {
        DueMembers(rows[1..], epoch, row);
        assert rows == [rows[0]] + rows[1..];
      }
    }
  }

  lemma ExpRowLong(row: bytes)
    requires IsExpRow(row)
    ensures |row| >= 9
  {
    var e: nat, i: nat :| e < UINT64_LIMIT && i < UINT64_LIMIT && row == ExpRow(e, i);
  }

  class DbLeaseExp {
    var rows: seq<bytes>

    ghost predicate Valid()
      reads this
    {
      SortedKeys(rows) && forall row <- rows :: IsExpRow(row)
    }

    constructor ()
      ensures Valid() && rows == []
    {
      rows := [];
    }

    method Put(id: nat, l: Lease)
      requires Valid() && id < UINT64_LIMIT && l.expires < UINT64_LIMIT
      modifies this
      ensures Valid() && rows == InsertKey(old(rows), ExpRow(l.expires, id))
    {
      InsertKeySorted(rows, ExpRow(l.expires, id));
      rows := InsertKey(rows, ExpRow(l.expires, id));
    }

    /** Fails if the row is not there, as the table does. */
    method Del(id: nat, l: Lease) returns (found: bool)
      requires Valid()
      modifies this
      ensures Valid() && rows == Remove(old(rows), ExpRow(l.expires, id))
      ensures found <==> ExpRow(l.expires, id) in old(rows)
    {
      var row := ExpRow(l.expires, id);
      RemoveMembers(rows, row);
      SeekFinds(rows, row);
      var i := Seek(rows, row);
      found := i < |rows| && rows[i] == row;
      if found { rows := rows[..i] + rows[i + 1..]; }
    }

    /** Where a cursor stands after it has seen `last`: the first row past it. */
    method Next(last: Option<bytes>) returns (i: nat)
      requires Valid()
      ensures i <= |rows| && (last.None? ==> i == 0)
      ensures last.Some? ==>
        (forall j | 0 <= j < i :: !LexLess(last.value, rows[j])) && (i < |rows| ==> LexLess(last.value, rows[i]))
    {
      i := 0;
      while i < |rows| && last.Some? && !LexLess(last.value, rows[i])
        invariant i <= |rows| && (last.None? ==> i == 0)
        invariant last.Some? ==> forall j | 0 <= j < i :: !LexLess(last.value, rows[j])
      {
        i := i + 1;
      }
    }
  }
}
