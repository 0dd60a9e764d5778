/**
 internal/patch/lcs/common.go: diagonals of the edit graph, and the greedy
 repair of a list of diagonals that may overlap.
 */
module LcsCommon {
  import opened Base

  /** A stretch where a[x+i] == b[y+i] for 0 <= i < len. */
  datatype Diag = Diag(x: int, y: int, len: int)

  type Lcs = seq<Diag>

  ghost predicate IsMatch(a: bytes, b: bytes, d: Diag) {
    && d.len >= 1 && 0 <= d.x && 0 <= d.y
    && d.x + d.len <= |a| && d.y + d.len <= |b|
    && a[d.x..d.x + d.len] == b[d.y..d.y + d.len]
  }

  ghost predicate AllMatch(a: bytes, b: bytes, l: Lcs) {
    forall d <- l :: IsMatch(a, b, d)
  }

  /** `p` ends, in both coordinates, no later than `q` begins. */
  predicate Before(p: Diag, q: Diag) {
    p.x + p.len <= q.x && p.y + p.len <= q.y
  }

  /** The check the source carries for adjacent diagonals. */
  predicate Valid(l: Lcs) {
    forall i | 1 <= i < |l| :: Before(l[i - 1], l[i])
  }

  ghost predicate Chain(l: Lcs) {
    forall i, j | 0 <= i < j < |l| :: Before(l[i], l[j])
  }

  /** `p` is a piece of `q` on the same diagonal. */
  ghost predicate PieceOf(p: Diag, q: Diag) {
    p.len >= 1 && p.x - q.x == p.y - q.y && q.x <= p.x && p.x + p.len <= q.x + q.len
  }

  lemma SliceOfSlice(s: bytes, i: int, j: int, o: int, n: int)
    requires 0 <= i <= j <= |s| && 0 <= o && 0 <= n && o + n <= j - i
    ensures s[i..j][o..o + n] == s[i + o..i + o + n]
  {
    var t, r := s[i..j][o..o + n], s[i + o..i + o + n];
    assert |t| == |r| && forall k | 0 <= k < n :: t[k] == r[k];
  }

  lemma PieceMatches(a: bytes, b: bytes, p: Diag, q: Diag)
    requires IsMatch(a, b, q) && PieceOf(p, q)
    ensures IsMatch(a, b, p)
  {
    var o := p.x - q.x;
    SliceOfSlice(a, q.x, q.x + q.len, o, p.len);
    SliceOfSlice(b, q.y, q.y + q.len, o, p.len);
  }

  // ---- overlap ----

  datatype Direction = Empty | LeftDown | RightUp | Bad

  function TrimEndX(exist: Diag, prop: Diag): Diag {
    if prop.x <= exist.x < prop.x + prop.len
    then prop.(len := exist.x - prop.x) else prop
  }

  function TrimStartX(exist: Diag, prop: Diag): Diag {
    if exist.x <= prop.x < exist.x + exist.len then
      var delta := exist.x + exist.len - prop.x;
      if prop.len <= delta then prop.(len := prop.len - delta)
      else Diag(prop.x + delta, prop.y + delta, prop.len - delta)
    else prop
  }

  function TrimEndY(exist: Diag, prop: Diag): Diag {
    if prop.y <= exist.y < prop.y + prop.len
    then prop.(len := exist.y - prop.y) else prop
  }

  function TrimStartY(exist: Diag, prop: Diag): Diag {
    if exist.y <= prop.y < exist.y + exist.len then
      var delta := exist.y + exist.len - prop.y;
      if prop.len <= delta then prop.(len := prop.len - delta)
      else Diag(prop.x + delta, prop.y + delta, prop.len - delta)
    else prop
  }

  /** Trims `prop` so that it no longer overlaps `exist` in either coordinate. */
  function Overlap(exist: Diag, prop: Diag): (r: (Direction, Diag))
    requires exist.len >= 1 && prop.len >= 1
    ensures r.0 == Empty <==> r.1.len <= 0
    ensures r.0 != Empty ==> PieceOf(r.1, prop)
    ensures r.0 == LeftDown ==> Before(r.1, exist)
    ensures r.0 == RightUp ==> Before(exist, r.1)
    ensures r.0 == Bad ==> !Before(r.1, exist) && !Before(exist, r.1)
    ensures Before(prop, exist) ==> r == (LeftDown, prop)
    ensures Before(exist, prop) ==> r == (RightUp, prop)
  {
    var p1 := TrimEndX(exist, prop);
    if p1.len <= 0 then (Empty, p1) else
    var p2 := TrimStartX(exist, p1);
    if p2.len <= 0 then (Empty, p2) else
    var p3 := TrimEndY(exist, p2);
    if p3.len <= 0 then (Empty, p3) else
    var p4 := TrimStartY(exist, p3);
    if p4.len <= 0 then (Empty, p4)
    else if Before(p4, exist) then (LeftDown, p4)
    else if Before(exist, p4) then (RightUp, p4)
    else (Bad, p4)
  }

  // ---- sort ----

  predicate LessX(p: Diag, q: Diag) {
    if p.x != q.x then p.x < q.x else p.len > q.len
  }

  ghost predicate SortedX(l: Lcs) {
    forall i, j | 0 <= i < j < |l| :: !LessX(l[j], l[i])
  }

  function InsertX(r: Lcs, d: Diag): (s: Lcs)
    requires SortedX(r)
    ensures SortedX(s) && forall e <- s :: e in r || e == d
  {
    var n := |r| - 1;
    if r == [] || !LessX(d, r[n]) then r + [d]
    else
      assert forall e | e in r[..n] :: !LessX(r[n], e);
      var s := InsertX(r[..n], d);
      assert forall i | 0 <= i < |s| :: s[i] in s;
      s + [r[n]]
  }

  lemma {:induction false} InsertXPermutes(r: Lcs, d: Diag)
    requires SortedX(r)
    ensures multiset(InsertX(r, d)) == multiset(r) + multiset{d}
  {
    var n := |r| - 1;
    if !(r == [] || !LessX(d, r[n])) {
      assert r == r[..n] + [r[n]];
      InsertXPermutes(r[..n], d);
    }
  }

  /** The standard library's in-place sort by lowest x, ties by greatest length. */
  method SortX(l: Lcs) returns (r: Lcs)
    ensures multiset(r) == multiset(l)
    ensures SortedX(r)
  {
    r := [];
    for i := 0 to |l|
      invariant multiset(r) == multiset(l[..i])
      invariant SortedX(r)
    {
      assert l[..i + 1] == l[..i] + [l[i]];
      InsertXPermutes(r, l[i]);
      r := InsertX(r, l[i]);
    }
    assert l[..|l|] == l;
  }

  ghost predicate SortedLen(l: Lcs) {
    forall i, j | 0 <= i < j < |l| :: l[i].len >= l[j].len
  }

  function InsertLen(r: Lcs, d: Diag): (s: Lcs)
    requires SortedLen(r)
    ensures SortedLen(s) && forall e <- s :: e in r || e == d
  {
    var n := |r| - 1;
    if r == [] || d.len <= r[n].len then r + [d]
    else
      assert forall e | e in r[..n] :: e.len >= r[n].len;
      var s := InsertLen(r[..n], d);
      assert forall i | 0 <= i < |s| :: s[i] in s;
      s + [r[n]]
  }

  lemma {:induction false} InsertLenPermutes(r: Lcs, d: Diag)
    requires SortedLen(r)
    ensures multiset(InsertLen(r, d)) == multiset(r) + multiset{d}
  {
    var n := |r| - 1;
    if !(r == [] || d.len <= r[n].len) {
      assert r == r[..n] + [r[n]];
      InsertLenPermutes(r[..n], d);
    }
  }

  /** The first sort of `fix`: longest first. */
  method SortLen(l: Lcs) returns (r: Lcs)
    ensures multiset(r) == multiset(l)
    ensures SortedLen(r)
  {
    r := [];
    for i := 0 to |l|
      invariant multiset(r) == multiset(l[..i])
      invariant SortedLen(r)
    {
      assert l[..i + 1] == l[..i] + [l[i]];
      InsertLenPermutes(r, l[i]);
      r := InsertLen(r, l[i]);
    }
    assert l[..|l|] == l;
  }

  /** Every two entries are ordered one way or the other, wherever they stand. */
  ghost predicate Compatible(l: Lcs) {
    forall i, j | 0 <= i < j < |l| :: Before(l[i], l[j]) || Before(l[j], l[i])
  }

  lemma CompatibleIsDuplicateFree(l: Lcs, d: Diag)
    requires Compatible(l) && forall e <- l :: e.len >= 1
    ensures multiset(l)[d] <= 1
    decreases |l|
  {
    if |l| > 0 {
      var m := |l| - 1;
      assert l == l[..m] + [l[m]];
      CompatibleIsDuplicateFree(l[..m], d);
      forall i | 0 <= i < m ensures l[..m][i] != l[m] {
        assert l[i] in l;
        assert Before(l[i], l[m]) || Before(l[m], l[i]);
      }
    }
  }

  lemma SameElements(l: Lcs, r: Lcs)
    requires multiset(r) == multiset(l)
    ensures forall d :: d in r <==> d in l
  {
    forall d ensures d in r <==> d in l {
      assert d in r <==> d in multiset(r);
      assert d in l <==> d in multiset(l);
    }
  }

  lemma OccursTwice(r: Lcs, i: nat, j: nat)
    requires i < j < |r| && r[i] == r[j]
    ensures multiset(r)[r[i]] >= 2
  {
    assert r == r[..j] + r[j..];
    assert r[i] in r[..j] && r[i] in r[j..];
  }

  /** Sorting by x turns compatible diagonals into a strictly increasing list. */
  lemma SortedCompatibleIsValid(l: Lcs, r: Lcs)
    requires Compatible(l) && forall d <- l :: d.len >= 1
    requires multiset(r) == multiset(l) && SortedX(r)
    ensures Chain(r) && Valid(r)
  {
    SameElements(l, r);
    forall i, j | 0 <= i < j < |r| ensures Before(r[i], r[j]) {
      CompatibleIsDuplicateFree(l, r[i]);
      if r[i] == r[j] { OccursTwice(r, i, j); }
      assert r[i] in l && r[j] in l;
      var m :| 0 <= m < |l| && l[m] == r[i];
      var n :| 0 <= n < |l| && l[n] == r[j];
      assert Before(l[m], l[n]) || Before(l[n], l[m]);
      assert r[i].len >= 1 && r[j].len >= 1;
    }
  }

  // ---- fix ----

  /** Trims `nxt` against each accepted diagonal in turn, stopping at a conflict. */
  method TrimAgainst(tmp: Lcs, prop: Diag) returns (dir: Direction, nxt: Diag)
    requires |tmp| >= 1 && prop.len >= 1 && forall d <- tmp :: d.len >= 1
    ensures nxt.len > 0 && dir != Bad ==>
      PieceOf(nxt, prop) && forall d <- tmp :: Before(nxt, d) || Before(d, nxt)
    ensures (forall d <- tmp :: Before(prop, d) || Before(d, prop)) ==> nxt == prop && dir != Bad
  {
    hide Overlap;
    dir, nxt := Empty, prop;
    for i := 0 to |tmp|
      invariant PieceOf(nxt, prop) && (i > 0 ==> dir != Empty && dir != Bad)
      invariant forall m | 0 <= m < i :: Before(nxt, tmp[m]) || Before(tmp[m], nxt)
      invariant (forall d <- tmp :: Before(prop, d) || Before(d, prop)) ==> nxt == prop
    {
      var r := Overlap(tmp[i], nxt);
      dir, nxt := r.0, r.1;
      if dir == Empty || dir == Bad {
        assert tmp[i] in tmp;
        return;
      }
    }
  }

  /**
   One pass over the candidates in the order given. Whatever that order is, the
   accepted diagonals are pieces of candidates and no two of them conflict.
   */
  method Greedy(l: Lcs) returns (tmp: Lcs)
    requires |l| >= 1 && forall d <- l :: d.len >= 1
    ensures Compatible(tmp) && |tmp| >= 1 && tmp[0] == l[0]
    ensures PiecesOf(tmp, l)
    ensures Compatible(l) ==> tmp == l
  {
    tmp := [l[0]];
    assert PieceOf(l[0], l[0]);
    for i := 1 to |l|
      invariant Compatible(tmp) && |tmp| >= 1 && tmp[0] == l[0]
      invariant forall d <- tmp :: d.len >= 1 && exists e <- l :: PieceOf(d, e)
      invariant Compatible(l) ==> tmp == l[..i]
    {
      assert l[i] in l;
      var dir, nxt := TrimAgainst(tmp, l[i]);
      if nxt.len > 0 && dir != Bad {
        tmp := tmp + [nxt];
      }
    }
  }

  lemma PiecesMatch(a: bytes, b: bytes, l: Lcs, tmp: Lcs)
    requires AllMatch(a, b, l) && PiecesOf(tmp, l)
    ensures AllMatch(a, b, tmp)
  {
    forall d | d in tmp ensures IsMatch(a, b, d) {
      var e :| e in l && PieceOf(d, e);
      PieceMatches(a, b, d, e);
    }
  }

  ghost predicate PiecesOf(r: Lcs, l: Lcs) {
    forall d <- r :: exists e <- l :: PieceOf(d, e)
  }

  ghost predicate HoldsLongest(l: Lcs, r: Lcs) {
    exists d <- r :: d in l && forall e <- l :: e.len <= d.len
  }

  lemma FirstIsLongest(l: Lcs, s: Lcs, r: Lcs)
    requires |s| >= 1 && SortedLen(s) && s[0] in r
    requires multiset(s) == multiset(l)
    ensures HoldsLongest(l, r)
  {
    SameElements(l, s);
    assert s[0] in s;
  }

  lemma PiecesTransfer(l: Lcs, s: Lcs, tmp: Lcs, r: Lcs)
    requires PiecesOf(tmp, s) && multiset(s) == multiset(l) && multiset(r) == multiset(tmp)
    ensures PiecesOf(r, l)
  {
    SameElements(l, s);
    SameElements(tmp, r);
    forall d | d in r ensures exists e <- l :: PieceOf(d, e) {
      var e :| e in s && PieceOf(d, e);
    }
  }

  lemma PiecesAreLong(r: Lcs, l: Lcs)
    requires PiecesOf(r, l)
    ensures forall d <- r :: d.len >= 1
  {}

  /** Repairs a list of true matches into a valid common subsequence. */
  method Fix(a: bytes, b: bytes, l: Lcs) returns (r: Lcs)
    requires AllMatch(a, b, l)
    ensures AllMatch(a, b, r) && Valid(r) && Chain(r)
    ensures PiecesOf(r, l)
    ensures |l| > 0 ==> HoldsLongest(l, r)
    ensures Compatible(l) ==> multiset(r) == multiset(l)
  {
    if |l| == 0 { return []; }
    r := FixNonEmpty(l);
    PiecesMatch(a, b, l, r);
  }

  lemma FixedIsGood(l: Lcs, s: Lcs, tmp: Lcs, r: Lcs)
    requires |s| >= 1 && SortedLen(s) && multiset(s) == multiset(l)
    requires |tmp| >= 1 && tmp[0] == s[0] && Compatible(tmp) && PiecesOf(tmp, s)
    requires SortedX(r) && multiset(r) == multiset(tmp)
    ensures Valid(r) && Chain(r)
    ensures PiecesOf(r, l)
    ensures HoldsLongest(l, r)
  {
    assert tmp[0] in multiset(r);
    FirstIsLongest(l, s, r);
    PiecesTransfer(l, s, tmp, r);
    PiecesAreLong(tmp, s);
    SortedCompatibleIsValid(tmp, r);
  }

  method FixNonEmpty(l: Lcs) returns (r: Lcs)
    requires |l| > 0 && forall d <- l :: d.len >= 1
    ensures Valid(r) && Chain(r)
    ensures PiecesOf(r, l)
    ensures HoldsLongest(l, r)
    ensures Compatible(l) ==> multiset(r) == multiset(l)
  {
    var s := SortLen(l);
    assert forall d <- s :: d.len >= 1 by { SameElements(l, s); }
    assert Compatible(l) ==> Compatible(s) by { if Compatible(l) { CompatiblePermutes(l, s); } }
    var tmp := Greedy(s);
    r := SortX(tmp);
    FixedIsGood(l, s, tmp, r);
  }

  lemma CompatiblePermutes(l: Lcs, s: Lcs)
    requires Compatible(l) && forall d <- l :: d.len >= 1
    requires multiset(s) == multiset(l)
    ensures Compatible(s)
  {
    SameElements(l, s);
    forall i, j | 0 <= i < j < |s| ensures Before(s[i], s[j]) || Before(s[j], s[i]) {
      CompatibleIsDuplicateFree(l, s[i]);
      if s[i] == s[j] { OccursTwice(s, i, j); }
      assert s[i] in l && s[j] in l;
      var m :| 0 <= m < |l| && l[m] == s[i];
      var n :| 0 <= n < |l| && l[n] == s[j];
      assert Before(l[m], l[n]) || Before(l[n], l[m]);
    }
  }

  // ---- prepend and append ----

  /** Everything in `l` starts at or after (x, y). */
  ghost predicate From(l: Lcs, x: int, y: int) {
    forall d <- l :: x <= d.x && y <= d.y
  }

  /** Everything in `l` ends at or before (x, y). */
  ghost predicate Upto(l: Lcs, x: int, y: int) {
    forall d <- l :: d.x + d.len <= x && d.y + d.len <= y
  }

  /** Adds the unit diagonal at (x, y) in front, merging with an adjoining first entry. */
  function Prepend(l: Lcs, x: int, y: int): (r: Lcs) {
    if |l| > 0 && l[0].x == x + 1 && l[0].y == y + 1
    then [Diag(x, y, l[0].len + 1)] + l[1..]
    else [Diag(x, y, 1)] + l
  }

  /** Adds the unit diagonal at (x, y) at the end, merging with an adjoining last entry. */
  function Append(l: Lcs, x: int, y: int): (r: Lcs) {
    if |l| > 0 && l[|l| - 1].x + l[|l| - 1].len == x && l[|l| - 1].y + l[|l| - 1].len == y
    then l[..|l| - 1] + [l[|l| - 1].(len := l[|l| - 1].len + 1)]
    else l + [Diag(x, y, 1)]
  }

  /** A common subsequence between two points: true matches, increasing, not overlapping. */
  ghost predicate Between(a: bytes, b: bytes, l: Lcs, x: int, y: int, u: int, v: int) {
    AllMatch(a, b, l) && Chain(l) && From(l, x, y) && Upto(l, u, v)
  }

  lemma Widen(a: bytes, b: bytes, l: Lcs, x: int, y: int, u: int, v: int, x': int, y': int, u': int, v': int)
    requires Between(a, b, l, x, y, u, v) && x' <= x && y' <= y && u <= u' && v <= v'
    ensures Between(a, b, l, x', y', u', v')
  {}

  lemma ConsKeeps(a: bytes, b: bytes, d: Diag, l: Lcs, x: int, y: int, u: int, v: int)
    requires Between(a, b, l, x, y, u, v) && IsMatch(a, b, d)
    requires d.x + d.len <= x <= u && d.y + d.len <= y <= v
    ensures Between(a, b, [d] + l, d.x, d.y, u, v)
  {
    var r := [d] + l;
    forall i, j | 0 <= i < j < |r| ensures Before(r[i], r[j]) {
      assert r[j] == l[j - 1] && l[j - 1] in l;
      if i > 0 { assert r[i] == l[i - 1]; }
    }
    assert forall e | e in r :: e == d || e in l;
  }

  lemma SnocKeeps(a: bytes, b: bytes, d: Diag, l: Lcs, x: int, y: int, u: int, v: int)
    requires Between(a, b, l, u, v, x, y) && IsMatch(a, b, d)
    requires u <= x <= d.x && v <= y <= d.y
    ensures Between(a, b, l + [d], u, v, d.x + d.len, d.y + d.len)
  {
    var r := l + [d];
    forall i, j | 0 <= i < j < |r| ensures Before(r[i], r[j]) {
      assert r[i] == l[i] && l[i] in l;
    }
    assert forall e | e in r :: e == d || e in l;
  }

  lemma MatchGrows(a: bytes, b: bytes, d: Diag)
    requires IsMatch(a, b, d)
    ensures d.x > 0 && d.y > 0 && a[d.x - 1] == b[d.y - 1] ==>
      IsMatch(a, b, Diag(d.x - 1, d.y - 1, d.len + 1))
    ensures d.x + d.len < |a| && d.y + d.len < |b| && a[d.x + d.len] == b[d.y + d.len] ==>
      IsMatch(a, b, d.(len := d.len + 1))
  {
    if d.x > 0 && d.y > 0 {
      assert a[d.x - 1..d.x + d.len] == [a[d.x - 1]] + a[d.x..d.x + d.len];
      assert b[d.y - 1..d.y + d.len] == [b[d.y - 1]] + b[d.y..d.y + d.len];
    }
    if d.x + d.len < |a| && d.y + d.len < |b| {
      assert a[d.x..d.x + d.len + 1] == a[d.x..d.x + d.len] + [a[d.x + d.len]];
      assert b[d.y..d.y + d.len + 1] == b[d.y..d.y + d.len] + [b[d.y + d.len]];
    }
  }

  lemma SplitHead(a: bytes, b: bytes, l: Lcs, x: int, y: int, u: int, v: int)
    requires |l| > 0 && Between(a, b, l, x, y, u, v)
    ensures IsMatch(a, b, l[0]) && Between(a, b, l[1..], l[0].x + l[0].len, l[0].y + l[0].len, u, v)
    ensures l[0].x + l[0].len <= u && l[0].y + l[0].len <= v
  {
    assert l[0] in l;
    forall e | e in l[1..] ensures e in l && Before(l[0], e) {
      var i :| 0 <= i < |l[1..]| && l[1..][i] == e;
      assert l[i + 1] == e;
    }
  }

  lemma SplitLast(a: bytes, b: bytes, l: Lcs, x: int, y: int, u: int, v: int)
    requires |l| > 0 && Between(a, b, l, x, y, u, v)
    ensures var n := |l| - 1;
      IsMatch(a, b, l[n]) && Between(a, b, l[..n], x, y, l[n].x, l[n].y) && x <= l[n].x && y <= l[n].y
  {
    var n := |l| - 1;
    assert l[n] in l;
    forall e | e in l[..n] ensures e in l && Before(e, l[n]) {
      var i :| 0 <= i < n && l[i] == e;
    }
  }

  lemma UnitMatch(a: bytes, b: bytes, x: int, y: int)
    requires 0 <= x < |a| && 0 <= y < |b| && a[x] == b[y]
    ensures IsMatch(a, b, Diag(x, y, 1))
  {
    assert a[x..x + 1] == [a[x]] && b[y..y + 1] == [b[y]];
  }

  lemma PrependKeeps(a: bytes, b: bytes, l: Lcs, x: int, y: int, u: int, v: int)
    requires Between(a, b, l, x + 1, y + 1, u, v)
    requires 0 <= x < |a| && 0 <= y < |b| && a[x] == b[y] && x < u && y < v
    ensures Between(a, b, Prepend(l, x, y), x, y, u, v)
  {
    hide Between, IsMatch;
    if |l| > 0 && l[0].x == x + 1 && l[0].y == y + 1 {
      var d := l[0];
      SplitHead(a, b, l, x + 1, y + 1, u, v);
      MatchGrows(a, b, d);
      ConsKeeps(a, b, Diag(x, y, d.len + 1), l[1..], d.x + d.len, d.y + d.len, u, v);
    } else {
      UnitMatch(a, b, x, y);
      ConsKeeps(a, b, Diag(x, y, 1), l, x + 1, y + 1, u, v);
    }
  }

  lemma AppendKeeps(a: bytes, b: bytes, l: Lcs, x: int, y: int, u: int, v: int)
    requires Between(a, b, l, u, v, x, y)
    requires 0 <= x < |a| && 0 <= y < |b| && a[x] == b[y] && u <= x && v <= y
    ensures Between(a, b, Append(l, x, y), u, v, x + 1, y + 1)
  {
    hide Between, IsMatch;
    var n := |l| - 1;
    if |l| > 0 && l[n].x + l[n].len == x && l[n].y + l[n].len == y {
      SplitLast(a, b, l, u, v, x, y);
      MatchGrows(a, b, l[n]);
      SnocKeeps(a, b, l[n].(len := l[n].len + 1), l[..n], l[n].x, l[n].y, u, v);
    } else {
      UnitMatch(a, b, x, y);
      SnocKeeps(a, b, Diag(x, y, 1), l, x, y, u, v);
    }
  }
}
