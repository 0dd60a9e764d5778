/**
 internal/patch/lcs/old.go and sequence.go: the two-sided diff with a limit on
 its depth. The lower corner (lx, ly) of the rectangle is never assigned by the
 source, so it is the origin here.
 */
module EditGraphs {
  import opened Base
  import opened LcsCommon
  import opened Labels

  // ---- sequence.go ----

  method CommonPrefixLen(a: bytes, b: bytes) returns (i: nat)
    ensures i <= |a| && i <= |b| && a[..i] == b[..i]
    ensures i < |a| && i < |b| ==> a[i] != b[i]
  {
    var n := Min(|a|, |b|);
    i := 0;
    while i < n && a[i] == b[i]
      invariant i <= n && a[..i] == b[..i]
    {
      i := i + 1;
    }
  }

  /** The m-th byte from the end. */
  function FromEnd(s: bytes, m: int): byte
    requires 0 <= m < |s|
  {
    s[|s| - 1 - m]
  }

  ghost predicate SameTail(a: bytes, b: bytes, n: nat) {
    n <= |a| && n <= |b| && forall m | 0 <= m < n :: FromEnd(a, m) == FromEnd(b, m)
  }

  method CommonSuffixLen(a: bytes, b: bytes) returns (i: nat)
    ensures SameTail(a, b, i)
    ensures i < |a| && i < |b| ==> FromEnd(a, i) != FromEnd(b, i)
  {
    var n := Min(|a|, |b|);
    i := 0;
    while i < n && FromEnd(a, i) == FromEnd(b, i)
      invariant i <= n && SameTail(a, b, i)
    {
      i := i + 1;
    }
  }

  predicate InTriangle(d: int, k: int) {
    d >= 0 && -d <= k <= d
  }

  /** Diagonal k carries both a forward label of row df and a backward label of row db. */
  ghost predicate Shared(df: int, db: int, delta: int, k: int) {
    Slot(df, k) && Slot(db, k - delta)
  }

  /** On every shared diagonal the forward label is still short of the backward one. */
  ghost predicate NoMeet(vf: Label, vb: Label, df: int, db: int, delta: int) {
    HasRow(vf, df) && HasRow(vb, db) &&
    forall k | Shared(df, db, delta, k) :: Get(vb, db, k - delta) > Get(vf, df, k)
  }

  ghost predicate NoMeetBelow(vf: Label, vb: Label, df: int, db: int, delta: int, n: int) {
    HasRow(vf, df) && HasRow(vb, db) &&
    forall k | Shared(df, db, delta, k) && k < n :: Get(vb, db, k - delta) > Get(vf, df, k)
  }

  lemma OddNeverMeets(vf: Label, vb: Label, df: int, db: int, delta: int)
    requires HasRow(vf, df) && HasRow(vb, db) && (df + db + delta) % 2 != 0
    ensures NoMeet(vf, vb, df, db, delta)
  {
    forall k | Slot(df, k) ensures !Slot(db, k - delta) {}
  }

  lemma EvenRange(df: int, db: int, delta: int)
    requires (df + db + delta) % 2 == 0
    ensures var kmin := Max(-db + delta, -df); (df + kmin) % 2 == 0 && (db + kmin - delta) % 2 == 0
  {}

  lemma NoMeetStep(vf: Label, vb: Label, df: int, db: int, delta: int, k: int)
    requires NoMeetBelow(vf, vb, df, db, delta, k) && Shared(df, db, delta, k)
    requires Get(vb, db, k - delta) > Get(vf, df, k)
    ensures NoMeetBelow(vf, vb, df, db, delta, k + 2)
  {
    forall m | Shared(df, db, delta, m) && m < k + 2 ensures Get(vb, db, m - delta) > Get(vf, df, m) {
      assert m == k || m < k;
    }
  }

  /** All the checks of twosided before depth n came out negative. */
  ghost predicate NeverMet(vf: Label, vb: Label, n: int, delta: int) {
    forall e | 0 <= e < n :: NoMeet(vf, vb, e, e, delta) && NoMeet(vf, vb, e + 1, e, delta)
  }

  /** Two runs of diagonals separated by a point combine, in either textual order. */
  lemma Joined(a: bytes, b: bytes, lo: Lcs, hi: Lcs, x: int, y: int, u: int, v: int)
    requires Between(a, b, lo, 0, 0, x, y) && Between(a, b, hi, u, v, |a|, |b|)
    requires x <= u && y <= v
    ensures AllMatch(a, b, lo + hi) && Compatible(lo + hi)
    ensures AllMatch(a, b, hi + lo) && Compatible(hi + lo)
  {
    var l, r := lo + hi, hi + lo;
    forall i, j | 0 <= i < j < |l| ensures Before(l[i], l[j]) {
      if i < |lo| <= j { assert l[i] in lo && l[j] in hi; }
    }
    forall i, j | 0 <= i < j < |r| ensures Before(r[i], r[j]) || Before(r[j], r[i]) {
      if i < |hi| <= j { assert r[i] in hi && r[j] in lo; }
    }
  }

  method Sorted(a: bytes, b: bytes, l: Lcs) returns (r: Lcs)
    requires AllMatch(a, b, l) && Compatible(l)
    ensures Between(a, b, r, 0, 0, |a|, |b|) && multiset(r) == multiset(l)
  {
    r := SortX(l);
    SameElements(l, r);
    SortedCompatibleIsValid(l, r);
  }

  class EditGraph {
    const a: bytes
    const b: bytes
    const limit: int
    const delta: int
    var vf: Label
    var vb: Label
    var ux: int
    var uy: int

    ghost predicate Inv()
      reads this
    {
      && limit >= 1 && delta == |a| - |b| && Shape(vf) && Shape(vb)
      && 0 <= ux <= |a| && 0 <= uy <= |b|
    }

    ghost predicate Whole()
      reads this
    {
      ux == |a| && uy == |b|
    }

    ghost function Fwd(): (v: View)
      reads this
    {
      View(vf, false, a, b, ux, uy)
    }

    ghost function Bwd(): (v: View)
      reads this
    {
      View(vb, true, a, b, |a|, |b|)
    }

    /** `pool` stands for the recycled label tables, whose contents are arbitrary. */
    constructor (a: bytes, b: bytes, limit: int, poolF: Label, poolB: Label)
      requires limit >= 1 && Shape(poolF) && Shape(poolB)
      ensures Inv() && Whole() && this.a == a && this.b == b && this.limit == limit
    {
      this.a, this.b, this.limit := a, b, limit;
      this.vf, this.vb := poolF, poolB;
      this.ux, this.uy, this.delta := |a|, |b|, |a| - |b|;
    }

    // ---- forward ----

    /** Goes up diagonal k from relx as far as the bytes match inside the rectangle. */
    method LookForward(k: int, relx: int) returns (x: int)
      requires Inv() && 0 <= relx && 0 <= relx - k
      ensures Snake(Fwd(), k, relx, x) && !Cell(Fwd(), x, k)
    {
      x := relx;
      var y := relx - k;
      if x < ux && y < uy {
        var n := CommonPrefixLen(a[x..ux], b[y..uy]);
        forall i | relx <= i < relx + n ensures Cell(Fwd(), i, k) {
          assert a[x..ux][..n][i - relx] == b[y..uy][..n][i - relx];
        }
        x := x + n;
      }
    }

    /** Labels slot (d, k) with the end of the snake from relx; `js` are the columns already done. */
    method SetForward(d: int, k: int, relx: int, ghost js: set<int>)
      requires Inv() && Slot(d, k) && 0 <= relx && 0 <= relx - k && Steps(Fwd(), d, js)
      requires d == 0 ==> relx == 0
      requires d >= 1 ==> Frontier(Fwd(), d - 1) && Snake(Fwd(), k, Start(Fwd(), d, (d + k) / 2), relx)
      modifies `vf
      ensures HasRow(old(vf), d) ==> KeepsColumns(old(vf), vf, d, (d + k) / 2)
      ensures Inv() && KeepsRows(old(vf), vf, d) && Steps(Fwd(), d, js + {(d + k) / 2})
      ensures d >= 1 ==> Frontier(Fwd(), d - 1)
    {
      var x := LookForward(k, relx);
      ghost var v := Fwd();
      ghost var s := if d == 0 then 0 else Start(v, d, (d + k) / 2);
      SnakeJoin(v, k, s, relx, x);
      vf := Set(vf, d, k, x);
      SnakeSame(v, Fwd(), k, s, x);
      Written(v, Fwd(), d, (d + k) / 2, js);
    }

    /** One label of row D + 1: from row D by a horizontal or a vertical edit, then a snake. */
    method ExtendForward(D: int, k: int, ghost js: set<int>)
      requires Inv() && 0 <= D && Slot(D + 1, k) && Frontier(Fwd(), D) && Steps(Fwd(), D + 1, js)
      modifies `vf
      ensures HasRow(old(vf), D + 1) ==> KeepsColumns(old(vf), vf, D + 1, (D + 1 + k) / 2)
      ensures Inv() && KeepsRows(old(vf), vf, D + 1) && Frontier(Fwd(), D)
      ensures Steps(Fwd(), D + 1, js + {(D + 1 + k) / 2})
    {
      ghost var j := (D + 1 + k) / 2;
      ghost var v := Fwd();
      PredecessorsNonNegative(v, D, j);
      assert HasRow(vf, D);
      hide Frontier, StepOk, Steps, Cell, KeepsRows, KeepsColumns;
      var relx: int;
      if k == -(D + 1) {
        relx := Get(vf, D, -D);
      } else if k == D + 1 {
        relx := Get(vf, D, D) + 1;
      } else {
        var lookv := LookForward(k, Get(vf, D, k - 1) + 1);
        var lookh := LookForward(k, Get(vf, D, k + 1));
        assert At(v, D, j - 1) == Get(vf, D, k - 1) && At(v, D, j) == Get(vf, D, k + 1);
        if lookv > lookh {
          SnakeTail(v, k, Get(vf, D, k - 1) + 1, Start(v, D + 1, j), lookv);
          relx := lookv;
        } else {
          SnakeTail(v, k, Get(vf, D, k + 1), Start(v, D + 1, j), lookh);
          relx := lookh;
        }
      }
      SetForward(D + 1, k, relx, js);
    }

    /** The forward pass of twosided from depth D to depth D + 1. */
    method ForwardPass(D: int)
      requires Inv() && 0 <= D && Frontier(Fwd(), D)
      modifies `vf
      ensures Inv() && Frontier(Fwd(), D + 1) && KeepsRows(old(vf), vf, D + 1)
    {
      hide Frontier, StepOk, Steps;
      StepsNone(Fwd(), D + 1);
      ExtendForward(D, -(D + 1), {});
      assert {} + {(D + 1 - (D + 1)) / 2} == {0};
      ExtendForward(D, D + 1, {0});
      assert {0} + {(D + 1 + (D + 1)) / 2} == {0, D + 1};
      var k := -D + 1;
      ghost var js := {0, D + 1};
      while k <= D - 1
        invariant -D + 1 <= k <= D + 1 && Slot(D + 1, k)
        invariant Inv() && Frontier(Fwd(), D) && KeepsRows(old(vf), vf, D + 1)
        invariant Steps(Fwd(), D + 1, js)
        invariant {0, D + 1} <= js && forall j | 0 <= j < (D + 1 + k) / 2 :: j in js
      {
        ExtendForward(D, k, js);
        js := js + {(D + 1 + k) / 2};
        k := k + 2;
      }
      RowComplete(Fwd(), D + 1, js);
    }

    /** Backtracks from label (D0, k0) to the origin, collecting the diagonals on the way. */
    method ForwardLcs(D0: int, k0: int) returns (ans: Lcs)
      requires Inv() && Slot(D0, k0) && PointOk(Fwd(), D0, (D0 + k0) / 2)
      ensures Between(a, b, ans, 0, 0, Get(vf, D0, k0), Get(vf, D0, k0) - k0)
    {
      var x0 := Get(vf, D0, k0);
      var c := Cursor(D0, k0, x0, []);
      LabelOnSnake(Fwd(), D0, (D0 + k0) / 2);
      while c.x != 0 || c.x - c.k != 0
        invariant Trail(Fwd(), c, x0, x0 - k0)
        decreases c.Gap()
      {
        ForwardStepKeeps(Fwd(), c, x0, x0 - k0);
        c := ForwardStep(vf, c);
      }
      ans := c.ans;
    }

    // ---- backward ----

    /** Goes down diagonal k + delta from relx as far as the bytes match. */
    method LookBackward(k: int, relx: int) returns (x: int)
      requires Inv() && relx <= |a| && relx - (k + delta) <= |b|
      ensures Snake(Bwd(), -k, |a| - relx, |a| - x) && !Cell(Bwd(), |a| - x, -k)
    {
      x := relx;
      var y := relx - (k + delta);
      if x > 0 && y > 0 {
        var n := CommonSuffixLen(a[..x], b[..y]);
        SuffixIsSnake(Bwd(), -k, x, y, n);
        x := x - n;
      }
    }

    method SetBackward(d: int, k: int, relx: int, ghost js: set<int>)
      requires Inv() && Slot(d, k) && relx <= |a| && relx - (k + delta) <= |b| && Steps(Bwd(), d, js)
      requires d == 0 ==> relx == |a|
      requires d >= 1 ==> Frontier(Bwd(), d - 1) && Snake(Bwd(), -k, Start(Bwd(), d, (d - k) / 2), |a| - relx)
      modifies `vb
      ensures Inv() && KeepsRows(old(vb), vb, d) && Steps(Bwd(), d, js + {(d - k) / 2})
      ensures d >= 1 ==> Frontier(Bwd(), d - 1)
    {
      var x := LookBackward(k, relx);
      ghost var v := Bwd();
      ghost var s := if d == 0 then 0 else Start(v, d, (d - k) / 2);
      SnakeJoin(v, -k, s, |a| - relx, |a| - x);
      vb := Set(vb, d, k, x);
      SnakeSame(v, Bwd(), -k, s, |a| - x);
      Written(v, Bwd(), d, (d - k) / 2, js);
    }

    method ExtendBackward(D: int, k: int, ghost js: set<int>)
      requires Inv() && 0 <= D && Slot(D + 1, k) && Frontier(Bwd(), D) && Steps(Bwd(), D + 1, js)
      modifies `vb
      ensures Inv() && KeepsRows(old(vb), vb, D + 1) && Frontier(Bwd(), D)
      ensures Steps(Bwd(), D + 1, js + {(D + 1 - k) / 2})
    {
      ghost var j := (D + 1 - k) / 2;
      ghost var v := Bwd();
      PredecessorsNonNegative(v, D, j);
      assert HasRow(vb, D);
      hide Frontier, StepOk, Steps, Cell, KeepsRows, KeepsColumns;
      var relx: int;
      if k == -(D + 1) {
        relx := Get(vb, D, -D) - 1;
      } else if k == D + 1 {
        relx := Get(vb, D, D);
      } else {
        assert At(v, D, j) == |a| - Get(vb, D, k - 1) && At(v, D, j - 1) == |a| - Get(vb, D, k + 1);
        var lookv := LookBackward(k, Get(vb, D, k - 1));
        var lookh := LookBackward(k, Get(vb, D, k + 1) - 1);
        if lookv < lookh {
          SnakeTail(v, -k, |a| - Get(vb, D, k - 1), Start(v, D + 1, j), |a| - lookv);
          relx := lookv;
        } else {
          SnakeTail(v, -k, |a| - (Get(vb, D, k + 1) - 1), Start(v, D + 1, j), |a| - lookh);
          relx := lookh;
        }
      }
      SetBackward(D + 1, k, relx, js);
    }

    /** The backward pass of twosided from depth D to depth D + 1. */
    method BackwardPass(D: int)
      requires Inv() && 0 <= D && Frontier(Bwd(), D)
      modifies `vb
      ensures Inv() && Frontier(Bwd(), D + 1) && KeepsRows(old(vb), vb, D + 1)
    {
      hide Frontier, StepOk, Steps;
      StepsNone(Bwd(), D + 1);
      ExtendBackward(D, -(D + 1), {});
      assert {} + {(D + 1 + (D + 1)) / 2} == {D + 1};
      ExtendBackward(D, D + 1, {D + 1});
      assert {D + 1} + {(D + 1 - (D + 1)) / 2} == {0, D + 1};
      var k := -D + 1;
      ghost var js := {0, D + 1};
      while k <= D - 1
        invariant -D + 1 <= k <= D + 1 && Slot(D + 1, k)
        invariant Inv() && Frontier(Bwd(), D) && KeepsRows(old(vb), vb, D + 1)
        invariant Steps(Bwd(), D + 1, js)
        invariant {0, D + 1} <= js && forall j | (D + 1 - k) / 2 < j <= D + 1 :: j in js
      {
        ExtendBackward(D, k, js);
        js := js + {(D + 1 - k) / 2};
        k := k + 2;
      }
      RowComplete(Bwd(), D + 1, js);
    }

    /** Backtracks from label (D0, k0) to the far corner, collecting the diagonals on the way. */
    method BackwardLcs(D0: int, k0: int) returns (ans: Lcs)
      requires Inv() && Whole() && Slot(D0, k0) && PointOk(Bwd(), D0, (D0 - k0) / 2)
      ensures Between(a, b, ans, Get(vb, D0, k0), Get(vb, D0, k0) - (k0 + delta), |a|, |b|)
    {
      var x0 := Get(vb, D0, k0);
      var c := Cursor(D0, k0, x0, []);
      LabelOnSnake(Bwd(), D0, (D0 - k0) / 2);
      while c.x != ux || c.x - (c.k + delta) != uy
        invariant BackTrail(Bwd(), delta, c, x0, x0 - (k0 + delta))
        decreases ux - c.x + (uy - (c.x - (c.k + delta)))
      {
        BackwardStepKeeps(Bwd(), delta, c, x0, x0 - (k0 + delta));
        c := BackwardStep(vb, delta, c);
      }
      ans := c.ans;
    }

    // ---- one-sided search ----

    /** Decides whether label (D, k) sits in the far corner of the rectangle. */
    method FDone(D: int, k: int) returns (done: bool, ans: Lcs)
      requires Inv() && Slot(D, k) && PointOk(Fwd(), D, (D + k) / 2)
      ensures done <==> AtCorner(Fwd(), D, (D + k) / 2)
      ensures done ==> Between(a, b, ans, 0, 0, ux, uy)
    {
      var x := Get(vf, D, k);
      var y := x - k;
      if x == ux && y == uy {
        ans := ForwardLcs(D, k);
        return true, ans;
      }
      return false, [];
    }

    /** The forward search of the rectangle, up to the limit on depth. */
    method Forward() returns (ans: Lcs)
      requires Inv()
      modifies `vf
      ensures Inv() && Between(a, b, ans, 0, 0, ux, uy)
    {
      SetForward(0, 0, 0, {});
      var ok: bool;
      ok, ans := FDone(0, 0);
      if ok { return; }
      RowComplete(Fwd(), 0, {0});
      for D := 0 to limit
        invariant Inv() && Frontier(Fwd(), D) && NoCorner(Fwd(), D)
      {
        ok, ans := ForwardRow(D);
        if ok { return; }
      }
      // The depth limit was reached: use the label inside the rectangle with the largest x + y.
      ghost var hit, d0, j0 := SomeInside(Fwd(), limit);
      var kmax := LargestInside(j0);
      ans := ForwardLcs(limit, kmax);
      Widen(a, b, ans, 0, 0, Get(vf, limit, kmax), Get(vf, limit, kmax) - kmax, 0, 0, ux, uy);
    }

    /** Row D + 1 of the forward search, stopping as soon as the corner is reached. */
    method ForwardRow(D: int) returns (ok: bool, ans: Lcs)
      requires Inv() && 0 <= D && Frontier(Fwd(), D) && NoCorner(Fwd(), D)
      modifies `vf
      ensures Inv()
      ensures ok ==> Between(a, b, ans, 0, 0, ux, uy)
      ensures !ok ==> Frontier(Fwd(), D + 1) && NoCorner(Fwd(), D + 1)
    {
      ghost var v := Fwd();
      StepsNone(v, D + 1);
      CornerlessNone(v, D + 1);
      hide Frontier, Steps, Cornerless, Between, StepOk, NoCorner;
      ok, ans := ForwardSlot(D, -(D + 1), {});
      if ok { return; }
      assert {} + {(D + 1 - (D + 1)) / 2} == {0};
      ok, ans := ForwardSlot(D, D + 1, {0});
      if ok { return; }
      assert {0} + {(D + 1 + (D + 1)) / 2} == {0, D + 1};
      ghost var js;
      ok, ans, js := ForwardInterior(D);
      if ok { return; }
      RowComplete(Fwd(), D + 1, js);
      FrontierRows(v, D);
      FrontierRows(Fwd(), D + 1);
      RowCornerless(v, Fwd(), D + 1, js);
      ok := false;
    }

    /** The labels of row D + 1 between its two ends. */
    method ForwardInterior(D: int) returns (ok: bool, ans: Lcs, ghost js: set<int>)
      requires Inv() && 0 <= D && Frontier(Fwd(), D) && Steps(Fwd(), D + 1, {0, D + 1})
      requires Cornerless(Fwd(), D + 1, {0, D + 1})
      modifies `vf
      ensures Inv() && Frontier(Fwd(), D) && KeepsRows(old(vf), vf, D + 1)
      ensures ok ==> Between(a, b, ans, 0, 0, ux, uy)
      ensures !ok ==> Steps(Fwd(), D + 1, js) && Cornerless(Fwd(), D + 1, js)
      ensures !ok ==> forall j | 0 <= j <= D + 1 :: j in js
    {
      hide Frontier, Steps, Cornerless, Between, StepOk;
      var k := -D + 1;
      ghost var j := 1;
      js := {0, D + 1};
      ok, ans := false, [];
      while k <= D - 1
        invariant 1 <= j <= D + 1 && k == 2 * j - (D + 1)
        invariant Inv() && Frontier(Fwd(), D) && KeepsRows(old(vf), vf, D + 1)
        invariant Steps(Fwd(), D + 1, js) && Cornerless(Fwd(), D + 1, js)
        invariant !ok && forall i :: i in js <==> i == D + 1 || 0 <= i < j
      {
        ok, ans := ForwardSlot(D, k, js);
        if ok { return; }
        js := js + {(D + 1 + k) / 2};
        k, j := k + 2, j + 1;
      }
    }

    /** One label of row D + 1, and the check whether it reached the corner. */
    method ForwardSlot(D: int, k: int, ghost js: set<int>) returns (ok: bool, ans: Lcs)
      requires Inv() && 0 <= D && Slot(D + 1, k) && Frontier(Fwd(), D) && Steps(Fwd(), D + 1, js)
      requires (D + 1 + k) / 2 !in js && Cornerless(Fwd(), D + 1, js)
      modifies `vf
      ensures Inv() && KeepsRows(old(vf), vf, D + 1) && Frontier(Fwd(), D)
      ensures Steps(Fwd(), D + 1, js + {(D + 1 + k) / 2})
      ensures ok ==> Between(a, b, ans, 0, 0, ux, uy)
      ensures !ok ==> Cornerless(Fwd(), D + 1, js + {(D + 1 + k) / 2})
    {
      hide Frontier, Steps, Cornerless, Between, StepOk, PointOk, KeepsRows, KeepsColumns;
      ghost var v := Fwd();
      ghost var j := (D + 1 + k) / 2;
      ExtendForward(D, k, js);
      StepsPoint(Fwd(), D + 1, js + {j}, j);
      StepsHaveRow(Fwd(), D + 1, js + {j});
      ok, ans := FDone(D + 1, k);
      if !ok {
        CornerlessKept(v, Fwd(), D + 1, j, js);
      }
    }

    // ---- two-sided search ----

    /** Does Myers' lemma apply: do the two searches meet on some diagonal? */
    method TwoDone(df: int, db: int) returns (got: int, done: bool)
      requires Inv() && Whole() && 0 <= df && 0 <= db && Frontier(Fwd(), df) && Frontier(Bwd(), db)
      ensures done ==> Shared(df, db, delta, got) && Get(vb, db, got - delta) <= Get(vf, df, got)
      ensures !done ==> NoMeet(vf, vb, df, db, delta)
    {
      if (df + db + delta) % 2 != 0 {
        OddNeverMeets(vf, vb, df, db, delta);
        return 0, false;
      }
      hide NoMeet, Frontier;
      var kmin := Max(-db + delta, -df);
      var kmax := Min(db + delta, df);
      EvenRange(df, db, delta);
      got, done := FirstMeeting(df, db, kmin, kmax);
    }

    method FirstMeeting(df: int, db: int, kmin: int, kmax: int) returns (got: int, done: bool)
      requires Inv() && Whole() && 0 <= df && 0 <= db && Frontier(Fwd(), df) && Frontier(Bwd(), db)
      requires kmin == Max(-db + delta, -df) && kmax == Min(db + delta, df)
      requires (df + kmin) % 2 == 0 && (db + kmin - delta) % 2 == 0
      ensures done ==> Shared(df, db, delta, got) && Get(vb, db, got - delta) <= Get(vf, df, got)
      ensures !done ==> NoMeet(vf, vb, df, db, delta)
    {
      var k := kmin;
      ghost var i := 0;
      assert HasRow(vf, df) && HasRow(vb, db);
      while k <= kmax
        invariant 0 <= i && k == kmin + 2 * i
        invariant NoMeetBelow(vf, vb, df, db, delta, k)
      {
        assert Shared(df, db, delta, k);
        if Get(vb, db, k - delta) <= Get(vf, df, k) {
          got := PreferMeeting(df, db, k, kmax);
          return got, true;
        }
        NoMeetStep(vf, vb, df, db, delta, k);
        k, i := k + 2, i + 1;
      }
      return 0, false;
    }

    /** From the first meeting diagonal on, looks for one whose paths need no further search. */
    method PreferMeeting(df: int, db: int, k: int, kmax: int) returns (got: int)
      requires Inv() && Whole() && Frontier(Fwd(), df) && Frontier(Bwd(), db)
      requires Shared(df, db, delta, k) && Get(vb, db, k - delta) <= Get(vf, df, k)
      requires kmax <= df && kmax <= db + delta
      ensures Shared(df, db, delta, got) && Get(vb, db, got - delta) <= Get(vf, df, got)
    {
      var l := k;
      ghost var i := 0;
      assert HasRow(vf, df) && HasRow(vb, db);
      while l <= kmax
        invariant k <= l && l == k + 2 * i
      {
        var x := Get(vf, df, l);
        var y := x - l;
        var u := Get(vb, db, l - delta);
        var v := u - l;
        if x == u || u == 0 || v == 0 || y == uy || x == ux {
          PointBounds(Fwd(), df, l);
          BackPointBounds(Bwd(), db, l - delta, delta);
          return l;
        }
        l, i := l + 2, i + 1;
      }
      return k;
    }

    /** Puts the two searches together at diagonal kf. */
    method TwoLcs(df: int, db: int, kf: int) returns (ans: Lcs)
      requires Inv() && Whole() && 0 <= db && (df == db || df == db + 1)
      requires Frontier(Fwd(), df) && Frontier(Bwd(), db)
      requires Shared(df, db, delta, kf) && NeverMet(vf, vb, db, delta)
      modifies this
      ensures Between(a, b, ans, 0, 0, |a|, |b|)
    {
      var x := Get(vf, df, kf);
      var y := x - kf;
      var kb := kf - delta;
      var u := Get(vb, db, kb);
      var v := u - kf;
      if x == u {
        ans := Combine(df, kf, db, kb);
        return;
      }
      if u > 0 && InTriangle(df - 1, u - 1 - v) && Get(vf, df - 1, u - 1 - v) == u - 1 {
        ans := Combine(df - 1, u - 1 - v, db, kb);
        return;
      }
      if v > 0 && InTriangle(df - 1, u - (v - 1)) && Get(vf, df - 1, u - (v - 1)) == u {
        ans := Combine(df - 1, u - (v - 1), db, kb);
        return;
      }
      if u == 0 || v == 0 || x == ux || y == uy {
        if u == 0 || v == 0 {
          ans := BackwardLcs(db, kb);
        } else {
          ans := ForwardLcs(df, kf);
        }
        WholeBetween(a, b, ans);
        return;
      }
      ans := TwoLcsRest(df, db, kf);
    }

    /** The remaining cases of twolcs: an edge to the backward path, or a search below it. */
    method TwoLcsRest(df: int, db: int, kf: int) returns (ans: Lcs)
      requires Inv() && Whole() && 0 <= db && (df == db || df == db + 1)
      requires Frontier(Fwd(), df) && Frontier(Bwd(), db)
      requires Shared(df, db, delta, kf) && NeverMet(vf, vb, db, delta)
      modifies this
      ensures Between(a, b, ans, 0, 0, |a|, |b|)
    {
      hide Frontier, NeverMet, Between;
      FrontierRows(Fwd(), df);
      FrontierRows(Bwd(), db);
      FrontierPrefix(Bwd(), db, db - 1);
      var x := Get(vf, df, kf);
      var y := x - kf;
      var kb := kf - delta;
      if x + 1 <= ux && InTriangle(db - 1, x + 1 - y - delta) && Get(vb, db - 1, x + 1 - y - delta) == x + 1 {
        ans := Combine(df, kf, db - 1, kb + 1);
        return;
      }
      if y + 1 <= uy && InTriangle(db - 1, x - (y + 1) - delta) && Get(vb, db - 1, x - (y + 1) - delta) == x {
        ans := Combine(df, kf, db - 1, kb - 1);
        return;
      }
      MeetingPointInside(Fwd(), Bwd(), df, db, delta, kf);
      ans := SearchBelow(db, kb);
    }

    /** Searches the rectangle below the backward label (db, kb) forward from the origin. */
    method SearchBelow(db: int, kb: int) returns (ans: Lcs)
      requires Inv() && Whole() && Slot(db, kb) && Frontier(Bwd(), db)
      requires 0 <= Get(vb, db, kb) <= |a| && 0 <= Get(vb, db, kb) - (kb + delta) <= |b|
      modifies this
      ensures Between(a, b, ans, 0, 0, |a|, |b|)
    {
      var u := Get(vb, db, kb);
      var v := u - (kb + delta);
      var hi := BackwardLcs(db, kb);
      var oldx, oldy := ux, uy;
      ux := u;
      uy := v;
      var lo := Forward();
      ux, uy := oldx, oldy;
      Joined(a, b, lo, hi, u, v, u, v);
      ans := Sorted(a, b, hi + lo);
    }

    /** A forward path to label (df, kf) followed by a backward path from label (db, kb). */
    method Combine(df: int, kf: int, db: int, kb: int) returns (ans: Lcs)
      requires Inv() && Whole() && Slot(df, kf) && Slot(db, kb)
      requires Frontier(Fwd(), df) && Frontier(Bwd(), db)
      requires Get(vf, df, kf) <= Get(vb, db, kb)
      requires Get(vf, df, kf) - kf <= Get(vb, db, kb) - (kb + delta)
      ensures Between(a, b, ans, 0, 0, |a|, |b|)
    {
      var lo := ForwardLcs(df, kf);
      var hi := BackwardLcs(db, kb);
      Joined(a, b, lo, hi, Get(vf, df, kf), Get(vf, df, kf) - kf, Get(vb, db, kb), Get(vb, db, kb) - (kb + delta));
      ans := Sorted(a, b, lo + hi);
    }

    /** The whole search: stops when the two sides meet, or repairs what both found at the limit. */
    method TwoSided() returns (ans: Lcs)
      requires Inv() && Whole()
      modifies this
      ensures Between(a, b, ans, 0, 0, |a|, |b|)
    {
      hide Between;
      SetForward(0, 0, 0, {});
      RowComplete(Fwd(), 0, {0});
      SetBackward(0, 0, ux, {});
      RowComplete(Bwd(), 0, {0});
      for D := 0 to limit
        invariant Inv() && Whole() && Frontier(Fwd(), D) && Frontier(Bwd(), D)
        invariant NeverMet(vf, vb, D, delta)
      {
        var got, ok := TwoDone(D, D);
        if ok {
          ans := TwoLcs(D, D, got);
          return;
        }
        ghost var t := vf;
        ForwardPass(D);
        NeverMetKept(t, vf, vb, vb, D, delta);
        got, ok := TwoDone(D + 1, D);
        if ok {
          ans := TwoLcs(D + 1, D, got);
          return;
        }
        t := vb;
        BackwardPass(D);
        NeverMetKept(vf, vf, t, vb, D + 1, delta);
      }
      ans := AtLimit();
    }

    /** Depth limit reached: a forward and a backward partial result, repaired where they conflict. */
    method AtLimit() returns (ans: Lcs)
      requires Inv() && Whole() && Frontier(Fwd(), limit) && Frontier(Bwd(), limit)
      requires NeverMet(vf, vb, limit, delta)
      ensures Between(a, b, ans, 0, 0, |a|, |b|)
    {
      var kmax := FurthestForward();
      if kmax < -limit {
        assert false; // the panic "no forward paths"
      }
      var lo := ForwardLcs(limit, kmax);
      var diagmin := 0x200_0000; // 1 << 25
      var k, i := -limit, 0;
      while k <= limit
        invariant 0 <= i && k == -limit + 2 * i
        invariant Slot(limit, kmax)
      {
        var x := Get(vb, limit, k);
        var y := x - (k + delta);
        if x + y < diagmin && x >= 0 && y >= 0 {
          diagmin, kmax := x + y, k;
        }
        k, i := k + 2, i + 1;
      }
      if kmax < -limit {
        assert false; // the panic "no backward paths"
      }
      var hi := BackwardLcs(limit, kmax);
      ans := Fix(a, b, lo + hi);
      WholeBetween(a, b, ans);
    }

    /** The diagonal of the label with the largest x + y among those inside the rectangle. */
    method FurthestForward() returns (kmax: int)
      requires Inv() && Whole() && Frontier(Fwd(), limit) && Frontier(Bwd(), limit)
      requires NeverMet(vf, vb, limit, delta)
      ensures Slot(limit, kmax) && Inside(Fwd(), limit, (limit + kmax) / 2)
    {
      ghost var hit, d0, j0 := SomeInside(Fwd(), limit);
      if hit { ForwardMissedCorner(Fwd(), Bwd(), limit, delta, d0, j0); }
      kmax := LargestInside(j0);
    }

    method LargestInside(ghost j0: int) returns (kmax: int)
      requires Inv() && Frontier(Fwd(), limit) && 0 <= j0 <= limit && Inside(Fwd(), limit, j0)
      ensures Slot(limit, kmax) && Inside(Fwd(), limit, (limit + kmax) / 2)
      ensures forall j | 0 <= j <= limit && Inside(Fwd(), limit, j) ::
        At(Fwd(), limit, j) - j <= At(Fwd(), limit, (limit + kmax) / 2) - (limit + kmax) / 2
    {
      kmax := -limit - 1;
      var diagmax := -1;
      var k, i := -limit, 0;
      NonNegative(Fwd(), limit, j0);
      assert HasRow(vf, limit);
      hide Frontier;
      while k <= limit
        invariant 0 <= i && k == -limit + 2 * i && -1 <= diagmax
        invariant diagmax >= 0 ==>
          && Slot(limit, kmax) && Inside(Fwd(), limit, (limit + kmax) / 2)
          && diagmax == Get(vf, limit, kmax) + (Get(vf, limit, kmax) - kmax)
        invariant forall j | 0 <= j < i && j <= limit && Inside(Fwd(), limit, j) ::
          At(Fwd(), limit, j) + (At(Fwd(), limit, j) - (2 * j - limit)) <= diagmax
        invariant j0 < i ==> diagmax >= 0
      {
        var x := Get(vf, limit, k);
        var y := x - k;
        if x + y > diagmax && x <= ux && y <= uy {
          diagmax, kmax := x + y, k;
        }
        k, i := k + 2, i + 1;
      }
    }
  }

  lemma NeverMetKept(vf: Label, vf': Label, vb: Label, vb': Label, n: int, delta: int)
    requires Rows(vf, n) && Rows(vb, n - 1) && NeverMet(vf, vb, n, delta)
    requires |vf| <= |vf'| && forall d | 0 <= d <= n && HasRow(vf, d) :: vf'[d] == vf[d]
    requires |vb| <= |vb'| && forall d | 0 <= d < n && HasRow(vb, d) :: vb'[d] == vb[d]
    ensures NeverMet(vf', vb', n, delta)
  {
    forall e | 0 <= e < n
      ensures NoMeet(vf', vb', e, e, delta) && NoMeet(vf', vb', e + 1, e, delta)
    {
      NoMeetKept(vf, vf', vb, vb', e, e, delta);
      NoMeetKept(vf, vf', vb, vb', e + 1, e, delta);
    }
  }

  lemma NoMeetKept(vf: Label, vf': Label, vb: Label, vb': Label, df: int, db: int, delta: int)
    requires NoMeet(vf, vb, df, db, delta) && df < |vf'| && db < |vb'|
    requires vf'[df] == vf[df] && vb'[db] == vb[db]
    ensures NoMeet(vf', vb', df, db, delta)
  {
    forall k | Shared(df, db, delta, k) ensures Get(vb', db, k - delta) > Get(vf', df, k) {
      assert Get(vb, db, k - delta) > Get(vf, df, k);
    }
  }

  lemma PointBounds(v: View, d: int, k: int)
    requires !v.back && Rect(v) && Slot(d, k) && Frontier(v, d)
    ensures Get(v.t, d, k) >= 0 && Get(v.t, d, k) - k >= 0
  {
    NonNegative(v, d, (d + k) / 2);
  }

  lemma BackPointBounds(v: View, d: int, k: int, delta: int)
    requires v.back && Rect(v) && Slot(d, k) && Frontier(v, d) && delta == v.ux - v.uy
    ensures Get(v.t, d, k) <= v.ux && Get(v.t, d, k) - (k + delta) <= v.uy
  {
    NonNegative(v, d, (d - k) / 2);
  }

  lemma WholeBetween(a: bytes, b: bytes, l: Lcs)
    requires AllMatch(a, b, l) && Chain(l)
    ensures Between(a, b, l, 0, 0, |a|, |b|)
  {}

  /** The two views of one search over whole strings. */
  ghost predicate Opposed(v: View, w: View, delta: int) {
    && !v.back && w.back && v.a == w.a && v.b == w.b && delta == |v.a| - |v.b|
    && v.ux == |v.a| == w.ux && v.uy == |v.b| == w.uy
  }

  lemma StillApart(v: View, w: View, n: int, delta: int, df: int, db: int, k: int)
    requires NeverMet(v.t, w.t, n, delta) && 0 <= db < n && (df == db || df == db + 1)
    requires Shared(df, db, delta, k)
    ensures HasRow(v.t, df) && HasRow(w.t, db) && Get(w.t, db, k - delta) > Get(v.t, df, k)
  {
    assert NoMeet(v.t, w.t, db, db, delta) && NoMeet(v.t, w.t, db + 1, db, delta);
  }

  /** Until the searches have met, neither has reached the far corner. */
  lemma BackwardMissedOrigin(v: View, w: View, df: int, db: int, delta: int, d: int, j: int)
    requires Opposed(v, w, delta) && 0 <= db && (df == db || df == db + 1) && (df + db + delta) % 2 == 0
    requires Frontier(v, df) && Frontier(w, db) && NeverMet(v.t, w.t, db, delta)
    requires 0 <= j <= d < db
    ensures !AtCorner(w, d, j)
  {
    var c := df - db;
    if d - 2 * j == -delta {
      PointBounds(v, d + c, 0);
      StillApart(v, w, db, delta, d + c, d, 0);
    }
  }

  lemma ForwardMissedCorner(v: View, w: View, n: int, delta: int, d: int, j: int)
    requires Opposed(v, w, delta) && 0 <= n && Frontier(v, n) && Frontier(w, n) && NeverMet(v.t, w.t, n, delta)
    requires 0 <= j <= d < n
    ensures !AtCorner(v, d, j)
  {
    if 2 * j - d == delta {
      var db := if delta % 2 == 0 then d else d - 1;
      BackPointBounds(w, db, 0, delta);
      StillApart(v, w, n, delta, d, db, delta);
    }
  }

  lemma MeetingNotLeft(v: View, w: View, df: int, db: int, delta: int, kf: int)
    requires Opposed(v, w, delta) && 0 <= db && (df == db || df == db + 1)
    requires Frontier(v, df) && Frontier(w, db) && NeverMet(v.t, w.t, db, delta)
    requires Shared(df, db, delta, kf) && kf < df
    ensures Get(w.t, db, kf - delta) >= 0
  {
    var j := (db - (kf - delta)) / 2;
    if Get(w.t, db, kf - delta) < 0 {
      RightHasLeft(w, db, j);
      FrontierPrefix(v, df, df - 1);
      hide Frontier, NeverMet;
      PointBounds(v, df - 1, kf + 1);
      StillApart(v, w, db, delta, df - 1, db - 1, kf + 1);
    }
  }

  lemma MeetingNotBelow(v: View, w: View, df: int, db: int, delta: int, kf: int)
    requires Opposed(v, w, delta) && 0 <= db && (df == db || df == db + 1)
    requires Frontier(v, df) && Frontier(w, db) && NeverMet(v.t, w.t, db, delta)
    requires Shared(df, db, delta, kf) && -df < kf
    ensures Get(w.t, db, kf - delta) - kf >= 0
  {
    var j := (db - (kf - delta)) / 2;
    if Get(w.t, db, kf - delta) - kf < 0 {
      TopHasLower(w, db, j);
      FrontierPrefix(v, df, df - 1);
      hide Frontier, NeverMet;
      PointBounds(v, df - 1, kf - 1);
      StillApart(v, w, db, delta, df - 1, db - 1, kf - 1);
    }
  }

  /** The first meeting point has no negative coordinate, so the last resort searches a real rectangle. */
  lemma MeetingPointInside(v: View, w: View, df: int, db: int, delta: int, kf: int)
    requires Opposed(v, w, delta) && 0 <= db && (df == db || df == db + 1)
    requires Frontier(v, df) && Frontier(w, db) && NeverMet(v.t, w.t, db, delta)
    requires Shared(df, db, delta, kf)
    ensures var u := Get(w.t, db, kf - delta); 0 <= u <= |v.a| && 0 <= u - kf <= |v.b|
  {
    var u := Get(w.t, db, kf - delta);
    BackPointBounds(w, db, kf - delta, delta);
    if u < 0 && u - kf < 0 {
      var d0, j0 := CornerWasHit(w, db, (db - (kf - delta)) / 2);
      BackwardMissedOrigin(v, w, df, db, delta, d0, j0);
    } else if u < 0 {
      MeetingNotLeft(v, w, df, db, delta, kf);
    } else if u - kf < 0 {
      MeetingNotBelow(v, w, df, db, delta, kf);
    }
  }

  /** The variables of a backtracking loop. */
  datatype Cursor = Cursor(D: int, k: int, x: int, ans: Lcs) {
    function Gap(): int { x + (x - k) }
  }

  /** One turn of the loop in forwardlcs. */
  function ForwardStep(vf: Label, c: Cursor): Cursor
    requires c.D > 0 ==> HasRow(vf, c.D - 1)
  {
    if InTriangle(c.D - 1, c.k - 1) && c.x - 1 == Get(vf, c.D - 1, c.k - 1) then
      c.(D := c.D - 1, k := c.k - 1, x := c.x - 1)
    else if InTriangle(c.D - 1, c.k + 1) && c.x == Get(vf, c.D - 1, c.k + 1) then
      c.(D := c.D - 1, k := c.k + 1)
    else
      c.(x := c.x - 1, ans := Prepend(c.ans, c.x - 1, c.x - c.k - 1))
  }

  /** The state of forward backtracking: on a snake, with the diagonals above it collected. */
  ghost predicate Trail(v: View, c: Cursor, xe: int, ye: int) {
    && !v.back && Rect(v) && Slot(c.D, c.k) && PointOk(v, c.D, (c.D + c.k) / 2) && OnSnake(v, c.D, (c.D + c.k) / 2, c.x)
    && c.x <= xe && c.x - c.k <= ye
    && Between(v.a, v.b, c.ans, c.x, c.x - c.k, xe, ye)
  }

  lemma TrailMoves(v: View, c: Cursor, n: Cursor, xe: int, ye: int)
    requires Trail(v, c, xe, ye) && n.ans == c.ans && n.x <= c.x && n.x - n.k <= c.x - c.k
    requires Slot(n.D, n.k) && PointOk(v, n.D, (n.D + n.k) / 2) && OnSnake(v, n.D, (n.D + n.k) / 2, n.x)
    ensures Trail(v, n, xe, ye) && n.x >= 0 && n.x - n.k >= 0
  {
    Widen(v.a, v.b, c.ans, c.x, c.x - c.k, xe, ye, n.x, n.x - n.k, xe, ye);
    SnakeNonNegative(v, n.D, (n.D + n.k) / 2, n.x);
  }

  lemma TrailEdit(v: View, c: Cursor, xe: int, ye: int)
    requires Trail(v, c, xe, ye) && (c.D > 0 ==> HasRow(v.t, c.D - 1))
    requires ForwardStep(v.t, c).k != c.k
    ensures var n := ForwardStep(v.t, c); Trail(v, n, xe, ye) && 0 <= n.x && 0 <= n.x - n.k
  {
    var n := ForwardStep(v.t, c);
    LabelOnSnake(v, n.D, (n.D + n.k) / 2);
    TrailMoves(v, c, n, xe, ye);
  }

  lemma TrailDiagonal(v: View, c: Cursor, xe: int, ye: int)
    requires Trail(v, c, xe, ye) && (c.x != 0 || c.x - c.k != 0) && (c.D > 0 ==> HasRow(v.t, c.D - 1))
    requires ForwardStep(v.t, c).k == c.k
    ensures var n := ForwardStep(v.t, c); Trail(v, n, xe, ye) && 0 <= n.x && 0 <= n.x - n.k
  {
    hide Between, PointOk, OnSnake, Prepend;
    LastStepIsDiagonal(v, c.D, (c.D + c.k) / 2, c.x);
    PrependKeeps(v.a, v.b, c.ans, c.x - 1, c.x - c.k - 1, xe, ye);
  }

  lemma ForwardStepKeeps(v: View, c: Cursor, xe: int, ye: int)
    requires Trail(v, c, xe, ye) && (c.x != 0 || c.x - c.k != 0)
    ensures c.D > 0 ==> HasRow(v.t, c.D - 1)
    ensures var n := ForwardStep(v.t, c);
      Trail(v, n, xe, ye) && n.Gap() < c.Gap() && 0 <= n.x && 0 <= n.x - n.k
  {
    assert c.D > 0 ==> HasRow(v.t, c.D - 1);
    if ForwardStep(v.t, c).k != c.k {
      TrailEdit(v, c, xe, ye);
    } else {
      TrailDiagonal(v, c, xe, ye);
    }
  }

  /** One turn of the loop in backwardlcs. */
  function BackwardStep(vb: Label, delta: int, c: Cursor): Cursor
    requires c.D > 0 ==> HasRow(vb, c.D - 1)
  {
    if InTriangle(c.D - 1, c.k - 1) && c.x == Get(vb, c.D - 1, c.k - 1) then
      c.(D := c.D - 1, k := c.k - 1)
    else if InTriangle(c.D - 1, c.k + 1) && c.x + 1 == Get(vb, c.D - 1, c.k + 1) then
      c.(D := c.D - 1, k := c.k + 1, x := c.x + 1)
    else
      c.(x := c.x + 1, ans := Append(c.ans, c.x, c.x - (c.k + delta)))
  }

  /** The state of backward backtracking: on a snake, with the diagonals below it collected. */
  ghost predicate BackTrail(v: View, delta: int, c: Cursor, xs: int, ys: int) {
    && v.back && v.ux == |v.a| && v.uy == |v.b| && delta == v.ux - v.uy
    && Slot(c.D, c.k) && PointOk(v, c.D, (c.D - c.k) / 2) && OnSnake(v, c.D, (c.D - c.k) / 2, v.ux - c.x)
    && xs <= c.x && ys <= c.x - (c.k + delta)
    && Between(v.a, v.b, c.ans, xs, ys, c.x, c.x - (c.k + delta))
  }

  lemma BackTrailMoves(v: View, delta: int, c: Cursor, n: Cursor, xs: int, ys: int)
    requires BackTrail(v, delta, c, xs, ys) && n.ans == c.ans
    requires c.x <= n.x && c.x - c.k <= n.x - n.k
    requires Slot(n.D, n.k) && PointOk(v, n.D, (n.D - n.k) / 2) && OnSnake(v, n.D, (n.D - n.k) / 2, v.ux - n.x)
    ensures BackTrail(v, delta, n, xs, ys) && n.x <= v.ux && n.x - (n.k + delta) <= v.uy
  {
    Widen(v.a, v.b, c.ans, xs, ys, c.x, c.x - (c.k + delta), xs, ys, n.x, n.x - (n.k + delta));
    SnakeNonNegative(v, n.D, (n.D - n.k) / 2, v.ux - n.x);
  }

  lemma BackTrailEdit(v: View, delta: int, c: Cursor, xs: int, ys: int)
    requires BackTrail(v, delta, c, xs, ys) && (c.D > 0 ==> HasRow(v.t, c.D - 1))
    requires BackwardStep(v.t, delta, c).k != c.k
    ensures var n := BackwardStep(v.t, delta, c);
      BackTrail(v, delta, n, xs, ys) && n.x <= v.ux && n.x - (n.k + delta) <= v.uy
  {
    var n := BackwardStep(v.t, delta, c);
    LabelOnSnake(v, n.D, (n.D - n.k) / 2);
    BackTrailMoves(v, delta, c, n, xs, ys);
  }

  lemma BackTrailDiagonal(v: View, delta: int, c: Cursor, xs: int, ys: int)
    requires BackTrail(v, delta, c, xs, ys) && (c.x != v.ux || c.x - (c.k + delta) != v.uy)
    requires c.D > 0 ==> HasRow(v.t, c.D - 1)
    requires BackwardStep(v.t, delta, c).k == c.k
    ensures var n := BackwardStep(v.t, delta, c);
      BackTrail(v, delta, n, xs, ys) && n.x <= v.ux && n.x - (n.k + delta) <= v.uy
  {
    hide Between, PointOk, OnSnake, Append;
    LastStepIsDiagonal(v, c.D, (c.D - c.k) / 2, v.ux - c.x);
    AppendKeeps(v.a, v.b, c.ans, c.x, c.x - (c.k + delta), xs, ys);
  }

  lemma BackwardStepKeeps(v: View, delta: int, c: Cursor, xs: int, ys: int)
    requires BackTrail(v, delta, c, xs, ys) && (c.x != v.ux || c.x - (c.k + delta) != v.uy)
    ensures c.D > 0 ==> HasRow(v.t, c.D - 1)
    ensures var n := BackwardStep(v.t, delta, c);
      BackTrail(v, delta, n, xs, ys) && c.Gap() < n.Gap() && n.x <= v.ux && n.x - (n.k + delta) <= v.uy
  {
    assert c.D > 0 ==> HasRow(v.t, c.D - 1);
    if BackwardStep(v.t, delta, c).k != c.k {
      BackTrailEdit(v, delta, c, xs, ys);
    } else {
      BackTrailDiagonal(v, delta, c, xs, ys);
    }
  }

  lemma SuffixIsSnake(v: View, k: int, x: int, y: int, n: nat)
    requires v.back && v.ux == |v.a| && v.uy == |v.b|
    requires 0 < x <= v.ux && 0 < y <= v.uy && v.ux - x - k == v.uy - y
    requires SameTail(v.a[..x], v.b[..y], n)
    requires n < x && n < y ==> FromEnd(v.a[..x], n) != FromEnd(v.b[..y], n)
    ensures Snake(v, k, v.ux - x, v.ux - x + n) && !Cell(v, v.ux - x + n, k)
  {
    forall i | v.ux - x <= i < v.ux - x + n ensures Cell(v, i, k) {
      assert FromEnd(v.a[..x], i - (v.ux - x)) == FromEnd(v.b[..y], i - (v.ux - x));
    }
  }

  lemma SnakeSame(v: View, w: View, k: int, s: int, e: int)
    requires Rect(v) && w == v.(t := w.t) && FullSnake(v, k, s, e)
    ensures FullSnake(w, k, s, e)
  {
    forall x | s <= x < e ensures Cell(w, x, k) { assert Cell(v, x, k); }
  }

  lemma SnakeJoin(v: View, k: int, s: int, m: int, e: int)
    requires Rect(v) && Snake(v, k, s, m) && Snake(v, k, m, e)
    ensures Snake(v, k, s, e)
  {}

  lemma SnakeTail(v: View, k: int, s: int, m: int, e: int)
    requires Rect(v) && Snake(v, k, s, e) && s <= m <= e
    ensures Snake(v, k, m, e)
  {}
}
