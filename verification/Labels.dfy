/**
 The furthest-reaching labels of internal/patch/lcs (labels.go, old.go) as a
 table of values, with the facts about them that both directions of the search
 share.

 Label (d, k) of the table sits at row d, column (d + k) / 2. Seen from the end
 of both strings the backward labels are again forward labels, so one `View` of
 a table serves both directions: coordinates of a backward view are measured
 from the upper right corner of the rectangle.
 */
module Labels {
  import opened Base

  type Label = seq<seq<int>>

  /** Rows that were never written, or were left by an earlier owner, are allowed. */
  predicate Shape(t: Label) {
    forall d | 0 <= d < |t| :: |t[d]| == 0 || |t[d]| == d + 1
  }

  predicate Slot(d: int, k: int) {
    0 <= d && -d <= k <= d && (d + k) % 2 == 0
  }

  predicate HasRow(t: Label, d: int) {
    0 <= d < |t| && |t[d]| == d + 1
  }

  function Get(t: Label, d: int, k: int): int
    requires HasRow(t, d) && -d <= k <= d
  {
    t[d][(d + k) / 2]
  }

  /** Grows the table to row d, makes the row if it is missing, then writes one label. */
  function Set(t: Label, d: int, k: int, x: int): (r: Label)
    requires Shape(t) && Slot(d, k)
    ensures Shape(r) && HasRow(r, d) && Get(r, d, k) == x
    ensures |r| >= |t| && forall e | 0 <= e < |t| && e != d :: r[e] == t[e]
    ensures HasRow(t, d) ==> forall j | 0 <= j <= d && j != (d + k) / 2 :: r[d][j] == t[d][j]
  {
    var g := if |t| <= d then t + seq(d + 1 - |t|, _ => []) else t;
    var row := if g[d] == [] then seq(d + 1, _ => 0) else g[d];
    g[d := row[(d + k) / 2 := x]]
  }

  datatype View = View(t: Label, back: bool, a: bytes, b: bytes, ux: int, uy: int)

  ghost predicate Rect(v: View) {
    0 <= v.ux <= |v.a| && 0 <= v.uy <= |v.b|
  }

  /** The label at (d, 2j - d), in the coordinates of the view. */
  ghost function At(v: View, d: int, j: int): int
    requires HasRow(v.t, d) && 0 <= j <= d
  {
    if v.back then v.ux - v.t[d][d - j] else v.t[d][j]
  }

  /** The unit diagonal leaving (x, x - k) lies in the rectangle and joins equal bytes. */
  ghost predicate Cell(v: View, x: int, k: int)
    requires Rect(v)
  {
    && 0 <= x < v.ux && 0 <= x - k < v.uy
    && if v.back then v.a[v.ux - 1 - x] == v.b[v.uy - 1 - (x - k)] else v.a[x] == v.b[x - k]
  }

  /** From s to e on diagonal k every step is a match. */
  ghost predicate Snake(v: View, k: int, s: int, e: int)
    requires Rect(v)
  {
    s <= e && forall x | s <= x < e :: Cell(v, x, k)
  }

  /** A snake that cannot go on. */
  ghost predicate FullSnake(v: View, k: int, s: int, e: int)
    requires Rect(v)
  {
    Snake(v, k, s, e) && !Cell(v, e, k)
  }

  /** The furthest point on the diagonal reached by one edit from row d - 1. */
  ghost function Start(v: View, d: int, j: int): int
    requires d >= 1 && HasRow(v.t, d - 1) && 0 <= j <= d
  {
    if j == 0 then At(v, d - 1, 0)
    else if j == d then At(v, d - 1, d - 1) + 1
    else Max(At(v, d - 1, j - 1) + 1, At(v, d - 1, j))
  }

  ghost predicate StepOk(v: View, d: int, j: int)
    requires Rect(v) && 0 <= j <= d && HasRow(v.t, d) && (d >= 1 ==> HasRow(v.t, d - 1))
  {
    if d == 0 then FullSnake(v, 0, 0, At(v, 0, 0))
    else FullSnake(v, 2 * j - d, Start(v, d, j), At(v, d, j))
  }

  ghost predicate Rows(t: Label, n: int) {
    forall d | 0 <= d <= n :: HasRow(t, d)
  }

  ghost predicate Frontier(v: View, n: int)
    requires Rect(v)
  {
    Rows(v.t, n) && forall d, j | 0 <= j <= d <= n :: StepOk(v, d, j)
  }

  lemma FrontierRows(v: View, n: int)
    requires Rect(v) && Frontier(v, n)
    ensures Rows(v.t, n)
  {}

  lemma FrontierPrefix(v: View, n: int, m: int)
    requires Rect(v) && Frontier(v, n) && m <= n
    ensures Frontier(v, m)
  {}

  /** Label (d, 2j - d) is in place on top of complete rows below d. */
  ghost predicate PointOk(v: View, d: int, j: int)
    requires Rect(v)
  {
    0 <= j <= d && HasRow(v.t, d) && (d >= 1 ==> Frontier(v, d - 1)) && StepOk(v, d, j)
  }

  ghost predicate Inside(v: View, d: int, j: int)
    requires HasRow(v.t, d) && 0 <= j <= d
  {
    At(v, d, j) <= v.ux && At(v, d, j) - (2 * j - d) <= v.uy
  }

  ghost predicate AtCorner(v: View, d: int, j: int)
    requires HasRow(v.t, d) && 0 <= j <= d
  {
    At(v, d, j) == v.ux && At(v, d, j) - (2 * j - d) == v.uy
  }

  /** No row up to n reached the corner. */
  ghost predicate NoCorner(v: View, n: int)
    requires Rows(v.t, n)
  {
    forall d, j | 0 <= j <= d <= n :: !AtCorner(v, d, j)
  }

  lemma NoCornerGrows(v: View, w: View, n: int)
    requires w == v.(t := w.t) && Rows(v.t, n - 1) && NoCorner(v, n - 1) && Rows(w.t, n)
    requires KeepsRows(v.t, w.t, n) && forall j | 0 <= j <= n :: !AtCorner(w, n, j)
    ensures NoCorner(w, n)
  {
    forall d, j | 0 <= j <= d <= n ensures !AtCorner(w, d, j) {
      if d < n {
        assert HasRow(v.t, d) && w.t[d] == v.t[d] && !AtCorner(v, d, j);
      }
    }
  }

  lemma RowCornerless(v: View, w: View, n: int, js: set<int>)
    requires w == v.(t := w.t) && Rows(v.t, n - 1) && NoCorner(v, n - 1) && Rows(w.t, n)
    requires KeepsRows(v.t, w.t, n) && Cornerless(w, n, js) && forall j | 0 <= j <= n :: j in js
    ensures NoCorner(w, n)
  {
    forall j | 0 <= j <= n ensures !AtCorner(w, n, j) { assert j in js; }
    NoCornerGrows(v, w, n);
  }

  /** A frontier depends only on the rows it speaks of. */
  lemma SameRows(v: View, w: View, n: int)
    requires Rect(v) && Frontier(v, n) && w == v.(t := w.t)
    requires Rows(w.t, n) && forall d | 0 <= d <= n && HasRow(v.t, d) && HasRow(w.t, d) :: w.t[d] == v.t[d]
    ensures Frontier(w, n)
  {
    forall d, j | 0 <= j <= d <= n ensures StepOk(w, d, j) {
      assert StepOk(v, d, j);
      StepSame(v, w, d, j);
    }
  }

  lemma StepSame(v: View, w: View, d: int, j: int)
    requires Rect(v) && w == v.(t := w.t) && 0 <= j <= d
    requires HasRow(v.t, d) && HasRow(w.t, d) && At(v, d, j) == At(w, d, j)
    requires d >= 1 ==> HasRow(v.t, d - 1) && HasRow(w.t, d - 1) && v.t[d - 1] == w.t[d - 1]
    requires StepOk(v, d, j)
    ensures StepOk(w, d, j)
  {
    var k := 2 * j - d;
    var s := if d == 0 then 0 else Start(v, d, j);
    assert Snake(v, k, s, At(v, d, j));
    forall x | s <= x < At(w, d, j) ensures Cell(w, x, k) {
      assert Cell(v, x, k);
    }
  }

  /** Labels never leave the quadrant above the origin of their view. */
  lemma {:induction false} NonNegative(v: View, d: int, j: int)
    requires Rect(v) && PointOk(v, d, j)
    ensures At(v, d, j) >= 0 && At(v, d, j) - (2 * j - d) >= 0
    ensures d >= 1 ==> Start(v, d, j) >= 0 && Start(v, d, j) - (2 * j - d) >= 0
    decreases d
  {
    if d >= 1 {
      if j > 0 { NonNegative(v, d - 1, j - 1); }
      if j < d { NonNegative(v, d - 1, j); }
    }
  }

  lemma PredecessorsNonNegative(v: View, d: int, j: int)
    requires Rect(v) && Frontier(v, d) && 0 <= j <= d + 1 && 0 <= d
    ensures j > 0 ==> At(v, d, j - 1) >= 0 && At(v, d, j - 1) - (2 * (j - 1) - d) >= 0
    ensures j <= d ==> At(v, d, j) >= 0 && At(v, d, j) - (2 * j - d) >= 0
  {
    if j > 0 { NonNegative(v, d, j - 1); }
    if j <= d { NonNegative(v, d, j); }
  }

  /** A label that is not inside was reached by an edit step, not by a diagonal. */
  lemma OutsideIsStart(v: View, d: int, j: int)
    requires Rect(v) && 0 <= j <= d && Frontier(v, d) && !Inside(v, d, j)
    ensures d >= 1 && At(v, d, j) == Start(v, d, j)
  {
    assert StepOk(v, d, j);
    var x := At(v, d, j);
    var k := 2 * j - d;
    var s := if d == 0 then 0 else Start(v, d, j);
    assert s < x ==> Cell(v, x - 1, k);
  }

  lemma Grows(v: View, d: int, j: int)
    requires Rect(v) && 1 <= d && 0 <= j <= d && Frontier(v, d)
    ensures j < d ==> At(v, d - 1, j) <= At(v, d, j)
    ensures j > 0 ==> At(v, d - 1, j - 1) + 1 <= At(v, d, j)
  {
    assert StepOk(v, d, j);
  }

  /** Above the rectangle the vertical predecessor is at least as far right. */
  lemma {:induction false} TopHasLower(v: View, d: int, j: int)
    requires Rect(v) && 0 <= j <= d && Frontier(v, d)
    requires At(v, d, j) - (2 * j - d) > v.uy
    ensures d >= 1 && j < d && At(v, d - 1, j) >= At(v, d, j)
    decreases d
  {
    OutsideIsStart(v, d, j);
    if j == d || (j > 0 && At(v, d - 1, j) < At(v, d - 1, j - 1) + 1) {
      assert At(v, d, j) == At(v, d - 1, j - 1) + 1;
      TopHasLower(v, d - 1, j - 1);
      Grows(v, d - 1, j);
    }
  }

  /** Right of the rectangle the horizontal predecessor is at least as far up. */
  lemma {:induction false} RightHasLeft(v: View, d: int, j: int)
    requires Rect(v) && 0 <= j <= d && Frontier(v, d)
    requires At(v, d, j) > v.ux
    ensures d >= 1 && j > 0 && At(v, d - 1, j - 1) + 1 >= At(v, d, j)
    decreases d
  {
    OutsideIsStart(v, d, j);
    if j == 0 || (j < d && At(v, d - 1, j - 1) + 1 < At(v, d - 1, j)) {
      assert At(v, d, j) == At(v, d - 1, j);
      RightHasLeft(v, d - 1, j);
      Grows(v, d - 1, j - 1);
    }
  }

  /** A label beyond the corner in both coordinates means some row hit the corner exactly. */
  lemma {:induction false} CornerWasHit(v: View, d: int, j: int) returns (d0: int, j0: int)
    requires Rect(v) && 0 <= j <= d && Frontier(v, d)
    requires At(v, d, j) >= v.ux && At(v, d, j) - (2 * j - d) >= v.uy
    ensures 0 <= j0 <= d0 <= d && AtCorner(v, d0, j0)
    ensures !AtCorner(v, d, j) ==> d0 < d
    decreases d
  {
    if At(v, d, j) > v.ux {
      RightHasLeft(v, d, j);
      d0, j0 := CornerWasHit(v, d - 1, j - 1);
    } else if At(v, d, j) - (2 * j - d) > v.uy {
      TopHasLower(v, d, j);
      d0, j0 := CornerWasHit(v, d - 1, j);
    } else {
      d0, j0 := d, j;
    }
  }

  /** Row n has a label in the rectangle unless an earlier row reached the corner. */
  lemma SomeInside(v: View, n: int) returns (hit: bool, d0: int, j0: int)
    requires Rect(v) && 0 <= n && Frontier(v, n)
    ensures hit ==> 0 <= j0 <= d0 < n && AtCorner(v, d0, j0)
    ensures !hit ==> 0 <= j0 <= n && Inside(v, n, j0)
  {
    j0 := 0;
    d0 := n;
    hit := false;
    if Inside(v, n, 0) { return; }
    assert At(v, n, 0) - (2 * 0 - n) > v.uy by {
      if At(v, n, 0) > v.ux { RightHasLeft(v, n, 0); }
    }
    while true
      invariant 0 <= j0 <= n && !hit
      invariant At(v, n, j0) - (2 * j0 - n) > v.uy
      decreases n - j0
    {
      TopHasLower(v, n, j0);
      if Inside(v, n, j0 + 1) {
        j0 := j0 + 1;
        return;
      }
      if At(v, n, j0 + 1) > v.ux {
        RightHasLeft(v, n, j0 + 1);
        d0, j0 := CornerWasHit(v, n - 1, j0);
        hit := true;
        return;
      }
      j0 := j0 + 1;
    }
  }

  // ---- writing a row ----

  ghost predicate KeepsRows(t: Label, u: Label, d: int) {
    |t| <= |u| && forall e | 0 <= e < |t| && e != d :: u[e] == t[e]
  }

  ghost predicate KeepsColumns(t: Label, u: Label, d: int, j0: int)
    requires HasRow(t, d)
  {
    HasRow(u, d) && forall j | 0 <= j <= d && j != j0 :: u[d][j] == t[d][j]
  }

  /** The columns `js` of row d are done. */
  ghost predicate Steps(v: View, d: int, js: set<int>)
    requires Rect(v)
  {
    js != {} ==>
      && HasRow(v.t, d) && (d >= 1 ==> HasRow(v.t, d - 1))
      && forall j | j in js :: 0 <= j <= d && StepOk(v, d, j)
  }

  /** Writing column j0 of row d keeps all earlier rows and the columns already done. */
  lemma Written(v: View, w: View, d: int, j0: int, js: set<int>)
    requires Rect(v) && w == v.(t := w.t) && 0 <= j0 <= d && HasRow(w.t, d)
    requires KeepsRows(v.t, w.t, d) && Steps(v, d, js)
    requires HasRow(v.t, d) ==> forall j | 0 <= j <= d && j != j0 :: At(v, d, j) == At(w, d, j)
    requires d >= 1 ==> Frontier(v, d - 1) && FullSnake(w, 2 * j0 - d, Start(v, d, j0), At(w, d, j0))
    requires d == 0 ==> FullSnake(w, 0, 0, At(w, 0, 0))
    ensures d >= 1 ==> Frontier(w, d - 1)
    ensures Steps(w, d, js + {j0})
  {
    if d >= 1 {
      assert HasRow(v.t, d - 1);
      assert forall e | 0 <= e <= d - 1 :: HasRow(v.t, e) && w.t[e] == v.t[e];
      SameRows(v, w, d - 1);
    }
    forall j | j in js + {j0} ensures 0 <= j <= d && StepOk(w, d, j) {
      if j != j0 { StepSame(v, w, d, j); }
    }
  }

  lemma StepsNone(v: View, d: int)
    requires Rect(v)
    ensures Steps(v, d, {})
  {}

  lemma StepsPoint(v: View, d: int, js: set<int>, j: int)
    requires Rect(v) && j in js && Steps(v, d, js) && (d >= 1 ==> Frontier(v, d - 1))
    ensures PointOk(v, d, j)
  {}

  lemma StepsHaveRow(v: View, d: int, js: set<int>)
    requires Rect(v) && js != {} && Steps(v, d, js)
    ensures HasRow(v.t, d) && forall j <- js :: 0 <= j <= d
  {}

  /** None of the columns `js` of row d sits in the corner. */
  ghost predicate Cornerless(v: View, d: int, js: set<int>) {
    forall j <- js :: 0 <= j <= d && HasRow(v.t, d) && !AtCorner(v, d, j)
  }

  lemma CornerlessNone(v: View, d: int)
    ensures Cornerless(v, d, {})
  {}

  lemma CornerlessKept(v: View, w: View, d: int, j0: int, js: set<int>)
    requires !v.back && w == v.(t := w.t) && Cornerless(v, d, js) && j0 !in js
    requires HasRow(v.t, d) ==> KeepsColumns(v.t, w.t, d, j0)
    requires 0 <= j0 <= d && HasRow(w.t, d) && !AtCorner(w, d, j0)
    ensures Cornerless(w, d, js + {j0})
  {
    forall j | j in js ensures 0 <= j <= d && !AtCorner(w, d, j) {
      assert !AtCorner(v, d, j);
    }
  }

  lemma RowComplete(v: View, d: int, js: set<int>)
    requires Rect(v) && 0 <= d && (d >= 1 ==> Frontier(v, d - 1)) && Steps(v, d, js)
    requires forall j | 0 <= j <= d :: j in js
    ensures Frontier(v, d)
  {
    assert 0 in js;
  }

  // ---- backtracking ----

  /** x lies on the snake that ends in label (d, 2j - d). */
  ghost predicate OnSnake(v: View, d: int, j: int, x: int)
    requires Rect(v) && PointOk(v, d, j)
  {
    (if d == 0 then 0 else Start(v, d, j)) <= x <= At(v, d, j)
  }

  lemma LabelOnSnake(v: View, d: int, j: int)
    requires Rect(v) && PointOk(v, d, j)
    ensures OnSnake(v, d, j, At(v, d, j))
  {}

  lemma SnakeNonNegative(v: View, d: int, j: int, x: int)
    requires Rect(v) && PointOk(v, d, j) && OnSnake(v, d, j, x)
    ensures x >= 0 && x - (2 * j - d) >= 0
  {
    NonNegative(v, d, j);
  }

  /** Away from the origin and from both predecessors, the last step was a diagonal. */
  lemma LastStepIsDiagonal(v: View, d: int, j: int, x: int)
    requires Rect(v) && PointOk(v, d, j) && OnSnake(v, d, j, x)
    requires x != 0 || x != 2 * j - d
    requires d >= 1 && j > 0 ==> x - 1 != At(v, d - 1, j - 1)
    requires d >= 1 && j < d ==> x != At(v, d - 1, j)
    ensures Cell(v, x - 1, 2 * j - d) && OnSnake(v, d, j, x - 1)
  {}
}
