/** Casting a ray from a point to the right, against one segment. */
module Raycasting {
  import opened Planar

  /** `inside`: the point is on the left of the segment.  `on`: it lies on the segment. */
  datatype RaycastResult = RaycastResult(inside: bool, on: bool)

  /** The size of the step to the next number.  In floating point it depends on where the
      number is; here any positive size stands for it. */
  type Positive = x: real | x > 0.0 witness 1.0

  /** The loop that lifts the ray off the end points, one step of size `eps` at a time. */
  function Nudge(y: real, y0: real, y1: real, eps: Positive): (r: real)
    ensures r != y0 && r != y1
    ensures y != y0 && y != y1 ==> r == y
    decreases if y <= y0 && y <= y1 then 2 else if y <= y0 || y <= y1 then 1 else 0
  {
    if y == y0 || y == y1 then Nudge(y + eps, y0, y1, eps) else y
  }

  /** The slope-equality test.  A division by zero never compares equal in the cases
      that reach it (an infinity or a NaN against a finite number). */
  predicate SlopesEqual(a: Point, b: Point, p: Point) {
    b.x != a.x && b.y != a.y && (p.x - a.x) / (b.x - a.x) == (p.y - a.y) / (b.y - a.y)
  }

  /** The ray itself, cast once the point is known to be off the segment's ends. */
  function CastRay(a: Point, b: Point, p: Point): RaycastResult
  {
    if a.y < b.y && (p.y < a.y || p.y > b.y) then RaycastResult(false, false)
    else if !(a.y < b.y) && (p.y < b.y || p.y > a.y) then RaycastResult(false, false)
    else if a.x > b.x && p.x >= a.x then RaycastResult(false, false)
    else if a.x > b.x && p.x <= b.x then RaycastResult(true, false)
    else if !(a.x > b.x) && p.x >= b.x then RaycastResult(false, false)
    else if !(a.x > b.x) && p.x <= a.x then RaycastResult(true, false)
    else if a.y < b.y then RaycastResult((p.y - a.y) / (p.x - a.x) >= (b.y - a.y) / (b.x - a.x), false)
    else RaycastResult((p.y - b.y) / (p.x - b.x) >= (a.y - b.y) / (a.x - b.x), false)
  }

  function Raycast(seg: Segment, point: Point, eps: Positive): RaycastResult
  {
    var p, a, b := point, seg.a, seg.b;
    if a.y < b.y && (p.y < a.y || p.y > b.y) then RaycastResult(false, false)
    else if a.y > b.y && (p.y < b.y || p.y > a.y) then RaycastResult(false, false)
    else if a.y == b.y && a.x == b.x then RaycastResult(false, p == a)
    else if a.y == b.y && p.y == b.y &&
            (if a.x < b.x then p.x >= a.x && p.x <= b.x else p.x >= b.x && p.x <= a.x)
    then RaycastResult(false, true)
    else if a.x == b.x && p.x == b.x &&
            (if a.y < b.y then p.y >= a.y && p.y <= b.y else p.y >= b.y && p.y <= a.y)
    then RaycastResult(false, true)
    else if SlopesEqual(a, b, p) then RaycastResult(false, true)
    else CastRay(a, b, Point(p.x, Nudge(p.y, a.y, b.y, eps)))
  }

  // ---------- What the answer means ----------

  /** The number that lies the fraction `t` of the way from `u` to `v`. */
  function Mix(u: real, v: real, t: real): real {
    u + t * (v - u)
  }

  predicate Between(u: real, v: real, w: real) {
    u <= w <= v || v <= w <= u
  }

  /** The point of the segment that lies the fraction `t` of the way from `a` to `b`. */
  function Along(s: Segment, t: real): Point {
    Point(Mix(s.a.x, s.b.x, t), Mix(s.a.y, s.b.y, t))
  }

  /** The closed segment as a set of points. */
  ghost predicate OnSegment(s: Segment, p: Point) {
    exists t: real :: 0.0 <= t <= 1.0 && p == Along(s, t)
  }

  /** Twice the signed area of the triangle: positive when `p` is left of `a` to `b`. */
  function Cross(a: Point, b: Point, p: Point): real {
    (b.x - a.x) * (p.y - a.y) - (b.y - a.y) * (p.x - a.x)
  }

  /** A ray from `p` to the right crosses the segment, whose lower end counts and whose
      upper end does not: `p` is strictly left of the upward line. */
  predicate Crosses(s: Segment, p: Point) {
    if s.a.y < s.b.y then s.a.y <= p.y < s.b.y && Cross(s.a, s.b, p) > 0.0
    else if s.b.y < s.a.y then s.b.y <= p.y < s.a.y && Cross(s.b, s.a, p) > 0.0
    else false
  }

  lemma DivBy(x: real, y: real)
    requires y != 0.0
    ensures (x / y) * y == x
  {
  }

  lemma QuotientsEqual(x: real, y: real, z: real, w: real)
    requires y != 0.0 && w != 0.0
    ensures x / y == z / w <==> x * w == z * y
  {
    var p, q := x / y, z / w;
    DivBy(x, y);
    DivBy(z, w);
    if p == q {
      assert x * w == (p * y) * w == (p * w) * y == z * y;
    }
    if x * w == z * y {
      assert (p * y) * w == (q * w) * y;
      assert (p - q) * (y * w) == 0.0;
      assert y * w != 0.0;
    }
  }

  lemma QuotientsOrdered(x: real, y: real, z: real, w: real)
    requires y > 0.0 && w > 0.0
    ensures x / y >= z / w <==> x * w >= z * y
  {
    var p, q := x / y, z / w;
    DivBy(x, y);
    DivBy(z, w);
    assert x * w - z * y == (p * y) * w - (q * w) * y == (p - q) * (y * w);
    assert y * w > 0.0;
  }

  lemma BoxIsBetween(s: Segment, p: Point)
    ensures s.Box().ContainsPoint(p) <==> Between(s.a.x, s.b.x, p.x) && Between(s.a.y, s.b.y, p.y)
  {
  }

  lemma AlongIsOnLine(s: Segment, t: real, p: Point)
    requires p == Along(s, t)
    ensures Cross(s.a, s.b, p) == 0.0
  {
    var dx, dy := s.b.x - s.a.x, s.b.y - s.a.y;
    assert p.x - s.a.x == t * dx && p.y - s.a.y == t * dy;
    assert dx * (t * dy) == dy * (t * dx);
  }

  lemma SignOfProduct(x: real, y: real)
    ensures x >= 0.0 && y >= 0.0 ==> x * y >= 0.0
    ensures x >= 0.0 && y <= 0.0 ==> x * y <= 0.0
    ensures x <= 0.0 && y >= 0.0 ==> x * y <= 0.0
    ensures x <= 0.0 && y <= 0.0 ==> x * y >= 0.0
  {
  }

  lemma MixIsBetween(u: real, v: real, t: real)
    requires 0.0 <= t <= 1.0
    ensures Between(u, v, Mix(u, v, t))
  {
    SignOfProduct(t, v - u);
    SignOfProduct(1.0 - t, v - u);
    assert (1.0 - t) * (v - u) == (v - u) - t * (v - u);
  }

  lemma OnIsLineAndBox(s: Segment, p: Point)
    requires OnSegment(s, p)
    ensures Cross(s.a, s.b, p) == 0.0 && s.Box().ContainsPoint(p)
  {
    hide Cross, Mix, Between, Rect.ContainsPoint;
    var t: real :| 0.0 <= t <= 1.0 && p == Along(s, t);
    AlongIsOnLine(s, t, p);
    MixIsBetween(s.a.x, s.b.x, t);
    MixIsBetween(s.a.y, s.b.y, t);
    BoxIsBetween(s, p);
  }

  lemma PointOnItself(s: Segment, p: Point)
    requires s.a == s.b && Between(s.a.x, s.b.x, p.x) && Between(s.a.y, s.b.y, p.y)
    ensures OnSegment(s, p)
  {
    assert p == Along(s, 0.0);
  }

  lemma SameRatio(dx: real, dy: real, t: real, ex: real, ey: real)
    requires dx != 0.0 && ex == t * dx && dx * ey == dy * ex
    ensures ey == t * dy
  {
    assert dx * (ey - t * dy) == 0.0;
  }

  lemma FractionOf(u: real, v: real, w: real) returns (t: real)
    requires u != v && Between(u, v, w)
    ensures 0.0 <= t <= 1.0 && w == Mix(u, v, t) && w - u == t * (v - u)
  {
    t := (w - u) / (v - u);
    DivBy(w - u, v - u);
  }

  /** A point of the line that is between the ends in x is on the segment. */
  lemma OnLineByX(s: Segment, p: Point)
    requires Cross(s.a, s.b, p) == 0.0 && s.a.x != s.b.x && Between(s.a.x, s.b.x, p.x)
    ensures OnSegment(s, p)
  {
    var t := FractionOf(s.a.x, s.b.x, p.x);
    SameRatio(s.b.x - s.a.x, s.b.y - s.a.y, t, p.x - s.a.x, p.y - s.a.y);
    assert p == Along(s, t);
  }

  /** The same in y. */
  lemma OnLineByY(s: Segment, p: Point)
    requires Cross(s.a, s.b, p) == 0.0 && s.a.y != s.b.y && Between(s.a.y, s.b.y, p.y)
    ensures OnSegment(s, p)
  {
    var t := FractionOf(s.a.y, s.b.y, p.y);
    SameRatio(s.b.y - s.a.y, s.b.x - s.a.x, t, p.y - s.a.y, p.x - s.a.x);
    assert p == Along(s, t);
  }

  lemma LineAndBox(s: Segment, p: Point)
    requires Cross(s.a, s.b, p) == 0.0 && s.Box().ContainsPoint(p)
    ensures OnSegment(s, p)
  {
    hide Cross, Mix, Between, Rect.ContainsPoint;
    BoxIsBetween(s, p);
    if s.a.x != s.b.x {
      OnLineByX(s, p);
    } else if s.a.y != s.b.y {
      OnLineByY(s, p);
    } else {
      PointOnItself(s, p);
    }
  }

  /** On the segment means on its line and within its box. */
  lemma OnSegmentIsBoxAndLine(s: Segment, p: Point)
    ensures OnSegment(s, p) <==> Cross(s.a, s.b, p) == 0.0 && s.Box().ContainsPoint(p)
  {
    hide *;
    if OnSegment(s, p) {
      OnIsLineAndBox(s, p);
    }
    if Cross(s.a, s.b, p) == 0.0 && s.Box().ContainsPoint(p) {
      LineAndBox(s, p);
    }
  }

  lemma CrossReversed(a: Point, b: Point, p: Point)
    ensures Cross(b, a, p) == -Cross(a, b, p)
  {
  }

  lemma OnSlanted(s: Segment, p: Point, eps: Positive)
    requires s.b.x != s.a.x && s.b.y != s.a.y
    ensures Raycast(s, p, eps).on <==> Cross(s.a, s.b, p) == 0.0 && s.Box().ContainsPoint(p)
  {
    QuotientsEqual(p.x - s.a.x, s.b.x - s.a.x, p.y - s.a.y, s.b.y - s.a.y);
    CrossReversed(s.a, s.b, p);
    assert SlopesEqual(s.a, s.b, p) <==> Cross(s.a, s.b, p) == 0.0;
    if Cross(s.a, s.b, p) == 0.0 && Between(s.a.y, s.b.y, p.y) {
      OnLineByY(s, p);
      OnSegmentIsBoxAndLine(s, p);
    }
  }

  lemma OnAxisParallel(s: Segment, p: Point, eps: Positive)
    requires (s.b.x == s.a.x || s.b.y == s.a.y)
    ensures Raycast(s, p, eps).on <==>
      (s.b.x == s.a.x || p.y == s.a.y) && (s.b.y == s.a.y || p.x == s.a.x) && s.Box().ContainsPoint(p)
  {
  }

  lemma ProductIsZero(x: real, y: real)
    ensures x * y == 0.0 <==> x == 0.0 || y == 0.0
  {
  }

  /** Compared with the point of an upward line at the same height. */
  lemma SideAtHeight(lo: Point, hi: Point, p: Point, q: Point)
    requires lo.y < hi.y && Cross(lo, hi, q) == 0.0 && q.y == p.y
    ensures Cross(lo, hi, p) > 0.0 <==> p.x < q.x
  {
    var dy, e := hi.y - lo.y, q.x - p.x;
    assert Cross(lo, hi, p) == dy * e;
    SignOfProduct(dy, e);
    ProductIsZero(dy, e);
  }

  lemma CrossedRightward(s: Segment, p: Point, q: Point)
    requires OnSegment(s, q) && q.y == p.y && s.Box().min.y <= p.y < s.Box().max.y
    ensures Crosses(s, p) <==> p.x < q.x
  {
    OnSegmentIsBoxAndLine(s, q);
    CrossReversed(s.a, s.b, q);
    hide OnSegment, Cross;
    if s.a.y < s.b.y {
      SideAtHeight(s.a, s.b, p, q);
    } else {
      SideAtHeight(s.b, s.a, p, q);
    }
  }

  /** What crossing is: between the heights of the ends, the lower included and the upper not,
      the ray from the point to the right meets the segment beyond the point. */
  lemma CrossesIsRay(s: Segment, p: Point)
    ensures Crosses(s, p) <==>
      s.Box().min.y <= p.y < s.Box().max.y && exists q :: OnSegment(s, q) && q.y == p.y && p.x < q.x
  {
    if s.Box().min.y <= p.y < s.Box().max.y {
      var t := FractionOf(s.a.y, s.b.y, p.y);
      var q := Along(s, t);
      assert OnSegment(s, q);
      CrossedRightward(s, p, q);
      hide OnSegment, Crosses, Segment.Box;
      forall r | OnSegment(s, r) && r.y == p.y
        ensures Crosses(s, p) <==> p.x < r.x
      {
        CrossedRightward(s, p, r);
      }
    }
  }

  /** The `on` answer is exact, whatever the size of the nudge. */
  lemma OnIsExact(s: Segment, p: Point, eps: Positive)
    ensures Raycast(s, p, eps).on <==> OnSegment(s, p)
  {
    OnSegmentIsBoxAndLine(s, p);
    if s.b.x != s.a.x && s.b.y != s.a.y {
      OnSlanted(s, p, eps);
    } else {
      ProductIsZero(s.b.x - s.a.x, p.y - s.a.y);
      ProductIsZero(s.b.y - s.a.y, p.x - s.a.x);
      OnAxisParallel(s, p, eps);
    }
  }

  lemma NegatedQuotient(x: real, y: real)
    requires y != 0.0
    ensures x / y == (-x) / (-y)
  {
  }

  /** In plain numbers, with the run and rise of the segment and of the point: past both
      ends the side is decided by position. */
  lemma SidePastEnds(dx: real, dy: real, ex: real, ey: real, cross: real)
    requires 0.0 < ey < dy && cross == dx * ey - dy * ex && cross != 0.0
    ensures ex >= 0.0 && ex >= dx ==> cross < 0.0
    ensures ex <= 0.0 && ex <= dx ==> cross > 0.0
  {
    SignOfProduct(ex - dx, ey);
    SignOfProduct(ex, dy - ey);
    assert cross == -((ex - dx) * ey) - ex * (dy - ey);
  }

  /** Between the ends it is decided by comparing the slopes. */
  lemma SideBySlope(dx: real, dy: real, ex: real, ey: real, cross: real)
    requires dy > 0.0 && cross == dx * ey - dy * ex && cross != 0.0
    requires 0.0 < ex < dx || dx < ex < 0.0
    ensures ey / ex >= dy / dx <==> cross > 0.0
  {
    if 0.0 < ex {
      QuotientsOrdered(ey, ex, dy, dx);
    } else {
      QuotientsOrdered(-ey, -ex, -dy, -dx);
      NegatedQuotient(dy, dx);
      NegatedQuotient(ey, ex);
    }
  }

  lemma CrossIsDifference(a: Point, b: Point, p: Point)
    ensures Cross(a, b, p) == (b.x - a.x) * (p.y - a.y) - (b.y - a.y) * (p.x - a.x)
  {
  }

  /** The ray against an upward segment, strictly between the heights of its ends. */
  lemma UpwardRay(a: Point, b: Point, p: Point)
    requires a.y < p.y < b.y && Cross(a, b, p) != 0.0
    ensures CastRay(a, b, p) == RaycastResult(Cross(a, b, p) > 0.0, false)
  {
    CrossIsDifference(a, b, p);
    hide Cross;
    SidePastEnds(b.x - a.x, b.y - a.y, p.x - a.x, p.y - a.y, Cross(a, b, p));
    if a.x < p.x < b.x || b.x < p.x < a.x {
      SideBySlope(b.x - a.x, b.y - a.y, p.x - a.x, p.y - a.y, Cross(a, b, p));
    }
  }

  /** Off the line and off both ends' heights, the ray's case analysis is the crossing. */
  lemma CastRayIsExact(a: Point, b: Point, p: Point)
    requires p.y != a.y && p.y != b.y && (a.y == b.y || Cross(a, b, p) != 0.0)
    ensures CastRay(a, b, p) == RaycastResult(Crosses(Segment(a, b), p), false)
  {
    if a.y < p.y < b.y {
      UpwardRay(a, b, p);
    } else if b.y < p.y < a.y {
      CrossReversed(a, b, p);
      UpwardRay(b, a, p);
      assert CastRay(a, b, p) == CastRay(b, a, p);
    }
  }

  lemma FractionIsProper(f: real, ex: real, dx: real)
    requires 0.0 < ex < dx && f * dx == ex
    ensures 0.0 < f < 1.0
  {
    SignOfProduct(f, dx);
    SignOfProduct(f - 1.0, dx);
  }

  lemma ProductPositive(x: real, y: real)
    requires x > 0.0 && y > 0.0
    ensures x * y > 0.0
  {
  }

  /** The height a line of rise `dy` and run `dx` gains over the shorter run `ex`. */
  function LiftBound(dy: real, ex: real, dx: real): (r: real)
    requires dy > 0.0 && 0.0 < ex < dx
    ensures 0.0 < r < dy && r * dx == dy * ex
  {
    var f := ex / dx;
    DivBy(ex, dx);
    FractionIsProper(f, ex, dx);
    ProductPositive(dy, f);
    ProductPositive(dy, 1.0 - f);
    assert (dy * f) * dx == dy * (f * dx);
    dy * f
  }

  function Abs(x: real): real {
    if x < 0.0 then -x else x
  }

  /** How far the ray may be lifted before it could change sides of the segment or pass
      its upper end. */
  function NudgeBound(s: Segment, p: Point): (r: real)
    ensures r > 0.0
  {
    var lo, hi := if s.a.y < s.b.y then s.a else s.b, if s.a.y < s.b.y then s.b else s.a;
    if lo.y == hi.y || p.y != lo.y then 1.0
    else if lo.x == hi.x || p.x == lo.x || Abs(p.x - lo.x) >= Abs(hi.x - lo.x) then hi.y - lo.y
    else LiftBound(hi.y - lo.y, Abs(p.x - lo.x), Abs(hi.x - lo.x))
  }

  lemma AbsOfProduct(x: real, y: real)
    ensures Abs(x * y) == Abs(x) * Abs(y)
  {
    SignOfProduct(x, y);
  }

  lemma LiftOfLengths(dx: real, dy: real, ex: real, eps: real)
    requires dx >= 0.0 && dy > 0.0 && ex > 0.0 && 0.0 < eps < dy
    requires ex < dx ==> eps < LiftBound(dy, ex, dx)
    ensures dx * eps < dy * ex
  {
    if ex < dx {
      ProductPositive(LiftBound(dy, ex, dx) - eps, dx);
    } else {
      ProductPositive(dy - eps, ex);
      SignOfProduct(eps, ex - dx);
    }
  }

  lemma LiftIsSmall(dx: real, dy: real, ex: real, eps: real)
    requires dy > 0.0 && ex != 0.0 && 0.0 < eps < dy
    requires 0.0 < Abs(ex) < Abs(dx) ==> eps < LiftBound(dy, Abs(ex), Abs(dx))
    ensures Abs(dx * eps) < Abs(dy * ex)
  {
    AbsOfProduct(dx, eps);
    AbsOfProduct(dy, ex);
    LiftOfLengths(Abs(dx), dy, Abs(ex), eps);
  }

  lemma CrossAtLevel(lo: Point, hi: Point, p: Point)
    requires p.y == lo.y
    ensures Cross(lo, hi, p) == -((hi.y - lo.y) * (p.x - lo.x))
  {
  }

  lemma CrossLifted(lo: Point, hi: Point, p: Point, eps: real)
    requires p.y == lo.y
    ensures Cross(lo, hi, Point(p.x, p.y + eps)) == (hi.x - lo.x) * eps - (hi.y - lo.y) * (p.x - lo.x)
  {
  }

  lemma NudgeBoundAtLevel(lo: Point, hi: Point, p: Point)
    requires lo.y < hi.y && p.y == lo.y && p.x != lo.x
    ensures NudgeBound(Segment(lo, hi), p) <= hi.y - lo.y
    ensures 0.0 < Abs(p.x - lo.x) < Abs(hi.x - lo.x) ==>
      NudgeBound(Segment(lo, hi), p) == LiftBound(hi.y - lo.y, Abs(p.x - lo.x), Abs(hi.x - lo.x))
  {
  }

  lemma SmallerGain(gain: real, loss: real)
    requires Abs(gain) < Abs(loss)
    ensures gain - loss != 0.0 && (gain - loss > 0.0 <==> -loss > 0.0)
  {
  }

  /** In plain numbers: `level` is the side before the lift, `lifted` the side after it. */
  lemma LiftKeepsSign(dx: real, dy: real, ex: real, eps: real, level: real, lifted: real)
    requires dy > 0.0 && ex != 0.0 && 0.0 < eps < dy
    requires 0.0 < Abs(ex) < Abs(dx) ==> eps < LiftBound(dy, Abs(ex), Abs(dx))
    requires level == -(dy * ex) && lifted == dx * eps - dy * ex
    ensures lifted != 0.0 && (lifted > 0.0 <==> level > 0.0)
  {
    hide LiftBound;
    LiftIsSmall(dx, dy, ex, eps);
    SmallerGain(dx * eps, dy * ex);
  }

  /** Lifting a point off the height of the lower end keeps its side of the line. */
  lemma LiftKeepsSide(lo: Point, hi: Point, p: Point, eps: real)
    requires lo.y < hi.y && p.y == lo.y && p.x != lo.x
    requires 0.0 < eps < NudgeBound(Segment(lo, hi), p)
    ensures p.y + eps < hi.y
    ensures var q := Point(p.x, p.y + eps);
      Cross(lo, hi, q) != 0.0 && (Cross(lo, hi, q) > 0.0 <==> Cross(lo, hi, p) > 0.0)
  {
    hide NudgeBound, Cross, LiftBound, Abs;
    var q := Point(p.x, p.y + eps);
    NudgeBoundAtLevel(lo, hi, p);
    CrossAtLevel(lo, hi, p);
    CrossLifted(lo, hi, p, eps);
    LiftKeepsSign(hi.x - lo.x, hi.y - lo.y, p.x - lo.x, eps, Cross(lo, hi, p), Cross(lo, hi, q));
  }

  /** Between the heights of the ends, being off the segment is being off its line. */
  lemma OffTheLine(s: Segment, p: Point)
    requires s.a.y != s.b.y && !OnSegment(s, p)
    ensures Between(s.a.y, s.b.y, p.y) ==> Cross(s.a, s.b, p) != 0.0 && Cross(s.b, s.a, p) != 0.0
  {
    CrossReversed(s.a, s.b, p);
    if Cross(s.a, s.b, p) == 0.0 && Between(s.a.y, s.b.y, p.y) {
      OnLineByY(s, p);
    }
  }

  lemma OffTheSegment(s: Segment, p: Point, eps: Positive)
    requires eps < NudgeBound(s, p) && !OnSegment(s, p) && s.a.y != s.b.y
    ensures Raycast(s, p, eps).inside == Crosses(s, p)
  {
    OnIsExact(s, p, eps);
    OffTheLine(s, p);
    var lo, hi := if s.a.y < s.b.y then s.a else s.b, if s.a.y < s.b.y then s.b else s.a;
    if lo.y <= p.y <= hi.y {
      var q := Point(p.x, Nudge(p.y, s.a.y, s.b.y, eps));
      assert Raycast(s, p, eps) == CastRay(s.a, s.b, q);
      if p.y == lo.y {
        assert NudgeBound(s, p) == NudgeBound(Segment(lo, hi), p);
        LiftKeepsSide(lo, hi, p, eps);
      }
      CrossReversed(s.a, s.b, q);
      if q.y <= hi.y {
        CastRayIsExact(s.a, s.b, q);
      }
    }
  }

  /** Raycast is exact over the reals: `on` is membership in the closed segment, `inside`
      is a crossing of the half-open segment by a point that is not on it, and the answer
      is the same for every nudge below the bound. */
  lemma RaycastIsExact(s: Segment, p: Point, eps: Positive)
    requires eps < NudgeBound(s, p)
    ensures Raycast(s, p, eps) == RaycastResult(!OnSegment(s, p) && Crosses(s, p), OnSegment(s, p))
  {
    OnIsExact(s, p, eps);
    if !OnSegment(s, p) && s.a.y != s.b.y {
      OffTheSegment(s, p, eps);
    }
  }
}
