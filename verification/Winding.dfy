/** What is worked out once about the points of a series: their bounding rectangle, which
    way they wind, and whether they ever turn both ways. */
module Winding {
  import opened Planar
  import opened Raycasting

  /** The points as a closed cycle, up to one time round. */
  function Cyclic(points: seq<Point>, i: nat): Point
    requires i < 2 * |points|
  {
    if i < |points| then points[i] else points[i - |points|]
  }

  // ---------- Winding ----------

  /** What the code adds up for one edge. */
  function Trapezoid(a: Point, b: Point): real {
    (b.x - a.x) * (b.y + a.y)
  }

  function TrapezoidSum(points: seq<Point>, k: nat): real
    requires k <= |points|
  {
    if k == 0 then 0.0 else TrapezoidSum(points, k - 1) + Trapezoid(points[k - 1], Cyclic(points, k))
  }

  /** Twice the signed area of the triangle that an edge spans with the origin. */
  function Spanned(a: Point, b: Point): real {
    a.x * b.y - b.x * a.y
  }

  /** The shoelace formula: twice the area that the cycle of points encloses, positive when
      it runs counter-clockwise. */
  function TwiceArea(points: seq<Point>, k: nat): real
    requires k <= |points|
  {
    if k == 0 then 0.0 else TwiceArea(points, k - 1) + Spanned(points[k - 1], Cyclic(points, k))
  }

  function Product(p: Point): real {
    p.x * p.y
  }

  lemma TrapezoidIsSpanned(a: Point, b: Point)
    ensures Trapezoid(a, b) == Product(b) - Product(a) - Spanned(a, b)
  {
  }

  /** The sum the code takes is the shoelace sum with the opposite sign: the rest telescopes
      around the cycle. */
  lemma {:induction false} TrapezoidsAreArea(points: seq<Point>, k: nat)
    requires 0 < |points| && k <= |points|
    ensures TrapezoidSum(points, k) == Product(Cyclic(points, k)) - Product(points[0]) - TwiceArea(points, k)
  {
    hide Trapezoid, Product, Spanned;
    if k == 0 {
    } else {
      TrapezoidsAreArea(points, k - 1);
      TrapezoidIsSpanned(points[k - 1], Cyclic(points, k));
    }
  }

  predicate IsClockwise(points: seq<Point>) {
    TwiceArea(points, |points|) < 0.0
  }

  // ---------- Turning ----------

  /** The turn at three consecutive points: positive to the left, negative to the right. */
  function Turning(a: Point, b: Point, c: Point): real {
    (b.x - a.x) * (c.y - b.y) - (b.y - a.y) * (c.x - b.x)
  }

  /** The turn is the side of the line from `a` to `b` that `c` is on, and the area that the
      triangle encloses. */
  lemma TurningIsSide(a: Point, b: Point, c: Point)
    ensures Turning(a, b, c) == Cross(a, b, c)
    ensures Turning(a, b, c) == Spanned(a, b) + Spanned(b, c) + Spanned(c, a)
  {
  }

  /** The triangles that the first point spans with the edges from point 1 to point `k`. */
  function Fan(points: seq<Point>, k: nat): real
    requires 0 < k < |points|
  {
    if k == 1 then 0.0 else Fan(points, k - 1) + Cross(points[0], points[k - 1], points[k])
  }

  lemma SpannedReversed(a: Point, b: Point)
    ensures Spanned(a, b) == -Spanned(b, a)
  {
  }

  /** The shoelace sum up to point `k`, closed by the way back to the first point, adds up the
      fan of triangles. */
  lemma {:induction false} AreaIsFanUpTo(points: seq<Point>, k: nat)
    requires 0 < k < |points|
    ensures TwiceArea(points, k) + Spanned(points[k], points[0]) == Fan(points, k)
  {
    hide Spanned, Cross;
    SpannedReversed(points[0], points[k]);
    if k == 1 {
      assert TwiceArea(points, 1) == TwiceArea(points, 0) + Spanned(points[0], points[1]);
    } else {
      AreaIsFanUpTo(points, k - 1);
      TurningIsSide(points[0], points[k - 1], points[k]);
      SpannedReversed(points[0], points[k - 1]);
    }
  }

  /** The area that the cycle encloses is that of its fan of triangles, with their signs. */
  lemma AreaIsFan(points: seq<Point>)
    requires 2 <= |points|
    ensures TwiceArea(points, |points|) == Fan(points, |points| - 1)
  {
    hide Spanned, Fan;
    AreaIsFanUpTo(points, |points| - 1);
  }

  function TurnAt(points: seq<Point>, i: nat): real
    requires i < |points| && 2 <= |points|
  {
    Turning(points[i], Cyclic(points, i + 1), Cyclic(points, i + 2))
  }

  /** Among the first `k` turns there are a left one and a right one. */
  ghost predicate TurnsBothWays(points: seq<Point>, k: nat)
    requires k <= |points| && 2 <= |points|
  {
    exists i, j :: 0 <= i < k && 0 <= j < k && TurnAt(points, i) > 0.0 && TurnAt(points, j) < 0.0
  }

  // ---------- Bounds ----------

  /** The smallest rectangle around the first `k` points: it holds them all, and each of its
      sides touches one. */
  ghost predicate Bounds(points: seq<Point>, k: nat, r: Rect)
    requires 0 < k <= |points|
  {
    && (forall i :: 0 <= i < k ==> r.ContainsPoint(points[i]))
    && (exists i :: 0 <= i < k && points[i].x == r.min.x) && (exists i :: 0 <= i < k && points[i].x == r.max.x)
    && (exists i :: 0 <= i < k && points[i].y == r.min.y) && (exists i :: 0 <= i < k && points[i].y == r.max.y)
  }

  lemma BoundsAreTightest(points: seq<Point>, r: Rect, other: Rect)
    requires points != [] && Bounds(points, |points|, r)
    ensures other.ContainsRect(r) <==> forall i :: 0 <= i < |points| ==> other.ContainsPoint(points[i])
  {
  }

  lemma BoundsAreUnique(points: seq<Point>, r: Rect, other: Rect)
    requires points != [] && Bounds(points, |points|, r) && Bounds(points, |points|, other)
    ensures r == other
  {
  }

  /** A series this short takes up no space, and nothing is worked out about it. */
  predicate TooShort(points: seq<Point>, closed: bool) {
    (closed && |points| < 3) || |points| < 2
  }

  const NO_RECT := Rect(Point(0.0, 0.0), Point(0.0, 0.0))

  ghost predicate Processed(points: seq<Point>, closed: bool, convex: bool, rect: Rect, clockwise: bool) {
    if TooShort(points, closed) then !convex && !clockwise && rect == NO_RECT
    else
      && Bounds(points, |points|, rect)
      && (clockwise <==> IsClockwise(points))
      && (convex <==> !TurnsBothWays(points, |points|))
  }

  /** One step of the rectangle inflation. */
  method Inflate(points: seq<Point>, i: nat, before: Rect) returns (rect: Rect)
    requires i < |points| && (i > 0 ==> Bounds(points, i, before))
    ensures Bounds(points, i + 1, rect)
  {
    rect := before;
    if i == 0 {
      rect := Rect(points[i], points[i]);
    } else {
      if points[i].x < rect.min.x {
        rect := rect.(min := rect.min.(x := points[i].x));
      } else if points[i].x > rect.max.x {
        rect := rect.(max := rect.max.(x := points[i].x));
      }
      if points[i].y < rect.min.y {
        rect := rect.(min := rect.min.(y := points[i].y));
      } else if points[i].y > rect.max.y {
        rect := rect.(max := rect.max.(y := points[i].y));
      }
    }
  }

  /** What the loop knows of the first `k` turns: whether both kinds were among them, and
      if not, which kind was. */
  ghost predicate TurnState(points: seq<Point>, k: nat, concave: bool, dir: int)
    requires k <= |points| && 2 <= |points|
  {
    && (concave <==> TurnsBothWays(points, k))
    && (!concave ==>
          && (dir == 0 || dir == 1 || dir == -1)
          && (forall i :: 0 <= i < k ==> (TurnAt(points, i) > 0.0 ==> dir == 1) && (TurnAt(points, i) < 0.0 ==> dir == -1))
          && (dir == 1 ==> exists i :: 0 <= i < k && TurnAt(points, i) > 0.0)
          && (dir == -1 ==> exists i :: 0 <= i < k && TurnAt(points, i) < 0.0))
  }

  lemma StartState(points: seq<Point>)
    requires 2 <= |points|
    ensures TurnState(points, 0, false, 0) && TrapezoidSum(points, 0) == 0.0
  {
  }

  lemma NextTurn(points: seq<Point>, k: nat, concave: bool, dir: int)
    requires 2 <= |points| && k < |points| && TurnState(points, k, concave, dir)
    ensures var z := TurnAt(points, k);
      var both := concave || (dir == 1 && z < 0.0) || (dir == -1 && z > 0.0);
      TurnState(points, k + 1, both, if concave || dir != 0 || z == 0.0 then dir else if z < 0.0 then -1 else 1)
  {
  }

  /** One turn of the loop, on the three points that follow each other cyclically. */
  lemma StepState(points: seq<Point>, i: nat, b: Point, c: Point, concave: bool, dir: int)
    requires 2 <= |points| && i < |points| && TurnState(points, i, concave, dir)
    requires b == if i == |points| - 1 then points[0] else points[i + 1]
    requires c == if i == |points| - 1 then points[1] else if i == |points| - 2 then points[0] else points[i + 2]
    ensures TrapezoidSum(points, i + 1) == TrapezoidSum(points, i) + Trapezoid(points[i], b)
    ensures var z := Turning(points[i], b, c);
      var both := concave || (dir == 1 && z < 0.0) || (dir == -1 && z > 0.0);
      TurnState(points, i + 1, both, if concave || dir != 0 || z == 0.0 then dir else if z < 0.0 then -1 else 1)
  {
    hide Trapezoid, Turning;
    assert TurnAt(points, i) == Turning(points[i], b, c);
    NextTurn(points, i, concave, dir);
  }

  lemma EndState(points: seq<Point>, concave: bool, dir: int)
    requires 2 <= |points| && TurnState(points, |points|, concave, dir)
    ensures concave <==> TurnsBothWays(points, |points|)
    ensures TrapezoidSum(points, |points|) > 0.0 <==> IsClockwise(points)
  {
    hide TurnAt, Trapezoid, Spanned, TwiceArea, TrapezoidSum;
    TrapezoidsAreArea(points, |points|);
  }

  /** Point `i + 2` is strictly to the left of the line from point `i` through point `i + 1`,
      counting around the cycle. */
  predicate BendsLeft(points: seq<Point>, i: nat)
    requires i < |points|
  {
    var n := |points|;
    Cross(points[i], points[(i + 1) % n], points[(i + 2) % n]) > 0.0
  }

  predicate BendsRight(points: seq<Point>, i: nat)
    requires i < |points|
  {
    var n := |points|;
    Cross(points[i], points[(i + 1) % n], points[(i + 2) % n]) < 0.0
  }

  lemma CyclicIsModulo(points: seq<Point>, i: nat)
    requires i < 2 * |points|
    ensures Cyclic(points, i) == points[i % |points|]
  {
    if i >= |points| {
      assert i % |points| == i - |points|;
    }
  }

  lemma TurnIsBend(points: seq<Point>, i: nat)
    requires i < |points| && 2 <= |points|
    ensures (TurnAt(points, i) > 0.0 <==> BendsLeft(points, i)) && (TurnAt(points, i) < 0.0 <==> BendsRight(points, i))
  {
    hide Turning, Cross, Cyclic;
    CyclicIsModulo(points, i + 1);
    CyclicIsModulo(points, i + 2);
    TurningIsSide(points[i], Cyclic(points, i + 1), Cyclic(points, i + 2));
  }

  /** The flags in terms of sides of lines and signed triangles. */
  lemma ProcessedMeans(points: seq<Point>, closed: bool, convex: bool, rect: Rect, clockwise: bool)
    requires Processed(points, closed, convex, rect, clockwise)
    ensures var few := |points| < if closed then 3 else 2;
      && (few ==> !convex && !clockwise && rect == Rect(Point(0.0, 0.0), Point(0.0, 0.0)))
      && (!few ==>
            && (convex <==> !exists i, j :: 0 <= i < |points| && 0 <= j < |points| && BendsLeft(points, i) && BendsRight(points, j))
            && (clockwise <==> Fan(points, |points| - 1) < 0.0)
            && (forall p :: p in points ==> rect.ContainsPoint(p))
            && (forall other: Rect :: (forall p :: p in points ==> other.ContainsPoint(p)) ==> other.ContainsRect(rect)))
  {
    hide TurnAt, Fan, TwiceArea, BendsLeft, BendsRight, Rect.ContainsPoint, Rect.ContainsRect;
    if !TooShort(points, closed) {
      AreaIsFan(points);
      forall i | 0 <= i < |points|
        ensures (TurnAt(points, i) > 0.0 <==> BendsLeft(points, i)) && (TurnAt(points, i) < 0.0 <==> BendsRight(points, i))
      {
        TurnIsBend(points, i);
      }
      forall other: Rect | forall p :: p in points ==> other.ContainsPoint(p)
        ensures other.ContainsRect(rect)
      {
        BoundsAreTightest(points, rect, other);
      }
    }
  }

  method ProcessPoints(points: seq<Point>, closed: bool) returns (convex: bool, rect: Rect, clockwise: bool)
    ensures Processed(points, closed, convex, rect, clockwise)
  {
    if (closed && |points| < 3) || |points| < 2 {
      return false, NO_RECT, false;
    }
    hide Trapezoid, Turning, TrapezoidSum, TurnAt, TurnState, Bounds, Cyclic, TurnsBothWays;
    var concave := false;
    var dir := 0;
    var cwc := 0.0;
    rect := NO_RECT;
    StartState(points);
    var i := 0;
    while i < |points|
      invariant 0 <= i <= |points|
      invariant i > 0 ==> Bounds(points, i, rect)
      invariant cwc == TrapezoidSum(points, i)
      invariant TurnState(points, i, concave, dir)
    {
      rect := Inflate(points, i, rect);

      var a := points[i];
      var b, c;
      if i == |points| - 1 {
        b, c := points[0], points[1];
      } else if i == |points| - 2 {
        b, c := points[i + 1], points[0];
      } else {
        b, c := points[i + 1], points[i + 2];
      }
      StepState(points, i, b, c, concave, dir);

      cwc := cwc + Trapezoid(a, b);
      if !concave {
        var zCrossProduct := Turning(a, b, c);
        if dir == 0 {
          if zCrossProduct < 0.0 {
            dir := -1;
          } else if zCrossProduct > 0.0 {
            dir := 1;
          }
        } else if zCrossProduct < 0.0 {
          if dir == 1 {
            concave := true;
          }
        } else if zCrossProduct > 0.0 {
          if dir == -1 {
            concave := true;
          }
        }
      }
      i := i + 1;
    }
    EndState(points, concave, dir);
    return !concave, rect, cwc > 0.0;
  }

  // ---------- Moving ----------

  function MovePoints(points: seq<Point>, dx: real, dy: real): (r: seq<Point>)
    ensures |r| == |points| && forall i :: 0 <= i < |r| ==> r[i] == points[i].Move(dx, dy)
  {
    seq(|points|, i requires 0 <= i < |points| => points[i].Move(dx, dy))
  }

  /** What moving by `dy` adds to the sum for an edge from `u` to `v` in x. */
  function Drift(dy: real, u: real, v: real): real {
    2.0 * dy * (v - u)
  }

  lemma DriftAdds(dy: real, u: real, v: real, w: real)
    ensures Drift(dy, u, v) + Drift(dy, v, w) == Drift(dy, u, w) && Drift(dy, u, u) == 0.0
  {
  }

  lemma MovedTrapezoid(a: Point, b: Point, dx: real, dy: real)
    ensures Trapezoid(a.Move(dx, dy), b.Move(dx, dy)) == Trapezoid(a, b) + Drift(dy, a.x, b.x)
  {
  }

  /** The terms that moving adds telescope around the cycle. */
  lemma {:induction false} MovedTrapezoids(points: seq<Point>, dx: real, dy: real, k: nat)
    requires 0 < |points| && k <= |points|
    ensures TrapezoidSum(MovePoints(points, dx, dy), k) ==
            TrapezoidSum(points, k) + Drift(dy, points[0].x, Cyclic(points, k).x)
  {
    hide Trapezoid, Drift;
    if k == 0 {
      DriftAdds(dy, points[0].x, points[0].x, points[0].x);
    } else {
      MovedTrapezoids(points, dx, dy, k - 1);
      MovedTrapezoid(points[k - 1], Cyclic(points, k), dx, dy);
      assert Cyclic(MovePoints(points, dx, dy), k) == Cyclic(points, k).Move(dx, dy);
      DriftAdds(dy, points[0].x, points[k - 1].x, Cyclic(points, k).x);
    }
  }

  lemma MovedArea(points: seq<Point>, dx: real, dy: real)
    requires points != []
    ensures TwiceArea(MovePoints(points, dx, dy), |points|) == TwiceArea(points, |points|)
  {
    hide TwiceArea, TrapezoidSum, Product, Drift;
    DriftAdds(dy, points[0].x, points[0].x, points[0].x);
    MovedTrapezoids(points, dx, dy, |points|);
    TrapezoidsAreArea(points, |points|);
    TrapezoidsAreArea(MovePoints(points, dx, dy), |points|);
  }

  lemma MovedTurnAt(points: seq<Point>, dx: real, dy: real, i: nat)
    requires 2 <= |points| && i < |points|
    ensures TurnAt(MovePoints(points, dx, dy), i) == TurnAt(points, i)
  {
  }

  lemma MovedTurns(points: seq<Point>, dx: real, dy: real)
    requires 2 <= |points|
    ensures TurnsBothWays(MovePoints(points, dx, dy), |points|) <==> TurnsBothWays(points, |points|)
  {
    hide TurnAt;
    var moved := MovePoints(points, dx, dy);
    forall i | 0 <= i < |points|
      ensures TurnAt(moved, i) == TurnAt(points, i)
    {
      MovedTurnAt(points, dx, dy, i);
    }
  }

  lemma MovedBounds(points: seq<Point>, dx: real, dy: real, r: Rect)
    requires points != [] && Bounds(points, |points|, r)
    ensures Bounds(MovePoints(points, dx, dy), |points|, r.Move(dx, dy))
  {
  }

  /** Moving the points moves the rectangle and changes neither winding nor convexity. */
  lemma MovedProcessed(points: seq<Point>, closed: bool, dx: real, dy: real, convex: bool, rect: Rect, clockwise: bool)
    requires !TooShort(points, closed) && Processed(points, closed, convex, rect, clockwise)
    ensures Processed(MovePoints(points, dx, dy), closed, convex, rect.Move(dx, dy), clockwise)
  {
    hide TwiceArea, TurnsBothWays, Bounds;
    MovedArea(points, dx, dy);
    MovedTurns(points, dx, dy);
    MovedBounds(points, dx, dy, rect);
  }
}
