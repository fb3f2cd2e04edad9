/** When two segments intersect, as the library answers it. */
module Intersecting {
  import opened Planar
  import opened Raycasting

  /** The nudge has no part in whether a point is on a segment, so any size will do. */
  predicate ContainsPoint(s: Segment, p: Point)
    ensures ContainsPoint(s, p) <==> OnSegment(s, p)
  {
    OnIsExact(s, p, 1.0);
    Raycast(s, p, 1.0).on
  }

  predicate ContainsSegment(s: Segment, other: Segment) {
    ContainsPoint(s, other.a) && ContainsPoint(s, other.b)
  }

  predicate CollinearPoint(s: Segment, p: Point) {
    (p.x - s.a.x) * (s.b.y - s.a.y) - (p.y - s.a.y) * (s.b.x - s.a.x) == 0.0
  }

  /** The test of the bounding boxes along one axis, by the order of each pair of ends. */
  predicate Apart(a: real, b: real, c: real, d: real) {
    if a > b then
      if c > d then b > c || a < d else b > d || a < c
    else
      if c > d then a > c || b < d else a > d || b < c
  }

  predicate SharedEnd(s: Segment, o: Segment) {
    s.a == o.a || s.a == o.b || s.b == o.a || s.b == o.b
  }

  /** The end of the test: parallel segments fail it, others compare both fractions. */
  predicate FractionsInRange(cmpxs: real, cmpxr: real, rxs: real) {
    if rxs == 0.0 then false
    else
      var rxsr := 1.0 / rxs;
      var t, u := cmpxs * rxsr, cmpxr * rxsr;
      t >= 0.0 && t <= 1.0 && u >= 0.0 && u <= 1.0
  }

  predicate IntersectsSegment(s: Segment, o: Segment) {
    var a, b, c, d := s.a, s.b, o.a, o.b;
    if Apart(a.y, b.y, c.y, d.y) then false
    else if Apart(a.x, b.x, c.x, d.x) then false
    else if SharedEnd(s, o) then true
    else
      var cmpx, cmpy := c.x - a.x, c.y - a.y;
      var rx, ry := b.x - a.x, b.y - a.y;
      var cmpxr := cmpx * ry - cmpy * rx;
      if cmpxr == 0.0 then
        if !(((c.x - a.x <= 0.0) != (c.x - b.x <= 0.0)) || ((c.y - a.y <= 0.0) != (c.y - b.y <= 0.0)))
        then ContainsPoint(s, o.a) || ContainsPoint(s, o.b)
        else true
      else
        var sx, sy := d.x - c.x, d.y - c.y;
        var cmpxs := cmpx * sy - cmpy * sx;
        var rxs := rx * sy - ry * sx;
        FractionsInRange(cmpxs, cmpxr, rxs)
  }

  // ---------- What the answer means ----------

  ghost predicate MeetAt(s: Segment, o: Segment, t: real, u: real) {
    0.0 <= t <= 1.0 && 0.0 <= u <= 1.0 && Along(s, t) == Along(o, u)
  }

  /** The two closed segments have a point in common. */
  ghost predicate SharePoint(s: Segment, o: Segment) {
    exists t, u :: MeetAt(s, o, t, u)
  }

  /** The cross product of the two directions. */
  function Turn(s: Segment, o: Segment): real {
    (s.b.x - s.a.x) * (o.b.y - o.a.y) - (s.b.y - s.a.y) * (o.b.x - o.a.x)
  }

  predicate Parallel(s: Segment, o: Segment) {
    Turn(s, o) == 0.0
  }

  /** `other` covers all of `s` without touching either of its ends. */
  predicate Swallows(other: Segment, s: Segment) {
    ContainsSegment(other, s) && !SharedEnd(s, other)
  }

  lemma EndsAreOn(s: Segment)
    ensures Along(s, 0.0) == s.a && Along(s, 1.0) == s.b
    ensures OnSegment(s, s.a) && OnSegment(s, s.b)
  {
    assert s.a == Along(s, 0.0);
    assert s.b == Along(s, 1.0);
  }

  lemma CollinearIsCross(s: Segment, p: Point)
    ensures CollinearPoint(s, p) <==> Cross(s.a, s.b, p) == 0.0
  {
    assert Cross(s.a, s.b, p) ==
      -((p.x - s.a.x) * (s.b.y - s.a.y) - (p.y - s.a.y) * (s.b.x - s.a.x));
  }

  lemma OnMeansNotApart(s: Segment, o: Segment, p: Point)
    requires OnSegment(s, p) && OnSegment(o, p)
    ensures !Apart(s.a.x, s.b.x, o.a.x, o.b.x) && !Apart(s.a.y, s.b.y, o.a.y, o.b.y)
  {
    OnSegmentIsBoxAndLine(s, p);
    OnSegmentIsBoxAndLine(o, p);
  }

  lemma CramerT(rx: real, ry: real, sx: real, sy: real, t: real, u: real, cx: real, cy: real)
    requires cx == t * rx - u * sx && cy == t * ry - u * sy
    ensures t * (rx * sy - ry * sx) == cx * sy - cy * sx
    ensures u * (rx * sy - ry * sx) == cx * ry - cy * rx
  {
  }

  /** Where two lines meet, Cramer's rule gives both fractions. */
  lemma MeetSolves(s: Segment, o: Segment, t: real, u: real)
    requires Along(s, t) == Along(o, u)
    ensures t * Turn(s, o) == (o.a.x - s.a.x) * (o.b.y - o.a.y) - (o.a.y - s.a.y) * (o.b.x - o.a.x)
    ensures u * Turn(s, o) == -Cross(s.a, s.b, o.a)
  {
    var rx, ry, sx, sy := s.b.x - s.a.x, s.b.y - s.a.y, o.b.x - o.a.x, o.b.y - o.a.y;
    var cx, cy := o.a.x - s.a.x, o.a.y - s.a.y;
    assert cx == t * rx - u * sx && cy == t * ry - u * sy;
    CramerT(rx, ry, sx, sy, t, u, cx, cy);
  }

  lemma CancelFactor(w: real, x: real, y: real)
    requires w != 0.0 && w * x == w * y
    ensures x == y
  {
    ProductIsZero(w, x - y);
  }

  lemma CramerBack(rx: real, ry: real, sx: real, sy: real, t: real, u: real, cx: real, cy: real)
    requires rx * sy - ry * sx != 0.0
    requires t * (rx * sy - ry * sx) == cx * sy - cy * sx
    requires u * (rx * sy - ry * sx) == cx * ry - cy * rx
    ensures cx == t * rx - u * sx && cy == t * ry - u * sy
  {
    var w := rx * sy - ry * sx;
    assert w * (t * rx - u * sx) == (t * w) * rx - (u * w) * sx == w * cx;
    assert w * (t * ry - u * sy) == (t * w) * ry - (u * w) * sy == w * cy;
    CancelFactor(w, t * rx - u * sx, cx);
    CancelFactor(w, t * ry - u * sy, cy);
  }

  lemma SolvesMeet(s: Segment, o: Segment, t: real, u: real)
    requires Turn(s, o) != 0.0
    requires t * Turn(s, o) == (o.a.x - s.a.x) * (o.b.y - o.a.y) - (o.a.y - s.a.y) * (o.b.x - o.a.x)
    requires u * Turn(s, o) == -Cross(s.a, s.b, o.a)
    ensures Along(s, t) == Along(o, u)
  {
    var rx, ry, sx, sy := s.b.x - s.a.x, s.b.y - s.a.y, o.b.x - o.a.x, o.b.y - o.a.y;
    CramerBack(rx, ry, sx, sy, t, u, o.a.x - s.a.x, o.a.y - s.a.y);
  }

  /** One end of `o` on `s`, or the segments cross at a proper angle. */
  ghost predicate TouchesOrCrosses(s: Segment, o: Segment) {
    OnSegment(s, o.a) || OnSegment(s, o.b) || (!Parallel(s, o) && SharePoint(s, o))
  }

  /** The two numerators of Cramer's rule, as the code computes them. */
  function Numerators(s: Segment, o: Segment): (real, real) {
    ((o.a.x - s.a.x) * (o.b.y - o.a.y) - (o.a.y - s.a.y) * (o.b.x - o.a.x),
     (o.a.x - s.a.x) * (s.b.y - s.a.y) - (o.a.y - s.a.y) * (s.b.x - s.a.x))
  }

  lemma NumeratorIsCross(s: Segment, o: Segment)
    ensures Numerators(s, o).1 == -Cross(s.a, s.b, o.a)
  {
  }

  lemma CrossingFound(s: Segment, o: Segment, t: real, u: real)
    requires !Parallel(s, o) && 0.0 <= t <= 1.0 && 0.0 <= u <= 1.0
    requires t * Turn(s, o) == Numerators(s, o).0 && u * Turn(s, o) == Numerators(s, o).1
    ensures SharePoint(s, o)
  {
    NumeratorIsCross(s, o);
    SolvesMeet(s, o, t, u);
    assert MeetAt(s, o, t, u);
  }

  lemma CrossingUnique(s: Segment, o: Segment, t: real, u: real, t': real, u': real)
    requires !Parallel(s, o) && Along(s, t') == Along(o, u')
    requires t * Turn(s, o) == Numerators(s, o).0 && u * Turn(s, o) == Numerators(s, o).1
    ensures t' == t && u' == u
  {
    NumeratorIsCross(s, o);
    MeetSolves(s, o, t', u');
    CancelFactor(Turn(s, o), t', t);
    CancelFactor(Turn(s, o), u', u);
  }

  /** At a proper angle the fractions are determined, so testing them decides the meeting. */
  lemma CrossingDecided(s: Segment, o: Segment, t: real, u: real)
    requires !Parallel(s, o)
    requires t * Turn(s, o) == Numerators(s, o).0 && u * Turn(s, o) == Numerators(s, o).1
    ensures SharePoint(s, o) <==> 0.0 <= t <= 1.0 && 0.0 <= u <= 1.0
  {
    if 0.0 <= t <= 1.0 && 0.0 <= u <= 1.0 {
      CrossingFound(s, o, t, u);
    }
    if SharePoint(s, o) {
      var t', u' :| MeetAt(s, o, t', u');
      CrossingUnique(s, o, t, u, t', u');
    }
  }

  lemma ZeroIsOutOfRange(x: real, y: real)
    ensures !FractionsInRange(x, y, 0.0)
  {
  }

  lemma TimesInverse(x: real, w: real)
    requires w != 0.0
    ensures (x * (1.0 / w)) * w == x
  {
    assert (1.0 / w) * w == 1.0;
    assert (x * (1.0 / w)) * w == x * ((1.0 / w) * w);
  }

  lemma InRange(x: real, y: real, w: real)
    requires w != 0.0
    ensures (x * (1.0 / w)) * w == x && (y * (1.0 / w)) * w == y
    ensures FractionsInRange(x, y, w) <==> 0.0 <= x * (1.0 / w) <= 1.0 && 0.0 <= y * (1.0 / w) <= 1.0
  {
    TimesInverse(x, w);
    TimesInverse(y, w);
  }

  lemma CrossingBranch(s: Segment, o: Segment)
    ensures FractionsInRange(Numerators(s, o).0, Numerators(s, o).1, Turn(s, o)) <==>
      !Parallel(s, o) && SharePoint(s, o)
  {
    hide Numerators, Turn, FractionsInRange, SharePoint;
    if !Parallel(s, o) {
      InRange(Numerators(s, o).0, Numerators(s, o).1, Turn(s, o));
      CrossingDecided(s, o, Numerators(s, o).0 * (1.0 / Turn(s, o)), Numerators(s, o).1 * (1.0 / Turn(s, o)));
    } else {
      ZeroIsOutOfRange(Numerators(s, o).0, Numerators(s, o).1);
    }
  }

  /** When `o.a` is on the line of `s`, a proper crossing can only happen at `o.a`. */
  lemma CrossingOnLine(s: Segment, o: Segment)
    requires Cross(s.a, s.b, o.a) == 0.0 && !Parallel(s, o) && SharePoint(s, o)
    ensures OnSegment(s, o.a)
  {
    var t, u :| MeetAt(s, o, t, u);
    MeetSolves(s, o, t, u);
    ProductIsZero(u, Turn(s, o));
    EndsAreOn(o);
  }

  lemma TurnIsDifference(s: Segment, o: Segment)
    ensures Turn(s, o) == Cross(s.a, s.b, o.b) - Cross(s.a, s.b, o.a)
  {
  }

  /** When only `o.b` is on the segment the directions differ, and the crossing is `o.b`. */
  lemma FarEndCrosses(s: Segment, o: Segment)
    requires OnSegment(s, o.b) && Cross(s.a, s.b, o.a) != 0.0
    ensures !Parallel(s, o) && SharePoint(s, o)
  {
    hide Turn, Cross, Along;
    OnSegmentIsBoxAndLine(s, o.b);
    TurnIsDifference(s, o);
    var t :| 0.0 <= t <= 1.0 && o.b == Along(s, t);
    EndsAreOn(o);
    assert MeetAt(s, o, t, 1.0);
  }

  lemma TouchMeansNotApart(s: Segment, o: Segment)
    requires TouchesOrCrosses(s, o)
    ensures !Apart(s.a.x, s.b.x, o.a.x, o.b.x) && !Apart(s.a.y, s.b.y, o.a.y, o.b.y)
  {
    EndsAreOn(o);
    if OnSegment(s, o.a) {
      OnMeansNotApart(s, o, o.a);
    } else if OnSegment(s, o.b) {
      OnMeansNotApart(s, o, o.b);
    } else {
      var t, u :| MeetAt(s, o, t, u);
      OnMeansNotApart(s, o, Along(s, t));
    }
  }

  lemma SharedEndTouches(s: Segment, o: Segment)
    requires SharedEnd(s, o)
    ensures TouchesOrCrosses(s, o)
  {
    EndsAreOn(s);
  }

  lemma OnLineBranch(s: Segment, o: Segment)
    requires Cross(s.a, s.b, o.a) == 0.0
    ensures TouchesOrCrosses(s, o) <==> OnSegment(s, o.a) || OnSegment(s, o.b)
    ensures (o.a.x - s.a.x <= 0.0) != (o.a.x - s.b.x <= 0.0) ==> OnSegment(s, o.a)
    ensures (o.a.y - s.a.y <= 0.0) != (o.a.y - s.b.y <= 0.0) ==> OnSegment(s, o.a)
  {
    if !Parallel(s, o) && SharePoint(s, o) {
      CrossingOnLine(s, o);
    }
    if (o.a.x - s.a.x <= 0.0) != (o.a.x - s.b.x <= 0.0) || (o.a.y - s.a.y <= 0.0) != (o.a.y - s.b.y <= 0.0) {
      if s.a.x != s.b.x && Between(s.a.x, s.b.x, o.a.x) {
        OnLineByX(s, o.a);
      } else {
        OnLineByY(s, o.a);
      }
    }
  }

  lemma OffLineCode(s: Segment, o: Segment)
    requires Cross(s.a, s.b, o.a) != 0.0
    requires !Apart(s.a.y, s.b.y, o.a.y, o.b.y) && !Apart(s.a.x, s.b.x, o.a.x, o.b.x) && !SharedEnd(s, o)
    ensures IntersectsSegment(s, o) <==> FractionsInRange(Numerators(s, o).0, Numerators(s, o).1, Turn(s, o))
  {
    hide FractionsInRange, Apart;
    NumeratorIsCross(s, o);
  }

  lemma OffLineMeaning(s: Segment, o: Segment)
    requires Cross(s.a, s.b, o.a) != 0.0
    ensures TouchesOrCrosses(s, o) <==> !Parallel(s, o) && SharePoint(s, o)
  {
    OnSegmentIsBoxAndLine(s, o.a);
    if OnSegment(s, o.b) {
      FarEndCrosses(s, o);
    }
  }

  lemma OffLineBranch(s: Segment, o: Segment)
    requires Cross(s.a, s.b, o.a) != 0.0
    requires !Apart(s.a.y, s.b.y, o.a.y, o.b.y) && !Apart(s.a.x, s.b.x, o.a.x, o.b.x) && !SharedEnd(s, o)
    ensures IntersectsSegment(s, o) <==> TouchesOrCrosses(s, o)
  {
    hide *;
    OffLineMeaning(s, o);
    OffLineCode(s, o);
    CrossingBranch(s, o);
  }

  /** The answer in closed form. */
  lemma IntersectsIsTouchOrCross(s: Segment, o: Segment)
    ensures IntersectsSegment(s, o) <==> TouchesOrCrosses(s, o)
  {
    var apart := Apart(s.a.y, s.b.y, o.a.y, o.b.y) || Apart(s.a.x, s.b.x, o.a.x, o.b.x);
    if TouchesOrCrosses(s, o) {
      TouchMeansNotApart(s, o);
    }
    if SharedEnd(s, o) {
      SharedEndTouches(s, o);
    }
    if !apart && !SharedEnd(s, o) {
      CollinearIsCross(s, o.a);
      if Cross(s.a, s.b, o.a) == 0.0 {
        OnLineBranch(s, o);
      } else {
        OffLineBranch(s, o);
      }
    }
  }

  // ---------- Exactly when the answer is geometric intersection ----------

  /** Parallel to a proper segment: the direction is a multiple of the other's. */
  lemma Multiple(s: Segment, o: Segment) returns (k: real)
    requires Parallel(s, o) && o.a != o.b
    ensures s.b.x - s.a.x == k * (o.b.x - o.a.x) && s.b.y - s.a.y == k * (o.b.y - o.a.y)
  {
    var rx, ry, sx, sy := s.b.x - s.a.x, s.b.y - s.a.y, o.b.x - o.a.x, o.b.y - o.a.y;
    if sx != 0.0 {
      k := rx / sx;
      DivBy(rx, sx);
      SameRatio(sx, sy, k, rx, ry);
    } else {
      k := ry / sy;
      DivBy(ry, sy);
      ProductIsZero(rx, sy);
    }
  }

  /** Both ends of `s` placed on the line of `o`, at positions `x` and `y`. */
  ghost predicate Placed(s: Segment, o: Segment, x: real, y: real) {
    s.a == Along(o, x) && s.b == Along(o, y)
  }

  lemma PlaceBetween(u: real, t: real, k: real)
    requires 0.0 <= t <= 1.0
    ensures Between(u - t * k, u - t * k + k, u)
  {
    MixIsBetween(0.0, k, t);
  }

  lemma MixIs(u: real, v: real, t: real, w: real)
    requires v - u == w
    ensures Mix(u, v, t) == u + t * w
  {
  }

  lemma PlaceEnds(a: real, c: real, e: real, k: real, t: real, u: real)
    requires a + t * (k * e) == c + u * e
    ensures a == c + (u - t * k) * e && a + k * e == c + (u - t * k + k) * e
  {
  }

  lemma PlaceAxis(a: real, b: real, c: real, d: real, e: real, t: real, u: real, k: real)
    requires d - c == e && b - a == k * e && Mix(a, b, t) == Mix(c, d, u)
    ensures a == Mix(c, d, u - t * k) && b == Mix(c, d, u - t * k + k)
  {
    MixIs(a, b, t, k * e);
    MixIs(c, d, u, e);
    MixIs(c, d, u - t * k, e);
    MixIs(c, d, u - t * k + k, e);
    hide Mix;
    PlaceEnds(a, c, e, k, t, u);
  }

  lemma PlacedByMeeting(s: Segment, o: Segment, t: real, u: real) returns (x: real, y: real)
    requires Parallel(s, o) && o.a != o.b && MeetAt(s, o, t, u)
    ensures Placed(s, o, x, y) && Between(x, y, u)
  {
    hide Mix, Turn;
    var k := Multiple(s, o);
    x, y := u - t * k, u - t * k + k;
    PlaceAxis(s.a.x, s.b.x, o.a.x, o.b.x, o.b.x - o.a.x, t, u, k);
    PlaceAxis(s.a.y, s.b.y, o.a.y, o.b.y, o.b.y - o.a.y, t, u, k);
    PlaceBetween(u, t, k);
  }

  lemma ProportionAxis(c: real, d: real, x: real, y: real, t: real)
    ensures Mix(Mix(c, d, x), Mix(c, d, y), t) == Mix(c, d, Mix(x, y, t))
  {
    var e := d - c;
    assert t * (y * e - x * e) == (t * (y - x)) * e;
  }

  /** Moving along `s` moves along the line of `o` in proportion. */
  lemma PlacedAlong(s: Segment, o: Segment, x: real, y: real, t: real)
    requires Placed(s, o, x, y)
    ensures Along(s, t) == Along(o, Mix(x, y, t))
  {
    hide Mix;
    ProportionAxis(o.a.x, o.b.x, x, y, t);
    ProportionAxis(o.a.y, o.b.y, x, y, t);
  }

  lemma AlongInjective(o: Segment, x: real, y: real)
    requires o.a != o.b && Along(o, x) == Along(o, y)
    ensures x == y
  {
    if o.a.x != o.b.x {
      CancelFactor(o.b.x - o.a.x, x, y);
    } else {
      CancelFactor(o.b.y - o.a.y, x, y);
    }
  }

  lemma PositionAt(s: Segment, o: Segment, x: real, y: real, z: real, t: real)
    requires o.a != o.b && Placed(s, o, x, y) && 0.0 <= t <= 1.0 && Along(o, z) == Along(s, t)
    ensures Between(x, y, z)
  {
    hide *;
    MixIsBetween(x, y, t);
    PlacedAlong(s, o, x, y, t);
    AlongInjective(o, z, Mix(x, y, t));
  }

  lemma CoveredIsBetween(s: Segment, o: Segment, x: real, y: real, z: real)
    requires o.a != o.b && Placed(s, o, x, y) && OnSegment(s, Along(o, z))
    ensures Between(x, y, z)
  {
    var t :| 0.0 <= t <= 1.0 && Along(o, z) == Along(s, t);
    PositionAt(s, o, x, y, z, t);
  }

  lemma BetweenIsCovered(s: Segment, o: Segment, x: real, y: real, z: real)
    requires Placed(s, o, x, y) && Between(x, y, z)
    ensures OnSegment(s, Along(o, z))
  {
    if x == y {
      EndsAreOn(s);
    } else {
      var t := FractionOf(x, y, z);
      PlacedAlong(s, o, x, y, t);
      assert Along(s, t) == Along(o, z);
    }
  }

  /** A placed segment covers exactly the positions between its ends. */
  lemma PlacedCovers(s: Segment, o: Segment, x: real, y: real, z: real)
    requires o.a != o.b && Placed(s, o, x, y)
    ensures OnSegment(s, Along(o, z)) <==> Between(x, y, z)
  {
    if OnSegment(s, Along(o, z)) {
      CoveredIsBetween(s, o, x, y, z);
    }
    if Between(x, y, z) {
      BetweenIsCovered(s, o, x, y, z);
    }
  }

  /** Two points of a proper segment span a parallel direction. */
  lemma PlacedIsParallel(s: Segment, o: Segment, x: real, y: real)
    requires Placed(s, o, x, y)
    ensures Parallel(s, o)
  {
    var sx, sy := o.b.x - o.a.x, o.b.y - o.a.y;
    assert s.b.x - s.a.x == (y - x) * sx && s.b.y - s.a.y == (y - x) * sy;
    assert ((y - x) * sx) * sy == ((y - x) * sy) * sx;
  }

  lemma PointIsMet(s: Segment, o: Segment, t: real, u: real)
    requires MeetAt(s, o, t, u) && o.a == o.b
    ensures OnSegment(s, o.a)
  {
    assert Along(s, t) == o.a;
  }

  lemma InsideUnit(x: real, y: real, u: real)
    requires Between(x, y, u) && 0.0 <= u <= 1.0
    requires !Between(x, y, 0.0) && !Between(x, y, 1.0)
    ensures 0.0 < x < 1.0 && 0.0 < y < 1.0
  {
  }

  /** Missed by the code: parallel segments that meet, with neither end of `o` on `s`. */
  lemma MissedIsSwallowed(s: Segment, o: Segment)
    requires SharePoint(s, o) && !TouchesOrCrosses(s, o)
    ensures Swallows(o, s)
  {
    var t, u :| MeetAt(s, o, t, u);
    EndsAreOn(o);
    EndsAreOn(s);
    if o.a == o.b {
      PointIsMet(s, o, t, u);
    } else {
      var x, y := PlacedByMeeting(s, o, t, u);
      PlacedCovers(s, o, x, y, 0.0);
      PlacedCovers(s, o, x, y, 1.0);
      assert 0.0 < x < 1.0 && 0.0 < y < 1.0 by {
        InsideUnit(x, y, u);
      }
    }
  }

  lemma SwallowedIsMissed(s: Segment, o: Segment)
    requires Swallows(o, s)
    ensures SharePoint(s, o) && !TouchesOrCrosses(s, o)
  {
    var x :| 0.0 <= x <= 1.0 && s.a == Along(o, x);
    var y :| 0.0 <= y <= 1.0 && s.b == Along(o, y);
    EndsAreOn(o);
    EndsAreOn(s);
    assert MeetAt(s, o, 0.0, x);
    PlacedIsParallel(s, o, x, y);
    PlacedCovers(s, o, x, y, 0.0);
    PlacedCovers(s, o, x, y, 1.0);
  }

  /** The code answers "the closed segments share a point", except that it misses exactly
      the pairs where `o` covers `s` and they have no end in common. */
  lemma IntersectsIsExact(s: Segment, o: Segment)
    ensures IntersectsSegment(s, o) <==> SharePoint(s, o) && !Swallows(o, s)
  {
    IntersectsIsTouchOrCross(s, o);
    EndsAreOn(o);
    if SharePoint(s, o) && !TouchesOrCrosses(s, o) {
      MissedIsSwallowed(s, o);
    }
    if Swallows(o, s) {
      SwallowedIsMissed(s, o);
    }
    if OnSegment(s, o.a) {
      var t :| 0.0 <= t <= 1.0 && o.a == Along(s, t);
      assert MeetAt(s, o, t, 0.0);
    } else if OnSegment(s, o.b) {
      var t :| 0.0 <= t <= 1.0 && o.b == Along(s, t);
      assert MeetAt(s, o, t, 1.0);
    }
  }

  lemma SharePointSymmetric(s: Segment, o: Segment)
    ensures SharePoint(s, o) <==> SharePoint(o, s)
  {
    if SharePoint(s, o) {
      var t, u :| MeetAt(s, o, t, u);
      assert MeetAt(o, s, u, t);
    }
    if SharePoint(o, s) {
      var t, u :| MeetAt(o, s, t, u);
      assert MeetAt(s, o, u, t);
    }
  }

  lemma NotBothSwallow(s: Segment, o: Segment)
    ensures !Swallows(o, s) || !Swallows(s, o)
  {
    if Swallows(o, s) {
      SwallowedIsMissed(s, o);
    }
  }

  /** Sharing a point means what it says. */
  lemma SharePointIsCommonPoint(s: Segment, o: Segment)
    ensures SharePoint(s, o) <==> exists p :: OnSegment(s, p) && OnSegment(o, p)
  {
    hide Along;
    if SharePoint(s, o) {
      var t, u :| MeetAt(s, o, t, u);
      assert OnSegment(s, Along(s, t)) && OnSegment(o, Along(s, t));
    }
    if p :| OnSegment(s, p) && OnSegment(o, p) {
      var t :| 0.0 <= t <= 1.0 && p == Along(s, t);
      var u :| 0.0 <= u <= 1.0 && p == Along(o, u);
      assert MeetAt(s, o, t, u);
    }
  }

  lemma CoversBetween(s: Segment, o: Segment, p: Point)
    requires OnSegment(s, o.a) && OnSegment(s, o.b) && OnSegment(o, p)
    ensures OnSegment(s, p)
  {
    hide Along, Mix;
    var x :| 0.0 <= x <= 1.0 && o.a == Along(s, x);
    var y :| 0.0 <= y <= 1.0 && o.b == Along(s, y);
    var t :| 0.0 <= t <= 1.0 && p == Along(o, t);
    PlacedAlong(o, s, x, y, t);
    MixIsBetween(x, y, t);
  }

  /** Containing both ends of a segment is containing all of its points. */
  lemma ContainsSegmentIsAllPoints(s: Segment, o: Segment)
    ensures ContainsSegment(s, o) <==> forall p :: OnSegment(o, p) ==> OnSegment(s, p)
  {
    EndsAreOn(o);
    hide OnSegment;
    if ContainsSegment(s, o) {
      forall p | OnSegment(o, p)
        ensures OnSegment(s, p)
      {
        CoversBetween(s, o, p);
      }
    }
  }

  /** What it takes to be missed: all points covered, and four different ends. */
  lemma SwallowsMeans(other: Segment, s: Segment)
    ensures Swallows(other, s) <==>
      && (forall p :: OnSegment(s, p) ==> OnSegment(other, p))
      && s.a != other.a && s.a != other.b && s.b != other.a && s.b != other.b
  {
    hide OnSegment, ContainsSegment;
    ContainsSegmentIsAllPoints(other, s);
  }

  /** The answer depends on the order of the segments exactly when one covers the other and
      they have no end in common. */
  lemma SymmetricExactly(s: Segment, o: Segment)
    ensures IntersectsSegment(s, o) == IntersectsSegment(o, s) <==> !Swallows(o, s) && !Swallows(s, o)
  {
    hide IntersectsSegment, SharePoint, Swallows, TouchesOrCrosses;
    IntersectsIsExact(s, o);
    IntersectsIsExact(o, s);
    SharePointSymmetric(s, o);
    NotBothSwallow(s, o);
    if Swallows(o, s) {
      SwallowedIsMissed(s, o);
    }
    if Swallows(s, o) {
      SwallowedIsMissed(o, s);
    }
  }

  lemma SwallowedIsParallel(s: Segment, o: Segment)
    requires Swallows(o, s)
    ensures Parallel(s, o)
  {
    SwallowedIsMissed(s, o);
  }

  lemma TurnReversed(s: Segment, o: Segment)
    ensures Turn(o, s) == -Turn(s, o)
  {
  }

  /** In particular, segments that are not parallel get the same answer in either order. */
  lemma IntersectsIsSymmetric(s: Segment, o: Segment)
    requires !Parallel(s, o)
    ensures IntersectsSegment(s, o) == IntersectsSegment(o, s)
  {
    hide IntersectsSegment, Swallows;
    SymmetricExactly(s, o);
    TurnReversed(s, o);
    if Swallows(o, s) {
      SwallowedIsParallel(s, o);
    }
    if Swallows(s, o) {
      SwallowedIsParallel(o, s);
    }
  }

  /** A parallel pair whose answer depends on the order: the segment from 1 to 2 against
      the segment from 0 to 3. */
  lemma IntersectsIsNotSymmetric()
    ensures var s := Segment(Point(1.0, 0.0), Point(2.0, 0.0));
      var o := Segment(Point(0.0, 0.0), Point(3.0, 0.0));
      !IntersectsSegment(s, o) && IntersectsSegment(o, s) && SharePoint(s, o)
  {
    var s := Segment(Point(1.0, 0.0), Point(2.0, 0.0));
    var o := Segment(Point(0.0, 0.0), Point(3.0, 0.0));
    assert Raycast(o, s.a, 1.0).on && Raycast(o, s.b, 1.0).on;
    SwallowedIsMissed(s, o);
    IntersectsIsExact(s, o);
  }

  /** Intersecting segments have intersecting boxes, so filtering by box loses none. */
  lemma IntersectsImpliesBoxes(s: Segment, o: Segment)
    requires IntersectsSegment(s, o)
    ensures o.Box().IntersectsRect(s.Box())
  {
  }
}
