/** Points, rectangles and segments of the plane, with the comparisons the index and
    the predicates are built from.  Coordinates are real numbers. */
module Planar {

  datatype Point = Point(x: real, y: real) {
    function Move(dx: real, dy: real): (p: Point)
      ensures p.x - x == dx && p.y - y == dy
    {
      Point(x + dx, y + dy)
    }
  }

  datatype Rect = Rect(min: Point, max: Point) {
    function Move(dx: real, dy: real): Rect {
      Rect(min.Move(dx, dy), max.Move(dx, dy))
    }

    predicate WellFormed() {
      min.x <= max.x && min.y <= max.y
    }

    predicate ContainsPoint(p: Point) {
      p.x >= min.x && p.x <= max.x && p.y >= min.y && p.y <= max.y
    }

    predicate ContainsRect(other: Rect) {
      if other.min.x < min.x || other.max.x > max.x then false
      else if other.min.y < min.y || other.max.y > max.y then false
      else true
    }

    predicate IntersectsRect(other: Rect) {
      if min.y > other.max.y || max.y < other.min.y then false
      else if min.x > other.max.x || max.x < other.min.x then false
      else true
    }
  }

  datatype Segment = Segment(a: Point, b: Point) {
    function Move(dx: real, dy: real): Segment {
      Segment(a.Move(dx, dy), b.Move(dx, dy))
    }

    function Flip(): Segment {
      Segment(b, a)
    }

    /** The outer boundary of the segment. */
    function Box(): Rect {
      var r := Rect(a, b);
      var s := if r.min.x > r.max.x
               then Rect(Point(r.max.x, r.min.y), Point(r.min.x, r.max.y)) else r;
      if s.min.y > s.max.y
      then Rect(Point(s.min.x, s.max.y), Point(s.max.x, s.min.y)) else s
    }
  }

  /** What a search is asked for: a rectangle, or the rectangle of height zero that is
      infinite in both x directions, which point-in-ring tests use. */
  datatype Query = Window(rect: Rect) | Level(y: real) {
    predicate Meets(r: Rect) {
      match this
      case Window(w) => r.IntersectsRect(w)
      case Level(y) => !(r.min.y > y || r.max.y < y)
    }

    predicate WellFormed() {
      Window? ==> rect.WellFormed()
    }

    /** The points that are asked for. */
    predicate Holds(p: Point) {
      match this
      case Window(w) => w.ContainsPoint(p)
      case Level(y) => p.y == y
    }

    function Move(dx: real, dy: real): Query {
      match this
      case Window(w) => Window(w.Move(dx, dy))
      case Level(y) => Level(y + dy)
    }
  }

  /** The box is well formed, holds both ends, and lies in every rectangle that does. */
  lemma BoxIsTightest(s: Segment, r: Rect)
    ensures s.Box().WellFormed() && s.Box().ContainsPoint(s.a) && s.Box().ContainsPoint(s.b)
    ensures r.ContainsRect(s.Box()) <==> r.ContainsPoint(s.a) && r.ContainsPoint(s.b)
  {
  }

  /** Two well-formed rectangles intersect exactly when they share a point. */
  lemma IntersectsIsSharedPoint(r: Rect, s: Rect)
    requires r.WellFormed() && s.WellFormed()
    ensures r.IntersectsRect(s) <==> exists p: Point :: r.ContainsPoint(p) && s.ContainsPoint(p)
  {
    if r.IntersectsRect(s) {
      var p := Point(if r.min.x < s.min.x then s.min.x else r.min.x,
                     if r.min.y < s.min.y then s.min.y else r.min.y);
      assert r.ContainsPoint(p) && s.ContainsPoint(p);
    }
  }

  /** One rectangle contains another exactly when it contains all of its points. */
  lemma ContainsIsAllPoints(r: Rect, s: Rect)
    requires s.WellFormed()
    ensures r.ContainsRect(s) <==> forall p: Point :: s.ContainsPoint(p) ==> r.ContainsPoint(p)
  {
    if forall p: Point :: s.ContainsPoint(p) ==> r.ContainsPoint(p) {
      assert s.ContainsPoint(s.min) && s.ContainsPoint(s.max);
    }
  }

  /** A query meets a rectangle exactly when it asks for one of its points. */
  lemma MeetsIsCommonPoint(query: Query, r: Rect)
    requires query.WellFormed() && r.WellFormed()
    ensures query.Meets(r) <==> exists p: Point :: r.ContainsPoint(p) && query.Holds(p)
  {
    match query
    case Window(w) => IntersectsIsSharedPoint(r, w);
    case Level(y) =>
      if query.Meets(r) {
        assert r.ContainsPoint(Point(r.min.x, y));
      }
  }

  /** Also when it is not well formed, a window is compared with a rectangle on both axes. */
  lemma MeetsByAxis(w: Rect, r: Rect)
    ensures Window(w).Meets(r) <==>
      r.min.x <= w.max.x && w.min.x <= r.max.x && r.min.y <= w.max.y && w.min.y <= r.max.y
  {
  }

  /** The moved query asks for the moved points. */
  lemma MovedHolds(query: Query, p: Point, dx: real, dy: real)
    ensures query.Move(dx, dy).Holds(p.Move(dx, dy)) <==> query.Holds(p)
  {
  }

  /** Enlarging a rectangle never loses a query: this is what makes pruning sound. */
  lemma MeetsIsMonotone(outer: Rect, inner: Rect, query: Query)
    requires outer.ContainsRect(inner) && query.Meets(inner)
    ensures query.Meets(outer)
  {
  }
}
