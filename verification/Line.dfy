/** Lines: the clients of the search that ask for any one segment. */
module Lines {
  import opened Planar
  import opened Raycasting
  import opened Intersecting
  import opened Searching
  import opened Winding
  import opened SeriesModel
  import opened Rings

  /** The callback that looks for one segment and stops there. */
  function AnySearcher(test: SegmentTest): Step<bool> {
    (st: bool, seg: Segment, index: nat) => if test(seg) then (true, false) else (st, true)
  }

  lemma {:induction false} FeedAny(test: SegmentTest, calls: seq<Call>)
    ensures Feed(AnySearcher(test), false, calls).0 <==> CountCalls(test, calls) > 0
    decreases |calls|
  {
    if calls == [] {
    } else {
      CountCallsIsPositive(test, calls[1..]);
      FeedAny(test, calls[1..]);
    }
  }

  ghost predicate AnyOf(test: SegmentTest, segs: seq<Segment>) {
    exists i :: 0 <= i < |segs| && test(segs[i])
  }

  /** Looking for any segment through the search is looking through all of them. */
  lemma AnyOfVisits(test: SegmentTest, segs: seq<Segment>, query: Query, calls: seq<Call>)
    requires multiset(calls) == multiset(ScanCalls(segs, query))
    requires forall s :: test(s) ==> query.Meets(s.Box())
    ensures Feed(AnySearcher(test), false, calls).0 <==> AnyOf(test, segs)
  {
    hide Feed, Count, CountCalls, ScanCalls, Segment.Box, Query.Meets;
    CountVisited(test, segs, query, calls);
    CountIsPositive(test, segs);
    FeedAny(test, calls);
  }

  function HasPoint(p: Point): SegmentTest {
    s => ContainsPoint(s, p)
  }

  method LineContainsPoint(line: BaseSeries, point: Point) returns (contains: bool)
    requires line.Valid() && |line.index| < TWO32
    ensures contains <==> OnAny(line.Segs(), point)
  {
    hide BaseSeries.Valid, BaseSeries.SearchCalls, Feed, ScanCalls, OnSegment, Raycast, AnySearcher, BaseSeries.Segs;
    contains := line.Search(Window(Rect(point, point)), AnySearcher(HasPoint(point)), false);
    forall s | HasPoint(point)(s)
      ensures Window(Rect(point, point)).Meets(s.Box())
    {
      OnSegmentIsBoxAndLine(s, point);
    }
    AnyOfVisits(HasPoint(point), line.Segs(), Window(Rect(point, point)), line.SearchCalls(Window(Rect(point, point))));
  }

  function Intersects(seg: Segment): SegmentTest {
    s => IntersectsSegment(seg, s)
  }

  /** Some segment of the first list intersects some segment of the second, in that order. */
  ghost predicate AnyPair(a: seq<Segment>, b: seq<Segment>) {
    exists i :: 0 <= i < |a| && AnyOf(Intersects(a[i]), b)
  }

  /** The shorter line comes first; of two lines with as many points, the first. */
  ghost predicate LinesMeet(p: seq<Point>, q: seq<Point>) {
    if |p| > |q| then AnyPair(Segments(q, false), Segments(p, false)) else AnyPair(Segments(p, false), Segments(q, false))
  }

  lemma BoxesMeet(seg: Segment)
    ensures forall s :: Intersects(seg)(s) ==> Window(seg.Box()).Meets(s.Box())
  {
  }

  method WalkLine(line: BaseSeries, other: BaseSeries) returns (r: bool)
    requires line.Valid() && other.Valid() && |other.index| < TWO32
    ensures r <==> AnyPair(line.Segs(), other.Segs())
  {
    hide BaseSeries.Valid, BaseSeries.SearchCalls, AnyOf, Feed, ScanCalls, AnySearcher, Segment.Box;
    var n := NumSegments(line.points, line.closed);
    var i := 0;
    while i < n
      invariant 0 <= i <= n
      invariant forall k :: 0 <= k < i ==> !AnyOf(Intersects(line.Segs()[k]), other.Segs())
    {
      var segA := SegmentAt(line.points, i);
      var intersects := other.Search(Window(segA.Box()), AnySearcher(Intersects(segA)), false);
      BoxesMeet(segA);
      AnyOfVisits(Intersects(segA), other.Segs(), Window(segA.Box()), other.SearchCalls(Window(segA.Box())));
      if intersects {
        return true;
      }
      i := i + 1;
    }
    return false;
  }

  /** Lines whose rectangles are apart have no intersecting segments. */
  lemma ApartNoPair(line: BaseSeries, other: BaseSeries)
    requires line.Valid() && other.Valid() && !line.rect.IntersectsRect(other.rect)
    ensures !AnyPair(line.Segs(), other.Segs()) && !AnyPair(other.Segs(), line.Segs())
  {
    var a, b := line.Segs(), other.Segs();
    forall i, j | 0 <= i < |a| && 0 <= j < |b|
      ensures !IntersectsSegment(a[i], b[j]) && !IntersectsSegment(b[j], a[i])
    {
      hide IntersectsSegment, Indexes, Bounds, IsClockwise, TurnsBothWays, Segment.Box;
      SegmentsInRect(line.points, line.closed, line.convex, line.rect, line.clockwise, i);
      SegmentsInRect(other.points, other.closed, other.convex, other.rect, other.clockwise, j);
      if IntersectsSegment(a[i], b[j]) {
        IntersectsImpliesBoxes(a[i], b[j]);
      }
      if IntersectsSegment(b[j], a[i]) {
        IntersectsImpliesBoxes(b[j], a[i]);
      }
    }
    hide IntersectsSegment;
  }

  /** IntersectsLine: the shorter line is walked, the other searched. */
  method IntersectsLine(line: BaseSeries, other: BaseSeries) returns (r: bool)
    requires line.Valid() && |line.index| < TWO32 && !line.closed
    requires other.Valid() && |other.index| < TWO32 && !other.closed
    ensures r <==> LinesMeet(line.points, other.points)
  {
    hide BaseSeries.Valid, AnyOf, Rect.IntersectsRect;
    if TooShort(line.points, line.closed) || TooShort(other.points, other.closed) {
      return false;
    }
    if !line.rect.IntersectsRect(other.rect) {
      ApartNoPair(line, other);
      return false;
    }
    if |line.points| > |other.points| {
      r := WalkLine(other, line);
    } else {
      r := WalkLine(line, other);
    }
  }

  /** In geometric terms: two segments share a point, and the second does not swallow the
      first. */
  lemma AnyPairMeans(a: seq<Segment>, b: seq<Segment>)
    ensures AnyPair(a, b) <==> exists i, j :: 0 <= i < |a| && 0 <= j < |b| && SharePoint(a[i], b[j]) && !Swallows(b[j], a[i])
  {
    hide IntersectsSegment, SharePoint, Swallows;
    if AnyPair(a, b) {
      var i :| 0 <= i < |a| && AnyOf(Intersects(a[i]), b);
      var j :| 0 <= j < |b| && Intersects(a[i])(b[j]);
      IntersectsIsExact(a[i], b[j]);
    }
    if i, j :| 0 <= i < |a| && 0 <= j < |b| && SharePoint(a[i], b[j]) && !Swallows(b[j], a[i]) {
      IntersectsIsExact(a[i], b[j]);
      assert Intersects(a[i])(b[j]);
      assert AnyOf(Intersects(a[i]), b);
    }
  }

  /** What IntersectsLine answers: some segment of the line with fewer points, or of the first
      if they have as many, shares a point with one of the other that does not swallow it. */
  lemma LinesMeetMeans(p: seq<Point>, q: seq<Point>)
    ensures var a, b := Segments(p, false), Segments(q, false);
      && (|p| <= |q| ==>
            (LinesMeet(p, q) <==> exists i, j :: 0 <= i < |a| && 0 <= j < |b| && SharePoint(a[i], b[j]) && !Swallows(b[j], a[i])))
      && (|p| > |q| ==>
            (LinesMeet(p, q) <==> exists j, i :: 0 <= j < |b| && 0 <= i < |a| && SharePoint(b[j], a[i]) && !Swallows(a[i], b[j])))
  {
    hide AnyPair, Segments, SharePoint, Swallows;
    AnyPairMeans(Segments(p, false), Segments(q, false));
    AnyPairMeans(Segments(q, false), Segments(p, false));
  }

  ghost predicate SomeShare(a: seq<Segment>, b: seq<Segment>) {
    exists i, j :: 0 <= i < |a| && 0 <= j < |b| && SharePoint(a[i], b[j])
  }

  /** Wherever two of the segments share a point, the one of `b` swallows the one of `a`. */
  ghost predicate AllSwallowed(a: seq<Segment>, b: seq<Segment>) {
    forall i, j :: 0 <= i < |a| && 0 <= j < |b| && SharePoint(a[i], b[j]) ==> Swallows(b[j], a[i])
  }

  lemma SomeShareSymmetric(a: seq<Segment>, b: seq<Segment>)
    requires SomeShare(a, b)
    ensures SomeShare(b, a)
  {
    hide SharePoint;
    var i, j :| 0 <= i < |a| && 0 <= j < |b| && SharePoint(a[i], b[j]);
    SharePointSymmetric(a[i], b[j]);
  }

  /** Of segments that share a point, not all can be swallowed both ways. */
  lemma NotAllBothWays(a: seq<Segment>, b: seq<Segment>)
    requires SomeShare(a, b)
    ensures !AllSwallowed(a, b) || !AllSwallowed(b, a)
  {
    hide SharePoint, Swallows;
    var i, j :| 0 <= i < |a| && 0 <= j < |b| && SharePoint(a[i], b[j]);
    SharePointSymmetric(a[i], b[j]);
    NotBothSwallow(a[i], b[j]);
  }

  /** Testing the pairs the other way round gives another answer exactly when some of them
      share a point, and all that do are swallowed one way. */
  lemma AnyPairSymmetricExactly(a: seq<Segment>, b: seq<Segment>)
    ensures AnyPair(a, b) == AnyPair(b, a) <==> (SomeShare(a, b) ==> !AllSwallowed(a, b) && !AllSwallowed(b, a))
  {
    AnyPairMeans(a, b);
    AnyPairMeans(b, a);
    hide AnyPair, SharePoint, Swallows;
    if SomeShare(a, b) {
      SomeShareSymmetric(a, b);
      NotAllBothWays(a, b);
    } else if SomeShare(b, a) {
      SomeShareSymmetric(b, a);
    }
  }

  /** So the order of two lines matters exactly when they have as many points and are such. */
  lemma LinesMeetSymmetricExactly(p: seq<Point>, q: seq<Point>)
    ensures var a, b := Segments(p, false), Segments(q, false);
      LinesMeet(p, q) == LinesMeet(q, p) <==>
        (|p| == |q| && SomeShare(a, b) ==> !AllSwallowed(a, b) && !AllSwallowed(b, a))
  {
    hide AnyPair, SomeShare, AllSwallowed;
    AnyPairSymmetricExactly(Segments(p, false), Segments(q, false));
  }

  /** Two lines of one segment each whose answer depends on the order. */
  lemma LinesMeetIsNotSymmetric()
    ensures var p, q := [Point(1.0, 0.0), Point(2.0, 0.0)], [Point(0.0, 0.0), Point(3.0, 0.0)];
      !LinesMeet(p, q) && LinesMeet(q, p)
  {
    hide IntersectsSegment, SharePoint;
    var p, q := [Point(1.0, 0.0), Point(2.0, 0.0)], [Point(0.0, 0.0), Point(3.0, 0.0)];
    var a, b := Segments(p, false), Segments(q, false);
    assert a == [Segment(p[0], p[1])] && b == [Segment(q[0], q[1])];
    IntersectsIsNotSymmetric();
    assert Intersects(b[0])(a[0]) && !Intersects(a[0])(b[0]);
    assert AnyOf(Intersects(b[0]), a);
  }
}
