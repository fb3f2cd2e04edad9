/** Point in ring and segment against ring, through whatever search the ring has. */
module Rings {
  import opened Planar
  import opened Sequences
  import opened Raycasting
  import opened Intersecting
  import opened Searching
  import opened SeriesModel











  // ---------- Counting segments ----------

  type SegmentTest = Segment -> bool

  function Indicator(test: SegmentTest): Segment -> int {
    s => if test(s) then 1 else 0
  }

  function CallIndicator(test: SegmentTest): Call -> int {
    (c: Call) => if test(c.seg) then 1 else 0
  }

  /** How many segments pass a test. */
  function Count(test: SegmentTest, segs: seq<Segment>): int {
    Sum(Indicator(test), segs)
  }

  /** How many calls are about a segment that passes the test. */
  function CountCalls(test: SegmentTest, calls: seq<Call>): int {
    Sum(CallIndicator(test), calls)
  }

  lemma {:induction false} CountCallsIsPositive(test: SegmentTest, calls: seq<Call>)
    ensures CountCalls(test, calls) >= 0
  {
    if calls == [] {
    } else {
      CountCallsIsPositive(test, calls[1..]);
    }
  }

  lemma {:induction false} CountIsPositive(test: SegmentTest, segs: seq<Segment>)
    ensures Count(test, segs) >= 0
    ensures Count(test, segs) > 0 <==> exists i :: 0 <= i < |segs| && test(segs[i])
  {
    if segs == [] {
    } else {
      CountIsPositive(test, segs[1..]);
      if i :| 0 <= i < |segs[1..]| && test(segs[1..][i]) {
        assert test(segs[i + 1]);
      }
      if i :| 0 < i < |segs| && test(segs[i]) {
        assert test(segs[1..][i - 1]);
      }
    }
  }

  /** Counting over the calls of a scan is counting over all segments, when segments away
      from the query never pass the test. */
  lemma {:induction false} CountHits(test: SegmentTest, segs: seq<Segment>, query: Query, k: nat)
    requires k <= |segs|
    requires forall s :: test(s) ==> query.Meets(s.Box())
    ensures CountCalls(test, Hits(segs, query, Upto(|segs|)[k..])) == Count(test, segs[k..])
    decreases |segs| - k
  {
    hide Query.Meets, Segment.Box;
    var items := Upto(|segs|)[k..];
    if k == |segs| {
      assert items == [] && segs[k..] == [];
    } else {
      assert items[0] == k && items[1..] == Upto(|segs|)[k + 1..];
      assert segs[k..][1..] == segs[k + 1..];
      CountHits(test, segs, query, k + 1);
      var rest := Hits(segs, query, items[1..]);
      if Hit(segs, query, k) {
        assert Hits(segs, query, items) == [Call(segs[k], k)] + rest;
      } else {
        assert Hits(segs, query, items) == rest;
      }
    }
  }

  /** The count does not depend on the index, the order of the visits or the filter. */
  lemma CountVisited(test: SegmentTest, segs: seq<Segment>, query: Query, calls: seq<Call>)
    requires multiset(calls) == multiset(ScanCalls(segs, query))
    requires forall s :: test(s) ==> query.Meets(s.Box())
    ensures CountCalls(test, calls) == Count(test, segs)
  {
    hide Hits, Count, Query.Meets, Segment.Box;
    SumPermutation(CallIndicator(test), calls, ScanCalls(segs, query));
    CountHits(test, segs, query, 0);
    assert Upto(|segs|)[0..] == Upto(|segs|) && segs[0..] == segs;
  }

  lemma CountPermutation(test: SegmentTest, a: seq<Segment>, b: seq<Segment>)
    requires multiset(a) == multiset(b)
    ensures Count(test, a) == Count(test, b)
  {
    SumPermutation(Indicator(test), a, b);
  }

  ghost function Passing(test: SegmentTest, segs: seq<Segment>): set<int> {
    set i | 0 <= i < |segs| && test(segs[i])
  }

  lemma CountOneMore(test: SegmentTest, before: seq<Segment>, last: Segment)
    ensures Count(test, before + [last]) == Count(test, before) + if test(last) then 1 else 0
  {
    SumConcat(Indicator(test), before, [last]);
  }

  lemma PassingOneMore(test: SegmentTest, before: seq<Segment>, last: Segment)
    ensures |Passing(test, before + [last])| == |Passing(test, before)| + if test(last) then 1 else 0
  {
    assert Passing(test, before + [last]) == Passing(test, before) + if test(last) then {|before|} else {};
  }

  lemma {:induction false} CountUpTo(test: SegmentTest, segs: seq<Segment>, k: nat)
    requires k <= |segs|
    ensures Count(test, segs[..k]) == |Passing(test, segs[..k])|
    decreases k
  {
    if k == 0 {
      assert Passing(test, segs[..0]) == {};
    } else {
      hide Count, Passing;
      CountUpTo(test, segs, k - 1);
      assert segs[..k] == segs[..k - 1] + [segs[k - 1]];
      CountOneMore(test, segs[..k - 1], segs[k - 1]);
      PassingOneMore(test, segs[..k - 1], segs[k - 1]);
    }
  }

  /** The count is the number of segments that pass. */
  lemma CountIsNumber(test: SegmentTest, segs: seq<Segment>)
    ensures Count(test, segs) == |set i | 0 <= i < |segs| && test(segs[i])|
  {
    hide Count;
    CountUpTo(test, segs, |segs|);
    assert segs[..|segs|] == segs;
  }

  // ---------- Point in ring ----------

  /** The callback of point-in-ring.  The state is the parity so far and the number of the
      edge the point is on, or -1. */
  function ContainsPointSearcher(point: Point, allowOnEdge: bool, eps: Positive): Step<(bool, int)> {
    (st: (bool, int), seg: Segment, index: nat) =>
      var res := Raycast(seg, point, eps);
      if res.on then ((allowOnEdge, index), false)
      else if res.inside then ((!st.0, st.1), true)
      else (st, true)
  }

  function IsOn(point: Point, eps: Positive): SegmentTest {
    s => Raycast(s, point, eps).on
  }

  function IsIn(point: Point, eps: Positive): SegmentTest {
    s => Raycast(s, point, eps).inside
  }

  /** What the searcher makes of a list of calls, without saying where it stopped. */
  lemma {:induction false} FeedSearcher(point: Point, allowOnEdge: bool, eps: Positive, st: (bool, int), calls: seq<Call>)
    ensures var r := Feed(ContainsPointSearcher(point, allowOnEdge, eps), st, calls).0;
      if CountCalls(IsOn(point, eps), calls) == 0 then r == (st.0 != (CountCalls(IsIn(point, eps), calls) % 2 == 1), st.1)
      else r.0 == allowOnEdge && exists c :: c in calls && c.idx == r.1 && IsOn(point, eps)(c.seg)
    decreases |calls|
  {
    hide Raycast;
    var step := ContainsPointSearcher(point, allowOnEdge, eps);
    if calls == [] {
    } else {
      var (next, go) := step(st, calls[0].seg, calls[0].idx);
      CountCallsIsPositive(IsOn(point, eps), calls[1..]);
      CountCallsIsPositive(IsIn(point, eps), calls[1..]);
      if go {
        FeedSearcher(point, allowOnEdge, eps, next, calls[1..]);
      } else {
        assert calls[0] in calls;
      }
    }
  }

  ghost predicate OnAny(segs: seq<Segment>, p: Point) {
    exists i :: 0 <= i < |segs| && OnSegment(segs[i], p)
  }

  function CrossedBy(p: Point): SegmentTest {
    s => Crosses(s, p)
  }

  function Crossings(segs: seq<Segment>, p: Point): int {
    Count(CrossedBy(p), segs)
  }

  /** The even-odd rule over all segments, in exact geometry: on an edge the caller's choice,
      off the edges whether a ray to the right crosses an odd number of them. */
  ghost predicate EvenOdd(segs: seq<Segment>, p: Point, allowOnEdge: bool) {
    if OnAny(segs, p) then allowOnEdge else Crossings(segs, p) % 2 == 1
  }

  /** Segments above or below the point are neither on it nor crossed, so the filter by
      height loses nothing. */
  lemma AwayFromLevel(s: Segment, p: Point, eps: Positive)
    ensures Raycast(s, p, eps).on || Raycast(s, p, eps).inside ==> Level(p.y).Meets(s.Box())
  {
    hide Nudge;
  }

  /** The nudge is small enough for every segment. */
  predicate SmallNudge(segs: seq<Segment>, p: Point, eps: Positive) {
    forall i :: 0 <= i < |segs| ==> eps < NudgeBound(segs[i], p)
  }

  /** Every finite set of segments has small enough nudges. */
  lemma {:induction false} SmallNudgeExists(segs: seq<Segment>, p: Point) returns (bound: Positive)
    ensures forall eps: Positive :: eps < bound ==> SmallNudge(segs, p, eps)
  {
    hide NudgeBound;
    bound := 1.0;
    if segs == [] {
    } else {
      bound := SmallNudgeExists(segs[1..], p);
      if NudgeBound(segs[0], p) < bound {
        bound := NudgeBound(segs[0], p);
      }
      forall eps: Positive | eps < bound
        ensures SmallNudge(segs, p, eps)
      {
        assert SmallNudge(segs[1..], p, eps);
        assert forall i :: 0 < i < |segs| ==> segs[i] == segs[1..][i - 1];
      }
    }
  }

  /** The answer for a point that the nudged rays add up to, over all segments. */
  ghost predicate Inside(segs: seq<Segment>, point: Point, allowOnEdge: bool, eps: Positive) {
    if OnAny(segs, point) then allowOnEdge else Count(IsIn(point, eps), segs) % 2 == 1
  }

  /** What the visits add up to, over all segments and whatever the order. */
  ghost predicate Verdict(segs: seq<Segment>, point: Point, allowOnEdge: bool, eps: Positive, hit: bool, idx: int) {
    && (idx == -1 <==> !OnAny(segs, point))
    && (idx != -1 ==> 0 <= idx < |segs| && OnSegment(segs[idx], point))
    && hit == Inside(segs, point, allowOnEdge, eps)
  }

  lemma OnAnyIsCount(segs: seq<Segment>, p: Point, eps: Positive)
    ensures OnAny(segs, p) <==> Count(IsOn(p, eps), segs) > 0
    ensures Count(IsOn(p, eps), segs) >= 0
  {
    hide Raycast, Count, OnSegment;
    CountIsPositive(IsOn(p, eps), segs);
    forall i | 0 <= i < |segs|
      ensures OnSegment(segs[i], p) <==> IsOn(p, eps)(segs[i])
    {
      OnIsExact(segs[i], p, eps);
    }
  }

  /** Every call is about a segment of the ring, under its number. */
  lemma CallsAreOfSegments(segs: seq<Segment>, query: Query, calls: seq<Call>)
    requires multiset(calls) == multiset(ScanCalls(segs, query))
    ensures forall c :: c in calls ==> c.idx < |segs| && c.seg == segs[c.idx]
  {
    hide Hits;
    forall c | c in calls
      ensures Wanted(segs, query, c)
    {
      assert c in multiset(calls);
      HitsCount(segs, query, Upto(|segs|), c);
    }
  }

  lemma VerdictOfVisits(segs: seq<Segment>, point: Point, allowOnEdge: bool, eps: Positive, calls: seq<Call>)
    requires multiset(calls) == multiset(ScanCalls(segs, Level(point.y)))
    ensures var r := Feed(ContainsPointSearcher(point, allowOnEdge, eps), (false, -1), calls).0;
      Verdict(segs, point, allowOnEdge, eps, r.0, r.1)
  {
    hide Raycast, Hits, Feed, Count, CountCalls, Segment.Box, Query.Meets;
    forall s
      ensures Raycast(s, point, eps).on || Raycast(s, point, eps).inside ==> Level(point.y).Meets(s.Box())
    {
      AwayFromLevel(s, point, eps);
    }
    CountVisited(IsOn(point, eps), segs, Level(point.y), calls);
    CountVisited(IsIn(point, eps), segs, Level(point.y), calls);
    OnAnyIsCount(segs, point, eps);
    FeedSearcher(point, allowOnEdge, eps, (false, -1), calls);
    CallsAreOfSegments(segs, Level(point.y), calls);
    forall c | c in calls && Raycast(c.seg, point, eps).on
      ensures OnSegment(c.seg, point)
    {
      OnIsExact(c.seg, point, eps);
    }
  }

  lemma {:induction false} CountSame(test: SegmentTest, other: SegmentTest, segs: seq<Segment>)
    requires forall i :: 0 <= i < |segs| ==> test(segs[i]) == other(segs[i])
    ensures Count(test, segs) == Count(other, segs)
  {
    if segs == [] {
    } else {
      assert forall i :: 0 <= i < |segs| - 1 ==> segs[1..][i] == segs[i + 1];
      CountSame(test, other, segs[1..]);
    }
  }

  /** With a small nudge the verdict is the even-odd rule. */
  lemma VerdictIsEvenOdd(segs: seq<Segment>, point: Point, allowOnEdge: bool, eps: Positive)
    requires SmallNudge(segs, point, eps)
    ensures Inside(segs, point, allowOnEdge, eps) == EvenOdd(segs, point, allowOnEdge)
  {
    hide Raycast, Count, OnSegment, Crosses;
    if !OnAny(segs, point) {
      forall i | 0 <= i < |segs|
        ensures IsIn(point, eps)(segs[i]) == CrossedBy(point)(segs[i])
      {
        RaycastIsExact(segs[i], point, eps);
      }
      CountSame(IsIn(point, eps), CrossedBy(point), segs);
    }
  }

  /** Point in ring, for a series.  (The generic search of any other ring makes the same
      calls; see RectContainsPoint.) */
  method RingContainsPoint(ring: BaseSeries, point: Point, allowOnEdge: bool, eps: Positive) returns (hit: bool, idx: int)
    requires ring.Valid() && |ring.index| < TWO32
    ensures Verdict(ring.Segs(), point, allowOnEdge, eps, hit, idx)
    ensures SmallNudge(ring.Segs(), point, eps) ==> hit == EvenOdd(ring.Segs(), point, allowOnEdge)
  {
    hide BaseSeries.Valid, BaseSeries.SearchCalls, Feed, ScanCalls, SmallNudge, Inside, OnAny, EvenOdd, ContainsPointSearcher;
    var st := ring.Search(Level(point.y), ContainsPointSearcher(point, allowOnEdge, eps), (false, -1));
    hit, idx := st.0, st.1;
    VerdictOfVisits(ring.Segs(), point, allowOnEdge, eps, ring.SearchCalls(Level(point.y)));
    if SmallNudge(ring.Segs(), point, eps) {
      VerdictIsEvenOdd(ring.Segs(), point, allowOnEdge, eps);
    }
  }

  // ---------- The same ring written differently ----------

  lemma OnAnyPermutation(a: seq<Segment>, b: seq<Segment>, p: Point)
    requires multiset(a) == multiset(b)
    ensures OnAny(a, p) ==> OnAny(b, p)
  {
    hide OnSegment;
    if OnAny(a, p) {
      var i :| 0 <= i < |a| && OnSegment(a[i], p);
      assert a[i] in multiset(b);
    }
  }

  /** The even-odd rule looks at the segments as a multiset. */
  lemma EvenOddPermutation(a: seq<Segment>, b: seq<Segment>, p: Point, allowOnEdge: bool)
    requires multiset(a) == multiset(b)
    ensures EvenOdd(a, p, allowOnEdge) == EvenOdd(b, p, allowOnEdge)
  {
    hide Count, OnSegment;
    CountPermutation(CrossedBy(p), a, b);
    OnAnyPermutation(a, b, p);
    OnAnyPermutation(b, a, p);
  }

  lemma OnAnyConcat(a: seq<Segment>, b: seq<Segment>, p: Point)
    ensures OnAny(a + b, p) <==> OnAny(a, p) || OnAny(b, p)
  {
    hide OnSegment;
    if OnAny(a, p) {
      var i :| 0 <= i < |a| && OnSegment(a[i], p);
      assert (a + b)[i] == a[i];
    }
    if OnAny(b, p) {
      var i :| 0 <= i < |b| && OnSegment(b[i], p);
      assert (a + b)[|a| + i] == b[i];
    }
  }

  /** An edge from a point to itself: only that point is on it, and nothing crosses it. */
  lemma PointEdge(a: Point, p: Point)
    ensures OnSegment(Segment(a, a), p) <==> p == a
    ensures !Crosses(Segment(a, a), p)
  {
    OnSegmentIsBoxAndLine(Segment(a, a), p);
  }

  /** Leaving out the edge from a repeated closing vertex to the start, which is a point,
      changes nothing. */
  lemma SegmentsAreCycle(points: seq<Point>, p: Point, allowOnEdge: bool)
    requires |points| >= 3
    ensures EvenOdd(Segments(points, true), p, allowOnEdge) == EvenOdd(Cycle(points), p, allowOnEdge)
  {
    hide OnSegment, Crosses;
    var segs, all := Segments(points, true), Cycle(points);
    var last := |points| - 1;
    if points[last] == points[0] {
      assert all == segs + [all[last]];
      PointEdge(points[0], p);
      EndsAreOn(all[0]);
      SumConcat(Indicator(CrossedBy(p)), segs, [all[last]]);
      assert Count(CrossedBy(p), [all[last]]) == 0;
      assert OnSegment(all[last], p) ==> OnSegment(segs[0], p);
      OnAnyConcat(segs, [all[last]], p);
    } else {
      assert all == segs;
    }
  }

  /** Repeating the first point at the end leaves the answer alone. */
  lemma ClosingVertex(points: seq<Point>, p: Point, allowOnEdge: bool)
    requires |points| >= 3
    ensures EvenOdd(Segments(points + [points[0]], true), p, allowOnEdge) == EvenOdd(Segments(points, true), p, allowOnEdge)
  {
    hide EvenOdd;
    SegmentsAreCycle(points, p, allowOnEdge);
    assert Segments(points + [points[0]], true) == Cycle(points);
  }

  /** So does starting at another point. */
  lemma RotatedRing(points: seq<Point>, k: nat, p: Point, allowOnEdge: bool)
    requires |points| >= 3 && k <= |points|
    ensures EvenOdd(Segments(points[k..] + points[..k], true), p, allowOnEdge) == EvenOdd(Segments(points, true), p, allowOnEdge)
  {
    hide EvenOdd, Segments;
    var rotated := points[k..] + points[..k];
    SegmentsAreCycle(points, p, allowOnEdge);
    SegmentsAreCycle(rotated, p, allowOnEdge);
    var all := Cycle(points);
    assert Cycle(rotated) == all[k..] + all[..k];
    assert all == all[..k] + all[k..];
    EvenOddPermutation(Cycle(rotated), all, p, allowOnEdge);
  }

  function Backwards<T>(s: seq<T>): (r: seq<T>)
    ensures |r| == |s| && forall i :: 0 <= i < |r| ==> r[i] == s[|s| - 1 - i]
  {
    seq(|s|, i requires 0 <= i < |s| => s[|s| - 1 - i])
  }

  lemma {:induction false} BackwardsKeepsAll<T>(s: seq<T>)
    ensures multiset(Backwards(s)) == multiset(s)
  {
    if s == [] {
    } else {
      BackwardsKeepsAll(s[1..]);
      assert Backwards(s) == Backwards(s[1..]) + [s[0]];
      assert s == [s[0]] + s[1..];
    }
  }

  function Flipped(segs: seq<Segment>): (r: seq<Segment>)
    ensures |r| == |segs| && forall i :: 0 <= i < |segs| ==> r[i] == segs[i].Flip()
  {
    seq(|segs|, i requires 0 <= i < |segs| => segs[i].Flip())
  }

  /** A segment and the same segment backwards are the same set and are crossed alike. */
  lemma FlipIsSame(s: Segment, p: Point)
    ensures OnSegment(s.Flip(), p) == OnSegment(s, p) && Crosses(s.Flip(), p) == Crosses(s, p)
  {
    hide OnSegment, Cross;
    OnSegmentIsBoxAndLine(s, p);
    OnSegmentIsBoxAndLine(s.Flip(), p);
    CrossReversed(s.a, s.b, p);
  }

  /** A test that is blind to direction counts as many segments the other way round. */
  lemma {:induction false} FlippedCount(test: SegmentTest, segs: seq<Segment>)
    requires forall s: Segment :: test(s.Flip()) == test(s)
    ensures Count(test, Flipped(segs)) == Count(test, segs)
  {
    hide Segment.Flip;
    if segs == [] {
    } else {
      assert Flipped(segs)[1..] == Flipped(segs[1..]);
      FlippedCount(test, segs[1..]);
      assert test(segs[0].Flip()) == test(segs[0]);
    }
  }

  lemma {:induction false} FlippedSame(segs: seq<Segment>, p: Point, allowOnEdge: bool)
    ensures EvenOdd(Flipped(segs), p, allowOnEdge) == EvenOdd(segs, p, allowOnEdge)
  {
    hide OnSegment, Crosses, Segment.Flip;
    forall s: Segment
      ensures CrossedBy(p)(s.Flip()) == CrossedBy(p)(s)
    {
      FlipIsSame(s, p);
    }
    FlippedCount(CrossedBy(p), segs);
    forall i | 0 <= i < |segs|
      ensures OnSegment(Flipped(segs)[i], p) == OnSegment(segs[i], p)
    {
      FlipIsSame(segs[i], p);
    }
  }

  lemma CycleBackwardsAt(points: seq<Point>, i: nat)
    requires i < |points|
    ensures var j := if i == |points| - 1 then i else |points| - 2 - i;
      Cycle(Backwards(points))[i] == Flipped(Cycle(points))[j]
  {
    hide Backwards, Cycle, Flipped;
    var n, r := |points|, Backwards(points);
    var j := if i == n - 1 then i else n - 2 - i;
    assert Cycle(r)[i] == SegmentAt(r, i);
    assert Flipped(Cycle(points))[j] == SegmentAt(points, j).Flip();
  }

  /** The cycle of the reversed points has the same edges, each the other way round. */
  lemma CycleBackwards(points: seq<Point>)
    requires points != []
    ensures multiset(Cycle(Backwards(points))) == multiset(Flipped(Cycle(points)))
  {
    hide Backwards, Cycle, Flipped;
    var back := Backwards(Flipped(Cycle(points)));
    var moved := back[1..] + [back[0]];
    forall i | 0 <= i < |points|
      ensures Cycle(Backwards(points))[i] == moved[i]
    {
      CycleBackwardsAt(points, i);
    }
    assert Cycle(Backwards(points)) == moved;
    assert back == [back[0]] + back[1..];
    BackwardsKeepsAll(Flipped(Cycle(points)));
  }

  /** And so does running through the points backwards. */
  lemma ReversedRing(points: seq<Point>, p: Point, allowOnEdge: bool)
    requires |points| >= 3
    ensures EvenOdd(Segments(Backwards(points), true), p, allowOnEdge) == EvenOdd(Segments(points, true), p, allowOnEdge)
  {
    hide EvenOdd, Segments, Backwards, Flipped;
    SegmentsAreCycle(points, p, allowOnEdge);
    SegmentsAreCycle(Backwards(points), p, allowOnEdge);
    CycleBackwards(points);
    EvenOddPermutation(Cycle(Backwards(points)), Flipped(Cycle(points)), p, allowOnEdge);
    FlippedSame(Cycle(points), p, allowOnEdge);
  }

  // ---------- A rectangle as a ring ----------

  /** The four sides of a rectangle: south, east, north, west. */
  function RectSegmentAt(r: Rect, index: nat): Segment
    requires index < 4
  {
    var nw, se := Point(r.min.x, r.max.y), Point(r.max.x, r.min.y);
    if index == 0 then Segment(r.min, se)
    else if index == 1 then Segment(se, r.max)
    else if index == 2 then Segment(r.max, nw)
    else Segment(nw, r.min)
  }

  function Sides(r: Rect): (segs: seq<Segment>) {
    [RectSegmentAt(r, 0), RectSegmentAt(r, 1), RectSegmentAt(r, 2), RectSegmentAt(r, 3)]
  }

  /** The sides run counter-clockwise from the lower left corner and come back to it. */
  lemma SidesRunAround(r: Rect)
    ensures var s := Sides(r);
      && |s| == 4 && s[0].a == r.min && s[1].b == r.max
      && s[0].b == s[1].a && s[1].b == s[2].a && s[2].b == s[3].a && s[3].b == s[0].a
      && s[0].b == Point(r.max.x, r.min.y) && s[2].b == Point(r.min.x, r.max.y)
  {
  }

  /** The search of a rectangle: the linear scan of its sides. */
  method RectSearch<S>(r: Rect, query: Query, iter: Step<S>, s0: S) returns (s: S)
    ensures s == Feed(iter, s0, ScanCalls(Sides(r), query)).0
  {
    hide Feed, Query.Meets, Segment.Box, Hits;
    ghost var segs := Sides(r);
    ghost var all := Upto(4);
    ScanFrom(iter, s0, segs, query, 0);
    s := s0;
    var idx := 0;
    for i := 0 to 4
      invariant idx == i
      invariant Feed(iter, s0, ScanCalls(segs, query)) == Feed(iter, s, Hits(segs, query, all[i..]) + [])
    {
      var seg := RectSegmentAt(r, i);
      assert all[i..][0] == i && all[i..][1..] == all[i + 1..];
      FeedHits(iter, s, segs, query, all[i..], []);
      if query.Meets(seg.Box()) {
        var (next, go) := iter(s, seg, idx);
        s := next;
        if !go {
          return;
        }
      }
      idx := idx + 1;
    }
    assert all[4..] == [];
    ScanDone(iter, s, segs, query);
  }

  predicate StrictlyInside(r: Rect, p: Point) {
    r.min.x < p.x < r.max.x && r.min.y < p.y < r.max.y
  }

  lemma AxisParallel(s: Segment, p: Point)
    requires s.a.x == s.b.x || s.a.y == s.b.y
    ensures OnSegment(s, p) <==> s.Box().ContainsPoint(p)
  {
    hide OnSegment;
    OnSegmentIsBoxAndLine(s, p);
    ProductIsZero(s.b.x - s.a.x, p.y - s.a.y);
    ProductIsZero(s.b.y - s.a.y, p.x - s.a.x);
  }

  /** On a side: in the rectangle but not strictly. */
  lemma OnSides(r: Rect, p: Point)
    requires r.WellFormed()
    ensures OnAny(Sides(r), p) <==> r.ContainsPoint(p) && !StrictlyInside(r, p)
  {
    hide OnSegment;
    forall i | 0 <= i < 4
      ensures OnSegment(Sides(r)[i], p) <==> Sides(r)[i].Box().ContainsPoint(p)
    {
      AxisParallel(Sides(r)[i], p);
    }
    var s := Sides(r);
    assert OnAny(s, p) <==> OnSegment(s[0], p) || OnSegment(s[1], p) || OnSegment(s[2], p) || OnSegment(s[3], p);
  }

  lemma CountFour(test: SegmentTest, s: seq<Segment>)
    requires |s| == 4
    ensures var f := Indicator(test); Count(test, s) == f(s[0]) + f(s[1]) + f(s[2]) + f(s[3])
  {
    var f := Indicator(test);
    assert s[1..][1..] == s[2..] && s[2..][1..] == s[3..] && s[3..][1..] == [];
    assert Sum(f, s[3..]) == f(s[3]);
    assert Sum(f, s[2..]) == f(s[2]) + Sum(f, s[3..]);
    assert Sum(f, s[1..]) == f(s[1]) + Sum(f, s[2..]);
  }

  lemma SideOfUpright(a: Point, b: Point, p: Point)
    requires a.x == b.x && a.y < b.y
    ensures Cross(a, b, p) > 0.0 <==> p.x < a.x
  {
    var dy, ex := b.y - a.y, a.x - p.x;
    assert Cross(a, b, p) == dy * ex;
    SignOfProduct(dy, ex);
    ProductIsZero(dy, ex);
  }

  lemma UprightCrossed(s: Segment, p: Point)
    requires s.a.x == s.b.x
    ensures Crosses(s, p) <==> s.Box().min.y <= p.y < s.Box().max.y && p.x < s.a.x
  {
    hide Cross;
    if s.a.y < s.b.y {
      SideOfUpright(s.a, s.b, p);
    } else if s.b.y < s.a.y {
      SideOfUpright(s.b, s.a, p);
    }
  }

  lemma LevelNotCrossed(s: Segment, p: Point)
    requires s.a.y == s.b.y
    ensures !Crosses(s, p)
  {
  }

  /** Only the east and west sides can be crossed: one of them between the two. */
  lemma SidesCrossed(r: Rect, p: Point)
    requires r.WellFormed()
    ensures Crossings(Sides(r), p) % 2 == 1 <==> r.min.y <= p.y < r.max.y && r.min.x <= p.x < r.max.x
  {
    hide Crosses;
    var s := Sides(r);
    CountFour(CrossedBy(p), s);
    UprightCrossed(s[1], p);
    UprightCrossed(s[3], p);
    LevelNotCrossed(s[0], p);
    LevelNotCrossed(s[2], p);
  }

  /** For every well-formed rectangle, flat ones included, the even-odd rule over its sides is
      the direct comparison. */
  lemma RectIsItsRing(r: Rect, p: Point, allowOnEdge: bool)
    requires r.WellFormed()
    ensures EvenOdd(Sides(r), p, allowOnEdge) == if allowOnEdge then r.ContainsPoint(p) else StrictlyInside(r, p)
  {
    hide OnSegment, Crosses, Sides, OnAny;
    OnSides(r, p);
    SidesCrossed(r, p);
  }

  /** Point in ring, for a rectangle, through the generic search. */
  method RectContainsPoint(r: Rect, point: Point, allowOnEdge: bool, eps: Positive) returns (hit: bool, idx: int)
    ensures Verdict(Sides(r), point, allowOnEdge, eps, hit, idx)
    ensures r.WellFormed() && SmallNudge(Sides(r), point, eps) ==>
      hit == if allowOnEdge then r.ContainsPoint(point) else StrictlyInside(r, point)
  {
    hide Feed, ScanCalls, SmallNudge, Inside, OnAny, EvenOdd, ContainsPointSearcher, Sides, StrictlyInside;
    var st := RectSearch(r, Level(point.y), ContainsPointSearcher(point, allowOnEdge, eps), (false, -1));
    hit, idx := st.0, st.1;
    VerdictOfVisits(Sides(r), point, allowOnEdge, eps, ScanCalls(Sides(r), Level(point.y)));
    if r.WellFormed() && SmallNudge(Sides(r), point, eps) {
      VerdictIsEvenOdd(Sides(r), point, allowOnEdge, eps);
      RectIsItsRing(r, point, allowOnEdge);
    }
  }
}
