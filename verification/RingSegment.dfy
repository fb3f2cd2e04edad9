/** Segment against ring. */
module RingSegments {
  import opened Planar
  import opened Raycasting
  import opened Intersecting
  import opened Searching
  import opened SeriesModel
  import opened Rings

  /** How many ring segments were counted, and whether one was set aside at either end. */
  datatype Tally = Tally(count: int, segAOn: bool, segBOn: bool)

  predicate Collinear(seg: Segment, seg2: Segment) {
    CollinearPoint(seg, seg2.a) && CollinearPoint(seg, seg2.b)
  }

  predicate Ends(p: Point, seg2: Segment) {
    p == seg2.a || p == seg2.b
  }

  /** The callback of the segment test. */
  function IntersectsSearcher(seg: Segment, allowOnEdge: bool): Step<Tally> {
    (st: Tally, seg2: Segment, index: nat) =>
      if !IntersectsSegment(seg, seg2) then (st, st.count < 2)
      else if allowOnEdge then (st.(count := st.count + 1), st.count + 1 < 2)
      else if Collinear(seg, seg2) then (st, st.count < 2)
      else if !st.segAOn && Ends(seg.a, seg2) then (st.(segAOn := true), true)
      else if !st.segBOn && Ends(seg.b, seg2) then (st.(segBOn := true), true)
      else (st.(count := st.count + 1), st.count + 1 < 2)
  }

  /** A ring segment that matters: it intersects and, with edges not allowed, is not along
      the segment. */
  function Matters(seg: Segment, allowOnEdge: bool): SegmentTest {
    s => IntersectsSegment(seg, s) && (allowOnEdge || !Collinear(seg, s))
  }

  function MattersAt(seg: Segment, p: Point): SegmentTest {
    s => IntersectsSegment(seg, s) && !Collinear(seg, s) && Ends(p, s)
  }

  /** A ring segment through both ends would be along the segment. */
  lemma NotAtBothEnds(seg: Segment, s: Segment)
    ensures !(MattersAt(seg, seg.a)(s) && MattersAt(seg, seg.b)(s))
  {
  }

  /** What is left of `n` when the first at each end, if any, is set aside. */
  function Remaining(n: int, atA: int, atB: int, segAOn: bool, segBOn: bool): int {
    n - (if !segAOn && atA > 0 then 1 else 0) - (if !segBOn && atB > 0 then 1 else 0)
  }

  lemma {:induction false} EndsAmongAll(seg: Segment, calls: seq<Call>)
    ensures var n := CountCalls(Matters(seg, false), calls);
      var atA, atB := CountCalls(MattersAt(seg, seg.a), calls), CountCalls(MattersAt(seg, seg.b), calls);
      0 <= atA && 0 <= atB && atA + atB <= n
  {
    hide IntersectsSegment, Collinear, Ends;
    if calls == [] {
    } else {
      EndsAmongAll(seg, calls[1..]);
      NotAtBothEnds(seg, calls[0].seg);
    }
  }

  /** With edges not allowed, whether the count reaches two does not depend on the order of
      the calls or on stopping early. */
  lemma {:induction false} FeedTally(seg: Segment, st: Tally, calls: seq<Call>)
    requires st.count < 2
    ensures var r := Feed(IntersectsSearcher(seg, false), st, calls).0;
      var n := CountCalls(Matters(seg, false), calls);
      var atA, atB := CountCalls(MattersAt(seg, seg.a), calls), CountCalls(MattersAt(seg, seg.b), calls);
      r.count >= 2 <==> st.count + Remaining(n, atA, atB, st.segAOn, st.segBOn) >= 2
    decreases |calls|
  {
    hide IntersectsSegment, Collinear, Ends;
    if calls == [] {
    } else {
      var (next, go) := IntersectsSearcher(seg, false)(st, calls[0].seg, calls[0].idx);
      NotAtBothEnds(seg, calls[0].seg);
      EndsAmongAll(seg, calls[1..]);
      if go {
        FeedTally(seg, next, calls[1..]);
      }
    }
  }

  /** With edges allowed every intersecting ring segment counts. */
  lemma {:induction false} FeedTallyOnEdge(seg: Segment, st: Tally, calls: seq<Call>)
    requires st.count < 2
    ensures var r := Feed(IntersectsSearcher(seg, true), st, calls).0;
      r.count >= 2 <==> st.count + CountCalls(Matters(seg, true), calls) >= 2
    decreases |calls|
  {
    hide IntersectsSegment, Collinear, Ends;
    if calls == [] {
    } else {
      var (next, go) := IntersectsSearcher(seg, true)(st, calls[0].seg, calls[0].idx);
      CountCallsIsPositive(Matters(seg, true), calls[1..]);
      if go {
        FeedTallyOnEdge(seg, next, calls[1..]);
      }
    }
  }

  /** The crossings over all segments of the ring, with no rectangle filter: how many
      segments matter, but for one at each end of `seg` when edges are not allowed. */
  function Score(segs: seq<Segment>, seg: Segment, allowOnEdge: bool): int {
    if allowOnEdge then Count(Matters(seg, true), segs)
    else Remaining(Count(Matters(seg, false), segs), Count(MattersAt(seg, seg.a), segs), Count(MattersAt(seg, seg.b), segs), false, false)
  }

  /** The ring segments that matter are those that share a point with the segment without
      swallowing it, and with edges not allowed are not on its line with both ends. */
  ghost predicate Cuts(seg: Segment, s: Segment, allowOnEdge: bool) {
    && SharePoint(seg, s) && !Swallows(s, seg)
    && (allowOnEdge || Cross(seg.a, seg.b, s.a) != 0.0 || Cross(seg.a, seg.b, s.b) != 0.0)
  }

  lemma MattersIsCuts(seg: Segment, s: Segment, allowOnEdge: bool)
    ensures Matters(seg, allowOnEdge)(s) <==> Cuts(seg, s, allowOnEdge)
    ensures forall p :: MattersAt(seg, p)(s) <==> Cuts(seg, s, false) && (s.a == p || s.b == p)
  {
    hide IntersectsSegment, SharePoint, Swallows, Cross, CollinearPoint;
    IntersectsIsExact(seg, s);
    CollinearIsCross(seg, s.a);
    CollinearIsCross(seg, s.b);
  }

  /** What is set aside are segments that matter and share an end with `seg`. */
  lemma SetAsideShareAnEnd(seg: Segment, s: Segment)
    ensures MattersAt(seg, seg.a)(s) || MattersAt(seg, seg.b)(s) <==> Matters(seg, false)(s) && SharedEnd(seg, s)
  {
    hide IntersectsSegment, Collinear;
  }

  ghost predicate SomeCutsAt(segs: seq<Segment>, seg: Segment, p: Point) {
    exists i :: 0 <= i < |segs| && Cuts(seg, segs[i], false) && (segs[i].a == p || segs[i].b == p)
  }

  lemma CountOfCuts(segs: seq<Segment>, seg: Segment, allowOnEdge: bool)
    ensures Count(Matters(seg, allowOnEdge), segs) == |set i | 0 <= i < |segs| && Cuts(seg, segs[i], allowOnEdge)|
  {
    hide Count, Cuts;
    CountIsNumber(Matters(seg, allowOnEdge), segs);
    forall i | 0 <= i < |segs|
      ensures Matters(seg, allowOnEdge)(segs[i]) <==> Cuts(seg, segs[i], allowOnEdge)
    {
      MattersIsCuts(seg, segs[i], allowOnEdge);
    }
    assert (set i | 0 <= i < |segs| && Matters(seg, allowOnEdge)(segs[i])) == (set i | 0 <= i < |segs| && Cuts(seg, segs[i], allowOnEdge));
  }

  lemma SomeAtIsCutsAt(segs: seq<Segment>, seg: Segment, p: Point)
    ensures Count(MattersAt(seg, p), segs) > 0 <==> SomeCutsAt(segs, seg, p)
  {
    hide Count, Cuts, MattersAt;
    CountIsPositive(MattersAt(seg, p), segs);
    forall i | 0 <= i < |segs|
      ensures MattersAt(seg, p)(segs[i]) <==> Cuts(seg, segs[i], false) && (segs[i].a == p || segs[i].b == p)
    {
      MattersIsCuts(seg, segs[i], false);
    }
  }

  /** The score in geometric terms: the number of segments that cut `seg`, less one for either
      end that some of them have, when edges are not allowed. */
  lemma ScoreMeans(segs: seq<Segment>, seg: Segment)
    ensures Score(segs, seg, true) == |set i | 0 <= i < |segs| && Cuts(seg, segs[i], true)|
    ensures Score(segs, seg, false) ==
      |set i | 0 <= i < |segs| && Cuts(seg, segs[i], false)|
      - (if SomeCutsAt(segs, seg, seg.a) then 1 else 0) - (if SomeCutsAt(segs, seg, seg.b) then 1 else 0)
  {
    hide Count, Cuts, SomeCutsAt;
    CountOfCuts(segs, seg, true);
    CountOfCuts(segs, seg, false);
    SomeAtIsCutsAt(segs, seg, seg.a);
    SomeAtIsCutsAt(segs, seg, seg.b);
  }

  lemma FlipCutsSame(seg: Segment, s: Segment, allowOnEdge: bool)
    ensures Matters(seg, allowOnEdge)(s.Flip()) == Matters(seg, allowOnEdge)(s)
    ensures forall p :: MattersAt(seg, p)(s.Flip()) == MattersAt(seg, p)(s)
  {
    hide IntersectsSegment, SharePoint, CollinearPoint, OnSegment, ContainsPoint;
    forall p
      ensures OnSegment(s.Flip(), p) == OnSegment(s, p)
    {
      FlipIsSame(s, p);
    }
    SharePointIsCommonPoint(seg, s);
    SharePointIsCommonPoint(seg, s.Flip());
    IntersectsIsExact(seg, s);
    IntersectsIsExact(seg, s.Flip());
    SwallowsMeans(s, seg);
    SwallowsMeans(s.Flip(), seg);
  }

  /** Which way the ring segments run does not matter. */
  lemma ScoreOfFlipped(segs: seq<Segment>, seg: Segment, allowOnEdge: bool)
    ensures Score(Flipped(segs), seg, allowOnEdge) == Score(segs, seg, allowOnEdge)
  {
    hide Count, Matters, MattersAt, Flipped;
    forall s: Segment
      ensures Matters(seg, allowOnEdge)(s.Flip()) == Matters(seg, allowOnEdge)(s)
      ensures forall p :: MattersAt(seg, p)(s.Flip()) == MattersAt(seg, p)(s)
    {
      FlipCutsSame(seg, s, allowOnEdge);
    }
    FlippedCount(Matters(seg, allowOnEdge), segs);
    FlippedCount(MattersAt(seg, seg.a), segs);
    FlippedCount(MattersAt(seg, seg.b), segs);
  }

  /** In any order of visits, and with only the segments that the rectangle of `seg` meets. */
  lemma ScoreOfVisits(segs: seq<Segment>, seg: Segment, allowOnEdge: bool, calls: seq<Call>)
    requires multiset(calls) == multiset(ScanCalls(segs, Window(seg.Box())))
    ensures Feed(IntersectsSearcher(seg, allowOnEdge), Tally(0, false, false), calls).0.count >= 2 <==>
            Score(segs, seg, allowOnEdge) >= 2
  {
    hide Feed, Count, CountCalls, ScanCalls, IntersectsSegment, Collinear, Ends, Segment.Box;
    forall s | IntersectsSegment(seg, s)
      ensures Window(seg.Box()).Meets(s.Box())
    {
      IntersectsImpliesBoxes(seg, s);
    }
    if allowOnEdge {
      CountVisited(Matters(seg, true), segs, Window(seg.Box()), calls);
      FeedTallyOnEdge(seg, Tally(0, false, false), calls);
    } else {
      CountVisited(Matters(seg, false), segs, Window(seg.Box()), calls);
      CountVisited(MattersAt(seg, seg.a), segs, Window(seg.Box()), calls);
      CountVisited(MattersAt(seg, seg.b), segs, Window(seg.Box()), calls);
      FeedTally(seg, Tally(0, false, false), calls);
    }
  }

  /** ringIntersectsSegment: an end in the ring, or a score of at least two. */
  method RingIntersectsSegment(ring: BaseSeries, seg: Segment, allowOnEdge: bool, eps: Positive) returns (hit: bool)
    requires ring.Valid() && |ring.index| < TWO32
    ensures hit == (Inside(ring.Segs(), seg.a, allowOnEdge, eps) || Inside(ring.Segs(), seg.b, allowOnEdge, eps)
                    || Score(ring.Segs(), seg, allowOnEdge) >= 2)
    ensures SmallNudge(ring.Segs(), seg.a, eps) && SmallNudge(ring.Segs(), seg.b, eps) ==>
      hit == (EvenOdd(ring.Segs(), seg.a, allowOnEdge) || EvenOdd(ring.Segs(), seg.b, allowOnEdge)
              || Score(ring.Segs(), seg, allowOnEdge) >= 2)
  {
    hide BaseSeries.Valid, BaseSeries.SearchCalls, Feed, ScanCalls, SmallNudge, Inside, OnAny, EvenOdd, IntersectsSearcher, Score, BaseSeries.Segs;
    if SmallNudge(ring.Segs(), seg.a, eps) && SmallNudge(ring.Segs(), seg.b, eps) {
      VerdictIsEvenOdd(ring.Segs(), seg.a, allowOnEdge, eps);
      VerdictIsEvenOdd(ring.Segs(), seg.b, allowOnEdge, eps);
    }
    var hitA, _ := RingContainsPoint(ring, seg.a, allowOnEdge, eps);
    if hitA {
      return true;
    }
    var hitB, _ := RingContainsPoint(ring, seg.b, allowOnEdge, eps);
    if hitB {
      return true;
    }
    var st := ring.Search(Window(seg.Box()), IntersectsSearcher(seg, allowOnEdge), Tally(0, false, false));
    ScoreOfVisits(ring.Segs(), seg, allowOnEdge, ring.SearchCalls(Window(seg.Box())));
    return st.count >= 2;
  }
}
