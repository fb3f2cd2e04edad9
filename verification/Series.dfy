/** A series of points, open or closed, with its segments and its optional index. */
module SeriesModel {
  import opened Planar
  import opened Sequences
  import opened Varint
  import opened QuadTree
  import opened QNodes
  import opened Codec
  import opened Searching
  import opened NearestSegments
  import opened Winding

  const TWO32: int := 0x1_0000_0000

  // ---------- Segments ----------

  function NumSegments(points: seq<Point>, closed: bool): (n: nat)
    ensures n <= |points|
  {
    if closed then
      if |points| < 3 then 0
      else if points[|points| - 1] == points[0] then |points| - 1
      else |points|
    else if |points| < 2 then 0
    else |points| - 1
  }

  function SegmentAt(points: seq<Point>, index: nat): Segment
    requires index < |points|
  {
    Segment(points[index], if index == |points| - 1 then points[0] else points[index + 1])
  }

  /** All segments of a series, in order. */
  function Segments(points: seq<Point>, closed: bool): (r: seq<Segment>)
    ensures |r| == NumSegments(points, closed)
    ensures forall i :: 0 <= i < |r| ==> r[i] == SegmentAt(points, i)
  {
    seq(NumSegments(points, closed), i requires 0 <= i < NumSegments(points, closed) => SegmentAt(points, i))
  }

  /** The segments join up point after point, and those of a closed series come back to
      where they started. */
  lemma SegmentsJoin(points: seq<Point>, closed: bool)
    ensures var segs := Segments(points, closed);
      && (forall i :: 0 <= i < |segs| ==> segs[i].a == points[i])
      && (forall i :: 0 < i < |segs| ==> segs[i - 1].b == segs[i].a)
      && (segs != [] ==> segs[|segs| - 1].b == if closed then points[0] else points[|points| - 1])
      && (segs == [] <==> TooShort(points, closed))
  {
  }

  /** All edges of the cycle of points, the one back to the start included. */
  function Cycle(points: seq<Point>): (r: seq<Segment>)
    ensures |r| == |points| && forall i :: 0 <= i < |r| ==> r[i] == SegmentAt(points, i)
  {
    seq(|points|, i requires 0 <= i < |points| => SegmentAt(points, i))
  }

  lemma AroundTheCycle(i: nat, n: nat)
    requires i < n
    ensures (i + 1) % n == if i + 1 < n then i + 1 else 0
  {
  }

  lemma ClosedSegmentAt(points: seq<Point>, i: nat)
    requires i < NumSegments(points, true)
    ensures (i + 1) % NumSegments(points, true) < |points|
    ensures SegmentAt(points, i) == Segment(points[i], points[(i + 1) % NumSegments(points, true)])
  {
    AroundTheCycle(i, NumSegments(points, true));
  }

  /** Which segments a series has: from each point to the next, and if it is closed back to the
      first, unless the last point already is the first. */
  lemma SegmentsMean(points: seq<Point>, closed: bool)
    ensures var segs := Segments(points, closed);
      if |points| < (if closed then 3 else 2) then segs == []
      else if !closed then
        |segs| == |points| - 1 && forall i :: 0 <= i < |segs| ==> segs[i] == Segment(points[i], points[i + 1])
      else
        && |segs| == (if points[|points| - 1] == points[0] then |points| - 1 else |points|)
        && forall i :: 0 <= i < |segs| ==> segs[i] == Segment(points[i], points[(i + 1) % |segs|])
  {
    hide Segments;
    if closed {
      var segs := Segments(points, true);
      forall i | 0 <= i < |segs|
        ensures segs[i] == Segment(points[i], points[(i + 1) % |segs|])
      {
        ClosedSegmentAt(points, i);
      }
    }
  }

  /** A closed series has the edges of the cycle of its points, whether or not the first point
      is repeated at the end. */
  lemma SegmentsOfCycle(points: seq<Point>)
    ensures |points| >= 2 ==> Segments(points + [points[0]], true) == Cycle(points)
    ensures |points| >= 3 && points[|points| - 1] != points[0] ==> Segments(points, true) == Cycle(points)
  {
  }

  /** The rectangle worked out for a series holds every segment's rectangle. */
  lemma SegmentsInRect(points: seq<Point>, closed: bool, convex: bool, rect: Rect, clockwise: bool, i: nat)
    requires Processed(points, closed, convex, rect, clockwise) && i < NumSegments(points, closed)
    ensures rect.ContainsRect(BoxOf(Segments(points, closed), i))
  {
  }

  // ---------- The array ----------

  /** The four bytes of a 32-bit number, least significant first. */
  function PutUint32(x: nat): (r: seq<Byte>)
    ensures |r| == 4
  {
    [x % 0x100, x / 0x100 % 0x100, x / 0x1_0000 % 0x100, x / 0x100_0000 % 0x100]
  }

  function Uint32(b: seq<Byte>): (r: nat)
    requires |b| == 4
    ensures r < TWO32
  {
    var b0: int, b1: int, b2: int, b3: int := b[0], b[1], b[2], b[3];
    b0 + 0x100 * b1 + 0x1_0000 * b2 + 0x100_0000 * b3
  }

  /** Byte number `i` holds the eight bits from 8 * i on. */
  lemma LittleEndian(x: nat, i: nat)
    requires i < 4
    ensures PutUint32(x)[i] == x / Pow2(8 * i) % 0x100
  {
    hide Pow2;
    PowZero();
    PowBytes();
    assert i == 0 || i == 1 || i == 2 || i == 3;
  }

  /** Only the low 32 bits of a length survive. */
  lemma Uint32RoundTrip(x: nat)
    ensures Uint32(PutUint32(x)) == x % TWO32
  {
    var y, z := x / 0x100, x / 0x1_0000;
    assert y / 0x100 == z && z / 0x100 == x / 0x100_0000;
    assert x == 0x100 * y + x % 0x100 && y == 0x100 * z + y % 0x100;
    var w := z / 0x100;
    assert z == 0x100 * w + z % 0x100;
    var v := w / 0x100;
    assert w == 0x100 * v + w % 0x100;
    assert x == TWO32 * v + Uint32(PutUint32(x));
  }

  /** The index array: the kind, the length of the whole array in 32 bits, the tree. */
  function Packed(kind: Byte, t: Tree): (r: seq<Byte>)
    requires t.Node?
    ensures |r| == 5 + |Encode(t)|
  {
    [kind] + PutUint32(5 + |Encode(t)|) + Encode(t)
  }

  /** The length in the header is the length of the array exactly when it fits in 32 bits. */
  lemma HeaderIsLength(kind: Byte, t: Tree)
    requires t.Node?
    ensures var data := Packed(kind, t);
      && Uint32(data[1..5]) <= |data|
      && (Uint32(data[1..5]) == |data| <==> |data| < TWO32)
  {
    hide Encode, PutUint32, Uint32;
    var data := Packed(kind, t);
    assert data[1..5] == PutUint32(|data|);
    Uint32RoundTrip(|data|);
  }

  lemma PackedHasTree(kind: Byte, t: Tree)
    requires t.Node?
    ensures Has(Packed(kind, t), 5, Encode(t))
  {
  }

  /** The search looks at as much of the array as the header says.  That is enough to read the
      whole tree exactly when the length fits in 32 bits. */
  lemma HeaderReadsTree(kind: Byte, t: Tree)
    requires t.Node? && Storable(t) && |Packed(kind, t)| < TWO64
    ensures var data := Packed(kind, t);
      Uint32(data[1..5]) <= |data| &&
      (ReadNode(data[..Uint32(data[1..5])], 5).Some? <==> |data| < TWO32)
  {
    hide Encode, Packed, Uint32, ReadNode, Storable;
    var data := Packed(kind, t);
    HeaderIsLength(kind, t);
    PackedHasTree(kind, t);
    CutIsRefused(data, Uint32(data[1..5]), 5, t);
  }

  /** The tree that indexing builds, as compression leaves it. */
  ghost function BuiltTree(mid: Midpoint, points: seq<Point>, closed: bool, rect: Rect): (t: Tree)
    ensures t.Node?
  {
    var segs := Segments(points, closed);
    Tidy(Grow(mid, segs, rect, Upto(|segs|)))
  }

  lemma UptoWithin(t: Tree, n: nat, m: nat)
    requires t.Items() == multiset(Upto(n)) && n <= m
    ensures Within(t, m)
  {
  }

  lemma {:induction false} TidyIsBounded(mid: Midpoint, segs: seq<Segment>, bounds: Rect, t: Tree)
    requires Bounded(mid, segs, bounds, t)
    ensures Bounded(mid, segs, bounds, Tidy(t))
    decreases t
  {
    hide Tree.Items, Tree.Quad, Tidy, QuadBounds, BoxOf, Rect.ContainsRect;
    if t.Node? {
      TidyNode(t);
      forall q | 0 <= q < 4
        ensures Bounded(mid, segs, QuadBounds(mid, bounds, q), if t.split then Tidy(t.Quad(q)) else t.Quad(q))
      {
        if t.split {
          TidyIsBounded(mid, segs, QuadBounds(mid, bounds, q), t.Quad(q));
        }
      }
    } else {
      assert Tidy(t).Nil?;
    }
  }

  /** What the searches need of the built tree. */
  lemma BuiltTreeIsGood(mid: Midpoint, points: seq<Point>, closed: bool, convex: bool, rect: Rect, clockwise: bool)
    requires Processed(points, closed, convex, rect, clockwise) && |points| <= TWO64
    ensures var segs, t := Segments(points, closed), BuiltTree(mid, points, closed, rect);
      && t.Items() == multiset(Upto(|segs|)) && Within(t, |segs|)
      && Bounded(mid, segs, rect, t) && Storable(t) && Lean(0, t)
  {
    hide Processed, Grow, Tidy, Tree.Items, Bounded, Shaped, Lean, Storable, Within, Rect.ContainsRect, BoxOf;
    var segs := Segments(points, closed);
    var order := Upto(|segs|);
    var t := Grow(mid, segs, rect, order);
    forall i | i in order
      ensures rect.ContainsRect(BoxOf(segs, i))
    {
      SegmentsInRect(points, closed, convex, rect, clockwise, i);
    }
    GrowKeepsInvariant(mid, segs, rect, order);
    UptoWithin(t, |segs|, |segs|);
    UptoWithin(t, |segs|, TWO64);
    UptoWithin(Tidy(t), |segs|, |segs|);
    TidyIsStorable(mid, segs, rect, 0, t);
    TidyIsBounded(mid, segs, rect, t);
    ShapedIsLean(mid, segs, rect, 0, t);
    TidyIsLean(0, t);
  }

  /** Up to this many segments the array is sure to be shorter than 2^32 bytes. */
  const SAFE_SEGMENTS: nat := 27_875_000

  lemma IndexIsShort(mid: Midpoint, points: seq<Point>, closed: bool, convex: bool, rect: Rect, clockwise: bool, kind: Byte)
    requires Processed(points, closed, convex, rect, clockwise) && |points| <= TWO64
    ensures var n := NumSegments(points, closed);
      var size := |Packed(kind, BuiltTree(mid, points, closed, rect))|;
      13 * size <= 2003 * n + 208 && (n <= SAFE_SEGMENTS ==> size < TWO32)
  {
    hide Processed, BuiltTree, Encode, Lean, Tree.Items;
    BuiltTreeIsGood(mid, points, closed, convex, rect, clockwise);
    var t := BuiltTree(mid, points, closed, rect);
    LengthBound(0, t);
    assert |t.Items()| == |Upto(NumSegments(points, closed))|;
  }

  /** No index, or the array of the built tree. */
  ghost predicate Indexes(mid: Midpoint, points: seq<Point>, closed: bool, rect: Rect, index: seq<Byte>) {
    index != [] ==> index == Packed(index[0], BuiltTree(mid, points, closed, rect))
  }

  ghost predicate Consistent(mid: Midpoint, points: seq<Point>, closed: bool, convex: bool, rect: Rect, clockwise: bool, index: seq<Byte>) {
    |points| <= TWO64 && Processed(points, closed, convex, rect, clockwise) && Indexes(mid, points, closed, rect, index)
  }

  lemma NoIndexIsConsistent(mid: Midpoint, points: seq<Point>, closed: bool, convex: bool, rect: Rect, clockwise: bool)
    requires |points| <= TWO64 && Processed(points, closed, convex, rect, clockwise)
    ensures Consistent(mid, points, closed, convex, rect, clockwise, [])
  {
  }

  lemma IndexIsConsistent(mid: Midpoint, points: seq<Point>, closed: bool, convex: bool, rect: Rect, clockwise: bool, kind: Byte)
    requires Consistent(mid, points, closed, convex, rect, clockwise, [])
    ensures var index := Packed(kind, BuiltTree(mid, points, closed, rect));
      index != [] && index[0] == kind && Consistent(mid, points, closed, convex, rect, clockwise, index)
  {
    hide BuiltTree, Encode, Processed;
  }

  // ---------- The series ----------

  datatype IndexOptions = IndexOptions(kind: Byte, minPoints: int)

  const DEFAULT_OPTIONS := IndexOptions(1, 64)

  function Chosen(options: Option<IndexOptions>): IndexOptions {
    if options.Some? then options.value else DEFAULT_OPTIONS
  }

  predicate WantsIndex(points: seq<Point>, options: Option<IndexOptions>) {
    var opts := Chosen(options);
    opts.minPoints != 0 && |points| >= opts.minPoints
  }

  lemma IndexIsStored(mid: Midpoint, points: seq<Point>, closed: bool, convex: bool, rect: Rect, clockwise: bool, index: seq<Byte>)
    requires Consistent(mid, points, closed, convex, rect, clockwise, index) && 0 < |index| < TWO32
    ensures |index| >= 5 && Uint32(index[1..5]) == |index|
    ensures var segs, t := Segments(points, closed), BuiltTree(mid, points, closed, rect);
      Stored(index, 5, t, |segs|) && Bounded(mid, segs, rect, t) && Storable(t) && t.Items() == multiset(Upto(|segs|))
  {
    hide Processed, BuiltTree, Packed, Encode, Bounded, Storable, Tree.Items, Has, Within;
    var t := BuiltTree(mid, points, closed, rect);
    BuiltTreeIsGood(mid, points, closed, convex, rect, clockwise);
    HeaderIsLength(index[0], t);
    PackedHasTree(index[0], t);
  }

  lemma IndexIsSearchable(mid: Midpoint, points: seq<Point>, closed: bool, convex: bool, rect: Rect, clockwise: bool, index: seq<Byte>, query: Query)
    requires Consistent(mid, points, closed, convex, rect, clockwise, index) && 0 < |index| < TWO32
    ensures |index| >= 5 && Uint32(index[1..5]) == |index|
    ensures var segs, t := Segments(points, closed), BuiltTree(mid, points, closed, rect);
      && Stored(index, 5, t, |segs|)
      && multiset(Visits(mid, segs, rect, query, t)) == multiset(ScanCalls(segs, query))
  {
    hide Consistent, BuiltTree, Segments;
    IndexIsStored(mid, points, closed, convex, rect, clockwise, index);
    WalkEqualsScan(mid, Segments(points, closed), rect, query, BuiltTree(mid, points, closed, rect));
  }

  lemma IndexIsNavigable(mid: Midpoint, points: seq<Point>, closed: bool, convex: bool, rect: Rect, clockwise: bool, index: seq<Byte>)
    requires Consistent(mid, points, closed, convex, rect, clockwise, index) && 0 < |index| < TWO32
    ensures |index| >= 5 && Uint32(index[1..5]) == |index|
    ensures var segs, t := Segments(points, closed), BuiltTree(mid, points, closed, rect);
      && (forall f, g :: Pending(World(index, segs, mid, f, g), 5, rect, t))
      && (forall i :: 0 <= i < |segs| ==> i in t.Items())
  {
    hide Consistent, BuiltTree, Segments, Stored, Bounded;
    IndexIsStored(mid, points, closed, convex, rect, clockwise, index);
    ghost var segs := Segments(points, closed);
    forall i | 0 <= i < |segs|
      ensures i in multiset(Upto(|segs|))
    {
      assert Upto(|segs|)[i] == i;
    }
  }

  lemma ScanFrom<S>(step: Step<S>, s: S, segs: seq<Segment>, query: Query, i: nat)
    ensures Feed(step, s, ScanCalls(segs, query)) == Feed(step, s, Hits(segs, query, Upto(|segs|)[0..]) + [])
  {
    hide Hits, Feed;
    assert Upto(|segs|)[0..] == Upto(|segs|);
    assert ScanCalls(segs, query) + [] == ScanCalls(segs, query);
  }

  lemma ScanDone<S>(step: Step<S>, s: S, segs: seq<Segment>, query: Query)
    ensures Feed(step, s, Hits(segs, query, []) + []) == (s, true)
  {
  }

  /** The linear search. */
  method Scan<S>(points: seq<Point>, closed: bool, query: Query, iter: Step<S>, s0: S) returns (s: S, more: bool)
    ensures (s, more) == Feed(iter, s0, ScanCalls(Segments(points, closed), query))
  {
    hide Feed, Query.Meets, Segment.Box, Hits;
    var n := NumSegments(points, closed);
    ghost var segs := Segments(points, closed);
    ghost var all := Upto(n);
    ScanFrom(iter, s0, segs, query, 0);
    s := s0;
    var i := 0;
    while i < n
      invariant 0 <= i <= n
      invariant Feed(iter, s0, ScanCalls(segs, query)) == Feed(iter, s, Hits(segs, query, all[i..]) + [])
    {
      var seg := SegmentAt(points, i);
      assert all[i..][0] == i && all[i..][1..] == all[i + 1..];
      FeedHits(iter, s, segs, query, all[i..], []);
      if query.Meets(seg.Box()) {
        var (next, go) := iter(s, seg, i);
        s := next;
        if !go {
          return s, false;
        }
      }
      i := i + 1;
    }
    assert all[n..] == [];
    ScanDone(iter, s, segs, query);
    return s, true;
  }

  /** One more segment looked at. */
  lemma NearestStep(segs: seq<Segment>, distToSegment: SegmentDistance, i: nat, best: nat)
    requires i < |segs| && (i > 0 ==> best < i && IsNearest(segs[..i], distToSegment, best))
    ensures IsNearest(segs[..i + 1], distToSegment,
      if i == 0 || distToSegment(segs[i]) < distToSegment(segs[best]) then i else best)
  {
  }

  /** The linear nearest-segment loop. */
  method ScanNearest(points: seq<Point>, closed: bool, distToSegment: SegmentDistance) returns (seg: Segment, dist: Option<real>)
    ensures var segs := Segments(points, closed);
      && (segs == [] ==> dist == None)
      && (segs != [] ==> exists i :: IsNearest(segs, distToSegment, i) && seg == segs[i] && dist == Some(distToSegment(seg)))
  {
    seg, dist := Segment(Point(0.0, 0.0), Point(0.0, 0.0)), None;
    ghost var segs := Segments(points, closed);
    ghost var best := 0;
    var n := NumSegments(points, closed);
    var i := 0;
    while i < n
      invariant 0 <= i <= n
      invariant i == 0 ==> dist == None
      invariant i > 0 ==> 0 <= best < i && seg == segs[best] && dist == Some(distToSegment(seg)) && IsNearest(segs[..i], distToSegment, best)
    {
      var sseg := SegmentAt(points, i);
      var sdist := distToSegment(sseg);
      NearestStep(segs, distToSegment, i, best);
      if i == 0 || sdist < dist.value {
        seg := sseg;
        dist := Some(sdist);
        best := i;
      }
      i := i + 1;
    }
    assert segs[..n] == segs;
  }

  method MoveAll(points: seq<Point>, dx: real, dy: real) returns (r: seq<Point>)
    ensures r == MovePoints(points, dx, dy)
  {
    r := [];
    for i := 0 to |points|
      invariant r == MovePoints(points[..i], dx, dy)
    {
      r := r + [Point(points[i].x + dx, points[i].y + dy)];
    }
    assert points[..|points|] == points;
  }

  lemma MovedConsistent(mid: Midpoint, points: seq<Point>, closed: bool, convex: bool, rect: Rect, clockwise: bool, index: seq<Byte>,
                        dx: real, dy: real, mid': Midpoint, convex': bool, rect': Rect, clockwise': bool, index': seq<Byte>)
    requires Consistent(mid, points, closed, convex, rect, clockwise, index)
    requires Consistent(mid', MovePoints(points, dx, dy), closed, convex', rect', clockwise', index')
    ensures convex' == convex && clockwise' == clockwise
    ensures rect' == if TooShort(points, closed) then rect else rect.Move(dx, dy)
  {
    hide Indexes, Bounds, TurnsBothWays, IsClockwise;
    var moved := MovePoints(points, dx, dy);
    if !TooShort(points, closed) {
      MovedProcessed(points, closed, dx, dy, convex, rect, clockwise);
      BoundsAreUnique(moved, rect', rect.Move(dx, dy));
    }
  }

  lemma GrowStart(mid: Midpoint, segs: seq<Segment>, rect: Rect)
    ensures Grow(mid, segs, rect, []) == EMPTY
  {
  }

  lemma GrownWithin(mid: Midpoint, segs: seq<Segment>, rect: Rect, n: nat, i: nat)
    requires i < n
    ensures Within(Grow(mid, segs, rect, Upto(n)[..i]), n)
  {
    hide Grow, Tree.Items;
    var t := Grow(mid, segs, rect, Upto(n)[..i]);
    forall k | k in t.Items()
      ensures k < n
    {
      assert k in Upto(n)[..i];
    }
  }

  lemma GrowStep(mid: Midpoint, segs: seq<Segment>, rect: Rect, n: nat, i: nat)
    requires i < n == |segs|
    ensures Within(Grow(mid, segs, rect, Upto(n)[..i]), n)
    ensures Grow(mid, segs, rect, Upto(n)[..i + 1]) ==
            Insert(mid, segs, rect, segs[i].Box(), i, 0, Grow(mid, segs, rect, Upto(n)[..i]))
  {
    hide QuadTree.Insert, Segment.Box, Tree.Items;
    var order := Upto(n)[..i + 1];
    assert order[..i] == Upto(n)[..i] && order[i] == i;
    GrownWithin(mid, segs, rect, n, i);
  }

  /** The loop of buildIndex: insert every segment, by its number, at the root. */
  method GrowRoot(mid: Midpoint, points: seq<Point>, closed: bool, rect: Rect) returns (root: QNode)
    ensures root.Valid() && fresh(root.Repr)
    ensures var segs := Segments(points, closed);
      root.tree == Grow(mid, segs, rect, Upto(|segs|))
  {
    hide QNode.Valid, Grow, QuadTree.Insert, Tree.Items, Within, Segment.Box;
    root := new QNode();
    var n := NumSegments(points, closed);
    ghost var segs := Segments(points, closed);
    GrowStart(mid, segs, rect);
    var i := 0;
    while i < n
      invariant 0 <= i <= n && root.Valid() && fresh(root.Repr)
      invariant root.tree == Grow(mid, segs, rect, Upto(n)[..i])
    {
      var seg := SegmentAt(points, i);
      GrowStep(mid, segs, rect, n, i);
      root.Insert(mid, Segments(points, closed), rect, seg.Box(), i, 0);
      i := i + 1;
    }
    assert Upto(n)[..n] == Upto(n);
  }

  /** The tree and its bytes, after a header whose length is still to be filled in. */
  method GrowBytes(mid: Midpoint, points: seq<Point>, closed: bool, rect: Rect, kind: Byte) returns (data: seq<Byte>)
    ensures data == [kind, 0, 0, 0, 0] + Encode(BuiltTree(mid, points, closed, rect))
  {
    hide QNode.Valid, Grow, Tidy, Encode, Segments;
    var root := GrowRoot(mid, points, closed, rect);
    data := root.Compress([kind, 0, 0, 0, 0]);
  }

  lemma OptionsMean(points: seq<Point>, options: Option<IndexOptions>)
    ensures options.None? ==> (WantsIndex(points, options) <==> |points| >= 64) && Chosen(options).kind == 1
    ensures options.Some? ==> Chosen(options).kind == options.value.kind
    ensures options.Some? ==>
      (WantsIndex(points, options) <==> options.value.minPoints != 0 && |points| >= options.value.minPoints)
  {
  }

  class BaseSeries {
    const mid: Midpoint
    var closed: bool
    var clockwise: bool
    var convex: bool
    var indexKind: Byte
    var index: seq<Byte>
    var rect: Rect
    var points: seq<Point>

    /** The derived fields belong to the points, and the index, if any, to all of them. */
    ghost predicate Valid()
      reads this
      ensures Valid() ==> |points| <= TWO64
    {
      Consistent(mid, points, closed, convex, rect, clockwise, index)
    }

    function Segs(): seq<Segment>
      reads this
    {
      Segments(points, closed)
    }

    /** Write the length of the array into its header, modulo 2^32. */
    method SetCompressed(data: seq<Byte>, ghost t: Tree)
      requires t.Node? && data == [indexKind, 0, 0, 0, 0] + Encode(t)
      modifies this`index
      ensures index == Packed(indexKind, t)
    {
      hide Encode;
      var b := PutUint32(|data|);
      index := data[1 := b[0]][2 := b[1]][3 := b[2]][4 := b[3]];
    }

    /** Build the index, unless there is one: insert every segment and compress the tree. */
    method BuildIndex()
      requires Valid()
      modifies this`index
      ensures Valid() && index != []
      ensures if old(index) != [] then index == old(index) else index[0] == indexKind
    {
      if index != [] {
        return;
      }
      hide Processed, BuiltTree, Encode, Packed, Consistent, PutUint32;
      IndexIsConsistent(mid, points, closed, convex, rect, clockwise, indexKind);
      var data := GrowBytes(mid, points, closed, rect, indexKind);
      SetCompressed(data, BuiltTree(mid, points, closed, rect));
    }

    /** makeSeries.  An index is built when there are enough points, whatever its kind. */
    constructor (mid: Midpoint, points: seq<Point>, closed: bool, options: Option<IndexOptions>)
      requires |points| <= TWO64
      ensures Valid() && this.mid == mid && this.points == points && this.closed == closed
      ensures if WantsIndex(points, options) then index != [] && index[0] == Chosen(options).kind == indexKind
              else index == [] && indexKind == 0
      ensures options.None? ==> (index != [] <==> |points| >= 64) && (index != [] ==> index[0] == 1)
      ensures options.Some? ==>
        && (index != [] <==> options.value.minPoints != 0 && |points| >= options.value.minPoints)
        && (index != [] ==> index[0] == options.value.kind)
    {
      OptionsMean(points, options);
      hide Processed, BuiltTree, Packed, Encode, Consistent, PutUint32, WantsIndex, Chosen;
      this.mid := mid;
      this.closed := closed;
      this.points := points;
      this.indexKind := 0;
      this.index := [];
      new;
      this.convex, this.rect, this.clockwise := ProcessPoints(points, closed);
      NoIndexIsConsistent(mid, points, closed, convex, rect, clockwise);
      if WantsIndex(points, options) {
        indexKind := Chosen(options).kind;
        BuildIndex();
      }
    }

    /** The calls a search makes when none answers false, in order. */
    ghost function SearchCalls(query: Query): seq<Call>
      reads this
    {
      if index == [] then ScanCalls(Segs(), query)
      else Visits(mid, Segs(), rect, query, BuiltTree(mid, points, closed, rect))
    }

    /** Search.  With or without an index, the calls made are those of the linear scan, in
        some order, up to the first false. */
    method Search<S>(query: Query, iter: Step<S>, s0: S) returns (s: S)
      requires Valid() && |index| < TWO32
      ensures s == Feed(iter, s0, SearchCalls(query)).0
      ensures multiset(SearchCalls(query)) == multiset(ScanCalls(Segs(), query))
      ensures query.WellFormed() ==>
        forall c: Call :: multiset(SearchCalls(query))[c] == if Asked(Segs(), query, c) then 1 else 0
      ensures index == [] ==> Rising(SearchCalls(query))
    {
      hide Consistent, BuiltTree, Segments, Feed, ScanCalls, Visits, Stored, Asked, Rising;
      ScanRises(Segs(), query);
      if query.WellFormed() {
        forall c: Call
          ensures multiset(ScanCalls(Segs(), query))[c] == if Asked(Segs(), query, c) then 1 else 0
        {
          ScanMakesAsked(Segs(), query, c);
        }
      }
      var more;
      if |index| == 0 {
        s, more := Scan(points, closed, query, iter, s0);
      } else {
        ghost var t := BuiltTree(mid, points, closed, rect);
        IndexIsSearchable(mid, points, closed, convex, rect, clockwise, index, query);
        var n := Uint32(index[1..5]);
        var data := index[..n];
        assert data == index;
        s, more := CompressSearch(data, 5, Segs(), mid, rect, query, iter, s0, t);
      }
    }

    /** DistanceToSeries.  The linear scan finds the first segment of least distance but
        leaves its number at zero.  With an index, whatever the distances, a segment is found
        that can be reached at the least level, with its number and distance; when rectangle
        distances bound segment distances from below it is the same one. */
    method DistanceToSeries(distToRect: RectDistance, distToSegment: SegmentDistance)
        returns (seg: Segment, idx: int, dist: Option<real>)
      requires Valid() && |index| < TWO32
      ensures Segs() == [] ==> dist == None && idx == if index == [] then 0 else -1
      ensures Segs() != [] && index != [] ==> 0 <= idx < |Segs()| && seg == Segs()[idx] && dist == Some(distToSegment(seg))
      ensures Segs() != [] && index != [] ==>
        var w := World(index, Segs(), mid, distToRect, distToSegment);
        var tree := BuiltTree(mid, points, closed, rect);
        forall i, v :: Reach(w, rect, tree, i, v) ==> Reach(w, rect, tree, idx, v)
      ensures Segs() != [] && (index == [] || LowerBound(distToRect, distToSegment)) ==>
        exists i :: IsNearest(Segs(), distToSegment, i) && seg == Segs()[i] && dist == Some(distToSegment(seg))
                    && idx == if index == [] then 0 else i
    {
      hide Consistent, BuiltTree, Segments, Stored, LowerBound, Pending, Reach;
      if |index| == 0 {
        seg, dist := ScanNearest(points, closed, distToSegment);
        idx := 0;
      } else {
        ghost var t := BuiltTree(mid, points, closed, rect);
        IndexIsNavigable(mid, points, closed, convex, rect, clockwise, index);
        var n := Uint32(index[1..5]);
        var data := index[..n];
        assert data == index;
        seg, idx, dist := NearbySegment(World(data, Segs(), mid, distToRect, distToSegment), 5, rect, t);
      }
    }

    /** Move: a new series with every point moved, indexed when this one is (or when it has
        enough points by default).  The source works with the default options here, and then
        copies the kind. */
    method Move(dx: real, dy: real) returns (r: BaseSeries)
      requires Valid()
      ensures fresh(r) && r.Valid() && r.points == MovePoints(points, dx, dy) && r.closed == closed
      ensures r.indexKind == indexKind && (r.index != [] <==> index != [] || |points| >= 64)
      ensures |r.points| == |points|
      ensures forall i :: 0 <= i < |points| ==> r.points[i].x == points[i].x + dx && r.points[i].y == points[i].y + dy
      ensures r.convex == convex && r.clockwise == clockwise
      ensures r.rect == if TooShort(points, closed) then rect else rect.Move(dx, dy)
    {
      hide Consistent, BuiltTree, Packed, Encode, TooShort;
      var moved := MoveAll(points, dx, dy);
      r := new BaseSeries(mid, moved, closed, None);
      r.indexKind := indexKind;
      if |index| > 0 {
        r.BuildIndex();
      }
      MovedConsistent(mid, points, closed, convex, rect, clockwise, index, dx, dy, r.mid, r.convex, r.rect, r.clockwise, r.index);
    }

    /** For up to 27.8 million segments the length in the header is always right. */
    lemma IndexFits()
      requires Valid() && NumSegments(points, closed) <= SAFE_SEGMENTS
      ensures |index| < TWO32
    {
      hide Processed, BuiltTree, Packed, Encode;
      if index != [] {
        IndexIsShort(mid, points, closed, convex, rect, clockwise, index[0]);
      }
    }

    /** A longer index is cut short by its own header, and its tree cannot be read to the end. */
    lemma IndexIsReadable()
      requires Valid() && 0 < |index| < TWO64
      ensures |index| >= 5 && Uint32(index[1..5]) <= |index|
      ensures ReadNode(index[..Uint32(index[1..5])], 5).Some? <==> |index| < TWO32
    {
      hide Processed, BuiltTree, Packed, Encode, Storable, ReadNode, Uint32;
      BuiltTreeIsGood(mid, points, closed, convex, rect, clockwise);
      HeaderReadsTree(index[0], BuiltTree(mid, points, closed, rect));
    }
  }

  /** The linear loop leaves the number at 0, which is right exactly when no segment is
      nearer than the first. */
  lemma ZeroIsNearest(segs: seq<Segment>, distToSegment: SegmentDistance)
    requires segs != []
    ensures IsNearest(segs, distToSegment, 0) <==> forall j :: 0 <= j < |segs| ==> distToSegment(segs[0]) <= distToSegment(segs[j])
  {
  }

  /** Two segments on an axis, and the distance to where the second ends: the nearest segment
      is not the one whose number the linear loop leaves. */
  lemma ZeroIsNotNearest()
    ensures var segs := Segments([Point(0.0, 0.0), Point(1.0, 0.0), Point(2.0, 0.0)], false);
      var toEnd := (s: Segment) => 2.0 - s.b.x;
      |segs| == 2 && IsNearest(segs, toEnd, 1) && !IsNearest(segs, toEnd, 0)
  {
    var segs := Segments([Point(0.0, 0.0), Point(1.0, 0.0), Point(2.0, 0.0)], false);
    assert segs[0].b.x == 1.0 && segs[1].b.x == 2.0;
  }

  function MoveCall(c: Call, dx: real, dy: real): Call {
    Call(c.seg.Move(dx, dy), c.idx)
  }

  function MoveCalls(calls: seq<Call>, dx: real, dy: real): (r: seq<Call>)
    ensures |r| == |calls| && forall i :: 0 <= i < |r| ==> r[i] == MoveCall(calls[i], dx, dy)
  {
    seq(|calls|, i requires 0 <= i < |calls| => MoveCall(calls[i], dx, dy))
  }

  lemma MovedSegments(points: seq<Point>, closed: bool, dx: real, dy: real)
    ensures var segs, moved := Segments(points, closed), Segments(MovePoints(points, dx, dy), closed);
      |moved| == |segs| && forall i :: 0 <= i < |segs| ==> moved[i] == segs[i].Move(dx, dy)
  {
  }

  lemma MovedMeets(query: Query, s: Segment, dx: real, dy: real)
    ensures query.Move(dx, dy).Meets(s.Move(dx, dy).Box()) <==> query.Meets(s.Box())
  {
  }

  lemma {:induction false} MovedHits(segs: seq<Segment>, moved: seq<Segment>, query: Query, dx: real, dy: real, items: seq<nat>)
    requires |moved| == |segs| && forall i :: 0 <= i < |segs| ==> moved[i] == segs[i].Move(dx, dy)
    ensures Hits(moved, query.Move(dx, dy), items) == MoveCalls(Hits(segs, query, items), dx, dy)
  {
    hide Segment.Box, Query.Meets, Query.Move, Segment.Move;
    if items == [] {
    } else {
      MovedHits(segs, moved, query, dx, dy, items[1..]);
      if items[0] < |segs| {
        MovedMeets(query, segs[items[0]], dx, dy);
      }
    }
  }

  /** Searching the moved points for the moved query finds the same segments, moved. */
  lemma MovedScan(points: seq<Point>, closed: bool, query: Query, dx: real, dy: real)
    ensures ScanCalls(Segments(MovePoints(points, dx, dy), closed), query.Move(dx, dy)) ==
            MoveCalls(ScanCalls(Segments(points, closed), query), dx, dy)
  {
    hide Segments, MovePoints;
    MovedSegments(points, closed, dx, dy);
    MovedHits(Segments(points, closed), Segments(MovePoints(points, dx, dy), closed), query, dx, dy, Upto(NumSegments(points, closed)));
  }
}
