/** The nearest-segment search: best first over the bytes, with a priority queue. */
module NearestSegments {
  import opened Planar
  import opened Sequences
  import opened Varint
  import opened QuadTree
  import opened Codec
  import opened Searching
  import opened Queues

  type RectDistance = Rect -> real
  type SegmentDistance = Segment -> real

  /** The segment number that a linear scan settles on: the first of least distance. */
  ghost predicate IsNearest(segs: seq<Segment>, distTo: SegmentDistance, i: int) {
    && 0 <= i < |segs|
    && (forall j :: 0 <= j < |segs| ==> distTo(segs[i]) <= distTo(segs[j]))
    && (forall j :: 0 <= j < i ==> distTo(segs[i]) < distTo(segs[j]))
  }

  lemma NearestIsUnique(segs: seq<Segment>, distTo: SegmentDistance, i: int, j: int)
    requires IsNearest(segs, distTo, i) && IsNearest(segs, distTo, j)
    ensures i == j
  {
    assert distTo(segs[i]) <= distTo(segs[j]) && distTo(segs[j]) <= distTo(segs[i]);
  }

  /** What makes pruning by rectangle right: no segment is nearer than a rectangle around it. */
  ghost predicate LowerBound(distToRect: RectDistance, distToSegment: SegmentDistance) {
    forall r: Rect, s: Segment :: r.ContainsRect(s.Box()) ==> distToRect(r) <= distToSegment(s)
  }

  // ---------- What is in the queue ----------

  /** The tree that stands at an address. */
  function TreeAt(data: seq<Byte>, addr: int): Tree {
    match ReadNode(data, addr)
    case None => Nil
    case Some((t, _)) => t
  }

  lemma TreeAtStored(data: seq<Byte>, addr: int, t: Tree, n: nat)
    requires Stored(data, addr, t, n)
    ensures TreeAt(data, addr) == t
  {
    NodeRoundTrip(data, addr, t);
  }

  /** What does not change during a search. */
  datatype World = World(data: seq<Byte>, segs: seq<Segment>, mid: Midpoint, distToRect: RectDistance, distToSegment: SegmentDistance)

  /** The node of a subtree, at its address and with its bounds. */
  ghost predicate Pending(w: World, addr: int, bounds: Rect, t: Tree) {
    Stored(w.data, addr, t, |w.segs|) && Bounded(w.mid, w.segs, bounds, t)
  }

  /** An entry is what the search says it is: a subtree not yet opened, with the distance to
      its bounds, or a segment with its number and its distance. */
  ghost predicate Genuine(w: World, e: Entry) {
    match e.kind
    case RectKind =>
      var bounds := Rect(e.a, e.b);
      Pending(w, e.pos, bounds, TreeAt(w.data, e.pos)) && e.dist == w.distToRect(bounds)
    case SegmentKind =>
      0 <= e.pos < |w.segs| && w.segs[e.pos] == Segment(e.a, e.b) && e.dist == w.distToSegment(w.segs[e.pos])
  }

  ghost predicate AllGenuine(w: World, nodes: seq<Entry>) {
    forall e :: e in nodes ==> Genuine(w, e)
  }

  /** The segment of the entry beats segment `i`, by distance and then by number. */
  ghost predicate Beats(w: World, e: Entry, i: nat)
    requires i < |w.segs|
  {
    e.dist < w.distToSegment(w.segs[i]) || (e.dist == w.distToSegment(w.segs[i]) && e.pos <= i)
  }

  /** Segment `i` is beaten by the entry, or still hidden below it. */
  ghost predicate Covers(w: World, e: Entry, i: nat)
    requires i < |w.segs|
  {
    match e.kind
    case RectKind => i in TreeAt(w.data, e.pos).Items()
    case SegmentKind => Beats(w, e, i)
  }

  ghost predicate Covered(w: World, nodes: seq<Entry>, i: nat)
    requires i < |w.segs|
  {
    exists e :: e in nodes && Covers(w, e, i)
  }

  // ---------- Opening a node ----------

  /** The entry of a segment. */
  function SegmentEntry(w: World, i: nat): Entry
    requires i < |w.segs|
  {
    Entry(w.distToSegment(w.segs[i]), SegmentKind, i, w.segs[i].a, w.segs[i].b)
  }

  /** Midway through a node's items: `near` is the best of those seen. */
  ghost predicate Scanned(w: World, seen: seq<nat>, near: Option<Entry>, last: nat) {
    && (near.None? <==> seen == [])
    && (near.Some? ==>
          && 0 <= near.value.pos <= last && near.value.pos < |w.segs|
          && near.value == SegmentEntry(w, near.value.pos) && near.value.pos in seen
          && forall i :: i in seen ==> i < |w.segs| && Beats(w, near.value, i))
  }

  lemma ScanStart(w: World, t: Tree)
    requires t.Node?
    ensures t.items[0..] == t.items && t.items[..0] == [] && Scanned(w, [], None, 0)
  {
  }

  lemma ScanOne(w: World, items: seq<nat>, k: nat, near: Option<Entry>, last: nat)
    requires k < |items| && items[k] < |w.segs| && last <= items[k] && Scanned(w, items[..k], near, last)
    ensures var item := items[k];
      var dist := w.distToSegment(w.segs[item]);
      var seg := w.segs[item];
      var near' := if near.None? || dist < near.value.dist then Some(Entry(dist, SegmentKind, item, seg.a, seg.b)) else near;
      Scanned(w, items[..k + 1], near', item)
  {
    assert items[..k + 1] == items[..k] + [items[k]];
  }

  lemma ScanEnd(w: World, t: Tree, near: Option<Entry>, last: nat)
    requires t.Node? && Scanned(w, t.items[..|t.items|], near, last)
    ensures t.items[|t.items|..] == []
    ensures near.Some? ==> Genuine(w, near.value) && near.value.kind.SegmentKind? && near.value.pos in t.items
    ensures forall i :: i in t.items ==> i < |w.segs| && near.Some? && Beats(w, near.value, i)
  {
    assert t.items[..|t.items|] == t.items;
  }

  /** The nearest segment among a node's own items, the first one on a tie. */
  method ScanItems(w: World, start: int, ghost t: Tree) returns (near: Option<Entry>, addr: int)
    requires t.Node? && Stored(w.data, start, t, |w.segs|)
    ensures 0 <= addr < |w.data| && (w.data[addr] == 1 <==> t.split)
    ensures t.split ==> AtQuads(w.data, addr + 1, t, 0, |w.segs|)
    ensures near.Some? ==> Genuine(w, near.value) && near.value.kind.SegmentKind? && near.value.pos in t.items
    ensures forall i :: i in t.items ==> i < |w.segs| && near.Some? && Beats(w, near.value, i)
  {
    hide *;
    EnterNode(w.data, start, t, |w.segs|);
    ScanStart(w, t);
    var nitems;
    nitems, addr := ReadUvarint(w.data, start);
    near := None;
    var last: nat := 0;
    var i := 0;
    while i < nitems
      invariant 0 <= i <= nitems == |t.items|
      invariant AtItems(w.data, addr, t.items[i..], last, t, |w.segs|)
      invariant Scanned(w, t.items[..i], near, last)
    {
      ghost var items := t.items[i..];
      NextItem(w.data, addr, items, last, t, |w.segs|);
      ScanOne(w, t.items, i, near, last);
      assert items[1..] == t.items[i + 1..];
      var item: nat;
      item, addr := ReadUvarint(w.data, addr);
      item := U64(item + last);
      var seg := w.segs[item];
      var dist := w.distToSegment(seg);
      if near.None? || dist < near.value.dist {
        near := Some(Entry(dist, SegmentKind, item, seg.a, seg.b));
      }
      last := item;
      i := i + 1;
    }
    ScanEnd(w, t, near, last);
    AfterItems(w.data, addr, last, start, t, |w.segs|);
  }

  /** How many bytes the size of a child takes. */
  ghost function SizeOfSize(t: Tree): nat
    requires t.Node?
  {
    |Uvarint(|Encode(t)|)|
  }

  function QuadEntry(w: World, qbounds: Rect, at: int): Entry {
    Entry(w.distToRect(qbounds), RectKind, at, qbounds.min, qbounds.max)
  }

  /** The entries of the quads from `q` on, whose bytes start at `addr`. */
  ghost function QuadEntries(w: World, bounds: Rect, addr: int, t: Tree, q: nat): seq<Entry>
    requires t.Node? && q <= 4
    decreases 4 - q
  {
    if q == 4 then []
    else if t.Quad(q).Nil? then QuadEntries(w, bounds, addr + 1, t, q + 1)
    else
      var at := addr + SizeOfSize(t.Quad(q));
      [QuadEntry(w, QuadBounds(w.mid, bounds, q), at)] + QuadEntries(w, bounds, at + |Encode(t.Quad(q))|, t, q + 1)
  }

  lemma QuadEntriesDef(w: World, bounds: Rect, addr: int, t: Tree, q: nat)
    requires t.Node? && q < 4
    ensures QuadEntries(w, bounds, addr, t, q) ==
      if t.Quad(q).Nil? then QuadEntries(w, bounds, addr + 1, t, q + 1)
      else [QuadEntry(w, QuadBounds(w.mid, bounds, q), addr + SizeOfSize(t.Quad(q)))] +
           QuadEntries(w, bounds, addr + SizeOfSize(t.Quad(q)) + |Encode(t.Quad(q))|, t, q + 1)
  {
    hide Encode, Uvarint, SizeOfSize, QuadBounds, QuadEntry, Tree.Quad;
  }

  /** The entries from `q` on, by what a read at their address answers. */
  lemma QuadEntriesStep(w: World, bounds: Rect, addr: int, t: Tree, q: nat)
    requires t.Node? && q < 4 && AtQuads(w.data, addr, t, q, |w.segs|)
    ensures Readable(w.data, addr)
    ensures var (item, at) := Read(w.data, addr);
      && AtQuads(w.data, at + item, t, q + 1, |w.segs|)
      && (item == 0 <==> t.Quad(q).Nil?)
      && (item != 0 ==> Stored(w.data, at, t.Quad(q), |w.segs|))
      && var rest := QuadEntries(w, bounds, at + item, t, q + 1);
      QuadEntries(w, bounds, addr, t, q) ==
        if item == 0 then rest else [QuadEntry(w, QuadBounds(w.mid, bounds, q), at)] + rest
  {
    hide AtQuads, Stored, Encode, Uvarint, Read, Readable, QuadBounds, QuadEntry, Tree.Quad, QuadEntries;
    NextQuad(w.data, addr, t, q, |w.segs|);
    QuadEntriesDef(w, bounds, addr, t, q);
  }

  /** Genuine rectangle entries that hide every item of the quads from `q` on. */
  ghost predicate CoversQuads(w: World, entries: seq<Entry>, t: Tree, q: nat)
    requires t.Node?
  {
    && AllGenuine(w, entries)
    && (forall p, i :: q <= p < 4 && i < |w.segs| && i in t.Quad(p).Items() ==> Covered(w, entries, i))
  }

  lemma NoQuadsToCover(w: World, t: Tree)
    requires t.Node?
    ensures CoversQuads(w, [], t, 4)
  {
  }

  lemma SkipQuad(w: World, entries: seq<Entry>, t: Tree, q: nat)
    requires t.Node? && q < 4 && t.Quad(q).Nil? && CoversQuads(w, entries, t, q + 1)
    ensures CoversQuads(w, entries, t, q)
  {
  }

  lemma AddQuad(w: World, e: Entry, entries: seq<Entry>, t: Tree, q: nat)
    requires t.Node? && q < 4 && CoversQuads(w, entries, t, q + 1)
    requires Genuine(w, e) && e.kind.RectKind? && TreeAt(w.data, e.pos) == t.Quad(q)
    ensures CoversQuads(w, [e] + entries, t, q)
  {
    hide Genuine, TreeAt;
    forall p, i | q <= p < 4 && i < |w.segs| && i in t.Quad(p).Items()
      ensures Covered(w, [e] + entries, i)
    {
      if p == q {
        assert e in [e] + entries && Covers(w, e, i);
      } else {
        assert Covered(w, entries, i);
        var x :| x in entries && Covers(w, x, i);
        assert x in [e] + entries;
      }
    }
  }

  lemma QuadEntryGenuine(w: World, bounds: Rect, at: int, t: Tree, q: nat)
    requires t.Node? && q < 4 && Bounded(w.mid, w.segs, bounds, t) && Stored(w.data, at, t.Quad(q), |w.segs|)
    ensures var e := QuadEntry(w, QuadBounds(w.mid, bounds, q), at);
      Genuine(w, e) && e.kind.RectKind? && TreeAt(w.data, at) == t.Quad(q)
  {
    hide Stored, TreeAt;
    TreeAtStored(w.data, at, t.Quad(q), |w.segs|);
    assert Bounded(w.mid, w.segs, QuadBounds(w.mid, bounds, q), t.Quad(q));
  }

  lemma {:induction false} QuadEntriesCover(w: World, bounds: Rect, addr: int, t: Tree, q: nat)
    requires t.Node? && q <= 4 && AtQuads(w.data, addr, t, q, |w.segs|) && Bounded(w.mid, w.segs, bounds, t)
    ensures CoversQuads(w, QuadEntries(w, bounds, addr, t, q), t, q)
    decreases 4 - q
  {
    hide AtQuads, Bounded, CoversQuads, Encode, Uvarint, Read, Readable, Stored;
    if q == 4 {
      NoQuadsToCover(w, t);
    } else {
      QuadEntriesStep(w, bounds, addr, t, q);
      var rest := Read(w.data, addr).1 + Read(w.data, addr).0;
      QuadEntriesCover(w, bounds, rest, t, q + 1);
      if t.Quad(q).Nil? {
        SkipQuad(w, QuadEntries(w, bounds, rest, t, q + 1), t, q);
      } else {
        QuadEntryGenuine(w, bounds, Read(w.data, addr).1, t, q);
        AddQuad(w, QuadEntry(w, QuadBounds(w.mid, bounds, q), Read(w.data, addr).1), QuadEntries(w, bounds, rest, t, q + 1), t, q);
      }
    }
  }

  lemma NoMoreEntries(w: World, bounds: Rect, addr: int, t: Tree)
    requires t.Node?
    ensures QuadEntries(w, bounds, addr, t, 4) == []
  {
  }

  /** Push the quads of a split node, without opening them. */
  method PushQuads(q: Queue, w: World, start: int, bounds: Rect, ghost t: Tree)
    requires q.Valid() && t.Node? && AtQuads(w.data, start, t, 0, |w.segs|)
    modifies q
    ensures q.Valid()
    ensures multiset(q.nodes) == multiset(old(q.nodes)) + multiset(QuadEntries(w, bounds, start, t, 0))
  {
    hide *;
    var addr := start;
    var i := 0;
    while i < 4
      invariant 0 <= i <= 4 && q.Valid() && AtQuads(w.data, addr, t, i, |w.segs|)
      invariant multiset(q.nodes) + multiset(QuadEntries(w, bounds, addr, t, i)) ==
                multiset(old(q.nodes)) + multiset(QuadEntries(w, bounds, start, t, 0))
    {
      QuadEntriesStep(w, bounds, addr, t, i);
      var item: nat;
      item, addr := ReadUvarint(w.data, addr);
      if item != 0 {
        var qbounds := QuadBounds(w.mid, bounds, i);
        q.Push(QuadEntry(w, qbounds, addr));
        addr := addr + item;
      }
      i := i + 1;
    }
    NoMoreEntries(w, bounds, addr, t);
  }

  // ---------- Termination: every rectangle popped is a node not opened before ----------

  function NodeCount(t: Tree): nat {
    match t
    case Nil => 0
    case Node(_, _, q0, q1, q2, q3) => 1 + NodeCount(q0) + NodeCount(q1) + NodeCount(q2) + NodeCount(q3)
  }

  /** How many nodes an entry stands for. */
  function Weight(data: seq<Byte>): Entry -> int {
    (e: Entry) => if e.kind.RectKind? then NodeCount(TreeAt(data, e.pos)) else 0
  }

  ghost function CountFrom(t: Tree, q: nat): nat
    requires t.Node? && q <= 4
    decreases 4 - q
  {
    if q == 4 then 0 else NodeCount(t.Quad(q)) + CountFrom(t, q + 1)
  }

  lemma CountAll(t: Tree)
    requires t.Node?
    ensures NodeCount(t) == 1 + CountFrom(t, 0)
  {
  }

  lemma NilWeighsNothing(t: Tree)
    ensures t.Nil? ==> NodeCount(t) == 0
  {
  }

  lemma {:induction false} QuadEntriesWeigh(w: World, bounds: Rect, addr: int, t: Tree, q: nat)
    requires t.Node? && q <= 4 && AtQuads(w.data, addr, t, q, |w.segs|)
    ensures Sum(Weight(w.data), QuadEntries(w, bounds, addr, t, q)) == CountFrom(t, q)
    decreases 4 - q
  {
    hide AtQuads, Encode, Uvarint, Read, Readable, Stored, QuadBounds, TreeAt, QuadEntries, NodeCount;
    if q == 4 {
      NoMoreEntries(w, bounds, addr, t);
    } else {
      QuadEntriesStep(w, bounds, addr, t, q);
      var (item, at) := Read(w.data, addr);
      QuadEntriesWeigh(w, bounds, at + item, t, q + 1);
      if t.Quad(q).Nil? {
        NilWeighsNothing(t.Quad(q));
      } else {
        TreeAtStored(w.data, at, t.Quad(q), |w.segs|);
        SumConcat(Weight(w.data), [QuadEntry(w, QuadBounds(w.mid, bounds, q), at)], QuadEntries(w, bounds, at + item, t, q + 1));
      }
    }
  }

  // ---------- Which segments can be reached at which level ----------

  ghost predicate ReachItem(w: World, t: Tree, i: nat, v: real)
    requires t.Node?
  {
    i in t.items && i < |w.segs| && w.distToSegment(w.segs[i]) <= v
  }

  /** Segment `i` of a subtree can be reached at level `v`: it is no farther than `v`, and
      neither is the rectangle of any node on the way down to it. */
  ghost predicate Reach(w: World, bounds: Rect, t: Tree, i: nat, v: real)
    decreases t, 1
  {
    t.Node? && (ReachItem(w, t, i, v) || (t.split && exists q :: 0 <= q < 4 && ReachQuad(w, bounds, t, q, i, v)))
  }

  ghost predicate ReachQuad(w: World, bounds: Rect, t: Tree, q: int, i: nat, v: real)
    requires t.Node? && 0 <= q < 4
    decreases t, 0
  {
    var qbounds := QuadBounds(w.mid, bounds, q);
    w.distToRect(qbounds) <= v && Reach(w, qbounds, t.Quad(q), i, v)
  }

  /** Some segment of a subtree can be reached at the level. */
  ghost predicate Reachable(w: World, bounds: Rect, t: Tree, v: real) {
    exists i :: Reach(w, bounds, t, i, v)
  }

  lemma {:induction false} ReachIsStored(w: World, bounds: Rect, t: Tree, i: nat, v: real)
    requires Reach(w, bounds, t, i, v)
    ensures i in t.Items() && i < |w.segs|
    decreases t
  {
    hide Tree.Items, Tree.Quad, QuadBounds;
    PartsOfItems(t);
    if i in t.items && i < |w.segs| {
    } else {
      var q :| 0 <= q < 4 && ReachQuad(w, bounds, t, q, i, v);
      ReachIsStored(w, QuadBounds(w.mid, bounds, q), t.Quad(q), i, v);
      QuadItemsAreItems(t, q, i);
    }
  }

  /** When no segment is nearer than a rectangle around it, the level of a segment is its own
      distance. */
  lemma {:induction false} ReachIsDistance(w: World, bounds: Rect, t: Tree, i: nat, v: real)
    requires Bounded(w.mid, w.segs, bounds, t) && Storable(t) && i < |w.segs| && i in t.Items()
    requires LowerBound(w.distToRect, w.distToSegment)
    ensures Reach(w, bounds, t, i, v) <==> w.distToSegment(w.segs[i]) <= v
    decreases t
  {
    hide Tree.Items, Tree.Quad, QuadBounds, Segment.Box, Rect.ContainsRect, LowerBound;
    NilHasNone(t);
    InQuadsAll(t, i);
    if !t.split {
      NoneInQuads(t, i);
    } else {
      forall q | 0 <= q < 4
        ensures ReachQuad(w, bounds, t, q, i, v) ==> w.distToSegment(w.segs[i]) <= v
        ensures i in t.Quad(q).Items() && w.distToSegment(w.segs[i]) <= v ==> ReachQuad(w, bounds, t, q, i, v)
      {
        ReachQuadIsDistance(w, bounds, t, q, i, v);
      }
      if i !in t.items {
        assert InQuadsFrom(t, 2, i) == t.Quad(2).Items()[i] + t.Quad(3).Items()[i];
        assert exists q :: 0 <= q < 4 && i in t.Quad(q).Items();
      }
    }
  }

  lemma {:induction false} ReachQuadIsDistance(w: World, bounds: Rect, t: Tree, q: int, i: nat, v: real)
    requires t.Node? && 0 <= q < 4
    requires Bounded(w.mid, w.segs, bounds, t) && Storable(t) && i < |w.segs|
    requires LowerBound(w.distToRect, w.distToSegment)
    ensures ReachQuad(w, bounds, t, q, i, v) ==> w.distToSegment(w.segs[i]) <= v
    ensures i in t.Quad(q).Items() && w.distToSegment(w.segs[i]) <= v ==> ReachQuad(w, bounds, t, q, i, v)
    decreases t, 0
  {
    hide Tree.Items, Segment.Box, Rect.ContainsRect, QuadBounds;
    var qbounds := QuadBounds(w.mid, bounds, q);
    assert Bounded(w.mid, w.segs, qbounds, t.Quad(q)) && Storable(t.Quad(q));
    if Reach(w, qbounds, t.Quad(q), i, v) {
      ReachIsStored(w, qbounds, t.Quad(q), i, v);
    }
    if i in t.Quad(q).Items() {
      NilHasNone(t.Quad(q));
      ReachIsDistance(w, qbounds, t.Quad(q), i, v);
      assert qbounds.ContainsRect(BoxOf(w.segs, i));
    }
  }

  function Listed(near: Option<Entry>): seq<Entry> {
    if near.Some? then [near.value] else []
  }

  /** The entry stands for quad `q` of a node. */
  ghost predicate IsQuadEntry(w: World, bounds: Rect, t: Tree, q: int, e: Entry)
    requires t.Node? && 0 <= q < 4
  {
    && t.Quad(q).Node? && e == QuadEntry(w, QuadBounds(w.mid, bounds, q), e.pos)
    && TreeAt(w.data, e.pos) == t.Quad(q)
  }

  /** Entries that stand for the quads from `q` on, and for nothing else. */
  ghost predicate Matches(w: World, bounds: Rect, t: Tree, entries: seq<Entry>, q: int)
    requires t.Node? && 0 <= q
  {
    && (forall p :: q <= p < 4 && t.Quad(p).Node? ==> exists e :: e in entries && IsQuadEntry(w, bounds, t, p, e))
    && (forall e :: e in entries ==> exists p :: q <= p < 4 && IsQuadEntry(w, bounds, t, p, e))
  }

  lemma NothingToMatch(w: World, bounds: Rect, t: Tree)
    requires t.Node?
    ensures Matches(w, bounds, t, [], 4)
  {
  }

  lemma MatchesWithout(w: World, bounds: Rect, t: Tree, entries: seq<Entry>, q: nat)
    requires t.Node? && q < 4 && t.Quad(q).Nil? && Matches(w, bounds, t, entries, q + 1)
    ensures Matches(w, bounds, t, entries, q)
  {
    hide IsQuadEntry;
  }

  lemma MatchesWith(w: World, bounds: Rect, t: Tree, e: Entry, entries: seq<Entry>, q: nat)
    requires t.Node? && q < 4 && IsQuadEntry(w, bounds, t, q, e) && Matches(w, bounds, t, entries, q + 1)
    ensures Matches(w, bounds, t, [e] + entries, q)
  {
    hide IsQuadEntry;
    var all := [e] + entries;
    forall p | q <= p < 4 && t.Quad(p).Node?
      ensures exists x :: x in all && IsQuadEntry(w, bounds, t, p, x)
    {
      if p == q {
        assert e in all;
      } else {
        var x :| x in entries && IsQuadEntry(w, bounds, t, p, x);
        assert x in all;
      }
    }
  }

  lemma {:induction false} QuadEntriesMatch(w: World, bounds: Rect, addr: int, t: Tree, q: nat)
    requires t.Node? && q <= 4 && AtQuads(w.data, addr, t, q, |w.segs|)
    ensures Matches(w, bounds, t, QuadEntries(w, bounds, addr, t, q), q)
    decreases 4 - q
  {
    hide AtQuads, Matches, Encode, Uvarint, Read, Readable, Stored, TreeAt, QuadBounds, Tree.Quad;
    if q == 4 {
      NothingToMatch(w, bounds, t);
    } else {
      QuadEntriesStep(w, bounds, addr, t, q);
      var (item, at) := Read(w.data, addr);
      QuadEntriesMatch(w, bounds, at + item, t, q + 1);
      if t.Quad(q).Nil? {
        MatchesWithout(w, bounds, t, QuadEntries(w, bounds, at + item, t, q + 1), q);
      } else {
        TreeAtStored(w.data, at, t.Quad(q), |w.segs|);
        MatchesWith(w, bounds, t, QuadEntry(w, QuadBounds(w.mid, bounds, q), at), QuadEntries(w, bounds, at + item, t, q + 1), q);
      }
    }
  }

  /** The entry is no farther than `v`, and leads to a segment that is not either. */
  ghost predicate Leads(w: World, e: Entry, v: real) {
    e.dist <= v && (e.kind.SegmentKind? || Reachable(w, Rect(e.a, e.b), TreeAt(w.data, e.pos), v))
  }

  /** What can be reached in a subtree can be reached from the root. */
  ghost predicate NodeSound(w: World, root: Rect, t: Tree, bounds: Rect, cur: Tree, v: real) {
    forall j :: Reach(w, bounds, cur, j, v) ==> Reach(w, root, t, j, v)
  }

  /** So can what the entry stands for, if it is no farther than `v`. */
  ghost predicate EntrySound(w: World, root: Rect, t: Tree, e: Entry, v: real) {
    e.dist <= v ==>
      match e.kind
      case SegmentKind => e.pos >= 0 && Reach(w, root, t, e.pos, v)
      case RectKind => NodeSound(w, root, t, Rect(e.a, e.b), TreeAt(w.data, e.pos), v)
  }

  ghost predicate AllSound(w: World, root: Rect, t: Tree, nodes: seq<Entry>, v: real) {
    forall e :: e in nodes ==> EntrySound(w, root, t, e, v)
  }

  ghost predicate SomeLeads(w: World, nodes: seq<Entry>, v: real) {
    exists e :: e in nodes && Leads(w, e, v)
  }

  /** At a level at which some segment can be reached, a way to one remains: through the
      current node or through the queue. */
  ghost predicate LevelBefore(w: World, root: Rect, t: Tree, nodes: seq<Entry>, bounds: Rect, cur: Tree, v: real) {
    && (Reachable(w, bounds, cur, v) || SomeLeads(w, nodes, v))
    && NodeSound(w, root, t, bounds, cur, v) && AllSound(w, root, t, nodes, v)
  }

  /** The same for the queue alone. */
  ghost predicate LevelAfter(w: World, root: Rect, t: Tree, nodes: seq<Entry>, v: real) {
    SomeLeads(w, nodes, v) && AllSound(w, root, t, nodes, v)
  }

  ghost predicate LevelsBefore(w: World, root: Rect, t: Tree, nodes: seq<Entry>, bounds: Rect, cur: Tree) {
    forall v :: Reachable(w, root, t, v) ==> LevelBefore(w, root, t, nodes, bounds, cur, v)
  }

  ghost predicate LevelsAfter(w: World, root: Rect, t: Tree, nodes: seq<Entry>) {
    forall v :: Reachable(w, root, t, v) ==> LevelAfter(w, root, t, nodes, v)
  }

  lemma StartLevels(w: World, root: Rect, t: Tree)
    ensures LevelsBefore(w, root, t, [], root, t)
  {
    hide Reach, Reachable;
  }

  lemma ReachParts(w: World, bounds: Rect, t: Tree, i: nat, v: real)
    requires t.Node? && Reach(w, bounds, t, i, v) && !ReachItem(w, t, i, v)
    ensures t.split && exists q :: 0 <= q < 4 && ReachQuad(w, bounds, t, q, i, v)
  {
  }

  lemma ReachNeedsNode(w: World, bounds: Rect, t: Tree, i: nat, v: real)
    requires Reach(w, bounds, t, i, v)
    ensures t.Node?
  {
  }

  lemma QuadLeads(w: World, bounds: Rect, cur: Tree, quads: seq<Entry>, q: int, i: nat, v: real)
    requires cur.Node? && 0 <= q < 4 && ReachQuad(w, bounds, cur, q, i, v) && Matches(w, bounds, cur, quads, 0)
    ensures SomeLeads(w, quads, v)
  {
    hide TreeAt, Tree.Quad, QuadBounds, Reach;
    ReachNeedsNode(w, QuadBounds(w.mid, bounds, q), cur.Quad(q), i, v);
    var e :| e in quads && IsQuadEntry(w, bounds, cur, q, e);
    assert Reach(w, Rect(e.a, e.b), TreeAt(w.data, e.pos), i, v);
    assert Leads(w, e, v);
  }

  lemma NearLeads(w: World, cur: Tree, near: Option<Entry>, i: nat, v: real)
    requires cur.Node? && ReachItem(w, cur, i, v)
    requires near.Some? && near.value.kind.SegmentKind? && Beats(w, near.value, i)
    ensures SomeLeads(w, Listed(near), v)
  {
    hide TreeAt, Reachable;
    assert near.value in Listed(near) && Leads(w, near.value, v);
  }

  lemma MoreLeads(w: World, some: seq<Entry>, all: seq<Entry>, v: real)
    requires SomeLeads(w, some, v) && multiset(some) <= multiset(all)
    ensures SomeLeads(w, all, v)
  {
    hide Leads;
    var e :| e in some && Leads(w, e, v);
    assert e in multiset(some);
    assert e in multiset(all);
  }

  /** A segment of a node in reach leads on through the best of its items or through a quad. */
  lemma LeadsThrough(w: World, bounds: Rect, cur: Tree, near: Option<Entry>, quads: seq<Entry>, v: real)
    requires cur.Node? && Reachable(w, bounds, cur, v)
    requires near.Some? ==> near.value.kind.SegmentKind?
    requires forall i :: i in cur.items ==> i < |w.segs| && near.Some? && Beats(w, near.value, i)
    requires cur.split ==> Matches(w, bounds, cur, quads, 0)
    ensures SomeLeads(w, Listed(near), v) || SomeLeads(w, quads, v)
  {
    hide SomeLeads, Matches, ReachQuad;
    var i :| Reach(w, bounds, cur, i, v);
    if ReachItem(w, cur, i, v) {
      NearLeads(w, cur, near, i, v);
    } else {
      ReachParts(w, bounds, cur, i, v);
      var q :| 0 <= q < 4 && ReachQuad(w, bounds, cur, q, i, v);
      QuadLeads(w, bounds, cur, quads, q, i, v);
    }
  }

  /** What is pushed leads nowhere else. */
  lemma NearIsSound(w: World, root: Rect, t: Tree, bounds: Rect, cur: Tree, e: Entry, v: real)
    requires cur.Node? && NodeSound(w, root, t, bounds, cur, v)
    requires Genuine(w, e) && e.kind.SegmentKind? && e.pos in cur.items
    ensures EntrySound(w, root, t, e, v)
  {
    hide TreeAt;
    if e.dist <= v {
      assert ReachItem(w, cur, e.pos, v);
      assert Reach(w, bounds, cur, e.pos, v);
    }
  }

  lemma QuadIsSound(w: World, root: Rect, t: Tree, bounds: Rect, cur: Tree, q: int, e: Entry, v: real)
    requires cur.Node? && cur.split && NodeSound(w, root, t, bounds, cur, v)
    requires 0 <= q < 4 && IsQuadEntry(w, bounds, cur, q, e)
    ensures EntrySound(w, root, t, e, v)
  {
    hide TreeAt, Tree.Quad, QuadBounds;
    if e.dist <= v {
      forall j | Reach(w, Rect(e.a, e.b), TreeAt(w.data, e.pos), j, v)
        ensures Reach(w, root, t, j, v)
      {
        assert ReachQuad(w, bounds, cur, q, j, v);
        assert Reach(w, bounds, cur, j, v);
      }
    }
  }

  /** Opening a node keeps every level. */
  lemma OpenLevel(w: World, root: Rect, t: Tree, before: seq<Entry>, bounds: Rect, cur: Tree,
                  near: Option<Entry>, quads: seq<Entry>, after: seq<Entry>, v: real)
    requires cur.Node? && LevelBefore(w, root, t, before, bounds, cur, v)
    requires near.Some? ==> Genuine(w, near.value) && near.value.kind.SegmentKind? && near.value.pos in cur.items
    requires forall i :: i in cur.items ==> i < |w.segs| && near.Some? && Beats(w, near.value, i)
    requires if cur.split then Matches(w, bounds, cur, quads, 0) else quads == []
    requires multiset(after) == multiset(before) + multiset(Listed(near)) + multiset(quads)
    ensures LevelAfter(w, root, t, after, v)
  {
    hide Genuine, Beats, SomeLeads, EntrySound, NodeSound, IsQuadEntry, Reachable;
    if SomeLeads(w, before, v) {
      MoreLeads(w, before, after, v);
    } else {
      LeadsThrough(w, bounds, cur, near, quads, v);
      if SomeLeads(w, quads, v) {
        MoreLeads(w, quads, after, v);
      } else {
        MoreLeads(w, Listed(near), after, v);
      }
    }
    forall e | e in after
      ensures EntrySound(w, root, t, e, v)
    {
      assert e in multiset(after);
      assert e in multiset(before) || e in multiset(Listed(near)) || e in multiset(quads);
      if e in before {
      } else if e in Listed(near) {
        NearIsSound(w, root, t, bounds, cur, e, v);
      } else {
        assert e in quads;
        var p :| 0 <= p < 4 && IsQuadEntry(w, bounds, cur, p, e);
        QuadIsSound(w, root, t, bounds, cur, p, e, v);
      }
    }
  }

  lemma OpenLevels(w: World, root: Rect, t: Tree, before: seq<Entry>, bounds: Rect, cur: Tree,
                   near: Option<Entry>, quads: seq<Entry>, after: seq<Entry>)
    requires cur.Node? && LevelsBefore(w, root, t, before, bounds, cur)
    requires near.Some? ==> Genuine(w, near.value) && near.value.kind.SegmentKind? && near.value.pos in cur.items
    requires forall i :: i in cur.items ==> i < |w.segs| && near.Some? && Beats(w, near.value, i)
    requires if cur.split then Matches(w, bounds, cur, quads, 0) else quads == []
    requires multiset(after) == multiset(before) + multiset(Listed(near)) + multiset(quads)
    ensures LevelsAfter(w, root, t, after)
  {
    hide Genuine, Beats, Matches, Reachable, LevelBefore, LevelAfter, Listed;
    forall v | Reachable(w, root, t, v)
      ensures LevelAfter(w, root, t, after, v)
    {
      OpenLevel(w, root, t, before, bounds, cur, near, quads, after, v);
    }
  }

  /** A least entry is within every level at which something can be reached. */
  lemma LeastIsWithin(w: World, root: Rect, t: Tree, nodes: seq<Entry>, n: Entry, v: real)
    requires LevelAfter(w, root, t, nodes, v) && n in nodes && forall e :: e in nodes ==> AtMost(n, e)
    ensures n.dist <= v && EntrySound(w, root, t, n, v)
  {
    hide EntrySound, Reachable, TreeAt;
    var e :| e in nodes && Leads(w, e, v);
    assert AtMost(n, e);
  }

  lemma PopLevels(w: World, root: Rect, t: Tree, nodes: seq<Entry>, n: Entry, rest: seq<Entry>)
    requires LevelsAfter(w, root, t, nodes) && n in nodes && n.kind.RectKind?
    requires multiset(nodes) == multiset(rest) + multiset{n} && forall e :: e in nodes ==> AtMost(n, e)
    ensures LevelsBefore(w, root, t, rest, Rect(n.a, n.b), TreeAt(w.data, n.pos))
  {
    hide Reachable, TreeAt, NodeSound, AtMost;
    forall v | Reachable(w, root, t, v)
      ensures LevelBefore(w, root, t, rest, Rect(n.a, n.b), TreeAt(w.data, n.pos), v)
    {
      LeastIsWithin(w, root, t, nodes, n, v);
      forall e | e in rest
        ensures EntrySound(w, root, t, e, v)
      {
        assert e in multiset(rest);
        assert e in multiset(nodes);
      }
      var e :| e in nodes && Leads(w, e, v);
      if e != n {
        assert e in multiset(nodes);
        assert e in multiset(rest);
      }
    }
  }

  /** The first segment popped can be reached at every level at which any segment can. */
  lemma FirstSegmentIsReached(w: World, root: Rect, t: Tree, nodes: seq<Entry>, n: Entry)
    requires LevelsAfter(w, root, t, nodes) && n in nodes && n.kind.SegmentKind? && n.pos >= 0
    requires forall e :: e in nodes ==> AtMost(n, e)
    ensures forall i, v :: Reach(w, root, t, i, v) ==> Reach(w, root, t, n.pos, v)
  {
    hide Reach, AtMost, LevelAfter;
    forall i, v | Reach(w, root, t, i, v)
      ensures Reach(w, root, t, n.pos, v)
    {
      assert Reachable(w, root, t, v);
      LeastIsWithin(w, root, t, nodes, n, v);
    }
  }

  // ---------- The search ----------

  /** At the top of the outer loop: `cur` is about to be opened, and every segment is in it
      or covered by the queue. */
  ghost predicate Exploring(w: World, nodes: seq<Entry>, addr: int, bounds: Rect, cur: Tree) {
    && Pending(w, addr, bounds, cur) && AllGenuine(w, nodes)
    && forall i :: 0 <= i < |w.segs| ==> i in cur.Items() || Covered(w, nodes, i)
  }

  /** After opening: every segment is covered by the queue alone. */
  ghost predicate Opened(w: World, nodes: seq<Entry>) {
    AllGenuine(w, nodes) && forall i :: 0 <= i < |w.segs| ==> Covered(w, nodes, i)
  }

  lemma CoveredByMore(w: World, some: seq<Entry>, all: seq<Entry>, i: nat)
    requires i < |w.segs| && Covered(w, some, i) && multiset(some) <= multiset(all)
    ensures Covered(w, all, i)
  {
    hide Covers;
    var e :| e in some && Covers(w, e, i);
    assert e in multiset(some);
    assert e in multiset(all);
  }

  lemma CoveredInQuads(w: World, addr: int, cur: Tree, quads: seq<Entry>, i: nat)
    requires cur.Node? && i < |w.segs| && i in cur.Items() && i !in multiset(cur.items)
    requires Stored(w.data, addr, cur, |w.segs|)
    requires if cur.split then CoversQuads(w, quads, cur, 0) else quads == []
    ensures Covered(w, quads, i)
  {
    hide Covered, AllGenuine;
    InQuadsAll(cur, i);
    if cur.split {
      assert InQuadsFrom(cur, 2, i) == cur.Quad(2).Items()[i] + cur.Quad(3).Items()[i];
      assert exists p :: 0 <= p < 4 && i in cur.Quad(p).Items();
    } else {
      NoneInQuads(cur, i);
    }
  }

  lemma IsStored(w: World, nodes: seq<Entry>, addr: int, bounds: Rect, cur: Tree)
    requires Exploring(w, nodes, addr, bounds, cur)
    ensures Stored(w.data, addr, cur, |w.segs|) && Bounded(w.mid, w.segs, bounds, cur)
  {
  }

  lemma CoveredByNear(w: World, near: Option<Entry>, i: nat)
    requires i < |w.segs| && near.Some? && near.value.kind.SegmentKind? && Beats(w, near.value, i)
    ensures Covered(w, Listed(near), i)
  {
    assert near.value in Listed(near) && Covers(w, near.value, i);
  }

  /** A node is opened by pushing its best segment and its quads. */
  lemma OpenNode(w: World, before: seq<Entry>, addr: int, bounds: Rect, cur: Tree, near: Option<Entry>, quads: seq<Entry>, after: seq<Entry>)
    requires cur.Node? && Exploring(w, before, addr, bounds, cur)
    requires near.Some? ==> Genuine(w, near.value) && near.value.kind.SegmentKind?
    requires forall i :: i in cur.items ==> i < |w.segs| && near.Some? && Beats(w, near.value, i)
    requires if cur.split then CoversQuads(w, quads, cur, 0) else quads == []
    requires multiset(after) == multiset(before) + multiset(Listed(near)) + multiset(quads)
    ensures Opened(w, after)
  {
    IsStored(w, before, addr, bounds, cur);
    hide Genuine, Beats, Pending, TreeAt, Tree.Items, Tree.Quad, Stored, Bounded, Covered, CoversQuads;
    forall e | e in after
      ensures Genuine(w, e)
    {
      assert e in multiset(after);
      assert e in multiset(before) || e in multiset(Listed(near)) || e in multiset(quads);
    }
    forall i | 0 <= i < |w.segs|
      ensures Covered(w, after, i)
    {
      if Covered(w, before, i) {
        CoveredByMore(w, before, after, i);
      } else {
        PartsOfItems(cur);
        if i in multiset(cur.items) {
          assert i in cur.items;
          CoveredByNear(w, near, i);
          CoveredByMore(w, Listed(near), after, i);
        } else {
          CoveredInQuads(w, addr, cur, quads, i);
          CoveredByMore(w, quads, after, i);
        }
      }
    }
  }

  lemma HiddenIsFarther(w: World, e: Entry, j: nat)
    requires Genuine(w, e) && e.kind.RectKind? && j < |w.segs| && j in TreeAt(w.data, e.pos).Items()
    requires LowerBound(w.distToRect, w.distToSegment)
    ensures e.dist <= w.distToSegment(w.segs[j])
  {
    hide Stored, TreeAt, Segment.Box, Rect.ContainsRect, Tree.Items;
    var bounds := Rect(e.a, e.b);
    NilHasNone(TreeAt(w.data, e.pos));
    assert bounds.ContainsRect(BoxOf(w.segs, j));
    assert bounds.ContainsRect(w.segs[j].Box());
  }

  /** The first segment popped is the nearest: a rectangle at the same distance would have
      come first, and so would a lower-numbered segment. */
  lemma FirstSegmentIsNearest(w: World, nodes: seq<Entry>, n: Entry)
    requires Opened(w, nodes) && n in nodes && n.kind.SegmentKind?
    requires forall e :: e in nodes ==> AtMost(n, e)
    requires LowerBound(w.distToRect, w.distToSegment)
    ensures IsNearest(w.segs, w.distToSegment, n.pos)
  {
    hide Pending;
    forall j | 0 <= j < |w.segs|
      ensures n.dist <= w.distToSegment(w.segs[j]) && (j < n.pos ==> n.dist < w.distToSegment(w.segs[j]))
    {
      assert Covered(w, nodes, j);
      var e :| e in nodes && Covers(w, e, j);
      assert AtMost(n, e);
      if e.kind.RectKind? {
        HiddenIsFarther(w, e, j);
      }
    }
  }

  lemma PoppedIsGenuine(w: World, nodes: seq<Entry>, n: Entry, rest: seq<Entry>)
    requires Opened(w, nodes) && multiset(nodes) == multiset(rest) + multiset{n}
    ensures n in nodes && Genuine(w, n)
  {
    assert n in multiset(nodes);
  }

  /** Popping a rectangle makes its subtree the current node. */
  lemma ExploreNext(w: World, nodes: seq<Entry>, n: Entry, rest: seq<Entry>)
    requires Opened(w, nodes) && n.kind.RectKind? && multiset(nodes) == multiset(rest) + multiset{n}
    ensures TreeAt(w.data, n.pos).Node?
    ensures Exploring(w, rest, n.pos, Rect(n.a, n.b), TreeAt(w.data, n.pos))
  {
    hide Bounded, TreeAt, Tree.Items, Storable, Has, Encode, Within, Beats;
    PoppedIsGenuine(w, nodes, n, rest);
    forall e | e in rest
      ensures Genuine(w, e)
    {
      assert e in multiset(rest);
      assert e in multiset(nodes);
    }
    forall i | 0 <= i < |w.segs|
      ensures i in TreeAt(w.data, n.pos).Items() || Covered(w, rest, i)
    {
      assert Covered(w, nodes, i);
      var e :| e in nodes && Covers(w, e, i);
      assert e in multiset(nodes);
      if e != n {
        assert e in multiset(rest);
        assert e in rest;
      }
    }
  }

  lemma ListedWeighsNothing(w: World, near: Option<Entry>)
    requires near.Some? ==> near.value.kind.SegmentKind?
    ensures Sum(Weight(w.data), Listed(near)) == 0
  {
  }

  lemma WeightAddsUp(w: World, a: seq<Entry>, b: seq<Entry>, c: seq<Entry>, all: seq<Entry>)
    requires multiset(all) == multiset(a) + multiset(b) + multiset(c)
    ensures Sum(Weight(w.data), all) == Sum(Weight(w.data), a) + Sum(Weight(w.data), b) + Sum(Weight(w.data), c)
  {
    hide *;
    var f := Weight(w.data);
    SumPermutation(f, all, a + b + c);
    SumConcat(f, a + b, c);
    SumConcat(f, a, b);
  }

  /** Opening a node replaces its weight by less. */
  lemma WeightDrops(w: World, before: seq<Entry>, cur: Tree, near: Option<Entry>, quads: seq<Entry>, after: seq<Entry>)
    requires cur.Node? && (near.Some? ==> near.value.kind.SegmentKind?)
    requires Sum(Weight(w.data), quads) == if cur.split then CountFrom(cur, 0) else 0
    requires multiset(after) == multiset(before) + multiset(Listed(near)) + multiset(quads)
    ensures Sum(Weight(w.data), after) < Sum(Weight(w.data), before) + NodeCount(cur)
  {
    hide TreeAt, NodeCount, CountFrom;
    ListedWeighsNothing(w, near);
    CountAll(cur);
    WeightAddsUp(w, before, Listed(near), quads, after);
  }

  lemma {:induction false} WeightNotNegative(data: seq<Byte>, nodes: seq<Entry>)
    ensures Sum(Weight(data), nodes) >= 0
  {
    if nodes == [] {
    } else {
      WeightNotNegative(data, nodes[1..]);
    }
  }

  lemma WeightOfPopped(w: World, nodes: seq<Entry>, n: Entry, rest: seq<Entry>)
    requires multiset(nodes) == multiset(rest) + multiset{n}
    ensures Sum(Weight(w.data), nodes) == Sum(Weight(w.data), rest) + Weight(w.data)(n)
  {
    SumPermutation(Weight(w.data), nodes, rest + [n]);
    SumConcat(Weight(w.data), rest, [n]);
  }

  lemma StartExploring(w: World, start: int, bounds: Rect, t: Tree)
    requires t.Node? && Pending(w, start, bounds, t)
    requires forall i :: 0 <= i < |w.segs| ==> i in t.Items()
    ensures Exploring(w, [], start, bounds, t)
  {
  }

  lemma ListedOf(near: Option<Entry>)
    ensures Listed(near) == if near.Some? then [near.value] else []
  {
  }

  lemma SumOfNone(w: World)
    ensures Sum(Weight(w.data), []) == 0
  {
  }

  lemma NoneCovers(w: World, i: nat)
    requires i < |w.segs|
    ensures !Covered(w, [], i)
  {
  }

  lemma NothingFound(w: World, nodes: seq<Entry>)
    requires Opened(w, nodes) && nodes == []
    ensures |w.segs| == 0
  {
    hide Covered;
    if |w.segs| > 0 {
      NoneCovers(w, 0);
    }
  }

  lemma SegmentIsGenuine(w: World, n: Entry)
    requires Genuine(w, n) && n.kind.SegmentKind?
    ensures 0 <= n.pos < |w.segs| && Segment(n.a, n.b) == w.segs[n.pos] && n.dist == w.distToSegment(w.segs[n.pos])
  {
  }

  /** The weight of a subtree about to be opened. */
  lemma WeightOfRect(w: World, n: Entry)
    requires n.kind.RectKind?
    ensures Weight(w.data)(n) == NodeCount(TreeAt(w.data, n.pos))
  {
  }

  /** Best-first search.  Whatever the distance functions, it ends; when rectangles bound
      the distances from below, it returns the first segment of least distance. */
  method NearbySegment(w: World, start: int, bounds0: Rect, ghost t: Tree) returns (seg: Segment, idx: int, dist: Option<real>)
    requires t.Node? && Pending(w, start, bounds0, t)
    requires forall i :: 0 <= i < |w.segs| ==> i in t.Items()
    ensures |w.segs| == 0 ==> idx == -1 && dist == None
    ensures |w.segs| > 0 ==> 0 <= idx < |w.segs| && seg == w.segs[idx] && dist == Some(w.distToSegment(seg))
    ensures |w.segs| > 0 ==> forall i, v :: Reach(w, bounds0, t, i, v) ==> Reach(w, bounds0, t, idx, v)
    ensures |w.segs| > 0 && LowerBound(w.distToRect, w.distToSegment) ==> IsNearest(w.segs, w.distToSegment, idx)
  {
    hide *;
    var q := new Queue();
    var addr, bounds := start, bounds0;
    ghost var cur := t;
    StartExploring(w, start, bounds0, t);
    StartLevels(w, bounds0, t);
    WeightNotNegative(w.data, q.nodes);
    while true
      invariant fresh(q) && q.Valid() && cur.Node? && Exploring(w, q.nodes, addr, bounds, cur)
      invariant LevelsBefore(w, bounds0, t, q.nodes, bounds, cur)
      invariant Sum(Weight(w.data), q.nodes) >= 0
      decreases Sum(Weight(w.data), q.nodes) + NodeCount(cur)
    {
      ghost var before := q.nodes;
      ghost var at := addr;
      IsStored(w, before, addr, bounds, cur);
      var nearSeg;
      nearSeg, addr := ScanItems(w, addr, cur);
      if nearSeg.Some? {
        q.Push(nearSeg.value);
      }
      ListedOf(nearSeg);
      ghost var quads := [];
      if w.data[addr] == 1 {
        QuadEntriesCover(w, bounds, addr + 1, cur, 0);
        QuadEntriesMatch(w, bounds, addr + 1, cur, 0);
        QuadEntriesWeigh(w, bounds, addr + 1, cur, 0);
        quads := QuadEntries(w, bounds, addr + 1, cur, 0);
        PushQuads(q, w, addr + 1, bounds, cur);
      } else {
        SumOfNone(w);
      }
      OpenNode(w, before, at, bounds, cur, nearSeg, quads, q.nodes);
      OpenLevels(w, bounds0, t, before, bounds, cur, nearSeg, quads, q.nodes);
      WeightDrops(w, before, cur, nearSeg, quads, q.nodes);
      ghost var nodes := q.nodes;
      var node, ok := q.Pop();
      if !ok {
        NothingFound(w, nodes);
        return Segment(Point(0.0, 0.0), Point(0.0, 0.0)), -1, None;
      }
      PoppedIsGenuine(w, nodes, node, q.nodes);
      match node.kind {
        case SegmentKind =>
          if LowerBound(w.distToRect, w.distToSegment) {
            FirstSegmentIsNearest(w, nodes, node);
          }
          SegmentIsGenuine(w, node);
          FirstSegmentIsReached(w, bounds0, t, nodes, node);
          return Segment(node.a, node.b), node.pos, Some(node.dist);
        case RectKind =>
          ExploreNext(w, nodes, node, q.nodes);
          PopLevels(w, bounds0, t, nodes, node, q.nodes);
          WeightOfPopped(w, nodes, node, q.nodes);
          WeightOfRect(w, node);
          addr := node.pos;
          bounds := Rect(node.a, node.b);
          cur := TreeAt(w.data, node.pos);
          WeightNotNegative(w.data, q.nodes);
      }
    }
  }
}
