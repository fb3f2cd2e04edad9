/** Rectangle search: the walk over the bytes, and the linear scan it stands for. */
module Searching {
  import opened Planar
  import opened Sequences
  import opened Varint
  import opened QuadTree
  import opened Codec

  /** One call of the callback. */
  datatype Call = Call(seg: Segment, idx: nat)

  /** A callback, with the variables it captures as a state: it answers the new state and
      whether to go on. */
  type Step<!S> = (S, Segment, nat) -> (S, bool)

  /** Make the calls in turn, up to the first that answers false. */
  function Feed<S>(step: Step<S>, s: S, calls: seq<Call>): (S, bool) {
    if calls == [] then (s, true)
    else
      var (next, go) := step(s, calls[0].seg, calls[0].idx);
      if go then Feed(step, next, calls[1..]) else (next, false)
  }

  lemma {:induction false} FeedConcat<S>(step: Step<S>, s: S, a: seq<Call>, b: seq<Call>)
    ensures Feed(step, s, a + b) ==
      if Feed(step, s, a).1 then Feed(step, Feed(step, s, a).0, b) else Feed(step, s, a)
  {
    if a == [] {
      assert a + b == b;
    } else {
      assert (a + b)[1..] == a[1..] + b;
      FeedConcat(step, step(s, a[0].seg, a[0].idx).0, a[1..], b);
    }
  }

  // ---------- Which calls a search makes ----------

  predicate Hit(segs: seq<Segment>, query: Query, i: nat) {
    i < |segs| && query.Meets(segs[i].Box())
  }

  /** The calls for a list of segment numbers: those whose rectangle meets the query. */
  function Hits(segs: seq<Segment>, query: Query, items: seq<nat>): seq<Call> {
    if items == [] then []
    else (if Hit(segs, query, items[0]) then [Call(segs[items[0]], items[0])] else []) + Hits(segs, query, items[1..])
  }

  /** The calls for a subtree: its own items, then the quads whose bounds meet the query. */
  function Visits(mid: Midpoint, segs: seq<Segment>, bounds: Rect, query: Query, t: Tree): seq<Call>
    decreases t, 5
  {
    if t.Nil? then []
    else Hits(segs, query, t.items) + TailVisits(mid, segs, bounds, query, t)
  }

  function TailVisits(mid: Midpoint, segs: seq<Segment>, bounds: Rect, query: Query, t: Tree): seq<Call>
    requires t.Node?
    decreases t, 4, 5
  {
    if t.split then QuadVisits(mid, segs, bounds, query, t, 0) else []
  }

  function QuadVisits(mid: Midpoint, segs: seq<Segment>, bounds: Rect, query: Query, t: Tree, q: nat): seq<Call>
    requires t.Node? && q <= 4
    decreases t, 4, 4 - q
  {
    if q == 4 then []
    else ChildVisits(mid, segs, bounds, query, t, q) + QuadVisits(mid, segs, bounds, query, t, q + 1)
  }

  function ChildVisits(mid: Midpoint, segs: seq<Segment>, bounds: Rect, query: Query, t: Tree, q: nat): seq<Call>
    requires t.Node? && q < 4
    decreases t, 3
  {
    var qbounds := QuadBounds(mid, bounds, q);
    if query.Meets(qbounds) then Visits(mid, segs, qbounds, query, t.Quad(q)) else []
  }

  // ---------- The walk over the bytes ----------

  /** A subtree stands at an address. */
  ghost predicate Stored(data: seq<Byte>, addr: int, t: Tree, n: nat) {
    t.Node? && Storable(t) && |Encode(t)| < TWO64 && Has(data, addr, Encode(t)) && Within(t, n)
  }

  /** Midway through the items of a node: `items` are still to come. */
  ghost predicate AtItems(data: seq<Byte>, addr: int, items: seq<nat>, last: nat, t: Tree, n: nat) {
    && t.Node? && Storables(items, last) && (forall i :: i in items ==> i < n)
    && Has(data, addr, EncodeItems(items, last) + Tail(t))
  }

  /** Midway through the quads of a split node: those from `q` on are still to come. */
  ghost predicate AtQuads(data: seq<Byte>, addr: int, t: Tree, q: nat, n: nat) {
    t.Node? && t.split && Storable(t) && |Encode(t)| < TWO64 && Within(t, n) && q <= 4 && Has(data, addr, EncodeQuads(t, q))
  }

  lemma EnterNode(data: seq<Byte>, addr: int, t: Tree, n: nat)
    requires Stored(data, addr, t, n)
    ensures Readable(data, addr) && Read(data, addr).0 == |t.items|
    ensures AtItems(data, Read(data, addr).1, t.items, 0, t, n)
  {
    hide Has, Read, Readable, Uvarint, Encode, EncodeItems, Tail;
    NodeHead(data, addr, t);
    StorableItems(t);
    WithinParts(t, n);
  }

  lemma NextItem(data: seq<Byte>, addr: int, items: seq<nat>, last: nat, t: Tree, n: nat)
    requires AtItems(data, addr, items, last, t, n) && items != []
    ensures Readable(data, addr) && U64(Read(data, addr).0 + last) == items[0] < n && last <= items[0]
    ensures AtItems(data, Read(data, addr).1, items[1..], items[0], t, n)
  {
    hide Has, Read, Readable, Uvarint, EncodeItems, Tail;
    ItemsHead(data, addr, items, last, Tail(t));
    StorablesRest(items, last);
    assert items[0] in items && forall i :: i in items[1..] ==> i in items;
  }

  lemma AfterItems(data: seq<Byte>, addr: int, last: nat, start: int, t: Tree, n: nat)
    requires Stored(data, start, t, n) && AtItems(data, addr, [], last, t, n)
    ensures 0 <= addr < |data| && (data[addr] == 1 <==> t.split)
    ensures t.split ==> AtQuads(data, addr + 1, t, 0, n)
  {
    hide Encode, EncodeItems, EncodeQuads, Within, Storable;
    NoItems(data, addr, last, Tail(t));
    HasAt(data, addr, Tail(t), 0);
    if t.split {
      HasConcat(data, addr, [1], EncodeQuads(t, 0));
    }
  }

  lemma NextQuad(data: seq<Byte>, addr: int, t: Tree, q: nat, n: nat)
    requires AtQuads(data, addr, t, q, n) && q < 4
    ensures Readable(data, addr)
    ensures Read(data, addr).0 == 0 <==> t.Quad(q).Nil?
    ensures t.Quad(q).Nil? ==> Read(data, addr).1 == addr + 1
    ensures t.Quad(q).Node? ==> Read(data, addr) == (|Encode(t.Quad(q))|, addr + |Uvarint(|Encode(t.Quad(q))|)|)
    ensures t.Quad(q).Node? ==> Stored(data, Read(data, addr).1, t.Quad(q), n)
    ensures AtQuads(data, Read(data, addr).1 + Read(data, addr).0, t, q + 1, n)
  {
    hide Has, Read, Readable, Uvarint, Encode, EncodeQuads;
    StorableQuad(t, q);
    WithinParts(t, n);
    if t.Quad(q).Nil? {
      NoQuadHead(data, addr, t, q);
    } else {
      QuadHead(data, addr, t, q);
    }
  }

  lemma VisitsOf(mid: Midpoint, segs: seq<Segment>, bounds: Rect, query: Query, t: Tree)
    requires t.Node?
    ensures t.items[0..] == t.items
    ensures Visits(mid, segs, bounds, query, t) == Hits(segs, query, t.items) + TailVisits(mid, segs, bounds, query, t)
  {
  }

  lemma FeedHits<S>(step: Step<S>, s: S, segs: seq<Segment>, query: Query, items: seq<nat>, tail: seq<Call>)
    requires items != [] && items[0] < |segs|
    ensures var rest := Hits(segs, query, items[1..]) + tail;
      Feed(step, s, Hits(segs, query, items) + tail) ==
        if query.Meets(segs[items[0]].Box()) then
          (if step(s, segs[items[0]], items[0]).1 then Feed(step, step(s, segs[items[0]], items[0]).0, rest)
           else step(s, segs[items[0]], items[0]))
        else Feed(step, s, rest)
  {
    hide Segment.Box, Query.Meets;
    var rest := Hits(segs, query, items[1..]) + tail;
    if Hit(segs, query, items[0]) {
      var calls := [Call(segs[items[0]], items[0])] + rest;
      assert Hits(segs, query, items) + tail == calls;
      assert calls[1..] == rest;
    } else {
      assert Hits(segs, query, items) + tail == rest;
    }
  }

  lemma FeedTail<S>(step: Step<S>, s: S, mid: Midpoint, segs: seq<Segment>, bounds: Rect, query: Query, t: Tree)
    requires t.Node?
    ensures Feed(step, s, Hits(segs, query, []) + TailVisits(mid, segs, bounds, query, t)) ==
      if t.split then Feed(step, s, QuadVisits(mid, segs, bounds, query, t, 0)) else (s, true)
  {
    hide QuadVisits;
    var tail := TailVisits(mid, segs, bounds, query, t);
    assert Hits(segs, query, []) + tail == tail;
  }

  lemma NoVisits(mid: Midpoint, segs: seq<Segment>, bounds: Rect, query: Query, t: Tree)
    ensures t.Nil? ==> Visits(mid, segs, bounds, query, t) == []
  {
  }

  lemma FeedQuads<S>(step: Step<S>, s: S, mid: Midpoint, segs: seq<Segment>, bounds: Rect, query: Query, t: Tree, q: nat)
    requires t.Node? && q < 4
    ensures var qbounds := QuadBounds(mid, bounds, q);
      var rest := QuadVisits(mid, segs, bounds, query, t, q + 1);
      Feed(step, s, QuadVisits(mid, segs, bounds, query, t, q)) ==
        if t.Quad(q).Nil? || !query.Meets(qbounds) then Feed(step, s, rest)
        else
          var done := Feed(step, s, Visits(mid, segs, qbounds, query, t.Quad(q)));
          if done.1 then Feed(step, done.0, rest) else done
  {
    hide Visits, QuadBounds, Query.Meets;
    var rest := QuadVisits(mid, segs, bounds, query, t, q + 1);
    var child := ChildVisits(mid, segs, bounds, query, t, q);
    NoVisits(mid, segs, QuadBounds(mid, bounds, q), query, t.Quad(q));
    assert QuadVisits(mid, segs, bounds, query, t, q) == child + rest;
    FeedConcat(step, s, child, rest);
  }

  lemma FeedNoQuads<S>(step: Step<S>, s: S, mid: Midpoint, segs: seq<Segment>, bounds: Rect, query: Query, t: Tree)
    requires t.Node?
    ensures Feed(step, s, QuadVisits(mid, segs, bounds, query, t, 4)) == (s, true)
  {
  }

  /** The search over the bytes makes exactly the calls of the tree walk, in that order and
      up to the first false. */
  method CompressSearch<S>(data: seq<Byte>, start: int, segs: seq<Segment>, mid: Midpoint, bounds: Rect, query: Query,
                           iter: Step<S>, s0: S, ghost t: Tree) returns (s: S, more: bool)
    requires t.Node? && Stored(data, start, t, |segs|)
    ensures (s, more) == Feed(iter, s0, Visits(mid, segs, bounds, query, t))
    decreases t
  {
    hide *;
    EnterNode(data, start, t, |segs|);
    ghost var tail := TailVisits(mid, segs, bounds, query, t);
    ghost var whole := Feed(iter, s0, Visits(mid, segs, bounds, query, t));
    VisitsOf(mid, segs, bounds, query, t);
    var nitems, addr := ReadUvarint(data, start);
    var last: nat := 0;
    var i := 0;
    s := s0;
    while i < nitems
      invariant 0 <= i <= nitems == |t.items|
      invariant AtItems(data, addr, t.items[i..], last, t, |segs|)
      invariant whole == Feed(iter, s, Hits(segs, query, t.items[i..]) + tail)
    {
      ghost var items := t.items[i..];
      assert items[1..] == t.items[i + 1..];
      NextItem(data, addr, items, last, t, |segs|);
      var item: nat;
      item, addr := ReadUvarint(data, addr);
      item := U64(item + last);
      var seg := segs[item];
      FeedHits(iter, s, segs, query, items, tail);
      if query.Meets(seg.Box()) {
        var (next, go) := iter(s, seg, item);
        s := next;
        if !go {
          return s, false;
        }
      }
      last := item;
      i := i + 1;
    }
    assert t.items[i..] == [];
    AfterItems(data, addr, last, start, t, |segs|);
    FeedTail(iter, s, mid, segs, bounds, query, t);
    if data[addr] == 1 {
      addr := addr + 1;
      var q := 0;
      while q < 4
        invariant 0 <= q <= 4 && AtQuads(data, addr, t, q, |segs|)
        invariant whole == Feed(iter, s, QuadVisits(mid, segs, bounds, query, t, q))
      {
        NextQuad(data, addr, t, q, |segs|);
        FeedQuads(iter, s, mid, segs, bounds, query, t, q);
        var size: nat;
        size, addr := ReadUvarint(data, addr);
        if size != 0 {
          var qbounds := QuadBounds(mid, bounds, q);
          if query.Meets(qbounds) {
            s, more := CompressSearch(data, addr, segs, mid, qbounds, query, iter, s, t.Quad(q));
            if !more {
              return s, false;
            }
          }
          addr := addr + size;
        }
        q := q + 1;
      }
      FeedNoQuads(iter, s, mid, segs, bounds, query, t);
    }
    return s, true;
  }

  // ---------- Stopping early ----------

  /** The callback that also writes down every call made to it. */
  function Traced<S>(step: Step<S>): Step<(S, seq<Call>)> {
    (st: (S, seq<Call>), seg: Segment, idx: nat) =>
      var (next, go) := step(st.0, seg, idx);
      ((next, st.1 + [Call(seg, idx)]), go)
  }

  /** What call number `j` answers, if it is made after the calls before it. */
  function Answer<S>(step: Step<S>, s: S, calls: seq<Call>, j: nat): bool
    requires j < |calls|
  {
    step(Feed(step, s, calls[..j]).0, calls[j].seg, calls[j].idx).1
  }

  lemma {:induction false} StopAfter<S>(step: Step<S>, s: S, calls: seq<Call>, log: seq<Call>) returns (k: nat)
    ensures k <= |calls|
    ensures var r := Feed(step, s, calls);
      && Feed(Traced(step), (s, log), calls) == ((r.0, log + calls[..k]), r.1)
      && (forall j :: 0 <= j < k ==> (Answer(step, s, calls, j) <==> r.1 || j < k - 1))
      && (r.1 ==> k == |calls|) && (!r.1 ==> k > 0)
    decreases |calls|
  {
    if calls == [] {
      k := 0;
      assert log + calls[..0] == log;
    } else {
      var (next, go) := step(s, calls[0].seg, calls[0].idx);
      var log' := log + [calls[0]];
      assert Answer(step, s, calls, 0) == go;
      if !go {
        k := 1;
        assert log + calls[..1] == log';
      } else {
        var k' := StopAfter(step, next, calls[1..], log');
        k := k' + 1;
        assert log + calls[..k] == log' + calls[1..][..k'];
        forall j | 0 < j < k
          ensures Answer(step, s, calls, j) == Answer(step, next, calls[1..], j - 1)
        {
          assert calls[..j][1..] == calls[1..][..j - 1];
        }
      }
    }
  }

  /** For any callback, the calls made are the first `k` of the full traversal: all of them
      when every answer is true, and otherwise those up to and including the first false.
      The search answers false exactly when a call did. */
  lemma EarlyStop<S>(step: Step<S>, s: S, calls: seq<Call>) returns (k: nat)
    ensures k <= |calls|
    ensures var r := Feed(step, s, calls);
      && Feed(Traced(step), (s, []), calls) == ((r.0, calls[..k]), r.1)
      && (forall j :: 0 <= j < k ==> (Answer(step, s, calls, j) <==> r.1 || j < k - 1))
      && (r.1 ==> k == |calls|) && (!r.1 ==> k > 0)
  {
    k := StopAfter(step, s, calls, []);
    assert [] + calls[..k] == calls[..k];
  }

  // ---------- The walk and the scan make the same calls ----------

  /** A call the query asks for. */
  predicate Wanted(segs: seq<Segment>, query: Query, c: Call) {
    Hit(segs, query, c.idx) && c.seg == segs[c.idx]
  }

  lemma {:induction false} HitsCount(segs: seq<Segment>, query: Query, items: seq<nat>, c: Call)
    ensures multiset(Hits(segs, query, items))[c] == if Wanted(segs, query, c) then multiset(items)[c.idx] else 0
  {
    hide Segment.Box, Query.Meets;
    if items == [] {
    } else {
      var first, rest := items[0], Hits(segs, query, items[1..]);
      HitsCount(segs, query, items[1..], c);
      assert items == [first] + items[1..];
      if Hit(segs, query, first) {
        assert Hits(segs, query, items) == [Call(segs[first], first)] + rest;
      } else {
        assert Hits(segs, query, items) == rest;
      }
    }
  }

  /** How often a number is stored in the quads from `q` on. */
  ghost function InQuadsFrom(t: Tree, q: nat, i: nat): nat
    requires t.Node? && q <= 4
    decreases 4 - q
  {
    if q == 4 then 0 else t.Quad(q).Items()[i] + InQuadsFrom(t, q + 1, i)
  }

  lemma InQuadsAll(t: Tree, i: nat)
    requires t.Node?
    ensures t.Items()[i] == multiset(t.items)[i] + InQuadsFrom(t, 0, i)
  {
    hide Tree.Items, Tree.Quad;
    PartsOfItems(t);
    assert InQuadsFrom(t, 2, i) == t.Quad(2).Items()[i] + t.Quad(3).Items()[i];
  }

  lemma NoneInQuads(t: Tree, i: nat)
    requires t.Node? && Storable(t) && !t.split
    ensures InQuadsFrom(t, 0, i) == 0
  {
  }

  /** A subtree calls back once for every time a wanted number is stored in it: pruned
      quads hold none. */
  lemma {:induction false} VisitsCount(mid: Midpoint, segs: seq<Segment>, bounds: Rect, query: Query, t: Tree, c: Call)
    requires Bounded(mid, segs, bounds, t) && Storable(t)
    ensures multiset(Visits(mid, segs, bounds, query, t))[c] == if Wanted(segs, query, c) then t.Items()[c.idx] else 0
    decreases t, 1
  {
    if t.Nil? {
    } else {
      TailCount(mid, segs, bounds, query, t, c);
      hide *;
      HitsCount(segs, query, t.items, c);
      InQuadsAll(t, c.idx);
      VisitsOf(mid, segs, bounds, query, t);
    }
  }

  lemma {:induction false} TailCount(mid: Midpoint, segs: seq<Segment>, bounds: Rect, query: Query, t: Tree, c: Call)
    requires t.Node? && Bounded(mid, segs, bounds, t) && Storable(t)
    ensures multiset(TailVisits(mid, segs, bounds, query, t))[c] == if Wanted(segs, query, c) then InQuadsFrom(t, 0, c.idx) else 0
    decreases t, 0, 5
  {
    hide Wanted, Bounded, Visits, Tree.Items;
    if t.split {
      QuadsCount(mid, segs, bounds, query, t, 0, c);
    } else {
      NoneInQuads(t, c.idx);
    }
  }

  lemma {:induction false} QuadsCount(mid: Midpoint, segs: seq<Segment>, bounds: Rect, query: Query, t: Tree, q: nat, c: Call)
    requires t.Node? && Bounded(mid, segs, bounds, t) && Storable(t) && q <= 4
    ensures multiset(QuadVisits(mid, segs, bounds, query, t, q))[c] == if Wanted(segs, query, c) then InQuadsFrom(t, q, c.idx) else 0
    decreases t, 0, 4 - q
  {
    if q == 4 {
    } else {
      ChildCount(mid, segs, bounds, query, t, q, c);
      QuadsCount(mid, segs, bounds, query, t, q + 1, c);
      hide Wanted, Bounded, Visits, Tree.Items, Storable, ChildVisits;
    }
  }

  lemma {:induction false} ChildCount(mid: Midpoint, segs: seq<Segment>, bounds: Rect, query: Query, t: Tree, q: nat, c: Call)
    requires t.Node? && Bounded(mid, segs, bounds, t) && Storable(t) && q < 4
    ensures multiset(ChildVisits(mid, segs, bounds, query, t, q))[c] ==
      if Wanted(segs, query, c) then t.Quad(q).Items()[c.idx] else 0
    decreases t, 0, 0
  {
    var qbounds := QuadBounds(mid, bounds, q);
    if query.Meets(qbounds) {
      hide Wanted, Visits, Tree.Items, Query.Meets, QuadBounds;
      VisitsCount(mid, segs, qbounds, query, t.Quad(q), c);
    } else if Wanted(segs, query, c) && c.idx in t.Quad(q).Items() {
      hide QuadBounds, Tree.Items, Segment.Box;
      assert Bounded(mid, segs, qbounds, t.Quad(q));
      NilHasNone(t.Quad(q));
      assert qbounds.ContainsRect(BoxOf(segs, c.idx));
      MeetsIsMonotone(qbounds, segs[c.idx].Box(), query);
    }
  }

  /** The numbers of all segments in order. */
  function Upto(n: nat): (r: seq<nat>)
    ensures |r| == n && forall i :: 0 <= i < n ==> r[i] == i
  {
    seq(n, i => i)
  }

  /** The calls of the linear scan. */
  function ScanCalls(segs: seq<Segment>, query: Query): seq<Call> {
    Hits(segs, query, Upto(|segs|))
  }

  /** A call about a segment, with its number, whose box has a point that the query asks for. */
  ghost predicate Asked(segs: seq<Segment>, query: Query, c: Call) {
    && c.idx < |segs| && c.seg == segs[c.idx]
    && exists p: Point :: c.seg.Box().ContainsPoint(p) && query.Holds(p)
  }

  lemma {:induction false} EachOnce(n: nat, i: nat)
    ensures multiset(Upto(n))[i] == if i < n then 1 else 0
  {
    if n == 0 {
    } else {
      EachOnce(n - 1, i);
      assert Upto(n) == Upto(n - 1) + [n - 1];
    }
  }

  /** The linear scan makes every call that is asked for once, and no other. */
  lemma ScanMakesAsked(segs: seq<Segment>, query: Query, c: Call)
    requires query.WellFormed()
    ensures multiset(ScanCalls(segs, query))[c] == if Asked(segs, query, c) then 1 else 0
  {
    hide Hits, Segment.Box, Query.Meets, Query.Holds, Rect.ContainsPoint;
    HitsCount(segs, query, Upto(|segs|), c);
    EachOnce(|segs|, c.idx);
    if c.idx < |segs| {
      BoxIsTightest(segs[c.idx], segs[c.idx].Box());
      MeetsIsCommonPoint(query, segs[c.idx].Box());
    }
  }

  /** The calls are in the order of the segments. */
  ghost predicate Rising(calls: seq<Call>) {
    forall i, j :: 0 <= i < j < |calls| ==> calls[i].idx < calls[j].idx
  }

  lemma RisingFrom(call: Call, rest: seq<Call>)
    requires Rising(rest) && forall c :: c in rest ==> call.idx < c.idx
    ensures Rising([call] + rest)
  {
  }

  lemma NoneRise()
    ensures Rising([])
  {
  }

  lemma {:induction false} HitsRise(segs: seq<Segment>, query: Query, items: seq<nat>)
    requires forall i, j :: 0 <= i < j < |items| ==> items[i] < items[j]
    ensures Rising(Hits(segs, query, items))
    ensures forall c :: c in Hits(segs, query, items) ==> c.idx in items
  {
    hide Query.Meets, Segment.Box, Rising;
    if items == [] {
      NoneRise();
    } else {
      var rest := Hits(segs, query, items[1..]);
      HitsRise(segs, query, items[1..]);
      if Hit(segs, query, items[0]) {
        assert Hits(segs, query, items) == [Call(segs[items[0]], items[0])] + rest;
        RisingFrom(Call(segs[items[0]], items[0]), rest);
      } else {
        assert Hits(segs, query, items) == rest;
      }
    }
  }

  lemma ScanRises(segs: seq<Segment>, query: Query)
    ensures Rising(ScanCalls(segs, query))
  {
    HitsRise(segs, query, Upto(|segs|));
  }

  /** Over a tree that stores every segment number once, the walk makes exactly the calls
      of the linear scan, each once and with its own segment, in some order. */
  lemma WalkEqualsScan(mid: Midpoint, segs: seq<Segment>, bounds: Rect, query: Query, t: Tree)
    requires Bounded(mid, segs, bounds, t) && Storable(t) && t.Items() == multiset(Upto(|segs|))
    ensures multiset(Visits(mid, segs, bounds, query, t)) == multiset(ScanCalls(segs, query))
  {
    hide Visits, Hits, Wanted, Bounded, Storable, Tree.Items, Upto;
    forall c: Call
      ensures multiset(Visits(mid, segs, bounds, query, t))[c] == multiset(ScanCalls(segs, query))[c]
    {
      VisitsCount(mid, segs, bounds, query, t, c);
      HitsCount(segs, query, Upto(|segs|), c);
    }
  }
}
