/** The quadtree of segment numbers, as a value, and what every insertion keeps. */
module QuadTree {
  import opened Planar
  import opened Sequences

  const MAX_ITEMS: nat := 12
  const MAX_DEPTH: nat := 64

  /** How the middle of an interval is computed.  Nothing below depends on it, so it may be
      rounded in any way. */
  type Midpoint = (real, real) -> real

  /** The quad that a rectangle belongs to: 0 north-west, 1 north-east, 2 south-west,
      3 south-east, and -1 for one that crosses a middle line. */
  function ChooseQuad(mid: Midpoint, bounds: Rect, rect: Rect): (q: int)
    ensures -1 <= q < 4
  {
    var midX, midY := mid(bounds.min.x, bounds.max.x), mid(bounds.min.y, bounds.max.y);
    if rect.max.x < midX then
      if rect.max.y < midY then 2
      else if rect.min.y < midY then -1
      else 0
    else if rect.min.x < midX then -1
    else if rect.max.y < midY then 3
    else if rect.min.y < midY then -1
    else 1
  }

  function QuadBounds(mid: Midpoint, bounds: Rect, q: int): Rect {
    var centerX, centerY := mid(bounds.min.x, bounds.max.x), mid(bounds.min.y, bounds.max.y);
    match q
    case 0 => Rect(Point(bounds.min.x, centerY), Point(centerX, bounds.max.y))
    case 1 => Rect(Point(centerX, centerY), bounds.max)
    case 2 => Rect(bounds.min, Point(centerX, centerY))
    case 3 => Rect(Point(centerX, bounds.min.y), Point(bounds.max.x, centerY))
    case _ => bounds
  }

  /** What pruning rests on: a rectangle within the bounds is within the quad chosen for it. */
  lemma ChosenQuadHolds(mid: Midpoint, bounds: Rect, rect: Rect)
    requires bounds.ContainsRect(rect)
    ensures QuadBounds(mid, bounds, ChooseQuad(mid, bounds, rect)).ContainsRect(rect)
  {
  }

  /** With the middle between the ends the quads tile the bounds: together they are the
      bounds, and two of them meet on a middle line only. */
  lemma QuadsTile(mid: Midpoint, bounds: Rect, p: Point)
    requires bounds.min.x <= mid(bounds.min.x, bounds.max.x) <= bounds.max.x
    requires bounds.min.y <= mid(bounds.min.y, bounds.max.y) <= bounds.max.y
    ensures bounds.ContainsPoint(p) <==> exists q :: 0 <= q < 4 && QuadBounds(mid, bounds, q).ContainsPoint(p)
    ensures forall q, r :: 0 <= q < r < 4 && QuadBounds(mid, bounds, q).ContainsPoint(p) && QuadBounds(mid, bounds, r).ContainsPoint(p) ==>
      p.x == mid(bounds.min.x, bounds.max.x) || p.y == mid(bounds.min.y, bounds.max.y)
  {
    if bounds.ContainsPoint(p) {
      var q := if p.x < mid(bounds.min.x, bounds.max.x)
               then (if p.y < mid(bounds.min.y, bounds.max.y) then 2 else 0)
               else (if p.y < mid(bounds.min.y, bounds.max.y) then 3 else 1);
      assert QuadBounds(mid, bounds, q).ContainsPoint(p);
    }
  }

  /** Which quad is where: odd ones in the right half, 2 and 3 in the lower half. */
  lemma QuadPlaces(mid: Midpoint, bounds: Rect, rect: Rect, q: int, p: Point)
    requires 0 <= q < 4
    ensures var midX, midY := mid(bounds.min.x, bounds.max.x), mid(bounds.min.y, bounds.max.y);
      && (QuadBounds(mid, bounds, q).ContainsPoint(p) <==>
            && (if q % 2 == 0 then bounds.min.x <= p.x <= midX else midX <= p.x <= bounds.max.x)
            && (if q < 2 then midY <= p.y <= bounds.max.y else bounds.min.y <= p.y <= midY))
      && (rect.WellFormed() ==>
            (ChooseQuad(mid, bounds, rect) == q <==>
              && (if q % 2 == 0 then rect.max.x < midX else midX <= rect.min.x)
              && (if q < 2 then midY <= rect.min.y else rect.max.y < midY)))
  {
  }

  /** A rectangle stays out of the quads exactly when a middle line goes through it. */
  lemma OverflowIsCrossing(mid: Midpoint, bounds: Rect, rect: Rect)
    requires rect.WellFormed()
    ensures ChooseQuad(mid, bounds, rect) == -1 <==>
      || rect.min.x < mid(bounds.min.x, bounds.max.x) <= rect.max.x
      || rect.min.y < mid(bounds.min.y, bounds.max.y) <= rect.max.y
  {
  }

  /** A node that holds nothing. */
  const EMPTY: Tree := Node(false, [], Nil, Nil, Nil, Nil)

  datatype Tree =
    | Nil
    | Node(split: bool, items: seq<nat>, q0: Tree, q1: Tree, q2: Tree, q3: Tree)
  {
    function Quad(q: int): (r: Tree)
      requires Node? && 0 <= q < 4
      ensures r < this
    {
      if q == 0 then q0 else if q == 1 then q1 else if q == 2 then q2 else q3
    }

    function WithQuad(q: int, t: Tree): (r: Tree)
      requires Node? && 0 <= q < 4
      ensures r.Node? && r.split == split && r.items == items
      ensures forall p :: 0 <= p < 4 ==> r.Quad(p) == if p == q then t else Quad(p)
      ensures r.Items() + Quad(q).Items() == Items() + t.Items()
    {
      if q == 0 then this.(q0 := t) else if q == 1 then this.(q1 := t)
      else if q == 2 then this.(q2 := t) else this.(q3 := t)
    }

    /** The same children under a node with other contents. */
    function As(split': bool, items': seq<nat>): (r: Tree)
      requires Node?
      ensures r.Node? && r.split == split' && r.items == items'
      ensures forall q :: 0 <= q < 4 ==> r.Quad(q) == Quad(q)
    {
      Node(split', items', q0, q1, q2, q3)
    }

    function WithItem(item: nat): (r: Tree)
      requires Node?
      ensures r.Items() == Items() + multiset{item}
    {
      this.(items := items + [item])
    }

    /** Every item stored at this node or below, with multiplicity. */
    function Items(): multiset<nat> {
      match this
      case Nil => multiset{}
      case Node(_, items, q0, q1, q2, q3) =>
        multiset(items) + q0.Items() + q1.Items() + q2.Items() + q3.Items()
    }

    /** A child about to receive an item: a missing one is allocated first. */
    function Opened(): (r: Tree)
      ensures r.Node? && r.Items() == Items()
    {
      if Nil? then EMPTY else this
    }
  }

  lemma WithQuadTwice(t: Tree, q: int, a: Tree, b: Tree)
    requires t.Node? && 0 <= q < 4
    ensures t.WithQuad(q, a).WithQuad(q, b) == t.WithQuad(q, b)
  {
  }

  /** Every stored number is that of a segment. */
  ghost predicate Within(t: Tree, n: nat) {
    forall i :: i in t.Items() ==> i < n
  }

  lemma PartsOfItems(t: Tree)
    requires t.Node?
    ensures t.Items() == multiset(t.items) + t.Quad(0).Items() + t.Quad(1).Items() + t.Quad(2).Items() + t.Quad(3).Items()
  {
  }

  lemma WithinParts(t: Tree, n: nat)
    requires t.Node? && Within(t, n)
    ensures forall i :: i in t.items ==> i < n
    ensures forall q :: 0 <= q < 4 ==> Within(t.Quad(q), n)
  {
    hide Tree.Items, Tree.Quad;
    PartsOfItems(t);
    forall i | i in t.items
      ensures i < n
    {
      assert i in t.Items();
    }
    forall q, i | 0 <= q < 4 && i in t.Quad(q).Items()
      ensures i < n
    {
      assert q == 0 || q == 1 || q == 2 || q == 3;
      assert i in t.Items();
    }
  }

  lemma WithinAs(t: Tree, n: nat, split: bool, items: seq<nat>)
    requires t.Node? && Within(t, n) && forall i :: i in items ==> i < n
    ensures Within(t.As(split, items), n)
  {
    WithinParts(t, n);
    hide Tree.Items, Tree.Quad, Tree.As;
    PartsOfItems(t.As(split, items));
    assert forall i :: i in multiset(items) ==> i in items;
  }

  lemma WithinOpened(t: Tree, n: nat)
    requires Within(t, n)
    ensures Within(t.Opened(), n)
  {
  }

  lemma WithinGrows(t: Tree, u: Tree, n: nat, item: nat)
    requires Within(t, n) && item < n && u.Items() == t.Items() + multiset{item}
    ensures Within(u, n)
  {
  }

  /** The rectangle of a segment.  (Numbers past the last segment are never stored.) */
  function BoxOf(segs: seq<Segment>, i: nat): Rect {
    if i < |segs| then segs[i].Box() else Rect(Point(0.0, 0.0), Point(0.0, 0.0))
  }

  lemma Cancel<T>(a: multiset<T>, b: multiset<T>, c: multiset<T>, d: multiset<T>, x: multiset<T>)
    requires a + b == c + d && d == b + x
    ensures a == c + x
  {
    assert a + b == (c + x) + b;
    assert a == (a + b) - b;
  }

  /** Insertion, with the three cases of the code: at the depth limit, into a split node,
      and into an unsplit node, which splits when it is full. */
  function Insert(mid: Midpoint, segs: seq<Segment>, bounds: Rect, rect: Rect, item: nat, depth: nat, t: Tree): (r: Tree)
    requires t.Node? && depth <= MAX_DEPTH
    ensures r.Node? && (t.split ==> r.split)
    ensures r.Items() == t.Items() + multiset{item}
    decreases MAX_DEPTH - depth, if t.split then 1 else 3, 0
  {
    if depth == MAX_DEPTH then t.WithItem(item)
    else if t.split then
      var q := ChooseQuad(mid, bounds, rect);
      if q == -1 then t.WithItem(item)
      else InsertQuad(mid, segs, QuadBounds(mid, bounds, q), rect, item, depth, q, t)
    else if |t.items| == MAX_ITEMS then
      Insert(mid, segs, bounds, rect, item, depth, Redistribute(mid, segs, bounds, t.items, depth, t.As(true, [])))
    else t.WithItem(item)
  }

  /** Insertion into one quad, which is allocated when missing. */
  function InsertQuad(mid: Midpoint, segs: seq<Segment>, bounds: Rect, rect: Rect, item: nat, depth: nat, q: int, t: Tree): (r: Tree)
    requires t.Node? && depth < MAX_DEPTH && 0 <= q < 4
    ensures r.Node? && r.split == t.split && r.items == t.items
    ensures r.Items() == t.Items() + multiset{item}
    decreases MAX_DEPTH - depth, 0, 0
  {
    var child := Insert(mid, segs, bounds, rect, item, depth + 1, t.Quad(q).Opened());
    var r := t.WithQuad(q, child);
    Cancel(r.Items(), t.Quad(q).Items(), t.Items(), child.Items(), multiset{item});
    r
  }

  /** The splitting loop: the items move, one by one, into a node that is already split. */
  function Redistribute(mid: Midpoint, segs: seq<Segment>, bounds: Rect, items: seq<nat>, depth: nat, t: Tree): (r: Tree)
    requires t.Node? && t.split && depth < MAX_DEPTH
    ensures r.Node? && r.split
    ensures r.Items() == t.Items() + multiset(items)
    decreases MAX_DEPTH - depth, 2, |items|
  {
    if items == [] then t
    else
      var last := |items| - 1;
      assert items == items[..last] + [items[last]];
      var sofar := Redistribute(mid, segs, bounds, items[..last], depth, t);
      Insert(mid, segs, bounds, BoxOf(segs, items[last]), items[last], depth, sofar)
  }

  lemma RedistributeNone(mid: Midpoint, segs: seq<Segment>, bounds: Rect, depth: nat, t: Tree)
    requires t.Node? && t.split && depth < MAX_DEPTH
    ensures Redistribute(mid, segs, bounds, [], depth, t) == t
  {
  }

  /** One turn of the splitting loop. */
  lemma RedistributeStep(mid: Midpoint, segs: seq<Segment>, bounds: Rect, items: seq<nat>, k: nat, depth: nat, t: Tree)
    requires t.Node? && t.split && depth < MAX_DEPTH && k < |items|
    ensures var sofar := Redistribute(mid, segs, bounds, items[..k], depth, t);
      var rect := BoxOf(segs, items[k]);
      var q := ChooseQuad(mid, bounds, rect);
      Redistribute(mid, segs, bounds, items[..k + 1], depth, t) ==
        if q == -1 then sofar.WithItem(items[k])
        else InsertQuad(mid, segs, QuadBounds(mid, bounds, q), rect, items[k], depth, q, sofar)
  {
    assert items[..k + 1][..k] == items[..k];
  }

  /** What happens in a quad does not depend on the node's own items. */
  lemma InsertQuadAs(mid: Midpoint, segs: seq<Segment>, bounds: Rect, rect: Rect, item: nat, depth: nat, q: int, t: Tree, items: seq<nat>)
    requires t.Node? && depth < MAX_DEPTH && 0 <= q < 4
    ensures InsertQuad(mid, segs, bounds, rect, item, depth, q, t).As(true, items) ==
            InsertQuad(mid, segs, bounds, rect, item, depth, q, t.As(true, items))
  {
  }

  /** The tree after inserting the listed segments into an empty one. */
  function Grow(mid: Midpoint, segs: seq<Segment>, bounds: Rect, order: seq<nat>): (r: Tree)
    ensures r.Node? && r.Items() == multiset(order)
  {
    if order == [] then EMPTY
    else
      var last := |order| - 1;
      assert order == order[..last] + [order[last]];
      Insert(mid, segs, bounds, BoxOf(segs, order[last]), order[last], 0, Grow(mid, segs, bounds, order[..last]))
  }

  // ---------- The invariant ----------

  /** A subtree at a given place: unsplit nodes have no children and, above the depth limit,
      at most twelve items; split nodes hold more than twelve in all, and each item where it
      belongs. */
  ghost predicate Shaped(mid: Midpoint, segs: seq<Segment>, bounds: Rect, depth: nat, t: Tree)
    decreases t, 1
  {
    t.Node? ==>
      && depth <= MAX_DEPTH
      && (t.split ==> SplitWell(mid, segs, bounds, depth, t) && |t.Items()| > MAX_ITEMS)
      && (!t.split ==> t.q0.Nil? && t.q1.Nil? && t.q2.Nil? && t.q3.Nil?)
      && (!t.split && depth < MAX_DEPTH ==> |t.items| <= MAX_ITEMS)
  }

  /** A split node: the items it keeps cross a middle line, and every item of a child
      belongs to that child's quad. */
  ghost predicate SplitWell(mid: Midpoint, segs: seq<Segment>, bounds: Rect, depth: nat, t: Tree)
    requires t.Node?
    decreases t, 0
  {
    && t.split && depth < MAX_DEPTH
    && (forall i :: i in t.items ==> ChooseQuad(mid, bounds, BoxOf(segs, i)) == -1)
    && (forall q :: 0 <= q < 4 ==> QuadWell(mid, segs, bounds, depth, q, t.Quad(q)))
  }

  ghost predicate QuadWell(mid: Midpoint, segs: seq<Segment>, bounds: Rect, depth: nat, q: int, child: Tree)
    decreases child, 2
  {
    && Shaped(mid, segs, QuadBounds(mid, bounds, q), depth + 1, child)
    && (child.Node? ==> child.Items() != multiset{})
    && (forall i :: i in child.Items() ==> ChooseQuad(mid, bounds, BoxOf(segs, i)) == q)
  }

  /** The limits as numbers, at a node and everywhere below it. */
  ghost predicate WithinLimits(depth: nat, t: Tree)
    decreases t
  {
    t.Node? ==>
      && depth <= 64
      && (t.split ==> depth < 64 && |t.Items()| >= 13)
      && (!t.split && depth < 64 ==> |t.items| <= 12)
      && (forall q :: 0 <= q < 4 ==> WithinLimits(depth + 1, t.Quad(q)))
  }

  lemma {:induction false} ShapedIsWithinLimits(mid: Midpoint, segs: seq<Segment>, bounds: Rect, depth: nat, t: Tree)
    requires Shaped(mid, segs, bounds, depth, t)
    ensures WithinLimits(depth, t)
    decreases t
  {
    hide ChooseQuad, QuadBounds, BoxOf, Tree.Items;
    if t.Nil? {
    } else {
      forall q | 0 <= q < 4
        ensures WithinLimits(depth + 1, t.Quad(q))
      {
        if t.split {
          assert QuadWell(mid, segs, bounds, depth, q, t.Quad(q));
          ShapedIsWithinLimits(mid, segs, QuadBounds(mid, bounds, q), depth + 1, t.Quad(q));
        }
      }
    }
  }

  /** Every item of the tree, seen from any node on its path, lies in that node's bounds. */
  ghost predicate Bounded(mid: Midpoint, segs: seq<Segment>, bounds: Rect, t: Tree)
    decreases t
  {
    t.Node? ==>
      && (forall i :: i in t.Items() ==> bounds.ContainsRect(BoxOf(segs, i)))
      && (forall q :: 0 <= q < 4 ==> Bounded(mid, segs, QuadBounds(mid, bounds, q), t.Quad(q)))
  }

  lemma SplitParts(mid: Midpoint, segs: seq<Segment>, bounds: Rect, depth: nat, t: Tree)
    requires t.Node? && SplitWell(mid, segs, bounds, depth, t)
    ensures t.split && depth < MAX_DEPTH
    ensures forall q :: 0 <= q < 4 ==> QuadWell(mid, segs, bounds, depth, q, t.Quad(q))
  {
    hide QuadWell, Tree.Quad;
  }

  /** Insertion into a split node, in one equation. */
  lemma InsertIntoSplit(mid: Midpoint, segs: seq<Segment>, bounds: Rect, rect: Rect, item: nat, depth: nat, t: Tree)
    requires t.Node? && t.split && depth < MAX_DEPTH
    ensures var q := ChooseQuad(mid, bounds, rect);
      Insert(mid, segs, bounds, rect, item, depth, t) ==
        if q == -1 then t.WithItem(item)
        else t.WithQuad(q, Insert(mid, segs, QuadBounds(mid, bounds, q), rect, item, depth + 1, t.Quad(q).Opened()))
  {
    hide ChooseQuad, QuadBounds, Tree.Items, Tree.WithItem, Tree.WithQuad, Tree.Opened, Redistribute;
  }

  lemma SplitKeepsItem(mid: Midpoint, segs: seq<Segment>, bounds: Rect, item: nat, depth: nat, t: Tree)
    requires t.Node? && SplitWell(mid, segs, bounds, depth, t) && ChooseQuad(mid, bounds, BoxOf(segs, item)) == -1
    ensures SplitWell(mid, segs, bounds, depth, t.WithItem(item))
  {
    hide QuadWell, ChooseQuad, BoxOf, Tree.Items;
    var r := t.WithItem(item);
    assert forall p :: 0 <= p < 4 ==> r.Quad(p) == t.Quad(p);
  }

  lemma SplitKeepsQuad(mid: Midpoint, segs: seq<Segment>, bounds: Rect, depth: nat, t: Tree, q: int, child: Tree)
    requires t.Node? && SplitWell(mid, segs, bounds, depth, t)
    requires 0 <= q < 4 && QuadWell(mid, segs, bounds, depth, q, child)
    ensures SplitWell(mid, segs, bounds, depth, t.WithQuad(q, child))
  {
    hide QuadWell, ChooseQuad, BoxOf, Tree.Items, Tree.Quad, Tree.WithQuad;
  }

  lemma {:induction false} InsertKeepsShape(mid: Midpoint, segs: seq<Segment>, bounds: Rect, item: nat, depth: nat, t: Tree)
    requires t.Node? && Shaped(mid, segs, bounds, depth, t)
    ensures depth <= 64
    ensures var r := Insert(mid, segs, bounds, BoxOf(segs, item), item, depth, t);
      Shaped(mid, segs, bounds, depth, r) && WithinLimits(depth, r)
    decreases MAX_DEPTH - depth, 3, 0
  {
    if depth == MAX_DEPTH {
    } else if t.split {
      InsertKeepsSplit(mid, segs, bounds, item, depth, t);
    } else if |t.items| == MAX_ITEMS {
      var emptied := t.As(true, []);
      RedistributeKeepsSplit(mid, segs, bounds, t.items, depth, emptied);
      InsertKeepsSplit(mid, segs, bounds, item, depth, Redistribute(mid, segs, bounds, t.items, depth, emptied));
    }
    ShapedIsWithinLimits(mid, segs, bounds, depth, Insert(mid, segs, bounds, BoxOf(segs, item), item, depth, t));
  }

  lemma {:induction false} InsertKeepsSplit(mid: Midpoint, segs: seq<Segment>, bounds: Rect, item: nat, depth: nat, t: Tree)
    requires t.Node? && SplitWell(mid, segs, bounds, depth, t)
    ensures SplitWell(mid, segs, bounds, depth, Insert(mid, segs, bounds, BoxOf(segs, item), item, depth, t))
    decreases MAX_DEPTH - depth, 1, 0
  {
    var rect := BoxOf(segs, item);
    var q := ChooseQuad(mid, bounds, rect);
    SplitParts(mid, segs, bounds, depth, t);
    hide *;
    InsertIntoSplit(mid, segs, bounds, rect, item, depth, t);
    if q == -1 {
      SplitKeepsItem(mid, segs, bounds, item, depth, t);
    } else {
      QuadKeepsWell(mid, segs, bounds, item, depth, q, t.Quad(q));
      SplitKeepsQuad(mid, segs, bounds, depth, t, q, Insert(mid, segs, QuadBounds(mid, bounds, q), rect, item, depth + 1, t.Quad(q).Opened()));
    }
  }

  lemma {:induction false} QuadKeepsWell(mid: Midpoint, segs: seq<Segment>, bounds: Rect, item: nat, depth: nat, q: int, child: Tree)
    requires depth < MAX_DEPTH && QuadWell(mid, segs, bounds, depth, q, child)
    requires ChooseQuad(mid, bounds, BoxOf(segs, item)) == q
    ensures QuadWell(mid, segs, bounds, depth, q,
      Insert(mid, segs, QuadBounds(mid, bounds, q), BoxOf(segs, item), item, depth + 1, child.Opened()))
    decreases MAX_DEPTH - depth, 0, 0
  {
    hide Insert, ChooseQuad, QuadBounds, BoxOf;
    InsertKeepsShape(mid, segs, QuadBounds(mid, bounds, q), item, depth + 1, child.Opened());
  }

  lemma {:induction false} RedistributeKeepsSplit(mid: Midpoint, segs: seq<Segment>, bounds: Rect, items: seq<nat>, depth: nat, t: Tree)
    requires t.Node? && SplitWell(mid, segs, bounds, depth, t)
    ensures SplitWell(mid, segs, bounds, depth, Redistribute(mid, segs, bounds, items, depth, t))
    decreases MAX_DEPTH - depth, 2, |items|
  {
    if items == [] {
    } else {
      var last := |items| - 1;
      RedistributeKeepsSplit(mid, segs, bounds, items[..last], depth, t);
      InsertKeepsSplit(mid, segs, bounds, items[last], depth, Redistribute(mid, segs, bounds, items[..last], depth, t));
    }
  }

  lemma QuadItemsAreItems(t: Tree, q: int, i: nat)
    requires t.Node? && 0 <= q < 4 && i in t.Quad(q).Items()
    ensures i in t.Items()
  {
    hide Tree.Items, Tree.Quad;
    PartsOfItems(t);
    assert q == 0 || q == 1 || q == 2 || q == 3;
  }

  lemma QuadIsInBounds(mid: Midpoint, segs: seq<Segment>, bounds: Rect, depth: nat, q: int, t: Tree)
    requires t.Node? && 0 <= q < 4 && QuadWell(mid, segs, bounds, depth, q, t.Quad(q))
    requires forall i :: i in t.Items() ==> bounds.ContainsRect(BoxOf(segs, i))
    ensures forall i :: i in t.Quad(q).Items() ==> QuadBounds(mid, bounds, q).ContainsRect(BoxOf(segs, i))
  {
    hide Shaped, BoxOf, ChooseQuad, QuadBounds, Tree.Items, Tree.Quad, Rect.ContainsRect;
    forall i | i in t.Quad(q).Items()
      ensures QuadBounds(mid, bounds, q).ContainsRect(BoxOf(segs, i))
    {
      QuadItemsAreItems(t, q, i);
      ChosenQuadHolds(mid, bounds, BoxOf(segs, i));
    }
  }

  /** A well-shaped tree whose items lie in its bounds has them in bounds all the way down. */
  lemma {:induction false} ShapedIsBounded(mid: Midpoint, segs: seq<Segment>, bounds: Rect, depth: nat, t: Tree)
    requires Shaped(mid, segs, bounds, depth, t)
    requires forall i :: i in t.Items() ==> bounds.ContainsRect(BoxOf(segs, i))
    ensures Bounded(mid, segs, bounds, t)
    decreases t
  {
    hide ChooseQuad, QuadBounds, BoxOf, Rect.ContainsRect, Tree.Items;
    if t.Nil? {
    } else {
      forall q | 0 <= q < 4
        ensures Bounded(mid, segs, QuadBounds(mid, bounds, q), t.Quad(q))
      {
        if t.split {
          QuadIsInBounds(mid, segs, bounds, depth, q, t);
          ShapedIsBounded(mid, segs, QuadBounds(mid, bounds, q), depth + 1, t.Quad(q));
        }
      }
    }
  }

  lemma {:induction false} GrowKeepsShape(mid: Midpoint, segs: seq<Segment>, bounds: Rect, order: seq<nat>)
    ensures Shaped(mid, segs, bounds, 0, Grow(mid, segs, bounds, order))
  {
    if order == [] {
    } else {
      var last := |order| - 1;
      GrowKeepsShape(mid, segs, bounds, order[..last]);
      InsertKeepsShape(mid, segs, bounds, order[last], 0, Grow(mid, segs, bounds, order[..last]));
    }
  }

  /** Every insertion sequence keeps the invariant and stores exactly what was inserted. */
  lemma {:induction false} GrowKeepsInvariant(mid: Midpoint, segs: seq<Segment>, bounds: Rect, order: seq<nat>)
    requires forall i :: i in order ==> bounds.ContainsRect(BoxOf(segs, i))
    ensures var t := Grow(mid, segs, bounds, order);
      && t.Items() == multiset(order) && Shaped(mid, segs, bounds, 0, t) && Bounded(mid, segs, bounds, t)
      && WithinLimits(0, t)
  {
    GrowKeepsShape(mid, segs, bounds, order);
    ShapedIsBounded(mid, segs, bounds, 0, Grow(mid, segs, bounds, order));
    ShapedIsWithinLimits(mid, segs, bounds, 0, Grow(mid, segs, bounds, order));
  }

  // ---------- The order of insertion does not matter ----------

  /** The tree with the items of every node in ascending order, as compression leaves it.
      Quads are looked at under split nodes only. */
  function Tidy(t: Tree): (r: Tree)
    ensures r.Node? == t.Node? && r.Items() == t.Items()
  {
    match t
    case Nil => Nil
    case Node(split, items, q0, q1, q2, q3) =>
      if split then Node(true, Sorted(items), Tidy(q0), Tidy(q1), Tidy(q2), Tidy(q3))
      else Node(false, Sorted(items), q0, q1, q2, q3)
  }

  lemma TidyNode(t: Tree)
    requires t.Node?
    ensures Tidy(t).Node? && Tidy(t).split == t.split && Tidy(t).items == Sorted(t.items)
    ensures forall q :: 0 <= q < 4 ==> Tidy(t).Quad(q) == if t.split then Tidy(t.Quad(q)) else t.Quad(q)
  {
    hide Tree.Items, Sorted;
  }

  /** In a split node, where an item is stored is decided by its quad alone. */
  lemma ItemsByQuad(mid: Midpoint, segs: seq<Segment>, bounds: Rect, depth: nat, t: Tree, i: nat)
    requires t.Node? && SplitWell(mid, segs, bounds, depth, t)
    ensures var q := ChooseQuad(mid, bounds, BoxOf(segs, i));
      && multiset(t.items)[i] == (if q == -1 then t.Items()[i] else 0)
      && forall p :: 0 <= p < 4 ==> t.Quad(p).Items()[i] == if p == q then t.Items()[i] else 0
  {
    hide ChooseQuad, BoxOf, Shaped, Tree.Items, Tree.Quad;
    PartsOfItems(t);
    var q := ChooseQuad(mid, bounds, BoxOf(segs, i));
    assert i in t.items ==> q == -1;
    forall p | 0 <= p < 4
      ensures i in t.Quad(p).Items() ==> q == p
    {
      assert QuadWell(mid, segs, bounds, depth, p, t.Quad(p));
    }
    assert t.Items()[i] == multiset(t.items)[i] + t.Quad(0).Items()[i] + t.Quad(1).Items()[i]
                           + t.Quad(2).Items()[i] + t.Quad(3).Items()[i];
  }

  lemma NilHasNone(t: Tree)
    ensures t.Nil? ==> t.Items() == multiset{}
  {
  }

  lemma SameSplit(mid: Midpoint, segs: seq<Segment>, bounds: Rect, depth: nat, t: Tree, u: Tree)
    requires Shaped(mid, segs, bounds, depth, t) && Shaped(mid, segs, bounds, depth, u)
    requires t.Node? && u.Node? && t.Items() == u.Items()
    ensures t.split == u.split
    ensures !t.split ==> multiset(t.items) == multiset(u.items) && (forall q :: 0 <= q < 4 ==> t.Quad(q).Nil? && u.Quad(q).Nil?)
  {
    hide QuadWell;
    assert !t.split ==> t.Items() == multiset(t.items);
    assert !u.split ==> u.Items() == multiset(u.items);
  }

  lemma SameParts(mid: Midpoint, segs: seq<Segment>, bounds: Rect, depth: nat, t: Tree, u: Tree)
    requires t.Node? && u.Node? && t.Items() == u.Items()
    requires SplitWell(mid, segs, bounds, depth, t) && SplitWell(mid, segs, bounds, depth, u)
    ensures multiset(t.items) == multiset(u.items)
    ensures forall q :: 0 <= q < 4 ==> t.Quad(q).Items() == u.Quad(q).Items()
  {
    hide ChooseQuad, BoxOf, SplitWell, Tree.Items, Tree.Quad;
    forall i: nat
      ensures multiset(t.items)[i] == multiset(u.items)[i]
    {
      ItemsByQuad(mid, segs, bounds, depth, t, i);
      ItemsByQuad(mid, segs, bounds, depth, u, i);
    }
    forall q | 0 <= q < 4
      ensures t.Quad(q).Items() == u.Quad(q).Items()
    {
      forall i: nat
        ensures t.Quad(q).Items()[i] == u.Quad(q).Items()[i]
      {
        ItemsByQuad(mid, segs, bounds, depth, t, i);
        ItemsByQuad(mid, segs, bounds, depth, u, i);
      }
    }
  }

  lemma SameTree(t: Tree, u: Tree)
    requires t.Node? && u.Node? && t.split == u.split && t.items == u.items
    requires forall q :: 0 <= q < 4 ==> t.Quad(q) == u.Quad(q)
    ensures t == u
  {
    assert t.Quad(0) == u.Quad(0) && t.Quad(1) == u.Quad(1) && t.Quad(2) == u.Quad(2) && t.Quad(3) == u.Quad(3);
  }

  lemma TidyByParts(t: Tree, u: Tree)
    requires t.Node? && u.Node? && t.split == u.split && multiset(t.items) == multiset(u.items)
    requires forall q :: 0 <= q < 4 ==> if t.split then Tidy(t.Quad(q)) == Tidy(u.Quad(q)) else t.Quad(q) == u.Quad(q)
    ensures Tidy(t) == Tidy(u)
  {
    hide Tree.Items, Sorted;
    AscendingUnique(Sorted(t.items), Sorted(u.items));
    TidyNode(t);
    TidyNode(u);
    SameTree(Tidy(t), Tidy(u));
  }

  /** The invariant leaves no freedom: two trees with the same items are the same once the
      items of each node are in order. */
  lemma {:induction false} ShapeIsUnique(mid: Midpoint, segs: seq<Segment>, bounds: Rect, depth: nat, t: Tree, u: Tree)
    requires Shaped(mid, segs, bounds, depth, t) && Shaped(mid, segs, bounds, depth, u)
    requires t.Node? == u.Node? && t.Items() == u.Items()
    ensures Tidy(t) == Tidy(u)
    decreases t
  {
    if t.Nil? {
    } else {
      SameSplit(mid, segs, bounds, depth, t, u);
      if t.split {
        SameParts(mid, segs, bounds, depth, t, u);
        forall q | 0 <= q < 4
          ensures Tidy(t.Quad(q)) == Tidy(u.Quad(q))
        {
          hide ChooseQuad, BoxOf, QuadBounds, Tidy, Tree.Items;
          assert QuadWell(mid, segs, bounds, depth, q, t.Quad(q));
          assert QuadWell(mid, segs, bounds, depth, q, u.Quad(q));
          NilHasNone(t.Quad(q));
          NilHasNone(u.Quad(q));
          ShapeIsUnique(mid, segs, QuadBounds(mid, bounds, q), depth + 1, t.Quad(q), u.Quad(q));
        }
      }
      TidyByParts(t, u);
    }
  }

  /** Inserting the same segments in any two orders gives the same index. */
  lemma GrowInAnyOrder(mid: Midpoint, segs: seq<Segment>, bounds: Rect, order: seq<nat>, other: seq<nat>)
    requires multiset(order) == multiset(other)
    ensures Tidy(Grow(mid, segs, bounds, order)) == Tidy(Grow(mid, segs, bounds, other))
  {
    GrowKeepsShape(mid, segs, bounds, order);
    GrowKeepsShape(mid, segs, bounds, other);
    ShapeIsUnique(mid, segs, bounds, 0, Grow(mid, segs, bounds, order), Grow(mid, segs, bounds, other));
  }
}
