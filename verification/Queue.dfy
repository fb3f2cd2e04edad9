/** The priority queue of the nearest-segment search: a binary heap in a slice. */
module Queues {
  import opened Planar

  datatype Kind = RectKind | SegmentKind {
    function Rank(): int {
      if RectKind? then 1 else 2
    }
  }

  /** A rectangle with the address of its node, or a segment with its number. */
  datatype Entry = Entry(dist: real, kind: Kind, pos: int, a: Point, b: Point)

  /** By distance, then rectangles before segments, then by position. */
  function Cmp(x: Entry, y: Entry): int {
    if x.dist < y.dist then -1
    else if x.dist > y.dist then 1
    else if x.kind.Rank() < y.kind.Rank() then -1
    else if x.kind.Rank() > y.kind.Rank() then 1
    else if x.pos < y.pos then -1
    else if x.pos > y.pos then 1
    else 0
  }

  predicate AtMost(x: Entry, y: Entry) {
    Cmp(x, y) <= 0
  }

  /** The comparison is the lexicographic total preorder: nearer first, at equal distance
      rectangles before segments, among equals the lower position. */
  lemma CmpIsOrder(x: Entry, y: Entry, z: Entry)
    ensures Cmp(x, y) < 0 <==>
      || x.dist < y.dist
      || (x.dist == y.dist && x.kind.RectKind? && y.kind.SegmentKind?)
      || (x.dist == y.dist && x.kind == y.kind && x.pos < y.pos)
    ensures Cmp(x, y) == -Cmp(y, x)
    ensures AtMost(x, y) && AtMost(y, z) ==> AtMost(x, z)
    ensures Cmp(x, y) == 0 <==> x.dist == y.dist && x.kind == y.kind && x.pos == y.pos
  {
  }

  function Parent(i: nat): (p: nat)
    ensures p < i || (p == 0 && i == 0)
  {
    if i == 0 then 0 else (i - 1) / 2
  }

  /** Every node but the root is no less than its parent. */
  ghost predicate Heap(nodes: seq<Entry>) {
    forall k :: 0 < k < |nodes| ==> AtMost(nodes[Parent(k)], nodes[k])
  }

  /** A heap except on the edge above `i`; the nodes around `i` are in order with each other. */
  ghost predicate HeapButAbove(nodes: seq<Entry>, i: nat) {
    && i < |nodes|
    && (forall k :: 0 < k < |nodes| && k != i ==> AtMost(nodes[Parent(k)], nodes[k]))
    && (forall k :: 0 < k < |nodes| && Parent(k) == i && i > 0 ==> AtMost(nodes[Parent(i)], nodes[k]))
  }

  /** The same with the edges below `i` out of order. */
  ghost predicate HeapButBelow(nodes: seq<Entry>, i: nat) {
    && (forall k :: 0 < k < |nodes| && Parent(k) != i ==> AtMost(nodes[Parent(k)], nodes[k]))
    && (forall k :: 0 < k < |nodes| && Parent(k) == i && i > 0 ==> AtMost(nodes[Parent(i)], nodes[k]))
  }

  function Swapped(nodes: seq<Entry>, i: nat, j: nat): (r: seq<Entry>)
    requires i < |nodes| && j < |nodes|
    ensures |r| == |nodes| && multiset(r) == multiset(nodes)
  {
    nodes[i := nodes[j]][j := nodes[i]]
  }

  lemma {:induction false} RootIsLeast(nodes: seq<Entry>, k: nat)
    requires Heap(nodes) && k < |nodes|
    ensures AtMost(nodes[0], nodes[k])
  {
    if k == 0 {
    } else {
      RootIsLeast(nodes, Parent(k));
      CmpIsOrder(nodes[0], nodes[Parent(k)], nodes[k]);
    }
  }

  lemma SwapUp(nodes: seq<Entry>, i: nat)
    requires HeapButAbove(nodes, i) && i > 0 && !AtMost(nodes[Parent(i)], nodes[i])
    ensures HeapButAbove(Swapped(nodes, Parent(i), i), Parent(i))
  {
    hide Cmp;
    var p, r := Parent(i), Swapped(nodes, Parent(i), i);
    CmpIsOrder(nodes[p], nodes[i], nodes[i]);
    forall k | 0 < k < |r| && k != p
      ensures AtMost(r[Parent(k)], r[k])
      ensures Parent(k) == p && p > 0 ==> AtMost(r[Parent(p)], r[k])
    {
      if p > 0 {
        CmpIsOrder(nodes[Parent(p)], nodes[p], nodes[k]);
      }
      CmpIsOrder(nodes[i], nodes[p], nodes[k]);
    }
  }

  lemma SwapDown(nodes: seq<Entry>, i: nat, c: nat)
    requires i < |nodes| && HeapButBelow(nodes, i) && 0 < c < |nodes| && Parent(c) == i && AtMost(nodes[c], nodes[i])
    requires forall k :: 0 < k < |nodes| && Parent(k) == i ==> AtMost(nodes[c], nodes[k])
    ensures HeapButBelow(Swapped(nodes, c, i), c)
  {
    hide AtMost;
    var r := Swapped(nodes, c, i);
    assert Parent(i) <= i < c;
    forall k | 0 < k < |r|
      ensures Parent(k) != c ==> AtMost(r[Parent(k)], r[k])
      ensures Parent(k) == c ==> AtMost(r[Parent(c)], r[k])
    {
      if Parent(k) == c {
        assert k != c && k != i;
      }
    }
  }

  ghost predicate InOrder(out: seq<Entry>) {
    forall i, j :: 0 <= i < j < |out| ==> AtMost(out[i], out[j])
  }

  ghost predicate AllAtMost(out: seq<Entry>, nodes: seq<Entry>) {
    forall x, y :: x in out && y in nodes ==> AtMost(x, y)
  }

  lemma NothingInOrder()
    ensures InOrder([]) && forall nodes :: AllAtMost([], nodes)
  {
  }

  lemma OneMoreInOrder(out: seq<Entry>, before: seq<Entry>, n: Entry, after: seq<Entry>)
    requires InOrder(out) && AllAtMost(out, before)
    requires multiset(before) == multiset(after) + multiset{n}
    requires forall e :: e in before ==> AtMost(n, e)
    ensures InOrder(out + [n]) && AllAtMost(out + [n], after) && |after| < |before|
  {
    assert n in multiset(before);
    assert forall y :: y in after ==> y in multiset(after);
    assert forall y :: y in multiset(after) ==> y in multiset(before);
    assert |multiset(before)| == |multiset(after)| + 1;
  }

  /** After the two comparisons of the sift, `smallest` is `i` or one of its children, and
      no more than any of the three; the children are the nodes whose parent is `i`. */
  lemma ChildrenOf(nodes: seq<Entry>, i: nat, smallest: nat)
    requires nodes != [] ==> i < |nodes|
    requires var s := if i * 2 + 1 < |nodes| && AtMost(nodes[i * 2 + 1], nodes[i]) then i * 2 + 1 else i;
      smallest == if i * 2 + 2 < |nodes| && AtMost(nodes[i * 2 + 2], nodes[s]) then i * 2 + 2 else s
    ensures forall k :: 0 < k < |nodes| && Parent(k) == i ==> AtMost(nodes[smallest], nodes[k])
    ensures smallest != i ==> i < smallest < |nodes| && Parent(smallest) == i && AtMost(nodes[smallest], nodes[i])
  {
  }

  /** The two comparisons of one turn: on a tie with a child, the child is taken. */
  method Smallest(nodes: seq<Entry>, i: nat) returns (smallest: nat)
    requires nodes != [] ==> i < |nodes|
    ensures smallest == i || (i < smallest < |nodes| && Parent(smallest) == i && AtMost(nodes[smallest], nodes[i]))
    ensures forall k :: 0 < k < |nodes| && Parent(k) == i ==> AtMost(nodes[smallest], nodes[k])
  {
    hide Cmp, Parent;
    smallest := i;
    var left := i * 2 + 1;
    var right := i * 2 + 2;
    if left < |nodes| && Cmp(nodes[left], nodes[smallest]) <= 0 {
      smallest := left;
    }
    if right < |nodes| && Cmp(nodes[right], nodes[smallest]) <= 0 {
      smallest := right;
    }
    ChildrenOf(nodes, i, smallest);
  }

  lemma RestOfRoot(nodes: seq<Entry>)
    requires nodes != []
    ensures var rest := nodes[0 := nodes[|nodes| - 1]][..|nodes| - 1];
      multiset(nodes) == multiset(rest) + multiset{nodes[0]}
  {
    var last := |nodes| - 1;
    var rest := nodes[0 := nodes[last]][..last];
    if last > 0 {
      assert nodes == [nodes[0]] + nodes[1..last] + [nodes[last]];
      assert rest == [nodes[last]] + nodes[1..last];
    } else {
      assert nodes == [nodes[0]] && rest == [];
    }
  }

  lemma RestIsHeap(nodes: seq<Entry>)
    requires Heap(nodes) && nodes != []
    ensures HeapButBelow(nodes[0 := nodes[|nodes| - 1]][..|nodes| - 1], 0)
  {
    hide AtMost;
  }

  lemma RootBeatsAll(nodes: seq<Entry>)
    requires Heap(nodes) && nodes != []
    ensures forall e :: e in nodes ==> AtMost(nodes[0], e)
  {
    hide AtMost, Heap;
    forall e | e in nodes
      ensures AtMost(nodes[0], e)
    {
      var k :| 0 <= k < |nodes| && nodes[k] == e;
      RootIsLeast(nodes, k);
    }
  }

  lemma TakeRoot(nodes: seq<Entry>)
    requires Heap(nodes) && nodes != []
    ensures var rest := nodes[0 := nodes[|nodes| - 1]][..|nodes| - 1];
      HeapButBelow(rest, 0) && multiset(nodes) == multiset(rest) + multiset{nodes[0]}
    ensures forall e :: e in nodes ==> AtMost(nodes[0], e)
  {
    hide *;
    RestOfRoot(nodes);
    RestIsHeap(nodes);
    RootBeatsAll(nodes);
  }

  lemma SiftDone(nodes: seq<Entry>, i: nat)
    requires HeapButBelow(nodes, i)
    requires forall k :: 0 < k < |nodes| && Parent(k) == i ==> AtMost(nodes[i], nodes[k])
    ensures Heap(nodes)
  {
  }

  class Queue {
    var nodes: seq<Entry>

    ghost predicate Valid()
      reads this
    {
      Heap(nodes)
    }

    constructor ()
      ensures Valid() && nodes == []
    {
      nodes := [];
    }

    method Push(node: Entry)
      requires Valid()
      modifies this
      ensures Valid() && multiset(nodes) == multiset(old(nodes)) + multiset{node}
    {
      hide Cmp;
      nodes := nodes + [node];
      var i := |nodes| - 1;
      var parent := Parent(i);
      while i != 0 && Cmp(nodes[parent], nodes[i]) > 0
        invariant 0 <= i < |nodes| && parent == Parent(i) && HeapButAbove(nodes, i)
        invariant multiset(nodes) == multiset(old(nodes)) + multiset{node}
        decreases i
      {
        SwapUp(nodes, i);
        nodes := Swapped(nodes, parent, i);
        i := parent;
        parent := Parent(i);
      }
    }

    /** The second half of pop: the node at the root goes down until it is in place. */
    method SiftDown()
      requires HeapButBelow(nodes, 0)
      modifies this
      ensures Heap(nodes) && |nodes| == |old(nodes)| && multiset(nodes) == multiset(old(nodes))
    {
      hide Cmp, Heap, HeapButBelow, Swapped, Parent;
      var i := 0;
      while true
        invariant 0 <= i && (nodes != [] ==> i < |nodes|) && HeapButBelow(nodes, i)
        invariant |nodes| == |old(nodes)| && multiset(nodes) == multiset(old(nodes))
        decreases |nodes| - i
      {
        var smallest := Smallest(nodes, i);
        if smallest == i {
          SiftDone(nodes, i);
          break;
        }
        SwapDown(nodes, i, smallest);
        nodes := Swapped(nodes, smallest, i);
        i := smallest;
      }
    }

    method Pop() returns (n: Entry, ok: bool)
      requires Valid()
      modifies this
      ensures Valid() && ok == (old(nodes) != [])
      ensures !ok ==> nodes == []
      ensures ok ==> multiset(old(nodes)) == multiset(nodes) + multiset{n}
      ensures ok ==> forall e :: e in old(nodes) ==> AtMost(n, e)
    {
      if |nodes| == 0 {
        return Entry(0.0, RectKind, 0, Point(0.0, 0.0), Point(0.0, 0.0)), false;
      }
      hide *;
      TakeRoot(nodes);
      n := nodes[0];
      nodes := nodes[0 := nodes[|nodes| - 1]];
      nodes := nodes[..|nodes| - 1];
      SiftDown();
      ok := true;
    }

    /** Popping until the queue is empty yields everything in it, in order. */
    method Drain() returns (out: seq<Entry>)
      requires Valid()
      modifies this
      ensures Valid() && nodes == []
      ensures multiset(out) == multiset(old(nodes)) && InOrder(out)
    {
      hide *;
      out := [];
      NothingInOrder();
      while true
        invariant Valid() && multiset(out) + multiset(nodes) == multiset(old(nodes))
        invariant InOrder(out) && AllAtMost(out, nodes)
        decreases |nodes|
      {
        ghost var before := nodes;
        var n, ok := Pop();
        if !ok {
          break;
        }
        OneMoreInOrder(out, before, n, nodes);
        out := out + [n];
      }
    }
  }
}
