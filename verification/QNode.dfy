/** The quadtree as the library builds it: nodes on the heap, updated in place. */
module QNodes {
  import opened Planar
  import opened Sequences
  import opened QuadTree
  import opened Varint
  import opened Codec

  /** A node part way through compression: its own items and its first `q` quads are in order. */
  ghost function TidyUpTo(t: Tree, q: int): (r: Tree)
    requires t.Node?
    ensures r.Node? && r.split == t.split && r.items == Sorted(t.items)
  {
    Node(t.split, Sorted(t.items), if q > 0 then Tidy(t.q0) else t.q0, if q > 1 then Tidy(t.q1) else t.q1,
         if q > 2 then Tidy(t.q2) else t.q2, if q > 3 then Tidy(t.q3) else t.q3)
  }

  lemma TidyEnds(t: Tree)
    requires t.Node?
    ensures TidyUpTo(t, 0) == t.As(t.split, Sorted(t.items))
    ensures Tidy(t) == if t.split then TidyUpTo(t, 4) else TidyUpTo(t, 0)
  {
  }

  lemma TidyOneMore(t: Tree, q: int)
    requires t.Node? && t.split && 0 <= q < 4
    ensures TidyUpTo(t, q).Quad(q) == t.Quad(q)
    ensures TidyUpTo(t, q + 1) == TidyUpTo(t, q).WithQuad(q, Tidy(t.Quad(q)))
    ensures Tidy(t).Quad(q) == Tidy(t.Quad(q))
  {
    hide Sorted, Tree.Items;
  }

  class QNode {
    var split: bool
    var items: seq<nat>
    var quads: seq<QNode?>
    ghost var tree: Tree
    ghost var Repr: set<object>

    /** The children own disjoint parts of the heap, and `tree` is the value they make up. */
    ghost predicate Valid()
      reads this, Repr
      ensures Valid() ==> this in Repr && |quads| == 4 && tree.Node? && tree.split == split && tree.items == items
      decreases Repr
    {
      && this in Repr && |quads| == 4
      && (forall q :: 0 <= q < 4 && quads[q] != null ==>
            && quads[q] in Repr && quads[q].Repr <= Repr && this !in quads[q].Repr && quads[q].Valid())
      && (forall p, q :: 0 <= p < q < 4 && quads[p] != null && quads[q] != null ==> quads[p].Repr !! quads[q].Repr)
      && tree.Node? && tree.split == split && tree.items == items
      && (forall q :: 0 <= q < 4 ==> tree.Quad(q) == if quads[q] == null then Nil else quads[q].tree)
    }

    constructor ()
      ensures Valid() && fresh(Repr) && tree == EMPTY
    {
      split, items, quads := false, [], [null, null, null, null];
      tree, Repr := EMPTY, {this};
    }

    method SetSplit(nitems: seq<nat>)
      requires Valid()
      modifies this
      ensures Valid() && Repr == old(Repr) && tree == old(tree).As(true, nitems)
    {
      items := nitems;
      split := true;
      tree := tree.As(true, nitems);
    }

    /** A quad of the tree is there exactly when the pointer is set. */
    lemma HasChild(q: int)
      requires Valid() && 0 <= q < 4
      ensures tree.Quad(q).Nil? <==> quads[q] == null
    {
    }

    /** Valid, except that the child at `q` may have grown since it was last looked at. */
    ghost predicate AllButChild(q: int)
      requires 0 <= q < 4
      reads this, Repr, if |quads| == 4 && quads[q] != null then {quads[q]} + quads[q].Repr else {}
    {
      && this in Repr && |quads| == 4 && quads[q] != null && quads[q].Valid() && this !in quads[q].Repr
      && (forall p :: 0 <= p < 4 && p != q && quads[p] != null ==>
            && quads[p] in Repr && quads[p].Repr <= Repr && this !in quads[p].Repr && quads[p].Valid()
            && quads[p].Repr !! quads[q].Repr)
      && (forall p, r :: 0 <= p < r < 4 && quads[p] != null && quads[r] != null ==> quads[p].Repr !! quads[r].Repr)
      && tree.Node? && tree.split == split && tree.items == items
      && (forall p :: 0 <= p < 4 && p != q ==> tree.Quad(p) == if quads[p] == null then Nil else quads[p].tree)
    }

    ghost method Adopt(q: int)
      requires 0 <= q < 4 && AllButChild(q)
      modifies this`tree, this`Repr
      ensures Valid() && Repr == old(Repr) + quads[q].Repr
      ensures tree == old(tree).WithQuad(q, quads[q].tree)
    {
      Repr := Repr + quads[q].Repr;
      tree := tree.WithQuad(q, quads[q].tree);
    }

    method InsertChild(mid: Midpoint, segs: seq<Segment>, qbounds: Rect, rect: Rect, item: nat, depth: nat, q: int)
      requires Valid() && depth < MAX_DEPTH && 0 <= q < 4 && quads[q] != null && tree.Quad(q).Node?
      requires Within(tree.Quad(q), |segs|)
      modifies Repr
      ensures Valid() && fresh(Repr - old(Repr)) && split == old(split) && items == old(items)
      ensures tree == old(tree).WithQuad(q, QuadTree.Insert(mid, segs, qbounds, rect, item, depth + 1, old(tree).Quad(q)))
      decreases MAX_DEPTH - depth, 0, 0
    {
      hide Tree.Items, QuadTree.Insert, Within, Tree.WithQuad;
      assert AllButChild(q);
      quads[q].Insert(mid, segs, qbounds, rect, item, depth + 1);
      assert AllButChild(q);
      hide Valid;
      Adopt(q);
    }

    method Attach(q: int, child: QNode)
      requires Valid() && 0 <= q < 4 && quads[q] == null
      requires child.Valid() && child.Repr !! Repr
      modifies this
      ensures Valid() && Repr == old(Repr) + child.Repr
      ensures quads == old(quads)[q := child] && split == old(split) && items == old(items)
      ensures tree == old(tree).WithQuad(q, child.tree)
    {
      quads := quads[q := child];
      Repr := Repr + child.Repr;
      tree := tree.WithQuad(q, child.tree);
    }

    /** Insert into one quad, allocating its node first when there is none. */
    method InsertQuad(mid: Midpoint, segs: seq<Segment>, qbounds: Rect, rect: Rect, item: nat, depth: nat, q: int)
      requires Valid() && depth < MAX_DEPTH && 0 <= q < 4
      requires Within(tree, |segs|)
      modifies Repr
      ensures Valid() && fresh(Repr - old(Repr))
      ensures tree == QuadTree.InsertQuad(mid, segs, qbounds, rect, item, depth, q, old(tree))
      ensures split == old(split) && items == old(items)
      decreases MAX_DEPTH - depth, 0, 1
    {
      hide Valid, Tree.Items, QuadTree.Insert, Within, Tree.WithQuad;
      WithinParts(tree, |segs|);
      WithinOpened(tree.Quad(q), |segs|);
      HasChild(q);
      if quads[q] == null {
        var child := new QNode();
        Attach(q, child);
      }
      InsertChild(mid, segs, qbounds, rect, item, depth, q);
      WithQuadTwice(old(tree), q, EMPTY, tree.Quad(q));
    }

    /** The splitting loop: items that belong to a quad move into it, the others stay. */
    method Split(mid: Midpoint, segs: seq<Segment>, bounds: Rect, depth: nat)
      requires Valid() && !split && depth < MAX_DEPTH
      requires Within(tree, |segs|)
      modifies Repr
      ensures Valid() && fresh(Repr - old(Repr)) && split && Within(tree, |segs|)
      ensures tree == Redistribute(mid, segs, bounds, old(items), depth, old(tree).As(true, []))
      decreases MAX_DEPTH - depth, 2
    {
      hide Valid, ChooseQuad, QuadBounds, Tree.Items, QuadTree.Insert, Within, Redistribute, QuadTree.InsertQuad, Segment.Box;
      RedistributeNone(mid, segs, bounds, depth, tree.As(true, []));
      var nitems: seq<nat> := [];
      var i := 0;
      while i < |items|
        invariant 0 <= i <= |items| && items == old(items) && !split
        invariant Valid() && fresh(Repr - old(Repr))
        invariant Within(tree, |segs|) && forall j :: j in nitems ==> j < |segs|
        invariant tree.As(true, nitems) == Redistribute(mid, segs, bounds, items[..i], depth, old(tree).As(true, []))
      {
        var iitem := items[i];
        WithinParts(tree, |segs|);
        assert iitem in tree.items;
        var irect := segs[iitem].Box();
        var q := ChooseQuad(mid, bounds, irect);
        ghost var before := tree;
        RedistributeStep(mid, segs, bounds, items, i, depth, old(tree).As(true, []));
        if q == -1 {
          nitems := nitems + [iitem];
        } else {
          var qbounds := QuadBounds(mid, bounds, q);
          InsertQuad(mid, segs, qbounds, irect, iitem, depth, q);
          WithinGrows(before, tree, |segs|, iitem);
          InsertQuadAs(mid, segs, qbounds, irect, iitem, depth, q, before, nitems);
        }
        i := i + 1;
      }
      assert items[..i] == items;
      WithinAs(tree, |segs|, true, nitems);
      SetSplit(nitems);
    }

    method Append(item: nat)
      requires Valid()
      modifies this
      ensures Valid() && Repr == old(Repr) && tree == old(tree).WithItem(item)
      ensures split == old(split) && quads == old(quads)
    {
      items := items + [item];
      tree := tree.WithItem(item);
    }

    /** Insertion in place does to the heap what Insert does to the value. */
    method Insert(mid: Midpoint, segs: seq<Segment>, bounds: Rect, rect: Rect, item: nat, depth: nat)
      requires Valid() && depth <= MAX_DEPTH
      requires Within(tree, |segs|)
      modifies Repr
      ensures Valid() && fresh(Repr - old(Repr))
      ensures tree == QuadTree.Insert(mid, segs, bounds, rect, item, depth, old(tree))
      decreases MAX_DEPTH - depth, if split then 1 else 3
    {
      hide Valid, ChooseQuad, QuadBounds, Tree.Items, Redistribute, QuadTree.InsertQuad, Within;
      if depth == MAX_DEPTH {
        Append(item);
      } else if split {
        var q := ChooseQuad(mid, bounds, rect);
        if q == -1 {
          Append(item);
        } else {
          InsertQuad(mid, segs, QuadBounds(mid, bounds, q), rect, item, depth, q);
        }
      } else if |items| == MAX_ITEMS {
        Split(mid, segs, bounds, depth);
        assert Within(tree, |segs|);
        Insert(mid, segs, bounds, rect, item, depth);
      } else {
        Append(item);
      }
    }

    lemma NoChild(q: int)
      requires Valid() && 0 <= q < 4 && quads[q] == null
      ensures tree.Quad(q) == Nil == Tidy(tree.Quad(q)) && tree.WithQuad(q, Nil) == tree
    {
    }

    /** Compress one child on its own. */
    method CompressChild(q: int) returns (dst2: seq<Byte>)
      requires Valid() && 0 <= q < 4 && quads[q] != null
      modifies Repr
      ensures Valid() && Repr == old(Repr) && split == old(split)
      ensures tree == old(tree).WithQuad(q, Tidy(old(tree).Quad(q)))
      ensures tree.Quad(q).Node? && dst2 == Encode(tree.Quad(q))
      decreases Repr, 0, 0
    {
      hide Encode, Tidy, Tree.WithQuad;
      assert AllButChild(q);
      dst2 := quads[q].Compress([]);
      assert AllButChild(q);
      hide Valid;
      Adopt(q);
      assert [] + Encode(quads[q].tree) == Encode(quads[q].tree);
    }

    method CompressQuad(dst: seq<Byte>, q: int, ghost was: Tree) returns (out: seq<Byte>)
      requires Valid() && split && 0 <= q < 4
      requires was.Node? && tree == TidyUpTo(was, q)
      modifies Repr
      ensures Valid() && Repr == old(Repr) && split && tree == TidyUpTo(was, q + 1)
      ensures out + EncodeQuads(Tidy(was), q + 1) == dst + EncodeQuads(Tidy(was), q)
      decreases Repr, 0, 1
    {
      hide *;
      TidyOneMore(was, q);
      if quads[q] != null {
        var dst2 := CompressChild(q);
        QuadCode(Tidy(was), q, dst, dst2);
        out := AppendUvarint(dst, U64(|dst2|));
        out := out + dst2;
      } else {
        NoChild(q);
        NoQuadCode(Tidy(was), q, dst);
        out := dst + [0];
      }
    }

    method SortItems()
      requires Valid()
      modifies this
      ensures Valid() && Repr == old(Repr) && split == old(split)
      ensures tree == old(tree).As(split, Sorted(old(items)))
    {
      items := Sorted(items);
      tree := tree.As(split, items);
    }

    method AppendItems(dst: seq<Byte>) returns (out: seq<Byte>)
      ensures out == dst + EncodeItems(items, 0)
    {
      hide Uvarint;
      out := dst;
      var last: nat := 0;
      var i := 0;
      while i < |items|
        invariant 0 <= i <= |items|
        invariant out + EncodeItems(items[i..], last) == dst + EncodeItems(items, 0)
      {
        var item := items[i];
        var delta: int := item - last;
        assert EncodeItems(items[i..], last) == Uvarint(U64(delta)) + EncodeItems(items[i + 1..], item);
        out := AppendUvarint(out, U64(delta));
        last := item;
        i := i + 1;
      }
    }

    /** Compression sorts the items of every node in place and appends the bytes of the tree. */
    method Compress(dst: seq<Byte>) returns (out: seq<Byte>)
      requires Valid()
      modifies Repr
      ensures Valid() && Repr == old(Repr) && tree == Tidy(old(tree))
      ensures out == dst + Encode(tree)
      decreases Repr, 1
    {
      hide *;
      TidyNode(tree);
      TidyEnds(tree);
      SortItems();
      out := AppendUvarint(dst, U64(|items|));
      out := AppendItems(out);
      NodeCode(Tidy(old(tree)), dst);
      if !split {
        out := out + [0];
      } else {
        out := out + [1];
        var q := 0;
        while q < 4
          invariant 0 <= q <= 4 && Valid() && Repr == old(Repr) && split
          invariant tree == TidyUpTo(old(tree), q)
          invariant out + EncodeQuads(Tidy(old(tree)), q) == dst + Encode(Tidy(old(tree)))
        {
          out := CompressQuad(out, q, old(tree));
          q := q + 1;
        }
        NoMoreQuads(Tidy(old(tree)), out);
      }
    }
  }
}
