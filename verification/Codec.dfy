/** The quadtree as one array of bytes: sorted items as differences, then the quads, each
    with its size in front. */
module Codec {
  import opened Sequences
  import opened Varint
  import opened QuadTree
  import opened Planar











  // ---------- Encoding ----------

  function EncodeItems(items: seq<nat>, last: nat): seq<Byte> {
    if items == [] then [] else Uvarint(U64(items[0] - last)) + EncodeItems(items[1..], items[0])
  }

  function Encode(t: Tree): (r: seq<Byte>)
    requires t.Node?
    decreases t, 5
  {
    Uvarint(U64(|t.items|)) + (EncodeItems(t.items, 0) + Tail(t))
  }

  /** What follows the items: the split flag, and the four quads of a split node. */
  function Tail(t: Tree): (r: seq<Byte>)
    requires t.Node?
    decreases t, 4
  {
    if t.split then [1] + EncodeQuads(t, 0) else [0]
  }

  function EncodeQuads(t: Tree, q: nat): (r: seq<Byte>)
    requires t.Node? && q <= 4
    decreases t, 3, 4 - q
  {
    if q == 4 then [] else EncodeChild(t.Quad(q)) + EncodeQuads(t, q + 1)
  }

  function EncodeChild(t: Tree): (r: seq<Byte>)
    decreases t, 6
  {
    if t.Nil? then [0] else Uvarint(U64(|Encode(t)|)) + Encode(t)
  }

  // ---------- The pieces that compression appends ----------

  lemma NodeCode(t: Tree, dst: seq<Byte>)
    requires t.Node?
    ensures var start := dst + Uvarint(U64(|t.items|)) + EncodeItems(t.items, 0);
      dst + Encode(t) == if t.split then start + [1] + EncodeQuads(t, 0) else start + [0]
  {
  }

  lemma NoMoreQuads(t: Tree, out: seq<Byte>)
    requires t.Node?
    ensures out + EncodeQuads(t, 4) == out
  {
  }

  lemma QuadCode(t: Tree, q: nat, dst: seq<Byte>, code: seq<Byte>)
    requires t.Node? && q < 4 && t.Quad(q).Node? && code == Encode(t.Quad(q))
    ensures dst + Uvarint(U64(|code|)) + code + EncodeQuads(t, q + 1) == dst + EncodeQuads(t, q)
  {
  }

  lemma NoQuadCode(t: Tree, q: nat, dst: seq<Byte>)
    requires t.Node? && q < 4 && t.Quad(q).Nil?
    ensures dst + [0] + EncodeQuads(t, q + 1) == dst + EncodeQuads(t, q)
  {
  }

  // ---------- The format ----------

  lemma QuadsFormat(t: Tree)
    requires t.Node?
    ensures EncodeQuads(t, 0) == EncodeChild(t.q0) + EncodeChild(t.q1) + EncodeChild(t.q2) + EncodeChild(t.q3)
  {
    hide EncodeChild;
    assert EncodeQuads(t, 4) == [];
    assert EncodeQuads(t, 2) == EncodeChild(t.Quad(2)) + EncodeQuads(t, 3);
    assert EncodeQuads(t, 0) == EncodeChild(t.Quad(0)) + EncodeQuads(t, 1);
  }

  /** A node: the number of its items, their differences, a flag, and the quads of a split
      node in turn. */
  lemma NodeFormat(t: Tree)
    requires t.Node?
    ensures Encode(t) == Uvarint(U64(|t.items|)) + EncodeItems(t.items, 0) +
      if !t.split then [0]
      else [1] + EncodeChild(t.q0) + EncodeChild(t.q1) + EncodeChild(t.q2) + EncodeChild(t.q3)
  {
    hide EncodeChild, EncodeItems, Uvarint;
    if t.split {
      QuadsFormat(t);
    }
  }

  /** A quad: its length and its bytes, or one zero byte. */
  lemma ChildFormat(t: Tree)
    ensures EncodeChild(t) == if t.Nil? then [0] else Uvarint(U64(|Encode(t)|)) + Encode(t)
  {
  }

  lemma FirstItem(items: seq<nat>, last: nat)
    requires items != []
    ensures EncodeItems(items, last) == Uvarint(U64(items[0] - last)) + EncodeItems(items[1..], items[0])
  {
    hide Uvarint;
  }

  lemma NoItemsCode(last: nat)
    ensures EncodeItems([], last) == []
  {
  }

  /** Each item is written as the difference to the item before it. */
  lemma {:induction false} ItemFormat(items: seq<nat>, last: nat, k: nat)
    requires k < |items|
    ensures EncodeItems(items, last) ==
      EncodeItems(items[..k], last) + Uvarint(U64(items[k] - if k == 0 then last else items[k - 1])) +
      EncodeItems(items[k + 1..], items[k])
    decreases k
  {
    hide *;
    FirstItem(items, last);
    if k == 0 {
      NoItemsCode(last);
      assert items[..0] == [];
    } else {
      ItemFormat(items[1..], items[0], k - 1);
      FirstItem(items[..k], last);
      assert items[..k][1..] == items[1..][..k - 1] && items[1..][k..] == items[k + 1..];
    }
  }

  // ---------- Decoding ----------

  datatype Option<+T> = None | Some(value: T)

  /** A read that does not run off the array and is not refused. */
  predicate CanRead(data: seq<Byte>, addr: int) {
    Readable(data, addr) && Read(data, addr).1 != -1
  }

  /** The items of a node: `n` differences, added up from `last` in 64-bit arithmetic. */
  function ReadItems(data: seq<Byte>, addr: int, n: nat, last: nat): (r: Option<(seq<nat>, int)>)
    ensures r.Some? ==> addr <= r.value.1
    decreases n
  {
    if n == 0 then Some(([], addr))
    else if !CanRead(data, addr) then None
    else
      var (delta, next) := Read(data, addr);
      var item := U64(delta + last);
      match ReadItems(data, next, n - 1, item)
      case None => None
      case Some((items, end)) => Some(([item] + items, end))
  }

  /** The node at an address and the address just past it, read the way the search walks
      the array; None where the walk would fail. */
  function ReadNode(data: seq<Byte>, addr: int): (r: Option<(Tree, int)>)
    ensures r.Some? ==> r.value.0.Node? && addr < r.value.1
    decreases |data| - addr, 1, 0
  {
    if !CanRead(data, addr) then None
    else
      var (n, start) := Read(data, addr);
      match ReadItems(data, start, n, 0)
      case None => None
      case Some((items, flag)) =>
        if !(flag < |data|) then None
        else if data[flag] != 1 then Some((Node(false, items, Nil, Nil, Nil, Nil), flag + 1))
        else
          match ReadQuads(data, flag + 1, 0)
          case None => None
          case Some((quads, end)) => Some((Node(true, items, quads[0], quads[1], quads[2], quads[3]), end))
  }

  /** The quads from `q` on.  A size of zero means no child; any other size is how far the
      next quad is, whatever the child looks like. */
  function ReadQuads(data: seq<Byte>, addr: int, q: nat): (r: Option<(seq<Tree>, int)>)
    requires q <= 4
    ensures r.Some? ==> |r.value.0| == 4 - q && addr <= r.value.1
    decreases |data| - addr, 0, 4 - q
  {
    if q == 4 then Some(([], addr))
    else if !CanRead(data, addr) then None
    else
      var (size, start) := Read(data, addr);
      if size == 0 then
        match ReadQuads(data, start, q + 1)
        case None => None
        case Some((quads, end)) => Some(([Nil] + quads, end))
      else
        match ReadNode(data, start)
        case None => None
        case Some((child, _)) =>
          match ReadQuads(data, start + size, q + 1)
          case None => None
          case Some((quads, end)) => Some(([child] + quads, end))
  }

  // ---------- Round trip ----------

  /** What an array can hold: items in order, each a 64-bit number, and quads only under a
      split node. */
  predicate Storable(t: Tree)
    decreases t
  {
    t.Node? ==>
      && (!t.split ==> t.q0.Nil? && t.q1.Nil? && t.q2.Nil? && t.q3.Nil?)
      && Ascending(t.items) && (forall i :: i in t.items ==> i < TWO64)
      && (forall q :: 0 <= q < 4 ==> Storable(t.Quad(q)))
  }

  /** Reading a number that other bytes follow. */
  lemma ReadStep(data: seq<Byte>, addr: int, x: nat, rest: seq<Byte>)
    requires Has(data, addr, Uvarint(x) + rest) && x < TWO64
    ensures CanRead(data, addr) && Read(data, addr) == (x, addr + |Uvarint(x)|)
    ensures Has(data, addr + |Uvarint(x)|, rest)
  {
    hide Uvarint;
    HasConcat(data, addr, Uvarint(x), rest);
    UvarintLength(x);
    UvarintDenotes(data, addr, x, 0);
  }

  lemma {:induction false} ItemsLength(items: seq<nat>, last: nat)
    ensures |EncodeItems(items, last)| >= |items|
  {
    if items == [] {
    } else {
      ItemsLength(items[1..], items[0]);
    }
  }

  /** Sizes: the items take at least a byte each, and every quad is shorter than its node. */
  lemma PartsAreShorter(t: Tree)
    requires t.Node?
    ensures |t.items| < |Encode(t)|
    ensures t.split ==> |EncodeQuads(t, 0)| < |Encode(t)|
  {
    ItemsLength(t.items, 0);
  }

  lemma {:induction false} QuadsLength(t: Tree, q: nat, p: nat)
    requires t.Node? && q <= p < 4
    ensures |EncodeChild(t.Quad(p))| <= |EncodeQuads(t, q)|
    decreases p - q
  {
    if q == p {
    } else {
      QuadsLength(t, q + 1, p);
    }
  }

  lemma QuadIsShorter(t: Tree, q: nat)
    requires t.Node? && t.split && q < 4 && t.Quad(q).Node?
    ensures |Encode(t.Quad(q))| < |Encode(t)|
  {
    PartsAreShorter(t);
    QuadsLength(t, 0, q);
  }

  ghost predicate Storables(items: seq<nat>, last: nat) {
    Ascending(items) && (forall i :: i in items ==> i < TWO64) && (items != [] ==> last <= items[0])
  }

  lemma StorablesRest(items: seq<nat>, last: nat)
    requires Storables(items, last) && items != []
    ensures last <= items[0] < TWO64 && Storables(items[1..], items[0])
  {
    assert items[0] in items;
    assert forall i :: i in items[1..] ==> i in items;
  }

  /** Items are read one difference at a time. */
  lemma ItemsHead(data: seq<Byte>, addr: int, items: seq<nat>, last: nat, rest: seq<Byte>)
    requires Has(data, addr, EncodeItems(items, last) + rest) && items != [] && Storables(items, last)
    ensures last <= items[0] < TWO64
    ensures CanRead(data, addr)
    ensures var size := |Uvarint(items[0] - last)|;
      && Read(data, addr) == (items[0] - last, addr + size)
      && Has(data, addr + size, EncodeItems(items[1..], items[0]) + rest)
      && |EncodeItems(items, last)| == size + |EncodeItems(items[1..], items[0])|
  {
    StorablesRest(items, last);
    var delta, more := items[0] - last, EncodeItems(items[1..], items[0]);
    assert EncodeItems(items, last) == Uvarint(delta) + more;
    hide Has, EncodeItems, Uvarint, Read, Readable;
    assert (Uvarint(delta) + more) + rest == Uvarint(delta) + (more + rest);
    ReadStep(data, addr, delta, more + rest);
  }

  lemma NoItems(data: seq<Byte>, addr: int, last: nat, rest: seq<Byte>)
    requires Has(data, addr, EncodeItems([], last) + rest)
    ensures Has(data, addr, rest) && |EncodeItems([], last)| == 0
  {
  }

  lemma {:induction false} ItemsRoundTrip(data: seq<Byte>, addr: int, items: seq<nat>, last: nat, rest: seq<Byte>)
    requires Has(data, addr, EncodeItems(items, last) + rest) && Storables(items, last)
    ensures ReadItems(data, addr, |items|, last) == Some((items, addr + |EncodeItems(items, last)|))
    ensures Has(data, addr + |EncodeItems(items, last)|, rest)
    decreases |items|
  {
    hide Has, EncodeItems, Uvarint, Read, Readable, Storables;
    if items == [] {
      NoItems(data, addr, last, rest);
    } else {
      ItemsHead(data, addr, items, last, rest);
      StorablesRest(items, last);
      ItemsRoundTrip(data, addr + |Uvarint(items[0] - last)|, items[1..], items[0], rest);
      assert items == [items[0]] + items[1..];
    }
  }

  lemma EncodeParts(t: Tree)
    requires t.Node? && |t.items| < TWO64
    ensures Encode(t) == Uvarint(|t.items|) + (EncodeItems(t.items, 0) + Tail(t))
    ensures |Encode(t)| == |Uvarint(|t.items|)| + |EncodeItems(t.items, 0)| + |Tail(t)|
  {
    hide Uvarint, EncodeItems, Tail;
  }

  /** A node starts with the number of its items. */
  lemma NodeHead(data: seq<Byte>, addr: int, t: Tree)
    requires t.Node? && Has(data, addr, Encode(t)) && |Encode(t)| < TWO64
    ensures CanRead(data, addr) && Read(data, addr) == (|t.items|, addr + |Uvarint(|t.items|)|)
    ensures Has(data, addr + |Uvarint(|t.items|)|, EncodeItems(t.items, 0) + Tail(t))
    ensures |Encode(t)| == |Uvarint(|t.items|)| + |EncodeItems(t.items, 0)| + |Tail(t)|
  {
    hide *;
    PartsAreShorter(t);
    EncodeParts(t);
    ReadStep(data, addr, |t.items|, EncodeItems(t.items, 0) + Tail(t));
  }

  /** A missing quad is one zero byte. */
  lemma NoQuadHead(data: seq<Byte>, addr: int, t: Tree, q: nat)
    requires t.Node? && q < 4 && t.Quad(q).Nil? && Has(data, addr, EncodeQuads(t, q))
    ensures CanRead(data, addr) && Read(data, addr) == (0, addr + 1)
    ensures Has(data, addr + 1, EncodeQuads(t, q + 1)) && |EncodeChild(t.Quad(q))| == 1
  {
    var rest := EncodeQuads(t, q + 1);
    assert EncodeQuads(t, q) == [0] + rest;
    assert Uvarint(0) == [0];
    hide Encode, EncodeQuads, Uvarint, Read, Readable, Has;
    ReadStep(data, addr, 0, rest);
  }

  lemma QuadBytes(t: Tree, q: nat)
    requires t.Node? && q < 4 && t.Quad(q).Node? && |Encode(t.Quad(q))| < TWO64
    ensures var code := Encode(t.Quad(q));
      && EncodeChild(t.Quad(q)) == Uvarint(|code|) + code
      && EncodeQuads(t, q) == Uvarint(|code|) + (code + EncodeQuads(t, q + 1))
  {
  }

  /** A quad that exists starts with its size, which leads to the next quad. */
  lemma QuadHead(data: seq<Byte>, addr: int, t: Tree, q: nat)
    requires t.Node? && t.split && q < 4 && |Encode(t)| < TWO64 && Has(data, addr, EncodeQuads(t, q))
    requires t.Quad(q).Node?
    ensures var size := |Encode(t.Quad(q))|;
      var start := addr + |Uvarint(size)|;
      && 0 < size < |Encode(t)| && CanRead(data, addr) && Read(data, addr) == (size, start)
      && Has(data, start, Encode(t.Quad(q))) && Has(data, start + size, EncodeQuads(t, q + 1))
      && |EncodeChild(t.Quad(q))| == start + size - addr
  {
    hide Uvarint, Read, Readable, Has, Encode, EncodeQuads;
    QuadIsShorter(t, q);
    PartsAreShorter(t.Quad(q));
    var code, rest := Encode(t.Quad(q)), EncodeQuads(t, q + 1);
    QuadBytes(t, q);
    hide *;
    assert Has(data, addr, Uvarint(|code|) + (code + rest));
    ReadStep(data, addr, |code|, code + rest);
    HasConcat(data, addr + |Uvarint(|code|)|, code, rest);
  }

  lemma StorableItems(t: Tree)
    requires t.Node? && Storable(t)
    ensures Storables(t.items, 0) && (!t.split ==> t == Node(false, t.items, Nil, Nil, Nil, Nil))
  {
  }

  function Quads(t: Tree): seq<Tree>
    requires t.Node?
  {
    [t.q0, t.q1, t.q2, t.q3]
  }

  lemma QuadsEnd(data: seq<Byte>, addr: int, t: Tree)
    requires t.Node?
    ensures |EncodeQuads(t, 4)| == 0 && |Quads(t)| == 4
    ensures ReadQuads(data, addr, 4) == Some((Quads(t)[4..], addr))
  {
    assert Quads(t)[4..] == [];
  }

  lemma ReadQuadsNil(data: seq<Byte>, addr: int, q: nat)
    requires q < 4 && CanRead(data, addr) && Read(data, addr).0 == 0
    requires ReadQuads(data, Read(data, addr).1, q + 1).Some?
    ensures var (quads, end) := ReadQuads(data, Read(data, addr).1, q + 1).value;
      ReadQuads(data, addr, q) == Some(([Nil] + quads, end))
  {
  }

  lemma ReadQuadsNode(data: seq<Byte>, addr: int, q: nat)
    requires q < 4 && CanRead(data, addr) && Read(data, addr).0 != 0
    requires ReadNode(data, Read(data, addr).1).Some?
    requires ReadQuads(data, Read(data, addr).1 + Read(data, addr).0, q + 1).Some?
    ensures var (child, _) := ReadNode(data, Read(data, addr).1).value;
      var (quads, end) := ReadQuads(data, Read(data, addr).1 + Read(data, addr).0, q + 1).value;
      ReadQuads(data, addr, q) == Some(([child] + quads, end))
  {
  }

  lemma StorableQuad(t: Tree, q: nat)
    requires t.Node? && Storable(t) && q < 4
    ensures |Quads(t)| == 4
    ensures Storable(t.Quad(q)) && Quads(t)[q..] == [t.Quad(q)] + Quads(t)[q + 1..]
    ensures |EncodeQuads(t, q)| == |EncodeChild(t.Quad(q))| + |EncodeQuads(t, q + 1)|
  {
  }

  lemma TailAt(data: seq<Byte>, flag: int, t: Tree)
    requires t.Node? && Has(data, flag, Tail(t))
    ensures 0 <= flag < |data| && data[flag] == if t.split then 1 else 0
    ensures |Tail(t)| == 1 + if t.split then |EncodeQuads(t, 0)| else 0
    ensures t.split ==> Has(data, flag + 1, EncodeQuads(t, 0))
  {
    hide EncodeQuads;
    HasAt(data, flag, Tail(t), 0);
    if t.split {
      HasConcat(data, flag, [1], EncodeQuads(t, 0));
    }
  }

  lemma ReadNodeIs(data: seq<Byte>, addr: int)
    requires CanRead(data, addr) && ReadItems(data, Read(data, addr).1, Read(data, addr).0, 0).Some?
    ensures var (items, flag) := ReadItems(data, Read(data, addr).1, Read(data, addr).0, 0).value;
      && (0 <= flag < |data| && data[flag] != 1 ==> ReadNode(data, addr) == Some((Node(false, items, Nil, Nil, Nil, Nil), flag + 1)))
      && (0 <= flag < |data| && data[flag] == 1 && ReadQuads(data, flag + 1, 0).Some? ==>
            var (quads, end) := ReadQuads(data, flag + 1, 0).value;
            ReadNode(data, addr) == Some((Node(true, items, quads[0], quads[1], quads[2], quads[3]), end)))
  {
    hide Readable, Read, ReadItems;
  }

  lemma AllQuads(t: Tree)
    requires t.Node?
    ensures Quads(t)[0..] == Quads(t) == [t.q0, t.q1, t.q2, t.q3]
    ensures t == Node(t.split, t.items, t.q0, t.q1, t.q2, t.q3)
  {
  }

  /** The round trip: wherever the bytes of a tree stand, they decode to that tree and to
      the address just past them. */
  lemma {:induction false} NodeRoundTrip(data: seq<Byte>, addr: int, t: Tree)
    requires t.Node? && Storable(t) && |Encode(t)| < TWO64 && Has(data, addr, Encode(t))
    ensures ReadNode(data, addr) == Some((t, addr + |Encode(t)|))
    decreases t, 4
  {
    hide *;
    NodeHead(data, addr, t);
    var start := addr + |Uvarint(|t.items|)|;
    StorableItems(t);
    ItemsRoundTrip(data, start, t.items, 0, Tail(t));
    var flag := start + |EncodeItems(t.items, 0)|;
    TailAt(data, flag, t);
    ReadNodeIs(data, addr);
    if t.split {
      QuadsRoundTrip(data, flag + 1, t, 0);
      AllQuads(t);
    }
  }

  lemma {:induction false} QuadsRoundTrip(data: seq<Byte>, addr: int, t: Tree, q: nat)
    requires t.Node? && t.split && Storable(t) && |Encode(t)| < TWO64
    requires q <= 4 && Has(data, addr, EncodeQuads(t, q))
    ensures ReadQuads(data, addr, q) == Some((Quads(t)[q..], addr + |EncodeQuads(t, q)|))
    decreases t, 3, 4 - q
  {
    hide *;
    if q == 4 {
      QuadsEnd(data, addr, t);
    } else {
      var child := t.Quad(q);
      StorableQuad(t, q);
      if child.Nil? {
        NoQuadHead(data, addr, t, q);
        QuadsRoundTrip(data, addr + 1, t, q + 1);
        ReadQuadsNil(data, addr, q);
      } else {
        QuadHead(data, addr, t, q);
        var start := addr + |Uvarint(|Encode(child)|)|;
        NodeRoundTrip(data, start, child);
        QuadsRoundTrip(data, start + |Encode(child)|, t, q + 1);
        ReadQuadsNode(data, addr, q);
      }
    }
  }

  /** Two trees whose bytes stand at the same address are the same tree: no encoding is the
      beginning of another. */
  lemma EncodingIsUnambiguous(data: seq<Byte>, addr: int, t: Tree, u: Tree)
    requires t.Node? && Storable(t) && |Encode(t)| < TWO64 && Has(data, addr, Encode(t))
    requires u.Node? && Storable(u) && |Encode(u)| < TWO64 && Has(data, addr, Encode(u))
    ensures t == u
  {
    NodeRoundTrip(data, addr, t);
    NodeRoundTrip(data, addr, u);
  }

  // ---------- An array that was cut short ----------

  /** A number that can be read before the cut is the one that stood there. */
  lemma {:induction false} LebBeforeCut(data: seq<Byte>, cut: nat, addr: int, k: nat)
    requires cut <= |data| && ReadableFrom(data[..cut], addr, k)
    ensures ReadableFrom(data, addr, k) && Leb(data, addr, k) == Leb(data[..cut], addr, k)
    decreases 10 - k
  {
    if data[addr] < 0x80 || k >= 9 {
    } else {
      LebBeforeCut(data, cut, addr + 1, k + 1);
    }
  }

  lemma ReadBeforeCut(data: seq<Byte>, cut: nat, addr: int)
    requires cut <= |data| && CanRead(data[..cut], addr)
    ensures CanRead(data, addr) && Read(data, addr) == Read(data[..cut], addr)
    ensures addr < Read(data, addr).1 <= cut
  {
    LebBeforeCut(data, cut, addr, 0);
  }

  lemma {:induction false} ItemsBeforeCut(data: seq<Byte>, cut: nat, addr: int, items: seq<nat>, last: nat, rest: seq<Byte>)
    requires cut <= |data| && addr <= cut && Has(data, addr, EncodeItems(items, last) + rest) && Storables(items, last)
    requires ReadItems(data[..cut], addr, |items|, last).Some?
    ensures ReadItems(data[..cut], addr, |items|, last).value.1 == addr + |EncodeItems(items, last)| <= cut
    ensures Has(data, addr + |EncodeItems(items, last)|, rest)
    decreases |items|
  {
    hide Has, EncodeItems, Uvarint, Read, Readable, Storables;
    if items == [] {
      NoItems(data, addr, last, rest);
    } else {
      ItemsHead(data, addr, items, last, rest);
      StorablesRest(items, last);
      ReadBeforeCut(data, cut, addr);
      ItemsBeforeCut(data, cut, addr + |Uvarint(items[0] - last)|, items[1..], items[0], rest);
    }
  }

  lemma ReadNodeSome(data: seq<Byte>, addr: int)
    requires ReadNode(data, addr).Some?
    ensures CanRead(data, addr)
    ensures var (n, start) := Read(data, addr);
      && ReadItems(data, start, n, 0).Some?
      && var flag := ReadItems(data, start, n, 0).value.1;
      && start <= flag < |data| && (0 <= flag && data[flag] == 1 ==> ReadQuads(data, flag + 1, 0).Some?)
  {
  }

  lemma ReadQuadsSome(data: seq<Byte>, addr: int, q: nat)
    requires q < 4 && ReadQuads(data, addr, q).Some?
    ensures CanRead(data, addr)
    ensures var (size, start) := Read(data, addr);
      && (size != 0 ==> ReadNode(data, start).Some?)
      && ReadQuads(data, start + size, q + 1).Some?
  {
  }

  /** A tree is read from a prefix of the array only if all of its bytes are in it. */
  lemma {:induction false} NodeBeforeCut(data: seq<Byte>, cut: nat, addr: int, t: Tree)
    requires t.Node? && Storable(t) && |Encode(t)| < TWO64 && Has(data, addr, Encode(t))
    requires cut <= |data| && ReadNode(data[..cut], addr).Some?
    ensures addr + |Encode(t)| <= cut
    decreases t, 4
  {
    hide *;
    NodeHead(data, addr, t);
    ReadNodeSome(data[..cut], addr);
    ReadBeforeCut(data, cut, addr);
    var start := addr + |Uvarint(|t.items|)|;
    StorableItems(t);
    ItemsBeforeCut(data, cut, start, t.items, 0, Tail(t));
    var flag := start + |EncodeItems(t.items, 0)|;
    TailAt(data, flag, t);
    if t.split {
      QuadsBeforeCut(data, cut, flag + 1, t, 0);
    }
  }

  lemma {:induction false} QuadsBeforeCut(data: seq<Byte>, cut: nat, addr: int, t: Tree, q: nat)
    requires t.Node? && t.split && Storable(t) && |Encode(t)| < TWO64
    requires q <= 4 && Has(data, addr, EncodeQuads(t, q))
    requires addr <= cut <= |data| && ReadQuads(data[..cut], addr, q).Some?
    ensures addr + |EncodeQuads(t, q)| <= cut
    decreases t, 3, 4 - q
  {
    hide *;
    if q == 4 {
      QuadsEnd(data, addr, t);
    } else {
      var child := t.Quad(q);
      StorableQuad(t, q);
      ReadQuadsSome(data[..cut], addr, q);
      ReadBeforeCut(data, cut, addr);
      if child.Nil? {
        NoQuadHead(data, addr, t, q);
        QuadsBeforeCut(data, cut, addr + 1, t, q + 1);
      } else {
        QuadHead(data, addr, t, q);
        var start := addr + |Uvarint(|Encode(child)|)|;
        NodeBeforeCut(data, cut, start, child);
        QuadsBeforeCut(data, cut, start + |Encode(child)|, t, q + 1);
      }
    }
  }

  /** Of an array that holds a tree, the prefixes from which the tree can be read are exactly
      those that hold all of its bytes. */
  lemma CutIsRefused(data: seq<Byte>, cut: nat, addr: int, t: Tree)
    requires t.Node? && Storable(t) && |Encode(t)| < TWO64 && Has(data, addr, Encode(t)) && cut <= |data|
    ensures ReadNode(data[..cut], addr).Some? <==> addr + |Encode(t)| <= cut
  {
    hide Encode, ReadNode;
    if ReadNode(data[..cut], addr).Some? {
      NodeBeforeCut(data, cut, addr, t);
    }
    if addr + |Encode(t)| <= cut {
      assert data[..cut][addr..addr + |Encode(t)|] == data[addr..addr + |Encode(t)|];
      NodeRoundTrip(data[..cut], addr, t);
    }
  }

  // ---------- How long the bytes can be ----------

  /** No node is wasted: every child has an item, a split node more than a full unsplit one,
      and no node is below the depth limit. */
  ghost predicate Lean(depth: nat, t: Tree)
    decreases t
  {
    t.Node? ==>
      && depth <= MAX_DEPTH
      && (t.split ==> depth < MAX_DEPTH && |t.Items()| > MAX_ITEMS)
      && (forall q :: 0 <= q < 4 ==> Lean(depth + 1, t.Quad(q)) && (t.Quad(q).Node? ==> |t.Quad(q).Items()| > 0))
  }

  /** Thirteen times the bytes that one item can cost in a subtree at a depth: its own
      difference and node, and a thirteenth of every split node down to the depth limit. */
  function Cost(depth: nat): (c: nat)
    requires depth <= MAX_DEPTH
    ensures c >= 403
  {
    403 + 25 * (MAX_DEPTH - depth)
  }

  lemma {:induction false} ItemsLengthBound(items: seq<nat>, last: nat)
    ensures |EncodeItems(items, last)| <= 10 * |items|
  {
    if items == [] {
    } else {
      UvarintLength(U64(items[0] - last));
      ItemsLengthBound(items[1..], items[0]);
    }
  }

  /** How many items are below a node. */
  ghost function InQuads(t: Tree): nat
    requires t.Node?
  {
    |t.Quad(0).Items()| + |t.Quad(1).Items()| + |t.Quad(2).Items()| + |t.Quad(3).Items()|
  }

  lemma CountParts(t: Tree)
    requires t.Node?
    ensures |t.Items()| == |t.items| + InQuads(t)
  {
    PartsOfItems(t);
  }

  function QuadsLengthOf(t: Tree): nat
    requires t.Node?
  {
    if t.split then |EncodeChild(t.Quad(0))| + |EncodeChild(t.Quad(1))| + |EncodeChild(t.Quad(2))| + |EncodeChild(t.Quad(3))| else 0
  }

  lemma Distribute(c: nat, n0: nat, n1: nat, n2: nat, n3: nat)
    ensures c * (n0 + n1 + n2 + n3) == c * n0 + c * n1 + c * n2 + c * n3
    ensures c * n0 >= 0 && c * n1 >= 0 && c * n2 >= 0 && c * n3 >= 0
  {
  }

  lemma LeafCost(c: nat, n: nat, len: nat)
    requires c >= 403 && n > 0 && len <= 11 + 10 * n
    ensures 13 * (len + 10) <= c * n
  {
    Distribute(n, c - 403, 403, 0, 0);
  }

  lemma SplitCost(c: nat, k: nat, m: nat, len: nat, quads: nat)
    requires c >= 403 && k + m > MAX_ITEMS && len <= 11 + 10 * k + quads && 13 * quads <= 52 + c * m
    ensures 13 * (len + 10) <= (c + 25) * (k + m)
  {
    Distribute(c, k, m, 0, 0);
    Distribute(k, c - 403, 403, 0, 0);
    assert (c + 25) * (k + m) == c * (k + m) + 25 * (k + m);
  }

  lemma EncodeLength(t: Tree)
    requires t.Node?
    ensures |Encode(t)| == |Uvarint(U64(|t.items|))| + |EncodeItems(t.items, 0)| + 1 + QuadsLengthOf(t)
  {
    hide EncodeChild, EncodeItems, Uvarint;
    assert EncodeQuads(t, 4) == [];
    assert EncodeQuads(t, 2) == EncodeChild(t.Quad(2)) + EncodeQuads(t, 3);
    assert EncodeQuads(t, 0) == EncodeChild(t.Quad(0)) + EncodeQuads(t, 1);
  }

  /** The length of a node from the lengths of its parts. */
  lemma NodeLength(t: Tree)
    requires t.Node?
    ensures |Encode(t)| <= 11 + 10 * |t.items| + QuadsLengthOf(t)
  {
    hide *;
    ItemsLengthBound(t.items, 0);
    UvarintLength(U64(|t.items|));
    EncodeLength(t);
  }

  lemma LeanNode(depth: nat, t: Tree)
    requires t.Node? && Lean(depth, t)
    ensures depth <= MAX_DEPTH && (t.split ==> depth < MAX_DEPTH && |t.Items()| > MAX_ITEMS)
  {
  }

  lemma CostStep(depth: nat)
    requires depth < MAX_DEPTH
    ensures Cost(depth) == Cost(depth + 1) + 25
  {
  }

  lemma NoQuadsLength(t: Tree)
    requires t.Node? && !t.split
    ensures QuadsLengthOf(t) == 0
  {
  }

  /** How much a subtree with `n` items can cost, the bytes of its size included. */
  lemma {:induction false} LengthBound(depth: nat, t: Tree)
    requires t.Node? && Lean(depth, t)
    ensures depth <= MAX_DEPTH
    ensures if |t.Items()| == 0 then |Encode(t)| <= 11
            else 13 * (|Encode(t)| + 10) <= Cost(depth) * |t.Items()|
    decreases t, 1
  {
    LeanNode(depth, t);
    NodeLength(t);
    CountParts(t);
    if t.split {
      QuadsBound(depth, t);
      CostStep(depth);
      hide *;
      SplitCost(Cost(depth + 1), |t.items|, InQuads(t), |Encode(t)|, QuadsLengthOf(t));
    } else {
      NoQuadsLength(t);
      hide *;
      if |t.Items()| > 0 {
        LeafCost(Cost(depth), |t.Items()|, |Encode(t)|);
      }
    }
  }

  lemma {:induction false} QuadsBound(depth: nat, t: Tree)
    requires t.Node? && t.split && depth < MAX_DEPTH && Lean(depth, t)
    ensures 13 * QuadsLengthOf(t) <= 52 + Cost(depth + 1) * InQuads(t)
    decreases t, 0, 1
  {
    hide Encode, Tree.Items, Cost, EncodeChild, Tree.Quad;
    ChildLengthBound(depth + 1, t, 0);
    ChildLengthBound(depth + 1, t, 1);
    ChildLengthBound(depth + 1, t, 2);
    ChildLengthBound(depth + 1, t, 3);
    hide Lean;
    Distribute(Cost(depth + 1), |t.Quad(0).Items()|, |t.Quad(1).Items()|, |t.Quad(2).Items()|, |t.Quad(3).Items()|);
  }

  lemma {:induction false} ChildLengthBound(depth: nat, t: Tree, q: nat)
    requires t.Node? && q < 4 && depth <= MAX_DEPTH && Lean(depth, t.Quad(q))
    requires t.Quad(q).Node? ==> |t.Quad(q).Items()| > 0
    ensures 13 * |EncodeChild(t.Quad(q))| <= 13 + Cost(depth) * |t.Quad(q).Items()|
    decreases t, 0, 0
  {
    var child := t.Quad(q);
    if child.Node? {
      hide Encode, Cost, Lean, Tree.Items, Uvarint;
      UvarintLength(U64(|Encode(child)|));
      LengthBound(depth, child);
    } else {
      Distribute(Cost(depth), 0, 0, 0, 0);
    }
  }

  /** A quadtree grown by insertion wastes nothing. */
  lemma {:induction false} ShapedIsLean(mid: Midpoint, segs: seq<Segment>, bounds: Rect, depth: nat, t: Tree)
    requires Shaped(mid, segs, bounds, depth, t)
    ensures Lean(depth, t)
    decreases t
  {
    if t.Nil? {
    } else {
      hide ChooseQuad, QuadBounds, BoxOf, Tree.Items;
      forall q | 0 <= q < 4
        ensures Lean(depth + 1, t.Quad(q)) && (t.Quad(q).Node? ==> |t.Quad(q).Items()| > 0)
      {
        if t.split {
          assert QuadWell(mid, segs, bounds, depth, q, t.Quad(q));
          ShapedIsLean(mid, segs, QuadBounds(mid, bounds, q), depth + 1, t.Quad(q));
        }
      }
    }
  }

  /** Putting items in order changes neither the shape nor the counts. */
  lemma {:induction false} TidyIsLean(depth: nat, t: Tree)
    requires Lean(depth, t)
    ensures Lean(depth, Tidy(t))
    decreases t
  {
    hide Tree.Items, Tree.Quad, Tidy;
    if t.Node? {
      TidyNode(t);
      forall q | 0 <= q < 4
        ensures Lean(depth + 1, Tidy(t.Quad(q)))
      {
        TidyIsLean(depth + 1, t.Quad(q));
      }
    } else {
      assert Tidy(t).Nil?;
    }
  }

  lemma NilIsStorable(t: Tree)
    requires t.Nil?
    ensures Storable(t)
  {
  }

  lemma QuadsByField(t: Tree)
    requires t.Node?
    ensures t.q0 == t.Quad(0) && t.q1 == t.Quad(1) && t.q2 == t.Quad(2) && t.q3 == t.Quad(3)
  {
  }

  lemma SortedWithin(items: seq<nat>, n: nat)
    requires forall i :: i in items ==> i < n
    ensures forall i :: i in Sorted(items) ==> i < n
  {
    forall i | i in Sorted(items)
      ensures i in items
    {
      assert i in multiset(Sorted(items));
      assert i in multiset(items);
    }
  }

  lemma TidyStorableNode(t: Tree)
    requires t.Node? && (forall i :: i in t.items ==> i < TWO64)
    requires !t.split ==> forall q :: 0 <= q < 4 ==> t.Quad(q).Nil?
    requires forall q :: 0 <= q < 4 ==> Storable(if t.split then Tidy(t.Quad(q)) else t.Quad(q))
    ensures Storable(Tidy(t))
  {
    hide Tree.Items, Tree.Quad, Tidy;
    SortedWithin(t.items, TWO64);
    TidyNode(t);
    QuadsByField(Tidy(t));
  }

  lemma NoQuads(mid: Midpoint, segs: seq<Segment>, bounds: Rect, depth: nat, t: Tree)
    requires t.Node? && Shaped(mid, segs, bounds, depth, t) && !t.split
    ensures forall q :: 0 <= q < 4 ==> t.Quad(q).Nil?
  {
  }

  lemma QuadIsShaped(mid: Midpoint, segs: seq<Segment>, bounds: Rect, depth: nat, t: Tree, q: nat)
    requires t.Node? && Shaped(mid, segs, bounds, depth, t) && q < 4
    ensures Shaped(mid, segs, QuadBounds(mid, bounds, q), depth + 1, t.Quad(q))
  {
    if t.split {
      assert QuadWell(mid, segs, bounds, depth, q, t.Quad(q));
    }
  }

  /** A tidy tree of segment numbers can be stored. */
  lemma {:induction false} TidyIsStorable(mid: Midpoint, segs: seq<Segment>, bounds: Rect, depth: nat, t: Tree)
    requires Shaped(mid, segs, bounds, depth, t) && Within(t, TWO64)
    ensures Storable(Tidy(t))
    decreases t
  {
    if t.Node? {
      WithinParts(t, TWO64);
      hide Tree.Items, Tree.Quad, Tidy, Within, Shaped, SplitWell, QuadWell, QuadBounds, Storable;
      forall q | 0 <= q < 4
        ensures Storable(if t.split then Tidy(t.Quad(q)) else t.Quad(q))
      {
        if t.split {
          QuadIsShaped(mid, segs, bounds, depth, t, q);
          TidyIsStorable(mid, segs, QuadBounds(mid, bounds, q), depth + 1, t.Quad(q));
        } else {
          NoQuads(mid, segs, bounds, depth, t);
          NilIsStorable(t.Quad(q));
        }
      }
      if !t.split {
        NoQuads(mid, segs, bounds, depth, t);
      }
      TidyStorableNode(t);
    } else {
      NilIsStorable(Tidy(t));
    }
  }
}
