/** Facts about sequences that several modules need: sums that do not depend on order,
    and byte strings found at an address. */
module Sequences {

  function Sum<T>(f: T -> int, s: seq<T>): int {
    if s == [] then 0 else f(s[0]) + Sum(f, s[1..])
  }

  lemma {:induction false} SumConcat<T>(f: T -> int, a: seq<T>, b: seq<T>)
    ensures Sum(f, a + b) == Sum(f, a) + Sum(f, b)
  {
    if a == [] {
      assert a + b == b;
    } else {
      assert (a + b)[1..] == a[1..] + b;
      SumConcat(f, a[1..], b);
    }
  }

  lemma SumCons<T>(f: T -> int, x: T, s: seq<T>)
    ensures Sum(f, [x] + s) == f(x) + Sum(f, s)
  {
    assert ([x] + s)[1..] == s;
  }

  lemma SumSplit<T>(f: T -> int, s: seq<T>, i: nat)
    requires i < |s|
    ensures Sum(f, s) == Sum(f, s[..i] + s[i + 1..]) + f(s[i])
  {
    hide Sum;
    var before, after := s[..i], s[i + 1..];
    assert s == before + ([s[i]] + after);
    SumConcat(f, before, [s[i]] + after);
    SumCons(f, s[i], after);
    SumConcat(f, before, after);
  }

  lemma RemoveFromMultiset<T>(s: seq<T>, i: nat)
    requires i < |s|
    ensures multiset(s[..i] + s[i + 1..]) == multiset(s) - multiset{s[i]}
  {
    assert s == s[..i] + ([s[i]] + s[i + 1..]);
  }

  /** Rearranging a sequence keeps its sum. */
  lemma {:induction false} SumPermutation<T>(f: T -> int, a: seq<T>, b: seq<T>)
    requires multiset(a) == multiset(b)
    ensures Sum(f, a) == Sum(f, b)
    decreases |a|
  {
    if a == [] {
      assert |multiset(b)| == 0;
    } else {
      assert a[0] in multiset(b);
      var i :| 0 <= i < |b| && b[i] == a[0];
      SumSplit(f, b, i);
      RemoveFromMultiset(b, i);
      assert a == [a[0]] + a[1..];
      assert multiset(a[1..]) == multiset(a) - multiset{a[0]};
      SumPermutation(f, a[1..], b[..i] + b[i + 1..]);
    }
  }

  // ---------- Sorting ----------

  predicate Ascending(s: seq<nat>) {
    |s| <= 1 || (s[0] <= s[1] && Ascending(s[1..]))
  }

  function Place(x: nat, s: seq<nat>): (r: seq<nat>)
    requires Ascending(s)
    ensures Ascending(r) && multiset(r) == multiset(s) + multiset{x} && |r| == |s| + 1
    ensures r[0] == if s == [] || x <= s[0] then x else s[0]
  {
    if s == [] || x <= s[0] then
      assert ([x] + s)[1..] == s;
      [x] + s
    else
      var rest := Place(x, s[1..]);
      assert s == [s[0]] + s[1..];
      assert ([s[0]] + rest)[1..] == rest;
      [s[0]] + rest
  }

  lemma {:induction false} AscendingMeans(s: seq<nat>)
    ensures Ascending(s) <==> forall i, j :: 0 <= i < j < |s| ==> s[i] <= s[j]
  {
    if |s| <= 1 {
    } else {
      AscendingMeans(s[1..]);
      assert Ascending(s) ==> s[0] <= s[1];
      assert forall i :: 0 <= i < |s| - 1 ==> s[1..][i] == s[i + 1];
      if Ascending(s) {
        forall i, j | 0 <= i < j < |s|
          ensures s[i] <= s[j]
        {
          assert s[1..][0] <= s[1..][j - 1];
          assert i > 0 ==> s[1..][i - 1] <= s[1..][j - 1];
        }
      }
      if forall i, j :: 0 <= i < j < |s| ==> s[i] <= s[j] {
        forall i, j | 0 <= i < j < |s[1..]|
          ensures s[1..][i] <= s[1..][j]
        {
          assert s[i + 1] <= s[j + 1];
        }
      }
    }
  }

  /** The result of a library sort of integers. */
  function Sorted(s: seq<nat>): (r: seq<nat>)
    ensures Ascending(r) && multiset(r) == multiset(s) && |r| == |s|
  {
    if s == [] then []
    else
      assert s == [s[0]] + s[1..];
      Place(s[0], Sorted(s[1..]))
  }

  lemma {:induction false} FirstIsLeast(s: seq<nat>, x: nat)
    requires Ascending(s) && x in s
    ensures s[0] <= x
  {
    if x == s[0] {
    } else {
      assert x in s[1..];
      FirstIsLeast(s[1..], x);
    }
  }

  lemma SameFirst(a: seq<nat>, b: seq<nat>)
    requires Ascending(a) && Ascending(b) && multiset(a) == multiset(b) && a != [] && b != []
    ensures a[0] == b[0]
  {
    assert a[0] in multiset(b) && b[0] in multiset(a);
    FirstIsLeast(a, b[0]);
    FirstIsLeast(b, a[0]);
  }

  lemma RestOf<T>(s: seq<T>)
    requires s != []
    ensures s == [s[0]] + s[1..] && multiset(s[1..]) == multiset(s) - multiset{s[0]}
  {
  }

  /** There is only one way to put a multiset in order. */
  lemma {:induction false} AscendingUnique(a: seq<nat>, b: seq<nat>)
    requires Ascending(a) && Ascending(b) && multiset(a) == multiset(b)
    ensures a == b
  {
    if a == [] || b == [] {
      assert |a| == |multiset(a)| == |multiset(b)| == |b|;
    } else {
      SameFirst(a, b);
      RestOf(a);
      RestOf(b);
      AscendingUnique(a[1..], b[1..]);
    }
  }

  // ---------- Bytes at an address ----------

  type Byte = x: int | 0 <= x < 256

  /** The byte string `bytes` stands in `data` at `addr`. */
  predicate Has(data: seq<Byte>, addr: int, bytes: seq<Byte>) {
    0 <= addr && addr + |bytes| <= |data| && data[addr..addr + |bytes|] == bytes
  }

  lemma HasConcat(data: seq<Byte>, addr: int, a: seq<Byte>, b: seq<Byte>)
    ensures Has(data, addr, a + b) <==> Has(data, addr, a) && Has(data, addr + |a|, b)
  {
    if 0 <= addr && addr + |a| + |b| <= |data| {
      var both := data[addr..addr + |a| + |b|];
      assert both == data[addr..addr + |a|] + data[addr + |a|..addr + |a| + |b|];
      assert both[..|a|] == data[addr..addr + |a|] && both[|a|..] == data[addr + |a|..addr + |a| + |b|];
      assert (a + b)[..|a|] == a && (a + b)[|a|..] == b;
    }
  }

  lemma HasAt(data: seq<Byte>, addr: int, bytes: seq<Byte>, i: nat)
    requires Has(data, addr, bytes) && i < |bytes|
    ensures data[addr + i] == bytes[i]
  {
  }

  lemma HasInside(before: seq<Byte>, bytes: seq<Byte>, after: seq<Byte>)
    ensures Has(before + bytes + after, |before|, bytes)
  {
  }
}
