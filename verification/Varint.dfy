/** Unsigned LEB128 integers (section 7.6 of DWARF Version 5), as the index stores them. */
module Varint {
  import opened Sequences

  const TWO64: int := 0x1_0000_0000_0000_0000

  /** The conversion to a 64-bit unsigned integer. */
  function U64(x: int): (r: nat)
    ensures r < TWO64
    ensures 0 <= x < TWO64 ==> r == x
  {
    x % TWO64
  }

  /** Seven bits a byte, least significant first; all bytes but the last carry the high bit. */
  function Uvarint(x: nat): (r: seq<Byte>)
    ensures |r| >= 1
  {
    if x < 0x80 then [x] else [x % 0x80 + 0x80] + Uvarint(x / 0x80)
  }

  /** The loop of PutUvarint, into a buffer that starts empty. */
  method PutUvarint(value: nat) returns (buffer: seq<Byte>)
    ensures buffer == Uvarint(value)
  {
    var x := value;
    buffer := [];
    while x >= 0x80
      invariant buffer + Uvarint(x) == Uvarint(value)
      decreases x
    {
      buffer := buffer + [x % 0x80 + 0x80];
      x := x / 0x80;
    }
    buffer := buffer + [x];
  }

  method AppendUvarint(dst: seq<Byte>, x: nat) returns (r: seq<Byte>)
    requires x < TWO64
    ensures r == dst + Uvarint(x)
  {
    if x < 0x80 {
      return dst + [x];
    }
    var data := PutUvarint(x);
    return dst + data;
  }

  // ---------- Reading ----------

  predicate ReadableFrom(data: seq<Byte>, addr: int, k: nat)
    decreases 10 - k
  {
    0 <= addr < |data| && (data[addr] < 0x80 || k >= 9 || ReadableFrom(data, addr + 1, k + 1))
  }

  /** The bytes from `addr` on hold a terminated integer, or ten continuation bytes, within
      the array: what a read needs in order not to run off the end. */
  predicate Readable(data: seq<Byte>, addr: int) {
    ReadableFrom(data, addr, 0)
  }

  /** What the bytes from `addr` on denote: the number without any width limit, and the
      address just past it, or -1 after ten continuation bytes. */
  function Leb(data: seq<Byte>, addr: int, k: nat): (r: (nat, int))
    requires ReadableFrom(data, addr, k)
    ensures r.1 == -1 || addr < r.1 <= |data|
    decreases 10 - k
  {
    if data[addr] < 0x80 then (data[addr], addr + 1)
    else if k >= 9 then (0, -1)
    else
      var (rest, next) := Leb(data, addr + 1, k + 1);
      if next == -1 then (0, -1) else (data[addr] - 0x80 + 0x80 * rest, next)
  }

  /** What a read at `addr` answers: the number modulo 2^64 and the next address. */
  function Read(data: seq<Byte>, addr: int): (r: (nat, int))
    requires Readable(data, addr)
  {
    var (x, next) := Leb(data, addr, 0);
    (U64(x), next)
  }

  function Pow2(s: nat): (r: nat)
    ensures r > 0
  {
    if s == 0 then 1 else 2 * Pow2(s - 1)
  }

  /** The shift of a 64-bit integer to the left: bits pushed out of the word are lost. */
  function ShiftLeft(b: nat, s: nat): nat {
    U64(b * Pow2(s))
  }

  /** The bitwise or of two numbers, from the lowest bit up. */
  function Or(x: nat, y: nat): nat
    decreases x
  {
    if x == 0 then y
    else if y == 0 then x
    else (if x % 2 == 1 || y % 2 == 1 then 1 else 0) + 2 * Or(x / 2, y / 2)
  }

  lemma HalfOfMultiple(high: nat, p: nat)
    ensures high * (2 * p) == 2 * (high * p)
  {
  }

  lemma OrStep(low: nat, half: nat)
    ensures Or(low / 2, half) == low / 2 + half ==> Or(low, 2 * half) == low + 2 * half
  {
  }

  /** A number below 2^s and a multiple of 2^s have no common bits: `|` adds them. */
  lemma {:induction false} OrIsPlus(low: nat, high: nat, s: nat)
    requires low < Pow2(s)
    ensures Or(low, high * Pow2(s)) == low + high * Pow2(s)
  {
    if s == 0 {
    } else {
      HalfOfMultiple(high, Pow2(s - 1));
      OrIsPlus(low / 2, high, s - 1);
      OrStep(low, high * Pow2(s - 1));
    }
  }

  /** The low `s` bits put in front of what the rest of the bytes denote. */
  function Prepend(low: nat, s: nat, rest: (nat, int)): (nat, int) {
    if rest.1 == -1 then (0, -1) else (low + Pow2(s) * rest.0, rest.1)
  }

  /** Midway through a read: `k` bytes are behind, their bits are in `item`, and `item`
      put in front of the rest is what all the bytes denote. */
  ghost predicate Reading(data: seq<Byte>, start: int, addr: int, item: nat, k: nat) {
    && 1 <= k <= 9 && Readable(data, start)
    && ReadableFrom(data, addr, k)
    && item < Pow2(7 * k)
    && Leb(data, start, 0) == Prepend(item, 7 * k, Leb(data, addr, k))
  }

  lemma FirstByte(data: seq<Byte>, start: int)
    requires Readable(data, start) && data[start] >= 0x80
    ensures start + 1 < |data| && Reading(data, start, start + 1, data[start] - 0x80, 1)
  {
  }

  lemma PowStep(k: nat)
    ensures Pow2(7 * k + 7) == 0x80 * Pow2(7 * k)
  {
    var s := 7 * k;
    assert Pow2(s + 7) == 2 * Pow2(s + 6) && Pow2(s + 6) == 2 * Pow2(s + 5) && Pow2(s + 5) == 2 * Pow2(s + 4);
    assert Pow2(s + 4) == 2 * Pow2(s + 3) && Pow2(s + 3) == 2 * Pow2(s + 2) && Pow2(s + 2) == 2 * Pow2(s + 1);
  }

  lemma {:induction false} PowGrows(s: nat, t: nat)
    requires s <= t
    ensures Pow2(s) <= Pow2(t)
    decreases t
  {
    if s == t {
    } else {
      PowGrows(s, t - 1);
    }
  }

  lemma PowZero()
    ensures Pow2(0) == 1
  {
  }

  lemma PowByte(s: nat)
    ensures Pow2(s + 8) == 0x100 * Pow2(s)
  {
    assert Pow2(s + 8) == 2 * Pow2(s + 7) && Pow2(s + 7) == 2 * Pow2(s + 6) && Pow2(s + 6) == 2 * Pow2(s + 5);
    assert Pow2(s + 5) == 2 * Pow2(s + 4) && Pow2(s + 4) == 2 * Pow2(s + 3) && Pow2(s + 3) == 2 * Pow2(s + 2);
    assert Pow2(s + 2) == 2 * Pow2(s + 1);
  }

  lemma PowBytes()
    ensures Pow2(8) == 0x100 && Pow2(16) == 0x1_0000 && Pow2(24) == 0x100_0000
  {
    PowByte(0);
    PowByte(8);
    PowByte(16);
  }

  lemma Pow63()
    ensures Pow2(63) == 0x8000_0000_0000_0000
  {
    hide Pow2;
    PowZero();
    PowStep(0);
    PowStep(1);
    PowStep(2);
    PowStep(3);
    assert Pow2(28) == 0x1000_0000;
    PowStep(4);
    PowStep(5);
    PowStep(6);
    PowStep(7);
    PowStep(8);
  }

  lemma PowBound(k: nat)
    requires k <= 9
    ensures Pow2(7 * k) <= 0x8000_0000_0000_0000
    ensures k == 9 ==> Pow2(7 * k) == 0x8000_0000_0000_0000
    ensures k < 9 ==> 0x80 * Pow2(7 * k) <= 0x8000_0000_0000_0000
  {
    hide Pow2;
    Pow63();
    PowGrows(7 * k, 63);
    if k < 9 {
      PowStep(k);
      PowGrows(7 * k + 7, 63);
    }
  }

  lemma NothingLost(item: nat, product: nat, p: nat)
    requires item < p && product <= 0x7f * p && 0x80 * p <= 0x8000_0000_0000_0000
    ensures item + product < 0x80 * p
    ensures U64(product) == product && U64(item + product) == item + product
  {
  }

  lemma ProductAtMost(p: nat, b: nat, c: nat)
    requires b <= c
    ensures p * b == b * p <= c * p
  {
  }

  lemma U64Is(x: int, q: int, r: int)
    requires x == q * TWO64 + r && 0 <= r < TWO64
    ensures U64(x) == r
  {
  }

  lemma TopBitsLost(item: nat, b: nat)
    requires item < 0x8000_0000_0000_0000
    ensures U64(b * 0x8000_0000_0000_0000) == b % 2 * 0x8000_0000_0000_0000
    ensures U64(item + 0x8000_0000_0000_0000 * b) == item + b % 2 * 0x8000_0000_0000_0000
  {
    var half, odd := b / 2, b % 2;
    U64Is(b * 0x8000_0000_0000_0000, half, odd * 0x8000_0000_0000_0000);
    U64Is(item + 0x8000_0000_0000_0000 * b, half, item + odd * 0x8000_0000_0000_0000);
  }

  /** The first nine bytes fit in the word, and the tenth can push bits out of it. */
  lemma EarlyShift(item: nat, b: nat, p: nat)
    requires b * p <= 0x7f * p && item < p && 0x80 * p <= 0x8000_0000_0000_0000
    ensures U64(b * p) == b * p && U64(item + p * b) == item + b * p == item + p * b < 0x80 * p
  {
    hide U64;
    NothingLost(item, b * p, p);
  }

  /** Only the tenth byte can push bits out of the word, and then the whole sum is taken
      modulo 2^64.  No bit of `item` is at or above `s`, so `|` adds. */
  lemma ShiftFits(item: nat, b: nat, k: nat)
    requires 1 <= k <= 9 && b < 0x80 && item < Pow2(7 * k)
    ensures Or(item, ShiftLeft(b, 7 * k)) == U64(item + Pow2(7 * k) * b)
    ensures k < 9 ==> Or(item, ShiftLeft(b, 7 * k)) == item + Pow2(7 * k) * b < Pow2(7 * k + 7)
  {
    PowBound(k);
    PowStep(k);
    hide Pow2, U64, Or;
    if k < 9 {
      ProductAtMost(Pow2(7 * k), b, 0x7f);
      EarlyShift(item, b, Pow2(7 * k));
      OrIsPlus(item, b, 7 * k);
    } else {
      TopBitsLost(item, b);
      OrIsPlus(item, b % 2, 7 * k);
    }
  }

  lemma PrependTwice(item: nat, low: nat, k: nat, rest: (nat, int))
    ensures Prepend(item, 7 * k, (low + 0x80 * rest.0, rest.1)) ==
            Prepend(item + Pow2(7 * k) * low, 7 * k + 7, rest)
  {
    PowStep(k);
    var p := Pow2(7 * k);
    assert p * (low + 0x80 * rest.0) == p * low + (0x80 * p) * rest.0;
  }

  /** A middle byte moves seven bits from the rest into `item`; a tenth byte with the high
      bit set means the number is refused. */
  lemma MiddleByte(data: seq<Byte>, start: int, addr: int, item: nat, k: nat)
    requires Reading(data, start, addr, item, k) && 0 <= addr < |data| && data[addr] >= 0x80
    ensures k < 9 ==> addr + 1 < |data|
    ensures k < 9 ==> Reading(data, start, addr + 1, Or(item, ShiftLeft(data[addr] - 0x80, 7 * k)), k + 1)
    ensures k == 9 ==> Readable(data, start) && Read(data, start) == (0, -1)
  {
    hide Pow2, ShiftLeft;
    if k < 9 {
      ShiftFits(item, data[addr] - 0x80, k);
      PrependTwice(item, data[addr] - 0x80, k, Leb(data, addr + 1, k + 1));
    }
  }

  lemma PrependByte(item: nat, k: nat, b: nat, next: int)
    requires next != -1
    ensures Prepend(item, 7 * k, (b, next)) == (item + Pow2(7 * k) * b, next)
  {
  }

  lemma LastByte(data: seq<Byte>, start: int, addr: int, item: nat, k: nat)
    requires Reading(data, start, addr, item, k) && 0 <= addr < |data| && data[addr] < 0x80
    ensures Readable(data, start) && Read(data, start) == (Or(item, ShiftLeft(data[addr], 7 * k)), addr + 1)
  {
    hide Pow2, U64, ShiftLeft, Prepend;
    ShiftFits(item, data[addr], k);
    PrependByte(item, k, data[addr], addr + 1);
  }

  /** The loop of readUvarint. */
  method ReadUvarint(data: seq<Byte>, start: int) returns (value: nat, addr: int)
    requires Readable(data, start)
    ensures (value, addr) == Read(data, start)
  {
    var item: nat := data[start];
    addr := start + 1;
    if item < 0x80 {
      return item, addr;
    }
    hide *;
    item := item - 0x80;
    var s := 7;
    ghost var k: nat := 1;
    FirstByte(data, start);
    while true
      invariant 1 <= k <= 9 && s == 7 * k && 0 <= addr < |data|
      invariant Reading(data, start, addr, item, k)
      decreases 10 - k
    {
      var b := data[addr];
      if b < 0x80 {
        LastByte(data, start, addr, item, k);
        addr := addr + 1;
        return Or(item, ShiftLeft(b, s)), addr;
      }
      MiddleByte(data, start, addr, item, k);
      addr := addr + 1;
      item := Or(item, ShiftLeft(b - 0x80, s));
      s := s + 7;
      if s == 70 {
        return 0, -1;
      }
      k := k + 1;
    }
  }

  // ---------- Which bytes ----------

  lemma Divides(x: nat, d: nat, q: nat, r: nat)
    requires x == d * q + r && r < d
    ensures x / d == q && x % d == r
  {
    var q', r' := x / d, x % d;
    assert d * (q' - q) == r - r';
    if q' > q {
      ProductAtMost(d, 1, q' - q);
    } else if q' < q {
      ProductAtMost(d, 1, q - q');
    }
  }

  lemma Distributes(x: nat, y: nat, z: nat)
    ensures x * (y + z) == x * y + x * z
  {
  }

  lemma Associates(x: nat, y: nat, z: nat)
    ensures x * (y * z) == (x * y) * z
  {
  }

  /** A quotient taken apart once more. */
  lemma NestedParts(x: nat, a: nat, b: nat, y: nat, r: nat, z: nat, s: nat)
    requires x == a * y + r && r < a && y == b * z + s && s < b
    ensures x == (a * b) * z + (a * s + r) && a * s + r < a * b
  {
    Distributes(a, b * z, s);
    Associates(a, b, z);
    ProductAtMost(a, s, b - 1);
    Distributes(a, b - 1, 1);
  }

  /** Dividing twice is dividing by the product. */
  lemma DivideTwice(x: nat, a: nat, b: nat)
    requires a > 0 && b > 0
    ensures a * b > 0 && x / (a * b) == x / a / b
  {
    var y, r := x / a, x % a;
    var z, s := y / b, y % b;
    NestedParts(x, a, b, y, r, z, s);
    Divides(x, a * b, z, a * s + r);
  }

  /** Digit number `i` to the base 128. */
  function Digit(x: nat, i: nat): nat {
    x / Pow2(7 * i) % 0x80
  }

  lemma QuotientMoves(low: nat, rest: nat, p: nat)
    requires low < 0x80 && p > 0
    ensures 0x80 * p > 0 && (low + 0x80 * rest) / (0x80 * p) == rest / p
  {
    var x := low + 0x80 * rest;
    Divides(x, 0x80, rest, low);
    DivideTwice(x, 0x80, p);
  }

  /** Seven bits in front of a number move its digits up by one. */
  lemma PutInFront(low: nat, rest: nat, i: nat)
    requires low < 0x80
    ensures Digit(low + 0x80 * rest, i) == if i == 0 then low else Digit(rest, i - 1)
  {
    if i == 0 {
      PowZero();
      hide Pow2;
      Divides(low + 0x80 * rest, 0x80, rest, low);
    } else {
      PowStep(i - 1);
      hide Pow2;
      QuotientMoves(low, rest, Pow2(7 * (i - 1)));
    }
  }

  lemma UvarintOne(x: nat)
    requires x < 0x80
    ensures Uvarint(x) == [x]
  {
  }

  lemma UvarintMore(x: nat)
    requires x >= 0x80
    ensures Uvarint(x) == [x % 0x80 + 0x80] + Uvarint(x / 0x80)
    ensures x == x % 0x80 + 0x80 * (x / 0x80)
  {
  }

  lemma DigitZero(x: nat)
    ensures Digit(x, 0) == x % 0x80
  {
    PowZero();
  }

  lemma {:induction false} UvarintByte(x: nat, i: nat)
    requires i < |Uvarint(x)|
    ensures Uvarint(x)[i] == Digit(x, i) + if i < |Uvarint(x)| - 1 then 0x80 else 0
    decreases i
  {
    hide Uvarint, Digit;
    DigitZero(x);
    if x < 0x80 {
      UvarintOne(x);
    } else {
      UvarintMore(x);
      if i > 0 {
        UvarintByte(x / 0x80, i - 1);
        PutInFront(x % 0x80, x / 0x80, i);
      }
    }
  }

  /** Byte number `i` holds the seven bits from 7 * i on, and all bytes but the last have the
      high bit. */
  lemma UvarintDigits(x: nat, i: nat)
    requires i < |Uvarint(x)|
    ensures Uvarint(x)[i] == x / Pow2(7 * i) % 0x80 + if i < |Uvarint(x)| - 1 then 0x80 else 0
  {
    hide Uvarint;
    UvarintByte(x, i);
  }

  /** The bytes are as few as the number allows: the last of several is not zero. */
  lemma {:induction false} UvarintRange(x: nat)
    ensures x < Pow2(7 * |Uvarint(x)|)
    ensures |Uvarint(x)| > 1 ==> Pow2(7 * (|Uvarint(x)| - 1)) <= x
  {
    PowZero();
    PowStep(0);
    if x < 0x80 {
    } else {
      var n := |Uvarint(x / 0x80)|;
      UvarintRange(x / 0x80);
      PowStep(n);
      PowStep(n - 1);
      hide Pow2;
    }
  }

  /** A positive number takes `n` bytes exactly when it has more than 7 * (n - 1) bits and no
      more than 7 * n. */
  lemma UvarintIsShortest(x: nat, n: nat)
    requires x > 0 && n > 0
    ensures |Uvarint(x)| == n <==> Pow2(7 * (n - 1)) <= x < Pow2(7 * n)
  {
    PowZero();
    UvarintRange(x);
    var m := |Uvarint(x)|;
    hide Pow2, Uvarint;
    if m < n {
      PowGrows(7 * m, 7 * (n - 1));
    } else if n < m {
      PowGrows(7 * n, 7 * (m - 1));
    }
  }

  lemma OneMoreDigit(low: nat, rest: nat, m: nat)
    requires low < 0x80 && rest < Pow2(7 * m)
    ensures low + 0x80 * rest < Pow2(7 * (m + 1))
  {
    PowStep(m);
    hide Pow2;
  }

  lemma OneDigit(x: nat)
    requires x < 0x80
    ensures x < Pow2(7 * 1) && Digit(x, 0) == x
  {
    PowStep(0);
  }

  lemma LebOne(data: seq<Byte>, addr: int, k: nat)
    requires ReadableFrom(data, addr, k) && data[addr] < 0x80
    ensures Leb(data, addr, k) == (data[addr], addr + 1)
  {
  }

  lemma LebMore(data: seq<Byte>, addr: int, k: nat)
    requires ReadableFrom(data, addr, k) && data[addr] >= 0x80 && Leb(data, addr, k).1 != -1
    ensures k < 9 && ReadableFrom(data, addr + 1, k + 1)
    ensures var (rest, next) := Leb(data, addr + 1, k + 1);
      next != -1 && Leb(data, addr, k) == (data[addr] - 0x80 + 0x80 * rest, next)
  {
  }

  /** The number that some bytes denote: it has the seven low bits of each as its digits, and
      only the last byte lacks the high bit. */
  ghost predicate Denotes(bytes: seq<Byte>, x: nat) {
    && bytes != [] && x < Pow2(7 * |bytes|)
    && forall i :: 0 <= i < |bytes| ==>
         Digit(x, i) == bytes[i] % 0x80 && (bytes[i] < 0x80 <==> i == |bytes| - 1)
  }

  lemma DenotesOne(b: Byte)
    requires b < 0x80
    ensures Denotes([b], b)
  {
    OneDigit(b);
    hide Digit, Pow2;
  }

  lemma DenotesMore(b: Byte, bytes: seq<Byte>, rest: nat)
    requires b >= 0x80 && Denotes(bytes, rest)
    ensures Denotes([b] + bytes, b - 0x80 + 0x80 * rest)
  {
    hide Digit, Pow2;
    var low, all := b - 0x80, [b] + bytes;
    OneMoreDigit(low, rest, |bytes|);
    forall i | 0 <= i < |all|
      ensures Digit(low + 0x80 * rest, i) == all[i] % 0x80 && (all[i] < 0x80 <==> i == |all| - 1)
    {
      PutInFront(low, rest, i);
      assert i > 0 ==> all[i] == bytes[i - 1];
    }
  }

  /** Whatever the bytes, what is read is the number that they denote. */
  lemma {:induction false} LebDenotes(data: seq<Byte>, addr: int, k: nat)
    requires ReadableFrom(data, addr, k) && Leb(data, addr, k).1 != -1
    ensures var (x, next) := Leb(data, addr, k);
      addr < next <= |data| && Denotes(data[addr..next], x)
    decreases 10 - k
  {
    hide Leb, Denotes;
    if data[addr] < 0x80 {
      LebOne(data, addr, k);
      DenotesOne(data[addr]);
      assert data[addr..addr + 1] == [data[addr]];
    } else {
      LebMore(data, addr, k);
      LebDenotes(data, addr + 1, k + 1);
      var (rest, next) := Leb(data, addr + 1, k + 1);
      assert data[addr..next] == [data[addr]] + data[addr + 1..next];
      DenotesMore(data[addr], data[addr + 1..next], rest);
    }
  }

  // ---------- Round trip ----------

  lemma SmallerPrefix(x: nat, p: nat)
    requires x >= 0x80
    ensures x * p >= 0x80 * p
    ensures (x / 0x80) * (0x80 * p) <= x * p
  {
  }

  /** `k` bytes of seven bits are already behind. */
  lemma {:induction false} LengthWithin(x: nat, k: nat)
    requires k <= 9 && x * Pow2(7 * k) < TWO64
    ensures |Uvarint(x)| <= 10 - k
    decreases 10 - k
  {
    PowBound(k);
    if x < 0x80 {
    } else {
      PowStep(k);
      SmallerPrefix(x, Pow2(7 * k));
      if k < 9 {
        LengthWithin(x / 0x80, k + 1);
      }
    }
  }

  /** A 64-bit number takes at most ten bytes. */
  lemma UvarintLength(x: nat)
    requires x < TWO64
    ensures |Uvarint(x)| <= 10
  {
    LengthWithin(x, 0);
  }

  /** Wherever the bytes of `x` stand, they can be read, and denote `x` and their own end. */
  lemma {:induction false} UvarintDenotes(data: seq<Byte>, addr: int, x: nat, k: nat)
    requires Has(data, addr, Uvarint(x)) && k + |Uvarint(x)| <= 10
    ensures ReadableFrom(data, addr, k)
    ensures Leb(data, addr, k) == (x, addr + |Uvarint(x)|)
    decreases x
  {
    HasAt(data, addr, Uvarint(x), 0);
    if x < 0x80 {
    } else {
      HasConcat(data, addr, [x % 0x80 + 0x80], Uvarint(x / 0x80));
      UvarintDenotes(data, addr + 1, x / 0x80, k + 1);
    }
  }

  /** The round trip: at any offset and with any suffix, the encoding of a 64-bit number is
      read back, together with the address just past it. */
  lemma UvarintRoundTrip(before: seq<Byte>, x: nat, after: seq<Byte>)
    requires x < TWO64
    ensures var data := before + Uvarint(x) + after;
      Readable(data, |before|) && Read(data, |before|) == (x, |before| + |Uvarint(x)|)
  {
    HasInside(before, Uvarint(x), after);
    UvarintLength(x);
    UvarintDenotes(before + Uvarint(x) + after, |before|, x, 0);
  }

  /** Ten continuation bytes are refused. */
  lemma {:induction false} OverlongRefused(data: seq<Byte>, addr: nat, k: nat)
    requires k <= 9 && addr + 10 - k <= |data|
    requires forall i :: addr <= i < addr + 10 - k ==> data[i] >= 0x80
    ensures ReadableFrom(data, addr, k) && Leb(data, addr, k) == (0, -1)
    decreases 10 - k
  {
    if k == 9 {
    } else {
      OverlongRefused(data, addr + 1, k + 1);
    }
  }
}
