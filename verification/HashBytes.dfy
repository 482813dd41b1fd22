/** What the hash of a value is computed from: FNV-1a over a type, then the bytes of a string or of a number. */
module HashBytes {
  import opened Text
  import opened Dom
  import opened Hashes
  import opened Likeness

  // -------------------------------------------------------------- One byte

  /** The multiplier is odd: no two hashes are taken to one. */
  lemma CombineInjective(g: Hash, h: Hash, c: Hash, d: Hash)
    ensures Combine(g, d) == Combine(h, d) ==> g == h
    ensures Combine(h, c) == Combine(h, d) ==> c == d
  {
    hide Xor, Times;
    TimesInjective(Xor(g, d), Xor(h, d));
    TimesInjective(Xor(h, c), Xor(h, d));
    XorInjective(g, h, d);
    XorInjective(c, d, h);
  }

  lemma TimesInjective(x: Hash, y: Hash)
    ensures Times(x) == Times(y) ==> x == y
  {
    if Times(x) == Times(y) {
      calc {
        x * 0x0000_0100_0000_01B3;
        Times(x);
        Times(y);
        y * 0x0000_0100_0000_01B3;
      }
      OddFactor(x, y);
    }
  }

  lemma OddFactor(x: Hash, y: Hash)
    ensures x * 0x0000_0100_0000_01B3 == y * 0x0000_0100_0000_01B3 ==> x == y
  {}

  lemma XorInjective(a: Hash, b: Hash, c: Hash)
    ensures Xor(a, c) == Xor(b, c) ==> a == b
    ensures Xor(c, a) == Xor(c, b) ==> a == b
  {}

  /** One step of FNV-1a: exclusive or, then a multiplication by the FNV prime. */
  lemma CombineIs(h: Hash, d: Hash)
    ensures Combine(h, d) == Times(h ^ d)
    ensures Times(h) == h * 0x0000_0100_0000_01B3
  {
    XorIs(h, d);
    TimesIs(h);
    hide Xor, Times;
  }

  lemma TimesIs(h: Hash)
    ensures Times(h) == h * 0x0000_0100_0000_01B3
  {}

  lemma XorIs(h: Hash, d: Hash)
    ensures Xor(h, d) == h ^ d
  {}

  /** Nothing read leaves the hash as it is, and one byte more is combined with it. */
  lemma {:induction false} BufferHashLast(h: Hash, data: seq<Byte>, d: Byte)
    ensures BufferHash(h, []) == h
    ensures BufferHash(h, data + [d]) == Combine(BufferHash(h, data), Wide(d))
    decreases data
  {
    hide Combine, Wide;
    if data == [] {
      assert data + [d] == [d] && [d][1..] == [];
    } else {
      assert (data + [d])[0] == data[0] && (data + [d])[1..] == data[1..] + [d];
      BufferHashLast(Combine(h, Wide(data[0])), data[1..], d);
    }
  }

  lemma {:induction false} StartMatters(g: Hash, h: Hash, data: seq<Byte>)
    ensures BufferHash(g, data) == BufferHash(h, data) ==> g == h
    decreases data
  {
    hide Combine, Wide;
    if data != [] {
      StartMatters(Combine(g, Wide(data[0])), Combine(h, Wide(data[0])), data[1..]);
      CombineInjective(g, h, 0, Wide(data[0]));
    }
  }

  lemma WideIs(c: Byte)
    ensures Wide(c) == c as bv64
  {}

  /** Data that differs in exactly one byte, compared as the words that are combined, has different hashes. */
  lemma {:induction false} OneByteMatters(h: Hash, data: seq<Byte>, i: nat, d: Byte)
    requires i < |data| && d as bv64 != data[i] as bv64
    ensures BufferHash(h, data[i := d]) != BufferHash(h, data)
    decreases i
  {
    hide Combine, Wide;
    var other := data[i := d];
    if i == 0 {
      assert other[1..] == data[1..];
      WideIs(d);
      WideIs(data[0]);
      CombineInjective(h, h, Wide(d), Wide(data[0]));
      StartMatters(Combine(h, Wide(d)), Combine(h, Wide(data[0])), data[1..]);
    } else {
      assert other[1..] == data[1..][i - 1 := d] && other[0] == data[0];
      OneByteMatters(Combine(h, Wide(data[0])), data[1..], i - 1, d);
    }
  }

  // ---------------------------------------------------------------- Numbers

  function Pow256(k: nat): (p: nat)
    ensures p > 0
  {
    if k == 0 then 1 else 256 * Pow256(k - 1)
  }

  /** The number whose bytes these are, lowest first. */
  function FromBytes(s: seq<Byte>): nat {
    if s == [] then 0 else s[0] + 256 * FromBytes(s[1..])
  }

  lemma {:induction false} LittleEndianIs(n: nat, count: nat)
    ensures |LittleEndian(n, count)| == count
    ensures n < Pow256(count) ==> FromBytes(LittleEndian(n, count)) == n
    decreases count
  {
    if count > 0 {
      LittleEndianIs(n / 256, count - 1);
      assert ([n % 256] + LittleEndian(n / 256, count - 1))[1..] == LittleEndian(n / 256, count - 1);
    }
  }

  /** The exponent of the highest power of two in `a`. */
  lemma {:induction false} Log2Is(a: nat)
    requires a > 0
    ensures Pow2(Log2(a)) <= a < Pow2(Log2(a) + 1)
    decreases a
  {
    if a > 1 {
      Log2Is(a / 2);
      assert Pow2(Log2(a)) == 2 * Pow2(Log2(a / 2));
      assert Pow2(Log2(a) + 1) == 2 * Pow2(Log2(a));
      assert Pow2(Log2(a / 2) + 1) == 2 * Pow2(Log2(a / 2));
    } else {
      assert Pow2(0) == 1;
      assert Pow2(1) == 2;
    }
  }

  lemma {:induction false} Pow2Sum(a: nat, b: nat)
    ensures Pow2(a + b) == Pow2(a) * Pow2(b)
    decreases a
  {
    if a == 0 {
      assert Pow2(0) == 1;
    } else {
      Pow2Sum(a - 1, b);
      calc {
        Pow2(a + b);
        2 * Pow2(a - 1 + b);
        2 * (Pow2(a - 1) * Pow2(b));
        2 * Pow2(a - 1) * Pow2(b);
        Pow2(a) * Pow2(b);
      }
    }
  }

  /** `m` units are as near to `a` as any number of them, and an even number of them if two are. */
  predicate Nearest(a: int, unit: int, m: int) {
    && -unit <= 2 * (m * unit - a) <= unit
    && (2 * (m * unit - a) == unit || 2 * (m * unit - a) == -unit ==> m % 2 == 0)
  }

  lemma RoundsToNearest(a: nat, unit: nat)
    requires unit > 0
    ensures Nearest(a, unit, RoundHalfEven(a, unit))
  {
    var q, r := a / unit, a % unit;
    assert a == q * unit + r;
    assert (q + 1) * unit == q * unit + unit;
  }

  /**
   The bits of the double an integer is converted to: its sign, the exponent of its highest power of two, and the
   53-bit significand, which is exact below 2^53 and otherwise the nearest, to even.
   */
  lemma DoubleIsNearest(n: int) returns (e: nat, m: nat)
    requires n != 0
    ensures var a := if n < 0 then 0 - n else n;
            && Pow2(e) <= a < Pow2(e + 1) && Pow2(52) <= m <= Pow2(53)
            && if e <= 52 then m == a * Pow2(52 - e) else Nearest(a, Pow2(e - 52), m)
    ensures DoubleBits(n) == (if n < 0 then Pow2(63) else 0) + (e + 1022) * Pow2(52) + m
  {
    hide DoubleBits, Log2, Pow2, RoundHalfEven, Nearest;
    var a := if n < 0 then 0 - n else n;
    DoubleBitsIs(n);
    e := Log2(a);
    m := if e <= 52 then a * Pow2(52 - e) else RoundHalfEven(a, Pow2(e - 52));
    Log2Is(a);
    Powers();
    if e <= 52 {
      ExactFits(a, e);
    } else {
      RoundedFits(a, e);
    }
  }

  lemma DoubleBitsIs(n: int)
    requires n != 0
    ensures
      var a := if n < 0 then 0 - n else n;
      var e := Log2(a);
      DoubleBits(n) == (if n < 0 then TWO_63 else 0) + (e + 1022) * 0x10_0000_0000_0000
                       + if e <= 52 then a * Pow2(52 - e) else RoundHalfEven(a, Pow2(e - 52))
  {
    hide Log2, Pow2, RoundHalfEven;
  }

  lemma ExactFits(a: nat, e: nat)
    requires Pow2(e) <= a < Pow2(e + 1) && e <= 52
    ensures Pow2(52) <= a * Pow2(52 - e) <= Pow2(53)
  {
    hide Pow2;
    Pow2Sum(e, 52 - e);
    Pow2Sum(e + 1, 52 - e);
    Scaled(Pow2(e), a, Pow2(e + 1), Pow2(52 - e));
  }

  lemma RoundedFits(a: nat, e: nat)
    requires Pow2(e) <= a < Pow2(e + 1) && e > 52
    ensures Nearest(a, Pow2(e - 52), RoundHalfEven(a, Pow2(e - 52)))
    ensures Pow2(52) <= RoundHalfEven(a, Pow2(e - 52)) <= Pow2(53)
  {
    hide Pow2, RoundHalfEven, Nearest;
    RoundsToNearest(a, Pow2(e - 52));
    Pow2Sum(52, e - 52);
    Pow2Sum(53, e - 52);
    RoundBetween(a, Pow2(e - 52), Pow2(52), Pow2(53));
  }

  lemma RoundBetween(a: nat, unit: nat, low: nat, high: nat)
    requires unit > 0 && low * unit <= a < high * unit
    ensures low <= RoundHalfEven(a, unit) <= high
  {
    QuotientBetween(a, unit, low, high);
  }

  lemma Powers()
    ensures Pow2(52) == 0x10_0000_0000_0000 && Pow2(53) == 0x20_0000_0000_0000 && Pow2(63) == TWO_63
  {
    assert Pow2(10) == 1024;
    Pow2Sum(10, 10);
    Pow2Sum(20, 20);
    Pow2Sum(40, 10);
    assert Pow2(2) == 4;
    Pow2Sum(50, 2);
    Pow2Sum(53, 10);
  }

  lemma Scaled(x: nat, a: nat, y: nat, k: nat)
    requires x <= a < y && k > 0
    ensures x * k <= a * k < y * k
  {
    assert (a - x) * k >= 0;
    assert (y - a) * k > 0;
  }

  lemma QuotientBetween(a: nat, unit: nat, low: nat, high: nat)
    requires unit > 0 && low * unit <= a < high * unit
    ensures low <= a / unit < high
  {
    var q := a / unit;
    assert a == q * unit + a % unit;
    Multiples(low, q, unit);
    Multiples(q, high, unit);
    Multiples(high, q, unit);
  }

  lemma Multiples(x: int, y: int, k: nat)
    requires k > 0
    ensures x > y ==> x * k >= y * k + k
    ensures x <= y ==> x * k <= y * k
  {
    assert x * k == y * k + (x - y) * k;
    assert x - y >= 1 ==> (x - y) * k == (x - y - 1) * k + k;
  }

  /** A number's hash is that of its type, its 64-bit pattern in two's complement, and the bits of its double. */
  lemma NumberHashIs(n: int) returns (pattern: seq<Byte>, double: seq<Byte>)
    requires -TWO_63 <= n < TWO_64
    ensures NumberHash(n) == WriteBuffer(6, pattern + double) && |pattern| == 8 && |double| == 8
    ensures FromBytes(pattern) == (if n < 0 then n + TWO_64 else n)
    ensures FromBytes(double) == DoubleBits(n)
  {
    pattern := LittleEndian(if n < 0 then n + TWO_64 else n, 8);
    double := LittleEndian(DoubleBits(n), 8);
    hide WriteBuffer, DoubleBits;
    Bytes8();
    DoubleFits(n);
    LittleEndianIs(if n < 0 then n + TWO_64 else n, 8);
    LittleEndianIs(DoubleBits(n), 8);
  }

  lemma Bytes8()
    ensures Pow256(8) == TWO_64
  {
    assert Pow256(2) == 65536;
    assert Pow256(4) == 65536 * 65536;
    assert Pow256(6) == 65536 * 65536 * 65536;
  }

  lemma DoubleFits(n: int)
    requires -TWO_63 <= n < TWO_64
    ensures DoubleBits(n) < TWO_64
  {
    if n != 0 {
      hide DoubleBits;
      var e, m := DoubleIsNearest(n);
      Powers();
      if e > 64 {
        Pow2Monotone(64, e);
      }
      Pow2Sum(63, 1);
      assert Pow2(1) == 2;
    }
  }

  lemma {:induction false} Pow2Monotone(a: nat, b: nat)
    requires a <= b
    ensures Pow2(a) <= Pow2(b)
    decreases b
  {
    if a < b {
      Pow2Monotone(a, b - 1);
    }
  }

  // ------------------------------------------------------------------ Values

  /** Null, false, true, a string and a number each begin with their own type; array and object begin with theirs. */
  lemma HashOfIs(v: Value)
    ensures v.Null? ==> HashOf(v) == WriteBuffer(0, [])
    ensures v == Value.Bool(false) ==> HashOf(v) == WriteBuffer(1, [])
    ensures v == Value.Bool(true) ==> HashOf(v) == WriteBuffer(2, [])
    ensures v.String? ==> HashOf(v) == WriteBuffer(5, v.s)
    ensures v.Object? && v.members == [] ==> HashOf(v) == Combine(0, 3)
    ensures v.Array? && v.elements == [] ==> HashOf(v) == Combine(0, 4)
  {
    hide WriteBuffer, Combine;
  }

  /** Two strings that differ in one byte are never taken for equal. */
  lemma StringsDiffer(s: seq<Byte>, i: nat, d: Byte)
    requires i < |s| && d as bv64 != s[i] as bv64
    ensures HashOf(Value.String(s[i := d])) != HashOf(Value.String(s))
  {
    OneByteMatters(Combine(OFFSET_BASIS, STRING_TYPE), s, i, d);
  }

  lemma {:induction false} ArrayStartMatters(g: Hash, h: Hash, es: seq<Hash>)
    ensures ArrayHash(g, es) == ArrayHash(h, es) ==> g == h
    decreases es
  {
    hide Combine;
    if es != [] {
      ArrayStartMatters(Combine(g, es[0]), Combine(h, es[0]), es[1..]);
      CombineInjective(g, h, 0, es[0]);
    }
  }

  /** Nor are two arrays, of which one element is not. */
  lemma {:induction false} ElementMatters(h: Hash, es: seq<Hash>, i: nat, d: Hash)
    requires i < |es| && d != es[i]
    ensures ArrayHash(h, es[i := d]) != ArrayHash(h, es)
    decreases i
  {
    hide Combine;
    var other := es[i := d];
    if i == 0 {
      assert other[1..] == es[1..];
      CombineInjective(0, h, d, es[0]);
      ArrayStartMatters(Combine(h, d), Combine(h, es[0]), es[1..]);
    } else {
      assert other[1..] == es[1..][i - 1 := d] && other[0] == es[0];
      ElementMatters(Combine(h, es[0]), es[1..], i - 1, d);
    }
  }

  lemma {:induction false} ArrayHashLast(h: Hash, es: seq<Hash>, d: Hash)
    ensures ArrayHash(h, es + [d]) == Combine(ArrayHash(h, es), d)
    decreases es
  {
    hide Combine;
    if es == [] {
      assert es + [d] == [d] && [d][1..] == [];
    } else {
      assert (es + [d])[0] == es[0] && (es + [d])[1..] == es[1..] + [d];
      ArrayHashLast(Combine(h, es[0]), es[1..], d);
    }
  }

  lemma {:induction false} ElementHashesLast(es: seq<Value>, e: Value)
    ensures ElementHashes(es + [e]) == ElementHashes(es) + [HashOf(e)]
    decreases es
  {
    hide HashOf;
    if es == [] {
      assert es + [e] == [e] && [e][1..] == [];
    } else {
      assert (es + [e])[0] == es[0] && (es + [e])[1..] == es[1..] + [e];
      ElementHashesLast(es[1..], e);
    }
  }

  /** One element more is combined with the hash of the array before it; one member more is added by exclusive or. */
  lemma OneMore(es: seq<Value>, e: Value, ms: seq<Member>, m: Member)
    ensures HashOf(Array(es + [e])) == Combine(HashOf(Array(es)), HashOf(e))
    ensures HashOf(Object(ms + [m])) == Xor(HashOf(Object(ms)), Combine(WriteBuffer(5, m.name), HashOf(m.value)))
  {
    ElementHashesLast(es, e);
    ArrayHashLast(Combine(0, ARRAY_TYPE), ElementHashes(es), HashOf(e));
    ObjectHashWithout(Combine(0, OBJECT_TYPE), ms + [m], |ms|);
    assert Without(ms + [m], |ms|) == ms;
    hide WriteBuffer, Combine, Xor, ArrayHash, ObjectHash;
  }
}
