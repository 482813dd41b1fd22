/**
 The 64-bit hash of a value, computed from its events on a stack. It ignores the order of object members,
 and integers hash by their mathematical value whichever event reports them.
 */
module Hashes {
  import opened Text
  import Sax
  import opened Dom
  import opened Likeness

  type Hash = bv64

  const OFFSET_BASIS: Hash := 0x8422_2325_CBF2_9CE4
  const NULL_TYPE: Hash := 0
  const FALSE_TYPE: Hash := 1
  const TRUE_TYPE: Hash := 2
  const OBJECT_TYPE: Hash := 3
  const ARRAY_TYPE: Hash := 4
  const STRING_TYPE: Hash := 5
  const NUMBER_TYPE: Hash := 6

  function Xor(a: Hash, b: Hash): Hash {
    a ^ b
  }

  /** Multiplication by the 64-bit FNV prime. */
  function Times(h: Hash): Hash {
    h * 0x0000_0100_0000_01B3
  }

  function Combine(h: Hash, d: Hash): Hash {
    Times(Xor(h, d))
  }

  function Wide(c: Byte): Hash {
    c as Hash
  }

  function BufferHash(h: Hash, data: seq<Byte>): Hash
    decreases data
  {
    if data == [] then h else BufferHash(Combine(h, Wide(data[0])), data[1..])
  }

  function WriteBuffer(kind: Hash, data: seq<Byte>): Hash {
    BufferHash(Combine(OFFSET_BASIS, kind), data)
  }

  // ------------------------------------------------------- Integers as bytes

  function Pow2(n: nat): (p: nat)
    ensures p > 0
  {
    if n == 0 then 1 else 2 * Pow2(n - 1)
  }

  /** Position of the highest bit. */
  function Log2(n: nat): nat
    requires n > 0
  {
    if n == 1 then 0 else 1 + Log2(n / 2)
  }

  /** `a / unit`, rounded to the nearest integer and to the even one of two. */
  function RoundHalfEven(a: nat, unit: nat): nat
    requires unit > 0
  {
    var q, r := a / unit, a % unit;
    if 2 * r > unit || (2 * r == unit && q % 2 == 1) then q + 1 else q
  }

  /** The 64 bits of the double nearest to an integer. */
  function DoubleBits(n: int): nat {
    if n == 0 then 0
    else
      var a := if n < 0 then 0 - n else n;
      var e := Log2(a);
      var m := if e <= 52 then a * Pow2(52 - e) else RoundHalfEven(a, Pow2(e - 52));
      (if n < 0 then TWO_63 else 0) + (e + 1022) * 0x10_0000_0000_0000 + m
  }

  /** `count` bytes of a number, lowest first. */
  function LittleEndian(n: nat, count: nat): seq<Byte> {
    if count == 0 then [] else [n % 256] + LittleEndian(n / 256, count - 1)
  }

  /** The integer's 64-bit pattern, then the bits of the double it converts to. */
  function NumberHash(n: int): Hash
    requires -TWO_63 <= n < TWO_64
  {
    WriteBuffer(NUMBER_TYPE, LittleEndian(if n < 0 then n + TWO_64 else n, 8) + LittleEndian(DoubleBits(n), 8))
  }

  // --------------------------------------------------------- Events on a stack

  function ArrayHash(h: Hash, elements: seq<Hash>): Hash
    decreases elements
  {
    if elements == [] then h else ArrayHash(Combine(h, elements[0]), elements[1..])
  }

  /** `h` with the hash of each name-value pair added by exclusive or. */
  function ObjectHash(h: Hash, cells: seq<Hash>): Hash
    decreases cells
  {
    if |cells| < 2 then h else ObjectHash(Xor(h, Combine(cells[0], cells[1])), cells[2..])
  }

  /** One event; an event that no value sends at this point leaves the stack alone. */
  function HashStep(stack: seq<Hash>, e: Sax.Event): seq<Hash> {
    match e
    case Null => stack + [WriteBuffer(NULL_TYPE, [])]
    case Bool(b) => stack + [WriteBuffer(if b then TRUE_TYPE else FALSE_TYPE, [])]
    case Int(n) => if -TWO_63 <= n < TWO_64 then stack + [NumberHash(n)] else stack
    case Uint(n) => if -TWO_63 <= n < TWO_64 then stack + [NumberHash(n)] else stack
    case Int64(n) => if -TWO_63 <= n < TWO_64 then stack + [NumberHash(n)] else stack
    case Uint64(n) => if -TWO_63 <= n < TWO_64 then stack + [NumberHash(n)] else stack
    case Double(_) => stack
    case String(s) => stack + [WriteBuffer(STRING_TYPE, s)]
    case Key(k) => stack + [WriteBuffer(STRING_TYPE, k)]
    case StartObject => stack
    case StartArray => stack
    case EndObject(n) =>
      if |stack| < 2 * n then stack
      else stack[..|stack| - 2 * n] + [ObjectHash(Combine(0, OBJECT_TYPE), stack[|stack| - 2 * n..])]
    case EndArray(n) =>
      if |stack| < n then stack
      else stack[..|stack| - n] + [ArrayHash(Combine(0, ARRAY_TYPE), stack[|stack| - n..])]
  }

  function HashAll(stack: seq<Hash>, events: seq<Sax.Event>): seq<Hash>
    decreases events
  {
    if events == [] then stack else HashAll(HashStep(stack, events[0]), events[1..])
  }

  lemma HashAllConcat(stack: seq<Hash>, a: seq<Sax.Event>, b: seq<Sax.Event>)
    ensures HashAll(stack, a + b) == HashAll(HashAll(stack, a), b)
    decreases a
  {
    hide HashStep;
    if a == [] {
      assert a + b == b;
    } else {
      assert (a + b)[0] == a[0] && (a + b)[1..] == a[1..] + b;
      HashAllConcat(HashStep(stack, a[0]), a[1..], b);
    }
  }

  // ------------------------------------------------------------ Hash of a value

  function HashOf(v: Value): Hash
    decreases v
  {
    match v
    case Null => WriteBuffer(NULL_TYPE, [])
    case Bool(b) => WriteBuffer(if b then TRUE_TYPE else FALSE_TYPE, [])
    case Number(bits, _) => if bits < TWO_64 then NumberHash(IntegerOf(v)) else 0
    case Double(_) => 0
    case String(s) => WriteBuffer(STRING_TYPE, s)
    case Array(es) => ArrayHash(Combine(0, ARRAY_TYPE), ElementHashes(es))
    case Object(ms) => ObjectHash(Combine(0, OBJECT_TYPE), MemberHashes(ms))
  }

  function ElementHashes(es: seq<Value>): (r: seq<Hash>)
    ensures |r| == |es|
    decreases es
  {
    if es == [] then [] else [HashOf(es[0])] + ElementHashes(es[1..])
  }

  function MemberHashes(ms: seq<Member>): (r: seq<Hash>)
    ensures |r| == 2 * |ms|
    decreases ms
  {
    if ms == [] then []
    else [WriteBuffer(STRING_TYPE, ms[0].name), HashOf(ms[0].value)] + MemberHashes(ms[1..])
  }

  /** A complete value leaves exactly one hash, that of the value, whoever sends its events. */
  lemma {:induction false} HashValue(origin: Origin, stack: seq<Hash>, v: Value)
    requires WellFormed(v)
    ensures HashAll(stack, Events(origin, v)) == stack + [HashOf(v)]
    decreases v, 1
  {
    hide WriteBuffer, NumberHash, ObjectHash, ArrayHash, HashAll, Combine;
    match v {
      case Array(es) =>
        HashElements(origin, stack, es);
        HashBracketed(stack, Sax.StartArray, ElementEvents(origin, es), Sax.EndArray(|es|));
        Last(stack, ElementHashes(es));
      case Object(ms) =>
        HashMembers(origin, stack, ms);
        HashBracketed(stack, Sax.StartObject, MemberEvents(origin, ms), Sax.EndObject(|ms|));
        Last(stack, MemberHashes(ms));
      case Number(_, _) =>
        NumberEvents(origin, stack, v);
      case Null => HashOne(stack, Sax.Event.Null);
      case Bool(b) => HashOne(stack, Sax.Event.Bool(b));
      case String(s) => HashOne(stack, Sax.Event.String(s));
    }
  }

  lemma Last(stack: seq<Hash>, inner: seq<Hash>)
    ensures (stack + inner)[..|stack|] == stack && (stack + inner)[|stack|..] == inner
  {}

  lemma HashOne(stack: seq<Hash>, e: Sax.Event)
    ensures HashAll(stack, [e]) == HashStep(stack, e)
  {
    hide HashStep;
  }

  lemma HashBracketed(stack: seq<Hash>, open: Sax.Event, contents: seq<Sax.Event>, close: Sax.Event)
    requires open.StartArray? || open.StartObject?
    ensures HashAll(stack, [open] + contents + [close]) == HashStep(HashAll(stack, contents), close)
  {
    HashAllConcat(stack, [open], contents);
    HashAllConcat(stack, [open] + contents, [close]);
    HashOne(stack, open);
    assert HashStep(stack, open) == stack;
    hide HashStep, HashAll;
    HashOne(HashAll(stack, contents), close);
  }

  lemma NumberEvents(origin: Origin, stack: seq<Hash>, v: Value)
    requires IsInteger(v)
    ensures HashAll(stack, Events(origin, v)) == stack + [HashOf(v)]
  {
    hide NumberHash, Events, IntegerOf;
    var e := IntegerEvent(origin, v);
    HashOne(stack, e);
  }

  lemma {:induction false} HashElements(origin: Origin, stack: seq<Hash>, es: seq<Value>)
    requires forall e | e in es :: WellFormed(e)
    ensures HashAll(stack, ElementEvents(origin, es)) == stack + ElementHashes(es)
    decreases es
  {
    hide HashOf, Events, HashStep, WellFormed;
    if es == [] {
      assert stack + [] == stack;
    } else {
      HashValue(origin, stack, es[0]);
      HashAllConcat(stack, Events(origin, es[0]), ElementEvents(origin, es[1..]));
      HashElements(origin, stack + [HashOf(es[0])], es[1..]);
      assert stack + [HashOf(es[0])] + ElementHashes(es[1..]) == stack + ElementHashes(es);
    }
  }

  lemma HashMember(origin: Origin, stack: seq<Hash>, m: Member)
    requires WellFormed(m.value)
    ensures HashAll(stack, [Sax.Key(m.name)] + Events(origin, m.value)) ==
            stack + [WriteBuffer(STRING_TYPE, m.name), HashOf(m.value)]
    decreases m, 2
  {
    hide HashOf, Events, WellFormed, WriteBuffer, HashAll;
    var named := stack + [WriteBuffer(STRING_TYPE, m.name)];
    HashOne(stack, Sax.Key(m.name));
    HashValue(origin, named, m.value);
    HashAllConcat(stack, [Sax.Key(m.name)], Events(origin, m.value));
    assert named + [HashOf(m.value)] == stack + [WriteBuffer(STRING_TYPE, m.name), HashOf(m.value)];
  }

  lemma {:induction false} HashMembers(origin: Origin, stack: seq<Hash>, ms: seq<Member>)
    requires forall m | m in ms :: WellFormed(m.value)
    ensures HashAll(stack, MemberEvents(origin, ms)) == stack + MemberHashes(ms)
    decreases ms
  {
    hide HashOf, Events, WellFormed, WriteBuffer, HashStep;
    if ms == [] {
      assert stack + [] == stack;
    } else {
      var first := [WriteBuffer(STRING_TYPE, ms[0].name), HashOf(ms[0].value)];
      HashMember(origin, stack, ms[0]);
      HashAllConcat(stack, [Sax.Key(ms[0].name)] + Events(origin, ms[0].value), MemberEvents(origin, ms[1..]));
      HashMembers(origin, stack + first, ms[1..]);
      assert stack + first + MemberHashes(ms[1..]) == stack + MemberHashes(ms);
    }
  }

  // ------------------------------------------------- Order of members ignored

  lemma XorSwapBits(a: Hash, b: Hash, c: Hash)
    ensures (a ^ b) ^ c == (a ^ c) ^ b
  {}

  lemma XorSwap(a: Hash, b: Hash, c: Hash)
    ensures Xor(Xor(a, b), c) == Xor(Xor(a, c), b)
  {
    calc {
      Xor(Xor(a, b), c);
      Xor(a ^ b, c);
      (a ^ b) ^ c;
      { XorSwapBits(a, b, c); }
      (a ^ c) ^ b;
      Xor(a ^ c, b);
      Xor(Xor(a, c), b);
    }
  }

  lemma {:induction false} ObjectHashSplit(h: Hash, d: Hash, cells: seq<Hash>)
    ensures ObjectHash(Xor(h, d), cells) == Xor(ObjectHash(h, cells), d)
    decreases cells
  {
    hide Combine, Xor;
    if |cells| >= 2 {
      var pair := Combine(cells[0], cells[1]);
      ObjectHashSplit(Xor(h, pair), d, cells[2..]);
      XorSwap(h, d, pair);
    }
  }

  /** What a member adds to the hash of its object. */
  function MemberHash(m: Member): Hash {
    Combine(WriteBuffer(STRING_TYPE, m.name), HashOf(m.value))
  }

  lemma ObjectHashFirst(h: Hash, ms: seq<Member>)
    requires ms != []
    ensures ObjectHash(h, MemberHashes(ms)) == ObjectHash(Xor(h, MemberHash(ms[0])), MemberHashes(ms[1..]))
    ensures ObjectHash(h, MemberHashes(ms)) == Xor(ObjectHash(h, MemberHashes(ms[1..])), MemberHash(ms[0]))
  {
    hide Combine, WriteBuffer, HashOf, Xor;
    assert MemberHashes(ms)[2..] == MemberHashes(ms[1..]);
    ObjectHashSplit(h, MemberHash(ms[0]), MemberHashes(ms[1..]));
  }

  /** A member adds the same to the hash wherever it stands. */
  lemma {:induction false} ObjectHashWithout(h: Hash, ms: seq<Member>, j: nat)
    requires j < |ms|
    ensures ObjectHash(h, MemberHashes(ms)) == Xor(ObjectHash(h, MemberHashes(Without(ms, j))), MemberHash(ms[j]))
    decreases j
  {
    hide MemberHash, Xor, ObjectHash, MemberHashes;
    ObjectHashFirst(h, ms);
    if j == 0 {
      assert Without(ms, 0) == ms[1..];
    } else {
      assert Without(ms, j)[1..] == Without(ms[1..], j - 1) && Without(ms, j)[0] == ms[0];
      ObjectHashFirst(h, Without(ms, j));
      ObjectHashWithout(h, ms[1..], j - 1);
      XorSwap(ObjectHash(h, MemberHashes(Without(ms[1..], j - 1))), MemberHash(ms[0]), MemberHash(ms[j]));
    }
  }

  /** Values that differ only in the order of members, at any depth, have the same hash. */
  lemma {:induction false} HashIgnoresOrder(a: Value, b: Value)
    requires Alike(Exact, a, b)
    ensures HashOf(a) == HashOf(b)
    decreases a, 1
  {
    hide WriteBuffer, NumberHash, ObjectHash, ArrayHash;
    match a {
      case Array(es) => ElementHashesAgree(es, b.elements);
      case Object(ms) => MemberHashesAgree(Combine(0, OBJECT_TYPE), ms, b.members);
      case _ =>
    }
  }

  lemma {:induction false} ElementHashesAgree(es: seq<Value>, fs: seq<Value>)
    requires AlikeElements(Exact, es, fs)
    ensures ElementHashes(es) == ElementHashes(fs)
    decreases es
  {
    hide HashOf;
    if es != [] {
      HashIgnoresOrder(es[0], fs[0]);
      ElementHashesAgree(es[1..], fs[1..]);
    }
  }

  lemma {:induction false} MemberHashesAgree(h: Hash, ms: seq<Member>, ns: seq<Member>)
    requires AlikeMembers(Exact, ms, ns)
    ensures ObjectHash(h, MemberHashes(ms)) == ObjectHash(h, MemberHashes(ns))
    decreases ms
  {
    hide HashOf, WriteBuffer, Combine, Xor, ObjectHash;
    if ms == [] {
    } else {
      var j := Partner(Exact, ms, ns);
      HashIgnoresOrder(ms[0].value, ns[j].value);
      MemberHashesAgree(h, ms[1..], Without(ns, j));
      ObjectHashFirst(h, ms);
      ObjectHashWithout(h, ns, j);
    }
  }
}
