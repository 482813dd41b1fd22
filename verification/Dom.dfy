/** The values a document holds, the events a value sends, and the stack machine that rebuilds it from them. */
module Dom {
  import opened Text
  import opened Sax

  /** Which integer types a number fits. */
  datatype NumberFlags = NumberFlags(isInt: bool, isUint: bool, isInt64: bool, isUint64: bool)

  /** An integer is a 64-bit pattern and its flags; a double is the lexeme it was read from. */
  datatype Value =
    | Null
    | Bool(b: bool)
    | Number(bits: nat, flags: NumberFlags)
    | Double(lexeme: seq<Byte>)
    | String(s: seq<Byte>)
    | Array(elements: seq<Value>)
    | Object(members: seq<Member>)

  datatype Member = Member(name: seq<Byte>, value: Value)

  const TWO_31 := 0x8000_0000
  const TWO_32 := 0x1_0000_0000
  const TWO_63 := 0x8000_0000_0000_0000
  const TWO_64 := 0x1_0000_0000_0000_0000

  // ---------------------------------------------------------------- Integers

  /** Two's complement of a signed integer in 64 bits. */
  function Pattern(i: int): nat
    requires -TWO_63 <= i < TWO_63
  {
    if i >= 0 then i else i + TWO_64
  }

  function OfInt(i: int): Value
    requires -TWO_31 <= i < TWO_31
  {
    Number(Pattern(i), if i >= 0 then NumberFlags(true, true, true, true) else NumberFlags(true, false, true, false))
  }

  function OfUint(u: int): Value
    requires 0 <= u < TWO_32
  {
    // the test is of bit 31
    Number(u, if u >= TWO_31 then NumberFlags(false, true, true, true) else NumberFlags(true, true, true, true))
  }

  function OfInt64(i: int): Value
    requires -TWO_63 <= i < TWO_63
  {
    if i >= 0 then Number(Pattern(i), NumberFlags(Pattern(i) / TWO_31 == 0, Pattern(i) / TWO_32 == 0, true, true))
    else Number(Pattern(i), NumberFlags(i >= -TWO_31, false, true, false))
  }

  function OfUint64(u: int): Value
    requires 0 <= u < TWO_64
  {
    Number(u, NumberFlags(u / TWO_31 == 0, u / TWO_32 == 0, u / TWO_63 % 2 == 0, true))
  }

  /** The value of an integer, by its mathematical value alone. */
  function Integer(n: int): Value
    requires -TWO_63 <= n < TWO_64
  {
    Number(if n >= 0 then n else n + TWO_64,
           NumberFlags(-TWO_31 <= n < TWO_31, 0 <= n < TWO_32, n < TWO_63, 0 <= n))
  }

  /** Whichever constructor builds an integer, pattern and flags are those of its mathematical value. */
  lemma ConstructorsAgree(n: int)
    requires -TWO_63 <= n < TWO_64
    ensures -TWO_31 <= n < TWO_31 ==> OfInt(n) == Integer(n)
    ensures 0 <= n < TWO_32 ==> OfUint(n) == Integer(n)
    ensures n < TWO_63 ==> OfInt64(n) == Integer(n)
    ensures 0 <= n ==> OfUint64(n) == Integer(n)
  {
    if 0 <= n {
      assert n / TWO_63 % 2 == 0 <==> n < TWO_63;
    }
  }

  predicate IsInteger(v: Value) {
    v.Number? && v.bits < TWO_64 && v == Integer(IntegerOf(v))
  }

  function IntegerOf(v: Value): (n: int)
    requires v.Number? && v.bits < TWO_64
    ensures -TWO_63 <= n < TWO_64
  {
    if v.flags.isUint64 || v.bits < TWO_63 then v.bits else v.bits - TWO_64
  }

  /** The low 32 bits read as a signed integer. */
  function LowInt(bits: nat): int {
    var low := bits % TWO_32;
    if low < TWO_31 then low else low - TWO_32
  }

  function SignedPattern(bits: nat): int {
    if bits < TWO_63 then bits else bits - TWO_64
  }

  /** A value every integer of which was built by one of the constructors. */
  predicate Sound(v: Value) {
    match v
    case Number(_, _) => IsInteger(v)
    case Array(es) => forall e | e in es :: Sound(e)
    case Object(ms) => forall m | m in ms :: Sound(m.value)
    case _ => true
  }

  /** A sound value without doubles. */
  predicate WellFormed(v: Value) {
    match v
    case Number(_, _) => IsInteger(v)
    case Double(_) => false
    case Array(es) => forall e | e in es :: WellFormed(e)
    case Object(ms) => forall m | m in ms :: WellFormed(m.value)
    case _ => true
  }

  lemma WellFormedIsSound(v: Value)
    requires WellFormed(v)
    ensures Sound(v)
  {}

  // ------------------------------------------------------------------ Events

  /** The event of a number, by the narrowest type its flags allow. */
  function NumberEvent(v: Value): Event
    requires v.Number?
  {
    if v.flags.isInt then Int(LowInt(v.bits))
    else if v.flags.isUint then Uint(v.bits % TWO_32)
    else if v.flags.isInt64 then Int64(SignedPattern(v.bits))
    else Uint64(v.bits)
  }

  /** The event a reader sends for the same number: it only uses signed types for negative ones. */
  function ReadEvent(n: int): Event
    requires -TWO_63 <= n < TWO_64
  {
    if n < -TWO_31 then Int64(n)
    else if n < 0 then Int(n)
    else if n < TWO_32 then Uint(n)
    else Uint64(n)
  }

  /** Who sends the events of a value: the value itself, or a reader that meets its text. */
  datatype Origin = Visited | Read

  function Events(origin: Origin, v: Value): seq<Event>
    decreases v
  {
    match v
    case Null => [Event.Null]
    case Bool(b) => [Event.Bool(b)]
    case Number(bits, _) =>
      if origin.Visited? || bits >= TWO_64 then [NumberEvent(v)] else [ReadEvent(IntegerOf(v))]
    case Double(lexeme) => [Event.Double(lexeme)]
    case String(s) => [Event.String(s)]
    case Array(es) => [StartArray] + ElementEvents(origin, es) + [EndArray(|es|)]
    case Object(ms) => [StartObject] + MemberEvents(origin, ms) + [EndObject(|ms|)]
  }

  function ElementEvents(origin: Origin, es: seq<Value>): seq<Event>
    decreases es
  {
    if es == [] then [] else Events(origin, es[0]) + ElementEvents(origin, es[1..])
  }

  function MemberEvents(origin: Origin, ms: seq<Member>): seq<Event>
    decreases ms
  {
    if ms == [] then [] else [Key(ms[0].name)] + Events(origin, ms[0].value) + MemberEvents(origin, ms[1..])
  }

  /** The event reports the integer, in a type that holds it. */
  predicate Reports(e: Event, n: int) {
    || (e == Int(n) && -TWO_31 <= n < TWO_31)
    || (e == Uint(n) && 0 <= n < TWO_32)
    || (e == Int64(n) && -TWO_63 <= n < TWO_63)
    || (e == Uint64(n) && 0 <= n < TWO_64)
  }

  /** A number is one event that reports its value, whoever sends it. */
  lemma IntegerEvent(origin: Origin, v: Value) returns (e: Event)
    requires IsInteger(v)
    ensures Events(origin, v) == [e] && Reports(e, IntegerOf(v))
  {
    var n := IntegerOf(v);
    e := if origin.Visited? then NumberEvent(v) else ReadEvent(n);
    if n < 0 {
      Negative(v, n);
    }
  }

  /** A value reports an integer in the first of the four types that holds it: int, unsigned, int64, uint64. */
  lemma VisitedEvent(n: int)
    requires -TWO_63 <= n < TWO_64
    ensures NumberEvent(Integer(n)) == if -0x8000_0000 <= n <= 0x7FFF_FFFF then Int(n)
                                       else if 0 <= n <= 0xFFFF_FFFF then Uint(n)
                                       else if n <= 0x7FFF_FFFF_FFFF_FFFF then Int64(n)
                                       else Uint64(n)
  {
    if n < 0 {
      Negative(Integer(n), n);
    }
  }

  /** Pattern and flags of a negative integer. */
  lemma Negative(v: Value, n: int)
    requires -TWO_63 <= n < 0 && v == Integer(n)
    ensures v.bits == n + TWO_64 && SignedPattern(v.bits) == n
    ensures n >= -TWO_31 ==> LowInt(v.bits) == n
  {
    if n >= -TWO_31 {
      assert v.bits == 0xFFFF_FFFF * TWO_32 + (n + TWO_32);
    }
  }

  // ----------------------------------------------------------------- Builder

  predicate AreMembers(cells: seq<Value>) {
    |cells| % 2 == 0 && forall i | 0 <= i < |cells| && i % 2 == 0 :: cells[i].String?
  }

  /** Pairs of cells read as members: a name, then its value. */
  function Pairs(cells: seq<Value>): seq<Member>
    requires AreMembers(cells)
  {
    if cells == [] then [] else [Member(cells[0].s, cells[1])] + Pairs(cells[2..])
  }

  /** One event handled by the document; None when a stack assertion of the document would fail. */
  function Build(stack: seq<Value>, e: Event): Option<seq<Value>> {
    match e
    case Null => Some(stack + [Value.Null])
    case Bool(b) => Some(stack + [Value.Bool(b)])
    case Int(i) => if -TWO_31 <= i < TWO_31 then Some(stack + [OfInt(i)]) else None
    case Uint(u) => if 0 <= u < TWO_32 then Some(stack + [OfUint(u)]) else None
    case Int64(i) => if -TWO_63 <= i < TWO_63 then Some(stack + [OfInt64(i)]) else None
    case Uint64(u) => if 0 <= u < TWO_64 then Some(stack + [OfUint64(u)]) else None
    case Double(lexeme) => Some(stack + [Value.Double(lexeme)])
    case String(s) => Some(stack + [Value.String(s)])
    case Key(k) => Some(stack + [Value.String(k)])
    case StartObject => Some(stack + [Object([])])
    case StartArray => Some(stack + [Array([])])
    case EndObject(n) =>
      if |stack| < 2 * n + 1 || !AreMembers(stack[|stack| - 2 * n..]) then None
      else Some(stack[..|stack| - 2 * n - 1] + [Object(Pairs(stack[|stack| - 2 * n..]))])
    case EndArray(n) =>
      if |stack| < n + 1 then None
      else Some(stack[..|stack| - n - 1] + [Array(stack[|stack| - n..])])
  }

  function BuildAll(stack: seq<Value>, events: seq<Event>): Option<seq<Value>>
    decreases events
  {
    if events == [] then Some(stack)
    else
      match Build(stack, events[0])
      case None => None
      case Some(next) => BuildAll(next, events[1..])
  }

  lemma BuildAllConcat(stack: seq<Value>, a: seq<Event>, b: seq<Event>)
    ensures BuildAll(stack, a + b) == match BuildAll(stack, a) case None => None case Some(s) => BuildAll(s, b)
    decreases a
  {
    if a == [] {
      assert a + b == b;
    } else {
      assert (a + b)[0] == a[0] && (a + b)[1..] == a[1..] + b;
      match Build(stack, a[0])
      case None =>
      case Some(next) => BuildAllConcat(next, a[1..], b);
    }
  }

  /** The cells of members on the stack. */
  function Cells(ms: seq<Member>): (cells: seq<Value>)
    ensures |cells| == 2 * |ms|
  {
    if ms == [] then [] else [Value.String(ms[0].name), ms[0].value] + Cells(ms[1..])
  }

  lemma {:induction false} PairsOfCells(ms: seq<Member>)
    ensures AreMembers(Cells(ms)) && Pairs(Cells(ms)) == ms
  {
    if ms != [] {
      PairsOfCells(ms[1..]);
      var cells := Cells(ms);
      assert cells[2..] == Cells(ms[1..]);
      forall i | 0 <= i < |cells| && i % 2 == 0 ensures cells[i].String? {
        if i >= 2 {
          assert cells[i] == Cells(ms[1..])[i - 2];
        }
      }
    }
  }

  /** An opening event, the contents, and the closing event. */
  lemma BuildBracketed(stack: seq<Value>, open: Event, contents: seq<Event>, close: Event, inside: seq<Value>)
    requires Build(stack, open).Some? && BuildAll(Build(stack, open).value, contents) == Some(inside)
    ensures BuildAll(stack, [open] + contents + [close]) == Build(inside, close)
  {
    BuildAllConcat(stack, [open], contents);
    BuildAllConcat(stack, [open] + contents, [close]);
    assert BuildAll(stack, [open]) == Build(stack, open);
    assert BuildAll(inside, [close]) == Build(inside, close);
  }

  /** Feeding a value's events to the document pushes exactly that value and leaves what lies below alone. */
  lemma {:induction false} BuildValue(origin: Origin, stack: seq<Value>, v: Value)
    requires Sound(v)
    ensures BuildAll(stack, Events(origin, v)) == Some(stack + [v])
    decreases v, 1
  {
    match v
    case Array(es) => BuildArray(origin, stack, v);
    case Object(ms) => BuildObject(origin, stack, v);
    case Number(_, _) => BuildNumber(origin, stack, v);
    case _ =>
  }

  lemma BuildArray(origin: Origin, stack: seq<Value>, v: Value)
    requires Sound(v) && v.Array?
    ensures BuildAll(stack, Events(origin, v)) == Some(stack + [v])
    decreases v, 0
  {
    hide BuildAll, ElementEvents;
    var es := v.elements;
    var full := stack + [Array([])] + es;
    BuildElements(origin, stack + [Array([])], es);
    BuildBracketed(stack, StartArray, ElementEvents(origin, es), EndArray(|es|), full);
    assert full[..|full| - |es| - 1] == stack && full[|full| - |es|..] == es;
  }

  lemma BuildObject(origin: Origin, stack: seq<Value>, v: Value)
    requires Sound(v) && v.Object?
    ensures BuildAll(stack, Events(origin, v)) == Some(stack + [v])
    decreases v, 0
  {
    hide BuildAll, MemberEvents, Pairs, Cells;
    var ms := v.members;
    var full := stack + [Object([])] + Cells(ms);
    BuildMembers(origin, stack + [Object([])], ms);
    BuildBracketed(stack, StartObject, MemberEvents(origin, ms), EndObject(|ms|), full);
    BuildObjectEnd(stack, ms);
  }

  /** The end of an object takes its members' cells off the stack and into the object below them. */
  lemma BuildObjectEnd(stack: seq<Value>, ms: seq<Member>)
    ensures Build(stack + [Object([])] + Cells(ms), EndObject(|ms|)) == Some(stack + [Object(ms)])
  {
    hide Pairs, Cells, AreMembers;
    PairsOfCells(ms);
    CellsTaken(stack, Object([]), Cells(ms), |ms|);
  }

  lemma CellsTaken(stack: seq<Value>, below: Value, cells: seq<Value>, n: nat)
    requires |cells| == 2 * n && AreMembers(cells)
    ensures Build(stack + [below] + cells, EndObject(n)) == Some(stack + [Object(Pairs(cells))])
  {
    hide Pairs, AreMembers;
    var full := stack + [below] + cells;
    assert full[..|full| - 2 * n - 1] == stack && full[|full| - 2 * n..] == cells;
  }

  lemma BuildNumber(origin: Origin, stack: seq<Value>, v: Value)
    requires IsInteger(v)
    ensures BuildAll(stack, Events(origin, v)) == Some(stack + [v])
  {
    hide Events, IntegerOf;
    var e := IntegerEvent(origin, v);
    ConstructorsAgree(IntegerOf(v));
    assert Build(stack, e) == Some(stack + [v]);
  }

  lemma {:induction false} BuildElements(origin: Origin, stack: seq<Value>, es: seq<Value>)
    requires forall e | e in es :: Sound(e)
    ensures BuildAll(stack, ElementEvents(origin, es)) == Some(stack + es)
    decreases es
  {
    if es == [] {
      assert stack + es == stack;
    } else {
      BuildValue(origin, stack, es[0]);
      BuildAllConcat(stack, Events(origin, es[0]), ElementEvents(origin, es[1..]));
      BuildElements(origin, stack + [es[0]], es[1..]);
      assert stack + [es[0]] + es[1..] == stack + es;
    }
  }

  lemma {:induction false} BuildMembers(origin: Origin, stack: seq<Value>, ms: seq<Member>)
    requires forall m | m in ms :: Sound(m.value)
    ensures BuildAll(stack, MemberEvents(origin, ms)) == Some(stack + Cells(ms))
    decreases ms
  {
    hide Events;
    if ms == [] {
      assert stack + Cells(ms) == stack;
    } else {
      var named := stack + [Value.String(ms[0].name)];
      BuildValue(origin, named, ms[0].value);
      BuildAllConcat(stack, [Key(ms[0].name)], Events(origin, ms[0].value));
      BuildAllConcat(stack, [Key(ms[0].name)] + Events(origin, ms[0].value), MemberEvents(origin, ms[1..]));
      BuildMembers(origin, named + [ms[0].value], ms[1..]);
      assert named + [ms[0].value] + Cells(ms[1..]) == stack + Cells(ms);
    }
  }
}
