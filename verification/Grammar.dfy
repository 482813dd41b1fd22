/**
 The grammar of the texts that are accepted, as trees that stand in a text: JSON as RFC 8259 has it, with the extensions
 the flags allow. A text is parsed exactly when a tree stands in it, and what is sent are the events of the tree.
 */
module Grammar {
  import opened Text
  import opened Sax
  import opened Lexer
  import opened Numbers
  import opened Recursive
  import opened Blanks
  import Equivalence
  import Iterative
  import NumberGrammar
  import StringGrammar

  // ------------------------------------------------------------------ Trees

  /** What a text is made of. Items and fields carry the places they stand at. */
  datatype Tree = Leaf(e: Event) | Items(items: seq<Item>, extra: bool) | Fields(fields: seq<Field>, extra: bool)

  /** A value from `start` to `end`, and the gap up to `after`. */
  datatype Item = Item(value: Tree, start: nat, end: nat, after: nat)

  /** A name from `start` to `end`, a gap up to `colon`, and after the colon another and the value. */
  datatype Field = Field(name: seq<Byte>, start: nat, end: nat, colon: nat, item: Item)

  function EventsOf(x: Tree): seq<Event>
    decreases x, 0
  {
    match x
    case Leaf(e) => [e]
    case Items(items, _) => [StartArray] + ItemEvents(items) + [EndArray(|items|)]
    case Fields(fields, _) => [StartObject] + FieldEvents(fields) + [EndObject(|fields|)]
  }

  function ItemEvents(items: seq<Item>): seq<Event>
    decreases items, 0
  {
    if items == [] then [] else assert items[0].value < items[0]; EventsOf(items[0].value) + ItemEvents(items[1..])
  }

  function FieldEvents(fields: seq<Field>): seq<Event>
    decreases fields, 0
  {
    if fields == [] then [] else [Key(fields[0].name)] + EventsOf(fields[0].item.value) + FieldEvents(fields[1..])
  }

  // ---------------------------------------------------------------- Scalars

  const NULL_WORD: seq<Byte> := ['n' as int, 'u' as int, 'l' as int, 'l' as int]
  const TRUE_WORD: seq<Byte> := ['t' as int, 'r' as int, 'u' as int, 'e' as int]
  const FALSE_WORD: seq<Byte> := ['f' as int, 'a' as int, 'l' as int, 's' as int, 'e' as int]

  ghost predicate WordIs(env: Env, p: nat, q: nat, word: seq<Byte>) {
    At(env.text, p, word) && q == p + |word|
  }

  /** The string of these bytes, from its opening quote to after its closing one. */
  ghost predicate StringIs(env: Env, p: nat, q: nat, s: seq<Byte>) {
    && Peek(env.text, p) == '"' as int
    && exists xs, z: nat ::
         && StringGrammar.Spelled(env.flags.validateEncoding, env.text, p + 1, xs, z) && s == StringGrammar.Decoded(xs)
         && Peek(env.text, z) == '"' as int && q == z + 1
  }

  /** The event of a number with these parts: an integer by its value, or a double of its characters. */
  ghost predicate NumberEventIs(env: Env, p: nat, s: NumberGrammar.Parts, e: Event) {
    if p < s.e == s.i && IsDigit(Peek(env.text, s.q)) then
      && AllDigits(env.text, s.q, s.i)
      && NumberGrammar.IntegerEventIs(e, Peek(env.text, p) == MINUS, DigitsValue(env.text, s.q, s.i))
      && (e.Double? ==> e.lexeme == Slice(env.text, p, s.e - p))
    else p < s.e && e == Double(Slice(env.text, p, s.e - p))
  }

  ghost predicate NumberIs(env: Env, p: nat, q: nat, e: Event) {
    exists s :: NumberGrammar.NumberIs(env, p, s) && !NumberGrammar.TooBig(env, p, s) && q == s.e && NumberEventIs(env, p, s, e)
  }

  ghost predicate ScalarIs(env: Env, p: nat, q: nat, e: Event) {
    match e
    case Null => WordIs(env, p, q, NULL_WORD)
    case Bool(b) => WordIs(env, p, q, if b then TRUE_WORD else FALSE_WORD)
    case String(s) => StringIs(env, p, q, s)
    case _ => NumberIs(env, p, q, e)
  }

  // ----------------------------------------------------------------- Values

  /** The last bracket of a list, or a comma before it where the flag allows one. */
  ghost predicate ClosesAt(env: Env, p: nat, extra: bool, close: int, q: nat) {
    q > 0 && Peek(env.text, q - 1) == close
    && if extra then env.flags.trailingCommas && Peek(env.text, p) == ',' as int && GapIs(env, p + 1, q - 1) else p == q - 1
  }

  ghost predicate ValueIs(env: Env, p: nat, q: nat, x: Tree)
    decreases x, 3
  {
    match x
    case Leaf(e) => ScalarIs(env, p, q, e)
    case Items(items, extra) =>
      && Peek(env.text, p) == '[' as int
      && if items == [] then !extra && q > 0 && GapIs(env, p + 1, q - 1) && Peek(env.text, q - 1) == ']' as int
         else GapIs(env, p + 1, items[0].start) && ItemsAre(env, items, extra, q)
    case Fields(fields, extra) =>
      && Peek(env.text, p) == '{' as int
      && if fields == [] then !extra && q > 0 && GapIs(env, p + 1, q - 1) && Peek(env.text, q - 1) == '}' as int
         else GapIs(env, p + 1, fields[0].start) && FieldsAre(env, fields, extra, q)
  }

  ghost predicate ItemIs(env: Env, it: Item)
    decreases it, 4
  {
    ValueIs(env, it.start, it.end, it.value) && GapIs(env, it.end, it.after)
  }

  /** The items, with a comma and a gap between two, and the closing bracket. */
  ghost predicate ItemsAre(env: Env, items: seq<Item>, extra: bool, q: nat)
    requires items != []
    decreases items, 5
  {
    && ItemIs(env, items[0])
    && if |items| == 1 then ClosesAt(env, items[0].after, extra, ']' as int, q)
       else
         && Peek(env.text, items[0].after) == ',' as int && GapIs(env, items[0].after + 1, items[1].start)
         && ItemsAre(env, items[1..], extra, q)
  }

  ghost predicate FieldIs(env: Env, fd: Field)
    decreases fd, 5
  {
    && StringIs(env, fd.start, fd.end, fd.name) && GapIs(env, fd.end, fd.colon)
    && Peek(env.text, fd.colon) == ':' as int && GapIs(env, fd.colon + 1, fd.item.start)
    && ItemIs(env, fd.item)
  }

  ghost predicate FieldsAre(env: Env, fields: seq<Field>, extra: bool, q: nat)
    requires fields != []
    decreases fields, 6
  {
    && FieldIs(env, fields[0])
    && if |fields| == 1 then ClosesAt(env, fields[0].item.after, extra, '}' as int, q)
       else
         && Peek(env.text, fields[0].item.after) == ',' as int && GapIs(env, fields[0].item.after + 1, fields[1].start)
         && FieldsAre(env, fields[1..], extra, q)
  }

  // ------------------------------------------------------ Scalars are read

  /** A handler that refuses nothing. */
  ghost predicate Calm(env: Env) {
    forall es :: env.accepts(es)
  }

  /** The character can begin a value. */
  predicate Begins(env: Env, p: nat) {
    NoBlank(env, p) && Peek(env.text, p) !in [NUL, COMMA, COLON, RBRACKET, RBRACE]
  }

  lemma WordReads(env: Env, p: nat, events: seq<Event>, word: seq<Byte>, e: Event)
    requires Calm(env) && |word| > 1 && NUL !in word[1..] && Peek(env.text, p) == word[0]
    ensures At(env.text, p, word) <==> ParseLiteral(env, p, events, word[1..], e).Ok?
    ensures At(env.text, p, word) ==> ParseLiteral(env, p, events, word[1..], e) == Ok(p + |word|, events + [e])
  {
    AtSplit(env.text, p, [word[0]], word[1..]);
    assert [word[0]] + word[1..] == word;
    if p < |env.text| {
      assert env.text[p..p + 1] == [Peek(env.text, p)];
    } else {
      AtHead(env.text, p, word);
    }
  }

  function StringEvent(isKey: bool, s: seq<Byte>): Event {
    if isKey then Key(s) else String(s)
  }

  lemma StringReads(env: Env, p: nat, events: seq<Event>, isKey: bool, q: nat, s: seq<Byte>)
    requires Calm(env) && StringIs(env, p, q, s)
    ensures Recursive.ParseString(env, p, events, isKey) == Ok(q, events + [StringEvent(isKey, s)])
  {
    hide StringBody, StringGrammar.FaultAt, StringGrammar.Spelled, StringGrammar.Decoded;
    var xs, z: nat :|
      && StringGrammar.Spelled(env.flags.validateEncoding, env.text, p + 1, xs, z) && s == StringGrammar.Decoded(xs)
      && Peek(env.text, z) == '"' as int && q == z + 1;
    StringGrammar.SpelledReads(env.flags.validateEncoding, env.text, p + 1, xs, z);
  }

  lemma StringStands(env: Env, p: nat, events: seq<Event>, isKey: bool) returns (s: seq<Byte>)
    requires Peek(env.text, p) == QUOTE
    ensures var r := Recursive.ParseString(env, p, events, isKey);
            r.Ok? ==> StringIs(env, p, r.pos, s) && r.events == events + [StringEvent(isKey, s)]
  {
    hide StringBody;
    var r := StringBody(env.flags.validateEncoding, env.text, p + 1, []);
    s := [];
    if r.Got? {
      s := r.value;
      StringGrammar.StringIff(env.flags.validateEncoding, env.text, p + 1, r.next, s);
    }
  }

  lemma NumberReads(env: Env, p: nat, q: nat, e: Event)
    requires NumberIs(env, p, q, e)
    ensures ParseNumber(env, p) == Got(q, e)
    ensures Peek(env.text, p) == MINUS || IsDigit(Peek(env.text, p)) || Peek(env.text, p) == UPPER_I || Peek(env.text, p) == UPPER_N
  {
    hide ParseNumber, NumberGrammar.TooBig;
    var s :| NumberGrammar.NumberIs(env, p, s) && !NumberGrammar.TooBig(env, p, s) && q == s.e && NumberEventIs(env, p, s, e);
    NumberGrammar.NumberRead(env, p, s);
    NumberBegins(env, p, s);
    OneEvent(env, p, s, e, ParseNumber(env, p).value);
  }

  lemma NumberBegins(env: Env, p: nat, s: NumberGrammar.Parts)
    requires NumberGrammar.NumberIs(env, p, s)
    ensures Peek(env.text, p) == MINUS || IsDigit(Peek(env.text, p)) || Peek(env.text, p) == UPPER_I || Peek(env.text, p) == UPPER_N
  {
    NumberGrammar.SpecialWordsOnly(env.text, s.q);
  }

  /** The parts of a number leave no choice of event. */
  lemma OneEvent(env: Env, p: nat, s: NumberGrammar.Parts, e: Event, f: Event)
    requires NumberEventIs(env, p, s, e) && NumberEventIs(env, p, s, f)
    ensures e == f
  {
    hide AllDigits, DigitsValue;
  }

  lemma NumberStands(env: Env, p: nat)
    ensures var r := ParseNumber(env, p); r.Got? ==> NumberIs(env, p, r.next, r.value)
  {
    hide ParseNumber, NumberGrammar.TooBig, NumberGrammar.IntegerIs;
    NumberGrammar.NumberIff(env, p);
    if ParseNumber(env, p).Got? {
      var s :| NumberGrammar.NumberIs(env, p, s) && !NumberGrammar.TooBig(env, p, s);
      NumberGrammar.NumberRead(env, p, s);
      assert NumberEventIs(env, p, s, ParseNumber(env, p).value);
    }
  }

  lemma ScalarReads(env: Env, p: nat, events: seq<Event>, q: nat, e: Event)
    requires Calm(env) && ScalarIs(env, p, q, e) && p <= |env.text|
    ensures ParseScalar(env, p, events) == Ok(q, events + [e])
  {
    hide ParseLiteral, Recursive.ParseString, StringIs, ParseNumber, NumberIs, Calm, At, Emit;
    Words();
    if e.Null? {
      WordBegins(env.text, p, NULL_WORD);
      WordReads(env, p, events, NULL_WORD, e);
    } else if e.Bool? {
      WordBegins(env.text, p, if e.b then TRUE_WORD else FALSE_WORD);
      WordReads(env, p, events, if e.b then TRUE_WORD else FALSE_WORD, e);
    } else if e.String? {
      StringBegins(env, p, q, e.s);
      StringReads(env, p, events, false, q, e.s);
    } else {
      NumberReads(env, p, q, e);
      Accepted(env, q, events, e, p);
    }
  }

  lemma WordBegins(t: seq<Byte>, p: nat, word: seq<Byte>)
    requires At(t, p, word) && word != []
    ensures Peek(t, p) == word[0]
  {
    AtPeek(t, p, word, 0);
  }

  lemma Words()
    ensures NULL_WORD[1..] == NULL_TAIL && TRUE_WORD[1..] == TRUE_TAIL && FALSE_WORD[1..] == FALSE_TAIL
    ensures NUL !in NULL_TAIL && NUL !in TRUE_TAIL && NUL !in FALSE_TAIL
  {}

  lemma StringBegins(env: Env, p: nat, q: nat, s: seq<Byte>)
    requires StringIs(env, p, q, s)
    ensures Peek(env.text, p) == QUOTE
  {}

  lemma Accepted(env: Env, pos: nat, events: seq<Event>, e: Event, offset: nat)
    requires Calm(env)
    ensures Emit(env, pos, events, e, offset) == Ok(pos, events + [e])
  {}

  lemma WordStands(env: Env, p: nat, events: seq<Event>, word: seq<Byte>, e: Event)
    requires |word| > 1 && NUL !in word[1..] && Peek(env.text, p) == word[0] && p < |env.text|
    ensures var r := ParseLiteral(env, p, events, word[1..], e); r.Ok? ==> WordIs(env, p, r.pos, word) && r.events == events + [e]
  {
    AtSplit(env.text, p, [word[0]], word[1..]);
    assert [word[0]] + word[1..] == word;
    assert env.text[p..p + 1] == [Peek(env.text, p)];
  }

  lemma ScalarStands(env: Env, p: nat, events: seq<Event>) returns (e: Event)
    requires p <= |env.text|
    ensures var r := ParseScalar(env, p, events); r.Ok? ==> ScalarIs(env, p, r.pos, e) && r.events == events + [e]
  {
    hide ParseLiteral, Recursive.ParseString, StringIs, ParseNumber, NumberIs, WordIs;
    Words();
    var c := Peek(env.text, p);
    if c == LOWER_N {
      e := Event.Null;
      WordStands(env, p, events, NULL_WORD, e);
    } else if c == LOWER_T {
      e := Event.Bool(true);
      WordStands(env, p, events, TRUE_WORD, e);
    } else if c == LOWER_F {
      e := Event.Bool(false);
      WordStands(env, p, events, FALSE_WORD, e);
    } else if c == QUOTE {
      var s := StringStands(env, p, events, false);
      e := Event.String(s);
    } else {
      e := if ParseNumber(env, p).Got? then ParseNumber(env, p).value else Event.Null;
      NumberStands(env, p);
      NumberKind(env, p);
    }
  }

  lemma NumberKind(env: Env, p: nat)
    ensures var r := ParseNumber(env, p); r.Got? ==> !r.value.Null? && !r.value.Bool? && !r.value.String?
  {}

  // ------------------------------------------------------- Trees are read

  lemma SkipTo(env: Env, p: nat, q: nat)
    requires GapIs(env, p, q) && NoBlank(env, q)
    ensures Skip(env, p) == Got(q, ())
  {
    SkipIff(env, p, q);
  }

  lemma ScalarBegins(env: Env, p: nat, q: nat, e: Event)
    requires ScalarIs(env, p, q, e)
    ensures Begins(env, p) && Peek(env.text, p) != LBRACE && Peek(env.text, p) != LBRACKET
  {
    hide StringIs, ParseNumber, NumberIs;
    if e.Null? {
      AtPeek(env.text, p, NULL_WORD, 0);
    } else if e.Bool? {
      AtPeek(env.text, p, if e.b then TRUE_WORD else FALSE_WORD, 0);
    } else if e.String? {
      StringBegins(env, p, q, e.s);
    } else {
      NumberReads(env, p, q, e);
    }
  }

  lemma ValueBegins(env: Env, p: nat, q: nat, x: Tree)
    requires ValueIs(env, p, q, x)
    ensures Begins(env, p) && p < |env.text|
  {
    hide ScalarIs;
    if x.Leaf? {
      ScalarBegins(env, p, q, x.e);
    }
  }

  lemma ArrayOpens(env: Env, p: nat, events: seq<Event>, q: nat)
    requires Calm(env) && p <= |env.text| && Peek(env.text, p) == LBRACKET && Skip(env, p + 1) == Got(q, ())
    ensures q <= |env.text| && Recursive.ParseValue(env, p, events) == ArrayBody(env, q, events + [StartArray])
  {
    hide Skip, ArrayBody;
  }

  lemma ObjectOpens(env: Env, p: nat, events: seq<Event>, q: nat)
    requires Calm(env) && p <= |env.text| && Peek(env.text, p) == LBRACE && Skip(env, p + 1) == Got(q, ())
    ensures q <= |env.text| && Recursive.ParseValue(env, p, events) == ObjectBody(env, q, events + [StartObject])
  {
    hide Skip, ObjectBody;
  }

  lemma ElementsClose(env: Env, p: nat, extra: bool, q: nat, events: seq<Event>, count: nat)
    requires Calm(env) && p <= |env.text| && ClosesAt(env, p, extra, ']' as int, q)
    ensures AfterElement(env, p, events, count) == Ok(q, events + [EndArray(count)])
  {
    hide Skip, ParseElements;
    if extra {
      SkipTo(env, p + 1, q - 1);
    }
  }

  lemma MembersClose(env: Env, p: nat, extra: bool, q: nat, events: seq<Event>, count: nat)
    requires Calm(env) && p <= |env.text| && ClosesAt(env, p, extra, '}' as int, q)
    ensures AfterMember(env, p, events, count) == Ok(q, events + [EndObject(count)])
  {
    hide Skip, ParseMembers;
    if extra {
      SkipTo(env, p + 1, q - 1);
    }
  }

  lemma ElementsGoOn(env: Env, p: nat, next: nat, events: seq<Event>, count: nat)
    requires p <= |env.text| && Peek(env.text, p) == COMMA && GapIs(env, p + 1, next) && Begins(env, next)
    ensures next <= |env.text| && AfterElement(env, p, events, count) == ParseElements(env, next, events, count)
  {
    hide Skip, ParseElements;
    SkipTo(env, p + 1, next);
  }

  lemma MembersGoOn(env: Env, p: nat, next: nat, events: seq<Event>, count: nat)
    requires p <= |env.text| && Peek(env.text, p) == COMMA && GapIs(env, p + 1, next) && Begins(env, next)
    ensures next <= |env.text| && AfterMember(env, p, events, count) == ParseMembers(env, next, events, count)
  {
    hide Skip, ParseMembers;
    SkipTo(env, p + 1, next);
  }

  lemma {:induction false} ValueReads(env: Env, p: nat, q: nat, x: Tree, events: seq<Event>)
    requires Calm(env) && ValueIs(env, p, q, x) && p <= |env.text|
    ensures Recursive.ParseValue(env, p, events) == Ok(q, events + EventsOf(x))
    decreases x, 3
  {
    hide ParseScalar, ScalarIs, ParseElements, ParseMembers, Skip, ItemsAre, FieldsAre, GapIs;
    match x {
      case Leaf(e) =>
        ScalarBegins(env, p, q, e);
        ScalarReads(env, p, events, q, e);
      case Items(items, extra) => ArrayReads(env, p, q, items, extra, events);
      case Fields(fields, extra) => ObjectReads(env, p, q, fields, extra, events);
    }
  }

  lemma Flatten(a: seq<Event>, b: seq<Event>, c: seq<Event>, d: seq<Event>)
    ensures a + (b + c + d) == a + b + c + d
    ensures c == [] ==> a + (b + c + d) == a + b + d
  {}

  lemma ArrayEvents(events: seq<Event>, items: seq<Item>, extra: bool)
    ensures events + EventsOf(Items(items, extra)) == events + [StartArray] + ItemEvents(items) + [EndArray(|items|)]
    ensures items == [] ==> events + EventsOf(Items(items, extra)) == events + [StartArray] + [EndArray(0)]
  {
    NoEvents();
    ItemsSent(items, extra);
    hide EventsOf, ItemEvents;
    Flatten(events, [StartArray], ItemEvents(items), [EndArray(|items|)]);
  }

  lemma ObjectEvents(events: seq<Event>, fields: seq<Field>, extra: bool)
    ensures events + EventsOf(Fields(fields, extra)) == events + [StartObject] + FieldEvents(fields) + [EndObject(|fields|)]
    ensures fields == [] ==> events + EventsOf(Fields(fields, extra)) == events + [StartObject] + [EndObject(0)]
  {
    NoEvents();
    FieldsSent(fields, extra);
    hide EventsOf, FieldEvents;
    Flatten(events, [StartObject], FieldEvents(fields), [EndObject(|fields|)]);
  }

  lemma NoEvents()
    ensures ItemEvents([]) == [] && FieldEvents([]) == []
  {}

  lemma ItemsSent(items: seq<Item>, extra: bool)
    ensures EventsOf(Items(items, extra)) == [StartArray] + ItemEvents(items) + [EndArray(|items|)]
  {}

  lemma FieldsSent(fields: seq<Field>, extra: bool)
    ensures EventsOf(Fields(fields, extra)) == [StartObject] + FieldEvents(fields) + [EndObject(|fields|)]
  {}

  lemma {:induction false} ArrayReads(env: Env, p: nat, q: nat, items: seq<Item>, extra: bool, events: seq<Event>)
    requires Calm(env) && ValueIs(env, p, q, Items(items, extra)) && p <= |env.text|
    ensures Recursive.ParseValue(env, p, events) == Ok(q, events + EventsOf(Items(items, extra)))
    decreases items, 2
  {
    hide Recursive.ParseValue, ParseElements, Skip, ItemsAre, GapIs, EventsOf, ItemEvents;
    var open := events + [StartArray];
    ArrayEvents(events, items, extra);
    if items == [] {
      SkipTo(env, p + 1, q - 1);
      ArrayOpens(env, p, events, q - 1);
      Accepted(env, q, open, EndArray(0), q);
    } else {
      ItemBegins(env, items, extra, q);
      SkipTo(env, p + 1, items[0].start);
      ArrayOpens(env, p, events, items[0].start);
      ElementsRead(env, items, extra, q, open, 0);
    }
  }

  lemma ItemBegins(env: Env, items: seq<Item>, extra: bool, q: nat)
    requires items != [] && ItemsAre(env, items, extra, q)
    ensures Begins(env, items[0].start)
  {
    hide ValueIs;
    ValueBegins(env, items[0].start, items[0].end, items[0].value);
  }

  lemma ElementRead(env: Env, it: Item, events: seq<Event>, count: nat)
    requires it.start <= |env.text| && Recursive.ParseValue(env, it.start, events) == Ok(it.end, events + EventsOf(it.value))
    requires Skip(env, it.end) == Got(it.after, ())
    ensures it.after <= |env.text|
    ensures ParseElements(env, it.start, events, count) == AfterElement(env, it.after, events + EventsOf(it.value), count + 1)
  {
    hide Recursive.ParseValue, Skip, AfterElement;
  }

  lemma Regroup(a: seq<Event>, b: seq<Event>, c: seq<Event>, d: seq<Event>)
    ensures a + b + c + d == a + (b + c) + d && b + [] == b
  {}

  lemma {:induction false} ElementsRead(env: Env, items: seq<Item>, extra: bool, q: nat, events: seq<Event>, count: nat)
    requires Calm(env) && items != [] && ItemsAre(env, items, extra, q)
    ensures items[0].start <= |env.text|
    ensures ParseElements(env, items[0].start, events, count) == Ok(q, events + ItemEvents(items) + [EndArray(count + |items|)])
    decreases items, 1
  {
    hide Recursive.ParseValue, Skip, AfterElement, ParseElements, ValueIs, GapIs, ClosesAt, EventsOf, NoBlank, Begins, Calm;
    var it, rest := items[0], items[1..];
    var sent := EventsOf(it.value);
    assert it.value < it;
    ValueBegins(env, it.start, it.end, it.value);
    ValueReads(env, it.start, it.end, it.value, events);
    AfterItem(env, items, extra, q);
    SkipTo(env, it.end, it.after);
    ElementRead(env, it, events, count);
    Regroup(events, sent, ItemEvents(rest), [EndArray(count + |items|)]);
    if rest == [] {
      ElementsClose(env, it.after, extra, q, events + sent, count + 1);
    } else {
      ItemBegins(env, rest, extra, q);
      ElementsGoOn(env, it.after, items[1].start, events + sent, count + 1);
      ElementsRead(env, rest, extra, q, events + sent, count + 1);
    }
  }

  lemma AfterItem(env: Env, items: seq<Item>, extra: bool, q: nat)
    requires items != [] && ItemsAre(env, items, extra, q)
    ensures NoBlank(env, items[0].after)
  {
    hide ItemIs;
  }

  lemma {:induction false} ObjectReads(env: Env, p: nat, q: nat, fields: seq<Field>, extra: bool, events: seq<Event>)
    requires Calm(env) && ValueIs(env, p, q, Fields(fields, extra)) && p <= |env.text|
    ensures Recursive.ParseValue(env, p, events) == Ok(q, events + EventsOf(Fields(fields, extra)))
    decreases fields, 2
  {
    hide Recursive.ParseValue, ParseMembers, Skip, FieldsAre, GapIs, EventsOf, FieldEvents;
    var open := events + [StartObject];
    ObjectEvents(events, fields, extra);
    if fields == [] {
      SkipTo(env, p + 1, q - 1);
      ObjectOpens(env, p, events, q - 1);
      Accepted(env, q, open, EndObject(0), q);
    } else {
      FieldBegins(env, fields, extra, q);
      SkipTo(env, p + 1, fields[0].start);
      ObjectOpens(env, p, events, fields[0].start);
      MembersRead(env, fields, extra, q, open, 0);
    }
  }

  lemma FieldBegins(env: Env, fields: seq<Field>, extra: bool, q: nat)
    requires fields != [] && FieldsAre(env, fields, extra, q)
    ensures Begins(env, fields[0].start)
  {
    hide ValueIs, StringIs;
    StringBegins(env, fields[0].start, fields[0].end, fields[0].name);
  }

  lemma {:induction false} MemberRead(env: Env, fd: Field, events: seq<Event>)
    requires Calm(env) && FieldIs(env, fd) && NoBlank(env, fd.item.after)
    ensures fd.start <= |env.text| && fd.item.after <= |env.text|
    ensures ParseMember(env, fd.start, events) == Ok(fd.item.after, events + [Key(fd.name)] + EventsOf(fd.item.value))
    decreases fd, 0
  {
    hide Recursive.ParseValue, Skip, ValueIs, GapIs, StringIs, Recursive.ParseString;
    var it, named := fd.item, events + [Key(fd.name)];
    StringBegins(env, fd.start, fd.end, fd.name);
    StringReads(env, fd.start, events, true, fd.end, fd.name);
    SkipTo(env, fd.end, fd.colon);
    ValueBegins(env, it.start, it.end, it.value);
    SkipTo(env, fd.colon + 1, it.start);
    ValueReads(env, it.start, it.end, it.value, named);
    SkipTo(env, it.end, it.after);
  }

  lemma {:induction false} MembersRead(env: Env, fields: seq<Field>, extra: bool, q: nat, events: seq<Event>, count: nat)
    requires Calm(env) && fields != [] && FieldsAre(env, fields, extra, q)
    ensures fields[0].start <= |env.text|
    ensures ParseMembers(env, fields[0].start, events, count) == Ok(q, events + FieldEvents(fields) + [EndObject(count + |fields|)])
    decreases fields, 1
  {
    hide ParseMember, Skip, AfterMember, FieldIs, GapIs, ClosesAt, EventsOf, NoBlank, Begins, Calm;
    var fd, rest := fields[0], fields[1..];
    var sent := [Key(fd.name)] + EventsOf(fd.item.value);
    assert events + [Key(fd.name)] + EventsOf(fd.item.value) == events + sent;
    AfterField(env, fields, extra, q);
    MemberRead(env, fd, events);
    Regroup(events, sent, FieldEvents(rest), [EndObject(count + |fields|)]);
    if rest == [] {
      MembersClose(env, fd.item.after, extra, q, events + sent, count + 1);
    } else {
      FieldBegins(env, rest, extra, q);
      MembersGoOn(env, fd.item.after, fields[1].start, events + sent, count + 1);
      MembersRead(env, rest, extra, q, events + sent, count + 1);
    }
  }

  lemma AfterField(env: Env, fields: seq<Field>, extra: bool, q: nat)
    requires fields != [] && FieldsAre(env, fields, extra, q)
    ensures NoBlank(env, fields[0].item.after)
  {
    hide FieldIs;
  }

  // -------------------------------------------------------- Trees are found

  lemma SkippedTo(env: Env, p: nat)
    ensures Skip(env, p).Got? ==> GapIs(env, p, Skip(env, p).next)
  {
    hide Skip, GapIs;
    if Skip(env, p).Got? {
      assert Skip(env, p).value == ();
      SkipIff(env, p, Skip(env, p).next);
    }
  }

  lemma {:induction false} ValueStands(env: Env, p: nat, events: seq<Event>) returns (x: Tree)
    requires p <= |env.text|
    ensures var r := Recursive.ParseValue(env, p, events); r.Ok? ==> ValueIs(env, p, r.pos, x) && r.events == events + EventsOf(x)
    decreases |env.text| - p, 5
  {
    hide ParseScalar, ScalarIs, ParseArray, ParseObject;
    if Peek(env.text, p) == LBRACKET {
      x := ArrayStands(env, p, events);
    } else if Peek(env.text, p) == LBRACE {
      x := ObjectStands(env, p, events);
    } else {
      var e := ScalarStands(env, p, events);
      x := Leaf(e);
    }
  }

  lemma {:induction false} ArrayStands(env: Env, p: nat, events: seq<Event>) returns (x: Tree)
    requires p <= |env.text| && Peek(env.text, p) == LBRACKET
    ensures var r := ParseArray(env, p, events); r.Ok? ==> ValueIs(env, p, r.pos, x) && r.events == events + EventsOf(x)
    decreases |env.text| - p, 4
  {
    hide ParseElements, Skip, GapIs, ItemsAre, EventsOf, ItemEvents;
    SkippedTo(env, p + 1);
    x := Items([], false);
    var r := ParseArray(env, p, events);
    if r.Ok? {
      var q, open := Skip(env, p + 1).next, events + [StartArray];
      if Peek(env.text, q) == RBRACKET {
        ArrayEvents(events, [], false);
      } else {
        var items, extra := ElementsStand(env, q, open, 0);
        x := Items(items, extra);
        ArrayEvents(events, items, extra);
      }
    }
  }

  lemma {:induction false} ElementsStand(env: Env, p: nat, events: seq<Event>, count: nat) returns (items: seq<Item>, extra: bool)
    requires p <= |env.text|
    ensures items != [] && items[0].start == p
    ensures var r := ParseElements(env, p, events, count);
            r.Ok? ==> ItemsAre(env, items, extra, r.pos) && r.events == events + ItemEvents(items) + [EndArray(count + |items|)]
    decreases |env.text| - p, 6
  {
    hide Recursive.ParseValue, Skip, GapIs, ValueIs;
    items, extra := [Item(Leaf(Event.Null), p, p, p)], false;
    var r := ParseElements(env, p, events, count);
    if r.Ok? {
      var x := ValueStands(env, p, events);
      var v := Recursive.ParseValue(env, p, events);
      SkippedTo(env, v.pos);
      var it := Item(x, p, v.pos, Skip(env, v.pos).next);
      items, extra := ElementsEnd(env, it, v.events, count + 1);
    }
  }

  /** What stands after an element, with the element. */
  lemma {:induction false} ElementsEnd(env: Env, it: Item, events: seq<Event>, count: nat) returns (items: seq<Item>, extra: bool)
    requires it.start < it.after <= |env.text| && ItemIs(env, it)
    ensures items != [] && items[0] == it
    ensures var r := AfterElement(env, it.after, events, count);
            r.Ok? ==> ItemsAre(env, items, extra, r.pos)
                      && r.events == events + ItemEvents(items[1..]) + [EndArray(count + |items| - 1)]
    decreases |env.text| - it.after, 7
  {
    hide Skip, GapIs, ItemIs, ParseElements;
    items, extra := [it], false;
    var q := it.after;
    var r := AfterElement(env, q, events, count);
    assert items[1..] == [] && events + [] == events;
    if r.Ok? && Peek(env.text, q) == COMMA {
      SkippedTo(env, q + 1);
      var next := Skip(env, q + 1).next;
      if env.flags.trailingCommas && Peek(env.text, next) == RBRACKET {
        extra := true;
      } else {
        var rest;
        rest, extra := ElementsStand(env, next, events, count);
        items := [it] + rest;
        assert items[1..] == rest;
      }
    }
  }

  lemma {:induction false} ObjectStands(env: Env, p: nat, events: seq<Event>) returns (x: Tree)
    requires p <= |env.text| && Peek(env.text, p) == LBRACE
    ensures var r := ParseObject(env, p, events); r.Ok? ==> ValueIs(env, p, r.pos, x) && r.events == events + EventsOf(x)
    decreases |env.text| - p, 4
  {
    hide ParseMembers, Skip, GapIs, FieldsAre, EventsOf, FieldEvents;
    SkippedTo(env, p + 1);
    x := Fields([], false);
    var r := ParseObject(env, p, events);
    if r.Ok? {
      var q, open := Skip(env, p + 1).next, events + [StartObject];
      if Peek(env.text, q) == RBRACE {
        ObjectEvents(events, [], false);
      } else {
        var fields, extra := MembersStand(env, q, open, 0);
        x := Fields(fields, extra);
        ObjectEvents(events, fields, extra);
      }
    }
  }

  lemma {:induction false} MemberStands(env: Env, p: nat, events: seq<Event>) returns (fd: Field)
    requires p <= |env.text|
    ensures fd.start == p
    ensures var r := ParseMember(env, p, events);
            r.Ok? ==> FieldIs(env, fd) && fd.item.after == r.pos && r.events == events + ([Key(fd.name)] + EventsOf(fd.item.value))
    decreases |env.text| - p, 6
  {
    hide Recursive.ParseValue, Recursive.ParseString, Skip, GapIs, ValueIs, StringIs;
    fd := Field([], p, p, p, Item(Leaf(Event.Null), p, p, p));
    var r := ParseMember(env, p, events);
    if r.Ok? {
      var name := StringStands(env, p, events, true);
      var s := Recursive.ParseString(env, p, events, true);
      SkippedTo(env, s.pos);
      var colon := Skip(env, s.pos).next;
      SkippedTo(env, colon + 1);
      var start := Skip(env, colon + 1).next;
      var x := ValueStands(env, start, s.events);
      var v := Recursive.ParseValue(env, start, s.events);
      SkippedTo(env, v.pos);
      fd := Field(name, p, s.pos, colon, Item(x, start, v.pos, Skip(env, v.pos).next));
      assert events + [Key(name)] + EventsOf(x) == events + ([Key(name)] + EventsOf(x));
    }
  }

  lemma {:induction false} MembersStand(env: Env, p: nat, events: seq<Event>, count: nat) returns (fields: seq<Field>, extra: bool)
    requires p <= |env.text|
    ensures fields != [] && fields[0].start == p
    ensures var r := ParseMembers(env, p, events, count);
            r.Ok? ==> FieldsAre(env, fields, extra, r.pos) && r.events == events + FieldEvents(fields) + [EndObject(count + |fields|)]
    decreases |env.text| - p, 7
  {
    hide ParseMember, Skip, GapIs, FieldIs;
    var fd := MemberStands(env, p, events);
    fields, extra := [fd], false;
    var r := ParseMembers(env, p, events, count);
    if r.Ok? {
      fields, extra := MembersEnd(env, fd, ParseMember(env, p, events).events, count + 1);
    }
  }

  /** What stands after a member, with the member. */
  lemma {:induction false} MembersEnd(env: Env, fd: Field, events: seq<Event>, count: nat) returns (fields: seq<Field>, extra: bool)
    requires fd.start < fd.item.after <= |env.text| && FieldIs(env, fd)
    ensures fields != [] && fields[0] == fd
    ensures var r := AfterMember(env, fd.item.after, events, count);
            r.Ok? ==> FieldsAre(env, fields, extra, r.pos)
                      && r.events == events + FieldEvents(fields[1..]) + [EndObject(count + |fields| - 1)]
    decreases |env.text| - fd.item.after, 8
  {
    hide Skip, GapIs, FieldIs, ParseMembers;
    fields, extra := [fd], false;
    var q := fd.item.after;
    var r := AfterMember(env, q, events, count);
    assert fields[1..] == [] && events + [] == events;
    if r.Ok? && Peek(env.text, q) == COMMA {
      SkippedTo(env, q + 1);
      var next := Skip(env, q + 1).next;
      if env.flags.trailingCommas && Peek(env.text, next) == RBRACE {
        extra := true;
      } else {
        var rest;
        rest, extra := MembersStand(env, next, events, count);
        fields := [fd] + rest;
        assert fields[1..] == rest;
      }
    }
  }

  // --------------------------------------------------------------- Theorems

  /** A tree stands in the text as its one value, with gaps around it, up to the end unless reading stops after it. */
  ghost predicate DocumentIs(env: Env, x: Tree, start: nat, q: nat, end: nat) {
    && GapIs(env, 0, start) && ValueIs(env, start, q, x)
    && if env.flags.stopWhenDone then end == q else GapIs(env, q, end) && Peek(env.text, end) == 0
  }

  /** A text is accepted exactly when a tree stands in it, and the events sent are those of the tree. */
  lemma ParsedIff(env: Env, end: nat, events: seq<Event>)
    requires Calm(env)
    ensures Recursive.Parse(env) == Ok(end, events) <==>
            exists x, start, q :: DocumentIs(env, x, start, q, end) && events == EventsOf(x)
  {
    hide Recursive.ParseValue, ValueIs, GapIs, Skip, Calm;
    if Recursive.Parse(env) == Ok(end, events) {
      SkippedTo(env, 0);
      var start := Skip(env, 0).next;
      var x := ValueStands(env, start, []);
      var q := Recursive.ParseValue(env, start, []).pos;
      SkippedTo(env, q);
      assert [] + EventsOf(x) == EventsOf(x);
      assert DocumentIs(env, x, start, q, end);
    }
    forall x, start, q | DocumentIs(env, x, start, q, end)
      ensures Recursive.Parse(env) == Ok(end, EventsOf(x))
    {
      DocumentReads(env, x, start, q, end);
    }
  }

  lemma DocumentReads(env: Env, x: Tree, start: nat, q: nat, end: nat)
    requires Calm(env) && DocumentIs(env, x, start, q, end)
    ensures Recursive.Parse(env) == Ok(end, EventsOf(x))
  {
    hide Recursive.ParseValue, ValueIs, GapIs, Skip, Calm;
    ValueBegins(env, start, q, x);
    SkipTo(env, 0, start);
    ValueReads(env, start, q, x, []);
    assert [] + EventsOf(x) == EventsOf(x);
    if !env.flags.stopWhenDone {
      SkipTo(env, q, end);
    }
  }

  /** The same holds of the iterative parser. */
  lemma IterativelyParsedIff(env: Env, end: nat, events: seq<Event>)
    requires Calm(env)
    ensures Iterative.Parse(env) == Ok(end, events) <==>
            exists x, start, q :: DocumentIs(env, x, start, q, end) && events == EventsOf(x)
  {
    hide Recursive.Parse, Iterative.Parse, DocumentIs, Calm;
    Equivalence.ParsersAgree(env);
    ParsedIff(env, end, events);
  }
}
