/** Whatever text a parser accepts, the events it sends build exactly one value. */
module Trees {
  import opened Text
  import Sax
  import opened Lexer
  import Numbers
  import opened Recursive
  import opened Dom

  /** The events, handled by a document, push these cells and touch nothing below them. */
  ghost predicate Pushes(events: seq<Sax.Event>, cells: seq<Value>) {
    forall stack :: BuildAll(stack, events) == Some(stack + cells)
  }

  lemma PushesBoth(a: seq<Sax.Event>, x: seq<Value>, b: seq<Sax.Event>, y: seq<Value>)
    requires Pushes(a, x) && Pushes(b, y)
    ensures Pushes(a + b, x + y)
  {
    forall stack ensures BuildAll(stack, a + b) == Some(stack + (x + y)) {
      BuildAllConcat(stack, a, b);
      assert stack + x + y == stack + (x + y);
    }
  }

  lemma PushesOne(e: Sax.Event, v: Value)
    requires forall stack :: Build(stack, e) == Some(stack + [v])
    ensures Pushes([e], [v])
  {
    forall stack ensures BuildAll(stack, [e]) == Some(stack + [v]) {
      assert Build(stack, e) == Some(stack + [v]);
    }
  }

  lemma PushesNothing()
    ensures Pushes([], [])
  {
    forall stack: seq<Value> ensures BuildAll(stack, []) == Some(stack + []) {
      assert stack + [] == stack;
    }
  }

  lemma PushesArray(events: seq<Sax.Event>, vs: seq<Value>)
    requires Pushes(events, vs)
    ensures Pushes([Sax.StartArray] + events + [Sax.EndArray(|vs|)], [Array(vs)])
  {
    hide BuildAll;
    var all := [Sax.StartArray] + events + [Sax.EndArray(|vs|)];
    forall stack ensures BuildAll(stack, all) == Some(stack + [Array(vs)]) {
      var full := stack + [Array([])] + vs;
      assert BuildAll(stack + [Array([])], events) == Some(full);
      BuildBracketed(stack, Sax.StartArray, events, Sax.EndArray(|vs|), full);
      assert full[..|full| - |vs| - 1] == stack && full[|full| - |vs|..] == vs;
    }
  }

  lemma PushesObject(events: seq<Sax.Event>, ms: seq<Member>)
    requires Pushes(events, Cells(ms))
    ensures Pushes([Sax.StartObject] + events + [Sax.EndObject(|ms|)], [Object(ms)])
  {
    hide BuildAll, Cells;
    var all := [Sax.StartObject] + events + [Sax.EndObject(|ms|)];
    forall stack ensures BuildAll(stack, all) == Some(stack + [Object(ms)]) {
      var full := stack + [Object([])] + Cells(ms);
      assert BuildAll(stack + [Object([])], events) == Some(full);
      assert Build(stack, Sax.StartObject) == Some(stack + [Object([])]);
      BuildObjectEnd(stack, ms);
      hide Build;
      BuildBracketed(stack, Sax.StartObject, events, Sax.EndObject(|ms|), full);
    }
  }

  lemma CellsConcat(m: Member, ms: seq<Member>)
    ensures Cells([m] + ms) == [Value.String(m.name), m.value] + Cells(ms)
  {
    assert ([m] + ms)[1..] == ms;
  }

  /** The value a number event builds. */
  lemma NumberTree(env: Sax.Env, p: nat) returns (v: Value)
    requires Numbers.ParseNumber(env, p).Got?
    ensures Sound(v) && Pushes([Numbers.ParseNumber(env, p).value], [v])
  {
    var e := Numbers.ParseNumber(env, p).value;
    EventRange(env, p);
    match e {
      case Int(n) => v := Integer(n); ConstructorsAgree(n);
      case Uint(n) => v := Integer(n); ConstructorsAgree(n);
      case Int64(n) => v := Integer(n); ConstructorsAgree(n);
      case Uint64(n) => v := Integer(n); ConstructorsAgree(n);
      case Double(lexeme) => v := Value.Double(lexeme);
    }
    PushesOne(e, v);
  }

  /** The event of a number holds what its C++ type can hold. */
  lemma EventRange(env: Sax.Env, p: nat)
    requires Numbers.ParseNumber(env, p).Got?
    ensures match Numbers.ParseNumber(env, p).value
            case Int(n) => -TWO_31 <= n < TWO_31
            case Uint(n) => 0 <= n < TWO_32
            case Int64(n) => -TWO_63 <= n < TWO_63
            case Uint64(n) => 0 <= n < TWO_64
            case Double(_) => true
            case _ => false
  {
    hide Numbers.ParseFraction, Numbers.ParseExponent, Numbers.DigitsValue, Numbers.Integer;
    var minus := Peek(env.text, p) == MINUS;
    IntegerRange(env, minus, if minus then p + 1 else p, p);
  }

  lemma IntegerRange(env: Sax.Env, minus: bool, q: nat, start: nat)
    requires Numbers.Integer(env, minus, q, start).Got?
    ensures var sig := Numbers.Integer(env, minus, q, start).value.sig;
            (sig.Narrow? ==> sig.n <= Numbers.NarrowLimit(minus)) && (sig.Wide? ==> sig.n <= Numbers.WideLimit(minus))
  {
    hide Numbers.DigitsValue, Numbers.DigitsEnd, Match;
  }

  lemma ScalarTree(env: Sax.Env, p: nat, events: seq<Sax.Event>) returns (es: seq<Sax.Event>, v: Value)
    requires p <= |env.text| && ParseScalar(env, p, events).Ok?
    ensures ParseScalar(env, p, events).events == events + es && Sound(v) && Pushes(es, [v])
  {
    hide Pushes;
    var c := Peek(env.text, p);
    if c == LOWER_N {
      es, v := [Sax.Event.Null], Value.Null;
      PushesOne(Sax.Event.Null, v);
    } else if c == LOWER_T || c == LOWER_F {
      v := Value.Bool(c == LOWER_T);
      es := [Sax.Event.Bool(c == LOWER_T)];
      PushesOne(es[0], v);
    } else if c == QUOTE {
      var s := StringBody(env.flags.validateEncoding, env.text, p + 1, []).value;
      es, v := [Sax.Event.String(s)], Value.String(s);
      PushesOne(es[0], v);
    } else {
      v := NumberTree(env, p);
      es := [Numbers.ParseNumber(env, p).value];
    }
  }

  /** What a value's text sends builds one sound value. */
  lemma ValueTree(env: Sax.Env, p: nat, events: seq<Sax.Event>) returns (es: seq<Sax.Event>, v: Value)
    requires p <= |env.text| && ParseValue(env, p, events).Ok?
    ensures ParseValue(env, p, events).events == events + es && Sound(v) && Pushes(es, [v])
    decreases |env.text| - p, 2
  {
    hide Pushes, ParseScalar;
    if Peek(env.text, p) == LBRACE {
      es, v := ObjectTree(env, p, events);
    } else if Peek(env.text, p) == LBRACKET {
      es, v := ArrayTree(env, p, events);
    } else {
      es, v := ScalarTree(env, p, events);
    }
  }

  lemma ArrayTree(env: Sax.Env, p: nat, events: seq<Sax.Event>) returns (es: seq<Sax.Event>, v: Value)
    requires p <= |env.text| && Peek(env.text, p) == LBRACKET && ParseArray(env, p, events).Ok?
    ensures ParseArray(env, p, events).events == events + es && Sound(v) && Pushes(es, [v])
    decreases |env.text| - p, 1
  {
    hide Pushes, ParseElements;
    var q := Skip(env, p + 1).next;
    var begun := events + [Sax.StartArray];
    assert ParseArray(env, p, events) == ArrayBody(env, q, begun);
    var inner, vs := [], [];
    if Peek(env.text, q) == RBRACKET {
      PushesNothing();
    } else {
      inner, vs := ElementsTree(env, q, begun, 0);
    }
    PushesArray(inner, vs);
    es, v := [Sax.StartArray] + inner + [Sax.EndArray(|vs|)], Array(vs);
    assert begun + inner + [Sax.EndArray(|vs|)] == events + es;
  }

  /** Elements, and the event that closes the array they end. */
  lemma ElementsTree(env: Sax.Env, p: nat, events: seq<Sax.Event>, count: nat) returns (es: seq<Sax.Event>, vs: seq<Value>)
    requires p <= |env.text| && ParseElements(env, p, events, count).Ok?
    ensures ParseElements(env, p, events, count).events == events + es + [Sax.EndArray(count + |vs|)]
    ensures (forall v | v in vs :: Sound(v)) && Pushes(es, vs)
    decreases |env.text| - p, 3
  {
    hide Pushes, ParseValue;
    var first, v := ValueTree(env, p, events);
    var q := Skip(env, ParseValue(env, p, events).pos).next;
    assert ParseElements(env, p, events, count) == AfterElement(env, q, events + first, count + 1);
    var rest, more := AfterElementTree(env, q, events + first, count + 1);
    es, vs := first + rest, [v] + more;
    PushesBoth(first, [v], rest, more);
    assert events + first + rest == events + es;
  }

  lemma AfterElementTree(env: Sax.Env, q: nat, events: seq<Sax.Event>, count: nat) returns (es: seq<Sax.Event>, vs: seq<Value>)
    requires q <= |env.text| && AfterElement(env, q, events, count).Ok?
    ensures AfterElement(env, q, events, count).events == events + es + [Sax.EndArray(count + |vs|)]
    ensures (forall v | v in vs :: Sound(v)) && Pushes(es, vs)
    decreases |env.text| - q, 4
  {
    hide Pushes, ParseElements;
    es, vs := [], [];
    PushesNothing();
    assert events + [] == events;
    if Peek(env.text, q) == COMMA {
      var next := Skip(env, q + 1).next;
      if !(env.flags.trailingCommas && Peek(env.text, next) == RBRACKET) {
        es, vs := ElementsTree(env, next, events, count);
      }
    }
  }

  lemma ObjectTree(env: Sax.Env, p: nat, events: seq<Sax.Event>) returns (es: seq<Sax.Event>, v: Value)
    requires p <= |env.text| && Peek(env.text, p) == LBRACE && ParseObject(env, p, events).Ok?
    ensures ParseObject(env, p, events).events == events + es && Sound(v) && Pushes(es, [v])
    decreases |env.text| - p, 1
  {
    hide Pushes, ParseMembers, Cells;
    var q := Skip(env, p + 1).next;
    var begun := events + [Sax.StartObject];
    assert ParseObject(env, p, events) == ObjectBody(env, q, begun);
    var inner, ms := [], [];
    if Peek(env.text, q) == RBRACE {
      PushesNothing();
      assert Cells([]) == [];
    } else {
      inner, ms := MembersTree(env, q, begun, 0);
    }
    PushesObject(inner, ms);
    es, v := [Sax.StartObject] + inner + [Sax.EndObject(|ms|)], Object(ms);
    assert begun + inner + [Sax.EndObject(|ms|)] == events + es;
  }

  /** Members, and the event that closes the object they end. */
  lemma MembersTree(env: Sax.Env, p: nat, events: seq<Sax.Event>, count: nat) returns (es: seq<Sax.Event>, ms: seq<Member>)
    requires p <= |env.text| && ParseMembers(env, p, events, count).Ok?
    ensures ParseMembers(env, p, events, count).events == events + es + [Sax.EndObject(count + |ms|)]
    ensures (forall m | m in ms :: Sound(m.value)) && Pushes(es, Cells(ms))
    decreases |env.text| - p, 3
  {
    hide Pushes, ParseMember, Cells;
    var first, m := MemberTree(env, p, events);
    var q := ParseMember(env, p, events).pos;
    assert ParseMembers(env, p, events, count) == AfterMember(env, q, events + first, count + 1);
    var rest, more := AfterMemberTree(env, q, events + first, count + 1);
    es, ms := first + rest, [m] + more;
    PushesBoth(first, [Value.String(m.name), m.value], rest, Cells(more));
    CellsConcat(m, more);
    assert events + first + rest == events + es;
  }

  lemma AfterMemberTree(env: Sax.Env, q: nat, events: seq<Sax.Event>, count: nat) returns (es: seq<Sax.Event>, ms: seq<Member>)
    requires q <= |env.text| && AfterMember(env, q, events, count).Ok?
    ensures AfterMember(env, q, events, count).events == events + es + [Sax.EndObject(count + |ms|)]
    ensures (forall m | m in ms :: Sound(m.value)) && Pushes(es, Cells(ms))
    decreases |env.text| - q, 4
  {
    hide Pushes, ParseMembers;
    es, ms := [], [];
    PushesNothing();
    assert Cells([]) == [];
    assert events + [] == events;
    if Peek(env.text, q) == COMMA {
      var next := Skip(env, q + 1).next;
      if !(env.flags.trailingCommas && Peek(env.text, next) == RBRACE) {
        es, ms := MembersTree(env, next, events, count);
      }
    }
  }

  lemma MemberTree(env: Sax.Env, p: nat, events: seq<Sax.Event>) returns (es: seq<Sax.Event>, m: Member)
    requires p <= |env.text| && ParseMember(env, p, events).Ok?
    ensures ParseMember(env, p, events).events == events + es
    ensures Sound(m.value) && Pushes(es, [Value.String(m.name), m.value])
    decreases |env.text| - p, 2
  {
    hide Pushes, ParseValue, StringBody;
    var name := StringBody(env.flags.validateEncoding, env.text, p + 1, []).value;
    var named := events + [Sax.Key(name)];
    var p1 := ParseString(env, p, events, true).pos;
    var p3 := Skip(env, Skip(env, p1).next + 1).next;
    var rest, v := ValueTree(env, p3, named);
    m := Member(name, v);
    es := [Sax.Key(name)] + rest;
    PushesOne(Sax.Key(name), Value.String(name));
    PushesBoth([Sax.Key(name)], [Value.String(name)], rest, [v]);
    assert [Value.String(name)] + [v] == [Value.String(m.name), m.value];
    assert named + rest == events + es;
  }

  /** Every text that is accepted, whatever the flags and the handler, builds one root and nothing else. */
  lemma ParsedTree(env: Sax.Env)
    ensures Parse(env).Ok? ==> exists v :: Sound(v) && BuildAll([], Parse(env).events) == Some([v])
  {
    hide BuildAll, ParseValue;
    if Parse(env).Ok? {
      var es, v := ValueTree(env, Skip(env, 0).next, []);
      assert [] + es == es && [] + [v] == [v];
      assert BuildAll([], es) == Some([] + [v]);
    }
  }

  // ------------------------------------------- Parses that do not come to an end

  /** A document handles the events, whatever is on its stack. */
  ghost predicate Handled(events: seq<Sax.Event>) {
    forall stack :: BuildAll(stack, events).Some?
  }

  /** A document handles the events inside an array of which it has that many elements. */
  ghost predicate HandledInArray(events: seq<Sax.Event>, count: nat) {
    forall stack, vs: seq<Value> | |vs| == count :: BuildAll(stack + [Array([])] + vs, events).Some?
  }

  /** A document handles the events inside an object of which it has that many members. */
  ghost predicate HandledInObject(events: seq<Sax.Event>, count: nat) {
    forall stack, ms | |ms| == count :: BuildAll(stack + [Object([])] + Cells(ms), events).Some?
  }

  lemma HandledInside(events: seq<Sax.Event>, count: nat)
    requires Handled(events)
    ensures HandledInArray(events, count) && HandledInObject(events, count)
  {
    hide BuildAll, Cells;
  }

  lemma PushesHandled(events: seq<Sax.Event>, cells: seq<Value>)
    requires Pushes(events, cells)
    ensures Handled(events)
  {
    hide BuildAll;
  }

  lemma NothingHandled()
    ensures Handled([])
  {}

  lemma HandledOne(e: Sax.Event)
    requires forall stack :: Build(stack, e).Some?
    ensures Handled([e])
  {
    forall stack ensures BuildAll(stack, [e]).Some? {
      assert Build(stack, e).Some?;
    }
  }

  /** What the end of a container asks of the stack is there. */
  lemma EndHandled(count: nat)
    ensures HandledInArray([Sax.EndArray(count)], count) && HandledInObject([Sax.EndObject(count)], count)
  {
    forall stack, vs: seq<Value> | |vs| == count ensures BuildAll(stack + [Array([])] + vs, [Sax.EndArray(count)]).Some? {
      assert Build(stack + [Array([])] + vs, Sax.EndArray(count)).Some?;
    }
    forall stack, ms | |ms| == count ensures BuildAll(stack + [Object([])] + Cells(ms), [Sax.EndObject(count)]).Some? {
      BuildObjectEnd(stack, ms);
      assert Build(stack + [Object([])] + Cells(ms), Sax.EndObject(count)).Some?;
    }
  }

  lemma OpenedHandled(events: seq<Sax.Event>)
    ensures HandledInArray(events, 0) ==> Handled([Sax.StartArray] + events)
    ensures HandledInObject(events, 0) ==> Handled([Sax.StartObject] + events)
  {
    forall stack | HandledInArray(events, 0) ensures BuildAll(stack, [Sax.StartArray] + events).Some? {
      assert stack + [Array([])] + [] == stack + [Array([])];
      assert BuildAll(stack + [Array([])] + [], events).Some?;
      assert ([Sax.StartArray] + events)[1..] == events;
    }
    forall stack | HandledInObject(events, 0) ensures BuildAll(stack, [Sax.StartObject] + events).Some? {
      assert stack + [Object([])] + Cells([]) == stack + [Object([])];
      assert BuildAll(stack + [Object([])] + Cells([]), events).Some?;
      assert ([Sax.StartObject] + events)[1..] == events;
    }
  }

  lemma ElementThenHandled(first: seq<Sax.Event>, v: Value, rest: seq<Sax.Event>, count: nat)
    requires Pushes(first, [v]) && HandledInArray(rest, count + 1)
    ensures HandledInArray(first + rest, count)
  {
    hide BuildAll;
    forall stack, vs: seq<Value> | |vs| == count ensures BuildAll(stack + [Array([])] + vs, first + rest).Some? {
      var now := stack + [Array([])] + vs;
      BuildAllConcat(now, first, rest);
      assert BuildAll(now, first) == Some(now + [v]);
      assert now + [v] == stack + [Array([])] + (vs + [v]);
      assert BuildAll(stack + [Array([])] + (vs + [v]), rest).Some?;
    }
  }

  lemma MemberThenHandled(first: seq<Sax.Event>, m: Member, rest: seq<Sax.Event>, count: nat)
    requires Pushes(first, [Value.String(m.name), m.value]) && HandledInObject(rest, count + 1)
    ensures HandledInObject(first + rest, count)
  {
    hide BuildAll, Cells;
    forall stack, ms: seq<Member> | |ms| == count ensures BuildAll(stack + [Object([])] + Cells(ms), first + rest).Some? {
      var now := stack + [Object([])] + Cells(ms);
      var cells := [Value.String(m.name), m.value];
      BuildAllConcat(now, first, rest);
      assert BuildAll(now, first) == Some(now + cells);
      CellsMore(ms, m);
      assert now + cells == stack + [Object([])] + Cells(ms + [m]);
      assert BuildAll(stack + [Object([])] + Cells(ms + [m]), rest).Some?;
    }
  }

  lemma {:induction false} CellsMore(ms: seq<Member>, m: Member)
    ensures Cells(ms + [m]) == Cells(ms) + [Value.String(m.name), m.value]
    decreases ms
  {
    if ms == [] {
      assert ms + [m] == [m] && Cells([m]) == [Value.String(m.name), m.value] + Cells([]);
    } else {
      assert (ms + [m])[0] == ms[0] && (ms + [m])[1..] == ms[1..] + [m];
      CellsMore(ms[1..], m);
    }
  }

  /** What is sent by a value's text that is given up. */
  lemma ValueStopped(env: Sax.Env, p: nat, events: seq<Sax.Event>) returns (es: seq<Sax.Event>)
    requires p <= |env.text| && ParseValue(env, p, events).Err?
    ensures ParseValue(env, p, events).events == events + es && Handled(es)
    decreases |env.text| - p, 2
  {
    hide Handled, ParseScalar;
    if Peek(env.text, p) == LBRACE {
      es := ObjectStopped(env, p, events);
    } else if Peek(env.text, p) == LBRACKET {
      es := ArrayStopped(env, p, events);
    } else {
      es := ScalarStopped(env, p, events);
    }
  }

  /** Nothing has been sent, or the one event that was refused. */
  lemma ScalarStopped(env: Sax.Env, p: nat, events: seq<Sax.Event>) returns (es: seq<Sax.Event>)
    requires p <= |env.text| && ParseScalar(env, p, events).Err?
    ensures ParseScalar(env, p, events).events == events + es && Handled(es)
  {
    hide Handled, StringBody, Numbers.ParseNumber, Match, BuildAll;
    NothingHandled();
    var r := ParseScalar(env, p, events);
    if r.events == events {
      es := [];
    } else {
      var e := r.events[|r.events| - 1];
      es := [e];
      if Numbers.ParseNumber(env, p).Got? && e == Numbers.ParseNumber(env, p).value {
        EventRange(env, p);
      }
      HandledOne(e);
    }
  }

  lemma ArrayStopped(env: Sax.Env, p: nat, events: seq<Sax.Event>) returns (es: seq<Sax.Event>)
    requires p <= |env.text| && Peek(env.text, p) == LBRACKET && ParseArray(env, p, events).Err?
    ensures ParseArray(env, p, events).events == events + es && Handled(es)
    decreases |env.text| - p, 1
  {
    hide Handled, HandledInArray, HandledInObject, ParseElements;
    var begun := events + [Sax.StartArray];
    var inner: seq<Sax.Event> := [];
    NothingHandled();
    HandledInside([], 0);
    if env.accepts(begun) && Skip(env, p + 1).Got? {
      var q := Skip(env, p + 1).next;
      if Peek(env.text, q) == RBRACKET {
        EndHandled(0);
        inner := [Sax.EndArray(0)];
      } else {
        inner := ElementsStopped(env, q, begun, 0);
      }
    }
    OpenedHandled(inner);
    es := [Sax.StartArray] + inner;
    assert begun + inner == events + es;
  }

  lemma ElementsStopped(env: Sax.Env, p: nat, events: seq<Sax.Event>, count: nat) returns (es: seq<Sax.Event>)
    requires p <= |env.text| && ParseElements(env, p, events, count).Err?
    ensures ParseElements(env, p, events, count).events == events + es && HandledInArray(es, count)
    decreases |env.text| - p, 3
  {
    hide Handled, HandledInArray, HandledInObject, ParseValue, AfterElement, Pushes;
    var value := ParseValue(env, p, events);
    if value.Err? {
      es := ValueStopped(env, p, events);
      HandledInside(es, count);
    } else {
      var first, v := ValueTree(env, p, events);
      if Skip(env, value.pos).Bad? {
        es := first;
        PushesHandled(es, [v]);
        HandledInside(es, count);
      } else {
        var rest := AfterElementStopped(env, Skip(env, value.pos).next, events + first, count + 1);
        es := first + rest;
        ElementThenHandled(first, v, rest, count);
        assert events + first + rest == events + es;
      }
    }
  }

  lemma AfterElementStopped(env: Sax.Env, q: nat, events: seq<Sax.Event>, count: nat) returns (es: seq<Sax.Event>)
    requires q <= |env.text| && AfterElement(env, q, events, count).Err?
    ensures AfterElement(env, q, events, count).events == events + es && HandledInArray(es, count)
    decreases |env.text| - q, 4
  {
    hide Handled, HandledInArray, HandledInObject, ParseElements;
    NothingHandled();
    HandledInside([], count);
    EndHandled(count);
    assert events + [] == events;
    es := if AfterElement(env, q, events, count).events == events then [] else [Sax.EndArray(count)];
    if Peek(env.text, q) == COMMA && Skip(env, q + 1).Got? {
      var next := Skip(env, q + 1).next;
      if !(env.flags.trailingCommas && Peek(env.text, next) == RBRACKET) {
        es := ElementsStopped(env, next, events, count);
      }
    }
  }

  lemma ObjectStopped(env: Sax.Env, p: nat, events: seq<Sax.Event>) returns (es: seq<Sax.Event>)
    requires p <= |env.text| && Peek(env.text, p) == LBRACE && ParseObject(env, p, events).Err?
    ensures ParseObject(env, p, events).events == events + es && Handled(es)
    decreases |env.text| - p, 1
  {
    hide Handled, HandledInArray, HandledInObject, ParseMembers;
    var begun := events + [Sax.StartObject];
    var inner: seq<Sax.Event> := [];
    NothingHandled();
    HandledInside([], 0);
    if env.accepts(begun) && Skip(env, p + 1).Got? {
      var q := Skip(env, p + 1).next;
      if Peek(env.text, q) == RBRACE {
        EndHandled(0);
        inner := [Sax.EndObject(0)];
      } else {
        inner := MembersStopped(env, q, begun, 0);
      }
    }
    OpenedHandled(inner);
    es := [Sax.StartObject] + inner;
    assert begun + inner == events + es;
  }

  lemma MembersStopped(env: Sax.Env, p: nat, events: seq<Sax.Event>, count: nat) returns (es: seq<Sax.Event>)
    requires p <= |env.text| && ParseMembers(env, p, events, count).Err?
    ensures ParseMembers(env, p, events, count).events == events + es && HandledInObject(es, count)
    decreases |env.text| - p, 3
  {
    hide Handled, HandledInArray, HandledInObject, ParseMember, AfterMember, Pushes;
    var member := ParseMember(env, p, events);
    if member.Err? {
      es := MemberStopped(env, p, events);
      HandledInside(es, count);
    } else {
      var first, m := MemberTree(env, p, events);
      var rest := AfterMemberStopped(env, member.pos, events + first, count + 1);
      es := first + rest;
      MemberThenHandled(first, m, rest, count);
      assert events + first + rest == events + es;
    }
  }

  lemma AfterMemberStopped(env: Sax.Env, q: nat, events: seq<Sax.Event>, count: nat) returns (es: seq<Sax.Event>)
    requires q <= |env.text| && AfterMember(env, q, events, count).Err?
    ensures AfterMember(env, q, events, count).events == events + es && HandledInObject(es, count)
    decreases |env.text| - q, 4
  {
    hide Handled, HandledInArray, HandledInObject, ParseMembers;
    NothingHandled();
    HandledInside([], count);
    EndHandled(count);
    assert events + [] == events;
    es := if AfterMember(env, q, events, count).events == events then [] else [Sax.EndObject(count)];
    if Peek(env.text, q) == COMMA && Skip(env, q + 1).Got? {
      var next := Skip(env, q + 1).next;
      if !(env.flags.trailingCommas && Peek(env.text, next) == RBRACE) {
        es := MembersStopped(env, next, events, count);
      }
    }
  }

  lemma MemberStopped(env: Sax.Env, p: nat, events: seq<Sax.Event>) returns (es: seq<Sax.Event>)
    requires p <= |env.text| && ParseMember(env, p, events).Err?
    ensures ParseMember(env, p, events).events == events + es && Handled(es)
    decreases |env.text| - p, 2
  {
    hide Handled, ParseValue, StringBody, BuildAll, Pushes;
    NothingHandled();
    assert events + [] == events;
    es := [];
    var body := StringBody(env.flags.validateEncoding, env.text, p + 1, []);
    if Peek(env.text, p) == QUOTE && body.Got? {
      var key := Sax.Key(body.value);
      es := [key];
      PushesOne(key, Value.String(body.value));
      PushesHandled(es, [Value.String(body.value)]);
      var p1 := ParseString(env, p, events, true);
      if p1.Ok? && Skip(env, p1.pos).Got? && Peek(env.text, Skip(env, p1.pos).next) == COLON
         && Skip(env, Skip(env, p1.pos).next + 1).Got? {
        var p3 := Skip(env, Skip(env, p1.pos).next + 1).next;
        var rest: seq<Sax.Event>;
        if ParseValue(env, p3, p1.events).Err? {
          rest := ValueStopped(env, p3, p1.events);
        } else {
          var v;
          rest, v := ValueTree(env, p3, p1.events);
          PushesHandled(rest, [v]);
        }
        HandledBoth([key], Value.String(body.value), rest);
        es := [key] + rest;
        assert events + [key] + rest == events + es;
      }
    }
  }

  lemma HandledBoth(a: seq<Sax.Event>, v: Value, b: seq<Sax.Event>)
    requires Pushes(a, [v]) && Handled(b)
    ensures Handled(a + b)
  {
    hide BuildAll;
    forall stack ensures BuildAll(stack, a + b).Some? {
      BuildAllConcat(stack, a, b);
      assert BuildAll(stack, a) == Some(stack + [v]);
    }
  }

  /**
   At every moment of every parse, also of one that fails or is stopped by its handler, a document that handles the
   events as they are sent has on its stack what each of them asks for.
   */
  lemma ParseIsHandled(env: Sax.Env, n: nat)
    requires n <= |Parse(env).events|
    ensures BuildAll([], Parse(env).events[..n]).Some?
  {
    hide BuildAll, ParseValue, Skip;
    var all := Parse(env).events;
    NothingHandled();
    var es: seq<Sax.Event> := [];
    if Skip(env, 0).Got? && Peek(env.text, Skip(env, 0).next) != NUL {
      var p := Skip(env, 0).next;
      if ParseValue(env, p, []).Err? {
        es := ValueStopped(env, p, []);
      } else {
        var v;
        es, v := ValueTree(env, p, []);
        PushesHandled(es, [v]);
      }
      assert [] + es == es;
    }
    assert all == es && Handled(es);
    BuildAllConcat([], all[..n], all[n..]);
    assert all[..n] + all[n..] == all;
  }
}
