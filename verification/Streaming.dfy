/**
 The streaming validator, with all its nested validators, accepts exactly the values the schema accepts; while
 it runs its path names the value it is at, and when it stops the path names the value that is to blame.
 */
module Streaming {
  import opened Text
  import Sax
  import opened Dom
  import opened Hashes
  import opened Schemas
  import opened Printer
  import opened Offenders
  import opened Validation
  import opened Positions

  // -------------------------------------------------------------------- Paths

  function PathText(path: Path): seq<Byte> {
    if path == [] then [] else Token(path[0]) + PathText(path[1..])
  }

  lemma {:induction false} TokenHasNoSlash(name: seq<Byte>)
    ensures SLASH !in EscapeToken(name)
  {
    if name != [] {
      TokenHasNoSlash(name[1..]);
    }
  }

  lemma {:induction false} PopAfterSlash(doc: seq<Byte>, tail: seq<Byte>)
    requires SLASH !in tail
    ensures PopToken(doc + [SLASH] + tail) == doc
    decreases tail
  {
    var d := doc + [SLASH] + tail;
    if tail == [] {
      assert d[|d| - 1] == SLASH && d[..|d| - 1] == doc;
    } else {
      assert d[|d| - 1] == tail[|tail| - 1] && d[..|d| - 1] == doc + [SLASH] + tail[..|tail| - 1];
      PopAfterSlash(doc, tail[..|tail| - 1]);
    }
  }

  /** Popping to the last slash removes exactly the last token, whatever characters its name has. */
  lemma PopUndoesToken(doc: seq<Byte>, name: seq<Byte>)
    ensures PopToken(doc + Token(name)) == doc
  {
    TokenHasNoSlash(name);
    PopAfterSlash(doc, EscapeToken(name));
    assert doc + Token(name) == doc + [SLASH] + EscapeToken(name);
  }

  // ------------------------------------------------------------ Schema checks

  lemma NegatedRemainder(n: nat, k: nat)
    requires k > 0
    ensures n % k == 0 <==> (0 - n) % k == 0
  {
    Division(n, k);
    Division(0 - n, k);
    var t := n / k + (0 - n) / k;
    assert t * k == n / k * k + (0 - n) / k * k;
    if n % k == 0 {
      assert (0 - t) * k == (0 - n) % k;
      SmallMultiple(0 - t, k);
    }
    if (0 - n) % k == 0 {
      assert (0 - t) * k == n % k;
      SmallMultiple(0 - t, k);
    }
  }

  lemma Division(n: int, k: nat)
    requires k > 0
    ensures n == n / k * k + n % k && 0 <= n % k < k
  {}

  lemma SmallMultiple(t: int, k: nat)
    requires k > 0 && 0 <= t * k < k
    ensures t == 0
  {}

  /** What is checked on the first event is what is meant, whichever type the event reports a number with. */
  lemma AdmitsIff(origin: Origin, s: Schema, v: Value)
    requires WellFormed(v)
    ensures Events(origin, v) != [] && (Admits(s, Events(origin, v)[0]) <==> Admissible(s, v))
  {
    hide CountCodePoints;
    if v.Number? {
      NumberAdmits(origin, s, v);
    }
  }

  lemma NumberAdmits(origin: Origin, s: Schema, v: Value)
    requires IsInteger(v)
    ensures Events(origin, v) != [] && (Admits(s, Events(origin, v)[0]) <==> Admissible(s, v))
  {
    hide Events, IntegerOf;
    var n := IntegerOf(v);
    var e := IntegerEvent(origin, v);
    if n < 0 && s.multipleOf.Some? && s.multipleOf.value > 0 {
      NegatedRemainder(0 - n, s.multipleOf.value);
    }
  }

  // --------------------------------------------------------- Where a value is

  ghost predicate Ready(m: Machine) {
    && Bounded(m) && m.valid
    && (m.stack == [] ==> m.doc == [])
    && (m.stack != [] ==>
          if Top(m).inArray then Top(m).valueUniqueness ==> Top(m).schema.uniqueItems
          else Top(m).valueSchema.Some? && !Top(m).valueUniqueness)
  }

  function ChildSchema(m: Machine): Option<Schema> {
    if m.stack == [] then Some(m.root)
    else if Top(m).inArray then ItemSchema(Top(m).schema, Top(m).arrayElementIndex)
    else Top(m).valueSchema
  }

  /** The path to the next value. */
  function ChildDoc(m: Machine): seq<Byte> {
    if m.stack != [] && Top(m).inArray then m.doc + Token(Decimal(Top(m).arrayElementIndex)) else m.doc
  }

  predicate ChildUnique(m: Machine) {
    m.stack != [] && Top(m).inArray && Top(m).schema.uniqueItems
  }

  /** The stack below the next value's context. */
  function Under(m: Machine): (r: seq<Context>)
    requires ChildSchema(m).Some?
    ensures |r| == |m.stack|
  {
    if m.stack == [] || !Top(m).inArray then m.stack
    else
      var c := Top(m);
      m.stack[..|m.stack| - 1] + [c.(valueSchema := ItemSchema(c.schema, c.arrayElementIndex),
                                     valueUniqueness := c.valueUniqueness || c.schema.uniqueItems,
                                     arrayElementIndex := c.arrayElementIndex + 1)]
  }

  function ChildContext(m: Machine): Context
    requires ChildSchema(m).Some?
  {
    Context(ChildSchema(m).value, |m.log|, None, [], 0, false, false, ChildUnique(m), [])
  }

  /** The next value repeats an element of an array whose elements must be unique. */
  predicate Repeats(m: Machine, v: Value) {
    ChildUnique(m) && HashOf(v) in Top(m).elementHashes
  }

  /** The machine once the next value has been accepted. */
  function After(m: Machine, origin: Origin, v: Value): Machine
    requires ChildSchema(m).Some?
  {
    var u := Under(m);
    var stack := if ChildUnique(m)
                 then u[..|u| - 1] + [u[|u| - 1].(elementHashes := u[|u| - 1].elementHashes + [HashOf(v)])] else u;
    Machine(m.root, stack, PopToken(ChildDoc(m)), true, m.log + Events(origin, v))
  }

  /** The path to the value to blame, from the next value down. */
  function Trouble(m: Machine, v: Value): Option<Path> {
    if ChildSchema(m).None? then Some([])
    else if Offender(ChildSchema(m).value, v).Some? then Offender(ChildSchema(m).value, v)
    else if Repeats(m, v) then Some([])
    else None
  }

  /** How a run over the next value must end. */
  ghost predicate Judged(m: Machine, origin: Origin, v: Value, r: Machine) {
    match Trouble(m, v)
    case Some(path) => !r.valid && r.doc == ChildDoc(m) + PathText(path)
    case None => r == After(m, origin, v)
  }

  // ------------------------------------------------------------ Single steps

  lemma RunInvalid(m: Machine, events: seq<Sax.Event>)
    requires Bounded(m) && !m.valid
    ensures Run(m, events) == m
    decreases events
  {
    if events != [] {
      RunInvalid(m, events[1..]);
    }
  }

  lemma {:induction false} RunConcat(m: Machine, a: seq<Sax.Event>, b: seq<Sax.Event>)
    requires Bounded(m)
    ensures Run(m, a + b) == Run(Run(m, a), b)
    decreases a
  {
    hide Step;
    if a == [] {
      assert a + b == b;
    } else {
      assert (a + b)[0] == a[0] && (a + b)[1..] == a[1..] + b;
      RunConcat(Step(m, a[0]), a[1..], b);
    }
  }

  lemma RunOne(m: Machine, e: Sax.Event)
    requires Bounded(m)
    ensures Run(m, [e]) == Step(m, e)
  {
    hide Step;
    assert Run(Step(m, e), []) == Step(m, e);
  }

  lemma ReadyRuns(m: Machine)
    requires Ready(m)
    ensures Bounded(m) && m.valid
  {}

  lemma ChildWithin(m: Machine)
    requires Ready(m) && ChildSchema(m).Some?
    ensures Within(ChildSchema(m).value, m.root)
  {
    if m.stack != [] && Top(m).inArray {
      ItemWithin(Top(m).schema, Top(m).arrayElementIndex, m.root);
    }
  }

  lemma BeginChild(m: Machine)
    requires Ready(m)
    ensures ChildSchema(m).None? ==> !Begin(m).valid && Begin(m).doc == ChildDoc(m)
    ensures ChildSchema(m).Some? ==>
              Begin(m) == Machine(m.root, Under(m) + [ChildContext(m)], ChildDoc(m), true, m.log)
  {
    hide Token, Decimal, ItemSchema;
  }

  /** The first event of the next value. */
  lemma EnterChild(m: Machine, e: Sax.Event)
    requires Ready(m)
    ensures
      var r := Enter(m, e);
      if ChildSchema(m).None? || !Admits(ChildSchema(m).value, e) then !r.valid && r.doc == ChildDoc(m)
      else r == Machine(m.root, Under(m) + [Opened(ChildContext(m), e)], ChildDoc(m), true, m.log + [e])
  {
    BeginChild(m);
    hide Begin, Admits, Opened, Under, ChildDoc, ChildSchema, Bounded;
    if ChildSchema(m).Some? {
      var s := Under(m) + [ChildContext(m)];
      assert s[..|s| - 1] == Under(m);
    }
  }

  /** A value's context is popped: its hash is noted, and the path goes back to the container. */
  lemma LeaveChild(m: Machine, origin: Origin, v: Value, f: Machine, c: Context)
    requires Ready(m) && ChildSchema(m).Some? && Bounded(f)
    requires f == Machine(m.root, Under(m) + [c], ChildDoc(m), true, m.log + Events(origin, v))
    ensures
      var r := Leave(f, if ChildUnique(m) then HashOf(v) else 0);
      if Repeats(m, v) then !r.valid && r.doc == ChildDoc(m) else r == After(m, origin, v)
  {
    hide Token, Decimal, ItemSchema, PopToken, HashOf, Events, Bounded;
    assert f.stack[..|f.stack| - 1] == Under(m);
  }

  /** The log since a value's context was pushed is the value's events, and its hash is the value's. */
  lemma LogOfValue(m: Machine, origin: Origin, v: Value)
    requires WellFormed(v)
    ensures (m.log + Events(origin, v))[|m.log|..] == Events(origin, v)
    ensures LogHash(m.log + Events(origin, v), |m.log|) == HashOf(v)
  {
    hide HashAll, HashOf, Events, WellFormed;
    HashValue(origin, [], v);
    assert [] + [HashOf(v)] == [HashOf(v)];
  }

  // ------------------------------------------------------------ Whole values

  /** A nested validator that has seen all of a value is content exactly when its schema accepts the value. */
  lemma ContentIff(m: Machine, origin: Origin, v: Value, sub: Schema)
    requires WellFormed(v) && sub < m.root
    ensures Content(sub, m.root, m.log + Events(origin, v), |m.log|) <==> Offender(sub, v).None?
    decreases v, m.root, 0
  {
    hide Run, Offender, Events, WellFormed;
    LogOfValue(m, origin, v);
    var i := Init(sub);
    ValueStreams(i, origin, v);
  }

  /** Feeding a value's events, whoever sends them, ends as it must. */
  lemma {:induction false} ValueStreams(m: Machine, origin: Origin, v: Value)
    requires WellFormed(v) && Ready(m)
    ensures Judged(m, origin, v, Run(m, Events(origin, v)))
    decreases v, m.root, 9
  {
    if v.Array? {
      ArrayStreams(m, origin, v);
    } else if v.Object? {
      ObjectStreams(m, origin, v);
    } else {
      ScalarStreams(m, origin, v);
    }
  }

  /** The checks at the end of the next value find what is meant. */
  lemma EndsIff(m: Machine, origin: Origin, v: Value, c: Context)
    requires WellFormed(v) && ChildSchema(m).Some? && Within(ChildSchema(m).value, m.root)
    requires c.schema == ChildSchema(m).value && c.start == |m.log|
    ensures ValueEnds(c, m.root, m.log + Events(origin, v)) <==> Combined(c.schema, v)
    decreases v, m.root, 1
  {
    hide Content, Offender, Events, LogHash, HashOf, WellFormed, ChildSchema;
    var s, log := c.schema, m.log + Events(origin, v);
    LogOfValue(m, origin, v);
    forall i | 0 <= i < |s.allOf| ensures Content(s.allOf[i], m.root, log, c.start) <==> Offender(s.allOf[i], v).None? {
      ContentIff(m, origin, v, s.allOf[i]);
    }
    forall i | 0 <= i < |s.anyOf| ensures Content(s.anyOf[i], m.root, log, c.start) <==> Offender(s.anyOf[i], v).None? {
      ContentIff(m, origin, v, s.anyOf[i]);
    }
    CountIff(m, origin, v, s.oneOf);
    if s.not_.Some? {
      ContentIff(m, origin, v, s.not_.value);
    }
  }

  lemma {:induction false} CountIff(m: Machine, origin: Origin, v: Value, schemas: seq<Schema>)
    requires WellFormed(v) && forall i | 0 <= i < |schemas| :: schemas[i] < m.root
    ensures ContentCount(schemas, m.root, m.log + Events(origin, v), |m.log|) == Innocent(schemas, v)
    decreases v, m.root, 1, |schemas|
  {
    hide Content, Offender, Events, WellFormed;
    if schemas != [] {
      ContentIff(m, origin, v, schemas[0]);
      CountIff(m, origin, v, schemas[1..]);
    }
  }

  /** The last checks of the next value, once what is inside it has been found good. */
  lemma FinishChild(m: Machine, origin: Origin, v: Value, f: Machine, c: Context)
    requires WellFormed(v) && Ready(m) && ChildSchema(m).Some? && Bounded(f)
    requires f == Machine(m.root, Under(m) + [c], ChildDoc(m), true, m.log + Events(origin, v))
    requires c.schema == ChildSchema(m).value && c.start == |m.log| && c.arrayUniqueness == ChildUnique(m)
    ensures
      var r := Finish(f);
      if !Combined(c.schema, v) || Repeats(m, v) then !r.valid && r.doc == ChildDoc(m) else r == After(m, origin, v)
    decreases v, m.root, 2
  {
    hide ValueEnds, Leave, Combined, Events, LogHash, HashOf, WellFormed, Under, After, ChildDoc, ChildSchema, Ready;
    assert Top(f) == c;
    assert Within(c.schema, m.root);
    EndsIff(m, origin, v, c);
    LogOfValue(m, origin, v);
    LeaveChild(m, origin, v, f, c);
  }

  lemma ScalarStreams(m: Machine, origin: Origin, v: Value)
    requires WellFormed(v) && Ready(m) && !v.Array? && !v.Object?
    ensures Judged(m, origin, v, Run(m, Events(origin, v)))
    decreases v, m.root, 3
  {
    hide Step, Run, Enter, Finish, Combined, EndsWell, Offender, Admits, Admissible, Under, After, Bounded, ChildDoc, Repeats, Events,
         ChildSchema, WellFormed;
    var e := ScalarRun(m, origin, v);
    EnterChild(m, e);
    assert ChildDoc(m) + [] == ChildDoc(m);
    if ChildSchema(m).Some? {
      AdmitsIff(origin, ChildSchema(m).value, v);
      OffenderIs(ChildSchema(m).value, v);
      NoEnd(ChildSchema(m).value, v);
      if Admits(ChildSchema(m).value, e) {
        FinishChild(m, origin, v, Enter(m, e), ChildContext(m));
      }
    }
  }

  /** A scalar is one event: its context is pushed, checked and popped. */
  lemma ScalarRun(m: Machine, origin: Origin, v: Value) returns (e: Sax.Event)
    requires WellFormed(v) && Bounded(m) && m.valid && !v.Array? && !v.Object?
    ensures Events(origin, v) == [e] && !e.StartArray? && !e.StartObject?
    ensures Run(m, [e]) == if Enter(m, e).valid then Finish(Enter(m, e)) else Enter(m, e)
  {
    hide Run, Enter, Finish, Bounded;
    e := Events(origin, v)[0];
    RunOne(m, e);
  }

  lemma NoEnd(s: Schema, v: Value)
    requires !v.Array? && !v.Object?
    ensures EndsWell(s, v)
  {}

  // ------------------------------------------------------------------ Arrays

  lemma RunBracketed(m: Machine, open: Sax.Event, contents: seq<Sax.Event>, close: Sax.Event)
    requires Bounded(m)
    ensures Run(m, [open] + contents + [close]) == Step(Run(Step(m, open), contents), close)
  {
    hide Step, Run;
    RunConcat(m, [open] + contents, [close]);
    RunConcat(m, [open], contents);
    RunOne(m, open);
    RunOne(Run(Step(m, open), contents), close);
  }

  /** Inside a container `contents` has been handled: below its context nothing has changed. */
  ghost predicate Inside(m: Machine, r: Machine, contents: seq<Sax.Event>) {
    && Bounded(r) && r.valid && r.root == m.root && r.doc == m.doc && r.log == m.log + contents
    && |r.stack| == |m.stack| > 0 && r.stack[..|r.stack| - 1] == m.stack[..|m.stack| - 1]
    && Top(r).schema == Top(m).schema && Top(r).start == Top(m).start && Top(r).inArray == Top(m).inArray
    && Top(r).arrayUniqueness == Top(m).arrayUniqueness
  }

  /** The machine after an accepted element. */
  lemma AfterElement(m: Machine, origin: Origin, v: Value)
    requires Ready(m) && m.stack != [] && Top(m).inArray && ChildSchema(m).Some?
    ensures
      var r, c := After(m, origin, v), Top(m);
      && Inside(m, r, Events(origin, v)) && Ready(r)
      && Top(r).arrayElementIndex == c.arrayElementIndex + 1
      && Top(r).elementHashes == if c.schema.uniqueItems then c.elementHashes + [HashOf(v)] else c.elementHashes
  {
    hide Events, Token, Decimal, ItemSchema, HashOf, PopToken;
    ChildWithin(m);
    PopUndoesToken(m.doc, Decimal(Top(m).arrayElementIndex));
    var r := After(m, origin, v);
    assert r.stack[..|r.stack| - 1] == m.stack[..|m.stack| - 1];
  }

  /** The first element to blame is the next one, or it is among the others. */
  lemma FirstElement(m: Machine, es: seq<Value>)
    requires Ready(m) && m.stack != [] && Top(m).inArray && es != []
    ensures
      var c, token := Top(m), Decimal(Top(m).arrayElementIndex);
      ElementsOffender(c.schema, es, c.arrayElementIndex, c.elementHashes) ==
      match Trouble(m, es[0])
      case Some(path) => Some([token] + path)
      case None =>
        ElementsOffender(c.schema, es[1..], c.arrayElementIndex + 1,
                         if c.schema.uniqueItems then c.elementHashes + [HashOf(es[0])] else c.elementHashes)
  {
    hide Offender, Decimal, ItemSchema, HashOf, Bounded;
    assert forall token: seq<Byte> :: [token] + [] == [token];
  }

  /** How a run over elements must end. */
  ghost predicate ElementsJudged(m: Machine, origin: Origin, es: seq<Value>, r: Machine)
    requires m.stack != []
  {
    match ElementsOffender(Top(m).schema, es, Top(m).arrayElementIndex, Top(m).elementHashes)
    case Some(path) => !r.valid && r.doc == m.doc + PathText(path)
    case None =>
      Inside(m, r, ElementEvents(origin, es)) && Top(r).arrayElementIndex == Top(m).arrayElementIndex + |es| && Ready(r)
  }

  lemma {:induction false} ElementsStream(m: Machine, origin: Origin, es: seq<Value>)
    requires Ready(m) && m.stack != [] && Top(m).inArray && forall e | e in es :: WellFormed(e)
    ensures ElementsJudged(m, origin, es, Run(m, ElementEvents(origin, es)))
    decreases es, m.root, 5
  {
    ReadyRuns(m);
    hide Run, Offender, Events, WellFormed, Token, Decimal, ItemSchema, HashOf, Bounded, Ready, After, Trouble, ChildDoc;
    if es == [] {
      RunNothing(m);
      assert m.log + [] == m.log;
    } else {
      hide Inside;
      var token := Decimal(Top(m).arrayElementIndex);
      var next := Run(m, Events(origin, es[0]));
      var rest := ElementEvents(origin, es[1..]);
      ValueStreams(m, origin, es[0]);
      RunConcat(m, Events(origin, es[0]), rest);
      FirstElement(m, es);
      hide ElementsOffender;
      if Trouble(m, es[0]).Some? {
        PathPrepends(m.doc, token, Trouble(m, es[0]).value);
        ChildDocInArray(m);
        RunInvalid(next, rest);
      } else {
        NoTrouble(m, es[0]);
        AfterElement(m, origin, es[0]);
        ElementsStream(next, origin, es[1..]);
        JoinElements(m, origin, es, next, Run(next, rest));
      }
    }
  }

  lemma JoinElements(m: Machine, origin: Origin, es: seq<Value>, next: Machine, r: Machine)
    requires Ready(m) && m.stack != [] && Top(m).inArray && es != [] && Trouble(m, es[0]).None?
    requires Inside(m, next, Events(origin, es[0])) && Top(next).arrayElementIndex == Top(m).arrayElementIndex + 1
    requires Top(next).elementHashes ==
             if Top(m).schema.uniqueItems then Top(m).elementHashes + [HashOf(es[0])] else Top(m).elementHashes
    requires ElementsJudged(next, origin, es[1..], r)
    ensures ElementsJudged(m, origin, es, r)
  {
    hide ElementsOffender, Events, HashOf, Trouble, Bounded, Ready, PathText, Decimal, Offender, ItemSchema;
    FirstElement(m, es);
    assert m.log + Events(origin, es[0]) + ElementEvents(origin, es[1..]) == m.log + ElementEvents(origin, es);
  }

  lemma ChildDocInArray(m: Machine)
    requires m.stack != [] && Top(m).inArray
    ensures ChildDoc(m) == m.doc + Token(Decimal(Top(m).arrayElementIndex))
  {}

  lemma NoTrouble(m: Machine, v: Value)
    requires Trouble(m, v).None?
    ensures ChildSchema(m).Some?
  {}

  lemma RunNothing(m: Machine)
    requires Bounded(m)
    ensures Run(m, []) == m
  {}

  lemma PathOfOne(doc: seq<Byte>, token: seq<Byte>)
    ensures PathText([token]) == Token(token)
  {
    assert Token(token) + PathText([]) == Token(token);
  }

  lemma PathPrepends(doc: seq<Byte>, token: seq<Byte>, path: Path)
    ensures doc + Token(token) + PathText(path) == doc + PathText([token] + path)
  {
    assert ([token] + path)[1..] == path;
  }

  lemma ArrayStreams(m: Machine, origin: Origin, v: Value)
    requires WellFormed(v) && Ready(m) && v.Array?
    ensures Judged(m, origin, v, Run(m, Events(origin, v)))
    decreases v, m.root, 6
  {
    hide Run, Combined, Offender, Admits, Admissible, Under, After, ChildDoc, Repeats, ElementEvents, WellFormed, Finish, Enter;
    var es := v.elements;
    var contents, close := ElementEvents(origin, es), Sax.EndArray(|es|);
    var m1 := Step(m, Sax.StartArray);
    EnterChild(m, Sax.StartArray);
    RunBracketed(m, Sax.StartArray, contents, close);
    assert ChildDoc(m) + [] == ChildDoc(m);
    if !m1.valid {
      RunInvalid(m1, contents);
      if ChildSchema(m).Some? {
        AdmitsIff(origin, ChildSchema(m).value, v);
        OffenderIs(ChildSchema(m).value, v);
      }
    } else {
      ArrayOpened(m, origin, v, m1);
    }
  }

  /** The rest of an array once its context is pushed. */
  lemma ArrayOpened(m: Machine, origin: Origin, v: Value, m1: Machine)
    requires WellFormed(v) && Ready(m) && v.Array? && ChildSchema(m).Some? && Bounded(m1)
    requires m1 == Machine(m.root, Under(m) + [ChildContext(m).(inArray := true)], ChildDoc(m), true, m.log + [Sax.StartArray])
    requires Admits(ChildSchema(m).value, Sax.StartArray)
    ensures Judged(m, origin, v, Step(Run(m1, ElementEvents(origin, v.elements)), Sax.EndArray(|v.elements|)))
    decreases v, m.root, 5
  {
    hide Run, Combined, Offender, Admits, Admissible, Under, After, ChildDoc, Repeats, ElementEvents, WellFormed, Finish, Enter,
         ElementsOffender, ChildSchema, Bounded, EndsWell, Step;
    var es, s := v.elements, ChildSchema(m).value;
    assert forall e | e in es :: WellFormed(e) by { ElementsWellFormed(v); }
    assert m1.stack[..|m1.stack| - 1] == Under(m);
    AdmitsIff(origin, s, v);
    OffenderIs(s, v);
    ElementsStream(m1, origin, es);
    var r := Run(m1, ElementEvents(origin, es));
    if r.valid {
      ArrayClosed(m, origin, v, r);
    } else {
      EndInvalid(r, Sax.EndArray(|es|));
    }
  }

  /** The end of an array whose elements are all good. */
  lemma ArrayClosed(m: Machine, origin: Origin, v: Value, r: Machine)
    requires WellFormed(v) && Ready(m) && v.Array? && ChildSchema(m).Some?
    requires Bounded(r) && r.valid && r.root == m.root && r.doc == ChildDoc(m) && r.stack != []
    requires r.stack[..|r.stack| - 1] == Under(m)
    requires r.log == m.log + [Sax.StartArray] + ElementEvents(origin, v.elements)
    requires Top(r).schema == ChildSchema(m).value && Top(r).start == |m.log| && Top(r).arrayUniqueness == ChildUnique(m)
    ensures
      var s, end := Top(r).schema, Step(r, Sax.EndArray(|v.elements|));
      if !EndsWell(s, v) || !Combined(s, v) || Repeats(m, v) then !end.valid && end.doc == ChildDoc(m)
      else end == After(m, origin, v)
    decreases v, m.root, 4
  {
    hide Combined, Under, After, ChildDoc, Repeats, ElementEvents, WellFormed, Finish, Enter, ChildSchema, Bounded, Ready;
    var close := Sax.EndArray(|v.elements|);
    var c := Top(r).(inArray := false);
    var f := WithTop(Feed(r, close), c);
    BoundedClosed(r, close);
    assert f.log == m.log + Events(origin, v);
    assert f.stack == Under(m) + [c];
    if ArrayEnds(c, |v.elements|) {
      FinishChild(m, origin, v, f, c);
    }
  }

  lemma BoundedClosed(m: Machine, e: Sax.Event)
    requires Bounded(m) && m.stack != []
    ensures Bounded(WithTop(Feed(m, e), Top(m).(inArray := false)))
  {}

  lemma ElementsWellFormed(v: Value)
    requires WellFormed(v) && v.Array?
    ensures forall e | e in v.elements :: WellFormed(e)
  {}

  // ----------------------------------------------------------------- Objects

  function MarkAll(exist: seq<bool>, properties: seq<Property>, ms: seq<Member>): (r: seq<bool>)
    ensures |r| == |exist|
    decreases ms
  {
    if ms == [] then exist else MarkAll(Mark(exist, FindProperty(properties, ms[0].name)), properties, ms[1..])
  }

  /** A property is marked exactly when some member carries its name. */
  lemma {:induction false} MarkedIff(exist: seq<bool>, s: Schema, ms: seq<Member>, i: nat)
    requires |exist| == |s.properties| && i < |exist|
    ensures Marked(MarkAll(exist, s.properties, ms), i) <==> exist[i] || Present(s, ms, i)
    decreases ms
  {
    hide FindProperty;
    if ms != [] {
      MarkedIff(Mark(exist, FindProperty(s.properties, ms[0].name)), s, ms[1..], i);
      assert Present(s, ms, i) <==> FindProperty(s.properties, ms[0].name) == Some(i) || Present(s, ms[1..], i) by {
        assert ms == [ms[0]] + ms[1..];
      }
    }
  }

  lemma {:induction false} MembersStream(m: Machine, origin: Origin, ms: seq<Member>)
    requires Bounded(m) && m.valid && m.stack != [] && !Top(m).inArray && !Top(m).valueUniqueness
    requires forall x | x in ms :: WellFormed(x.value)
    ensures
      var r := Run(m, MemberEvents(origin, ms));
      match MembersOffender(Top(m).schema, ms)
      case Some(path) => !r.valid && r.doc == m.doc + PathText(path)
      case None =>
        && Inside(m, r, MemberEvents(origin, ms))
        && Top(r).propertyExist == MarkAll(Top(m).propertyExist, Top(m).schema.properties, ms)
        && !Top(r).valueUniqueness
    decreases ms, m.root, 5
  {
    hide Run, Offender, Events, WellFormed, Token, MemberSchema, HashOf, Bounded, Mark, Step, Decimal, ItemSchema, Ready, FindProperty;
    if ms == [] {
      assert Run(m, []) == m by { RunNothing(m); }
      assert m.log + [] == m.log;
    } else {
      var name, value, rest := ms[0].name, ms[0].value, MemberEvents(origin, ms[1..]);
      var named := Step(m, Sax.Key(name));
      var next := Run(named, Events(origin, value));
      RunConcat(m, [Sax.Key(name)] + Events(origin, value), rest);
      RunConcat(m, [Sax.Key(name)], Events(origin, value));
      RunOne(m, Sax.Key(name));
      NameStep(m, name);
      PathOfOne(m.doc, name);
      if MemberSchema(Top(m).schema, name).None? {
        RunInvalid(named, Events(origin, value));
        RunInvalid(named, rest);
      } else {
        ValueStreams(named, origin, value);
        if Trouble(named, value).Some? {
          PathPrepends(m.doc, name, Trouble(named, value).value);
          RunInvalid(next, rest);
        } else {
          PopUndoesToken(m.doc, name);
          MembersStream(next, origin, ms[1..]);
          assert m.log + [Sax.Key(name)] + Events(origin, value) + rest == m.log + MemberEvents(origin, ms);
        }
      }
    }
  }

  lemma NameStep(m: Machine, name: seq<Byte>)
    requires Bounded(m) && m.valid && m.stack != [] && !Top(m).inArray && !Top(m).valueUniqueness
    ensures
      var r := Step(m, Sax.Key(name));
      var schema := MemberSchema(Top(m).schema, name);
      if schema.None? then !r.valid && r.doc == m.doc + Token(name)
      else
        && Ready(r) && r.root == m.root && r.doc == m.doc + Token(name) && r.log == m.log + [Sax.Key(name)]
        && |r.stack| == |m.stack| && r.stack[..|r.stack| - 1] == m.stack[..|m.stack| - 1]
        && Top(r) == Top(m).(valueSchema := schema,
                             propertyExist := Mark(Top(m).propertyExist, FindProperty(Top(m).schema.properties, name)))
  {
    hide MemberSchema, FindProperty, Mark, Token, ObjectEnds, ValueEnds, Finish, Enter, Leave;
  }

  lemma ObjectStreams(m: Machine, origin: Origin, v: Value)
    requires WellFormed(v) && Ready(m) && v.Object?
    ensures Judged(m, origin, v, Run(m, Events(origin, v)))
    decreases v, m.root, 6
  {
    hide Run, Combined, Offender, Admits, Admissible, Under, After, ChildDoc, Repeats, MemberEvents, WellFormed, Finish, Enter, Opened;
    var ms := v.members;
    var contents, close := MemberEvents(origin, ms), Sax.EndObject(|ms|);
    var m1 := Step(m, Sax.StartObject);
    EnterChild(m, Sax.StartObject);
    RunBracketed(m, Sax.StartObject, contents, close);
    assert ChildDoc(m) + [] == ChildDoc(m);
    if !m1.valid {
      RunInvalid(m1, contents);
      if ChildSchema(m).Some? {
        AdmitsIff(origin, ChildSchema(m).value, v);
        OffenderIs(ChildSchema(m).value, v);
      }
    } else {
      ObjectOpened(m, origin, v, m1);
    }
  }

  /** The rest of an object once its context is pushed. */
  lemma ObjectOpened(m: Machine, origin: Origin, v: Value, m1: Machine)
    requires WellFormed(v) && Ready(m) && v.Object? && ChildSchema(m).Some? && Bounded(m1)
    requires m1 == Machine(m.root, Under(m) + [Opened(ChildContext(m), Sax.StartObject)], ChildDoc(m), true,
                           m.log + [Sax.StartObject])
    requires Admits(ChildSchema(m).value, Sax.StartObject)
    ensures Judged(m, origin, v, Step(Run(m1, MemberEvents(origin, v.members)), Sax.EndObject(|v.members|)))
    decreases v, m.root, 5
  {
    hide Run, Combined, Offender, Admits, Admissible, Under, After, ChildDoc, Repeats, MemberEvents, WellFormed, Finish, Enter,
         MembersOffender, ChildSchema, Bounded, ObjectEnds, EndsWell, MarkAll, Opened, Step;
    var ms, s := v.members, ChildSchema(m).value;
    assert forall x | x in ms :: WellFormed(x.value) by { MembersWellFormed(v); }
    assert m1.stack[..|m1.stack| - 1] == Under(m) && Top(m1) == Opened(ChildContext(m), Sax.StartObject);
    AdmitsIff(origin, s, v);
    OffenderIs(s, v);
    MembersStream(m1, origin, ms);
    var r := Run(m1, MemberEvents(origin, ms));
    if r.valid {
      ObjectClosed(m, origin, v, r);
    } else {
      EndInvalid(r, Sax.EndObject(|ms|));
    }
  }

  lemma EndInvalid(m: Machine, e: Sax.Event)
    requires Bounded(m) && !m.valid
    ensures Step(m, e) == m
  {}

  /** The end of an object whose members are all good. */
  lemma ObjectClosed(m: Machine, origin: Origin, v: Value, r: Machine)
    requires WellFormed(v) && Ready(m) && v.Object? && ChildSchema(m).Some?
    requires Bounded(r) && r.valid && r.root == m.root && r.doc == ChildDoc(m) && r.stack != []
    requires r.stack[..|r.stack| - 1] == Under(m)
    requires r.log == m.log + [Sax.StartObject] + MemberEvents(origin, v.members)
    requires Top(r).schema == ChildSchema(m).value && Top(r).start == |m.log| && Top(r).arrayUniqueness == ChildUnique(m)
    requires Top(r).propertyExist ==
             MarkAll(Opened(ChildContext(m), Sax.StartObject).propertyExist, Top(r).schema.properties, v.members)
    ensures
      var s, end := Top(r).schema, Step(r, Sax.EndObject(|v.members|));
      if !EndsWell(s, v) || !Combined(s, v) || Repeats(m, v) then !end.valid && end.doc == ChildDoc(m)
      else end == After(m, origin, v)
    decreases v, m.root, 4
  {
    ChildWithin(m);
    hide Combined, Under, After, ChildDoc, Repeats, MemberEvents, WellFormed, Finish, Enter, ChildSchema, Bounded, ObjectEnds,
         EndsWell, MarkAll, Opened, Ready;
    var close := Sax.EndObject(|v.members|);
    var f := Feed(r, close);
    assert f.log == m.log + Events(origin, v);
    assert f.stack == Under(m) + [Top(r)];
    ObjectEndsIff(m, origin, v, Top(r));
    if ObjectEnds(Top(r), m.root, f.log, |v.members|) {
      FinishChild(m, origin, v, f, Top(r));
    }
  }

  lemma MembersWellFormed(v: Value)
    requires WellFormed(v) && v.Object?
    ensures forall x | x in v.members :: WellFormed(x.value)
  {}

  /** The checks at the end of an object find what is meant. */
  lemma ObjectEndsIff(m: Machine, origin: Origin, v: Value, c: Context)
    requires WellFormed(v) && v.Object? && ChildSchema(m).Some? && Within(ChildSchema(m).value, m.root)
    requires c.schema == ChildSchema(m).value && c.start == |m.log|
    requires c.propertyExist == MarkAll(Opened(ChildContext(m), Sax.StartObject).propertyExist, c.schema.properties, v.members)
    ensures ObjectEnds(c, m.root, m.log + Events(origin, v), |v.members|) <==> EndsWell(c.schema, v)
    decreases v, m.root, 1
  {
    hide Content, Offender, Events, WellFormed, ChildSchema, MarkAll, Present;
    var s, ms, log := c.schema, v.members, m.log + Events(origin, v);
    forall i | 0 <= i < |s.properties|
      ensures HasRequired(s) || HasDependencies(s) ==> (Marked(c.propertyExist, i) <==> Present(s, ms, i))
      ensures !HasRequired(s) && !HasDependencies(s) ==> !s.properties[i].required && s.properties[i].dependency.NoDependency?
    {
      if HasRequired(s) || HasDependencies(s) {
        MarkedIff(seq(|s.properties|, i => false), s, ms, i);
      } else {
        assert s.properties[i] in s.properties;
      }
    }
    forall i | 0 <= i < |s.properties| && s.properties[i].dependency.Meets?
      ensures Content(s.properties[i].dependency.schema, m.root, log, c.start) <==>
              Offender(s.properties[i].dependency.schema, v).None?
    {
      ContentIff(m, origin, v, s.properties[i].dependency.schema);
    }
  }

  // ------------------------------------------------------- The path in a run

  /** The events sent before those of the value at `position`. */
  function Before(origin: Origin, v: Value, position: seq<nat>): seq<Sax.Event>
    requires HasPosition(v, position)
    decreases position
  {
    if position == [] then []
    else
      var i := position[0];
      if v.Array? then
        [Sax.StartArray] + ElementEvents(origin, v.elements[..i]) + Before(origin, v.elements[i], position[1..])
      else
        [Sax.StartObject] + MemberEvents(origin, v.members[..i])
        + ([Sax.Key(v.members[i].name)] + Before(origin, v.members[i].value, position[1..]))
  }

  /** Names and indices on the way to the value at `position`. */
  function PathTo(v: Value, position: seq<nat>): Path
    requires HasPosition(v, position)
    decreases position
  {
    if position == [] then []
    else if v.Array? then [Decimal(position[0])] + PathTo(v.elements[position[0]], position[1..])
    else [v.members[position[0]].name] + PathTo(v.members[position[0]].value, position[1..])
  }

  /** A run still valid when the value at `position` is due has exactly the path to it in its buffer. */
  lemma {:induction false} PathIsTo(m: Machine, origin: Origin, v: Value, position: seq<nat>)
    requires WellFormed(v) && HasPosition(v, position) && Ready(m)
    ensures
      var r := Run(m, Before(origin, v, position));
      r.valid ==> Ready(r) && ChildDoc(r) == ChildDoc(m) + PathText(PathTo(v, position))
    decreases |position|, 1
  {
    if position == [] {
      RunNothing(m);
      assert ChildDoc(m) + [] == ChildDoc(m);
    } else if v.Array? {
      PathIntoArray(m, origin, v, position);
    } else {
      PathIntoObject(m, origin, v, position);
    }
  }

  lemma RunThree(m: Machine, open: Sax.Event, contents: seq<Sax.Event>, rest: seq<Sax.Event>)
    requires Bounded(m)
    ensures Run(m, [open] + contents + rest) == Run(Run(Step(m, open), contents), rest)
  {
    hide Run, Step;
    RunConcat(m, [open] + contents, rest);
    RunConcat(m, [open], contents);
    RunOne(m, open);
  }

  lemma PathIntoArray(m: Machine, origin: Origin, v: Value, position: seq<nat>)
    requires WellFormed(v) && HasPosition(v, position) && Ready(m) && position != [] && v.Array?
    ensures
      var r := Run(m, Before(origin, v, position));
      r.valid ==> Ready(r) && ChildDoc(r) == ChildDoc(m) + PathText(PathTo(v, position))
    decreases |position|, 0
  {
    hide Run, Step, Enter, Events, ElementEvents, WellFormed, Token, Decimal, Bounded, ItemSchema, ElementsOffender, Under;
    var i, rest := position[0], position[1..];
    var es := v.elements[..i];
    var tail := Before(origin, v.elements[i], rest);
    RunThree(m, Sax.StartArray, ElementEvents(origin, es), tail);
    var m1 := Step(m, Sax.StartArray);
    StartSteps(m, Sax.StartArray);
    EnterChild(m, Sax.StartArray);
    if !m1.valid {
      RunInvalid(m1, ElementEvents(origin, es));
      RunInvalid(m1, tail);
    } else {
      ElementsWellFormed(v);
      assert Ready(m1);
      ElementsStream(m1, origin, es);
      var m2 := Run(m1, ElementEvents(origin, es));
      if !m2.valid {
        RunInvalid(m2, tail);
      } else {
        PathIsTo(m2, origin, v.elements[i], rest);
        PathPrepends(ChildDoc(m), Decimal(i), PathTo(v.elements[i], rest));
        PathOfOne([], Decimal(i));
      }
    }
  }

  lemma StartSteps(m: Machine, e: Sax.Event)
    requires Bounded(m) && m.valid && (e.StartArray? || e.StartObject?)
    ensures Step(m, e) == Enter(m, e)
  {}

  lemma PathIntoObject(m: Machine, origin: Origin, v: Value, position: seq<nat>)
    requires WellFormed(v) && HasPosition(v, position) && Ready(m) && position != [] && v.Object?
    ensures
      var r := Run(m, Before(origin, v, position));
      r.valid ==> Ready(r) && ChildDoc(r) == ChildDoc(m) + PathText(PathTo(v, position))
    decreases |position|, 0
  {
    hide Run, Step, Enter, Events, MemberEvents, WellFormed, Token, Bounded, MemberSchema, MembersOffender, Under, Opened, Ready;
    var i, rest := position[0], position[1..];
    var ms, x := v.members[..i], v.members[i];
    var tail := Before(origin, x.value, rest);
    ReadyRuns(m);
    RunThree(m, Sax.StartObject, MemberEvents(origin, ms), [Sax.Key(x.name)] + tail);
    var m1 := Step(m, Sax.StartObject);
    StartSteps(m, Sax.StartObject);
    EnterChild(m, Sax.StartObject);
    if !m1.valid {
      RunInvalid(m1, MemberEvents(origin, ms));
      RunInvalid(m1, [Sax.Key(x.name)] + tail);
    } else {
      MembersWellFormed(v);
      MembersStream(m1, origin, ms);
      var m2 := Run(m1, MemberEvents(origin, ms));
      if !m2.valid {
        RunInvalid(m2, [Sax.Key(x.name)] + tail);
      } else {
        PathIntoMember(m2, origin, x, rest);
        PathPrepends(ChildDoc(m), x.name, PathTo(x.value, rest));
        PathOfOne([], x.name);
      }
    }
  }

  lemma PathIntoMember(m: Machine, origin: Origin, x: Member, position: seq<nat>)
    requires Bounded(m) && m.valid && m.stack != [] && !Top(m).inArray && !Top(m).valueUniqueness
    requires WellFormed(x.value) && HasPosition(x.value, position)
    ensures
      var r := Run(m, [Sax.Key(x.name)] + Before(origin, x.value, position));
      r.valid ==> Ready(r) && ChildDoc(r) == m.doc + Token(x.name) + PathText(PathTo(x.value, position))
    decreases |position|, 2
  {
    hide Run, Step, WellFormed, Token, MemberSchema, Bounded;
    var tail := Before(origin, x.value, position);
    RunConcat(m, [Sax.Key(x.name)], tail);
    RunOne(m, Sax.Key(x.name));
    NameStep(m, x.name);
    var named := Step(m, Sax.Key(x.name));
    if named.valid {
      PathIsTo(named, origin, x.value, position);
    } else {
      RunInvalid(named, tail);
    }
  }

  /** When the context of the value at `position` is pushed, the path is the RFC 6901 string of the way to it. */
  lemma PathInRun(root: Schema, origin: Origin, v: Value, position: seq<nat>)
    requires WellFormed(v) && HasPosition(v, position)
    ensures
      var r := Run(Init(root), Before(origin, v, position));
      r.valid ==> Begin(r).doc == PathText(PathTo(v, position))
  {
    hide Run, Begin, WellFormed, Before, PathTo, HasPosition;
    PathIsTo(Init(root), origin, v, position);
    var r := Run(Init(root), Before(origin, v, position));
    if r.valid {
      BeginChild(r);
      assert [] + PathText(PathTo(v, position)) == PathText(PathTo(v, position));
    }
  }

  // ------------------------------------------------------------ Main theorem

  /**
   Feeding a whole value to a fresh validator: it stays valid exactly when the schema accepts the value, and is
   then back where it was; otherwise its path is the one to the value to blame.
   */
  lemma {:induction false} ValidatorAccepts(root: Schema, origin: Origin, v: Value)
    requires WellFormed(v)
    ensures
      var r := Run(Init(root), Events(origin, v));
      && (r.valid <==> Accepts(root, v))
      && (r.valid ==> r.stack == [] && r.doc == [])
      && (!r.valid ==> Offender(root, v).Some? && r.doc == PathText(Offender(root, v).value))
  {
    hide Run, Accepts, Offender, Events, WellFormed;
    ValueStreams(Init(root), origin, v);
    OffenderIff(root, v);
    if Offender(root, v).Some? {
      assert [] + PathText(Offender(root, v).value) == PathText(Offender(root, v).value);
    }
  }
}
