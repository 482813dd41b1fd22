/** The table-driven parser reports and sends what the recursive-descent parser does, on every text. */
module Equivalence {
  import opened Text
  import opened Sax
  import opened Lexer
  import opened Numbers
  import opened Recursive
  import opened Iterative
  import Utf8

  predicate EndsInOpening(events: seq<Event>) {
    events != [] && (events[|events| - 1].StartObject? || events[|events| - 1].StartArray?)
  }

  predicate EndsInClosing(events: seq<Event>) {
    events != [] && (events[|events| - 1].EndObject? || events[|events| - 1].EndArray?)
  }

  /**
   Same verdict, same events, and on failure the same code and place; only when the handler ends the parse on a
   bracket does the iterative parser report the bracket and the recursive one the place after it. The one bracket
   both report is one that closes a container after a trailing comma.
   */
  predicate Agree(env: Env, rec: Outcome, iter: Outcome) {
    if rec.Ok? then iter == rec
    else
      && iter.Err? && iter.code == rec.code && iter.events == rec.events
      && if rec.code == Termination && EndsInOpening(rec.events) then
           Peek(env.text, iter.offset) in {LBRACE, LBRACKET} && iter.offset + 1 == rec.offset
         else if rec.code == Termination && EndsInClosing(rec.events) then
           && Peek(env.text, iter.offset) in {RBRACE, RBRACKET}
           && (iter.offset + 1 == rec.offset || (env.flags.trailingCommas && iter.offset == rec.offset))
         else iter.offset == rec.offset
  }

  /** `rec` is how the recursive parser ends a value; the run from `c` then goes on as the run from `next`. */
  ghost predicate Follows(env: Env, c: Config, rec: Outcome, next: Config)
    requires Inv(c) && c.pos <= |env.text|
  {
    if rec.Err? then Agree(env, rec, Run(env, c))
    else
      && rec.pos <= |env.text|
      && var n := next.(pos := rec.pos, events := rec.events);
      && Inv(n)
      && Run(env, c) == Continue(env, n)
  }

  // ------------------------------------- Only the handler terminates a parse

  lemma {:induction false} CommentsCode(t: seq<Byte>, p: nat)
    ensures Comments(t, p).Bad? ==> Comments(t, p).code == UnspecificSyntaxError
    decreases |t| - p
  {
    if Peek(t, p) == SLASH && Peek(t, p + 1) == STAR && BlockComment(t, p + 2).Some? {
      CommentsCode(t, SkipWhitespace(t, BlockComment(t, p + 2).value));
    } else if Peek(t, p) == SLASH && Peek(t, p + 1) == SLASH {
      CommentsCode(t, SkipWhitespace(t, LineComment(t, p + 2)));
    }
  }

  lemma SkipCode(env: Env, p: nat)
    ensures Skip(env, p).Bad? ==> Skip(env, p).code == UnspecificSyntaxError
  {
    CommentsCode(env.text, SkipWhitespace(env.text, p));
  }

  lemma SkipCodes(env: Env)
    ensures forall p: nat :: Skip(env, p).Bad? ==> Skip(env, p).code == UnspecificSyntaxError
  {
    forall p: nat ensures Skip(env, p).Bad? ==> Skip(env, p).code == UnspecificSyntaxError {
      SkipCode(env, p);
    }
  }

  lemma {:induction false} StringCode(validate: bool, t: seq<Byte>, p: nat, out: seq<Byte>)
    ensures StringBody(validate, t, p, out).Bad? ==> StringBody(validate, t, p, out).code != Termination
    decreases |t| - p
  {
    hide Utf8.Length, Utf8.Encode, Hex4;
    var c, e := Peek(t, p), Peek(t, p + 1);
    if c == BACKSLASH {
      if Unescape(e).Some? {
        StringCode(validate, t, p + 2, out + [Unescape(e).value]);
      } else if e == LOWER_U && UnicodeEscape(t, p + 2, p).Got? {
        var u := UnicodeEscape(t, p + 2, p);
        StringCode(validate, t, u.next, out + Utf8.Encode(u.value));
      }
    } else if c != QUOTE && c >= 0x20 {
      var n := Utf8.Length(t, p);
      if !validate {
        StringCode(validate, t, p + 1, out + [c]);
      } else if n > 0 {
        StringCode(validate, t, p + n, out + Slice(t, p, n));
      }
    }
  }

  lemma NumberCode(env: Env, p: nat)
    ensures Numbers.ParseNumber(env, p).Bad? ==> Numbers.ParseNumber(env, p).code != Termination
  {
  }

  /** A scalar or a name is refused by the handler, if it is, with an event of its own. */
  lemma ScalarCode(env: Env, p: nat, events: seq<Event>)
    requires p <= |env.text|
    ensures
      var r := ParseScalar(env, p, events);
      r.Err? && r.code == Termination ==> !EndsInOpening(r.events) && !EndsInClosing(r.events)
    ensures
      var r := ParseString(env, p, events, true);
      r.Err? && r.code == Termination ==> !EndsInOpening(r.events) && !EndsInClosing(r.events)
  {
    hide StringBody, Numbers.ParseNumber, Match;
    StringCode(env.flags.validateEncoding, env.text, p + 1, []);
    NumberCode(env, p);
    NumberIsNoBracket(env, p);
  }

  lemma NumberIsNoBracket(env: Env, p: nat)
    ensures
      var r := Numbers.ParseNumber(env, p);
      r.Got? ==> r.value.Int? || r.value.Uint? || r.value.Int64? || r.value.Uint64? || r.value.Double?
  {}

  predicate StartsValue(state: State) {
    state in {Start, KeyValueDelimiter, ArrayInitial, ElementDelimiter}
  }

  /** Configuration after the value that starts in `c`. */
  function AfterValue(c: Config): Config {
    c.(state := Resume(ReturnState(c.state)))
  }

  /** Configuration after the top container of `c` is closed. */
  function Closed(c: Config): Config
    requires c.stack != []
  {
    var n := |c.stack| - 1;
    c.(state := Resume(c.stack[n].ret), stack := c.stack[..n])
  }

  /** Values counted in the top container. */
  function TopCount(c: Config): nat
    requires c.stack != []
  {
    c.stack[|c.stack| - 1].count
  }

  /** The top container with one more value counted. */
  function Counted(stack: seq<Frame>): (s: seq<Frame>)
    requires stack != []
    ensures |s| == |stack| && s[..|s| - 1] == stack[..|s| - 1]
    ensures s[|s| - 1] == Frame(stack[|s| - 1].ret, stack[|s| - 1].count + 1)
  {
    var n := |stack| - 1;
    stack[n := stack[n].(count := stack[n].count + 1)]
  }

  /** Where no value starts, the number parser fails on the spot. */
  lemma NoNumber(env: Env, p: nat)
    requires Peek(env.text, p) in {NUL, RBRACKET, RBRACE, COMMA, COLON}
    ensures ParseNumber(env, p) == Bad(ValueInvalid, p)
  {}

  // ----------------------------------------------------- Steps of the run

  /** One turn of the run. */
  lemma RunStep(env: Env, c: Config)
    requires Inv(c) && c.pos < |env.text| && Peek(env.text, c.pos) != NUL
    ensures Transit(env, c).Stop? ==> Run(env, c) == Transit(env, c).outcome
    ensures Transit(env, c).Next? ==> Run(env, c) == Continue(env, Transit(env, c).config)
  {
    hide Transit, Skip;
  }

  /** A transition inside a container, then whitespace. */
  lemma Advance(env: Env, c: Config, c1: Config)
    requires Inv(c) && c.pos < |env.text| && Peek(env.text, c.pos) != NUL
    requires Transit(env, c) == Next(c1) && c1.state != Finish
    ensures Inv(c1) && c1.pos <= |env.text|
    ensures
      var skip := Skip(env, c1.pos);
      if skip.Bad? then Run(env, c) == Err(skip.code, skip.offset, c1.events)
      else Run(env, c) == Run(env, c1.(pos := skip.next))
  {
    hide ParseScalar, ParseString, Skip;
  }

  /** A transition that ends the run. */
  lemma Halt(env: Env, c: Config, outcome: Outcome)
    requires Inv(c) && c.pos < |env.text| && Peek(env.text, c.pos) != NUL
    requires Transit(env, c) == Stop(outcome)
    ensures Run(env, c) == outcome
  {
    hide ParseScalar, ParseString, Skip;
  }

  lemma OpenContainer(env: Env, c: Config, isObject: bool)
    requires Inv(c) && c.pos <= |env.text| && StartsValue(c.state)
    requires Peek(env.text, c.pos) == if isObject then LBRACE else LBRACKET
    ensures
      var e := if isObject then StartObject else StartArray;
      var state := if isObject then ObjectInitial else ArrayInitial;
      if !env.accepts(c.events + [e]) then Run(env, c) == Err(Termination, c.pos, c.events + [e])
      else
        var skip := Skip(env, c.pos + 1);
        if skip.Bad? then Run(env, c) == Err(skip.code, skip.offset, c.events + [e])
        else
          var c1 := Config(state, c.stack + [Frame(ReturnState(c.state), 0)], skip.next, c.events + [e]);
          Inv(c1) && Run(env, c) == Run(env, c1)
  {
    hide ParseScalar, ParseString, Skip;
    var e := if isObject then StartObject else StartArray;
    var state := if isObject then ObjectInitial else ArrayInitial;
    if env.accepts(c.events + [e]) {
      Advance(env, c, Config(state, c.stack + [Frame(ReturnState(c.state), 0)], c.pos + 1, c.events + [e]));
    } else {
      Halt(env, c, Err(Termination, c.pos, c.events + [e]));
    }
  }

  /** The closing bracket of the top container, with the number of values the run has seen in it. */
  lemma CloseContainer(env: Env, c: Config, count: nat, isObject: bool)
    requires Inv(c) && c.pos <= |env.text| && c.stack != []
    requires Peek(env.text, c.pos) == if isObject then RBRACE else RBRACKET
    requires c.state in if isObject then {ObjectInitial, MemberValue, MemberDelimiter} else {ArrayInitial, Element, ElementDelimiter}
    requires c.state == MemberDelimiter || c.state == ElementDelimiter ==> env.flags.trailingCommas
    requires count == if c.state == MemberValue || c.state == Element then TopCount(c) + 1 else TopCount(c)
    ensures
      var e := if isObject then EndObject(count) else EndArray(count);
      if !env.accepts(c.events + [e]) then Run(env, c) == Err(Termination, c.pos, c.events + [e])
      else
        var c1 := Closed(c).(pos := c.pos + 1, events := c.events + [e]);
        Inv(c1) && Run(env, c) == Continue(env, c1)
  {
    hide ParseScalar, ParseString, Skip, Run, Continue;
    RunStep(env, c);
  }

  /** A comma in the top container counts the value before it. */
  lemma Comma(env: Env, c: Config)
    requires Inv(c) && c.pos <= |env.text| && c.stack != [] && Peek(env.text, c.pos) == COMMA
    requires c.state == MemberValue || c.state == Element
    ensures
      var skip := Skip(env, c.pos + 1);
      if skip.Bad? then Run(env, c) == Err(skip.code, skip.offset, c.events)
      else
        var dst := if c.state == MemberValue then MemberDelimiter else ElementDelimiter;
        var c1 := Config(dst, Counted(c.stack), skip.next, c.events);
        Inv(c1) && Run(env, c) == Run(env, c1)
  {
    hide ParseScalar, ParseString, Skip;
    var dst := if c.state == MemberValue then MemberDelimiter else ElementDelimiter;
    Advance(env, c, Config(dst, Counted(c.stack), c.pos + 1, c.events));
  }

  /** A character, or the end of the text, for which the table has no transition. */
  lemma Reject(env: Env, c: Config)
    requires Inv(c) && c.pos <= |env.text|
    requires Predict(c.state, Tokenize(Peek(env.text, c.pos))) == Error || Peek(env.text, c.pos) == NUL
    requires c.state != Finish
    ensures Run(env, c) == Err(StateError(c.state), c.pos, c.events)
  {
    hide ParseScalar, ParseString, Skip;
  }

  // ------------------------------------------------------------ Agreement

  lemma ValueFollows(env: Env, c: Config)
    requires Inv(c) && c.pos <= |env.text| && StartsValue(c.state)
    requires Peek(env.text, c.pos) == RBRACKET ==> c.state == KeyValueDelimiter || (c.state == ElementDelimiter && !env.flags.trailingCommas)
    requires c.state == Start ==> Peek(env.text, c.pos) !in {NUL, RBRACKET, RBRACE, COMMA, COLON}
    ensures Follows(env, c, ParseValue(env, c.pos, c.events), AfterValue(c))
    decreases |env.text| - c.pos, 2
  {
    hide Run, Continue, Transit, ParseScalar, ParseObject, ParseArray, Follows, Predict, Tokenize;
    if Peek(env.text, c.pos) == LBRACE {
      ObjectFollows(env, c);
    } else if Peek(env.text, c.pos) == LBRACKET {
      ArrayFollows(env, c);
    } else {
      ScalarFollows(env, c);
    }
  }

  /** A scalar is one transition; a character that starts no value is refused by both parsers. */
  lemma ScalarFollows(env: Env, c: Config)
    requires Inv(c) && c.pos <= |env.text| && StartsValue(c.state) && Peek(env.text, c.pos) !in {LBRACE, LBRACKET}
    requires Peek(env.text, c.pos) == RBRACKET ==> c.state == KeyValueDelimiter || (c.state == ElementDelimiter && !env.flags.trailingCommas)
    requires c.state == Start ==> Peek(env.text, c.pos) !in {NUL, RBRACKET, RBRACE, COMMA, COLON}
    ensures Follows(env, c, ParseScalar(env, c.pos, c.events), AfterValue(c))
  {
    hide Run, Continue, Skip, ParseString, ParseLiteral, ParseNumber;
    ScalarCode(env, c.pos, c.events);
    var ch := Peek(env.text, c.pos);
    if ch in {NUL, RBRACKET, RBRACE, COMMA, COLON} {
      NoNumber(env, c.pos);
      if ch == RBRACKET && c.state == ElementDelimiter {
        Halt(env, c, Err(ValueInvalid, c.pos, c.events));
      } else {
        Reject(env, c);
      }
    } else {
      RunStep(env, c);
      ScalarStep(env, c);
      hide Transit;
    }
  }

  /** The transition on a scalar. */
  lemma ScalarStep(env: Env, c: Config)
    requires Inv(c) && c.pos < |env.text| && StartsValue(c.state)
    requires Peek(env.text, c.pos) !in {NUL, LBRACE, LBRACKET, RBRACKET, RBRACE, COMMA, COLON}
    ensures Transit(env, c) == Scalar(c, AfterValue(c).state, ParseScalar(env, c.pos, c.events))
  {
    hide ParseScalar;
  }

  lemma ObjectFollows(env: Env, c: Config)
    requires Inv(c) && c.pos <= |env.text| && StartsValue(c.state) && Peek(env.text, c.pos) == LBRACE
    ensures Follows(env, c, ParseObject(env, c.pos, c.events), AfterValue(c))
    decreases |env.text| - c.pos, 1
  {
    hide Run, Continue, Transit, Skip, ObjectBody;
    SkipCodes(env);
    OpenContainer(env, c, true);
    if env.accepts(c.events + [StartObject]) && Skip(env, c.pos + 1).Got? {
      var stack := c.stack + [Frame(ReturnState(c.state), 0)];
      assert stack[..|c.stack|] == c.stack;
      ObjectBodyFollows(env, Config(ObjectInitial, stack, Skip(env, c.pos + 1).next, c.events + [StartObject]));
    }
  }

  lemma ObjectBodyFollows(env: Env, c: Config)
    requires Inv(c) && c.pos <= |env.text| && c.stack != [] && c.state == ObjectInitial && TopCount(c) == 0
    ensures Follows(env, c, ObjectBody(env, c.pos, c.events), Closed(c))
    decreases |env.text| - c.pos, 4
  {
    hide Run, Continue, Transit, Skip, ParseMembers, Closed;
    if Peek(env.text, c.pos) == RBRACE {
      CloseContainer(env, c, 0, true);
    } else {
      MembersFollow(env, c);
    }
  }

  /** From the first name, or a name after a comma, to the end of the object. */
  lemma MembersFollow(env: Env, c: Config)
    requires Inv(c) && c.pos <= |env.text| && c.stack != []
    requires c.state == ObjectInitial || c.state == MemberDelimiter
    requires Peek(env.text, c.pos) == RBRACE ==> c.state == MemberDelimiter && !env.flags.trailingCommas
    ensures Follows(env, c, ParseMembers(env, c.pos, c.events, TopCount(c)), Closed(c))
    decreases |env.text| - c.pos, 3
  {
    hide Run, Continue, Transit, Skip, ParseMember, AfterMember;
    MemberFollows(env, c);
    var rec := ParseMember(env, c.pos, c.events);
    if rec.Ok? {
      AfterMemberFollows(env, c.(state := MemberValue, pos := rec.pos, events := rec.events));
    }
  }

  /** After a member: closing brace, comma and more members, or an error. */
  lemma AfterMemberFollows(env: Env, c: Config)
    requires Inv(c) && c.pos <= |env.text| && c.stack != [] && c.state == MemberValue
    ensures Follows(env, c, AfterMember(env, c.pos, c.events, TopCount(c) + 1), Closed(c))
    decreases |env.text| - c.pos, 4
  {
    hide Run, Continue, Transit, Skip, ParseMembers, Inv, Counted;
    SkipCodes(env);
    if Peek(env.text, c.pos) == RBRACE {
      CloseContainer(env, c, TopCount(c) + 1, true);
    } else if Peek(env.text, c.pos) == COMMA {
      Comma(env, c);
      if Skip(env, c.pos + 1).Got? {
        var c1 := Config(MemberDelimiter, Counted(c.stack), Skip(env, c.pos + 1).next, c.events);
        if env.flags.trailingCommas && Peek(env.text, c1.pos) == RBRACE {
          CloseContainer(env, c1, TopCount(c1), true);
        } else {
          MembersFollow(env, c1);
        }
      }
    } else {
      Reject(env, c);
    }
  }

  /** One member: the run reaches the character after its value in state MemberValue. */
  lemma MemberFollows(env: Env, c: Config)
    requires Inv(c) && c.pos <= |env.text| && c.stack != []
    requires c.state == ObjectInitial || c.state == MemberDelimiter
    requires Peek(env.text, c.pos) == RBRACE ==> c.state == MemberDelimiter && !env.flags.trailingCommas
    ensures
      var rec := ParseMember(env, c.pos, c.events);
      if rec.Err? then Agree(env, rec, Run(env, c))
      else
        var c1 := c.(state := MemberValue, pos := rec.pos, events := rec.events);
        Inv(c1) && Run(env, c) == Run(env, c1)
    decreases |env.text| - c.pos, 2
  {
    hide Run, Continue, ParseString, ParseScalar, Skip, ParseValue;
    SkipCodes(env);
    ScalarCode(env, c.pos, c.events);
    MemberStart(env, c);
    hide Transit;
    if Peek(env.text, c.pos) == QUOTE {
      var key := ParseString(env, c.pos, c.events, true);
      if key.Ok? {
        Advance(env, c, c.(state := MemberKey, pos := key.pos, events := key.events));
        if Skip(env, key.pos).Got? {
          ColonFollows(env, c, c.(state := MemberKey, pos := Skip(env, key.pos).next, events := key.events));
        }
      } else {
        Halt(env, c, key);
      }
    } else if Peek(env.text, c.pos) == RBRACE {
      Halt(env, c, Err(ObjectMissName, c.pos, c.events));
    } else {
      Reject(env, c);
    }
  }

  /** The transition on what should be a name. */
  lemma MemberStart(env: Env, c: Config)
    requires Inv(c) && c.pos <= |env.text| && (c.state == ObjectInitial || c.state == MemberDelimiter)
    ensures Peek(env.text, c.pos) == QUOTE ==>
              Transit(env, c) == Scalar(c, MemberKey, ParseString(env, c.pos, c.events, true))
    ensures Peek(env.text, c.pos) == RBRACE && c.state == MemberDelimiter && !env.flags.trailingCommas ==>
              Transit(env, c) == Stop(Err(ObjectMissName, c.pos, c.events))
  {
    hide ParseString, ParseScalar;
  }

  /** The part of a member from its colon on. */
  lemma ColonFollows(env: Env, c: Config, c1: Config)
    requires c.pos < c1.pos <= |env.text| && Inv(c1) && c1.state == MemberKey && c1.stack != []
    ensures
      if Peek(env.text, c1.pos) != COLON then Run(env, c1) == Err(ObjectMissColon, c1.pos, c1.events)
      else
        var skip := Skip(env, c1.pos + 1);
        if skip.Bad? then Run(env, c1) == Err(skip.code, skip.offset, c1.events)
        else
          var rec := ParseValue(env, skip.next, c1.events);
          if rec.Err? then Agree(env, rec, Run(env, c1))
          else
            var after := Skip(env, rec.pos);
            if after.Bad? then Run(env, c1) == Err(after.code, after.offset, rec.events)
            else
              var c2 := c1.(state := MemberValue, pos := after.next, events := rec.events);
              Inv(c2) && Run(env, c1) == Run(env, c2)
    decreases |env.text| - c.pos, 1
  {
    hide ParseString, ParseScalar, Skip, ParseValue;
    if Peek(env.text, c1.pos) == COLON {
      Advance(env, c1, c1.(state := KeyValueDelimiter, pos := c1.pos + 1));
      if Skip(env, c1.pos + 1).Got? {
        ValueFollows(env, c1.(state := KeyValueDelimiter, pos := Skip(env, c1.pos + 1).next));
      }
    }
  }

  lemma ArrayFollows(env: Env, c: Config)
    requires Inv(c) && c.pos <= |env.text| && StartsValue(c.state) && Peek(env.text, c.pos) == LBRACKET
    ensures Follows(env, c, ParseArray(env, c.pos, c.events), AfterValue(c))
    decreases |env.text| - c.pos, 1
  {
    hide Run, Continue, Transit, Skip, ArrayBody;
    SkipCodes(env);
    OpenContainer(env, c, false);
    if env.accepts(c.events + [StartArray]) && Skip(env, c.pos + 1).Got? {
      var stack := c.stack + [Frame(ReturnState(c.state), 0)];
      assert stack[..|c.stack|] == c.stack;
      ArrayBodyFollows(env, Config(ArrayInitial, stack, Skip(env, c.pos + 1).next, c.events + [StartArray]));
    }
  }

  lemma ArrayBodyFollows(env: Env, c: Config)
    requires Inv(c) && c.pos <= |env.text| && c.stack != [] && c.state == ArrayInitial && TopCount(c) == 0
    ensures Follows(env, c, ArrayBody(env, c.pos, c.events), Closed(c))
    decreases |env.text| - c.pos, 4
  {
    hide Run, Continue, Transit, Skip, ParseElements, Closed;
    if Peek(env.text, c.pos) == RBRACKET {
      CloseContainer(env, c, 0, false);
    } else {
      ElementsFollow(env, c);
    }
  }

  /** From the first element, or an element after a comma, to the end of the array. */
  lemma ElementsFollow(env: Env, c: Config)
    requires Inv(c) && c.pos <= |env.text| && c.stack != []
    requires c.state == ArrayInitial || c.state == ElementDelimiter
    requires Peek(env.text, c.pos) == RBRACKET ==> c.state == ElementDelimiter && !env.flags.trailingCommas
    ensures Follows(env, c, ParseElements(env, c.pos, c.events, TopCount(c)), Closed(c))
    decreases |env.text| - c.pos, 3
  {
    hide Run, Transit, Skip, ParseValue, AfterElement;
    SkipCodes(env);
    ValueFollows(env, c);
    var rec := ParseValue(env, c.pos, c.events);
    if rec.Ok? && Skip(env, rec.pos).Got? {
      AfterElementFollows(env, c.(state := Element, pos := Skip(env, rec.pos).next, events := rec.events));
    }
  }

  /** After an element: closing bracket, comma and more elements, or an error. */
  lemma AfterElementFollows(env: Env, c: Config)
    requires Inv(c) && c.pos <= |env.text| && c.stack != [] && c.state == Element
    ensures Follows(env, c, AfterElement(env, c.pos, c.events, TopCount(c) + 1), Closed(c))
    decreases |env.text| - c.pos, 4
  {
    hide Run, Continue, Transit, Skip, ParseElements, Inv, Counted;
    SkipCodes(env);
    if Peek(env.text, c.pos) == RBRACKET {
      CloseContainer(env, c, TopCount(c) + 1, false);
    } else if Peek(env.text, c.pos) == COMMA {
      Comma(env, c);
      if Skip(env, c.pos + 1).Got? {
        var c1 := Config(ElementDelimiter, Counted(c.stack), Skip(env, c.pos + 1).next, c.events);
        if env.flags.trailingCommas && Peek(env.text, c1.pos) == RBRACKET {
          CloseContainer(env, c1, TopCount(c1), false);
        } else {
          ElementsFollow(env, c1);
        }
      }
    } else {
      Reject(env, c);
    }
  }

  /** The text starts, after whitespace, with a character that only means something inside a container. */
  predicate StrayAtRoot(env: Env) {
    Skip(env, 0).Got? && Peek(env.text, Skip(env, 0).next) in {RBRACKET, RBRACE, COMMA, COLON}
  }

  /**
   On every text, with every flag and every handler, the two parsers agree; the one exception is a stray
   closing bracket, comma or colon at the root, which the recursive parser calls an invalid value and the
   iterative one an empty document, at the same place.
   */
  lemma ParsersAgree(env: Env)
    ensures !StrayAtRoot(env) <==> Agree(env, Recursive.Parse(env), Iterative.Parse(env))
    ensures StrayAtRoot(env) ==>
              var p := Skip(env, 0).next;
              Recursive.Parse(env) == Err(ValueInvalid, p, []) && Iterative.Parse(env) == Err(DocumentEmpty, p, [])
  {
    hide Run, Skip, ParseValue;
    SkipCodes(env);
    if Skip(env, 0).Got? {
      var p := Skip(env, 0).next;
      var c := Config(Start, [], p, []);
      if StrayAtRoot(env) {
        Reject(env, c);
        StrayValue(env, p);
      } else if Peek(env.text, p) == NUL {
        Reject(env, c);
      } else {
        ValueFollows(env, c);
        var rec := ParseValue(env, p, []);
        if rec.Ok? && !env.flags.stopWhenDone && Skip(env, rec.pos).Got? {
          AtFinish(env, Config(Finish, [], Skip(env, rec.pos).next, rec.events));
        }
      }
    }
  }

  lemma StrayValue(env: Env, p: nat)
    requires p <= |env.text| && Peek(env.text, p) in {RBRACKET, RBRACE, COMMA, COLON}
    ensures ParseValue(env, p, []) == Err(ValueInvalid, p, [])
  {
    NoNumber(env, p);
  }

  lemma AtFinish(env: Env, c: Config)
    requires c.state == Finish && c.stack == [] && c.pos <= |env.text|
    ensures Run(env, c) == if Peek(env.text, c.pos) == NUL then Ok(c.pos, c.events)
                           else Err(DocumentRootNotSingular, c.pos, c.events)
  {}
}
