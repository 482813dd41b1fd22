/** Every text that is refused is refused for what stands at the offset reported. */
module Refusals {
  import opened Text
  import opened Sax
  import opened Lexer
  import opened Numbers
  import opened Recursive
  import opened Blanks
  import opened Grammar
  import NumberGrammar
  import StringGrammar

  /** A literal breaks off at `o`, after its first character. */
  ghost predicate BreaksOff(t: seq<Byte>, o: nat, word: seq<Byte>) {
    exists k | 0 < k < |word| && k <= o <= |t| :: At(t, o - k, word[..k]) && Peek(t, o) != word[k]
  }

  /** A comment is not closed before the end of the text, or a slash begins none. */
  predicate CommentFault(env: Env, o: nat) {
    && env.flags.comments
    && (Peek(env.text, o) == 0 || (o > 0 && Peek(env.text, o - 1) == '/' as int && Peek(env.text, o) !in ['*' as int, '/' as int]))
  }

  /** What the error says of the place, and for a handler's refusal of the events sent. */
  ghost predicate Reason(env: Env, code: ErrorCode, o: nat, events: seq<Event>) {
    var c := Peek(env.text, o);
    match code
    case DocumentEmpty => c == 0
    case DocumentRootNotSingular => c != 0 && NoBlank(env, o)
    case ValueInvalid =>
      || !IsDigit(c) || env.flags.nanAndInf
      || BreaksOff(env.text, o, NULL_WORD) || BreaksOff(env.text, o, TRUE_WORD) || BreaksOff(env.text, o, FALSE_WORD)
    case ObjectMissName => c != '"' as int && NoBlank(env, o)
    case ObjectMissColon => c != ':' as int && NoBlank(env, o)
    case ObjectMissCommaOrCurlyBracket => c != ',' as int && c != '}' as int && NoBlank(env, o)
    case ArrayMissCommaOrSquareBracket => c != ',' as int && c != ']' as int && NoBlank(env, o)
    case NumberTooBig => exists s :: NumberGrammar.RefusedAsTooBig(env, o, s)
    case NumberMissFraction => o > 0 && Peek(env.text, o - 1) == '.' as int && !IsDigit(c)
    case NumberMissExponent => o > 0 && Peek(env.text, o - 1) in ['e' as int, 'E' as int, '+' as int, '-' as int] && !IsDigit(c)
    case Termination => !env.accepts(events)
    case UnspecificSyntaxError => CommentFault(env, o)
    case _ => StringGrammar.FaultAt(env.flags.validateEncoding, env.text, o, code)
  }

  ghost predicate Justified(env: Env, r: Outcome) {
    r.Err? ==> Reason(env, r.code, r.offset, r.events)
  }

  // --------------------------------------------------------------- Scanners

  lemma {:induction false} UnclosedEnds(t: seq<Byte>, p: nat)
    ensures BlockComment(t, p).None? ==> Peek(t, BlockCommentEnd(t, p)) == 0
    decreases |t| - p
  {
    if Peek(t, p) != NUL && !(Peek(t, p) == STAR && Peek(t, p + 1) == SLASH) {
      UnclosedEnds(t, p + 1);
    }
  }

  lemma {:induction false} CommentsFault(env: Env, p: nat)
    requires env.flags.comments
    ensures match Comments(env.text, p) case Got(_, _) => true case Bad(code, o) => code == UnspecificSyntaxError && CommentFault(env, o)
    decreases |env.text| - p
  {
    var t := env.text;
    if Peek(t, p) == SLASH {
      if Peek(t, p + 1) == STAR {
        UnclosedEnds(t, p + 2);
        if BlockComment(t, p + 2).Some? {
          CommentsFault(env, SkipWhitespace(t, BlockComment(t, p + 2).value));
        }
      } else if Peek(t, p + 1) == SLASH {
        CommentsFault(env, SkipWhitespace(t, LineComment(t, p + 2)));
      }
    }
  }

  lemma SkipFault(env: Env, p: nat)
    ensures match Skip(env, p)
            case Got(q, _) => NoBlank(env, q)
            case Bad(code, o) => code == UnspecificSyntaxError && CommentFault(env, o)
  {
    if env.flags.comments {
      CommentsFault(env, SkipWhitespace(env.text, p));
    }
    if Skip(env, p).Got? {
      assert Skip(env, p).value == ();
      SkipIff(env, p, Skip(env, p).next);
    }
  }

  lemma WordFault(env: Env, p: nat, events: seq<Event>, word: seq<Byte>, e: Event)
    requires |word| > 1 && NUL !in word[1..] && p < |env.text| && Peek(env.text, p) == word[0]
    ensures var r := ParseLiteral(env, p, events, word[1..], e);
            r.Err? ==> (r.code == Termination && !env.accepts(r.events)) || (r.code == ValueInvalid && BreaksOff(env.text, r.offset, word))
  {
    var t, tail := env.text, word[1..];
    MatchStops(t, p + 1, tail);
    var (ok, q) := Match(t, p + 1, tail);
    if !ok {
      var k := q - p;
      AtSplit(t, p, [word[0]], tail[..k - 1]);
      assert t[p..p + 1] == [Peek(t, p)];
      assert [word[0]] + tail[..k - 1] == word[..k] && tail[k - 1] == word[k];
      assert At(t, q - k, word[..k]);
    }
  }

  lemma StringFault(env: Env, p: nat, events: seq<Event>, isKey: bool)
    ensures Justified(env, Recursive.ParseString(env, p, events, isKey))
  {
    hide StringBody, StringGrammar.FaultAt, StringGrammar.Spelled, StringGrammar.Decoded;
    var v := env.flags.validateEncoding;
    var xs, q := StringGrammar.PiecesExist(v, env.text, p + 1);
    StringGrammar.SpelledReads(v, env.text, p + 1, xs, q);
    if Peek(env.text, q) != QUOTE {
      var code :| StringGrammar.FaultAt(v, env.text, q, code);
      FaultCodes(v, env.text, q, code);
    }
  }

  lemma FaultCodes(validate: bool, t: seq<Byte>, p: nat, code: ErrorCode)
    requires StringGrammar.FaultAt(validate, t, p, code)
    ensures code in [StringUnicodeEscapeInvalidHex, StringUnicodeSurrogateInvalid, StringEscapeInvalid, StringMissQuotationMark,
                     StringInvalidEncoding]
  {}

  predicate NumberReason(env: Env, start: nat, code: ErrorCode, o: nat) {
    match code
    case NumberTooBig => o == start
    case NumberMissFraction => o > 0 && Peek(env.text, o - 1) == DOT && !IsDigit(Peek(env.text, o))
    case NumberMissExponent => o > 0 && Peek(env.text, o - 1) in [LOWER_E, UPPER_E, PLUS, MINUS] && !IsDigit(Peek(env.text, o))
    case ValueInvalid => !IsDigit(Peek(env.text, o)) || env.flags.nanAndInf
    case _ => false
  }

  lemma IntegerFault(env: Env, minus: bool, q: nat, start: nat)
    ensures match Integer(env, minus, q, start) case Got(_, _) => true case Bad(code, o) => NumberReason(env, start, code, o)
  {
    hide FitEnd, TooBigFrom, Match, DigitsValue;
  }

  lemma FractionFault(env: Env, p: nat, part: IntegerPart, start: nat)
    ensures match ParseFraction(env.text, p, part) case Got(_, _) => true case Bad(code, o) => NumberReason(env, start, code, o)
  {
    hide FractionDigits, RealFractionDigits;
  }

  lemma ExponentFault(env: Env, p: nat, expFrac: int, start: nat)
    requires expFrac <= 0
    ensures match ParseExponent(env.text, p, expFrac, start) case Got(_, _) => true case Bad(code, o) => NumberReason(env, start, code, o)
  {
    hide DigitsValue;
  }

  lemma NumberCodes(env: Env, p: nat)
    ensures match ParseNumber(env, p) case Got(_, _) => true case Bad(code, o) => NumberReason(env, p, code, o)
  {
    hide Integer, ParseFraction, ParseExponent, NumberEvent, NumberReason;
    var minus := Peek(env.text, p) == MINUS;
    var q := if minus then p + 1 else p;
    IntegerFault(env, minus, q, p);
    if Integer(env, minus, q, p).Got? {
      var r := Integer(env, minus, q, p);
      FractionFault(env, r.next, r.value, p);
      if ParseFraction(env.text, r.next, r.value).Got? {
        var f := ParseFraction(env.text, r.next, r.value);
        ExponentFault(env, f.next, f.value.expFrac, p);
      }
    }
  }

  lemma NumberFault(env: Env, p: nat, events: seq<Event>)
    ensures match ParseNumber(env, p) case Got(_, _) => true case Bad(code, o) => Reason(env, code, o, events)
  {
    hide ParseNumber, BreaksOff, NumberGrammar.RefusedAsTooBig;
    NumberCodes(env, p);
    NumberGrammar.NumberIff(env, p);
  }

  // ----------------------------------------------------------------- Values

  lemma EmitFault(env: Env, pos: nat, events: seq<Event>, e: Event, offset: nat)
    ensures Justified(env, Emit(env, pos, events, e, offset))
  {}

  lemma ScalarFault(env: Env, p: nat, events: seq<Event>)
    requires p <= |env.text|
    ensures Justified(env, ParseScalar(env, p, events))
  {
    hide ParseLiteral, Recursive.ParseString, ParseNumber, BreaksOff, Emit;
    Words();
    var c := Peek(env.text, p);
    if c == LOWER_N {
      WordFault(env, p, events, NULL_WORD, Event.Null);
    } else if c == LOWER_T {
      WordFault(env, p, events, TRUE_WORD, Event.Bool(true));
    } else if c == LOWER_F {
      WordFault(env, p, events, FALSE_WORD, Event.Bool(false));
    } else if c == QUOTE {
      StringFault(env, p, events, false);
    } else {
      NumberFault(env, p, events);
      if ParseNumber(env, p).Got? {
        EmitFault(env, ParseNumber(env, p).next, events, ParseNumber(env, p).value, p);
      }
    }
  }

  lemma {:induction false} ValueFault(env: Env, p: nat, events: seq<Event>)
    requires p <= |env.text|
    ensures Justified(env, Recursive.ParseValue(env, p, events))
    decreases |env.text| - p, 5
  {
    hide ParseScalar, ParseArray, ParseObject, Reason;
    if Peek(env.text, p) == LBRACKET {
      ArrayFault(env, p, events);
    } else if Peek(env.text, p) == LBRACE {
      ObjectFault(env, p, events);
    } else {
      ScalarFault(env, p, events);
    }
  }

  /** A place where skipping fails, and a place after skipping. */
  lemma SkipReason(env: Env, p: nat, events: seq<Event>)
    ensures match Skip(env, p) case Got(q, _) => NoBlank(env, q) case Bad(code, o) => Reason(env, code, o, events)
  {
    hide Skip;
    SkipFault(env, p);
  }

  lemma {:induction false} ArrayFault(env: Env, p: nat, events: seq<Event>)
    requires p <= |env.text| && Peek(env.text, p) == LBRACKET
    ensures Justified(env, ParseArray(env, p, events))
    decreases |env.text| - p, 4
  {
    hide ParseElements, Skip, Reason;
    EmitFault(env, p + 1, events, StartArray, p + 1);
    SkipReason(env, p + 1, events + [StartArray]);
    if Skip(env, p + 1).Got? {
      var q := Skip(env, p + 1).next;
      EmitFault(env, q + 1, events + [StartArray], EndArray(0), q + 1);
      ElementsFault(env, q, events + [StartArray], 0);
    }
  }

  lemma {:induction false} ElementsFault(env: Env, p: nat, events: seq<Event>, count: nat)
    requires p <= |env.text|
    ensures Justified(env, ParseElements(env, p, events, count))
    decreases |env.text| - p, 6
  {
    hide Recursive.ParseValue, Skip, AfterElement, Reason;
    ValueFault(env, p, events);
    var v := Recursive.ParseValue(env, p, events);
    if v.Ok? {
      SkipReason(env, v.pos, v.events);
      if Skip(env, v.pos).Got? {
        AfterElementFault(env, Skip(env, v.pos).next, v.events, count + 1);
      }
    }
  }

  lemma {:induction false} AfterElementFault(env: Env, q: nat, events: seq<Event>, count: nat)
    requires q <= |env.text| && NoBlank(env, q)
    ensures Justified(env, AfterElement(env, q, events, count))
    decreases |env.text| - q, 7
  {
    hide Skip, ParseElements;
    EmitFault(env, q + 1, events, EndArray(count), q + 1);
    SkipReason(env, q + 1, events);
    if Peek(env.text, q) == COMMA && Skip(env, q + 1).Got? {
      var next := Skip(env, q + 1).next;
      EmitFault(env, next + 1, events, EndArray(count), next);
      ElementsFault(env, next, events, count);
    }
  }

  lemma {:induction false} ObjectFault(env: Env, p: nat, events: seq<Event>)
    requires p <= |env.text| && Peek(env.text, p) == LBRACE
    ensures Justified(env, ParseObject(env, p, events))
    decreases |env.text| - p, 4
  {
    hide ParseMembers, Skip, Reason;
    EmitFault(env, p + 1, events, StartObject, p + 1);
    SkipReason(env, p + 1, events + [StartObject]);
    if Skip(env, p + 1).Got? {
      var q := Skip(env, p + 1).next;
      EmitFault(env, q + 1, events + [StartObject], EndObject(0), q + 1);
      MembersFault(env, q, events + [StartObject], 0);
    }
  }

  lemma {:induction false} MembersFault(env: Env, p: nat, events: seq<Event>, count: nat)
    requires p <= |env.text| && NoBlank(env, p)
    ensures Justified(env, ParseMembers(env, p, events, count))
    decreases |env.text| - p, 8
  {
    hide ParseMember, AfterMember, Reason;
    MemberFault(env, p, events);
    var m := ParseMember(env, p, events);
    if m.Ok? {
      AfterMemberFault(env, m.pos, m.events, count + 1);
    }
  }

  lemma {:induction false} MemberFault(env: Env, p: nat, events: seq<Event>)
    requires p <= |env.text| && NoBlank(env, p)
    ensures Justified(env, ParseMember(env, p, events))
    ensures ParseMember(env, p, events).Ok? ==> NoBlank(env, ParseMember(env, p, events).pos)
    decreases |env.text| - p, 6
  {
    hide Recursive.ParseValue, Recursive.ParseString, Skip;
    if Peek(env.text, p) == QUOTE {
      StringFault(env, p, events, true);
      var s := Recursive.ParseString(env, p, events, true);
      if s.Ok? {
        NamedFault(env, p, s.pos, s.events);
      }
    }
  }

  /** What stands after the name of a member. */
  lemma {:induction false} NamedFault(env: Env, p: nat, q: nat, events: seq<Event>)
    requires p < q <= |env.text|
    ensures match Skip(env, q)
            case Bad(code, o) => Reason(env, code, o, events)
            case Got(colon, _) =>
              && (Peek(env.text, colon) != COLON ==> Reason(env, ObjectMissColon, colon, events))
              && (Peek(env.text, colon) == COLON ==>
                    match Skip(env, colon + 1)
                    case Bad(code, o) => Reason(env, code, o, events)
                    case Got(start, _) =>
                      && Justified(env, Recursive.ParseValue(env, start, events))
                      && var v := Recursive.ParseValue(env, start, events);
                         v.Ok? ==> match Skip(env, v.pos) case Bad(code, o) => Reason(env, code, o, v.events) case Got(r, _) => NoBlank(env, r))
    decreases |env.text| - p, 5
  {
    hide Recursive.ParseValue, Skip;
    SkipReason(env, q, events);
    if Skip(env, q).Got? && Peek(env.text, Skip(env, q).next) == COLON {
      var colon := Skip(env, q).next;
      SkipReason(env, colon + 1, events);
      if Skip(env, colon + 1).Got? {
        var start := Skip(env, colon + 1).next;
        ValueFault(env, start, events);
        var v := Recursive.ParseValue(env, start, events);
        if v.Ok? {
          SkipReason(env, v.pos, v.events);
        }
      }
    }
  }

  lemma {:induction false} AfterMemberFault(env: Env, q: nat, events: seq<Event>, count: nat)
    requires q <= |env.text| && NoBlank(env, q)
    ensures Justified(env, AfterMember(env, q, events, count))
    decreases |env.text| - q, 9
  {
    hide Skip, ParseMembers;
    EmitFault(env, q + 1, events, EndObject(count), q + 1);
    SkipReason(env, q + 1, events);
    if Peek(env.text, q) == COMMA && Skip(env, q + 1).Got? {
      var next := Skip(env, q + 1).next;
      EmitFault(env, next + 1, events, EndObject(count), next);
      MembersFault(env, next, events, count);
    }
  }

  // --------------------------------------------------------------- Theorem

  /** Whatever the text, flags and handler, a refusal is justified by what stands where it is reported. */
  lemma RefusedFor(env: Env)
    ensures Justified(env, Recursive.Parse(env))
  {
    hide Recursive.ParseValue, Skip;
    SkipReason(env, 0, []);
    if Skip(env, 0).Got? {
      var p := Skip(env, 0).next;
      ValueFault(env, p, []);
      var v := Recursive.ParseValue(env, p, []);
      if v.Ok? {
        SkipReason(env, v.pos, v.events);
      }
    }
  }
}
