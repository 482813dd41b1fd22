/** What is printed reads back: parsing a value's text sends that value's events, and they rebuild the value. */
module RoundTrip {
  import opened Text
  import opened Sax
  import opened Lexer
  import opened Numbers
  import opened Recursive
  import opened Dom
  import opened Printer
  import Utf8

  // ----------------------------------------------------------------- Numbers

  lemma {:induction false} DecimalReads(t: seq<Byte>, p: nat, n: nat)
    requires At(t, p, Decimal(n))
    ensures AllDigits(t, p, p + |Decimal(n)|)
    ensures DigitsValue(t, p, p + |Decimal(n)|) == n
    ensures Peek(t, p) == DIGIT_0 ==> n == 0 && |Decimal(n)| == 1
  {
    var s := Decimal(n);
    forall k | p <= k < p + |s| ensures IsDigit(Peek(t, k)) {
      AtPeek(t, p, s, k - p);
    }
    AtPeek(t, p, s, |s| - 1);
    if n >= 10 {
      AtSplit(t, p, Decimal(n / 10), [DIGIT_0 + n % 10]);
      DecimalReads(t, p, n / 10);
    } else {
      assert DigitsValue(t, p, p) == 0;
    }
  }

  predicate EndsNumber(c: Byte) {
    !IsDigit(c) && c != DOT && c != LOWER_E && c != UPPER_E
  }

  lemma NumberReads(env: Env, p: nat, n: int)
    requires -TWO_63 <= n < TWO_64 && At(env.text, p, SignedDecimal(n))
    requires EndsNumber(Peek(env.text, p + |SignedDecimal(n)|))
    ensures ParseNumber(env, p) == Got(p + |SignedDecimal(n)|, ReadEvent(n))
  {
    hide ParseNumber, Decimal, DigitsValue, At;
    var t := env.text;
    if n < 0 {
      AtSplit(t, p, [MINUS], Decimal(0 - n));
      AtHead(t, p, [MINUS]);
      DecimalReads(t, p + 1, 0 - n);
    } else {
      DecimalReads(t, p, n);
      assert IsDigit(Peek(t, p));
    }
    IntegerReads(env, p, p + |SignedDecimal(n)|, n);
  }

  /** An integer literal is read as its value, in the reader's own choice of type. */
  lemma IntegerReads(env: Env, p: nat, e: nat, n: int)
    requires -TWO_63 <= n < TWO_64
    requires var q := if n < 0 then p + 1 else p;
             (Peek(env.text, p) == MINUS <==> n < 0) && IsIntegerLiteral(env.text, q, e)
             && DigitsValue(env.text, q, e) == if n < 0 then 0 - n else n
    ensures ParseNumber(env, p) == Got(e, ReadEvent(n))
  {
    hide ParseNumber, DigitsValue, IsIntegerLiteral, Slice;
    IntegerIsExact(env, p, e);
  }

  // ----------------------------------------------------------------- Strings

  lemma HexCharReads(d: nat)
    requires d < 16
    ensures HexDigit(HexChar(d)) == Some(d)
  {}

  /** The four hexadecimal digits of a 16-bit number. */
  lemma HexDigitsOf(u: nat)
    requires u < 0x10000
    ensures u / 4096 < 16
    ensures u == ((u / 4096 * 16 + u / 256 % 16) * 16 + u / 16 % 16) * 16 + u % 16
  {
    assert u / 256 / 16 == u / 4096 && u / 16 / 16 == u / 256;
  }

  lemma Hex4Reads(t: seq<Byte>, p: nat, u: nat)
    requires u < 0x10000 && At(t, p, Printer.UnicodeEscape(u))
    ensures Peek(t, p) == BACKSLASH && Peek(t, p + 1) == LOWER_U && Hex4(t, p + 2) == Some(u)
  {
    var s := Printer.UnicodeEscape(u);
    AtPeek(t, p, s, 0);
    AtPeek(t, p, s, 1);
    AtPeek(t, p, s, 2);
    AtPeek(t, p, s, 3);
    AtPeek(t, p, s, 4);
    AtPeek(t, p, s, 5);
    hide At;
    HexDigitsOf(u);
    var a, b, c, d := u / 4096, u / 256 % 16, u / 16 % 16, u % 16;
    HexCharReads(a);
    HexCharReads(b);
    HexCharReads(c);
    HexCharReads(d);
    hide HexChar, HexDigit;
  }

  /** An escaped code point, one escape or a surrogate pair, reads as that code point. */
  lemma CodePointReads(t: seq<Byte>, p: nat, cp: nat)
    requires Utf8.IsScalar(cp) && At(t, p, CodePointEscape(cp))
    ensures Peek(t, p) == BACKSLASH && Peek(t, p + 1) == LOWER_U
    ensures Lexer.UnicodeEscape(t, p + 2, p) == Got(p + |CodePointEscape(cp)|, cp)
  {
    if cp < 0x10000 {
      Hex4Reads(t, p, cp);
    } else {
      var lead, trail := (cp - 0x10000) / 0x400 + 0xD800, (cp - 0x10000) % 0x400 + 0xDC00;
      AtSplit(t, p, Printer.UnicodeEscape(lead), Printer.UnicodeEscape(trail));
      Hex4Reads(t, p, lead);
      Hex4Reads(t, p + 6, trail);
    }
  }

  /** Whether a character is well-formed depends only on its own bytes. */
  lemma LengthLocal(s: seq<Byte>, i: nat, t: seq<Byte>, p: nat)
    requires i < |s| && Utf8.Length(s, i) > 0 && At(t, p, s[i..i + Utf8.Length(s, i)])
    ensures Utf8.Length(t, p) == Utf8.Length(s, i)
  {
    var n := Utf8.Length(s, i);
    var own := s[i..i + n];
    AtPeek(t, p, own, 0);
    if n > 1 { AtPeek(t, p, own, 1); }
    if n > 2 { AtPeek(t, p, own, 2); }
    if n > 3 { AtPeek(t, p, own, 3); }
  }

  /** One step of the printer on a character it does not decode. */
  lemma EscapeStep(ascii: bool, s: seq<Byte>, i: nat)
    requires i < |s| && !(ascii && s[i] >= 0x80)
    ensures Escape(ascii, s, i).Some? <==> Escape(ascii, s, i + 1).Some?
    ensures Escape(ascii, s, i).Some? ==> Escape(ascii, s, i).value == EscapeChar(s[i]) + Escape(ascii, s, i + 1).value
  {}

  /** One step of the printer on a character it decodes and escapes. */
  lemma EscapeDecoded(s: seq<Byte>, i: nat)
    requires i < |s| && s[i] >= 0x80 && Escape(true, s, i).Some?
    ensures Utf8.Length(s, i) > 0 && i + Utf8.Length(s, i) <= |s| && Utf8.IsScalar(Utf8.CodePoint(s, i))
    ensures Escape(true, s, i + Utf8.Length(s, i)).Some?
    ensures Escape(true, s, i).value == CodePointEscape(Utf8.CodePoint(s, i)) + Escape(true, s, i + Utf8.Length(s, i)).value
  {
    hide CodePointEscape, Utf8.CodePoint;
    if Utf8.Length(s, i) > 0 {
      Utf8.EncodeOfDecode(s, i);
    }
  }

  /** Bytes of a multi-byte character are written as they are. */
  lemma {:induction false} EscapeRaw(s: seq<Byte>, i: nat, n: nat)
    requires i + n <= |s| && forall k | i <= k < i + n :: s[k] >= 0x80
    ensures Escape(false, s, i).Some? && Escape(false, s, i + n).Some?
    ensures Escape(false, s, i).value == s[i..i + n] + Escape(false, s, i + n).value
    decreases n
  {
    hide Escape;
    EscapeFails(false, s, i);
    EscapeFails(false, s, i + n);
    if n > 0 {
      EscapeStep(false, s, i);
      EscapeRaw(s, i + 1, n - 1);
      assert EscapeChar(s[i]) == [s[i]];
      assert s[i..i + n] == [s[i]] + s[i + 1..i + n];
    }
  }

  /** An escaped control character or a one-letter escape. */
  lemma EscapeCharReads(validate: bool, t: seq<Byte>, p: nat, c: Byte, out: seq<Byte>)
    requires c < 0x80 && At(t, p, EscapeChar(c))
    ensures StringBody(validate, t, p, out) == StringBody(validate, t, p + |EscapeChar(c)|, out + [c])
  {
    var s := EscapeChar(c);
    AtPeek(t, p, s, 0);
    match EscapeLetter(c)
    case None =>
      assert Utf8.Length(t, p) == 1 && Slice(t, p, 1) == [c];
    case Some(letter) =>
      if letter == LOWER_U {
        Hex4Reads(t, p, c);
      } else {
        AtPeek(t, p, s, 1);
      }
  }

  /** A character that is copied as it is, by a reader that does not check encodings. */
  lemma RawReads(t: seq<Byte>, p: nat, c: Byte, out: seq<Byte>)
    requires c >= 0x80 && At(t, p, [c])
    ensures StringBody(false, t, p, out) == StringBody(false, t, p + 1, out + [c])
  {
    AtPeek(t, p, [c], 0);
  }

  /** A whole multi-byte character, escaped. */
  lemma EscapedReads(validate: bool, t: seq<Byte>, p: nat, cp: nat, out: seq<Byte>)
    requires Utf8.IsScalar(cp) && At(t, p, CodePointEscape(cp))
    ensures StringBody(validate, t, p, out) ==
            StringBody(validate, t, p + |CodePointEscape(cp)|, out + Utf8.Encode(cp))
  {
    hide CodePointEscape, Utf8.Encode, Utf8.Length, Lexer.UnicodeEscape;
    CodePointReads(t, p, cp);
  }

  /** A whole multi-byte character, copied by a reader that checks encodings. */
  lemma CheckedReads(t: seq<Byte>, p: nat, s: seq<Byte>, i: nat, out: seq<Byte>)
    requires i < |s| && s[i] >= 0x80 && Utf8.Length(s, i) > 0 && i + Utf8.Length(s, i) <= |s|
    requires At(t, p, s[i..i + Utf8.Length(s, i)])
    ensures
      var n := Utf8.Length(s, i);
      StringBody(true, t, p, out) == StringBody(true, t, p + n, out + s[i..i + n])
  {
    var n := Utf8.Length(s, i);
    LengthLocal(s, i, t, p);
    AtPeek(t, p, s[i..i + n], 0);
    SliceOfAt(t, p, s[i..i + n]);
    hide Utf8.Length, Lexer.UnicodeEscape;
  }

  lemma SliceOfAt(t: seq<Byte>, p: nat, x: seq<Byte>)
    requires At(t, p, x)
    ensures Slice(t, p, |x|) == x
  {
    assert Slice(t, p, |x|) == t[p..p + |x|];
  }

  /** The body of a printed string and its closing quote decode to the string. */
  lemma {:induction false} BodyReads(validate: bool, ascii: bool, t: seq<Byte>, p: nat, s: seq<Byte>, i: nat, out: seq<Byte>)
    requires i <= |s| && (validate || ascii ==> Utf8.ValidFrom(s, i))
    requires Escape(ascii, s, i).Some? && At(t, p, Escape(ascii, s, i).value + [QUOTE])
    ensures StringBody(validate, t, p, out) == Got(p + |Escape(ascii, s, i).value| + 1, out + s[i..])
    decreases |s| - i
  {
    hide Escape, Utf8.ValidFrom, StringBody, At;
    if i == |s| {
      EscapeEnd(ascii, s);
      BodyEnds(validate, t, p, out);
      assert out + s[i..] == out;
    } else {
      var head, n := HeadReads(validate, ascii, t, p, s, i, out);
      var rest := Escape(ascii, s, i + n).value;
      AtSplit(t, p, head, rest + [QUOTE]);
      BodyReads(validate, ascii, t, p + |head|, s, i + n, out + s[i..i + n]);
      assert out + s[i..i + n] + s[i + n..] == out + s[i..];
    }
  }

  lemma BodyEnds(validate: bool, t: seq<Byte>, p: nat, out: seq<Byte>)
    requires At(t, p, [QUOTE])
    ensures StringBody(validate, t, p, out) == Got(p + 1, out)
  {
    AtPeek(t, p, [QUOTE], 0);
  }

  lemma EscapeEnd(ascii: bool, s: seq<Byte>)
    ensures Escape(ascii, s, |s|) == Some([]) && [] + [QUOTE] == [QUOTE]
  {}

  /** The next `n` characters of the string and the text `head` they are printed as. */
  lemma HeadReads(validate: bool, ascii: bool, t: seq<Byte>, p: nat, s: seq<Byte>, i: nat, out: seq<Byte>)
    returns (head: seq<Byte>, n: nat)
    requires i < |s| && (validate || ascii ==> Utf8.ValidFrom(s, i))
    requires Escape(ascii, s, i).Some? && At(t, p, Escape(ascii, s, i).value + [QUOTE])
    ensures 0 < n && i + n <= |s| && (validate || ascii ==> Utf8.ValidFrom(s, i + n))
    ensures Escape(ascii, s, i + n).Some? && Escape(ascii, s, i).value == head + Escape(ascii, s, i + n).value
    ensures At(t, p, head + (Escape(ascii, s, i + n).value + [QUOTE]))
    ensures StringBody(validate, t, p, out) == StringBody(validate, t, p + |head|, out + s[i..i + n])
  {
    hide Escape, Utf8.CodePoint, CodePointEscape, StringBody;
    head, n := HeadOf(validate, ascii, s, i);
    var rest := Escape(ascii, s, i + n).value;
    assert Escape(ascii, s, i).value + [QUOTE] == head + (rest + [QUOTE]);
    AtSplit(t, p, head, rest + [QUOTE]);
    if s[i] >= 0x80 && ascii {
      Utf8.EncodeOfDecode(s, i);
      EscapedReads(validate, t, p, Utf8.CodePoint(s, i), out);
    } else if s[i] >= 0x80 && validate {
      CheckedReads(t, p, s, i, out);
    } else if s[i] >= 0x80 {
      RawReads(t, p, s[i], out);
    } else {
      EscapeCharReads(validate, t, p, s[i], out);
    }
  }

  /** What `HeadReads` takes off the string: a whole character where one is decoded or checked, else a byte. */
  lemma HeadOf(validate: bool, ascii: bool, s: seq<Byte>, i: nat) returns (head: seq<Byte>, n: nat)
    requires i < |s| && (validate || ascii ==> Utf8.ValidFrom(s, i)) && Escape(ascii, s, i).Some?
    ensures 0 < n && i + n <= |s| && (validate || ascii ==> Utf8.ValidFrom(s, i + n))
    ensures Escape(ascii, s, i + n).Some? && Escape(ascii, s, i).value == head + Escape(ascii, s, i + n).value
    ensures if s[i] >= 0x80 && (ascii || validate) then
              && n == Utf8.Length(s, i)
              && (ascii ==> Utf8.IsScalar(Utf8.CodePoint(s, i)) && head == CodePointEscape(Utf8.CodePoint(s, i))
                            && s[i..i + n] == Utf8.Encode(Utf8.CodePoint(s, i)))
              && (!ascii ==> head == s[i..i + n])
            else n == 1 && head == EscapeChar(s[i]) && s[i..i + n] == [s[i]] && (s[i] >= 0x80 ==> head == [s[i]])
  {
    hide Escape, Utf8.CodePoint, CodePointEscape;
    if s[i] >= 0x80 && (ascii || validate) {
      n := Utf8.Length(s, i);
      Utf8.EncodeOfDecode(s, i);
      if ascii {
        EscapeDecoded(s, i);
        head := CodePointEscape(Utf8.CodePoint(s, i));
      } else {
        assert forall k | i <= k < i + n :: s[k] >= 0x80;
        EscapeRaw(s, i, n);
        head := s[i..i + n];
      }
    } else {
      n := 1;
      EscapeStep(ascii, s, i);
      head := EscapeChar(s[i]);
    }
  }

  // ------------------------------------------------------------------ Values

  /** The handler never refuses an event. */
  ghost predicate Calm(env: Env) {
    forall events: seq<Event> :: env.accepts(events)
  }

  predicate IsSpace(s: seq<Byte>) {
    forall i | 0 <= i < |s| :: IsWhitespace(s[i])
  }

  /** What stands at `p` is neither whitespace nor the start of a comment. */
  predicate Solid(t: seq<Byte>, p: nat) {
    !IsWhitespace(Peek(t, p)) && Peek(t, p) != SLASH
  }

  lemma {:induction false} SpaceSkips(t: seq<Byte>, p: nat, ws: seq<Byte>)
    requires At(t, p, ws) && IsSpace(ws) && !IsWhitespace(Peek(t, p + |ws|))
    ensures SkipWhitespace(t, p) == p + |ws|
    decreases ws
  {
    if ws != [] {
      AtSplit(t, p, [ws[0]], ws[1..]);
      assert ws == [ws[0]] + ws[1..];
      AtPeek(t, p, [ws[0]], 0);
      SpaceSkips(t, p + 1, ws[1..]);
    }
  }

  lemma GapSkips(env: Env, p: nat, ws: seq<Byte>)
    requires At(env.text, p, ws) && IsSpace(ws) && Solid(env.text, p + |ws|)
    ensures Skip(env, p).Got? && Skip(env, p).next == p + |ws|
  {
    SpaceSkips(env.text, p, ws);
  }

  lemma GapsAreSpace(style: Style, inArray: bool, first: bool, depth: nat)
    requires GoodStyle(style)
    ensures IsSpace(Gap(style, inArray, first, depth)) && IsSpace(CloseGap(style, inArray, depth)) && IsSpace(ColonGap(style))
  {}

  /** A printed value starts with a character of its own, never one of a gap or of the end of a container. */
  lemma PrintHead(f: Format, v: Value, depth: nat)
    requires WellFormed(v) && Printable(f, v)
    ensures
      var s := Print(f, v, depth);
      s != [] && !IsWhitespace(s[0]) && s[0] !in {NUL, SLASH, COLON, COMMA, RBRACKET, RBRACE}
  {
    if v.Number? {
      assert IntegerOf(v) >= 0 ==> IsDigit(Decimal(IntegerOf(v))[0]);
    }
  }

  lemma HeadAt(f: Format, v: Value, depth: nat, t: seq<Byte>, p: nat)
    requires WellFormed(v) && Printable(f, v) && At(t, p, Print(f, v, depth))
    ensures p < |t| && Solid(t, p) && Peek(t, p) !in {NUL, COLON, COMMA, RBRACKET, RBRACE}
    ensures Peek(t, p) == Print(f, v, depth)[0]
  {
    PrintHead(f, v, depth);
    AtPeek(t, p, Print(f, v, depth), 0);
  }

  /** A reader that checks encodings, or a target that decodes them, needs strings that are UTF-8. */
  predicate Suits(env: Env, f: Format, v: Value) {
    && WellFormed(v) && Printable(f, v) && GoodStyle(f.style)
    && (env.flags.validateEncoding ==> Printable(f.(ascii := true), v))
  }

  predicate EndsValue(c: Byte) {
    c == NUL || c == COMMA || c == RBRACKET || c == RBRACE || IsWhitespace(c)
  }

  lemma StringReads(env: Env, f: Format, s: seq<Byte>, p: nat, events: seq<Event>, isKey: bool)
    requires Calm(env) && (f.ascii || env.flags.validateEncoding ==> Utf8.Valid(s))
    requires At(env.text, p, PrintString(f, s))
    ensures Peek(env.text, p) == QUOTE
    ensures ParseString(env, p, events, isKey) ==
            Ok(p + |PrintString(f, s)|, events + [if isKey then Key(s) else Event.String(s)])
  {
    hide Escape, StringBody, Utf8.ValidFrom;
    EscapeFails(f.ascii, s, 0);
    var body := Escape(f.ascii, s, 0).value;
    assert PrintString(f, s) == [QUOTE] + (body + [QUOTE]);
    hide PrintString;
    AtSplit(env.text, p, [QUOTE], body + [QUOTE]);
    AtPeek(env.text, p, [QUOTE], 0);
    BodyReads(env.flags.validateEncoding, f.ascii, env.text, p + 1, s, 0, []);
    assert [] + s[0..] == s;
  }

  lemma LiteralReads(env: Env, p: nat, events: seq<Event>, head: Byte, tail: seq<Byte>, e: Event)
    requires Calm(env) && NUL !in tail && At(env.text, p, [head] + tail)
    ensures Peek(env.text, p) == head
    ensures ParseLiteral(env, p, events, tail, e) == Ok(p + 1 + |tail|, events + [e])
  {
    AtSplit(env.text, p, [head], tail);
    AtPeek(env.text, p, [head], 0);
  }

  lemma ScalarReads(env: Env, f: Format, v: Value, depth: nat, p: nat, events: seq<Event>)
    requires Calm(env) && Suits(env, f, v) && !v.Array? && !v.Object?
    requires At(env.text, p, Print(f, v, depth)) && EndsValue(Peek(env.text, p + |Print(f, v, depth)|))
    ensures ParseValue(env, p, events) == Ok(p + |Print(f, v, depth)|, events + Events(Read, v))
  {
    hide ParseNumber, ParseString, ParseLiteral;
    HeadAt(f, v, depth, env.text, p);
    match v
    case Null =>
      assert NULL_TEXT == [LOWER_N] + NULL_TAIL;
      LiteralReads(env, p, events, LOWER_N, NULL_TAIL, Event.Null);
    case Bool(b) =>
      assert TRUE_TEXT == [LOWER_T] + TRUE_TAIL && FALSE_TEXT == [LOWER_F] + FALSE_TAIL;
      if b {
        LiteralReads(env, p, events, LOWER_T, TRUE_TAIL, Event.Bool(true));
      } else {
        LiteralReads(env, p, events, LOWER_F, FALSE_TAIL, Event.Bool(false));
      }
    case Number(_, _) =>
      NumberHead(IntegerOf(v));
      NumberReads(env, p, IntegerOf(v));
    case String(s) =>
      StringReads(env, f, s, p, events, false);
  }

  lemma NumberHead(n: int)
    ensures IsDigit(SignedDecimal(n)[0]) || SignedDecimal(n)[0] == MINUS
  {}

  lemma {:induction false} ValueReads(env: Env, f: Format, v: Value, depth: nat, p: nat, events: seq<Event>)
    requires Calm(env) && Suits(env, f, v)
    requires At(env.text, p, Print(f, v, depth)) && EndsValue(Peek(env.text, p + |Print(f, v, depth)|))
    ensures ParseValue(env, p, events) == Ok(p + |Print(f, v, depth)|, events + Events(Read, v))
    decreases v, 3
  {
    match v
    case Array(es) => ArrayReads(env, f, v, depth, p, events);
    case Object(ms) => ObjectReads(env, f, v, depth, p, events);
    case _ => ScalarReads(env, f, v, depth, p, events);
  }

  /** What suits a container suits its first item and what is left without it. */
  lemma SuitsFirst(env: Env, f: Format, v: Value)
    requires Suits(env, f, v)
    ensures v.Array? && v.elements != [] ==> Suits(env, f, v.elements[0]) && Suits(env, f, Array(v.elements[1..]))
    ensures v.Object? && v.members != [] ==>
              && Suits(env, f, v.members[0].value) && Suits(env, f, Object(v.members[1..]))
              && (f.ascii || env.flags.validateEncoding ==> Utf8.Valid(v.members[0].name))
  {
    if v.Array? && v.elements != [] {
      assert v.elements[0] in v.elements && forall e | e in v.elements[1..] :: e in v.elements;
    } else if v.Object? && v.members != [] {
      assert v.members[0] in v.members && forall m | m in v.members[1..] :: m in v.members;
    }
  }

  lemma NoContents(v: Value, events: seq<Event>)
    ensures v == Array([]) ==> events + [StartArray] + [EndArray(0)] == events + Events(Read, v)
    ensures v == Object([]) ==> events + [StartObject] + [EndObject(0)] == events + Events(Read, v)
  {}

  // ---- Arrays

  /** The text from the first element to the end of the container, closed after the whitespace `close`. */
  function ElementsText(f: Format, es: seq<Value>, depth: nat, close: seq<Byte>): seq<Byte>
    requires es != [] && WellFormed(Array(es)) && Printable(f, Array(es))
  {
    assert forall e | e in es[1..] :: e in es;
    Print(f, es[0], depth) + PrintElements(f, es[1..], depth, false) + close + [RBRACKET]
  }

  lemma ElementsTextLast(f: Format, es: seq<Value>, depth: nat, close: seq<Byte>)
    requires |es| == 1 && WellFormed(Array(es)) && Printable(f, Array(es))
    ensures ElementsText(f, es, depth, close) == Print(f, es[0], depth) + close + [RBRACKET]
  {
    hide Print;
    assert es[1..] == [] && PrintElements(f, es[1..], depth, false) == [];
  }

  lemma ElementsTextMore(f: Format, es: seq<Value>, depth: nat, close: seq<Byte>)
    requires |es| > 1 && WellFormed(Array(es)) && Printable(f, Array(es))
    ensures WellFormed(Array(es[1..])) && Printable(f, Array(es[1..]))
    ensures ElementsText(f, es, depth, close) ==
            Print(f, es[0], depth) + [COMMA] + (Gap(f.style, true, false, depth) + ElementsText(f, es[1..], depth, close))
  {
    hide Print, Gap;
    assert forall e | e in es[1..] :: e in es;
    Regroup(Print(f, es[0], depth), [COMMA], Gap(f.style, true, false, depth), Print(f, es[1], depth),
            PrintElements(f, es[1..][1..], depth, false), close, [RBRACKET]);
  }

  lemma Regroup(h: seq<Byte>, m: seq<Byte>, g: seq<Byte>, x: seq<Byte>, y: seq<Byte>, c: seq<Byte>, b: seq<Byte>)
    ensures h + (m + g + x + y) + c + b == h + m + (g + (x + y + c + b))
  {}

  lemma ArrayText(f: Format, v: Value, depth: nat)
    requires v.Array? && WellFormed(v) && Printable(f, v)
    ensures v.elements == [] ==> Print(f, v, depth) == [LBRACKET] + [] + [RBRACKET]
    ensures v.elements != [] ==>
              Print(f, v, depth) == [LBRACKET] + Gap(f.style, true, true, depth + 1)
                                    + ElementsText(f, v.elements, depth + 1, CloseGap(f.style, true, depth))
  {
    hide Gap, CloseGap;
  }

  lemma ParseElementsLast(env: Env, p: nat, events: seq<Event>, count: nat, r: nat, events1: seq<Event>)
    requires Calm(env) && p <= |env.text| && r <= |env.text| && Peek(env.text, r) == RBRACKET
    requires ParseValue(env, p, events).Ok? && ParseValue(env, p, events).events == events1
    requires Skip(env, ParseValue(env, p, events).pos).Got? && Skip(env, ParseValue(env, p, events).pos).next == r
    ensures ParseElements(env, p, events, count) == Ok(r + 1, events1 + [EndArray(count + 1)])
  {
    hide ParseValue, Skip;
  }

  lemma ParseElementsMore(env: Env, p: nat, events: seq<Event>, count: nat, q: nat, r: nat, events1: seq<Event>)
    requires Calm(env) && p <= |env.text| && q <= |env.text| && Peek(env.text, q) == COMMA
    requires ParseValue(env, p, events) == Ok(q, events1) && Skip(env, q).Got? && Skip(env, q).next == q
    requires Skip(env, q + 1).Got? && Skip(env, q + 1).next == r && r <= |env.text| && Peek(env.text, r) != RBRACKET
    ensures ParseElements(env, p, events, count) == ParseElements(env, r, events1, count + 1)
  {
    hide ParseValue, Skip;
  }

  /** A container from its opening bracket on, given how its contents are read. */
  lemma ArrayOfParts(env: Env, p: nat, events: seq<Event>, q: nat, rest: Outcome)
    requires Calm(env) && p < q <= |env.text| && Peek(env.text, p) == LBRACKET
    requires Skip(env, p + 1).Got? && Skip(env, p + 1).next == q
    requires rest == if Peek(env.text, q) == RBRACKET then Ok(q + 1, events + [StartArray] + [EndArray(0)])
                     else ParseElements(env, q, events + [StartArray], 0)
    ensures ParseValue(env, p, events) == rest
  {
    hide ParseElements, Skip, ParseScalar;
    assert ArrayBody(env, q, events + [StartArray]) == rest;
    assert ParseArray(env, p, events) == rest;
  }

  lemma ArrayReads(env: Env, f: Format, v: Value, depth: nat, p: nat, events: seq<Event>)
    requires Calm(env) && Suits(env, f, v) && v.Array? && At(env.text, p, Print(f, v, depth))
    ensures ParseValue(env, p, events) == Ok(p + |Print(f, v, depth)|, events + Events(Read, v))
    decreases v, 2
  {
    hide At, Calm, WellFormed, Printable, ParseElements, ParseValue, Print, Skip, ElementsText, Gap, CloseGap, ElementEvents;
    ArrayText(f, v, depth);
    var t, es, open := env.text, v.elements, events + [StartArray];
    var gap := if es == [] then [] else Gap(f.style, true, true, depth + 1);
    var close := CloseGap(f.style, true, depth);
    var inner := if es == [] then [RBRACKET] else ElementsText(f, es, depth + 1, close);
    AtSplit3(t, p, [LBRACKET], gap, inner);
    AtPeek(t, p, [LBRACKET], 0);
    var q := p + 1 + |gap|;
    if es == [] {
      AtPeek(t, q, inner, 0);
      GapSkips(env, p + 1, gap);
      assert v == Array([]);
      NoContents(v, events);
      ArrayOfParts(env, p, events, q, Ok(q + 1, events + Events(Read, v)));
    } else {
      GapsAreSpace(f.style, true, true, depth + 1);
      GapsAreSpace(f.style, true, true, depth);
      ElementsRead(env, f, es, depth + 1, close, q, open, 0);
      GapSkips(env, p + 1, gap);
      assert open + ElementEvents(Read, es) + [EndArray(0 + |es|)] == events + Events(Read, v);
      ArrayOfParts(env, p, events, q, ParseElements(env, q, open, 0));
    }
  }

  /** From the first character of an element to the end of the container. */
  lemma {:induction false} ElementsRead(env: Env, f: Format, es: seq<Value>, depth: nat, close: seq<Byte>, p: nat,
                                        events: seq<Event>, count: nat)
    requires Calm(env) && es != [] && Suits(env, f, Array(es)) && IsSpace(close)
    requires At(env.text, p, ElementsText(f, es, depth, close))
    ensures p <= |env.text| && Solid(env.text, p) && Peek(env.text, p) != RBRACKET
    ensures ParseElements(env, p, events, count) ==
            Ok(p + |ElementsText(f, es, depth, close)|, events + ElementEvents(Read, es) + [EndArray(count + |es|)])
    decreases es, 4
  {
    hide At, Calm, WellFormed, Printable, ParseElements, ParseValue, Print, PrintMember, Skip, ElementsText, Gap, CloseGap;
    SuitsFirst(env, f, Array(es));
    var t, first, events1 := env.text, Print(f, es[0], depth), events + Events(Read, es[0]);
    var q := p + |first|;
    if |es| == 1 {
      ElementsTextLast(f, es, depth, close);
      AtSplit3(t, p, first, close, [RBRACKET]);
      AtPeek(t, q + |close|, [RBRACKET], 0);
      if close != [] { AtPeek(t, q, close, 0); }
      HeadAt(f, es[0], depth, t, p);
      ValueReads(env, f, es[0], depth, p, events);
      GapSkips(env, q, close);
      ParseElementsLast(env, p, events, count, q + |close|, events1);
      LastElements(events, es, count);
    } else {
      ElementsTextMore(f, es, depth, close);
      var gap, next := Gap(f.style, true, false, depth), ElementsText(f, es[1..], depth, close);
      AtSplit3(t, p, first, [COMMA], gap + next);
      AtSplit(t, q + 1, gap, next);
      AtPeek(t, q, [COMMA], 0);
      HeadAt(f, es[0], depth, t, p);
      ValueReads(env, f, es[0], depth, p, events);
      AtEmpty(t, q);
      GapSkips(env, q, []);
      ElementsRead(env, f, es[1..], depth, close, q + 1 + |gap|, events1, count + 1);
      GapsAreSpace(f.style, true, false, depth);
      GapSkips(env, q + 1, gap);
      ParseElementsMore(env, p, events, count, q, q + 1 + |gap|, events1);
      MoreElements(events, es, count);
    }
  }

  lemma LastElements(events: seq<Event>, es: seq<Value>, count: nat)
    requires |es| == 1
    ensures events + Events(Read, es[0]) + [EndArray(count + 1)] == events + ElementEvents(Read, es) + [EndArray(count + |es|)]
  {
    assert es[1..] == [] && ElementEvents(Read, es[1..]) == [];
  }

  lemma MoreElements(events: seq<Event>, es: seq<Value>, count: nat)
    requires |es| > 1
    ensures (events + Events(Read, es[0])) + ElementEvents(Read, es[1..]) + [EndArray(count + 1 + |es[1..]|)]
            == events + ElementEvents(Read, es) + [EndArray(count + |es|)]
  {
    hide Events;
  }

  // ---- Objects

  /** The text from the first member to the end of the container, closed after the whitespace `close`. */
  function MembersText(f: Format, ms: seq<Member>, depth: nat, close: seq<Byte>): seq<Byte>
    requires ms != [] && WellFormed(Object(ms)) && Printable(f, Object(ms))
  {
    assert forall m | m in ms[1..] :: m in ms;
    PrintMember(f, ms[0], depth) + PrintMembers(f, ms[1..], depth, false) + close + [RBRACE]
  }

  lemma MembersTextLast(f: Format, ms: seq<Member>, depth: nat, close: seq<Byte>)
    requires |ms| == 1 && WellFormed(Object(ms)) && Printable(f, Object(ms))
    ensures MembersText(f, ms, depth, close) == PrintMember(f, ms[0], depth) + close + [RBRACE]
  {
    hide PrintMember;
    assert ms[1..] == [] && PrintMembers(f, ms[1..], depth, false) == [];
  }

  lemma MembersTextMore(f: Format, ms: seq<Member>, depth: nat, close: seq<Byte>)
    requires |ms| > 1 && WellFormed(Object(ms)) && Printable(f, Object(ms))
    ensures WellFormed(Object(ms[1..])) && Printable(f, Object(ms[1..]))
    ensures MembersText(f, ms, depth, close) ==
            PrintMember(f, ms[0], depth) + [COMMA] + (Gap(f.style, false, false, depth) + MembersText(f, ms[1..], depth, close))
  {
    hide PrintMember, Gap;
    assert forall m | m in ms[1..] :: m in ms;
    Regroup(PrintMember(f, ms[0], depth), [COMMA], Gap(f.style, false, false, depth), PrintMember(f, ms[1], depth),
            PrintMembers(f, ms[1..][1..], depth, false), close, [RBRACE]);
  }

  lemma ObjectText(f: Format, v: Value, depth: nat)
    requires v.Object? && WellFormed(v) && Printable(f, v)
    ensures v.members == [] ==> Print(f, v, depth) == [LBRACE] + [] + [RBRACE]
    ensures v.members != [] ==>
              Print(f, v, depth) == [LBRACE] + Gap(f.style, false, true, depth + 1)
                                    + MembersText(f, v.members, depth + 1, CloseGap(f.style, false, depth))
  {
    hide Gap, CloseGap;
  }

  lemma ParseMembersLast(env: Env, p: nat, events: seq<Event>, count: nat, r: nat, events1: seq<Event>)
    requires Calm(env) && p <= |env.text| && r <= |env.text| && Peek(env.text, r) == RBRACE
    requires ParseMember(env, p, events) == Ok(r, events1)
    ensures ParseMembers(env, p, events, count) == Ok(r + 1, events1 + [EndObject(count + 1)])
  {
    hide ParseMember, Skip;
  }

  lemma ParseMembersMore(env: Env, p: nat, events: seq<Event>, count: nat, q: nat, r: nat, events1: seq<Event>)
    requires Calm(env) && p <= |env.text| && q <= |env.text| && Peek(env.text, q) == COMMA
    requires ParseMember(env, p, events) == Ok(q, events1)
    requires Skip(env, q + 1).Got? && Skip(env, q + 1).next == r && r <= |env.text| && Peek(env.text, r) != RBRACE
    ensures ParseMembers(env, p, events, count) == ParseMembers(env, r, events1, count + 1)
  {
    hide ParseMember, Skip;
  }

  /** A container from its opening bracket on, given how its contents are read. */
  lemma ObjectOfParts(env: Env, p: nat, events: seq<Event>, q: nat, rest: Outcome)
    requires Calm(env) && p < q <= |env.text| && Peek(env.text, p) == LBRACE
    requires Skip(env, p + 1).Got? && Skip(env, p + 1).next == q
    requires rest == if Peek(env.text, q) == RBRACE then Ok(q + 1, events + [StartObject] + [EndObject(0)])
                     else ParseMembers(env, q, events + [StartObject], 0)
    ensures ParseValue(env, p, events) == rest
  {
    hide ParseMembers, Skip, ParseScalar;
    assert ObjectBody(env, q, events + [StartObject]) == rest;
    assert ParseObject(env, p, events) == rest;
  }

  lemma ObjectReads(env: Env, f: Format, v: Value, depth: nat, p: nat, events: seq<Event>)
    requires Calm(env) && Suits(env, f, v) && v.Object? && At(env.text, p, Print(f, v, depth))
    ensures ParseValue(env, p, events) == Ok(p + |Print(f, v, depth)|, events + Events(Read, v))
    decreases v, 2
  {
    hide At, Calm, WellFormed, Printable, ParseMembers, ParseValue, Print, Skip, MembersText, Gap, CloseGap, MemberEvents;
    ObjectText(f, v, depth);
    var t, ms, open := env.text, v.members, events + [StartObject];
    var gap := if ms == [] then [] else Gap(f.style, false, true, depth + 1);
    var close := CloseGap(f.style, false, depth);
    var inner := if ms == [] then [RBRACE] else MembersText(f, ms, depth + 1, close);
    AtSplit3(t, p, [LBRACE], gap, inner);
    AtPeek(t, p, [LBRACE], 0);
    var q := p + 1 + |gap|;
    if ms == [] {
      AtPeek(t, q, inner, 0);
      GapSkips(env, p + 1, gap);
      assert v == Object([]);
      NoContents(v, events);
      ObjectOfParts(env, p, events, q, Ok(q + 1, events + Events(Read, v)));
    } else {
      GapsAreSpace(f.style, false, true, depth + 1);
      GapsAreSpace(f.style, false, true, depth);
      MembersRead(env, f, ms, depth + 1, close, q, open, 0);
      GapSkips(env, p + 1, gap);
      assert open + MemberEvents(Read, ms) + [EndObject(0 + |ms|)] == events + Events(Read, v);
      ObjectOfParts(env, p, events, q, ParseMembers(env, q, open, 0));
    }
  }

  /** From the first character of a member to the end of the container. */
  lemma {:induction false} MembersRead(env: Env, f: Format, ms: seq<Member>, depth: nat, close: seq<Byte>, p: nat,
                                        events: seq<Event>, count: nat)
    requires Calm(env) && ms != [] && Suits(env, f, Object(ms)) && IsSpace(close)
    requires At(env.text, p, MembersText(f, ms, depth, close))
    ensures p <= |env.text| && Solid(env.text, p) && Peek(env.text, p) != RBRACE
    ensures ParseMembers(env, p, events, count) ==
            Ok(p + |MembersText(f, ms, depth, close)|, events + MemberEvents(Read, ms) + [EndObject(count + |ms|)])
    decreases ms, 4
  {
    hide At, Calm, WellFormed, Printable, ParseMembers, ParseMember, Print, PrintMember, Skip, MembersText, Gap, CloseGap;
    SuitsFirst(env, f, Object(ms));
    var t, first, events1 := env.text, PrintMember(f, ms[0], depth), events + [Key(ms[0].name)] + Events(Read, ms[0].value);
    var q := p + |first|;
    if |ms| == 1 {
      MembersTextLast(f, ms, depth, close);
      AtSplit3(t, p, first, close, [RBRACE]);
      AtPeek(t, q + |close|, [RBRACE], 0);
      if close != [] { AtPeek(t, q, close, 0); }
      MemberReads(env, f, ms[0], depth, close, p, events);
      ParseMembersLast(env, p, events, count, q + |close|, events1);
      LastMembers(events, ms, count);
    } else {
      MembersTextMore(f, ms, depth, close);
      var gap, next := Gap(f.style, false, false, depth), MembersText(f, ms[1..], depth, close);
      AtSplit3(t, p, first, [COMMA], gap + next);
      AtSplit(t, q + 1, gap, next);
      AtPeek(t, q, [COMMA], 0);
      AtEmpty(t, q);
      MemberReads(env, f, ms[0], depth, [], p, events);
      MembersRead(env, f, ms[1..], depth, close, q + 1 + |gap|, events1, count + 1);
      GapsAreSpace(f.style, false, false, depth);
      GapSkips(env, q + 1, gap);
      ParseMembersMore(env, p, events, count, q, q + 1 + |gap|, events1);
      MoreMembers(events, ms, count);
    }
  }

  lemma LastMembers(events: seq<Event>, ms: seq<Member>, count: nat)
    requires |ms| == 1
    ensures events + [Key(ms[0].name)] + Events(Read, ms[0].value) + [EndObject(count + 1)] == events + MemberEvents(Read, ms) + [EndObject(count + |ms|)]
  {
    assert ms[1..] == [] && MemberEvents(Read, ms[1..]) == [];
  }

  lemma MoreMembers(events: seq<Event>, ms: seq<Member>, count: nat)
    requires |ms| > 1
    ensures (events + [Key(ms[0].name)] + Events(Read, ms[0].value)) + MemberEvents(Read, ms[1..]) + [EndObject(count + 1 + |ms[1..]|)]
            == events + MemberEvents(Read, ms) + [EndObject(count + |ms|)]
  {
    hide Events;
  }

  /** The parts of a member, put together: name, colon, value, and the whitespace between and after them. */
  lemma MemberOfParts(env: Env, p: nat, events: seq<Event>, name: Outcome, colon: nat, start: nat, value: Outcome, end: nat)
    requires p <= |env.text| && Peek(env.text, p) == QUOTE && name.Ok? && ParseString(env, p, events, true) == name
    requires Skip(env, name.pos).Got? && Skip(env, name.pos).next == colon && Peek(env.text, colon) == COLON
    requires Skip(env, colon + 1).Got? && Skip(env, colon + 1).next == start && start <= |env.text|
    requires value.Ok? && ParseValue(env, start, name.events) == value
    requires Skip(env, value.pos).Got? && Skip(env, value.pos).next == end
    ensures ParseMember(env, p, events) == Ok(end, value.events)
  {
    hide ParseValue, ParseString, Skip;
  }

  /** A member and the whitespace after it. */
  lemma MemberReads(env: Env, f: Format, m: Member, depth: nat, ws: seq<Byte>, p: nat, events: seq<Event>)
    requires Calm(env) && WellFormed(m.value) && Printable(f, m.value) && GoodStyle(f.style)
    requires Suits(env, f, m.value) && (f.ascii || env.flags.validateEncoding ==> Utf8.Valid(m.name))
    requires At(env.text, p, PrintMember(f, m, depth)) && At(env.text, p + |PrintMember(f, m, depth)|, ws) && IsSpace(ws)
    requires Solid(env.text, p + |PrintMember(f, m, depth)| + |ws|)
    requires EndsValue(Peek(env.text, p + |PrintMember(f, m, depth)|))
    ensures Peek(env.text, p) == QUOTE && p < |env.text| && Solid(env.text, p)
    ensures ParseMember(env, p, events) ==
            Ok(p + |PrintMember(f, m, depth)| + |ws|, events + [Key(m.name)] + Events(Read, m.value))
    decreases m, 4
  {
    hide At, Calm, ParseValue, ParseString, ParseMember, Skip, Print, PrintString, WellFormed, Printable, Events, Gap, ColonGap, Utf8.Valid;
    var t, name, gap, value := env.text, PrintString(f, m.name), ColonGap(f.style), Print(f, m.value, depth);
    assert PrintMember(f, m, depth) == name + [COLON] + (gap + value);
    AtSplit3(t, p, name, [COLON], gap + value);
    var q := p + |name|;
    AtSplit(t, q + 1, gap, value);
    hide PrintMember;
    StringReads(env, f, m.name, p, events, true);
    AtPeek(t, q, [COLON], 0);
    AtEmpty(t, q);
    GapSkips(env, q, []);
    GapsAreSpace(f.style, false, true, depth);
    HeadAt(f, m.value, depth, t, q + 1 + |gap|);
    GapSkips(env, q + 1, gap);
    ValueReads(env, f, m.value, depth, q + 1 + |gap|, events + [Key(m.name)]);
    GapSkips(env, p + |PrintMember(f, m, depth)|, ws);
    MemberOfParts(env, p, events, ParseString(env, p, events, true), q, q + 1 + |gap|,
                  ParseValue(env, q + 1 + |gap|, events + [Key(m.name)]), p + |PrintMember(f, m, depth)| + |ws|);
  }

  // ---------------------------------------------------------------- Documents

  /**
   The text of a value, written compactly or indented, with either target encoding, is read by the recursive
   parser, with any flags, as that value's events.
   */
  lemma PrintReads(env: Env, f: Format, v: Value)
    requires Calm(env) && Suits(env, f, v) && env.text == Print(f, v, 0)
    ensures Recursive.Parse(env) == Ok(|env.text|, Events(Read, v))
  {
    hide ParseValue, Print;
    assert env.text[0..|env.text|] == env.text;
    HeadAt(f, v, 0, env.text, 0);
    GapSkips(env, 0, []);
    ValueReads(env, f, v, 0, 0, []);
    assert [] + Events(Read, v) == Events(Read, v);
    GapSkips(env, |env.text|, []);
  }
}
