/**
 Where a pretty text breaks its lines and how it indents them, said of the characters alone: it is the compact text
 with whitespace put in by a scan that knows the brackets still open and whether it is inside a string.
 */
module Layout {
  import opened Text
  import opened Dom
  import opened Printer
  import Utf8

  // --------------------------------------------------------------- The scan

  /** The brackets open, and whether the scan is inside a string and after a backslash there. */
  datatype Scan = Scan(open: seq<Byte>, quoted: bool, escaped: bool)

  const OUTSIDE := Scan([], false, false)

  predicate Opens(c: Byte) {
    c == '{' as int || c == '[' as int
  }

  predicate Closes(c: Byte) {
    c == '}' as int || c == ']' as int
  }

  /** The scan after one more character. */
  function After(sc: Scan, c: Byte): Scan {
    if sc.quoted then
      if sc.escaped then sc.(escaped := false)
      else if c == '\\' as int then sc.(escaped := true)
      else if c == '"' as int then sc.(quoted := false)
      else sc
    else if c == '"' as int then sc.(quoted := true, escaped := false)
    else if Opens(c) then sc.(open := sc.open + [c])
    else if Closes(c) && sc.open != [] then sc.(open := sc.open[..|sc.open| - 1])
    else sc
  }

  function AfterAll(sc: Scan, text: seq<Byte>): Scan
    decreases text
  {
    if text == [] then sc else AfterAll(After(sc, text[0]), text[1..])
  }

  /** A line feed, then as many indent characters as there are levels times the width. */
  function LineBreak(style: Style, depth: nat): seq<Byte>
    requires style.Pretty?
  {
    ['\n' as int] + Repeat(style.indentChar, depth * style.indentCount)
  }

  /** The scan is inside an array that is written on one line. */
  predicate OnOneLine(style: Style, sc: Scan) {
    style.Pretty? && style.singleLineArray && sc.open != [] && sc.open[|sc.open| - 1] == '[' as int
  }

  /**
   What stands between `c` and `next` in a pretty text, the scan being after `c`: nothing inside a string; a line break
   after an opening bracket, unless it closes at once, and after a comma; one space after a colon, and after a comma in
   an array on one line; a line break before a closing bracket, with the indentation of the line its container is in.
   */
  function Between(style: Style, sc: Scan, c: Byte, next: Byte): seq<Byte> {
    if style.Compact? || sc.quoted then []
    else if Opens(c) then if Closes(next) || OnOneLine(style, sc) then [] else LineBreak(style, |sc.open|)
    else if c == ',' as int then if OnOneLine(style, sc) then [' ' as int] else LineBreak(style, |sc.open|)
    else if c == ':' as int then [' ' as int]
    else if Closes(next) && sc.open != [] && !OnOneLine(style, sc) then LineBreak(style, |sc.open| - 1)
    else []
  }

  /** The text with all that whitespace; `next` is the character after it. */
  function Spread(style: Style, text: seq<Byte>, sc: Scan, next: Byte): seq<Byte> {
    if text == [] then []
    else
      [text[0]] + Between(style, After(sc, text[0]), text[0], if |text| > 1 then text[1] else next)
      + Spread(style, text[1..], After(sc, text[0]), next)
  }

  /** No whitespace stands in the text outside its strings. */
  predicate Bare(text: seq<Byte>, sc: Scan) {
    text != [] ==> (sc.quoted || !IsWhitespace(text[0])) && Bare(text[1..], After(sc, text[0]))
  }

  // ------------------------------------------------------------ Text by text

  function Head(text: seq<Byte>, next: Byte): Byte {
    if text == [] then next else text[0]
  }

  lemma {:induction false} SpreadConcat(style: Style, a: seq<Byte>, b: seq<Byte>, sc: Scan, next: Byte)
    ensures AfterAll(sc, a + b) == AfterAll(AfterAll(sc, a), b)
    ensures Bare(a + b, sc) <==> Bare(a, sc) && Bare(b, AfterAll(sc, a))
    ensures Spread(style, a + b, sc, next) == Spread(style, a, sc, Head(b, next)) + Spread(style, b, AfterAll(sc, a), next)
    decreases a
  {
    hide After, Between;
    if a == [] {
      assert a + b == b;
    } else {
      assert (a + b)[0] == a[0] && (a + b)[1..] == a[1..] + b;
      SpreadConcat(style, a[1..], b, After(sc, a[0]), next);
      if |a| == 1 {
        assert a[1..] == [];
        assert b != [] ==> (a + b)[1] == b[0];
      }
    }
  }

  /** What the scan makes of a text: what it spreads to, that it is bare, and where the scan is after it. */
  predicate Spreads(style: Style, text: seq<Byte>, sc: Scan, next: Byte, spread: seq<Byte>, after: Scan) {
    Spread(style, text, sc, next) == spread && Bare(text, sc) && AfterAll(sc, text) == after
  }

  lemma Joined(style: Style, a: seq<Byte>, b: seq<Byte>, sc: Scan, next: Byte, sa: seq<Byte>, sb: seq<Byte>, mid: Scan, end: Scan)
    requires Spreads(style, a, sc, Head(b, next), sa, mid) && Spreads(style, b, mid, next, sb, end)
    ensures Spreads(style, a + b, sc, next, sa + sb, end)
  {
    SpreadConcat(style, a, b, sc, next);
  }

  lemma OneChar(style: Style, c: Byte, sc: Scan, next: Byte)
    requires sc.quoted || !IsWhitespace(c)
    ensures Spreads(style, [c], sc, next, [c] + Between(style, After(sc, c), c, next), After(sc, c))
  {
    hide After, Between;
    Nothing(style, After(sc, c), next);
    assert [c][1..] == [];
  }

  lemma Nothing(style: Style, sc: Scan, next: Byte)
    ensures Spreads(style, [], sc, next, [], sc)
  {}

  // ---------------------------------------------------------------- Scalars

  /** Whitespace that closing the container asks for where a value has ended. */
  function Closing(style: Style, sc: Scan, next: Byte): seq<Byte> {
    if style.Pretty? && Closes(next) && sc.open != [] && !OnOneLine(style, sc) then LineBreak(style, |sc.open| - 1) else []
  }

  predicate Resting(sc: Scan) {
    !sc.quoted && !sc.escaped
  }

  predicate Plain(c: Byte) {
    !IsWhitespace(c) && c != QUOTE && !Opens(c) && !Closes(c) && c != COMMA && c != COLON
  }

  lemma PlainChar(style: Style, c: Byte, sc: Scan, next: Byte)
    requires Resting(sc) && Plain(c)
    ensures Spreads(style, [c], sc, next, [c] + Closing(style, sc, next), sc)
    ensures Plain(next) ==> Closing(style, sc, next) == []
  {
    OneChar(style, c, sc, next);
  }

  lemma {:induction false} PlainSpreads(style: Style, text: seq<Byte>, sc: Scan, next: Byte)
    requires Resting(sc) && text != [] && forall c | c in text :: Plain(c)
    ensures Spreads(style, text, sc, next, text + Closing(style, sc, next), sc)
    decreases text
  {
    hide Spreads, Plain, Closing;
    assert text[0] in text;
    if |text| == 1 {
      assert text == [text[0]];
      PlainChar(style, text[0], sc, next);
    } else {
      assert text[1] in text;
      PlainChar(style, text[0], sc, text[1]);
      PlainSpreads(style, text[1..], sc, next);
      assert text == [text[0]] + text[1..];
      assert [text[0]] + [] == [text[0]];
      Joined(style, [text[0]], text[1..], sc, next, [text[0]], text[1..] + Closing(style, sc, next), sc, sc);
      assert [text[0]] + (text[1..] + Closing(style, sc, next)) == text + Closing(style, sc, next);
    }
  }

  lemma {:induction false} DecimalIsPlain(n: nat)
    ensures forall c | c in Decimal(n) :: Plain(c)
  {
    forall c | c in Decimal(n)
      ensures Plain(c)
    {
      var i :| 0 <= i < |Decimal(n)| && Decimal(n)[i] == c;
    }
  }

  // ---------------------------------------------------------------- Strings

  /** Inside a string, and after no backslash. */
  predicate Inside(sc: Scan) {
    sc.quoted && !sc.escaped
  }

  lemma {:induction false} InsideSpreads(style: Style, text: seq<Byte>, sc: Scan, next: Byte)
    requires Inside(sc) && forall c | c in text :: c != QUOTE && c != BACKSLASH
    ensures Spreads(style, text, sc, next, text, sc)
    decreases text
  {
    hide Spreads;
    if text == [] {
      Nothing(style, sc, next);
    } else {
      var c, rest := text[0], text[1..];
      assert c in text && forall d | d in rest :: d in text;
      OneChar(style, c, sc, Head(rest, next));
      assert [c] + [] == [c];
      InsideSpreads(style, rest, sc, next);
      Joined(style, [c], rest, sc, next, [c], rest, sc, sc);
      assert text == [c] + rest;
    }
  }

  lemma PairSpreads(style: Style, c: Byte, sc: Scan, next: Byte)
    requires Inside(sc)
    ensures Spreads(style, [BACKSLASH, c], sc, next, [BACKSLASH, c], sc)
  {
    OneChar(style, BACKSLASH, sc, c);
    OneChar(style, c, sc.(escaped := true), next);
    hide Spreads;
    assert [BACKSLASH] + [] == [BACKSLASH] && [c] + [] == [c] && [BACKSLASH] + [c] == [BACKSLASH, c];
    Joined(style, [BACKSLASH], [c], sc, next, [BACKSLASH], [c], sc.(escaped := true), sc);
  }

  lemma UnitSpreads(style: Style, u: nat, sc: Scan, next: Byte)
    requires Inside(sc) && u < 0x10000
    ensures Spreads(style, UnicodeEscape(u), sc, next, UnicodeEscape(u), sc)
  {
    hide Spreads;
    var e := UnicodeEscape(u);
    var head, digits := [BACKSLASH, LOWER_U], [e[2], e[3], e[4], e[5]];
    PairSpreads(style, LOWER_U, sc, e[2]);
    InsideSpreads(style, digits, sc, next);
    Joined(style, head, digits, sc, next, head, digits, sc, sc);
    assert e == head + digits;
  }

  lemma EscapeSpreads(style: Style, c: Byte, sc: Scan, next: Byte)
    requires Inside(sc)
    ensures Spreads(style, EscapeChar(c), sc, next, EscapeChar(c), sc)
  {
    hide Spreads, UnicodeEscape;
    if EscapeLetter(c).None? {
      InsideSpreads(style, [c], sc, next);
    } else if EscapeLetter(c).value == LOWER_U {
      UnitSpreads(style, c, sc, next);
    } else {
      PairSpreads(style, EscapeLetter(c).value, sc, next);
    }
  }

  lemma CodePointSpreads(style: Style, cp: nat, sc: Scan, next: Byte)
    requires Inside(sc) && Utf8.IsScalar(cp)
    ensures Spreads(style, CodePointEscape(cp), sc, next, CodePointEscape(cp), sc)
  {
    hide Spreads, UnicodeEscape;
    if cp < 0x10000 {
      UnitSpreads(style, cp, sc, next);
    } else {
      var a, b := UnicodeEscape((cp - 0x10000) / 0x400 + 0xD800), UnicodeEscape((cp - 0x10000) % 0x400 + 0xDC00);
      UnitSpreads(style, (cp - 0x10000) / 0x400 + 0xD800, sc, Head(b, next));
      UnitSpreads(style, (cp - 0x10000) % 0x400 + 0xDC00, sc, next);
      Joined(style, a, b, sc, next, a, b, sc, sc);
    }
  }

  lemma {:induction false} BodySpreads(style: Style, ascii: bool, s: seq<Byte>, i: nat, sc: Scan, next: Byte)
    requires Inside(sc) && i <= |s| && Escape(ascii, s, i).Some?
    ensures var body := Escape(ascii, s, i).value; Spreads(style, body, sc, next, body, sc)
    decreases |s| - i
  {
    hide Spreads, EscapeChar, CodePointEscape, Utf8.Length, Utf8.CodePoint;
    if i == |s| {
      Nothing(style, sc, next);
    } else if ascii && s[i] >= 0x80 {
      Utf8.EncodeOfDecode(s, i);
      var cp, rest := Utf8.CodePoint(s, i), Escape(ascii, s, i + Utf8.Length(s, i)).value;
      CodePointSpreads(style, cp, sc, Head(rest, next));
      BodySpreads(style, ascii, s, i + Utf8.Length(s, i), sc, next);
      Joined(style, CodePointEscape(cp), rest, sc, next, CodePointEscape(cp), rest, sc, sc);
    } else {
      var rest := Escape(ascii, s, i + 1).value;
      EscapeSpreads(style, s[i], sc, Head(rest, next));
      BodySpreads(style, ascii, s, i + 1, sc, next);
      Joined(style, EscapeChar(s[i]), rest, sc, next, EscapeChar(s[i]), rest, sc, sc);
    }
  }

  lemma QuoteOpens(style: Style, sc: Scan, next: Byte)
    requires Resting(sc)
    ensures Spreads(style, [QUOTE], sc, next, [QUOTE], sc.(quoted := true))
  {
    OneChar(style, QUOTE, sc, next);
    assert [QUOTE] + [] == [QUOTE];
  }

  lemma QuoteCloses(style: Style, sc: Scan, next: Byte)
    requires Resting(sc)
    ensures Spreads(style, [QUOTE], sc.(quoted := true), next, [QUOTE] + Closing(style, sc, next), sc)
  {
    OneChar(style, QUOTE, sc.(quoted := true), next);
    assert After(sc.(quoted := true), QUOTE) == sc;
  }

  lemma StringSpreads(f: Format, s: seq<Byte>, sc: Scan, next: Byte)
    requires Resting(sc) && (f.ascii ==> Utf8.Valid(s))
    ensures Spreads(f.style, PrintString(f, s), sc, next, PrintString(f, s) + Closing(f.style, sc, next), sc)
  {
    hide Escape, Spreads, Closing, Utf8.ValidFrom;
    EscapeFails(f.ascii, s, 0);
    var body, inside := Escape(f.ascii, s, 0).value, sc.(quoted := true);
    var closed := [QUOTE] + Closing(f.style, sc, next);
    QuoteOpens(f.style, sc, Head(body + [QUOTE], next));
    BodySpreads(f.style, f.ascii, s, 0, inside, QUOTE);
    QuoteCloses(f.style, sc, next);
    Joined(f.style, body, [QUOTE], inside, next, body, closed, inside, sc);
    Joined(f.style, [QUOTE], body + [QUOTE], sc, next, [QUOTE], body + closed, inside, sc);
    assert [QUOTE] + (body + [QUOTE]) == [QUOTE] + body + [QUOTE];
    assert [QUOTE] + (body + closed) == [QUOTE] + body + [QUOTE] + Closing(f.style, sc, next);
  }

  // ----------------------------------------------------------------- Values

  function CompactOf(f: Format): Format {
    f.(style := Compact)
  }

  lemma {:induction false} PrintableCompact(f: Format, v: Value)
    requires Printable(f, v)
    ensures Printable(CompactOf(f), v)
    decreases v
  {
    match v {
      case Array(es) =>
        forall e | e in es ensures Printable(CompactOf(f), e) {
          PrintableCompact(f, e);
        }
      case Object(ms) =>
        forall m | m in ms ensures Printable(CompactOf(f), m.value) {
          PrintableCompact(f, m.value);
        }
      case _ =>
    }
  }

  lemma ScalarSpreads(f: Format, v: Value, sc: Scan, next: Byte)
    requires WellFormed(v) && Printable(f, v) && Printable(CompactOf(f), v) && !v.Array? && !v.Object? && Resting(sc)
    ensures Spreads(f.style, Print(CompactOf(f), v, |sc.open|), sc, next, Print(f, v, |sc.open|) + Closing(f.style, sc, next), sc)
  {
    hide Spreads, Closing, IntegerOf, Decimal, Escape;
    match v {
      case String(s) => StringSpreads(f, s, sc, next);
      case Number(_, _) =>
        DecimalIsPlain(if IntegerOf(v) < 0 then 0 - IntegerOf(v) else IntegerOf(v));
        PlainSpreads(f.style, SignedDecimal(IntegerOf(v)), sc, next);
      case Null => PlainSpreads(f.style, NULL_TEXT, sc, next);
      case Bool(b) => PlainSpreads(f.style, if b then TRUE_TEXT else FALSE_TEXT, sc, next);
    }
  }

  function Push(sc: Scan, c: Byte): Scan {
    sc.(open := sc.open + [c])
  }

  lemma BracketOpens(style: Style, open: Byte, sc: Scan, next: Byte)
    requires Resting(sc) && Opens(open)
    ensures Spreads(style, [open], sc, next,
                    [open] + if Closes(next) then [] else Gap(style, open == LBRACKET, true, |sc.open| + 1), Push(sc, open))
  {
    OneChar(style, open, sc, next);
    assert Push(sc, open).open[|sc.open|] == open;
  }

  lemma BracketCloses(style: Style, open: Byte, close: Byte, sc: Scan, next: Byte)
    requires Resting(sc) && Closes(close)
    ensures Spreads(style, [close], Push(sc, open), next, [close] + Closing(style, sc, next), sc)
  {
    OneChar(style, close, Push(sc, open), next);
    assert Push(sc, open).open[..|sc.open|] == sc.open;
  }

  /** The line break before a closing bracket has the depth of the container's own line. */
  lemma ClosingIsGap(style: Style, open: Byte, sc: Scan, close: Byte)
    requires Opens(open) && Closes(close)
    ensures Closing(style, Push(sc, open), close) == CloseGap(style, open == LBRACKET, |sc.open|)
  {
    assert Push(sc, open).open[|sc.open|] == open;
  }

  lemma Bracketed(style: Style, open: Byte, body: seq<Byte>, close: Byte, sc: Scan, next: Byte, spread: seq<Byte>)
    requires Resting(sc) && Opens(open) && Closes(close) && body != [] && !Closes(body[0])
    requires Spreads(style, body, Push(sc, open), close, spread, Push(sc, open))
    ensures Spreads(style, [open] + body + [close], sc, next,
                    [open] + Gap(style, open == LBRACKET, true, |sc.open| + 1) + spread + [close] + Closing(style, sc, next), sc)
  {
    hide Spreads, Closing, Gap;
    var gap, end := Gap(style, open == LBRACKET, true, |sc.open| + 1), [close] + Closing(style, sc, next);
    BracketOpens(style, open, sc, body[0]);
    BracketCloses(style, open, close, sc, next);
    Joined(style, body, [close], Push(sc, open), next, spread, end, Push(sc, open), sc);
    assert (body + [close])[0] == body[0];
    Joined(style, [open], body + [close], sc, next, [open] + gap, spread + end, Push(sc, open), sc);
    assert [open] + (body + [close]) == [open] + body + [close];
    assert [open] + gap + (spread + end) == [open] + gap + spread + [close] + Closing(style, sc, next);
  }

  lemma EmptySpreads(style: Style, open: Byte, close: Byte, sc: Scan, next: Byte)
    requires Resting(sc) && Opens(open) && Closes(close)
    ensures Spreads(style, [open, close], sc, next, [open, close] + Closing(style, sc, next), sc)
  {
    hide Spreads, Closing, Gap;
    BracketOpens(style, open, sc, close);
    BracketCloses(style, open, close, sc, next);
    assert [open] + [] == [open] && [open] + [close] == [open, close];
    Joined(style, [open], [close], sc, next, [open], [close] + Closing(style, sc, next), Push(sc, open), sc);
    assert [open] + ([close] + Closing(style, sc, next)) == [open, close] + Closing(style, sc, next);
  }

  /** A comma asks for the whitespace before the next member or element. */
  lemma CommaSpreads(style: Style, open: Byte, sc: Scan, next: Byte)
    requires Resting(sc) && Opens(open)
    ensures Spreads(style, [COMMA], Push(sc, open), next, [COMMA] + Gap(style, open == LBRACKET, false, |sc.open| + 1), Push(sc, open))
  {
    OneChar(style, COMMA, Push(sc, open), next);
    assert Push(sc, open).open[|sc.open|] == open;
  }

  lemma ColonSpreads(style: Style, sc: Scan, next: Byte)
    requires Resting(sc)
    ensures Spreads(style, [COLON], sc, next, [COLON] + ColonGap(style), sc)
  {
    OneChar(style, COLON, sc, next);
  }

  lemma FirstChar(f: Format, v: Value, depth: nat)
    requires WellFormed(v) && Printable(f, v)
    ensures Print(f, v, depth) != [] && !Closes(Print(f, v, depth)[0])
  {
    hide PrintElements, PrintMembers, IntegerOf, Escape;
    if v.Number? {
      assert Decimal(if IntegerOf(v) < 0 then 0 - IntegerOf(v) else IntegerOf(v)) != [];
    }
  }

  predicate Good(f: Format, v: Value) {
    WellFormed(v) && Printable(f, v) && Printable(CompactOf(f), v)
  }

  predicate AllGood(f: Format, es: seq<Value>) {
    (forall e | e in es :: WellFormed(e) && Printable(f, e)) && forall e | e in es :: Printable(CompactOf(f), e)
  }

  lemma {:induction false} ValueSpreads(f: Format, v: Value, sc: Scan, next: Byte)
    requires Good(f, v) && Resting(sc)
    ensures Spreads(f.style, Print(CompactOf(f), v, |sc.open|), sc, next, Print(f, v, |sc.open|) + Closing(f.style, sc, next), sc)
    decreases v, 2
  {
    hide Spreads, Closing;
    var c, d := CompactOf(f), |sc.open|;
    if v.Array? && v.elements != [] {
      ArraySpreads(f, v.elements, sc, next);
    } else if v.Object? && v.members != [] {
      ObjectSpreads(f, v.members, sc, next);
    } else if v.Array? {
      EmptySpreads(f.style, LBRACKET, RBRACKET, sc, next);
    } else if v.Object? {
      EmptySpreads(f.style, LBRACE, RBRACE, sc, next);
    } else {
      ScalarSpreads(f, v, sc, next);
    }
  }

  predicate AllGoodMembers(f: Format, ms: seq<Member>) {
    && (forall m | m in ms :: WellFormed(m.value) && (f.ascii ==> Utf8.Valid(m.name)) && Printable(f, m.value))
    && forall m | m in ms :: Printable(CompactOf(f), m.value)
  }

  /** The elements after one another, the first without the comma and the gap before it. */
  function ElementsText(f: Format, es: seq<Value>, depth: nat): seq<Byte>
    requires es != [] && AllGood(f, es)
  {
    Print(f, es[0], depth) + PrintElements(f, es[1..], depth, false)
  }

  lemma GoodCompact(f: Format, es: seq<Value>)
    requires AllGood(f, es)
    ensures AllGood(CompactOf(f), es)
  {
    assert CompactOf(CompactOf(f)) == CompactOf(f);
  }

  lemma Front(a: seq<Byte>, b: seq<Byte>, c: seq<Byte>, d: seq<Byte>)
    ensures a + b + c + d == a + b + (c + d)
    ensures [] + b == b
  {}

  lemma MoreElements(f: Format, es: seq<Value>, depth: nat)
    requires es != [] && AllGood(f, es)
    ensures PrintElements(f, es, depth, false) == [COMMA] + Gap(f.style, true, false, depth) + ElementsText(f, es, depth)
    ensures PrintElements(f, es, depth, true) == Gap(f.style, true, true, depth) + ElementsText(f, es, depth)
  {
    hide Print, Gap;
    assert es[0] in es;
    var first, rest := Print(f, es[0], depth), PrintElements(f, es[1..], depth, false);
    Front([COMMA], Gap(f.style, true, false, depth), first, rest);
    Front([], Gap(f.style, true, true, depth), first, rest);
  }

  lemma {:induction false} ElementsSpread(f: Format, es: seq<Value>, sc: Scan)
    requires es != [] && Resting(sc) && AllGood(f, es)
    ensures AllGood(CompactOf(f), es)
    ensures Spreads(f.style, ElementsText(CompactOf(f), es, |sc.open| + 1), Push(sc, LBRACKET), RBRACKET,
                    ElementsText(f, es, |sc.open| + 1) + CloseGap(f.style, true, |sc.open|), Push(sc, LBRACKET))
    decreases es, 0
  {
    GoodCompact(f, es);
    hide Spreads, Closing, Gap, CloseGap, Print;
    var style, c, d, inner, rest := f.style, CompactOf(f), |sc.open| + 1, Push(sc, LBRACKET), es[1..];
    assert Good(f, es[0]) && AllGood(f, rest);
    ClosingIsGap(style, LBRACKET, sc, RBRACKET);
    NoClosing(style, inner, COMMA);
    if rest == [] {
      ValueSpreads(f, es[0], inner, RBRACKET);
      assert Print(c, es[0], d) + [] == Print(c, es[0], d);
      assert Print(f, es[0], d) + [] == Print(f, es[0], d);
    } else {
      ValueSpreads(f, es[0], inner, COMMA);
      ElementsSpread(f, rest, sc);
      MoreElements(c, rest, d);
      MoreElements(f, rest, d);
      CommaSpreads(style, LBRACKET, sc, Head(ElementsText(c, rest, d), RBRACKET));
      AndMore(style, Print(c, es[0], d), Print(f, es[0], d), ElementsText(c, rest, d), ElementsText(f, rest, d),
              true, sc, LBRACKET, RBRACKET);
    }
  }

  lemma NoClosing(style: Style, sc: Scan, next: Byte)
    requires !Closes(next)
    ensures Closing(style, sc, next) == []
  {}

  /** One element or member, a comma, and what comes after. */
  lemma AndMore(style: Style, first: seq<Byte>, spread: seq<Byte>, rest: seq<Byte>, more: seq<Byte>, inArray: bool,
                sc: Scan, open: Byte, close: Byte)
    requires Resting(sc) && Opens(open) && inArray == (open == LBRACKET)
    requires Spreads(style, first, Push(sc, open), COMMA, spread + [], Push(sc, open))
    requires Spreads(style, rest, Push(sc, open), close, more + CloseGap(style, inArray, |sc.open|), Push(sc, open))
    ensures Spreads(style, first + ([COMMA] + [] + rest), Push(sc, open), close,
                    spread + ([COMMA] + Gap(style, inArray, false, |sc.open| + 1) + more) + CloseGap(style, inArray, |sc.open|),
                    Push(sc, open))
  {
    hide Spreads, Gap, CloseGap;
    var gap, end, inner := Gap(style, inArray, false, |sc.open| + 1), CloseGap(style, inArray, |sc.open|), Push(sc, open);
    CommaSpreads(style, open, sc, Head(rest, close));
    Joined(style, [COMMA], rest, inner, close, [COMMA] + gap, more + end, inner, inner);
    assert spread + [] == spread && [COMMA] + [] + rest == [COMMA] + rest && ([COMMA] + rest)[0] == COMMA;
    Joined(style, first, [COMMA] + rest, inner, close, spread, [COMMA] + gap + (more + end), inner, inner);
    assert spread + ([COMMA] + gap + (more + end)) == spread + ([COMMA] + gap + more) + end;
  }

  lemma {:induction false} ArraySpreads(f: Format, es: seq<Value>, sc: Scan, next: Byte)
    requires es != [] && Resting(sc) && Good(f, Array(es)) && AllGood(f, es)
    ensures Spreads(f.style, Print(CompactOf(f), Array(es), |sc.open|), sc, next,
                    Print(f, Array(es), |sc.open|) + Closing(f.style, sc, next), sc)
    decreases es, 1
  {
    ElementsSpread(f, es, sc);
    ArrayText(f, es, |sc.open|);
    ArrayText(CompactOf(f), es, |sc.open|);
    ElementsHead(CompactOf(f), es, |sc.open| + 1);
    hide Spreads, Closing, Gap, CloseGap, Good, Print, ElementsText;
    var style, text, spread := f.style, ElementsText(CompactOf(f), es, |sc.open| + 1), ElementsText(f, es, |sc.open| + 1);
    Bracketed(style, LBRACKET, text, RBRACKET, sc, next, spread + CloseGap(style, true, |sc.open|));
    Regroup([LBRACKET], Gap(style, true, true, |sc.open| + 1), spread, CloseGap(style, true, |sc.open|), [RBRACKET], Closing(style, sc, next));
    Ungapped([LBRACKET], text, [RBRACKET], true, |sc.open|);
  }

  lemma Regroup(a: seq<Byte>, b: seq<Byte>, c: seq<Byte>, d: seq<Byte>, e: seq<Byte>, f: seq<Byte>)
    ensures a + b + (c + d) + e + f == a + b + c + d + e + f
  {}

  lemma Ungapped(open: seq<Byte>, text: seq<Byte>, close: seq<Byte>, inArray: bool, depth: nat)
    ensures open + Gap(Compact, inArray, true, depth + 1) + text + CloseGap(Compact, inArray, depth) + close == open + text + close
  {
    assert open + [] + text + [] == open + text;
  }

  lemma ArrayText(f: Format, es: seq<Value>, depth: nat)
    requires es != [] && Good(f, Array(es)) && AllGood(f, es)
    ensures Print(f, Array(es), depth) ==
            [LBRACKET] + Gap(f.style, true, true, depth + 1) + ElementsText(f, es, depth + 1) + CloseGap(f.style, true, depth) + [RBRACKET]
  {
    hide Gap, CloseGap, ElementsText;
    MoreElements(f, es, depth + 1);
  }

  lemma ElementsHead(f: Format, es: seq<Value>, depth: nat)
    requires es != [] && AllGood(f, es)
    ensures ElementsText(f, es, depth) != [] && !Closes(ElementsText(f, es, depth)[0])
  {
    assert es[0] in es;
    FirstChar(f, es[0], depth);
  }

  /** The members after one another, the first without the comma and the gap before it. */
  function MembersText(f: Format, ms: seq<Member>, depth: nat): seq<Byte>
    requires ms != [] && AllGoodMembers(f, ms)
  {
    PrintMember(f, ms[0], depth) + PrintMembers(f, ms[1..], depth, false)
  }

  lemma GoodCompactMembers(f: Format, ms: seq<Member>)
    requires AllGoodMembers(f, ms)
    ensures AllGoodMembers(CompactOf(f), ms)
  {
    assert CompactOf(CompactOf(f)) == CompactOf(f);
  }

  lemma MoreMembers(f: Format, ms: seq<Member>, depth: nat)
    requires ms != [] && AllGoodMembers(f, ms)
    ensures PrintMembers(f, ms, depth, false) == [COMMA] + Gap(f.style, false, false, depth) + MembersText(f, ms, depth)
    ensures PrintMembers(f, ms, depth, true) == Gap(f.style, false, true, depth) + MembersText(f, ms, depth)
  {
    hide PrintMember, Gap;
    var first, rest := PrintMember(f, ms[0], depth), PrintMembers(f, ms[1..], depth, false);
    Front([COMMA], Gap(f.style, false, false, depth), first, rest);
    Front([], Gap(f.style, false, true, depth), first, rest);
  }

  lemma MemberSpreads(f: Format, m: Member, sc: Scan, next: Byte)
    requires Resting(sc) && Good(f, m.value) && (f.ascii ==> Utf8.Valid(m.name))
    ensures Spreads(f.style, PrintMember(CompactOf(f), m, |sc.open|), sc, next,
                    PrintMember(f, m, |sc.open|) + Closing(f.style, sc, next), sc)
    decreases m, 3
  {
    hide Spreads, Closing, Print, PrintString;
    var style, c, d := f.style, CompactOf(f), |sc.open|;
    var name, text, spread := PrintString(f, m.name), Print(c, m.value, d), Print(f, m.value, d) + Closing(style, sc, next);
    SameName(f, m.name);
    StringSpreads(f, m.name, sc, COLON);
    NoClosing(style, sc, COLON);
    ColonSpreads(style, sc, Head(text, next));
    ValueSpreads(f, m.value, sc, next);
    Joined(style, [COLON], text, sc, next, [COLON] + ColonGap(style), spread, sc, sc);
    assert name + [] == name && ([COLON] + text)[0] == COLON;
    Joined(style, name, [COLON] + text, sc, next, name, [COLON] + ColonGap(style) + spread, sc, sc);
    assert name + [COLON] + [] + text == name + ([COLON] + text);
    assert name + ([COLON] + ColonGap(style) + spread) ==
           name + [COLON] + ColonGap(style) + Print(f, m.value, d) + Closing(style, sc, next);
  }

  lemma SameName(f: Format, s: seq<Byte>)
    requires f.ascii ==> Utf8.Valid(s)
    ensures PrintString(CompactOf(f), s) == PrintString(f, s)
  {}

  lemma {:induction false} MembersSpread(f: Format, ms: seq<Member>, sc: Scan)
    requires ms != [] && Resting(sc) && AllGoodMembers(f, ms)
    ensures AllGoodMembers(CompactOf(f), ms)
    ensures Spreads(f.style, MembersText(CompactOf(f), ms, |sc.open| + 1), Push(sc, LBRACE), RBRACE,
                    MembersText(f, ms, |sc.open| + 1) + CloseGap(f.style, false, |sc.open|), Push(sc, LBRACE))
    decreases ms, 0
  {
    GoodCompactMembers(f, ms);
    hide Spreads, Closing, Gap, CloseGap, PrintMember;
    var style, c, d, inner, rest := f.style, CompactOf(f), |sc.open| + 1, Push(sc, LBRACE), ms[1..];
    assert Good(f, ms[0].value) && AllGoodMembers(f, rest);
    ClosingIsGap(style, LBRACE, sc, RBRACE);
    NoClosing(style, inner, COMMA);
    if rest == [] {
      MemberSpreads(f, ms[0], inner, RBRACE);
      assert PrintMember(c, ms[0], d) + [] == PrintMember(c, ms[0], d);
      assert PrintMember(f, ms[0], d) + [] == PrintMember(f, ms[0], d);
    } else {
      MemberSpreads(f, ms[0], inner, COMMA);
      MembersSpread(f, rest, sc);
      MoreMembers(c, rest, d);
      MoreMembers(f, rest, d);
      AndMore(style, PrintMember(c, ms[0], d), PrintMember(f, ms[0], d), MembersText(c, rest, d), MembersText(f, rest, d),
              false, sc, LBRACE, RBRACE);
    }
  }

  lemma ObjectText(f: Format, ms: seq<Member>, depth: nat)
    requires ms != [] && Good(f, Object(ms)) && AllGoodMembers(f, ms)
    ensures Print(f, Object(ms), depth) ==
            [LBRACE] + Gap(f.style, false, true, depth + 1) + MembersText(f, ms, depth + 1) + CloseGap(f.style, false, depth) + [RBRACE]
  {
    hide Gap, CloseGap, MembersText;
    MoreMembers(f, ms, depth + 1);
  }

  lemma MembersHead(f: Format, ms: seq<Member>, depth: nat)
    requires ms != [] && AllGoodMembers(f, ms)
    ensures MembersText(f, ms, depth) != [] && !Closes(MembersText(f, ms, depth)[0])
  {
    hide Print, PrintMembers;
  }

  lemma {:induction false} ObjectSpreads(f: Format, ms: seq<Member>, sc: Scan, next: Byte)
    requires ms != [] && Resting(sc) && Good(f, Object(ms)) && AllGoodMembers(f, ms)
    ensures Spreads(f.style, Print(CompactOf(f), Object(ms), |sc.open|), sc, next,
                    Print(f, Object(ms), |sc.open|) + Closing(f.style, sc, next), sc)
    decreases ms, 1
  {
    MembersSpread(f, ms, sc);
    ObjectText(f, ms, |sc.open|);
    ObjectText(CompactOf(f), ms, |sc.open|);
    MembersHead(CompactOf(f), ms, |sc.open| + 1);
    hide Spreads, Closing, Gap, CloseGap, Good, Print, MembersText;
    var style, text, spread := f.style, MembersText(CompactOf(f), ms, |sc.open| + 1), MembersText(f, ms, |sc.open| + 1);
    Bracketed(style, LBRACE, text, RBRACE, sc, next, spread + CloseGap(style, false, |sc.open|));
    Regroup([LBRACE], Gap(style, false, true, |sc.open| + 1), spread, CloseGap(style, false, |sc.open|), [RBRACE], Closing(style, sc, next));
    Ungapped([LBRACE], text, [RBRACE], false, |sc.open|);
  }

  // --------------------------------------------------------------- Theorems

  /** A pretty text is the compact text of the value with the whitespace of the layout, and a compact text has none. */
  lemma PrettyIsSpread(f: Format, v: Value)
    requires WellFormed(v) && Printable(f, v)
    ensures Printable(CompactOf(f), v)
    ensures Print(f, v, 0) == Spread(f.style, Print(CompactOf(f), v, 0), OUTSIDE, NUL)
    ensures Bare(Print(CompactOf(f), v, 0), OUTSIDE)
  {
    PrintableCompact(f, v);
    hide Print, Spread, Bare, AfterAll;
    ValueSpreads(f, v, OUTSIDE, NUL);
    NoClosing(f.style, OUTSIDE, NUL);
  }
}
