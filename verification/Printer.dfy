/** The text a value is written as: compact or indented, with non-ASCII characters kept or escaped. */
module Printer {
  import opened Text
  import Sax
  import opened Dom
  import Utf8

  /** Compact is the plain writer; Pretty adds a line break and indentation, except in single-line arrays. */
  datatype Style = Compact | Pretty(indentChar: Byte, indentCount: nat, singleLineArray: bool)

  /** How a text is written; `ascii` is a target encoding without Unicode support. */
  datatype Format = Format(style: Style, ascii: bool)

  predicate GoodStyle(style: Style) {
    style.Pretty? ==> IsWhitespace(style.indentChar)
  }

  // ------------------------------------------------------------- Whitespace

  function Repeat(c: Byte, n: nat): (s: seq<Byte>)
    ensures |s| == n && forall i | 0 <= i < n :: s[i] == c
  {
    seq<Byte>(n, i => c)
  }

  /** A line break and the indentation of `depth` open containers. */
  function NewLine(style: Style, depth: nat): seq<Byte> {
    if style.Compact? then [] else [LF] + Repeat(style.indentChar, depth * style.indentCount)
  }

  /** Whitespace before a member or an element. */
  function Gap(style: Style, inArray: bool, first: bool, depth: nat): seq<Byte> {
    if style.Pretty? && inArray && style.singleLineArray then if first then [] else [SPACE]
    else NewLine(style, depth)
  }

  function ColonGap(style: Style): seq<Byte> {
    if style.Compact? then [] else [SPACE]
  }

  /** Whitespace before the closing bracket of a container that is not empty. */
  function CloseGap(style: Style, inArray: bool, depth: nat): seq<Byte> {
    if style.Pretty? && inArray && style.singleLineArray then [] else NewLine(style, depth)
  }

  // ---------------------------------------------------------------- Scalars

  const NULL_TEXT: seq<Byte> := [LOWER_N, LOWER_U, LOWER_L, LOWER_L]
  const TRUE_TEXT: seq<Byte> := [LOWER_T, LOWER_R, LOWER_U, LOWER_E]
  const FALSE_TEXT: seq<Byte> := [LOWER_F, LOWER_A, LOWER_L, LOWER_S, LOWER_E]

  function Decimal(n: nat): (s: seq<Byte>)
    ensures s != [] && forall i | 0 <= i < |s| :: IsDigit(s[i])
  {
    if n < 10 then [DIGIT_0 + n] else Decimal(n / 10) + [DIGIT_0 + n % 10]
  }

  function SignedDecimal(n: int): seq<Byte> {
    if n < 0 then [MINUS] + Decimal(0 - n) else Decimal(n)
  }

  function HexChar(d: nat): Byte
    requires d < 16
  {
    if d < 10 then DIGIT_0 + d else UPPER_A + (d - 10)
  }

  /** `\u` and four hexadecimal digits. */
  function UnicodeEscape(u: nat): (s: seq<Byte>)
    requires u < 0x10000
    ensures |s| == 6
  {
    [BACKSLASH, LOWER_U, HexChar(u / 4096), HexChar(u / 256 % 16), HexChar(u / 16 % 16), HexChar(u % 16)]
  }

  /** A code point as one escape, or as the two of its surrogate pair. */
  function CodePointEscape(cp: nat): (s: seq<Byte>)
    requires Utf8.IsScalar(cp)
    ensures |s| == if cp < 0x10000 then 6 else 12
  {
    if cp < 0x10000 then UnicodeEscape(cp)
    else UnicodeEscape((cp - 0x10000) / 0x400 + 0xD800) + UnicodeEscape((cp - 0x10000) % 0x400 + 0xDC00)
  }

  /** The letter after the backslash for a character that must be escaped. */
  function EscapeLetter(c: Byte): Option<Byte> {
    if c == BACKSPACE then Some(LOWER_B)
    else if c == TAB then Some(LOWER_T)
    else if c == LF then Some(LOWER_N)
    else if c == FORMFEED then Some(LOWER_F)
    else if c == CR then Some(LOWER_R)
    else if c < 0x20 then Some(LOWER_U)
    else if c == QUOTE || c == BACKSLASH then Some(c)
    else None
  }

  function EscapeChar(c: Byte): (s: seq<Byte>)
    ensures 1 <= |s| <= 6
  {
    match EscapeLetter(c)
    case None => [c]
    case Some(letter) => if letter == LOWER_U then UnicodeEscape(c) else [BACKSLASH, letter]
  }

  /** The characters of `s` from `i` on; None when the target needs a code point and `s` is not UTF-8 there. */
  function Escape(ascii: bool, s: seq<Byte>, i: nat): (r: Option<seq<Byte>>)
    requires i <= |s|
    decreases |s| - i
  {
    if i == |s| then Some([])
    else if ascii && s[i] >= 0x80 then
      var n := Utf8.Length(s, i);
      if n == 0 then None
      else
        Utf8.EncodeOfDecode(s, i);
        match Escape(ascii, s, i + n)
        case None => None
        case Some(rest) => Some(CodePointEscape(Utf8.CodePoint(s, i)) + rest)
    else
      match Escape(ascii, s, i + 1)
      case None => None
      case Some(rest) => Some(EscapeChar(s[i]) + rest)
  }

  /** The writer fails exactly on strings that are not UTF-8, and only when it has to escape code points. */
  lemma {:induction false} EscapeFails(ascii: bool, s: seq<Byte>, i: nat)
    requires i <= |s|
    ensures Escape(ascii, s, i).Some? <==> !ascii || Utf8.ValidFrom(s, i)
    decreases |s| - i
  {
    if i < |s| {
      var n := Utf8.Length(s, i);
      if ascii && s[i] >= 0x80 && n > 0 {
        EscapeFails(ascii, s, i + n);
      } else if !(ascii && s[i] >= 0x80) {
        EscapeFails(ascii, s, i + 1);
      }
    }
  }

  /** A string never outgrows the space reserved for it: six bytes a character, with either target. */
  lemma {:induction false} EscapeBound(ascii: bool, s: seq<Byte>, i: nat)
    requires i <= |s| && Escape(ascii, s, i).Some?
    ensures |Escape(ascii, s, i).value| <= 6 * (|s| - i)
    decreases |s| - i
  {
    if i < |s| {
      var n := Utf8.Length(s, i);
      if ascii && s[i] >= 0x80 {
        EscapeBound(ascii, s, i + n);
      } else {
        EscapeBound(ascii, s, i + 1);
      }
    }
  }

  function StringText(ascii: bool, s: seq<Byte>): Option<seq<Byte>> {
    match Escape(ascii, s, 0)
    case None => None
    case Some(body) => Some([QUOTE] + body + [QUOTE])
  }

  // ----------------------------------------------------------------- Values

  /** Every string can be written in the format. */
  predicate Printable(f: Format, v: Value) {
    match v
    case String(s) => f.ascii ==> Utf8.Valid(s)
    case Array(es) => forall e | e in es :: Printable(f, e)
    case Object(ms) => forall m | m in ms :: (f.ascii ==> Utf8.Valid(m.name)) && Printable(f, m.value)
    case _ => true
  }

  function PrintString(f: Format, s: seq<Byte>): (r: seq<Byte>)
    requires f.ascii ==> Utf8.Valid(s)
    ensures r != [] && r[0] == QUOTE
  {
    EscapeFails(f.ascii, s, 0);
    StringText(f.ascii, s).value
  }

  /** The text of a value inside `depth` open containers. */
  function Print(f: Format, v: Value, depth: nat): seq<Byte>
    requires WellFormed(v) && Printable(f, v)
    decreases v
  {
    match v
    case Null => NULL_TEXT
    case Bool(b) => if b then TRUE_TEXT else FALSE_TEXT
    case Number(_, _) => SignedDecimal(IntegerOf(v))
    case String(s) => PrintString(f, s)
    case Array(es) =>
      if es == [] then [LBRACKET, RBRACKET]
      else [LBRACKET] + PrintElements(f, es, depth + 1, true) + CloseGap(f.style, true, depth) + [RBRACKET]
    case Object(ms) =>
      if ms == [] then [LBRACE, RBRACE]
      else [LBRACE] + PrintMembers(f, ms, depth + 1, true) + CloseGap(f.style, false, depth) + [RBRACE]
  }

  function Comma(first: bool): seq<Byte> {
    if first then [] else [COMMA]
  }

  function PrintElements(f: Format, es: seq<Value>, depth: nat, first: bool): seq<Byte>
    requires forall e | e in es :: WellFormed(e) && Printable(f, e)
    decreases es
  {
    if es == [] then []
    else Comma(first) + Gap(f.style, true, first, depth) + Print(f, es[0], depth) + PrintElements(f, es[1..], depth, false)
  }

  function PrintMember(f: Format, m: Member, depth: nat): seq<Byte>
    requires WellFormed(m.value) && (f.ascii ==> Utf8.Valid(m.name)) && Printable(f, m.value)
    decreases m, 1
  {
    PrintString(f, m.name) + [COLON] + ColonGap(f.style) + Print(f, m.value, depth)
  }

  function PrintMembers(f: Format, ms: seq<Member>, depth: nat, first: bool): seq<Byte>
    requires forall m | m in ms :: WellFormed(m.value) && (f.ascii ==> Utf8.Valid(m.name)) && Printable(f, m.value)
    decreases ms, 2
  {
    if ms == [] then []
    else Comma(first) + Gap(f.style, false, first, depth) + PrintMember(f, ms[0], depth) + PrintMembers(f, ms[1..], depth, false)
  }
}
