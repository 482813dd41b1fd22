/** What the scanners shared by both parsers return: whitespace, literals, strings and numbers. */
module Lexer {
  import opened Text
  import opened Sax
  import Utf8

  datatype Lex<+T> = Got(next: nat, value: T) | Bad(code: ErrorCode, offset: nat)

  // -------------------------------------------------- Whitespace, comments

  function SkipWhitespace(t: seq<Byte>, p: nat): (q: nat)
    ensures p <= q && (p <= |t| ==> q <= |t|)
    ensures !IsWhitespace(Peek(t, q))
    decreases |t| - p
  {
    if IsWhitespace(Peek(t, p)) then SkipWhitespace(t, p + 1) else p
  }

  /** Position after the closing mark of a block comment, if there is one. */
  function BlockComment(t: seq<Byte>, p: nat): (q: Option<nat>)
    ensures q.Some? ==> p < q.value <= |t|
    decreases |t| - p
  {
    if Peek(t, p) == NUL then None
    else if Peek(t, p) == STAR && Peek(t, p + 1) == SLASH then Some(p + 2)
    else BlockComment(t, p + 1)
  }

  function BlockCommentEnd(t: seq<Byte>, p: nat): (q: nat)
    ensures p <= q
    decreases |t| - p
  {
    if Peek(t, p) == NUL || (Peek(t, p) == STAR && Peek(t, p + 1) == SLASH) then p else BlockCommentEnd(t, p + 1)
  }

  function LineComment(t: seq<Byte>, p: nat): (q: nat)
    ensures p <= q && (p <= |t| ==> q <= |t|)
    decreases |t| - p
  {
    if Peek(t, p) == NUL then p
    else if Peek(t, p) == LF then p + 1
    else LineComment(t, p + 1)
  }

  function Comments(t: seq<Byte>, p: nat): (r: Lex<()>)
    ensures r.Got? ==> p <= r.next && (p <= |t| ==> r.next <= |t|)
    decreases |t| - p
  {
    if Peek(t, p) != SLASH then Got(p, ())
    else if Peek(t, p + 1) == STAR then
      match BlockComment(t, p + 2)
      case None => Bad(UnspecificSyntaxError, BlockCommentEnd(t, p + 2))
      case Some(q) => Comments(t, SkipWhitespace(t, q))
    else if Peek(t, p + 1) == SLASH then Comments(t, SkipWhitespace(t, LineComment(t, p + 2)))
    else Bad(UnspecificSyntaxError, p + 1)
  }

  function Skip(env: Env, p: nat): (r: Lex<()>)
    ensures r.Got? ==> p <= r.next && (p <= |env.text| ==> r.next <= |env.text|)
  {
    var q := SkipWhitespace(env.text, p);
    if env.flags.comments then Comments(env.text, q) else Got(q, ())
  }

  // --------------------------------------------------------------- Literals

  /** Takes characters as long as they match `word`; tells whether all of it matched, and where it stopped. */
  function Match(t: seq<Byte>, p: nat, word: seq<Byte>): (r: (bool, nat))
    requires NUL !in word
    ensures p <= r.1 <= p + |word|
    ensures p <= |t| ==> r.1 <= |t|
    ensures r.0 <==> At(t, p, word) || word == []
    ensures r.0 ==> r.1 == p + |word|
    decreases word
  {
    if word == [] then (true, p)
    else if Peek(t, p) == word[0] then
      assert word[0] in word;
      var r := Match(t, p + 1, word[1..]);
      assert At(t, p, word) <==> At(t, p, [word[0]]) && At(t, p + 1, word[1..]) by {
        AtSplit(t, p, [word[0]], word[1..]);
        assert [word[0]] + word[1..] == word;
      }
      r
    else
      assert word[0] in word;
      AtHead(t, p, word);
      (false, p)
  }

  // ---------------------------------------------------------------- Strings

  /** Character that a one-letter escape stands for. */
  function Unescape(e: Byte): Option<Byte> {
    if e == QUOTE || e == SLASH || e == BACKSLASH then Some(e)
    else if e == LOWER_B then Some(BACKSPACE)
    else if e == LOWER_F then Some(FORMFEED)
    else if e == LOWER_N then Some(LF)
    else if e == LOWER_R then Some(CR)
    else if e == LOWER_T then Some(TAB)
    else None
  }

  function HexDigit(c: Byte): (d: Option<nat>)
    ensures d.Some? ==> d.value < 16
  {
    if IsDigit(c) then Some(c - DIGIT_0)
    else if UPPER_A <= c <= UPPER_F then Some(c - UPPER_A + 10)
    else if LOWER_A <= c <= LOWER_F then Some(c - LOWER_A + 10)
    else None
  }

  /** The number written by the four hexadecimal digits at `p`. */
  function Hex4(t: seq<Byte>, p: nat): (h: Option<nat>)
    ensures h.Some? ==> h.value < 0x10000 && p + 4 <= |t|
  {
    var a, b, c, d := HexDigit(Peek(t, p)), HexDigit(Peek(t, p + 1)), HexDigit(Peek(t, p + 2)), HexDigit(Peek(t, p + 3));
    if a.Some? && b.Some? && c.Some? && d.Some?
    then Some(((a.value * 16 + b.value) * 16 + c.value) * 16 + d.value)
    else None
  }

  /** Code point of the escape whose `u` is at `p - 1` and whose backslash is at `start`. */
  function UnicodeEscape(t: seq<Byte>, p: nat, start: nat): (r: Lex<nat>)
    ensures r.Got? ==> p < r.next <= |t| && r.value <= 0x10FFFF
  {
    match Hex4(t, p)
    case None => Bad(StringUnicodeEscapeInvalidHex, start)
    case Some(h) =>
      if !(0xD800 <= h <= 0xDBFF) then Got(p + 4, h)
      else if Peek(t, p + 4) != BACKSLASH || Peek(t, p + 5) != LOWER_U then Bad(StringUnicodeSurrogateInvalid, start)
      else
        match Hex4(t, p + 6)
        case None => Bad(StringUnicodeEscapeInvalidHex, start)
        case Some(l) =>
          if l < 0xDC00 || l > 0xDFFF then Bad(StringUnicodeSurrogateInvalid, start)
          else Got(p + 10, (h - 0xD800) * 0x400 + (l - 0xDC00) + 0x10000)
  }

  /** Decodes from `p` up to the closing quote, appending to `out`. */
  function StringBody(validate: bool, t: seq<Byte>, p: nat, out: seq<Byte>): (r: Lex<seq<Byte>>)
    ensures r.Got? ==> p < r.next <= |t|
    decreases |t| - p
  {
    var c := Peek(t, p);
    if c == BACKSLASH then
      if Unescape(Peek(t, p + 1)).Some? then
        StringBody(validate, t, p + 2, out + [Unescape(Peek(t, p + 1)).value])
      else if Peek(t, p + 1) == LOWER_U then
        match UnicodeEscape(t, p + 2, p)
        case Bad(code, offset) => Bad(code, offset)
        case Got(q, codepoint) => StringBody(validate, t, q, out + Utf8.Encode(codepoint))
      else Bad(StringEscapeInvalid, p)
    else if c == QUOTE then Got(p + 1, out)
    else if c == NUL then Bad(StringMissQuotationMark, p)
    else if c < 0x20 then Bad(StringEscapeInvalid, p)
    else if !validate then StringBody(validate, t, p + 1, out + [c])
    else if Utf8.Length(t, p) == 0 then Bad(StringInvalidEncoding, p)
    else StringBody(validate, t, p + Utf8.Length(t, p), out + Slice(t, p, Utf8.Length(t, p)))
  }
}
