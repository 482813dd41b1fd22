/**
 The one way out of UTF-8: an escape of a low surrogate that no high one comes before is taken for a character.
 A string read with encodings checked is UTF-8 exactly when it has none.
 */
module Surrogates {
  import opened Text
  import opened Sax
  import opened Lexer
  import Utf8

  predicate IsLow(h: Option<nat>) {
    h.Some? && 0xDC00 <= h.value <= 0xDFFF
  }

  predicate IsHigh(h: Option<nat>) {
    h.Some? && 0xD800 <= h.value <= 0xDBFF
  }

  /**
   Up to the closing quote some `\u` escape writes a low surrogate and is not the second half of a pair. A scan of
   the text: two characters for an escape, twelve for a pair, one for everything else.
   */
  predicate LoneLow(t: seq<Byte>, p: nat)
    decreases |t| - p
  {
    if Peek(t, p) == QUOTE || Peek(t, p) == NUL then false
    else if Peek(t, p) != BACKSLASH then LoneLow(t, p + 1)
    else if Peek(t, p + 1) == LOWER_U then
      IsLow(Hex4(t, p + 2)) || LoneLow(t, if IsHigh(Hex4(t, p + 2)) then p + 12 else p + 6)
    else LoneLow(t, p + 2)
  }

  /** A string that is accepted with encodings checked decodes to UTF-8 exactly when it has no lone low surrogate. */
  lemma AcceptedIsUtf8(t: seq<Byte>, p: nat)
    ensures var r := StringBody(true, t, p, []);
            r.Got? ==> (Utf8.Valid(r.value) <==> !LoneLow(t, p))
  {
    BodyIsUtf8(t, p, []);
  }

  /** The same from any place of a string on, with what has been decoded before it. */
  lemma {:induction false} BodyIsUtf8(t: seq<Byte>, p: nat, out: seq<Byte>)
    ensures var r := StringBody(true, t, p, out);
            r.Got? ==> out <= r.value && (Utf8.ValidFrom(r.value, |out|) <==> !LoneLow(t, p))
    decreases |t| - p
  {
    hide Utf8.Length, Utf8.CodePoint, Utf8.Encode, Hex4, LoneLow;
    var c := Peek(t, p);
    if c == BACKSLASH && Peek(t, p + 1) == LOWER_U {
      UnicodeStep(t, p, out);
    } else if c == BACKSLASH && Unescape(Peek(t, p + 1)).Some? {
      EscapeStep(t, p, out);
    } else if c != BACKSLASH && c != QUOTE && c >= 0x20 && Utf8.Length(t, p) > 0 {
      RawStep(t, p, out);
    } else {
      ScanStops(t, p);
    }
  }

  lemma ScanStops(t: seq<Byte>, p: nat)
    ensures Peek(t, p) == QUOTE ==> !LoneLow(t, p)
  {}

  /** A whole character has been decoded: the string is UTF-8 from before it exactly when it is from after it. */
  lemma CharDecoded(s: seq<Byte>, at: nat, cp: nat)
    requires Utf8.IsScalar(cp) && At(s, at, Utf8.Encode(cp))
    ensures Utf8.ValidFrom(s, at) <==> Utf8.ValidFrom(s, at + |Utf8.Encode(cp)|)
  {
    hide Utf8.Length, Utf8.CodePoint, Utf8.Encode;
    Utf8.DecodeOfEncode(cp, s, at);
  }

  /** A surrogate has been decoded: its three bytes are no character. */
  lemma SurrogateDecoded(s: seq<Byte>, at: nat, cp: nat)
    requires 0xD800 <= cp <= 0xDFFF && At(s, at, Utf8.Encode(cp))
    ensures !Utf8.ValidFrom(s, at)
  {
    assert s[at..at + 3] == [0xED, 0x80 + cp / 64 % 64, 0x80 + cp % 64];
    assert s[at] == s[at..at + 3][0] && s[at + 1] == s[at..at + 3][1];
    assert Utf8.Length(s, at) == 0;
  }

  lemma Prefixed(s: seq<Byte>, out: seq<Byte>, x: seq<Byte>)
    requires out + x <= s
    ensures out <= s && At(s, |out|, x)
  {
    assert s[..|out + x|] == out + x;
    assert s[|out|..|out| + |x|] == s[..|out + x|][|out|..];
  }

  lemma UnicodeStep(t: seq<Byte>, p: nat, out: seq<Byte>)
    requires Peek(t, p) == BACKSLASH && Peek(t, p + 1) == LOWER_U
    ensures var r := StringBody(true, t, p, out);
            r.Got? ==> out <= r.value && (Utf8.ValidFrom(r.value, |out|) <==> !LoneLow(t, p))
    decreases |t| - p, 0
  {
    hide Utf8.Length, Utf8.CodePoint, Utf8.Encode, Hex4;
    var u := UnicodeEscape(t, p + 2, p);
    var r := StringBody(true, t, p, out);
    if r.Got? {
      var x := Utf8.Encode(u.value);
      BodyIsUtf8(t, u.next, out + x);
      Prefixed(r.value, out, x);
      if IsLow(Hex4(t, p + 2)) {
        SurrogateDecoded(r.value, |out|, u.value);
      } else {
        CharDecoded(r.value, |out|, u.value);
      }
    }
  }

  lemma EscapeStep(t: seq<Byte>, p: nat, out: seq<Byte>)
    requires Peek(t, p) == BACKSLASH && Unescape(Peek(t, p + 1)).Some?
    ensures var r := StringBody(true, t, p, out);
            r.Got? ==> out <= r.value && (Utf8.ValidFrom(r.value, |out|) <==> !LoneLow(t, p))
    decreases |t| - p, 0
  {
    hide Utf8.Length, Utf8.CodePoint, Hex4, Unescape;
    var r := StringBody(true, t, p, out);
    if r.Got? {
      var c := Unescape(Peek(t, p + 1)).value;
      EscapedIsAscii(Peek(t, p + 1));
      BodyIsUtf8(t, p + 2, out + [c]);
      Prefixed(r.value, out, [c]);
      CharDecoded(r.value, |out|, c);
    }
  }

  lemma EscapedIsAscii(e: Byte)
    ensures Unescape(e).Some? ==> e != LOWER_U && e != NUL && Unescape(e).value < 0x80
  {}

  lemma RawStep(t: seq<Byte>, p: nat, out: seq<Byte>)
    requires Peek(t, p) != BACKSLASH && Peek(t, p) != QUOTE && Peek(t, p) >= 0x20 && Utf8.Length(t, p) > 0
    ensures var r := StringBody(true, t, p, out);
            r.Got? ==> out <= r.value && (Utf8.ValidFrom(r.value, |out|) <==> !LoneLow(t, p))
    decreases |t| - p, 0
  {
    hide Utf8.Length, Utf8.CodePoint, Utf8.Encode, Hex4, LoneLow;
    var n, cp := Utf8.Length(t, p), Utf8.CodePoint(t, p);
    var r := StringBody(true, t, p, out);
    if r.Got? {
      Utf8.EncodeOfDecode(t, p);
      Utf8.InBounds(t, p);
      assert Slice(t, p, n) == Utf8.Encode(cp) by {
        assert Slice(t, p, n) == t[p..p + n];
      }
      BodyIsUtf8(t, p + n, out + Slice(t, p, n));
      Prefixed(r.value, out, Utf8.Encode(cp));
      CharDecoded(r.value, |out|, cp);
      ScanRaw(t, p);
    }
  }

  /** The scan goes through a whole character without seeing a quote or an escape. */
  lemma ScanRaw(t: seq<Byte>, p: nat)
    requires Peek(t, p) != BACKSLASH && Peek(t, p) != QUOTE && Peek(t, p) != NUL && Utf8.Length(t, p) > 0
    ensures LoneLow(t, p) <==> LoneLow(t, p + Utf8.Length(t, p))
  {
    hide Hex4;
    var n := Utf8.Length(t, p);
    assert n > 1 ==> Peek(t, p + 1) >= 0x80;
    assert n > 2 ==> Peek(t, p + 2) >= 0x80;
    assert n > 3 ==> Peek(t, p + 3) >= 0x80;
    assert LoneLow(t, p) == LoneLow(t, p + 1);
    assert n > 1 ==> LoneLow(t, p + 1) == LoneLow(t, p + 2);
    assert n > 2 ==> LoneLow(t, p + 2) == LoneLow(t, p + 3);
    assert n > 3 ==> LoneLow(t, p + 3) == LoneLow(t, p + 4);
  }

  /** The escape \uDC00 and the closing quote: three bytes that are no character. */
  lemma LoneSurrogate()
    ensures
      var t := [BACKSLASH, LOWER_U, 68, 67, DIGIT_0, DIGIT_0, QUOTE];
      && LoneLow(t, 0) && StringBody(true, t, 0, []) == Got(7, [0xED, 0xB0, 0x80])
      && !Utf8.Valid([0xED, 0xB0, 0x80])
  {
    var t := [BACKSLASH, LOWER_U, 68, 67, DIGIT_0, DIGIT_0, QUOTE];
    assert Hex4(t, 2) == Some(0xDC00);
    assert UnicodeEscape(t, 2, 0) == Got(6, 0xDC00);
    assert Utf8.Encode(0xDC00) == [0xED, 0xB0, 0x80];
    assert [] + Utf8.Encode(0xDC00) == [0xED, 0xB0, 0x80];
    assert StringBody(true, t, 6, [0xED, 0xB0, 0x80]) == Got(7, [0xED, 0xB0, 0x80]);
  }
}
