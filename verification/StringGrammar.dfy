/** Which texts are JSON strings, character by character, what they decode to, and the error of any other text. */
module StringGrammar {
  import opened Text
  import opened Sax
  import opened Lexer
  import Printer
  import Utf8

  // ------------------------------------------------------------ Hexadecimal

  const HEX_LOWER := "0123456789abcdef"
  const HEX_UPPER := "0123456789ABCDEF"

  /** `c` is the hexadecimal digit of `d`, in either case. */
  predicate IsHex(c: Byte, d: nat) {
    d < 16 && (c == HEX_LOWER[d] as int || c == HEX_UPPER[d] as int)
  }

  predicate IsHexDigit(c: Byte) {
    exists d: nat | d < 16 :: IsHex(c, d)
  }

  lemma HexDigitIs(c: Byte)
    ensures forall d: nat :: HexDigit(c) == Some(d) <==> IsHex(c, d)
    ensures HexDigit(c).Some? <==> IsHexDigit(c)
  {
    if HexDigit(c).Some? {
      assert IsHex(c, HexDigit(c).value);
    }
  }

  /** The characters at `p` are the four digits of `h`. */
  predicate HexAt(t: seq<Byte>, p: nat, h: nat) {
    && h < 0x10000
    && IsHex(Peek(t, p), h / 0x1000) && IsHex(Peek(t, p + 1), h / 0x100 % 16)
    && IsHex(Peek(t, p + 2), h / 0x10 % 16) && IsHex(Peek(t, p + 3), h % 16)
  }

  lemma FourDigits(a: nat, b: nat, c: nat, d: nat, h: nat)
    requires a < 16 && b < 16 && c < 16 && d < 16
    ensures h == ((a * 16 + b) * 16 + c) * 16 + d <==>
            h < 0x10000 && h / 0x1000 == a && h / 0x100 % 16 == b && h / 0x10 % 16 == c && h % 16 == d
  {
    if h == ((a * 16 + b) * 16 + c) * 16 + d {
      assert h / 0x10 == (a * 16 + b) * 16 + c;
      assert h / 0x100 == a * 16 + b;
    }
    if h < 0x10000 && h / 0x1000 == a && h / 0x100 % 16 == b && h / 0x10 % 16 == c && h % 16 == d {
      assert h / 0x100 == h / 0x1000 * 16 + b;
      assert h / 0x10 == h / 0x100 * 16 + c;
    }
  }

  /** Four digits, in either case of letter, are read as the number they write. */
  lemma Hex4Is(t: seq<Byte>, p: nat, h: nat)
    ensures Hex4(t, p) == Some(h) <==> HexAt(t, p, h)
  {
    HexDigitIs(Peek(t, p));
    HexDigitIs(Peek(t, p + 1));
    HexDigitIs(Peek(t, p + 2));
    HexDigitIs(Peek(t, p + 3));
    hide IsHex, HexDigit, IsHexDigit;
    var a, b, c, d := HexDigit(Peek(t, p)), HexDigit(Peek(t, p + 1)), HexDigit(Peek(t, p + 2)), HexDigit(Peek(t, p + 3));
    if a.Some? && b.Some? && c.Some? && d.Some? {
      FourDigits(a.value, b.value, c.value, d.value, h);
    }
  }

  /** Anything else is refused. */
  lemma Hex4Refused(t: seq<Byte>, p: nat)
    ensures Hex4(t, p).None? <==> !IsHexDigit(Peek(t, p)) || !IsHexDigit(Peek(t, p + 1)) ||
                                  !IsHexDigit(Peek(t, p + 2)) || !IsHexDigit(Peek(t, p + 3))
  {
    HexDigitIs(Peek(t, p));
    HexDigitIs(Peek(t, p + 1));
    HexDigitIs(Peek(t, p + 2));
    HexDigitIs(Peek(t, p + 3));
    hide IsHex, HexDigit, IsHexDigit;
  }

  // ---------------------------------------------------- One-letter escapes

  const LETTERS := "\"\\/bfnrt"
  const STANDS: seq<Byte> := [34, 92, 47, 8, 12, 10, 13, 9]

  predicate IsLetter(c: Byte, i: nat) {
    i < 8 && c == LETTERS[i] as int
  }

  /** The letters that may follow a backslash are these eight, and each stands for its character. */
  lemma UnescapeIs(c: Byte)
    ensures forall i: nat :: IsLetter(c, i) ==> Unescape(c) == Some(STANDS[i])
    ensures Unescape(c).Some? <==> exists i: nat :: IsLetter(c, i)
  {
    if Unescape(c).Some? {
      assert IsLetter(c, 0) || IsLetter(c, 1) || IsLetter(c, 2) || IsLetter(c, 3) ||
             IsLetter(c, 4) || IsLetter(c, 5) || IsLetter(c, 6) || IsLetter(c, 7);
    }
  }

  // ----------------------------------------------------------------- Pieces

  /** What a string is made of: a character as it is, or one of three kinds of escape. */
  datatype Piece = Raw(s: seq<Byte>) | Letter(i: nat) | Unit(h: nat) | Pair(high: nat, low: nat)

  function PieceLength(x: Piece): nat {
    match x
    case Raw(s) => |s|
    case Letter(_) => 2
    case Unit(_) => 6
    case Pair(_, _) => 12
  }

  predicate EscapeAt(t: seq<Byte>, p: nat, h: nat) {
    Peek(t, p) == '\\' as int && Peek(t, p + 1) == 'u' as int && HexAt(t, p + 2, h)
  }

  /** A character that may stand as it is: any but a quote, a backslash or a control character. */
  ghost predicate RawAt(validate: bool, t: seq<Byte>, p: nat, s: seq<Byte>) {
    && At(t, p, s) && Peek(t, p) >= 0x20 && Peek(t, p) != '"' as int && Peek(t, p) != '\\' as int
    && if validate then exists cp: nat :: Utf8.IsScalar(cp) && s == Utf8.Encode(cp) else |s| == 1
  }

  ghost predicate PieceAt(validate: bool, t: seq<Byte>, p: nat, x: Piece) {
    match x
    case Raw(s) => RawAt(validate, t, p, s)
    case Letter(i) => Peek(t, p) == '\\' as int && IsLetter(Peek(t, p + 1), i)
    case Unit(h) => EscapeAt(t, p, h) && !(0xD800 <= h <= 0xDBFF)
    case Pair(high, low) =>
      && EscapeAt(t, p, high) && 0xD800 <= high <= 0xDBFF
      && EscapeAt(t, p + 6, low) && 0xDC00 <= low <= 0xDFFF
  }

  predicate GoodPiece(x: Piece) {
    match x
    case Raw(_) => true
    case Letter(i) => i < 8
    case Unit(h) => h < 0x10000
    case Pair(high, low) => 0xD800 <= high <= 0xDBFF && 0xDC00 <= low <= 0xDFFF
  }

  /** The bytes a piece decodes to. */
  function PieceBytes(x: Piece): seq<Byte>
    requires GoodPiece(x)
  {
    match x
    case Raw(s) => s
    case Letter(i) => [STANDS[i]]
    case Unit(h) => Utf8.Encode(h)
    case Pair(high, low) => Utf8.Encode(0x10000 + (high - 0xD800) * 0x400 + (low - 0xDC00))
  }

  lemma PieceIsGood(validate: bool, t: seq<Byte>, p: nat, x: Piece)
    requires PieceAt(validate, t, p, x)
    ensures GoodPiece(x) && PieceLength(x) > 0 && p < |t|
  {}

  /** The pieces stand one after the other from `p` to `q`. */
  ghost predicate Spelled(validate: bool, t: seq<Byte>, p: nat, xs: seq<Piece>, q: nat)
    decreases xs
  {
    if xs == [] then p == q
    else
      && PieceAt(validate, t, p, xs[0])
      && Spelled(validate, t, p + PieceLength(xs[0]), xs[1..], q)
  }

  function Decoded(xs: seq<Piece>): seq<Byte> {
    if xs == [] then [] else (if GoodPiece(xs[0]) then PieceBytes(xs[0]) else []) + Decoded(xs[1..])
  }

  predicate HexMissing(t: seq<Byte>, p: nat) {
    !IsHexDigit(Peek(t, p)) || !IsHexDigit(Peek(t, p + 1)) || !IsHexDigit(Peek(t, p + 2)) || !IsHexDigit(Peek(t, p + 3))
  }

  /** The four digits at `p` are those of a number in the range. */
  ghost predicate HexBetween(t: seq<Byte>, p: nat, low: nat, high: nat) {
    exists h: nat :: HexAt(t, p, h) && low <= h <= high
  }

  /** The high surrogate whose escape is at `p` is not followed by the escape of a low one. */
  ghost predicate PairBroken(t: seq<Byte>, p: nat, code: ErrorCode) {
    if !(Peek(t, p + 6) == '\\' as int && Peek(t, p + 7) == 'u' as int) then code == StringUnicodeSurrogateInvalid
    else if HexMissing(t, p + 8) then code == StringUnicodeEscapeInvalidHex
    else code == StringUnicodeSurrogateInvalid && !HexBetween(t, p + 8, 0xDC00, 0xDFFF)
  }

  /** Neither a piece nor the closing quote stands at `p`, and this is the error for what does. */
  ghost predicate FaultAt(validate: bool, t: seq<Byte>, p: nat, code: ErrorCode) {
    var c, e := Peek(t, p), Peek(t, p + 1);
    if c == '\\' as int then
      if e == 'u' as int then
        if HexMissing(t, p + 2) then code == StringUnicodeEscapeInvalidHex
        else HexBetween(t, p + 2, 0xD800, 0xDBFF) && PairBroken(t, p, code)
      else code == StringEscapeInvalid && forall i: nat :: !IsLetter(e, i)
    else if c == 0 then code == StringMissQuotationMark
    else if c < 0x20 then code == StringEscapeInvalid
    else
      && c != '"' as int && validate && code == StringInvalidEncoding
      && forall cp: nat :: Utf8.IsScalar(cp) ==> !At(t, p, Utf8.Encode(cp))
  }

  // ------------------------------------------------------------- One piece

  lemma RawRead(validate: bool, t: seq<Byte>, p: nat, out: seq<Byte>, s: seq<Byte>)
    requires RawAt(validate, t, p, s)
    ensures StringBody(validate, t, p, out) == StringBody(validate, t, p + |s|, out + s)
  {
    hide Utf8.Encode, Utf8.Length, Utf8.CodePoint;
    if validate {
      var cp: nat :| Utf8.IsScalar(cp) && s == Utf8.Encode(cp);
      Utf8.DecodeOfEncode(cp, t, p);
    }
    assert Slice(t, p, |s|) == s by {
      forall i | 0 <= i < |s|
        ensures Peek(t, p + i) == s[i]
      {
        AtPeek(t, p, s, i);
      }
    }
    if !validate {
      AtPeek(t, p, s, 0);
      assert s == [Peek(t, p)];
    }
  }

  lemma EscapeRead(validate: bool, t: seq<Byte>, p: nat, out: seq<Byte>, x: Piece)
    requires PieceAt(validate, t, p, x) && !x.Raw?
    ensures GoodPiece(x) && StringBody(validate, t, p, out) == StringBody(validate, t, p + PieceLength(x), out + PieceBytes(x))
  {
    hide Utf8.Encode, Hex4, HexAt, IsLetter;
    match x {
      case Letter(i) =>
        UnescapeIs(Peek(t, p + 1));
        LetterBound(Peek(t, p + 1), i);
      case Unit(h) =>
        UnescapeIs(LOWER_U);
        Hex4Is(t, p + 2, h);
        HexBound(t, p + 2, h);
      case Pair(high, low) =>
        Hex4Is(t, p + 2, high);
        Hex4Is(t, p + 8, low);
    }
  }

  lemma LetterBound(c: Byte, i: nat)
    ensures IsLetter(c, i) ==> i < 8 && c != LOWER_U
  {}

  lemma HexBound(t: seq<Byte>, p: nat, h: nat)
    ensures HexAt(t, p, h) ==> h < 0x10000
  {}

  /** A run of pieces is decoded, one after the other. */
  lemma {:induction false} PiecesRead(validate: bool, t: seq<Byte>, p: nat, out: seq<Byte>, xs: seq<Piece>, q: nat)
    requires Spelled(validate, t, p, xs, q)
    ensures StringBody(validate, t, p, out) == StringBody(validate, t, q, out + Decoded(xs))
    decreases xs
  {
    hide StringBody, PieceAt, PieceBytes;
    if xs == [] {
      assert out + [] == out;
    } else {
      PieceRead(validate, t, p, out, xs[0]);
      PiecesRead(validate, t, p + PieceLength(xs[0]), out + PieceBytes(xs[0]), xs[1..], q);
      assert out + PieceBytes(xs[0]) + Decoded(xs[1..]) == out + Decoded(xs);
    }
  }

  lemma PieceRead(validate: bool, t: seq<Byte>, p: nat, out: seq<Byte>, x: Piece)
    requires PieceAt(validate, t, p, x)
    ensures GoodPiece(x) && StringBody(validate, t, p, out) == StringBody(validate, t, p + PieceLength(x), out + PieceBytes(x))
  {
    hide StringBody, HexAt, IsLetter;
    if x.Raw? {
      RawRead(validate, t, p, out, x.s);
    } else {
      EscapeRead(validate, t, p, out, x);
    }
  }

  lemma FaultRead(validate: bool, t: seq<Byte>, p: nat, out: seq<Byte>, code: ErrorCode)
    requires FaultAt(validate, t, p, code)
    ensures StringBody(validate, t, p, out) == Bad(code, p)
  {
    hide Utf8.Encode, Utf8.Length, Utf8.CodePoint, Hex4, HexAt, IsLetter, IsHexDigit;
    if Peek(t, p) == BACKSLASH {
      UnescapeIs(Peek(t, p + 1));
      if Peek(t, p + 1) == LOWER_U {
        EscapeFault(t, p, code);
      }
    } else if Peek(t, p) >= 0x20 {
      if Utf8.Length(t, p) > 0 {
        Utf8.EncodeOfDecode(t, p);
      }
    }
  }

  lemma EscapeFault(t: seq<Byte>, p: nat, code: ErrorCode)
    requires Peek(t, p) == BACKSLASH && Peek(t, p + 1) == LOWER_U && FaultAt(true, t, p, code)
    ensures Unescape(LOWER_U).None? && UnicodeEscape(t, p + 2, p) == Bad(code, p)
  {
    hide Hex4, HexAt, IsLetter, IsHexDigit;
    Hex4Refused(t, p + 2);
    Hex4Refused(t, p + 8);
    if !HexMissing(t, p + 2) {
      var high: nat :| HexAt(t, p + 2, high) && 0xD800 <= high <= 0xDBFF;
      Hex4Is(t, p + 2, high);
      if Hex4(t, p + 8).Some? {
        Hex4Is(t, p + 8, Hex4(t, p + 8).value);
      }
    }
  }

  // -------------------------------------------------------------- Theorems

  /** At every place of a text stands a piece, the closing quote, or a fault. */
  lemma PieceOrFault(validate: bool, t: seq<Byte>, p: nat) returns (x: Piece, code: ErrorCode)
    ensures PieceAt(validate, t, p, x) || Peek(t, p) == '"' as int || FaultAt(validate, t, p, code)
  {
    hide Utf8.Encode, Utf8.Length, Utf8.CodePoint, Hex4, HexAt, IsHexDigit;
    x, code := Raw([]), StringEscapeInvalid;
    var c, e := Peek(t, p), Peek(t, p + 1);
    if c == BACKSLASH && e == LOWER_U {
      x, code := UnitOrFault(validate, t, p);
    } else if c == BACKSLASH {
      if i: nat :| IsLetter(e, i) {
        x := Letter(i);
      }
    } else if c == 0 {
      code := StringMissQuotationMark;
    } else if c >= 0x20 && c != QUOTE {
      code := StringInvalidEncoding;
      if !validate {
        x := Raw([c]);
        assert At(t, p, [c]);
      } else if cp: nat :| Utf8.IsScalar(cp) && At(t, p, Utf8.Encode(cp)) {
        x := Raw(Utf8.Encode(cp));
      }
    }
  }

  lemma UnitOrFault(validate: bool, t: seq<Byte>, p: nat) returns (x: Piece, code: ErrorCode)
    requires Peek(t, p) == BACKSLASH && Peek(t, p + 1) == LOWER_U
    ensures PieceAt(validate, t, p, x) || FaultAt(validate, t, p, code)
  {
    hide Hex4, HexAt, IsHexDigit;
    x, code := Raw([]), StringUnicodeEscapeInvalidHex;
    Hex4Refused(t, p + 2);
    Hex4Refused(t, p + 8);
    if Hex4(t, p + 2).Some? {
      var h := Hex4(t, p + 2).value;
      Hex4Is(t, p + 2, h);
      if !(0xD800 <= h <= 0xDBFF) {
        x := Unit(h);
      } else if Peek(t, p + 6) == BACKSLASH && Peek(t, p + 7) == LOWER_U && HexBetween(t, p + 8, 0xDC00, 0xDFFF) {
        var low: nat :| HexAt(t, p + 8, low) && 0xDC00 <= low <= 0xDFFF;
        x := Pair(h, low);
      } else if !(Peek(t, p + 6) == BACKSLASH && Peek(t, p + 7) == LOWER_U) || !HexMissing(t, p + 8) {
        code := StringUnicodeSurrogateInvalid;
      }
    }
  }

  /** Pieces up to a quote are a string, which decodes to what they decode to; a fault after pieces is reported where it is. */
  lemma SpelledReads(validate: bool, t: seq<Byte>, p: nat, xs: seq<Piece>, q: nat)
    requires Spelled(validate, t, p, xs, q)
    ensures Peek(t, q) == '"' as int ==> StringBody(validate, t, p, []) == Got(q + 1, Decoded(xs))
    ensures forall code :: FaultAt(validate, t, q, code) ==> StringBody(validate, t, p, []) == Bad(code, q)
  {
    hide PieceAt, FaultAt;
    PiecesRead(validate, t, p, [], xs, q);
    assert [] + Decoded(xs) == Decoded(xs);
    forall code | FaultAt(validate, t, q, code)
      ensures StringBody(validate, t, p, []) == Bad(code, q)
    {
      FaultRead(validate, t, q, Decoded(xs), code);
    }
  }

  /** From any place on there are pieces up to a quote or a fault, so every text falls in one of the two cases. */
  lemma {:induction false} PiecesExist(validate: bool, t: seq<Byte>, p: nat) returns (xs: seq<Piece>, q: nat)
    ensures Spelled(validate, t, p, xs, q)
    ensures Peek(t, q) == '"' as int || exists code :: FaultAt(validate, t, q, code)
    decreases |t| - p
  {
    hide PieceAt, FaultAt;
    var x, code := PieceOrFault(validate, t, p);
    if PieceAt(validate, t, p, x) {
      PieceIsGood(validate, t, p, x);
      var rest;
      rest, q := PiecesExist(validate, t, p + PieceLength(x));
      xs := [x] + rest;
    } else {
      xs, q := [], p;
    }
  }

  /** A string is accepted exactly when it is made of pieces up to its closing quote, and then it decodes to their bytes. */
  lemma StringIff(validate: bool, t: seq<Byte>, p: nat, e: nat, s: seq<Byte>)
    ensures StringBody(validate, t, p, []) == Got(e, s) <==>
            exists xs, q: nat :: Spelled(validate, t, p, xs, q) && Peek(t, q) == '"' as int && e == q + 1 && s == Decoded(xs)
  {
    hide Spelled, FaultAt, StringBody, Decoded;
    var xs, q := PiecesExist(validate, t, p);
    SpelledReads(validate, t, p, xs, q);
    forall xs, q: nat | Spelled(validate, t, p, xs, q) && Peek(t, q) == '"' as int
      ensures StringBody(validate, t, p, []) == Got(q + 1, Decoded(xs))
    {
      SpelledReads(validate, t, p, xs, q);
    }
  }

  // ---------------------------------------------------------------- Writing

  /** How the writer puts a byte: a letter escape if it has one but the solidus, an escape for other control characters. */
  predicate WrittenAs(c: Byte, x: seq<Byte>) {
    if exists i | 0 <= i < 8 && i != 2 :: c == STANDS[i]
    then exists i | 0 <= i < 8 && i != 2 :: c == STANDS[i] && x == ['\\' as int, LETTERS[i] as int]
    else if c < 0x20 then x == EscapeOf(c)
    else x == [c]
  }

  /** The escape of a 16-bit unit, with upper-case digits. */
  function EscapeOf(u: nat): seq<Byte>
    requires u < 0x10000
  {
    ['\\' as int, 'u' as int, HEX_UPPER[u / 0x1000] as int, HEX_UPPER[u / 0x100 % 16] as int,
     HEX_UPPER[u / 0x10 % 16] as int, HEX_UPPER[u % 16] as int]
  }

  /** How a code point is put for a target without Unicode. */
  predicate PointWrittenAs(cp: nat, x: seq<Byte>)
    requires Utf8.IsScalar(cp)
  {
    if cp < 0x80 then WrittenAs(cp, x)
    else if cp < 0x10000 then x == EscapeOf(cp)
    else x == EscapeOf(0xD800 + (cp - 0x10000) / 0x400) + EscapeOf(0xDC00 + (cp - 0x10000) % 0x400)
  }

  function Flat(xs: seq<seq<Byte>>): seq<Byte> {
    if xs == [] then [] else xs[0] + Flat(xs[1..])
  }

  lemma EscapeOfIs(u: nat)
    requires u < 0x10000
    ensures Printer.UnicodeEscape(u) == EscapeOf(u)
  {
    HexCharIs(u / 4096);
    HexCharIs(u / 256 % 16);
    HexCharIs(u / 16 % 16);
    HexCharIs(u % 16);
  }

  lemma HexCharIs(d: nat)
    requires d < 16
    ensures Printer.HexChar(d) == HEX_UPPER[d] as int
  {}

  lemma EscapeCharIs(c: Byte)
    ensures WrittenAs(c, Printer.EscapeChar(c))
  {
    EscapeOfIs(c);
    hide Printer.UnicodeEscape, EscapeOf;
    assert STANDS[0] == 34 && STANDS[1] == 92 && STANDS[3] == 8 && STANDS[4] == 12 && STANDS[5] == 10 && STANDS[6] == 13 && STANDS[7] == 9;
  }

  /** For a UTF-8 target each byte of a string is written by itself. */
  lemma {:induction false} BytesWritten(s: seq<Byte>, i: nat) returns (xs: seq<seq<Byte>>)
    requires i <= |s|
    ensures |xs| == |s| - i && forall k | 0 <= k < |xs| :: WrittenAs(s[i + k], xs[k])
    ensures Printer.Escape(false, s, i) == Some(Flat(xs))
    decreases |s| - i
  {
    hide WrittenAs, Printer.EscapeChar;
    if i == |s| {
      xs := [];
    } else {
      var rest := BytesWritten(s, i + 1);
      EscapeCharIs(s[i]);
      xs := [Printer.EscapeChar(s[i])] + rest;
      assert xs[1..] == rest;
    }
  }

  /** Each code point is written as it may be. */
  predicate PointsWrittenAs(cps: seq<nat>, xs: seq<seq<Byte>>)
    requires Utf8.AreScalars(cps)
  {
    |xs| == |cps| && forall k | 0 <= k < |xs| :: cps[k] in cps && PointWrittenAs(cps[k], xs[k])
  }

  lemma OneMorePoint(cps: seq<nat>, x: seq<Byte>, rest: seq<seq<Byte>>)
    requires Utf8.AreScalars(cps) && cps != [] && cps[0] in cps && PointWrittenAs(cps[0], x) && PointsWrittenAs(cps[1..], rest)
    ensures PointsWrittenAs(cps, [x] + rest) && Flat([x] + rest) == x + Flat(rest)
  {
    hide PointWrittenAs;
    assert ([x] + rest)[1..] == rest;
  }

  /** For an ASCII target each code point is, and only a UTF-8 string has them. */
  lemma {:induction false} PointsWritten(cps: seq<nat>, s: seq<Byte>, i: nat) returns (xs: seq<seq<Byte>>)
    requires Utf8.AreScalars(cps) && At(s, i, Utf8.EncodeAll(cps)) && i + |Utf8.EncodeAll(cps)| == |s|
    ensures PointsWrittenAs(cps, xs) && Printer.Escape(true, s, i) == Some(Flat(xs))
    decreases cps
  {
    if cps == [] {
      xs := [];
    } else {
      assert cps[0] in cps;
      AtSplit(s, i, Utf8.Encode(cps[0]), Utf8.EncodeAll(cps[1..]));
      xs := FirstWritten(cps, s, i);
    }
  }

  lemma {:induction false} FirstWritten(cps: seq<nat>, s: seq<Byte>, i: nat) returns (xs: seq<seq<Byte>>)
    requires Utf8.AreScalars(cps) && cps != [] && cps[0] in cps && At(s, i, Utf8.Encode(cps[0]))
    requires At(s, i + |Utf8.Encode(cps[0])|, Utf8.EncodeAll(cps[1..]))
    requires i + |Utf8.Encode(cps[0])| + |Utf8.EncodeAll(cps[1..])| == |s|
    ensures PointsWrittenAs(cps, xs) && Printer.Escape(true, s, i) == Some(Flat(xs))
    decreases cps, 0
  {
    hide Printer.Escape, PointsWrittenAs, PointWrittenAs, Flat, Utf8.EncodeAll, Utf8.Encode, At;
    var rest := PointsWritten(cps[1..], s, i + |Utf8.Encode(cps[0])|);
    var x := PointWritten(cps[0], s, i);
    OneMorePoint(cps, x, rest);
    xs := [x] + rest;
  }

  lemma PointWritten(cp: nat, s: seq<Byte>, i: nat) returns (x: seq<Byte>)
    requires Utf8.IsScalar(cp) && At(s, i, Utf8.Encode(cp))
    ensures PointWrittenAs(cp, x)
    ensures i + |Utf8.Encode(cp)| <= |s|
    ensures Printer.Escape(true, s, i + |Utf8.Encode(cp)|).Some? ==>
              Printer.Escape(true, s, i) == Some(x + Printer.Escape(true, s, i + |Utf8.Encode(cp)|).value)
  {
    hide WrittenAs, Printer.EscapeChar, EscapeOf, Utf8.Length, Utf8.CodePoint, Printer.UnicodeEscape;
    Utf8.DecodeOfEncode(cp, s, i);
    AtPeek(s, i, Utf8.Encode(cp), 0);
    if cp < 0x80 {
      EscapeCharIs(cp);
      x := Printer.EscapeChar(cp);
    } else {
      x := Printer.CodePointEscape(cp);
      if cp < 0x10000 {
        EscapeOfIs(cp);
      } else {
        EscapeOfIs(0xD800 + (cp - 0x10000) / 0x400);
        EscapeOfIs(0xDC00 + (cp - 0x10000) % 0x400);
      }
    }
  }
}
