/** The characters a JSON Pointer is written with: escapes, percent triplets and indices, from tables. */
module PointerGrammar {
  import opened Text
  import opened Pointers
  import Lexer
  import Printer
  import StringGrammar
  import Utf8

  // ---------------------------------------------------------------- Indices

  /** The names that write an index are the decimal numbers, each in its only spelling: digits, and no zero before others. */
  lemma WritesIndexIff(name: seq<Byte>)
    ensures WritesIndex(name) <==> Digits(name) && name == Printer.Decimal(Value(name))
    ensures !WritesIndex(name) ==> IndexOf(name) == INVALID_INDEX
  {
    if Digits(name) {
      if WritesIndex(name) {
        DecimalOf(name);
      } else if name != [] {
        NoZeroLeads(Value(name));
      }
    }
  }

  lemma {:induction false} DecimalOf(name: seq<Byte>)
    requires WritesIndex(name)
    ensures name == Printer.Decimal(Value(name))
    ensures |name| > 1 ==> Value(name) >= 10
    decreases name
  {
    var n := |name| - 1;
    var rest := name[..n];
    if n == 0 {
      assert rest == [] && name == [name[0]];
      assert Value(rest) == 0;
    } else {
      DecimalOf(rest);
      FirstDigit(rest);
      assert name == rest + [name[n]];
    }
  }

  /** A number in its only spelling is zero only as a single zero. */
  lemma {:induction false} FirstDigit(name: seq<Byte>)
    requires Digits(name) && name != [] && name[0] != DIGIT_0
    ensures Value(name) > 0
    decreases name
  {
    var n := |name| - 1;
    if n == 0 {
      assert name[..0] == [];
      assert Value(name[..0]) == 0;
    } else {
      FirstDigit(name[..n]);
    }
  }

  lemma {:induction false} NoZeroLeads(n: nat)
    ensures WritesIndex(Printer.Decimal(n))
    ensures n > 0 ==> Printer.Decimal(n)[0] != DIGIT_0
    decreases n
  {
    if n >= 10 {
      NoZeroLeads(n / 10);
    }
  }

  // --------------------------------------------------------------- Triplets

  const UPPER := "ABCDEFGHIJKLMNOPQRSTUVWXYZ"
  const LOWER := "abcdefghijklmnopqrstuvwxyz"
  const DIGITS := "0123456789"
  const MARKS := "-._~"

  predicate IsIn(c: Byte, s: string) {
    exists k | 0 <= k < |s| :: c == s[k] as int
  }

  /** A fragment writes the unreserved characters of section 2.3 of RFC 3986 as they are, and percent-encodes the others. */
  lemma NeedPercentIff(c: Byte)
    ensures NeedPercentEncode(c) <==> !IsIn(c, UPPER) && !IsIn(c, LOWER) && !IsIn(c, DIGITS) && !IsIn(c, MARKS)
  {
    Upper(c);
    Lower(c);
    Digit(c);
    Mark(c);
    hide IsIn;
  }

  lemma Upper(c: Byte)
    ensures IsIn(c, UPPER) <==> UPPER_A <= c <= UPPER_Z
  {
    if UPPER_A <= c <= UPPER_Z {
      assert c == UPPER[c - UPPER_A] as int;
    }
  }

  lemma Lower(c: Byte)
    ensures IsIn(c, LOWER) <==> LOWER_A <= c <= LOWER_Z
  {
    if LOWER_A <= c <= LOWER_Z {
      assert c == LOWER[c - LOWER_A] as int;
    }
  }

  lemma Digit(c: Byte)
    ensures IsIn(c, DIGITS) <==> IsDigit(c)
  {
    if IsDigit(c) {
      assert c == DIGITS[c - DIGIT_0] as int;
    }
  }

  lemma Mark(c: Byte)
    ensures IsIn(c, MARKS) <==> c == MINUS || c == DOT || c == UNDERSCORE || c == TILDE
  {
    assert MARKS[0] as int == MINUS && MARKS[1] as int == DOT && MARKS[2] as int == UNDERSCORE && MARKS[3] as int == TILDE;
  }

  /** A triplet is a percent sign and the two hexadecimal digits of its byte, in either case of letter. */
  lemma PercentByteIs(t: seq<Byte>, p: nat, b: Byte)
    ensures PercentByte(t, p) == Some(b) <==>
            && p + 3 <= |t| && t[p] == '%' as int
            && StringGrammar.IsHex(t[p + 1], b / 16) && StringGrammar.IsHex(t[p + 2], b % 16)
  {
    hide StringGrammar.IsHex, Lexer.HexDigit, StringGrammar.IsHexDigit;
    if p + 3 <= |t| {
      StringGrammar.HexDigitIs(t[p + 1]);
      StringGrammar.HexDigitIs(t[p + 2]);
      var x, y := Lexer.HexDigit(t[p + 1]), Lexer.HexDigit(t[p + 2]);
      if x.Some? && y.Some? {
        TwoDigits(x.value, y.value, b);
      }
    }
  }

  lemma TwoDigits(x: nat, y: nat, b: nat)
    requires x < 16 && y < 16
    ensures b == x * 16 + y <==> b / 16 == x && b % 16 == y
  {}

  // ------------------------------------------------------------------ Names

  /** How a character of a name is written: two escapes, and triplets in a fragment. */
  function Spelled(uri: bool, c: Byte): seq<Byte> {
    if c == '~' as int then ['~' as int, '0' as int]
    else if c == '/' as int then ['~' as int, '1' as int]
    else if uri && NeedPercentEncode(c) then
      ['%' as int, StringGrammar.HEX_UPPER[c / 16] as int, StringGrammar.HEX_UPPER[c % 16] as int]
    else [c]
  }

  function Spelling(uri: bool, name: seq<Byte>): seq<Byte> {
    if name == [] then [] else Spelled(uri, name[0]) + Spelling(uri, name[1..])
  }

  /** Each name after a solidus, and a number sign before them all in a fragment. */
  function PointerText(uri: bool, tokens: seq<Token>): seq<Byte> {
    (if uri then ['#' as int] else []) + TokensText(uri, tokens)
  }

  function TokensText(uri: bool, tokens: seq<Token>): seq<Byte> {
    if tokens == [] then [] else ['/' as int] + Spelling(uri, tokens[0].name) + TokensText(uri, tokens[1..])
  }

  lemma {:induction false} SpellingConcat(uri: bool, a: seq<Byte>, b: seq<Byte>)
    ensures Spelling(uri, a + b) == Spelling(uri, a) + Spelling(uri, b)
  {
    if a == [] {
      assert a + b == b;
    } else {
      assert (a + b)[0] == a[0] && (a + b)[1..] == a[1..] + b;
      SpellingConcat(uri, a[1..], b);
    }
  }

  predicate IsEncoded(c: Byte) {
    NeedPercentEncode(c) && c != SLASH
  }

  lemma {:induction false} TripletsSpelled(s: seq<Byte>)
    requires forall c | c in s :: IsEncoded(c)
    ensures PercentEncode(s) == Spelling(true, s)
  {
    if s != [] {
      assert IsEncoded(s[0]);
      StringGrammar.HexCharIs(s[0] / 16);
      StringGrammar.HexCharIs(s[0] % 16);
      TripletsSpelled(s[1..]);
    }
  }

  /** All the bytes of a character that is encoded are. */
  lemma Tails(name: seq<Byte>, j: nat)
    requires j < |name| && IsEncoded(name[j]) && Utf8.Length(name, j) > 0 && j + Utf8.Length(name, j) <= |name|
    ensures forall c | c in name[j..j + Utf8.Length(name, j)] :: IsEncoded(c)
  {
    var n := Utf8.Length(name, j);
    assert n > 1 ==> name[j + 1] >= 0x80;
    assert n > 2 ==> name[j + 2] >= 0x80;
    assert n > 3 ==> name[j + 3] >= 0x80;
    forall c | c in name[j..j + n]
      ensures IsEncoded(c)
    {
      var k :| j <= k < j + n && name[k] == c;
    }
  }

  /** One character that is encoded, and the rest. */
  lemma EncodedSpelled(name: seq<Byte>, j: nat) returns (n: nat)
    requires j < |name| && IsEncoded(name[j]) && name[j] != TILDE && WriteName(true, name, j).Some?
    ensures 0 < n && j + n <= |name| && WriteName(true, name, j + n).Some?
    ensures WriteName(true, name, j).value == Spelling(true, name[j..j + n]) + WriteName(true, name, j + n).value
  {
    hide PercentEncode, Utf8.Length, Utf8.CodePoint, Utf8.Encode, Spelling;
    n := Utf8.Length(name, j);
    Utf8.InBounds(name, j);
    Tails(name, j);
    TripletsSpelled(name[j..j + n]);
  }

  lemma OtherSpelled(uri: bool, name: seq<Byte>, j: nat)
    requires j < |name| && !(uri && IsEncoded(name[j]) && name[j] != TILDE) && WriteName(uri, name, j).Some?
    ensures WriteName(uri, name, j + 1).Some?
    ensures WriteName(uri, name, j).value == Spelling(uri, name[j..j + 1]) + WriteName(uri, name, j + 1).value
  {
    hide PercentEncode, Utf8.Length, Utf8.CodePoint, Utf8.Encode, NeedPercentEncode;
    assert name[j..j + 1] == [name[j]];
    assert Spelling(uri, [name[j]]) == Spelled(uri, name[j]);
  }

  lemma NothingSpelled(uri: bool, name: seq<Byte>)
    ensures WriteName(uri, name, |name|) == Some([]) && Spelling(uri, name[|name|..]) == []
  {}

  lemma {:induction false} NameSpelled(uri: bool, name: seq<Byte>, j: nat)
    requires j <= |name|
    ensures WriteName(uri, name, j).Some? ==> WriteName(uri, name, j).value == Spelling(uri, name[j..])
    decreases |name| - j
  {
    hide WriteName, Spelling, IsEncoded;
    if j == |name| {
      NothingSpelled(uri, name);
    } else if WriteName(uri, name, j).Some? {
      var n := 1;
      if uri && IsEncoded(name[j]) && name[j] != TILDE {
        n := EncodedSpelled(name, j);
      } else {
        OtherSpelled(uri, name, j);
      }
      NameSpelled(uri, name, j + n);
      SpellingSplit(uri, name, j, j + n);
    }
  }

  lemma SpellingSplit(uri: bool, name: seq<Byte>, j: nat, k: nat)
    requires j <= k <= |name|
    ensures Spelling(uri, name[j..]) == Spelling(uri, name[j..k]) + Spelling(uri, name[k..])
  {
    SpellingConcat(uri, name[j..k], name[k..]);
    assert name[j..] == name[j..k] + name[k..];
  }

  lemma {:induction false} TokensSpelled(uri: bool, tokens: seq<Token>)
    ensures WriteTokens(uri, tokens).Some? ==> WriteTokens(uri, tokens).value == TokensText(uri, tokens)
  {
    hide WriteName, Spelling;
    if tokens != [] {
      NameSpelled(uri, tokens[0].name, 0);
      assert tokens[0].name[0..] == tokens[0].name;
      TokensSpelled(uri, tokens[1..]);
    }
  }

  /** Whatever is written, in either form, is the names spelled after solidi. */
  lemma PointerSpelled(uri: bool, tokens: seq<Token>)
    ensures Stringify(uri, tokens).Some? ==> Stringify(uri, tokens).value == PointerText(uri, tokens)
  {
    TokensSpelled(uri, tokens);
  }

  /** A string form is read as certain tokens exactly when it is those names spelled, and the tokens carry their indices. */
  lemma StringFormIff(t: seq<Byte>, tokens: seq<Token>)
    requires Peek(t, 0) != HASH
    ensures ParsePointer(t) == Done(|t|, tokens) <==>
            t == PointerText(false, tokens) && forall k | 0 <= k < |tokens| :: tokens[k].index == IndexOf(tokens[k].name)
  {
    hide ReadTokens, WriteTokens, IndexOf, TokensText;
    StringFormInverse(t);
    StringifyFails(false, tokens);
    StringifyParses(false, tokens);
    PointerSpelled(false, tokens);
    if ParsePointer(t) == Done(|t|, tokens) {
      assert Reindexed([]) == [];
      TokensIndexed(false, t, 0, []);
      forall k | 0 <= k < |tokens|
        ensures tokens[k].index == IndexOf(tokens[k].name)
      {
        assert tokens[k] == Reindexed(tokens)[k];
      }
    }
    if t == PointerText(false, tokens) && forall k | 0 <= k < |tokens| :: tokens[k].index == IndexOf(tokens[k].name) {
      assert Reindexed(tokens) == tokens;
    }
  }

  // --------------------------------------------------------------- Refusals

  predicate IsZeroOrOne(t: seq<Byte>, o: nat) {
    o < |t| && (t[o] == '0' as int || t[o] == '1' as int)
  }

  /** A tilde, as it is or as a triplet of a fragment, ends at `o`. */
  predicate TildeBefore(uri: bool, t: seq<Byte>, o: nat) {
    || (0 < o <= |t| && t[o - 1] == '~' as int)
    || (uri && 3 <= o <= |t| && PercentByte(t, o - 3) == Some('~' as int))
  }

  /** What is wrong at `o` when reading stops there with this error. */
  predicate FaultAt(uri: bool, t: seq<Byte>, o: nat, code: PointerError) {
    match code
    case InvalidEscape => TildeBefore(uri, t, o) && !IsZeroOrOne(t, o)
    case InvalidPercentEncoding => uri && o < |t| && t[o] == '%' as int && PercentChar(t, o).None?
    case CharacterMustPercentEncode => uri && o < |t| && t[o] != '%' as int && NeedPercentEncode(t[o])
    case TokenMustBeginWithSolidus => false
  }

  lemma CharFault(uri: bool, t: seq<Byte>, i: nat)
    requires i < |t|
    ensures match ReadChar(uri, t, i) case Done(_, _) => true case Failed(code, o) => FaultAt(uri, t, o, code)
  {
    hide Utf8.Length;
    if uri && t[i] == PERCENT && PercentChar(t, i).Some? && |PercentChar(t, i).value| == 1 {
      assert PercentChar(t, i).value[0] == ByteOrZero(t, i);
    }
  }

  lemma {:induction false} NameFault(uri: bool, t: seq<Byte>, i: nat, name: seq<Byte>)
    requires i <= |t|
    ensures match ReadName(uri, t, i, name) case Done(_, _) => true case Failed(code, o) => FaultAt(uri, t, o, code)
    decreases |t| - i
  {
    hide ReadChar, FaultAt;
    if i < |t| && t[i] != SLASH {
      CharFault(uri, t, i);
      var r := ReadChar(uri, t, i);
      if r.Done? {
        NameFault(uri, t, r.next, name + r.value);
      }
    }
  }

  lemma {:induction false} TokensFault(uri: bool, t: seq<Byte>, i: nat, tokens: seq<Token>)
    requires i <= |t| && (i < |t| ==> t[i] == SLASH)
    ensures match ReadTokens(uri, t, i, tokens) case Done(_, _) => true case Failed(code, o) => FaultAt(uri, t, o, code)
    decreases |t| - i
  {
    hide ReadName, FaultAt, IndexOf;
    if i < |t| {
      NameFault(uri, t, i + 1, []);
      var r := ReadName(uri, t, i + 1, []);
      if r.Done? {
        TokensFault(uri, t, r.next, tokens + [Token(r.value, IndexOf(r.value))]);
      }
    }
  }

  /** Every refusal names what is wrong where reading stopped. */
  lemma RefusalIs(t: seq<Byte>)
    ensures
      var uri := Peek(t, 0) == '#' as int;
      var start := if uri then 1 else 0;
      match ParsePointer(t)
      case Done(_, _) => start < |t| ==> t[start] == '/' as int
      case Failed(code, o) =>
        if start < |t| && t[start] != '/' as int then code == TokenMustBeginWithSolidus && o == start
        else FaultAt(uri, t, o, code)
  {
    hide ReadTokens, FaultAt;
    var uri := Peek(t, 0) == HASH;
    var start := if uri then 1 else 0;
    if !(start < |t| && t[start] != SLASH) {
      TokensFault(uri, t, start, []);
    }
  }
}
