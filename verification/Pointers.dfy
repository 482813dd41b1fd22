/**
 JSON Pointer, RFC 6901: the string and the URI fragment representation, read into tokens and written
 back.
 */
module Pointers {
  import opened Text
  import opened Printer
  import Lexer
  import Utf8

  /** A name, and the array index it writes or INVALID_INDEX. */
  datatype Token = Token(name: seq<Byte>, index: nat)

  const INVALID_INDEX: nat := 0xFFFF_FFFF
  const TWO_32: nat := 0x1_0000_0000

  datatype PointerError = TokenMustBeginWithSolidus | InvalidEscape | InvalidPercentEncoding | CharacterMustPercentEncode

  /** What was read and where reading stopped, or an error and its place. */
  datatype Read<+T> = Done(next: nat, value: T) | Failed(code: PointerError, offset: nat)

  // ------------------------------------------------------------------ Indices

  predicate Digits(name: seq<Byte>) {
    forall i | 0 <= i < |name| :: IsDigit(name[i])
  }

  function Value(name: seq<Byte>): (n: nat)
    requires Digits(name)
  {
    if name == [] then 0 else Value(name[..|name| - 1]) * 10 + (name[|name| - 1] - DIGIT_0)
  }

  predicate WritesIndex(name: seq<Byte>) {
    name != [] && Digits(name) && (|name| > 1 ==> name[0] != DIGIT_0)
  }

  /** The index in 32 bits of the digits from `i` on; None when a step comes out smaller than the one before. */
  function Accumulate(name: seq<Byte>, i: nat, n: nat): Option<nat>
    requires i <= |name| && Digits(name)
    decreases |name| - i
  {
    if i == |name| then Some(n)
    else
      var m := (n * 10 + (name[i] - DIGIT_0)) % TWO_32;
      if m < n then None else Accumulate(name, i + 1, m)
  }

  function IndexOf(name: seq<Byte>): nat {
    if !WritesIndex(name) then INVALID_INDEX
    else
      match Accumulate(name, 0, 0)
      case None => INVALID_INDEX
      case Some(n) => n
  }

  /** Some digit makes the 32-bit number smaller: the only overflow that is noticed. */
  predicate Noticed(name: seq<Byte>)
    requires Digits(name)
  {
    exists k | 0 <= k < |name| :: Shrinks(name, k)
  }

  predicate Shrinks(name: seq<Byte>, k: nat)
    requires k < |name| && Digits(name)
  {
    Value(name[..k + 1]) % TWO_32 < Value(name[..k]) % TWO_32
  }

  lemma ValueNext(name: seq<Byte>, k: nat)
    requires k < |name| && Digits(name)
    ensures Value(name[..k + 1]) == Value(name[..k]) * 10 + (name[k] - DIGIT_0)
    ensures Value(name[..k + 1]) % TWO_32 == (Value(name[..k]) % TWO_32 * 10 + (name[k] - DIGIT_0)) % TWO_32
  {
    assert name[..k + 1][..k] == name[..k];
    StepModulo(Value(name[..k]), name[k] - DIGIT_0);
  }

  lemma StepModulo(v: nat, d: nat)
    ensures (v * 10 + d) % TWO_32 == (v % TWO_32 * 10 + d) % TWO_32
  {
    var q, r := v / TWO_32, v % TWO_32;
    WholeTurns(q * 10, r * 10 + d);
  }

  lemma WholeTurns(q: nat, x: nat)
    ensures (q * TWO_32 + x) % TWO_32 == x % TWO_32
  {}

  lemma {:induction false} AccumulateIs(name: seq<Byte>, i: nat)
    requires i <= |name| && Digits(name)
    ensures Accumulate(name, i, Value(name[..i]) % TWO_32) ==
            if exists k | i <= k < |name| :: Shrinks(name, k) then None else Some(Value(name) % TWO_32)
    decreases |name| - i
  {
    if i == |name| {
      assert name[..i] == name;
    } else {
      ValueNext(name, i);
      var n, m := Value(name[..i]) % TWO_32, Value(name[..i + 1]) % TWO_32;
      assert Shrinks(name, i) <==> m < n;
      AccumulateIs(name, i + 1);
      hide Value, Shrinks;
      AccumulateStep(name, i, n, m);
    }
  }

  lemma AccumulateStep(name: seq<Byte>, i: nat, n: nat, m: nat)
    requires i < |name| && Digits(name) && m == (n * 10 + (name[i] - DIGIT_0)) % TWO_32
    ensures Accumulate(name, i, n) == if m < n then None else Accumulate(name, i + 1, m)
  {}

  lemma {:induction false} SmallNeverShrinks(name: seq<Byte>, k: nat)
    requires k < |name| && Digits(name) && Value(name) < TWO_32
    ensures !Shrinks(name, k)
  {
    PrefixValue(name, k + 1);
    ValueNext(name, k);
  }

  lemma {:induction false} PrefixValue(name: seq<Byte>, k: nat)
    requires k <= |name| && Digits(name)
    ensures Value(name[..k]) <= Value(name)
    decreases |name| - k
  {
    if k == |name| {
      assert name[..k] == name;
    } else {
      PrefixValue(name, k + 1);
      ValueNext(name, k);
    }
  }

  /**
   The index of a number is its value or, beyond 32 bits, invalid, exactly when the value fits 32 bits, or some
   digit makes the 32-bit number smaller, or the wrapped value is the invalid index by chance. Other overflows
   go unnoticed.
   */
  lemma IndexIsValue(name: seq<Byte>)
    requires WritesIndex(name)
    ensures Value(name) < TWO_32 || Noticed(name) || Value(name) % TWO_32 == INVALID_INDEX <==>
            IndexOf(name) == if Value(name) < TWO_32 then Value(name) else INVALID_INDEX
  {
    assert name[..0] == [];
    AccumulateIs(name, 0);
    if Value(name) < TWO_32 {
      forall k | 0 <= k < |name| ensures !Shrinks(name, k) {
        SmallNeverShrinks(name, k);
      }
    }
  }

  lemma IndexBounded(name: seq<Byte>)
    ensures IndexOf(name) < TWO_32
  {
    hide Accumulate, Value;
    if WritesIndex(name) {
      assert name[..0] == [];
      EmptyValue();
      AccumulateIs(name, 0);
    }
  }

  lemma EmptyValue()
    ensures Digits([]) && Value([]) == 0
  {}

  /** The digit 1 and `n` zeros. */
  function PowerOfTen(n: nat): (name: seq<Byte>)
    ensures |name| == n + 1 && name[0] == DIGIT_1 && (forall i | 0 < i <= n :: name[i] == DIGIT_0) && Digits(name)
  {
    seq<Byte>(n + 1, i => if i == 0 then DIGIT_1 else DIGIT_0)
  }

  function Ten(n: nat): (p: nat)
    ensures p > 0
  {
    if n == 0 then 1 else Ten(n - 1) * 10
  }

  lemma {:induction false} PowerPrefix(n: nat, k: nat)
    requires k <= n
    ensures PowerOfTen(n)[..k + 1] == PowerOfTen(k) && Value(PowerOfTen(k)) == Ten(k)
    decreases k
  {
    var name := PowerOfTen(k);
    assert PowerOfTen(n)[..k + 1] == name;
    if k == 0 {
      assert name[..0] == [] && Value([]) == 0;
    } else {
      PowerPrefix(k, k - 1);
      assert name[..|name| - 1] == PowerOfTen(k - 1);
    }
  }

  /** The number 10000000000 is beyond 32 bits and is read as an index it is not. */
  lemma UnnoticedOverflow()
    ensures WritesIndex(PowerOfTen(10)) && Value(PowerOfTen(10)) == 10_000_000_000
    ensures !Noticed(PowerOfTen(10)) && IndexOf(PowerOfTen(10)) == 1_410_065_408
  {
    hide PowerOfTen, Accumulate;
    PowerPrefix(10, 10);
    var name := PowerOfTen(10);
    assert Ten(10) == 10_000_000_000;
    assert name[..0] == [];
    AccumulateIs(name, 0);
    forall k | 0 <= k < 11 ensures !Shrinks(name, k) {
      PowerNeverShrinks(k);
    }
    hide Value;
  }

  lemma PowerNeverShrinks(k: nat)
    requires k < 11
    ensures !Shrinks(PowerOfTen(10), k)
  {
    hide PowerOfTen;
    PowerPrefix(10, k);
    if k == 0 {
      assert PowerOfTen(10)[..0] == [];
    } else {
      PowerPrefix(10, k - 1);
      hide Value;
      if k < 10 {
        TenSmall(k);
      } else {
        assert Ten(9) == 1_000_000_000;
      }
    }
  }

  lemma {:induction false} TenSmall(k: nat)
    requires k < 10
    ensures Ten(k) <= 1_000_000_000
    decreases 10 - k
  {
    if k < 9 {
      TenSmall(k + 1);
    } else {
      assert Ten(9) == 1_000_000_000;
    }
  }

  // ----------------------------------------------------------------- Reading

  /** Characters that must be percent-encoded in a URI fragment. */
  predicate NeedPercentEncode(c: Byte) {
    !(IsDigit(c) || UPPER_A <= c <= UPPER_Z || LOWER_A <= c <= LOWER_Z || c == MINUS || c == DOT || c == UNDERSCORE || c == TILDE)
  }

  /** The byte of a `%XY` triplet at `p`. */
  function PercentByte(t: seq<Byte>, p: nat): (b: Option<Byte>)
    ensures b.Some? ==> p + 3 <= |t|
  {
    if p + 3 > |t| || t[p] != PERCENT || Lexer.HexDigit(t[p + 1]).None? || Lexer.HexDigit(t[p + 2]).None? then None
    else Some(Lexer.HexDigit(t[p + 1]).value * 16 + Lexer.HexDigit(t[p + 2]).value)
  }

  /** A triplet's byte, or the zero read in place of a bad one. */
  function ByteOrZero(t: seq<Byte>, p: nat): Byte {
    match PercentByte(t, p)
    case None => NUL
    case Some(b) => b
  }

  function Quad(t: seq<Byte>, p: nat): (s: seq<Byte>)
    ensures |s| == 4
  {
    [ByteOrZero(t, p), ByteOrZero(t, p + 3), ByteOrZero(t, p + 6), ByteOrZero(t, p + 9)]
  }

  /** The bytes of one UTF-8 character written in triplets from `p` on. */
  function PercentChar(t: seq<Byte>, p: nat): (r: Option<seq<Byte>>)
    ensures r.Some? ==> 1 <= |r.value| <= 4 && p + 3 * |r.value| <= |t|
  {
    var n := Utf8.Length(Quad(t, p), 0);
    if PercentByte(t, p).None? || n == 0 then None
    else
      TripletsThere(t, p);
      Some(Quad(t, p)[..n])
  }

  /** A well-formed character has no zero in its later bytes: all its triplets are good. */
  lemma TripletsThere(t: seq<Byte>, p: nat)
    requires PercentByte(t, p).Some? && Utf8.Length(Quad(t, p), 0) > 0
    ensures forall k | 0 <= k < Utf8.Length(Quad(t, p), 0) :: PercentByte(t, p + 3 * k).Some?
    ensures p + 3 * Utf8.Length(Quad(t, p), 0) <= |t|
  {
    hide PercentByte;
    var q, n := Quad(t, p), Utf8.Length(Quad(t, p), 0);
    assert Peek(q, 1) == q[1] && Peek(q, 2) == q[2] && Peek(q, 3) == q[3];
    assert n > 1 ==> q[1] != NUL;
    assert n > 2 ==> q[2] != NUL;
    assert n > 3 ==> q[3] != NUL;
  }

  /** `c`, or the character of the escape it starts; `i` is the place after it. */
  function Unescape(t: seq<Byte>, c: Byte, i: nat): Read<seq<Byte>> {
    if c != TILDE then Done(i, [c])
    else if i < |t| && t[i] == DIGIT_0 then Done(i + 1, [TILDE])
    else if i < |t| && t[i] == DIGIT_1 then Done(i + 1, [SLASH])
    else Failed(InvalidEscape, i)
  }

  /** One character of a name: its bytes. */
  function ReadChar(uri: bool, t: seq<Byte>, i: nat): (r: Read<seq<Byte>>)
    requires i < |t|
    ensures r.Done? ==> i < r.next <= |t| && 1 <= |r.value| <= r.next - i
  {
    if uri && t[i] == PERCENT then
      match PercentChar(t, i)
      case None => Failed(InvalidPercentEncoding, i)
      case Some(bytes) => if |bytes| == 1 then Unescape(t, bytes[0], i + 3) else Done(i + 3 * |bytes|, bytes)
    else if uri && NeedPercentEncode(t[i]) then Failed(CharacterMustPercentEncode, i)
    else Unescape(t, t[i], i + 1)
  }

  /** The rest of a name, up to a solidus or the end. */
  function ReadName(uri: bool, t: seq<Byte>, i: nat, name: seq<Byte>): (r: Read<seq<Byte>>)
    requires i <= |t|
    ensures r.Done? ==> i <= r.next <= |t| && (r.next < |t| ==> t[r.next] == SLASH)
    ensures r.Done? ==> |name| <= |r.value| <= |name| + (r.next - i)
    decreases |t| - i
  {
    if i == |t| || t[i] == SLASH then Done(i, name)
    else
      match ReadChar(uri, t, i)
      case Failed(code, offset) => Failed(code, offset)
      case Done(next, bytes) => ReadName(uri, t, next, name + bytes)
  }

  /** Tokens, each after a solidus. */
  function ReadTokens(uri: bool, t: seq<Byte>, i: nat, tokens: seq<Token>): Read<seq<Token>>
    requires i <= |t| && (i < |t| ==> t[i] == SLASH)
    decreases |t| - i
  {
    if i == |t| then Done(i, tokens)
    else
      match ReadName(uri, t, i + 1, [])
      case Failed(code, offset) => Failed(code, offset)
      case Done(next, name) => ReadTokens(uri, t, next, tokens + [Token(name, IndexOf(name))])
  }

  function ParsePointer(t: seq<Byte>): Read<seq<Token>> {
    var uri := Peek(t, 0) == HASH;
    var i := if uri then 1 else 0;
    if i < |t| && t[i] != SLASH then Failed(TokenMustBeginWithSolidus, i) else ReadTokens(uri, t, i, [])
  }

  // ----------------------------------------------------------------- Writing

  function PercentEncode(s: seq<Byte>): (r: seq<Byte>)
    ensures |r| == 3 * |s|
  {
    if s == [] then [] else [PERCENT, HexChar(s[0] / 16), HexChar(s[0] % 16)] + PercentEncode(s[1..])
  }

  /** A name from `j` on; None when a character to be encoded is not UTF-8. */
  function WriteName(uri: bool, name: seq<Byte>, j: nat): Option<seq<Byte>>
    requires j <= |name|
    decreases |name| - j
  {
    if j == |name| then Some([])
    else if name[j] == TILDE then Prepend([TILDE, DIGIT_0], WriteName(uri, name, j + 1))
    else if name[j] == SLASH then Prepend([TILDE, DIGIT_1], WriteName(uri, name, j + 1))
    else if uri && NeedPercentEncode(name[j]) then
      var n := Utf8.Length(name, j);
      if n == 0 then None
      else
        Utf8.EncodeOfDecode(name, j);
        Prepend(PercentEncode(name[j..j + n]), WriteName(uri, name, j + n))
    else Prepend([name[j]], WriteName(uri, name, j + 1))
  }

  function Prepend(s: seq<Byte>, rest: Option<seq<Byte>>): Option<seq<Byte>> {
    match rest
    case None => None
    case Some(r) => Some(s + r)
  }

  function WriteTokens(uri: bool, tokens: seq<Token>): Option<seq<Byte>> {
    if tokens == [] then Some([])
    else
      match WriteName(uri, tokens[0].name, 0)
      case None => None
      case Some(name) => Prepend([SLASH] + name, WriteTokens(uri, tokens[1..]))
  }

  function Stringify(uri: bool, tokens: seq<Token>): Option<seq<Byte>> {
    if uri then Prepend([HASH], WriteTokens(uri, tokens)) else WriteTokens(uri, tokens)
  }

  /** The string form can always be written, the fragment form exactly when every name is UTF-8. */
  lemma {:induction false} WriteNameFails(uri: bool, name: seq<Byte>, j: nat)
    requires j <= |name|
    ensures WriteName(uri, name, j).Some? <==> !uri || Utf8.ValidFrom(name, j)
    decreases |name| - j
  {
    if j < |name| {
      if name[j] < 0x80 {
        assert Utf8.Length(name, j) == 1;
        WriteNameFails(uri, name, j + 1);
      } else if !uri {
        WriteNameFails(uri, name, j + 1);
      } else if Utf8.Length(name, j) > 0 {
        Utf8.EncodeOfDecode(name, j);
        WriteNameFails(uri, name, j + Utf8.Length(name, j));
      }
    }
  }

  lemma {:induction false} StringifyFails(uri: bool, tokens: seq<Token>)
    ensures Stringify(uri, tokens).Some? <==> !uri || forall k | 0 <= k < |tokens| :: Utf8.Valid(tokens[k].name)
  {
    WriteTokensFails(uri, tokens);
  }

  lemma {:induction false} WriteTokensFails(uri: bool, tokens: seq<Token>)
    ensures WriteTokens(uri, tokens).Some? <==> !uri || forall k | 0 <= k < |tokens| :: Utf8.Valid(tokens[k].name)
  {
    hide WriteName, Utf8.ValidFrom;
    if tokens != [] {
      WriteNameFails(uri, tokens[0].name, 0);
      WriteTokensFails(uri, tokens[1..]);
    }
  }

  // -------------------------------------------------------------- Round trips

  lemma PercentReads(t: seq<Byte>, p: nat, c: Byte)
    requires At(t, p, [PERCENT, HexChar(c / 16), HexChar(c % 16)])
    ensures PercentByte(t, p) == Some(c)
  {
    var s := [PERCENT, HexChar(c / 16), HexChar(c % 16)];
    AtPeek(t, p, s, 0);
    AtPeek(t, p, s, 1);
    AtPeek(t, p, s, 2);
    assert Lexer.HexDigit(HexChar(c / 16)) == Some(c / 16) && Lexer.HexDigit(HexChar(c % 16)) == Some(c % 16);
  }

  lemma {:induction false} PercentEncodedReads(t: seq<Byte>, p: nat, s: seq<Byte>, k: nat)
    requires At(t, p, PercentEncode(s)) && k < |s|
    ensures PercentByte(t, p + 3 * k) == Some(s[k])
    decreases k
  {
    hide PercentByte;
    var first := [PERCENT, HexChar(s[0] / 16), HexChar(s[0] % 16)];
    AtSplit(t, p, first, PercentEncode(s[1..]));
    if k == 0 {
      PercentReads(t, p, s[0]);
    } else {
      PercentEncodedReads(t, p + 3, s[1..], k - 1);
    }
  }

  /** A character written in triplets is read back. */
  lemma CharReads(t: seq<Byte>, p: nat, name: seq<Byte>, j: nat)
    requires j < |name| && Utf8.Length(name, j) > 0 && j + Utf8.Length(name, j) <= |name|
    requires At(t, p, PercentEncode(name[j..j + Utf8.Length(name, j)]))
    ensures PercentChar(t, p) == Some(name[j..j + Utf8.Length(name, j)])
  {
    hide PercentByte, PercentEncode;
    var n := Utf8.Length(name, j);
    var s, q := name[j..j + n], Quad(t, p);
    forall k | 0 <= k < n ensures PercentByte(t, p + 3 * k) == Some(name[j + k]) {
      PercentEncodedReads(t, p, s, k);
    }
    assert PercentByte(t, p + 3 * 0) == Some(name[j]);
    assert n > 1 ==> PercentByte(t, p + 3 * 1) == Some(name[j + 1]);
    assert n > 2 ==> PercentByte(t, p + 3 * 2) == Some(name[j + 2]);
    assert n > 3 ==> PercentByte(t, p + 3 * 3) == Some(name[j + 3]);
    assert q[0] == name[j] && (n > 1 ==> q[1] == name[j + 1]) && (n > 2 ==> q[2] == name[j + 2]) && (n > 3 ==> q[3] == name[j + 3]);
    SameLength(name, j, q);
    assert q[..n] == s;
  }

  /** How long a character is depends on its own bytes only. */
  lemma SameLength(s: seq<Byte>, j: nat, q: seq<Byte>)
    requires j + Utf8.Length(s, j) <= |s| && 0 < Utf8.Length(s, j) <= |q|
    requires forall k | 0 <= k < Utf8.Length(s, j) :: q[k] == s[j + k]
    ensures Utf8.Length(q, 0) == Utf8.Length(s, j)
  {
    var n := Utf8.Length(s, j);
    assert q[0] == s[j + 0];
    assert n > 1 ==> q[1] == s[j + 1];
    assert n > 2 ==> q[2] == s[j + 2];
    assert n > 3 ==> q[3] == s[j + 3];
  }

  predicate EndsName(t: seq<Byte>, e: nat) {
    e == |t| || (e < |t| && t[e] == SLASH)
  }

  /** One character of a name and the text it is written as. */
  lemma WrittenChar(uri: bool, t: seq<Byte>, p: nat, name: seq<Byte>, j: nat) returns (text: seq<Byte>, n: nat)
    requires j < |name| && WriteName(uri, name, j).Some? && At(t, p, WriteName(uri, name, j).value)
    ensures 1 <= n && j + n <= |name| && WriteName(uri, name, j + n).Some?
    ensures WriteName(uri, name, j).value == text + WriteName(uri, name, j + n).value
    ensures p < |t| && t[p] != SLASH && ReadChar(uri, t, p) == Done(p + |text|, name[j..j + n])
  {
    hide At, Utf8.Length, PercentEncode, PercentChar;
    var c := name[j];
    if c == TILDE || c == SLASH {
      n, text := 1, if c == TILDE then [TILDE, DIGIT_0] else [TILDE, DIGIT_1];
      AtSplit(t, p, text, WriteName(uri, name, j + 1).value);
      AtPeek(t, p, text, 0);
      AtPeek(t, p, text, 1);
      assert name[j..j + 1] == [c];
    } else if uri && NeedPercentEncode(c) {
      n := Utf8.Length(name, j);
      Utf8.EncodeOfDecode(name, j);
      Utf8.InBounds(name, j);
      text := PercentEncode(name[j..j + n]);
      AtSplit(t, p, text, WriteName(uri, name, j + n).value);
      PercentHead(name[j..j + n]);
      AtPeek(t, p, text, 0);
      CharReads(t, p, name, j);
      assert name[j..j + n][0] == c;
      assert n == 1 ==> name[j..j + n] == [c];
    } else {
      n, text := 1, [c];
      AtSplit(t, p, text, WriteName(uri, name, j + 1).value);
      AtPeek(t, p, text, 0);
      assert name[j..j + 1] == [c];
    }
  }

  lemma PercentHead(s: seq<Byte>)
    requires s != []
    ensures PercentEncode(s)[0] == PERCENT
  {}

  lemma ReadNameStep(uri: bool, t: seq<Byte>, p: nat, done: seq<Byte>, next: nat, bytes: seq<Byte>)
    requires p < |t| && t[p] != SLASH && ReadChar(uri, t, p) == Done(next, bytes)
    ensures ReadName(uri, t, p, done) == ReadName(uri, t, next, done + bytes)
  {}

  lemma NameEnds(uri: bool, t: seq<Byte>, p: nat, name: seq<Byte>, done: seq<Byte>)
    ensures WriteName(uri, name, |name|) == Some([])
    ensures EndsName(t, p) ==> ReadName(uri, t, p, done) == Done(p, done)
  {}

  lemma {:induction false} NameReads(uri: bool, t: seq<Byte>, p: nat, name: seq<Byte>, j: nat, done: seq<Byte>)
    requires j <= |name| && WriteName(uri, name, j).Some? && At(t, p, WriteName(uri, name, j).value)
    requires EndsName(t, p + |WriteName(uri, name, j).value|)
    ensures ReadName(uri, t, p, done) == Done(p + |WriteName(uri, name, j).value|, done + name[j..])
    decreases |name| - j
  {
    hide ReadChar, WriteName, ReadName, At, EndsName;
    if j == |name| {
      NameEnds(uri, t, p, name, done);
      assert done + name[j..] == done;
    } else {
      var text, n := WrittenChar(uri, t, p, name, j);
      var rest := WriteName(uri, name, j + n).value;
      ReadNameStep(uri, t, p, done, p + |text|, name[j..j + n]);
      AtSplit(t, p, text, rest);
      assert p + |text + rest| == p + |text| + |rest|;
      NameReads(uri, t, p + |text|, name, j + n, done + name[j..j + n]);
      assert name[j..j + n] + name[j + n..] == name[j..];
      assert done + name[j..j + n] + name[j + n..] == done + (name[j..j + n] + name[j + n..]);
    }
  }

  /** The tokens with the indices their names write. */
  function Reindexed(tokens: seq<Token>): (r: seq<Token>)
    ensures |r| == |tokens| && forall k | 0 <= k < |r| :: r[k] == Token(tokens[k].name, IndexOf(tokens[k].name))
  {
    seq(|tokens|, k requires 0 <= k < |tokens| => Token(tokens[k].name, IndexOf(tokens[k].name)))
  }

  lemma {:induction false} TokensRead(uri: bool, t: seq<Byte>, p: nat, tokens: seq<Token>, done: seq<Token>)
    requires WriteTokens(uri, tokens).Some? && At(t, p, WriteTokens(uri, tokens).value)
    requires p + |WriteTokens(uri, tokens).value| == |t|
    ensures p < |t| ==> t[p] == SLASH
    ensures ReadTokens(uri, t, p, done) == Done(|t|, done + Reindexed(tokens))
    decreases tokens
  {
    hide WriteName, ReadName, IndexOf;
    if tokens == [] {
      assert done + Reindexed(tokens) == done;
    } else {
      var name, rest := WriteName(uri, tokens[0].name, 0).value, WriteTokens(uri, tokens[1..]).value;
      AtSplit(t, p, [SLASH] + name, rest);
      AtSplit(t, p, [SLASH], name);
      AtPeek(t, p, [SLASH], 0);
      var next := p + 1 + |name|;
      var more := done + [Token(tokens[0].name, IndexOf(tokens[0].name))];
      TokensRead(uri, t, next, tokens[1..], more);
      NameReads(uri, t, p + 1, tokens[0].name, 0, []);
      assert [] + tokens[0].name[0..] == tokens[0].name;
      assert more + Reindexed(tokens[1..]) == done + Reindexed(tokens);
    }
  }

  /** Whatever is written, in either form, reads back as the same names. */
  lemma StringifyParses(uri: bool, tokens: seq<Token>)
    ensures match Stringify(uri, tokens)
            case None => true
            case Some(t) => ParsePointer(t) == Done(|t|, Reindexed(tokens))
  {
    hide WriteName, ReadTokens, Reindexed;
    if Stringify(uri, tokens).Some? {
      var t := Stringify(uri, tokens).value;
      var body := WriteTokens(uri, tokens).value;
      var start := if uri then 1 else 0;
      assert t[start..] == body;
      assert At(t, start, body);
      TokensRead(uri, t, start, tokens, []);
      assert [] + Reindexed(tokens) == Reindexed(tokens);
    }
  }

  /** Every token that is read carries the index its name writes. */
  lemma {:induction false} TokensIndexed(uri: bool, t: seq<Byte>, i: nat, tokens: seq<Token>)
    requires i <= |t| && (i < |t| ==> t[i] == SLASH) && Reindexed(tokens) == tokens
    ensures var r := ReadTokens(uri, t, i, tokens); r.Done? ==> Reindexed(r.value) == r.value
    decreases |t| - i
  {
    hide ReadName, IndexOf;
    if i < |t| {
      var r := ReadName(uri, t, i + 1, []);
      if r.Done? {
        var next := tokens + [Token(r.value, IndexOf(r.value))];
        assert Reindexed(next) == next;
        TokensIndexed(uri, t, r.next, next);
      }
    }
  }

  /** Every pointer that is accepted, in either form, is written in string form and read again as an equal pointer. */
  lemma AcceptedReparses(t: seq<Byte>)
    ensures match ParsePointer(t)
            case Failed(_, _) => true
            case Done(_, tokens) =>
              && Stringify(false, tokens).Some?
              && var s := Stringify(false, tokens).value;
              && ParsePointer(s) == Done(|s|, tokens)
  {
    hide ReadTokens, WriteTokens, Reindexed, IndexOf;
    if ParsePointer(t).Done? {
      var tokens := ParsePointer(t).value;
      assert Reindexed([]) == [];
      TokensIndexed(Peek(t, 0) == HASH, t, if Peek(t, 0) == HASH then 1 else 0, []);
      StringifyFails(false, tokens);
      StringifyParses(false, tokens);
    }
  }

  /** In string form a character was written as it is written. */
  lemma CharWrites(t: seq<Byte>, i: nat)
    requires i < |t| && t[i] != SLASH && ReadChar(false, t, i).Done?
    ensures
      var r := ReadChar(false, t, i);
      && |r.value| == 1
      && t[i..r.next] == if r.value[0] == TILDE then [TILDE, DIGIT_0]
                         else if r.value[0] == SLASH then [TILDE, DIGIT_1] else [r.value[0]]
  {}

  lemma {:induction false} NameWrites(t: seq<Byte>, i: nat, done: seq<Byte>)
    requires i <= |t| && ReadName(false, t, i, done).Done?
    ensures
      var r := ReadName(false, t, i, done);
      done <= r.value && WriteName(false, r.value[|done|..], 0) == Some(t[i..r.next])
    decreases |t| - i
  {
    hide ReadChar;
    var r := ReadName(false, t, i, done);
    if i == |t| || t[i] == SLASH {
      assert r.value[|done|..] == [] && t[i..r.next] == [];
    } else {
      var c := ReadChar(false, t, i);
      CharWrites(t, i);
      NameWrites(t, c.next, done + c.value);
      hide ReadName;
      var tail, rest := r.value[|done|..], r.value[|done + c.value|..];
      assert tail[0] == (done + c.value)[|done|] && tail[1..] == rest;
      WriteShift(tail, 1);
      assert t[i..r.next] == t[i..c.next] + t[c.next..r.next];
    }
  }

  lemma {:induction false} TokensWrite(t: seq<Byte>, i: nat, done: seq<Token>)
    requires i <= |t| && (i < |t| ==> t[i] == SLASH) && ReadTokens(false, t, i, done).Done?
    ensures
      var r := ReadTokens(false, t, i, done);
      done <= r.value && WriteTokens(false, r.value[|done|..]) == Some(t[i..])
    decreases |t| - i
  {
    hide ReadName, WriteName, IndexOf;
    var r := ReadTokens(false, t, i, done);
    if i == |t| {
      assert r.value[|done|..] == [];
    } else {
      var name := ReadName(false, t, i + 1, []);
      var token := Token(name.value, IndexOf(name.value));
      NameWrites(t, i + 1, []);
      assert name.value[0..] == name.value;
      TokensWrite(t, name.next, done + [token]);
      hide ReadTokens;
      var tail, rest := r.value[|done|..], r.value[|done + [token]|..];
      assert tail[0] == (done + [token])[|done|] && tail[1..] == rest;
      assert t[i..] == [SLASH] + t[i + 1..name.next] + t[name.next..];
    }
  }

  /** In string form, writing the tokens of an accepted text gives that text. */
  lemma StringFormInverse(t: seq<Byte>)
    requires Peek(t, 0) != HASH
    ensures ParsePointer(t).Done? ==> Stringify(false, ParsePointer(t).value) == Some(t)
  {
    hide ReadTokens, WriteTokens;
    if ParsePointer(t).Done? {
      TokensWrite(t, 0, []);
      assert ParsePointer(t).value[0..] == ParsePointer(t).value;
    }
  }

  /** What is written from `j` on is what the rest alone is written as. */
  lemma {:induction false} WriteShift(name: seq<Byte>, j: nat)
    requires j <= |name|
    ensures WriteName(false, name, j) == WriteName(false, name[j..], 0)
    decreases |name| - j
  {
    if j < |name| {
      WriteShift(name, j + 1);
      WriteShift(name[j..], 1);
      assert name[j..][1..] == name[j + 1..];
    }
  }
}
