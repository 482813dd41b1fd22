/**
 Pointers in URI fragments, read as section 6 of RFC 6901 says: first the percent-encoding is undone, then what it
 leaves is read in string form. The parser undoes both encodings in one pass, and so differs on some texts; here
 is on which.
 */
module Fragments {
  import opened Text
  import opened Pointers
  import PointerParser
  import Utf8

  // ----------------------------------------------------------- The standard

  /** Characters a fragment may hold as they are, by section 3.5 of RFC 3986. */
  predicate FragmentChar(c: Byte) {
    !NeedPercentEncode(c) || c == SLASH || Reserved(c)
  }

  /** `! $ & ' ( ) * + , ; = : @ ?`: allowed in a fragment, but refused by the parser. */
  predicate Reserved(c: Byte) {
    c == 33 || c == 36 || 38 <= c <= 44 || c == 58 || c == 59 || c == 61 || c == 63 || c == 64
  }

  /** The bytes a fragment stands for from `i` on; None when it is not one. */
  function Decode(t: seq<Byte>, i: nat): Option<seq<Byte>>
    decreases |t| - i
  {
    if i >= |t| then Some([])
    else if t[i] == PERCENT then
      match PercentByte(t, i)
      case None => None
      case Some(b) => Prepend([b], Decode(t, i + 3))
    else if FragmentChar(t[i]) then Prepend([t[i]], Decode(t, i + 1))
    else None
  }

  /** The tokens of the fragment after the `#`; None when it is no pointer. */
  function Standard(t: seq<Byte>): Option<seq<Token>> {
    match Decode(t, 1)
    case None => None
    case Some(b) =>
      if !Utf8.Valid(b) || (b != [] && b[0] != SLASH) then None
      else
        match ReadTokens(false, b, 0, [])
        case Failed(_, _) => None
        case Done(_, tokens) => Some(tokens)
  }

  // --------------------------------------------------- Where it is different

  /** Some triplet from `i` on writes a solidus. */
  predicate WritesSolidus(t: seq<Byte>, i: nat)
    decreases |t| - i
  {
    i < |t| &&
    if PercentByte(t, i).Some? then PercentByte(t, i) == Some(SLASH) || WritesSolidus(t, i + 3) else WritesSolidus(t, i + 1)
  }

  /** A triplet at `i` writes `0` or `1`. */
  predicate WritesEscapeDigit(t: seq<Byte>, i: nat) {
    PercentByte(t, i) == Some(DIGIT_0) || PercentByte(t, i) == Some(DIGIT_1)
  }

  /** From `i` on some tilde, raw or in a triplet, comes before such a triplet, or some reserved character is raw. */
  predicate Hinders(t: seq<Byte>, i: nat)
    decreases |t| - i
  {
    i < |t| &&
    if PercentByte(t, i).Some? then
      (PercentByte(t, i) == Some(TILDE) && WritesEscapeDigit(t, i + 3)) || Hinders(t, i + 3)
    else
      Reserved(t[i]) || (t[i] == TILDE && WritesEscapeDigit(t, i + 1)) || Hinders(t, i + 1)
  }

  predicate Departs(t: seq<Byte>) {
    WritesSolidus(t, 1) || Hinders(t, 1)
  }

  /**
   On fragments that are no pointers the parser fails too. On those that are, it gives the standard's tokens exactly
   when no triplet writes a solidus, no tilde is escaped by a triplet, and no reserved character is raw.
   */
  lemma FragmentsAgree(t: seq<Byte>)
    requires Peek(t, 0) == HASH
    ensures Standard(t).None? ==> ParsePointer(t).Failed?
    ensures Standard(t).Some? ==> (ParsePointer(t) == Done(|t|, Standard(t).value) <==> !Departs(t))
  {
    hide ReadTokens, Decode, Hinders, WritesSolidus, CodeOk, Tildes, Utf8.ValidFrom;
    if Decode(t, 1).None? {
      DecodeNeeded(t, 1);
      if 1 == |t| || t[1] == SLASH {
        CodeAccepts(true, t, 1, []);
      }
    } else {
      var b := Decode(t, 1).value;
      assert b[0..] == b;
      CodeOkIff(t, 1, b, 0);
      FirstByte(t, b);
      if b == [] || b[0] == SLASH {
        CodeAccepts(false, b, 0, []);
        OkIsTildes(b, 0);
      }
      if 1 == |t| || t[1] == SLASH {
        CodeAccepts(true, t, 1, []);
        if CodeOk(true, t, 1) {
          if WritesSolidus(t, 1) {
            SolidusCounts(t, 1, b, 0);
            TokensCounted(true, t, 1, []);
            TokensCounted(false, b, 0, []);
          } else {
            TokensAgree(t, 1, b, 0, []);
          }
        }
      }
    }
  }

  /** `#/a%2Fb` is one name to the parser, two to the standard. */
  lemma EncodedSolidus()
    ensures
      var t := [HASH, SLASH, LOWER_A, PERCENT, 50, UPPER_F, LOWER_B];
      && ParsePointer(t) == Done(7, [Token([LOWER_A, SLASH, LOWER_B], INVALID_INDEX)])
      && Standard(t) == Some([Token([LOWER_A], INVALID_INDEX), Token([LOWER_B], INVALID_INDEX)])
  {
    var t := [HASH, SLASH, LOWER_A, PERCENT, 50, UPPER_F, LOWER_B];
    assert PercentByte(t, 3) == Some(SLASH) && Utf8.Length(Quad(t, 3), 0) == 1 && Quad(t, 3)[..1] == [SLASH];
    NoIndex([LOWER_A, SLASH, LOWER_B]);
    NoIndex([LOWER_A]);
    NoIndex([LOWER_B]);
    assert ReadName(true, t, 2, []) == Done(7, [LOWER_A, SLASH, LOWER_B]) by {
      assert ReadChar(true, t, 2) == Done(3, [LOWER_A]) && [] + [LOWER_A] == [LOWER_A];
      assert ReadChar(true, t, 3) == Done(6, [SLASH]) && [LOWER_A] + [SLASH] == [LOWER_A, SLASH];
      assert ReadChar(true, t, 6) == Done(7, [LOWER_B]) && [LOWER_A, SLASH] + [LOWER_B] == [LOWER_A, SLASH, LOWER_B];
      assert ReadName(true, t, 7, [LOWER_A, SLASH, LOWER_B]) == Done(7, [LOWER_A, SLASH, LOWER_B]);
      assert ReadName(true, t, 6, [LOWER_A, SLASH]) == Done(7, [LOWER_A, SLASH, LOWER_B]);
      assert ReadName(true, t, 3, [LOWER_A]) == Done(7, [LOWER_A, SLASH, LOWER_B]);
    }
    var one := [Token([LOWER_A, SLASH, LOWER_B], INVALID_INDEX)];
    assert ReadTokens(true, t, 7, one) == Done(7, one) && [] + one == one;
    var b := [SLASH, LOWER_A, SLASH, LOWER_B];
    assert Decode(t, 1) == Some(b) by {
      DecodeOne(t, 6, LOWER_B, [], [LOWER_B]);
      DecodeTriplet(t, 3, SLASH, [LOWER_B], [SLASH, LOWER_B]);
      DecodeOne(t, 2, LOWER_A, [SLASH, LOWER_B], [LOWER_A, SLASH, LOWER_B]);
      DecodeOne(t, 1, SLASH, [LOWER_A, SLASH, LOWER_B], b);
    }
    assert Utf8.ValidFrom(b, 2);
    NameOfOne(b, 1, LOWER_A);
    NameOfOne(b, 3, LOWER_B);
    var first, second := Token([LOWER_A], INVALID_INDEX), Token([LOWER_B], INVALID_INDEX);
    assert ReadTokens(false, b, 4, [first, second]) == Done(4, [first, second]);
    assert [first] + [second] == [first, second] && [] + [first] == [first];
    assert ReadTokens(false, b, 2, [first]) == Done(4, [first, second]);
    assert ReadTokens(false, b, 0, []) == Done(4, [first, second]);
    assert Utf8.ValidFrom(b, 0) by { assert Utf8.ValidFrom(b, 1); }
  }

  lemma DecodeOne(t: seq<Byte>, i: nat, c: Byte, rest: seq<Byte>, whole: seq<Byte>)
    requires i < |t| && t[i] == c != PERCENT && FragmentChar(c) && Decode(t, i + 1) == Some(rest)
    requires whole == [c] + rest
    ensures Decode(t, i) == Some(whole)
  {}

  lemma DecodeTriplet(t: seq<Byte>, i: nat, c: Byte, rest: seq<Byte>, whole: seq<Byte>)
    requires i < |t| && PercentByte(t, i) == Some(c) && Decode(t, i + 3) == Some(rest)
    requires whole == [c] + rest
    ensures Decode(t, i) == Some(whole)
  {}

  lemma NameOfOne(b: seq<Byte>, k: nat, c: Byte)
    requires k < |b| && b[k] == c != TILDE && c != SLASH && (k + 1 == |b| || b[k + 1] == SLASH)
    ensures ReadName(false, b, k, []) == Done(k + 1, [c])
  {
    assert ReadChar(false, b, k) == Done(k + 1, [c]) && [] + [c] == [c];
    assert ReadName(false, b, k + 1, [c]) == Done(k + 1, [c]);
  }

  /** `#/~%30` is the name `~` to the standard, and refused by the parser. */
  lemma EncodedEscape()
    ensures
      var t := [HASH, SLASH, TILDE, PERCENT, 51, DIGIT_0];
      && ParsePointer(t) == Failed(InvalidEscape, 3)
      && Standard(t) == Some([Token([TILDE], INVALID_INDEX)])
  {
    var t := [HASH, SLASH, TILDE, PERCENT, 51, DIGIT_0];
    assert ReadChar(true, t, 2) == Failed(InvalidEscape, 3);
    var b := [SLASH, TILDE, DIGIT_0];
    assert PercentByte(t, 3) == Some(DIGIT_0);
    assert Decode(t, 1) == Some(b) by {
      DecodeTriplet(t, 3, DIGIT_0, [], [DIGIT_0]);
      DecodeOne(t, 2, TILDE, [DIGIT_0], [TILDE, DIGIT_0]);
      DecodeOne(t, 1, SLASH, [TILDE, DIGIT_0], b);
    }
    assert Utf8.ValidFrom(b, 1);
    NoIndex([TILDE]);
    assert ReadName(false, b, 1, []) == Done(3, [TILDE]) by {
      assert ReadChar(false, b, 1) == Done(3, [TILDE]) && [] + [TILDE] == [TILDE];
    }
    var token := Token([TILDE], INVALID_INDEX);
    assert ReadTokens(false, b, 3, [token]) == Done(3, [token]) && [] + [token] == [token];
  }

  /** `#/!` is the name `!` to the standard, and refused by the parser. */
  lemma RawReserved()
    ensures
      var t := [HASH, SLASH, 33];
      && ParsePointer(t) == Failed(CharacterMustPercentEncode, 2)
      && Standard(t) == Some([Token([33], INVALID_INDEX)])
  {
    var t := [HASH, SLASH, 33];
    var b := [SLASH, 33];
    assert Decode(t, 1) == Some(b) by {
      DecodeOne(t, 2, 33, [], [33]);
      DecodeOne(t, 1, SLASH, [33], b);
    }
    assert Utf8.ValidFrom(b, 1);
    NoIndex([33]);
    NameOfOne(b, 1, 33);
    var token := Token([33], INVALID_INDEX);
    assert ReadTokens(false, b, 2, [token]) == Done(2, [token]) && [] + [token] == [token];
  }

  lemma NoIndex(name: seq<Byte>)
    requires name != [] && !IsDigit(name[0])
    ensures IndexOf(name) == INVALID_INDEX
  {}

  // ----------------------------------------------------------- Acceptance

  /** Every character from `i` on can be read. */
  predicate CodeOk(uri: bool, t: seq<Byte>, i: nat)
    decreases |t| - i
  {
    if i >= |t| then true
    else if t[i] == SLASH then CodeOk(uri, t, i + 1)
    else ReadChar(uri, t, i).Done? && CodeOk(uri, t, ReadChar(uri, t, i).next)
  }

  lemma {:induction false} NameAccepts(uri: bool, t: seq<Byte>, i: nat, name: seq<Byte>)
    requires i <= |t|
    ensures var r := ReadName(uri, t, i, name);
            CodeOk(uri, t, i) <==> r.Done? && CodeOk(uri, t, r.next)
    decreases |t| - i
  {
    hide ReadChar;
    if i < |t| && t[i] != SLASH && ReadChar(uri, t, i).Done? {
      NameAccepts(uri, t, ReadChar(uri, t, i).next, name + ReadChar(uri, t, i).value);
    }
  }

  lemma {:induction false} CodeAccepts(uri: bool, t: seq<Byte>, i: nat, tokens: seq<Token>)
    requires i <= |t| && (i < |t| ==> t[i] == SLASH)
    ensures ReadTokens(uri, t, i, tokens).Done? <==> CodeOk(uri, t, i)
    ensures ReadTokens(uri, t, i, tokens).Done? ==> ReadTokens(uri, t, i, tokens).next == |t|
    decreases |t| - i
  {
    hide ReadName, IndexOf, ReadChar;
    if i < |t| {
      NameAccepts(uri, t, i + 1, []);
      var r := ReadName(uri, t, i + 1, []);
      if r.Done? {
        CodeAccepts(uri, t, r.next, tokens + [Token(r.value, IndexOf(r.value))]);
      }
    }
  }

  /** Every tilde from `k` on starts an escape. */
  predicate Tildes(b: seq<Byte>, k: nat)
    decreases |b| - k
  {
    k >= |b| ||
    if b[k] == TILDE then k + 1 < |b| && (b[k + 1] == DIGIT_0 || b[k + 1] == DIGIT_1) && Tildes(b, k + 2)
    else Tildes(b, k + 1)
  }

  lemma {:induction false} OkIsTildes(b: seq<Byte>, k: nat)
    ensures CodeOk(false, b, k) <==> Tildes(b, k)
    decreases |b| - k
  {
    if k < |b| {
      if b[k] == TILDE {
        if k + 1 < |b| {
          OkIsTildes(b, k + 2);
        }
      } else {
        OkIsTildes(b, k + 1);
      }
    }
  }

  /** `b` from `k` on is what `t` stands for from `i` on. */
  ghost predicate Stands(t: seq<Byte>, i: nat, b: seq<Byte>, k: nat) {
    i <= |t| && k <= |b| && Decode(t, i) == Some(b[k..])
  }

  /** One raw character. */
  lemma StandsRaw(t: seq<Byte>, i: nat, b: seq<Byte>, k: nat)
    requires Stands(t, i, b, k) && i < |t| && t[i] != PERCENT
    ensures k < |b| && b[k] == t[i] && FragmentChar(t[i]) && Stands(t, i + 1, b, k + 1)
  {
    var rest := Decode(t, i + 1).value;
    assert b[k..] == [t[i]] + rest;
    assert b[k..][0] == b[k] && b[k..][1..] == b[k + 1..];
    assert ([t[i]] + rest)[1..] == rest;
  }

  /** One triplet. */
  lemma StandsTriplet(t: seq<Byte>, i: nat, b: seq<Byte>, k: nat)
    requires Stands(t, i, b, k) && i < |t| && t[i] == PERCENT
    ensures k < |b| && PercentByte(t, i) == Some(b[k]) && Stands(t, i + 3, b, k + 1)
  {
    var x, rest := PercentByte(t, i).value, Decode(t, i + 3).value;
    assert b[k..] == [x] + rest;
    assert b[k..][0] == b[k] && b[k..][1..] == b[k + 1..];
    assert ([x] + rest)[1..] == rest;
  }

  lemma StandsEnd(t: seq<Byte>, i: nat, b: seq<Byte>, k: nat)
    requires Stands(t, i, b, k)
    ensures i == |t| <==> k == |b|
  {
    if i < |t| {
      if t[i] == PERCENT {
        StandsTriplet(t, i, b, k);
      } else {
        StandsRaw(t, i, b, k);
      }
    } else {
      assert b[k..] == [];
    }
  }

  /** Positions of which each starts a triplet, or stands for a byte that only a triplet can write. */
  lemma {:induction false} StandsRun(t: seq<Byte>, i: nat, b: seq<Byte>, k: nat, m: nat)
    requires Stands(t, i, b, k)
    requires forall x | 0 <= x < m :: PercentByte(t, i + 3 * x).Some? || (k + x < |b| && b[k + x] >= 0x80)
    ensures k + m <= |b| && Stands(t, i + 3 * m, b, k + m)
    ensures forall x | 0 <= x < m :: PercentByte(t, i + 3 * x) == Some(b[k + x])
    decreases m
  {
    hide Decode, PercentByte, FragmentChar;
    if m > 0 {
      StandsRun(t, i, b, k, m - 1);
      var j, l := i + 3 * (m - 1), k + (m - 1);
      assert PercentByte(t, i + 3 * (m - 1)).Some? || (k + (m - 1) < |b| && b[k + (m - 1)] >= 0x80);
      StandsEnd(t, j, b, l);
      TripletStarts(t, j);
      if t[j] == PERCENT {
        StandsTriplet(t, j, b, l);
      } else {
        StandsRaw(t, j, b, l);
        FragmentIsAscii(t[j]);
      }
    }
  }

  lemma TripletStarts(t: seq<Byte>, i: nat)
    ensures PercentByte(t, i).Some? ==> i + 3 <= |t| && t[i] == PERCENT
  {}

  lemma FragmentIsAscii(c: Byte)
    ensures FragmentChar(c) ==> c < 0x80
  {}

  // --------------------------------------------------- Characters in triplets

  /** How long a character is depends on its own bytes only. */
  lemma LengthOfBytes(s: seq<Byte>, j: nat, u: seq<Byte>, k: nat)
    requires Utf8.Length(s, j) > 0 && j + Utf8.Length(s, j) <= |s| && At(u, k, s[j..j + Utf8.Length(s, j)])
    ensures Utf8.Length(u, k) == Utf8.Length(s, j)
  {
    var n := Utf8.Length(s, j);
    var x := s[j..j + n];
    assert u[k] == x[0];
    assert n > 1 ==> u[k + 1] == x[1];
    assert n > 2 ==> u[k + 2] == x[2];
    assert n > 3 ==> u[k + 3] == x[3];
  }

  /** The later bytes of a character are no ASCII, and neither is the first of a longer one. */
  lemma TailsAreHigh(b: seq<Byte>, k: nat)
    ensures forall y | k < y < k + Utf8.Length(b, k) :: y < |b| && b[y] >= 0x80
    ensures Utf8.Length(b, k) > 1 ==> Peek(b, k) >= 0x80
    ensures Utf8.Length(b, k) == 1 <==> Peek(b, k) < 0x80
  {
    var n := Utf8.Length(b, k);
    assert n > 1 ==> Peek(b, k + 1) >= 0x80;
    assert n > 2 ==> Peek(b, k + 2) >= 0x80;
    assert n > 3 ==> Peek(b, k + 3) >= 0x80;
  }

  /** The triplets at `i` write a character exactly when the bytes at `k` are one, and write its bytes. */
  lemma TripletsChar(t: seq<Byte>, i: nat, b: seq<Byte>, k: nat)
    requires Stands(t, i, b, k) && i < |t| && t[i] == PERCENT
    ensures
      var n := Utf8.Length(b, k);
      && k + n <= |b| && PercentChar(t, i) == (if n == 0 then None else Some(b[k..k + n]))
      && Stands(t, i + 3 * n, b, k + n)
      && forall x | 0 <= x < n :: PercentByte(t, i + 3 * x) == Some(b[k + x])
  {
    hide Utf8.Length, PercentByte, Decode, FragmentChar;
    var q, n := Quad(t, i), Utf8.Length(b, k);
    StandsTriplet(t, i, b, k);
    if Utf8.Length(q, 0) > 0 {
      var m := Utf8.Length(q, 0);
      TripletsThere(t, i);
      forall x | 0 <= x < m ensures PercentByte(t, i + 3 * x).Some? {}
      StandsRun(t, i, b, k, m);
      QuadIs(t, i, b, k, m);
      assert q[0..0 + m] == q[..m];
      LengthOfBytes(q, 0, b, k);
    } else if n > 0 {
      TailsAreHigh(b, k);
      forall x | 0 <= x < n ensures PercentByte(t, i + 3 * x).Some? || (k + x < |b| && b[k + x] >= 0x80) {
        if x == 0 {
          assert PercentByte(t, i + 3 * x).Some?;
        } else {
          assert b[k + x] >= 0x80;
        }
      }
      StandsRun(t, i, b, k, n);
      QuadIs(t, i, b, k, n);
      assert q[0..0 + n] == q[..n];
      LengthOfBytes(b, k, q, 0);
      assert false;
    }
  }

  lemma QuadIs(t: seq<Byte>, i: nat, b: seq<Byte>, k: nat, m: nat)
    requires m <= 4 && k + m <= |b| && forall x | 0 <= x < m :: PercentByte(t, i + 3 * x) == Some(b[k + x])
    ensures Quad(t, i)[..m] == b[k..k + m]
    ensures forall x | 0 <= x < m :: Quad(t, i)[x] == b[k + x]
  {
    hide PercentByte;
    assert m > 0 ==> PercentByte(t, i + 3 * 0) == Some(b[k + 0]);
    assert m > 1 ==> PercentByte(t, i + 3 * 1) == Some(b[k + 1]);
    assert m > 2 ==> PercentByte(t, i + 3 * 2) == Some(b[k + 2]);
    assert m > 3 ==> PercentByte(t, i + 3 * 3) == Some(b[k + 3]);
  }

  /** Bytes of longer characters are passed over by every scan. */
  lemma {:induction false} HighRun(t: seq<Byte>, i: nat, b: seq<Byte>, k: nat, m: nat, name: seq<Byte>)
    requires k + m <= |b| && forall x | 0 <= x < m :: PercentByte(t, i + 3 * x) == Some(b[k + x])
    requires forall y | k <= y < k + m :: b[y] >= 0x80
    ensures Hinders(t, i) == Hinders(t, i + 3 * m) && WritesSolidus(t, i) == WritesSolidus(t, i + 3 * m)
    ensures Tildes(b, k) == Tildes(b, k + m)
    ensures ReadName(false, b, k, name) == ReadName(false, b, k + m, name + b[k..k + m])
    decreases m
  {
    if m == 0 {
      assert name + b[k..k + m] == name;
    } else {
      var n := m - 1;
      HighRun(t, i, b, k, n, name);
      assert PercentByte(t, i + 3 * n) == Some(b[k + n]) && b[k + n] >= 0x80;
      assert name + b[k..k + m] == name + b[k..k + n] + [b[k + n]];
      assert i + 3 * n < |t|;
    }
  }

  // ------------------------------------------------------ One step of each

  lemma AsciiStep(b: seq<Byte>, k: nat)
    requires k < |b| && b[k] < 0x80
    ensures Utf8.ValidFrom(b, k) <==> Utf8.ValidFrom(b, k + 1)
  {
    assert Utf8.Length(b, k) == 1;
  }

  lemma RawOk(t: seq<Byte>, i: nat, b: seq<Byte>, k: nat)
    requires Stands(t, i, b, k) && i < |t| && t[i] != PERCENT && t[i] != TILDE
    requires Stands(t, i + 1, b, k + 1) ==> (CodeOk(true, t, i + 1) <==> Utf8.ValidFrom(b, k + 1) && Tildes(b, k + 1) && !Hinders(t, i + 1))
    ensures CodeOk(true, t, i) <==> Utf8.ValidFrom(b, k) && Tildes(b, k) && !Hinders(t, i)
  {
    hide Utf8.ValidFrom, Decode;
    StandsRaw(t, i, b, k);
    FragmentIsAscii(t[i]);
    AsciiStep(b, k);
  }

  /** A tilde stands at `k`, written by what ends at `j`. */
  lemma TildeOk(t: seq<Byte>, i: nat, b: seq<Byte>, k: nat, j: nat)
    requires i < j <= |t| && k < |b| && b[k] == TILDE && Stands(t, j, b, k + 1)
    requires t[i] != SLASH && ReadChar(true, t, i) == Unescape(t, TILDE, j)
    requires Hinders(t, i) == (WritesEscapeDigit(t, j) || Hinders(t, j))
    requires j < |t| && k + 2 <= |b| && Stands(t, j + 1, b, k + 2) ==>
               (CodeOk(true, t, j + 1) <==> Utf8.ValidFrom(b, k + 2) && Tildes(b, k + 2) && !Hinders(t, j + 1))
    ensures CodeOk(true, t, i) <==> Utf8.ValidFrom(b, k) && Tildes(b, k) && !Hinders(t, i)
  {
    hide Utf8.ValidFrom, Decode, ReadChar;
    StandsEnd(t, j, b, k + 1);
    AsciiStep(b, k);
    if j < |t| {
      if t[j] == PERCENT {
        StandsTriplet(t, j, b, k + 1);
      } else {
        StandsRaw(t, j, b, k + 1);
        FragmentIsAscii(t[j]);
        AsciiStep(b, k + 1);
      }
    }
  }

  /** The parser's scan accepts exactly where the bytes are UTF-8 with good escapes, and nothing hinders it. */
  lemma {:induction false} CodeOkIff(t: seq<Byte>, i: nat, b: seq<Byte>, k: nat)
    requires Stands(t, i, b, k)
    ensures CodeOk(true, t, i) <==> Utf8.ValidFrom(b, k) && Tildes(b, k) && !Hinders(t, i)
    decreases |t| - i
  {
    hide Utf8.ValidFrom, Utf8.Length, Decode, CodeOk, Tildes, Hinders, PercentByte, PercentChar, FragmentChar, ReadChar;
    StandsEnd(t, i, b, k);
    if i == |t| {
      AtEnd(t, b);
    } else if t[i] == PERCENT {
      TripletOk(t, i, b, k);
    } else {
      StandsRaw(t, i, b, k);
      if t[i] == TILDE {
        RawTilde(t, i);
        if i + 1 < |t| && k + 2 <= |b| && Stands(t, i + 2, b, k + 2) {
          CodeOkIff(t, i + 2, b, k + 2);
        }
        TildeOk(t, i, b, k, i + 1);
      } else {
        CodeOkIff(t, i + 1, b, k + 1);
        RawOk(t, i, b, k);
      }
    }
  }

  lemma AtEnd(t: seq<Byte>, b: seq<Byte>)
    ensures CodeOk(true, t, |t|) && Utf8.ValidFrom(b, |b|) && Tildes(b, |b|) && !Hinders(t, |t|)
  {}

  lemma RawTilde(t: seq<Byte>, i: nat)
    requires i < |t| && t[i] == TILDE
    ensures ReadChar(true, t, i) == Unescape(t, TILDE, i + 1)
    ensures Hinders(t, i) == (WritesEscapeDigit(t, i + 1) || Hinders(t, i + 1))
  {}

  lemma TripletTilde(t: seq<Byte>, i: nat)
    requires PercentByte(t, i) == Some(TILDE) && PercentChar(t, i) == Some([TILDE])
    ensures ReadChar(true, t, i) == Unescape(t, TILDE, i + 3)
    ensures Hinders(t, i) == (WritesEscapeDigit(t, i + 3) || Hinders(t, i + 3))
  {}

  lemma {:induction false} TripletOk(t: seq<Byte>, i: nat, b: seq<Byte>, k: nat)
    requires Stands(t, i, b, k) && i < |t| && t[i] == PERCENT
    ensures CodeOk(true, t, i) <==> Utf8.ValidFrom(b, k) && Tildes(b, k) && !Hinders(t, i)
    decreases |t| - i, 0
  {
    hide Utf8.Length, Decode, Hinders, Tildes, PercentByte, PercentChar, FragmentChar;
    var n := Utf8.Length(b, k);
    TripletsChar(t, i, b, k);
    StandsTriplet(t, i, b, k);
    TailsAreHigh(b, k);
    TripletStarts(t, i);
    if n == 1 && b[k] == TILDE {
      assert b[k..k + 1] == [TILDE];
      TripletTilde(t, i);
      if i + 3 < |t| && k + 2 <= |b| && Stands(t, i + 4, b, k + 2) {
        CodeOkIff(t, i + 4, b, k + 2);
      }
      TildeOk(t, i, b, k, i + 3);
    } else if n == 1 {
      assert b[k..k + 1] == [b[k]];
      CodeOkIff(t, i + 3, b, k + 1);
      TripletAscii(t, i, b, k);
    } else if n > 1 {
      CodeOkIff(t, i + 3 * n, b, k + n);
      HighRun(t, i, b, k, n, []);
    }
  }

  lemma TripletAscii(t: seq<Byte>, i: nat, b: seq<Byte>, k: nat)
    requires k < |b| && PercentByte(t, i) == Some(b[k]) && b[k] < 0x80 && b[k] != TILDE
    ensures Hinders(t, i) == Hinders(t, i + 3) && Tildes(b, k) == Tildes(b, k + 1)
    ensures Utf8.ValidFrom(b, k) <==> Utf8.ValidFrom(b, k + 1)
    ensures b[k] != SLASH ==> WritesSolidus(t, i) == WritesSolidus(t, i + 3)
  {
    hide Utf8.ValidFrom;
    AsciiStep(b, k);
  }

  /** A text that is scanned to its end is a fragment. */
  lemma {:induction false} DecodeNeeded(t: seq<Byte>, i: nat)
    ensures CodeOk(true, t, i) ==> Decode(t, i).Some?
    decreases |t| - i
  {
    hide Utf8.Length, Quad;
    if i < |t| && CodeOk(true, t, i) {
      if t[i] == SLASH {
        DecodeNeeded(t, i + 1);
      } else {
        var next := ReadChar(true, t, i).next;
        DecodeNeeded(t, next);
        if t[i] == PERCENT {
          var n := |PercentChar(t, i).value|;
          TripletsThere(t, i);
          if n == 1 && next == i + 4 {
            DecodeRaw(t, i + 3);
          }
          DecodeRun(t, i, n);
        } else if next == i + 2 {
          DecodeRaw(t, i + 1);
        }
      }
    }
  }

  lemma DecodeRaw(t: seq<Byte>, i: nat)
    requires i < |t| && (t[i] == DIGIT_0 || t[i] == DIGIT_1) && Decode(t, i + 1).Some?
    ensures Decode(t, i).Some?
  {}

  lemma {:induction false} DecodeRun(t: seq<Byte>, i: nat, n: nat)
    requires Decode(t, i + 3 * n).Some? && forall x | 0 <= x < n :: PercentByte(t, i + 3 * x).Some?
    ensures Decode(t, i).Some?
    decreases n
  {
    if n > 0 {
      assert PercentByte(t, i + 3 * (n - 1)).Some?;
      DecodeRun(t, i, n - 1);
    }
  }

  lemma FirstByte(t: seq<Byte>, b: seq<Byte>)
    requires Stands(t, 1, b, 0)
    ensures 1 == |t| <==> b == []
    ensures 1 < |t| && t[1] == SLASH ==> b[0] == SLASH
    ensures 1 < |t| && t[1] != SLASH && b[0] == SLASH ==> WritesSolidus(t, 1)
  {
    StandsEnd(t, 1, b, 0);
    if 1 < |t| {
      if t[1] == PERCENT {
        StandsTriplet(t, 1, b, 0);
      } else {
        StandsRaw(t, 1, b, 0);
      }
    }
  }

  // ------------------------------------------------------------- Same tokens

  /** One accepted character: the string form reads the same bytes from what it stands for. */
  lemma CharAgrees(t: seq<Byte>, i: nat, b: seq<Byte>, k: nat, name: seq<Byte>) returns (l: nat)
    requires Stands(t, i, b, k) && i < |t| && t[i] != SLASH && ReadChar(true, t, i).Done? && !WritesSolidus(t, i)
    ensures
      var r := ReadChar(true, t, i);
      && Stands(t, r.next, b, l) && !WritesSolidus(t, r.next)
      && ReadName(false, b, k, name) == ReadName(false, b, l, name + r.value)
  {
    hide Utf8.Length, Decode, FragmentChar, ReadName, WritesSolidus;
    if t[i] == PERCENT {
      var n := Utf8.Length(b, k);
      TripletsChar(t, i, b, k);
      TailsAreHigh(b, k);
      StandsTriplet(t, i, b, k);
      if n > 1 {
        HighRun(t, i, b, k, n, name);
        return k + n;
      }
      assert b[k..k + 1] == [b[k]];
      SolidusStep(t, i);
      l := AsciiAgrees(t, i, b, k, i + 3, name);
    } else {
      StandsRaw(t, i, b, k);
      SolidusStep(t, i);
      l := AsciiAgrees(t, i, b, k, i + 1, name);
    }
  }

  lemma SolidusStep(t: seq<Byte>, i: nat)
    requires i < |t| && !WritesSolidus(t, i)
    ensures PercentByte(t, i).Some? ==> PercentByte(t, i) != Some(SLASH) && !WritesSolidus(t, i + 3)
    ensures PercentByte(t, i).None? ==> !WritesSolidus(t, i + 1)
  {}

  /** The same of an ASCII character that ends at `j`, with the digit of the escape it may start. */
  lemma AsciiAgrees(t: seq<Byte>, i: nat, b: seq<Byte>, k: nat, j: nat, name: seq<Byte>) returns (l: nat)
    requires i < j <= |t| && k < |b| && b[k] != SLASH && Stands(t, j, b, k + 1) && !WritesSolidus(t, j)
    requires ReadChar(true, t, i) == Unescape(t, b[k], j) && ReadChar(true, t, i).Done?
    ensures
      var r := ReadChar(true, t, i);
      && Stands(t, r.next, b, l) && !WritesSolidus(t, r.next)
      && ReadName(false, b, k, name) == ReadName(false, b, l, name + r.value)
  {
    hide Decode, FragmentChar, WritesSolidus;
    if b[k] == TILDE {
      StandsRaw(t, j, b, k + 1);
      SolidusStep(t, j);
      l := k + 2;
    } else {
      l := k + 1;
    }
  }

  lemma {:induction false} NamesAgree(t: seq<Byte>, i: nat, b: seq<Byte>, k: nat, name: seq<Byte>)
    requires Stands(t, i, b, k) && CodeOk(true, t, i) && !WritesSolidus(t, i)
    ensures
      var r, s := ReadName(true, t, i, name), ReadName(false, b, k, name);
      && r.Done? && s.Done? && r.value == s.value
      && Stands(t, r.next, b, s.next) && CodeOk(true, t, r.next) && !WritesSolidus(t, r.next)
    decreases |t| - i
  {
    hide ReadChar, Stands, WritesSolidus;
    StandsEnd(t, i, b, k);
    NameStops(t, i, b, k);
    if i < |t| && t[i] != SLASH {
      var r := ReadChar(true, t, i);
      var l := CharAgrees(t, i, b, k, name);
      NamesAgree(t, r.next, b, l, name + r.value);
    }
  }

  lemma NameStops(t: seq<Byte>, i: nat, b: seq<Byte>, k: nat)
    requires Stands(t, i, b, k)
    ensures k <= |b| && i <= |t| && (i < |t| && t[i] == SLASH ==> k < |b| && b[k] == SLASH)
  {
    if i < |t| && t[i] == SLASH {
      StandsRaw(t, i, b, k);
    }
  }

  lemma {:induction false} TokensAgree(t: seq<Byte>, i: nat, b: seq<Byte>, k: nat, tokens: seq<Token>)
    requires Stands(t, i, b, k) && CodeOk(true, t, i) && !WritesSolidus(t, i) && (i < |t| ==> t[i] == SLASH)
    ensures k < |b| ==> b[k] == SLASH
    ensures
      var r, s := ReadTokens(true, t, i, tokens), ReadTokens(false, b, k, tokens);
      r.Done? && s.Done? && r.value == s.value
    decreases |t| - i
  {
    hide ReadName, IndexOf, WritesSolidus, ReadChar;
    StandsEnd(t, i, b, k);
    if i < |t| {
      StandsRaw(t, i, b, k);
      NotTriplet(t, i);
      SolidusStep(t, i);
      NamesAgree(t, i + 1, b, k + 1, []);
      var r, s := ReadName(true, t, i + 1, []), ReadName(false, b, k + 1, []);
      TokensAgree(t, r.next, b, s.next, tokens + [Token(r.value, IndexOf(r.value))]);
    }
  }

  lemma NotTriplet(t: seq<Byte>, i: nat)
    requires i < |t| && t[i] != PERCENT
    ensures PercentByte(t, i).None?
  {}

  // --------------------------------------------------------- Number of tokens

  lemma {:induction false} NameCounted(uri: bool, t: seq<Byte>, i: nat, name: seq<Byte>)
    requires i <= |t|
    ensures var r := ReadName(uri, t, i, name);
            r.Done? ==> PointerParser.SlashCount(t, i) == PointerParser.SlashCount(t, r.next)
    decreases |t| - i
  {
    hide ReadChar, PointerParser.SlashCount;
    if i < |t| && t[i] != SLASH && ReadChar(uri, t, i).Done? {
      PointerParser.CharHasNoSlash(uri, t, i);
      NameCounted(uri, t, ReadChar(uri, t, i).next, name + ReadChar(uri, t, i).value);
    }
  }

  /** There are as many tokens as solidi. */
  lemma {:induction false} TokensCounted(uri: bool, t: seq<Byte>, i: nat, tokens: seq<Token>)
    requires i <= |t| && (i < |t| ==> t[i] == SLASH)
    ensures var r := ReadTokens(uri, t, i, tokens);
            r.Done? ==> |r.value| == |tokens| + PointerParser.SlashCount(t, i)
    decreases |t| - i
  {
    hide ReadName, IndexOf;
    if i < |t| {
      NameCounted(uri, t, i + 1, []);
      var r := ReadName(uri, t, i + 1, []);
      if r.Done? {
        TokensCounted(uri, t, r.next, tokens + [Token(r.value, IndexOf(r.value))]);
      }
    }
  }

  /** The bytes have at least the raw solidi, and more if triplets write some. */
  lemma {:induction false} SolidusCounts(t: seq<Byte>, i: nat, b: seq<Byte>, k: nat)
    requires Stands(t, i, b, k)
    ensures PointerParser.SlashCount(b, k) >= PointerParser.SlashCount(t, i) + (if WritesSolidus(t, i) then 1 else 0)
    decreases |t| - i
  {
    hide Decode, FragmentChar;
    StandsEnd(t, i, b, k);
    if i < |t| {
      if t[i] == PERCENT {
        StandsTriplet(t, i, b, k);
        PointerParser.NoSlashes(t, i, i + 3);
        SolidusCounts(t, i + 3, b, k + 1);
      } else {
        StandsRaw(t, i, b, k);
        SolidusCounts(t, i + 1, b, k + 1);
      }
    }
  }
}
