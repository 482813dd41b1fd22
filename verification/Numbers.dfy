/** Decimal numbers: digit runs in a text, the number they write, and the number grammar. */
module Numbers {
  import opened Text
  import opened Sax
  import opened Lexer

  const MAX_INT_MAGNITUDE := 0x8000_0000            // 2^31
  const MAX_UINT := 0xFFFF_FFFF                     // 2^32 - 1
  const MAX_INT64_MAGNITUDE := 0x8000_0000_0000_0000 // 2^63
  const MAX_UINT64 := 0xFFFF_FFFF_FFFF_FFFF         // 2^64 - 1

  function DigitsEnd(t: seq<Byte>, p: nat): (e: nat)
    ensures p <= e && (p <= |t| ==> e <= |t|)
    ensures !IsDigit(Peek(t, e))
    ensures forall k | p <= k < e :: IsDigit(Peek(t, k))
    decreases |t| - p
  {
    if IsDigit(Peek(t, p)) then DigitsEnd(t, p + 1) else p
  }

  predicate AllDigits(t: seq<Byte>, p: nat, e: nat) {
    forall k | p <= k < e :: IsDigit(Peek(t, k))
  }

  /** The number written by the digits in [p, e). */
  function DigitsValue(t: seq<Byte>, p: nat, e: nat): (n: nat)
    requires AllDigits(t, p, e)
  {
    if e <= p then 0 else DigitsValue(t, p, e - 1) * 10 + (Peek(t, e - 1) - DIGIT_0)
  }

  /** A longer digit run writes a number at least as big. */
  lemma {:induction false} DigitsValueMonotone(t: seq<Byte>, p: nat, e: nat, f: nat)
    requires AllDigits(t, p, f) && e <= f
    ensures DigitsValue(t, p, e) <= DigitsValue(t, p, f)
  {
    if e < f {
      DigitsValueMonotone(t, p, e, f - 1);
    }
  }

  /** What a number's significand is kept in. */
  datatype Significand = Narrow(n: nat) | Wide(n: nat) | Real

  datatype IntegerPart = IntegerPart(sig: Significand, significantDigits: nat, special: bool)

  function NarrowLimit(minus: bool): nat {
    if minus then MAX_INT_MAGNITUDE else MAX_UINT
  }

  function WideLimit(minus: bool): nat {
    if minus then MAX_INT64_MAGNITUDE else MAX_UINT64
  }

  /** First position at or after `k` where one more digit would take the number over the 64-bit limit. */
  function FitEnd(t: seq<Byte>, q: nat, k: nat, e: nat, limit: nat): (f: nat)
    requires AllDigits(t, q, e) && k <= e
    ensures k <= f <= e
    decreases e - k
  {
    if k == e || DigitsValue(t, q, k + 1) > limit then k else FitEnd(t, q, k + 1, e, limit)
  }

  /** Whether some digit at or after `k` finds the double already too big. */
  predicate TooBigFrom(env: Env, q: nat, k: nat, e: nat)
    requires q <= k
    decreases e - k
  {
    k < e && (env.tooBig(Slice(env.text, q, k - q)) || TooBigFrom(env, q, k + 1, e))
  }

  /** The integer part at `q`, after an optional minus; `start` is where the number begins. */
  function Integer(env: Env, minus: bool, q: nat, start: nat): (r: Lex<IntegerPart>)
    ensures r.Got? ==> q < r.next && (q <= |env.text| ==> r.next <= |env.text|)
  {
    var t := env.text;
    if Peek(t, q) == DIGIT_0 then Got(q + 1, IntegerPart(Narrow(0), 0, false))
    else if IsDigit(Peek(t, q)) then IntegerDigits(env, minus, q, start)
    else if env.flags.nanAndInf && (Peek(t, q) == UPPER_I || Peek(t, q) == UPPER_N) then
      Special(t, q)
    else Bad(ValueInvalid, q)
  }

  /** A run of digits at `q`: its value when 64 bits hold it, a double otherwise. */
  function IntegerDigits(env: Env, minus: bool, q: nat, start: nat): (r: Lex<IntegerPart>)
    requires IsDigit(Peek(env.text, q))
    ensures r.Got? ==> q < r.next == DigitsEnd(env.text, q)
  {
    var t := env.text;
    var e := DigitsEnd(t, q);
    var n := DigitsValue(t, q, e);
    if n <= NarrowLimit(minus) then Got(e, IntegerPart(Narrow(n), e - q - 1, false))
    else if n <= WideLimit(minus) then Got(e, IntegerPart(Wide(n), e - q - 1, false))
    else
      var k := FitEnd(t, q, q + 1, e, WideLimit(minus));
      if TooBigFrom(env, q, k, e) then Bad(NumberTooBig, start)
      else Got(e, IntegerPart(Real, k - q - 1, false))
  }

  const NAN_WORD: seq<Byte> := [UPPER_N, LOWER_A, UPPER_N]
  const INF_WORD: seq<Byte> := [UPPER_I, LOWER_N, LOWER_F]
  const INITY_WORD: seq<Byte> := [LOWER_I, LOWER_N, LOWER_I, LOWER_T, LOWER_Y]

  /** `NaN`, or what is left after a failed `NaN` read as `Inf` or `Infinity`. */
  function Special(t: seq<Byte>, q: nat): (r: Lex<IntegerPart>)
    ensures r.Got? ==> q < r.next && (q <= |t| ==> r.next <= |t|)
  {
    var special := IntegerPart(Narrow(0), 0, true);
    var (isNan, q1) := Match(t, q, NAN_WORD);
    if isNan then Got(q1, special)
    else
      var (isInf, q2) := Match(t, q1, INF_WORD);
      if !isInf then Bad(ValueInvalid, q2)
      else if Peek(t, q2) != LOWER_I then Got(q2, special)
      else
        var (isInfinity, q3) := Match(t, q2, INITY_WORD);
        if isInfinity then Got(q3, special) else Bad(ValueInvalid, q3)
  }

  /** `Inf` with no `i` after it, or `Infinity`, after `w`; it ends at `next`. */
  ghost predicate InfAfter(t: seq<Byte>, q: nat, w: seq<Byte>, next: nat) {
    && At(t, q, w + INF_WORD)
    && if Peek(t, q + |w| + 3) == LOWER_I then At(t, q + |w| + 3, INITY_WORD) && next == q + |w| + 8 else next == q + |w| + 3
  }

  /**
   The words accepted are `NaN`, and `Inf` or `Infinity`, bare or after as much of a `NaN` as was taken before it
   failed. Each is taken whole.
   */
  lemma SpecialWords(t: seq<Byte>, q: nat, next: nat)
    ensures Special(t, q) == Got(next, IntegerPart(Narrow(0), 0, true)) <==>
            || (At(t, q, NAN_WORD) && next == q + 3)
            || InfAfter(t, q, [], next) || InfAfter(t, q, [UPPER_N], next) || InfAfter(t, q, [UPPER_N, LOWER_A], next)
  {
    hide Match, At;
    MatchStops(t, q, NAN_WORD);
    var j := Match(t, q, NAN_WORD).1 - q;
    assert [] + INF_WORD == INF_WORD && NAN_WORD[..0] == [] && NAN_WORD[..1] == [UPPER_N] && NAN_WORD[..2] == [UPPER_N, LOWER_A];
    AtHead(t, q, NAN_WORD);
    AtHead(t, q, INF_WORD);
    AtSplit(t, q, [UPPER_N], INF_WORD);
    AtSplit(t, q, [UPPER_N], [LOWER_A]);
    AtSplit(t, q, [UPPER_N, LOWER_A], INF_WORD);
    AtHead(t, q + 1, [LOWER_A]);
    AtHead(t, q + 1, INF_WORD);
    AtHead(t, q + 2, INF_WORD);
    AtSplit(t, q, [UPPER_N], [LOWER_A, UPPER_N]);
    AtSplit(t, q, [UPPER_N, LOWER_A], [UPPER_N]);
    AtHead(t, q + 1, [LOWER_A, UPPER_N]);
    AtHead(t, q + 2, [UPPER_N]);
    assert [UPPER_N] + [LOWER_A] == [UPPER_N, LOWER_A] && [UPPER_N] + [LOWER_A, UPPER_N] == NAN_WORD;
    assert [UPPER_N, LOWER_A] + [UPPER_N] == NAN_WORD;
    AtHead(t, q, [UPPER_N]);
    AtEmpty(t, q);
  }

  /** A match that fails has taken what it could. */
  lemma {:induction false} MatchStops(t: seq<Byte>, p: nat, word: seq<Byte>)
    requires NUL !in word
    ensures
      var (ok, q) := Match(t, p, word);
      !ok ==> q < p + |word| && (p <= |t| ==> At(t, p, word[..q - p])) && Peek(t, q) != word[q - p]
    decreases word
  {
    if word != [] && Peek(t, p) == word[0] {
      assert word[0] in word;
      MatchStops(t, p + 1, word[1..]);
      var q := Match(t, p + 1, word[1..]).1;
      if q < p + |word| {
        AtSplit(t, p, [word[0]], word[1..][..q - p - 1]);
        assert [word[0]] + word[1..][..q - p - 1] == word[..q - p];
      }
    } else if word != [] {
      assert word[..0] == [];
      AtEmpty(t, p);
    }
  }

  datatype Fraction = Fraction(next: nat, useDouble: bool, expFrac: int)

  /** Fraction digits taken into the 64-bit significand while it is below 2^53. */
  function FractionDigits(t: seq<Byte>, p: nat, i64: nat, digits: nat, expFrac: int): (f: Fraction)
    ensures p <= f.next && (p <= |t| ==> f.next <= |t|) && f.expFrac <= expFrac
    decreases |t| - p
  {
    if IsDigit(Peek(t, p)) && i64 <= 0x1F_FFFF_FFFF_FFFF then
      var n := i64 * 10 + (Peek(t, p) - DIGIT_0);
      FractionDigits(t, p + 1, n, if n != 0 then digits + 1 else digits, expFrac - 1)
    else RealFractionDigits(t, p, i64 > 0, digits, expFrac)
  }

  /** Fraction digits taken into the double; only 17 significant digits count. */
  function RealFractionDigits(t: seq<Byte>, p: nat, positive: bool, digits: nat, expFrac: int): (f: Fraction)
    ensures p <= f.next && (p <= |t| ==> f.next <= |t|) && f.expFrac <= expFrac
    decreases |t| - p
  {
    if !IsDigit(Peek(t, p)) then Fraction(p, true, expFrac)
    else if digits < 17 then
      var positive' := positive || Peek(t, p) != DIGIT_0;
      RealFractionDigits(t, p + 1, positive', if positive' then digits + 1 else digits, expFrac - 1)
    else RealFractionDigits(t, p + 1, positive, digits, expFrac)
  }

  function ParseFraction(t: seq<Byte>, p: nat, part: IntegerPart): (r: Lex<Fraction>)
    ensures r.Got? ==> p <= r.next == r.value.next && (p <= |t| ==> r.next <= |t|) && r.value.expFrac <= 0
  {
    if Peek(t, p) != DOT then Got(p, Fraction(p, part.sig.Real?, 0))
    else if !IsDigit(Peek(t, p + 1)) then Bad(NumberMissFraction, p + 1)
    else
      var f := if part.sig.Real?
               then RealFractionDigits(t, p + 1, true, part.significantDigits, 0)
               else FractionDigits(t, p + 1, part.sig.n, part.significantDigits, 0);
      Got(f.next, f)
  }

  /** The exponent at `p`; its value tells whether there is one. */
  function ParseExponent(t: seq<Byte>, p: nat, expFrac: int, start: nat): (r: Lex<bool>)
    requires expFrac <= 0
    ensures r.Got? ==> p <= r.next && (p <= |t| ==> r.next <= |t|)
  {
    if Peek(t, p) != LOWER_E && Peek(t, p) != UPPER_E then Got(p, false)
    else
      var expMinus := Peek(t, p + 1) == MINUS;
      var q := if expMinus || Peek(t, p + 1) == PLUS then p + 2 else p + 1;
      if !IsDigit(Peek(t, q)) then Bad(NumberMissExponent, q)
      else if !expMinus && DigitsValue(t, q, DigitsEnd(t, q)) > 308 - expFrac then Bad(NumberTooBig, start)
      else Got(DigitsEnd(t, q), true)
  }

  function NumberEvent(minus: bool, part: IntegerPart, useDouble: bool, lexeme: seq<Byte>): Event {
    if useDouble || part.special || part.sig.Real? then Double(lexeme)
    else if part.sig.Wide? then if minus then Int64(0 - part.sig.n) else Uint64(part.sig.n)
    else if minus then Int(0 - part.sig.n) else Uint(part.sig.n)
  }

  function ParseNumber(env: Env, p: nat): (r: Lex<Event>)
    ensures r.Got? ==> p < r.next && (p <= |env.text| ==> r.next <= |env.text|)
  {
    var t := env.text;
    var minus := Peek(t, p) == MINUS;
    match Integer(env, minus, if minus then p + 1 else p, p)
    case Bad(code, offset) => Bad(code, offset)
    case Got(p1, part) =>
      match ParseFraction(t, p1, part)
      case Bad(code, offset) => Bad(code, offset)
      case Got(p2, fraction) =>
        match ParseExponent(t, p2, fraction.expFrac, p)
        case Bad(code, offset) => Bad(code, offset)
        case Got(p3, hasExponent) =>
          Got(p3, NumberEvent(minus, part, fraction.useDouble || hasExponent, Slice(t, p, p3 - p)))
  }

  // ------------------------------------------------- Exactness of integers

  /** `[q, e)` is a JSON integer literal without its sign, and nothing that continues a number follows. */
  predicate IsIntegerLiteral(t: seq<Byte>, q: nat, e: nat) {
    && q < e && AllDigits(t, q, e)
    && (Peek(t, q) == DIGIT_0 ==> e == q + 1)
    && !IsDigit(Peek(t, e))
    && Peek(t, e) != DOT && Peek(t, e) != LOWER_E && Peek(t, e) != UPPER_E
  }

  lemma {:induction false} DigitsEndUnique(t: seq<Byte>, p: nat, e: nat)
    requires p <= e && AllDigits(t, p, e) && !IsDigit(Peek(t, e))
    ensures DigitsEnd(t, p) == e
    decreases e - p
  {
    if p < e {
      DigitsEndUnique(t, p + 1, e);
    }
  }

  /**
   Every integer literal, however long, is consumed whole and reported with its exact value in the
   narrowest event that holds it; only a literal beyond 64 bits becomes a double (or is refused as too big).
   */
  lemma IntegerIsExact(env: Env, p: nat, e: nat)
    requires var q := if Peek(env.text, p) == MINUS then p + 1 else p; IsIntegerLiteral(env.text, q, e)
    ensures
      var minus := Peek(env.text, p) == MINUS;
      var n := DigitsValue(env.text, if minus then p + 1 else p, e);
      var r := ParseNumber(env, p);
      if minus then
        && (n <= MAX_INT_MAGNITUDE <==> r == Got(e, Int(0 - n)))
        && (MAX_INT_MAGNITUDE < n <= MAX_INT64_MAGNITUDE <==> r == Got(e, Int64(0 - n)))
        && (n > MAX_INT64_MAGNITUDE <==> r == Got(e, Double(Slice(env.text, p, e - p))) || r == Bad(NumberTooBig, p))
      else
        && (n <= MAX_UINT <==> r == Got(e, Uint(n)))
        && (MAX_UINT < n <= MAX_UINT64 <==> r == Got(e, Uint64(n)))
        && (n > MAX_UINT64 <==> r == Got(e, Double(Slice(env.text, p, e - p))) || r == Bad(NumberTooBig, p))
  {
    var q := if Peek(env.text, p) == MINUS then p + 1 else p;
    DigitsEndUnique(env.text, q, e);
    assert DigitsValue(env.text, q, q) == 0;
  }
}
