/** Which texts are numbers, position by position, and which event or error each of them gives. */
module NumberGrammar {
  import opened Text
  import opened Sax
  import opened Lexer
  import opened Numbers

  /** Where a number's integer part begins and ends, and where its fraction and its exponent end. */
  datatype Parts = Parts(q: nat, i: nat, f: nat, e: nat)

  /** The digits in [p, e) are all the digits that stand at `p`, and there are some. */
  predicate Run(t: seq<Byte>, p: nat, e: nat) {
    p < e && AllDigits(t, p, e) && !IsDigit(Peek(t, e))
  }

  ghost predicate SpecialIs(t: seq<Byte>, q: nat, i: nat) {
    || (At(t, q, NAN_WORD) && i == q + 3)
    || InfAfter(t, q, [], i) || InfAfter(t, q, [UPPER_N], i) || InfAfter(t, q, [UPPER_N, LOWER_A], i)
  }

  /** A zero alone, a run of digits that begins with another digit, or a special word where the flag allows them. */
  ghost predicate IntegerIs(env: Env, q: nat, i: nat) {
    if Peek(env.text, q) == DIGIT_0 then i == q + 1
    else if IsDigit(Peek(env.text, q)) then Run(env.text, q, i)
    else env.flags.nanAndInf && SpecialIs(env.text, q, i)
  }

  predicate FractionIs(t: seq<Byte>, i: nat, f: nat) {
    if Peek(t, i) == DOT then Run(t, i + 1, f) else f == i
  }

  predicate IsE(c: Byte) {
    c == LOWER_E || c == UPPER_E
  }

  /** Where the digits of the exponent begin whose `e` is at `f`. */
  function Power(t: seq<Byte>, f: nat): nat {
    if Peek(t, f + 1) == MINUS || Peek(t, f + 1) == PLUS then f + 2 else f + 1
  }

  predicate ExponentIs(t: seq<Byte>, f: nat, e: nat) {
    if IsE(Peek(t, f)) then Run(t, Power(t, f), e) else e == f
  }

  /** The number at `p` has these parts, and takes all the characters that could belong to it. */
  ghost predicate NumberIs(env: Env, p: nat, s: Parts) {
    && s.q == Start(env, p)
    && IntegerIs(env, s.q, s.i)
    && FractionIs(env.text, s.i, s.f)
    && ExponentIs(env.text, s.f, s.e)
  }

  function Start(env: Env, p: nat): nat {
    if Peek(env.text, p) == MINUS then p + 1 else p
  }

  // ------------------------------------------------------ Numbers too big

  /** 64 bits do not hold the number written by the digits from `q` up to and including the one at `k`. */
  predicate Beyond(t: seq<Byte>, q: nat, k: nat, limit: nat) {
    AllDigits(t, q, k + 1) && DigitsValue(t, q, k + 1) > limit
  }

  /** The double of the digits before `k` is too big for another digit. */
  predicate Full(env: Env, q: nat, k: nat)
    requires q <= k
  {
    env.tooBig(Slice(env.text, q, k - q))
  }

  /** Some digit that 64 bits do not hold finds the double already too big. */
  ghost predicate IntegerTooBig(env: Env, minus: bool, q: nat, i: nat) {
    exists k | q < k < i :: Beyond(env.text, q, k, WideLimit(minus)) && Full(env, q, k)
  }

  /** Zeros at `p` before any other character, up to `f`. */
  function Zeros(t: seq<Byte>, p: nat, f: nat): (n: nat)
    ensures p <= f ==> p + n <= f
    decreases f - p
  {
    if p < f && Peek(t, p) == DIGIT_0 then 1 + Zeros(t, p + 1, f) else 0
  }

  function Min(a: int, b: int): int {
    if a < b then a else b
  }

  /**
   How many digits of the fraction count: as many as take the significant digits after the integer's first one to
   17, or, in a number below one, the leading zeros and 17 more.
   */
  function Counted(t: seq<Byte>, s: Parts): int {
    if s.f <= s.i then 0
    else if DIGIT_1 <= Peek(t, s.q) <= DIGIT_9 then Min(s.f - s.i - 1, if s.i - s.q < 18 then 18 - (s.i - s.q) else 0)
    else Min(s.f - s.i - 1, Zeros(t, s.i + 1, s.f) + 17)
  }

  /** An exponent that is not negative, and beyond 308 and the fraction digits that count. */
  predicate ExponentTooBig(t: seq<Byte>, s: Parts) {
    && IsE(Peek(t, s.f)) && Peek(t, s.f + 1) != MINUS
    && AllDigits(t, Power(t, s.f), s.e) && DigitsValue(t, Power(t, s.f), s.e) > 308 + Counted(t, s)
  }

  ghost predicate TooBig(env: Env, p: nat, s: Parts) {
    IntegerTooBig(env, Peek(env.text, p) == MINUS, s.q, s.i) || ExponentTooBig(env.text, s)
  }

  // ----------------------------------------------------- The integer part

  /** The positions from the first that 64 bits do not hold the digits up to. */
  lemma {:induction false} FitEndIs(t: seq<Byte>, q: nat, k: nat, e: nat, limit: nat)
    requires AllDigits(t, q, e) && q < k <= e && DigitsValue(t, q, k) <= limit < DigitsValue(t, q, e)
    ensures
      var f := FitEnd(t, q, k, e, limit);
      f < e && forall j | q < j < e :: Beyond(t, q, j, limit) <==> f <= j
    decreases e - k
  {
    hide DigitsValue;
    if DigitsValue(t, q, k + 1) > limit {
      forall j | q < j < e
        ensures Beyond(t, q, j, limit) <==> k <= j
      {
        if k <= j {
          DigitsValueMonotone(t, q, k + 1, j + 1);
        } else {
          DigitsValueMonotone(t, q, j + 1, k);
        }
      }
    } else {
      FitEndIs(t, q, k + 1, e, limit);
    }
  }

  lemma {:induction false} TooBigFromIs(env: Env, q: nat, k: nat, e: nat)
    requires q <= k
    ensures TooBigFrom(env, q, k, e) <==> exists j | k <= j < e :: Full(env, q, j)
    decreases e - k
  {
    if k < e {
      TooBigFromIs(env, q, k + 1, e);
      assert Full(env, q, k) <==> env.tooBig(Slice(env.text, q, k - q));
    }
  }

  function Ten(n: nat): (r: nat)
    ensures r > 0
  {
    if n == 0 then 1 else 10 * Ten(n - 1)
  }

  lemma {:induction false} TenMonotone(n: nat, m: nat)
    requires n <= m
    ensures Ten(n) <= Ten(m)
  {
    if n < m {
      TenMonotone(n, m - 1);
    }
  }

  /** A run of `n` digits writes a number below ten to the `n`, and not one of fewer digits unless a zero leads. */
  lemma {:induction false} DigitsMagnitude(t: seq<Byte>, q: nat, e: nat)
    requires q < e && AllDigits(t, q, e)
    ensures DigitsValue(t, q, e) < Ten(e - q)
    ensures Peek(t, q) != DIGIT_0 ==> DigitsValue(t, q, e) >= Ten(e - q - 1)
    decreases e
  {
    if q + 1 < e {
      DigitsMagnitude(t, q, e - 1);
    } else {
      assert DigitsValue(t, q, q) == 0;
      assert Ten(0) == 1;
      assert Ten(1) == 10;
    }
  }

  /** Significant digits after the first of the integer part. */
  function AfterFirst(t: seq<Byte>, q: nat, i: nat): nat {
    if DIGIT_1 <= Peek(t, q) <= DIGIT_9 && q < i then i - q - 1 else 0
  }

  lemma LongDigits(t: seq<Byte>, q: nat, k: nat, limit: nat)
    requires q <= k && Beyond(t, q, k, limit) && limit >= MAX_INT64_MAGNITUDE
    ensures k - q >= 18
  {
    DigitsMagnitude(t, q, k + 1);
    EighteenDigits(k + 1 - q);
  }

  /** A run of digits that begins with no zero. */
  lemma DigitsRead(env: Env, minus: bool, q: nat, start: nat, i: nat)
    requires DIGIT_1 <= Peek(env.text, q) <= DIGIT_9 && Run(env.text, q, i)
    ensures
      var n := DigitsValue(env.text, q, i);
      IntegerDigits(env, minus, q, start) ==
      if n <= NarrowLimit(minus) then Got(i, IntegerPart(Narrow(n), i - q - 1, false))
      else if n <= WideLimit(minus) then Got(i, IntegerPart(Wide(n), i - q - 1, false))
      else if IntegerTooBig(env, minus, q, i) then Bad(NumberTooBig, start)
      else Got(i, IntegerPart(Real, FitEnd(env.text, q, q + 1, i, WideLimit(minus)) - q - 1, false))
    ensures
      DigitsValue(env.text, q, i) > WideLimit(minus) ==> i - q >= 18 && FitEnd(env.text, q, q + 1, i, WideLimit(minus)) - q - 1 >= 17
    ensures DigitsValue(env.text, q, i) <= WideLimit(minus) ==> !IntegerTooBig(env, minus, q, i)
  {
    var t, limit := env.text, WideLimit(minus);
    DigitsEndUnique(t, q, i);
    if DigitsValue(t, q, i) > limit {
      DigitsMagnitude(t, q, q + 1);
      FitEndIs(t, q, q + 1, i, limit);
      var k := FitEnd(t, q, q + 1, i, limit);
      TooBigFromIs(env, q, k, i);
      LongDigits(t, q, k, limit);
    } else {
      forall k | q < k < i
        ensures !Beyond(t, q, k, limit)
      {
        DigitsValueMonotone(t, q, k + 1, i);
      }
    }
  }

  lemma EighteenDigits(n: nat)
    ensures Ten(n) > MAX_INT64_MAGNITUDE ==> n >= 19
  {
    assert Ten(3) == 1000;
    assert Ten(6) == 1000_000;
    assert Ten(9) == 1000_000_000;
    assert Ten(12) == 1000_000_000_000;
    assert Ten(15) == 1000_000_000_000_000;
    assert Ten(18) == 1000_000_000_000_000_000;
    if n < 19 {
      TenMonotone(n, 18);
    }
  }

  /** The integer part is read whole, with its exact value where 64 bits hold it. */
  lemma IntegerRead(env: Env, minus: bool, q: nat, start: nat, i: nat)
    requires IntegerIs(env, q, i)
    ensures
      var r := Integer(env, minus, q, start);
      if IntegerTooBig(env, minus, q, i) then r == Bad(NumberTooBig, start)
      else
        && r.Got? && r.next == i && q < i
        && r.value.special == !IsDigit(Peek(env.text, q))
        && if IsDigit(Peek(env.text, q)) then
             && AllDigits(env.text, q, i)
             && var n := DigitsValue(env.text, q, i);
             && (n <= NarrowLimit(minus) ==> r.value.sig == Narrow(n))
             && (NarrowLimit(minus) < n <= WideLimit(minus) ==> r.value.sig == Wide(n))
             && (n > WideLimit(minus) ==> r.value.sig.Real? && r.value.significantDigits >= 17 && i - q >= 18)
             && (n <= WideLimit(minus) ==> r.value.significantDigits == AfterFirst(env.text, q, i))
           else r.value.sig == Narrow(0) && r.value.significantDigits == 0
  {
    var t := env.text;
    if Peek(t, q) == DIGIT_0 {
      assert DigitsValue(t, q, q) == 0;
      assert DigitsValue(t, q, q + 1) == 0;
    } else if IsDigit(Peek(t, q)) {
      DigitsEndUnique(t, q, i);
      DigitsRead(env, minus, q, start, i);
    } else {
      SpecialWords(t, q, i);
      AtHead(t, q, NAN_WORD);
      AtHead(t, q, [] + INF_WORD);
      AtHead(t, q, [UPPER_N] + INF_WORD);
      AtHead(t, q, [UPPER_N, LOWER_A] + INF_WORD);
    }
  }

  // ----------------------------------------------------------- The fraction

  /** Digits of a fraction that still count when `digits` of 17 are there. */
  function Room(digits: nat): nat {
    if digits < 17 then 17 - digits else 0
  }

  lemma {:induction false} RealFractionRead(t: seq<Byte>, p: nat, e: nat, positive: bool, digits: nat, expFrac: int)
    requires p <= e && AllDigits(t, p, e) && !IsDigit(Peek(t, e))
    requires positive
    ensures RealFractionDigits(t, p, positive, digits, expFrac) == Fraction(e, true, expFrac - Min(e - p, Room(digits)))
    decreases e - p
  {
    if p < e {
      RealFractionRead(t, p + 1, e, true, if digits < 17 then digits + 1 else digits, if digits < 17 then expFrac - 1 else expFrac);
    }
  }

  /** A significand below 2^53 has fewer than 17 digits after its first. */
  lemma SmallSignificand(n: nat, digits: nat)
    requires n <= 0x1F_FFFF_FFFF_FFFF && 10 * n >= Ten(digits)
    ensures digits < 17
  {
    assert Ten(3) == 1000;
    assert Ten(6) == 1000_000;
    assert Ten(9) == 1000_000_000;
    assert Ten(12) == 1000_000_000_000;
    assert Ten(15) == 1000_000_000_000_000;
    assert Ten(17) == 1000_000_000_000_000_00;
    if digits >= 17 {
      TenMonotone(17, digits);
    }
  }

  lemma {:induction false} FractionRead(t: seq<Byte>, p: nat, e: nat, n: nat, digits: nat, expFrac: int)
    requires p <= e && AllDigits(t, p, e) && !IsDigit(Peek(t, e))
    requires if n == 0 then digits == 0 else 10 * n >= Ten(digits)
    ensures FractionDigits(t, p, n, digits, expFrac) ==
            Fraction(e, true, expFrac - Min(e - p, if n == 0 then Zeros(t, p, e) + 17 else Room(digits)))
    decreases e - p
  {
    if n > 0x1F_FFFF_FFFF_FFFF {
      RealFractionRead(t, p, e, true, digits, expFrac);
    } else if p < e {
      var m := n * 10 + (Peek(t, p) - DIGIT_0);
      if n != 0 {
        SmallSignificand(n, digits);
      } else {
        assert Ten(1) == 10;
      }
      FractionRead(t, p + 1, e, m, if m != 0 then digits + 1 else digits, expFrac - 1);
    }
  }

  /** The integer part as the fraction finds it: how big it is, and how many significant digits it has. */
  lemma PartSize(env: Env, minus: bool, q: nat, start: nat, i: nat, part: IntegerPart)
    requires IntegerIs(env, q, i) && Integer(env, minus, q, start) == Got(i, part)
    ensures part.sig.Real? ==> DIGIT_1 <= Peek(env.text, q) <= DIGIT_9 && i - q >= 18 && part.significantDigits >= 17
    ensures !part.sig.Real? ==> part.significantDigits == AfterFirst(env.text, q, i)
    ensures !part.sig.Real? ==> if DIGIT_1 <= Peek(env.text, q) <= DIGIT_9
                                then q < i && part.sig.n > 0 && 10 * part.sig.n >= Ten(part.significantDigits)
                                else part.sig.n == 0
  {
    IntegerRead(env, minus, q, start, i);
    hide Integer, IntegerTooBig, Beyond;
    if DIGIT_1 <= Peek(env.text, q) <= DIGIT_9 {
      DigitsMagnitude(env.text, q, i);
    } else if Peek(env.text, q) == DIGIT_0 {
      assert DigitsValue(env.text, q, q) == 0;
    }
  }

  lemma CountedIs(t: seq<Byte>, s: Parts)
    requires s.f > s.i
    ensures DIGIT_1 <= Peek(t, s.q) <= DIGIT_9 && s.q < s.i ==>
              Counted(t, s) == Min(s.f - s.i - 1, Room(AfterFirst(t, s.q, s.i)))
    ensures !(DIGIT_1 <= Peek(t, s.q) <= DIGIT_9) ==> Counted(t, s) == Min(s.f - s.i - 1, Zeros(t, s.i + 1, s.f) + 17)
  {
    hide Zeros;
  }

  lemma RealPart(t: seq<Byte>, s: Parts, part: IntegerPart)
    requires Peek(t, s.i) == DOT && Run(t, s.i + 1, s.f) && part.sig.Real? && part.significantDigits >= 17
    requires DIGIT_1 <= Peek(t, s.q) <= DIGIT_9 && s.i - s.q >= 18
    ensures ParseFraction(t, s.i, part) == Got(s.f, Fraction(s.f, true, 0 - Counted(t, s)))
  {
    hide RealFractionDigits, Counted, AllDigits, FractionDigits;
    RunBegins(t, s.i + 1, s.f);
    CountedIs(t, s);
    RealFractionRead(t, s.i + 1, s.f, true, part.significantDigits, 0);
  }

  lemma WholePart(t: seq<Byte>, s: Parts, part: IntegerPart)
    requires Peek(t, s.i) == DOT && Run(t, s.i + 1, s.f) && !part.sig.Real?
    requires part.significantDigits == AfterFirst(t, s.q, s.i)
    requires if DIGIT_1 <= Peek(t, s.q) <= DIGIT_9
             then s.q < s.i && part.sig.n > 0 && 10 * part.sig.n >= Ten(part.significantDigits)
             else part.sig.n == 0
    ensures ParseFraction(t, s.i, part) == Got(s.f, Fraction(s.f, true, 0 - Counted(t, s)))
  {
    NoDigits(t, s.q, s.i);
    hide RealFractionDigits, Counted, AllDigits, FractionDigits, AfterFirst, Zeros, Ten, Room;
    RunBegins(t, s.i + 1, s.f);
    CountedIs(t, s);
    FractionRead(t, s.i + 1, s.f, part.sig.n, part.significantDigits, 0);
  }

  lemma NoDigits(t: seq<Byte>, q: nat, i: nat)
    ensures !(DIGIT_1 <= Peek(t, q) <= DIGIT_9) ==> AfterFirst(t, q, i) == 0
  {}

  lemma FractionPart(env: Env, minus: bool, s: Parts, start: nat, part: IntegerPart)
    requires IntegerIs(env, s.q, s.i) && FractionIs(env.text, s.i, s.f)
    requires Integer(env, minus, s.q, start) == Got(s.i, part)
    ensures ParseFraction(env.text, s.i, part) ==
            Got(s.f, Fraction(s.f, s.f > s.i || part.sig.Real?, 0 - Counted(env.text, s)))
  {
    PartSize(env, minus, s.q, start, s.i, part);
    if Peek(env.text, s.i) != DOT {
      assert Counted(env.text, s) == 0;
    } else {
      hide ParseFraction, Counted, Integer, IntegerIs, Ten, AfterFirst, AllDigits;
      if part.sig.Real? {
        RealPart(env.text, s, part);
      } else {
        WholePart(env.text, s, part);
      }
    }
  }

  lemma RunBegins(t: seq<Byte>, p: nat, e: nat)
    requires Run(t, p, e)
    ensures IsDigit(Peek(t, p))
  {}

  /** The exponent is read whole, and a number it makes too big is refused. */
  lemma ExponentPart(t: seq<Byte>, s: Parts, start: nat)
    requires ExponentIs(t, s.f, s.e) && Counted(t, s) >= 0
    ensures ParseExponent(t, s.f, 0 - Counted(t, s), start) ==
            if ExponentTooBig(t, s) then Bad(NumberTooBig, start) else Got(s.e, s.e > s.f)
  {
    if IsE(Peek(t, s.f)) {
      DigitsEndUnique(t, Power(t, s.f), s.e);
    }
  }

  // -------------------------------------------------------------- Theorems

  /** The event of an integer literal, by its value. */
  predicate IntegerEventIs(ev: Event, minus: bool, n: nat) {
    if minus then
      && (n <= MAX_INT_MAGNITUDE ==> ev == Int(0 - n))
      && (MAX_INT_MAGNITUDE < n <= MAX_INT64_MAGNITUDE ==> ev == Int64(0 - n))
      && (n > MAX_INT64_MAGNITUDE ==> ev.Double?)
    else
      && (n <= MAX_UINT ==> ev == Uint(n))
      && (MAX_UINT < n <= MAX_UINT64 ==> ev == Uint64(n))
      && (n > MAX_UINT64 ==> ev.Double?)
  }

  lemma NumberOf(env: Env, p: nat, s: Parts, part: IntegerPart)
    requires NumberIs(env, p, s) && Integer(env, Peek(env.text, p) == MINUS, s.q, p) == Got(s.i, part)
    ensures ParseNumber(env, p) ==
            if ExponentTooBig(env.text, s) then Bad(NumberTooBig, p)
            else Got(s.e, NumberEvent(Peek(env.text, p) == MINUS, part, s.f > s.i || part.sig.Real? || s.e > s.f,
                                      Slice(env.text, p, s.e - p)))
  {
    var minus := Peek(env.text, p) == MINUS;
    hide Integer, IntegerIs, ParseFraction, ParseExponent, ExponentTooBig, NumberEvent, Counted, IsDigit;
    FractionPart(env, minus, s, p, part);
    CountedBounds(env.text, s);
    ExponentPart(env.text, s, p);
  }

  lemma CountedBounds(t: seq<Byte>, s: Parts)
    ensures Counted(t, s) >= 0
  {}

  /**
   A number is read to its end, unless it is too big. It is sent as a double with exactly its characters when it has
   a fraction or an exponent or is a special word, and otherwise as the integer it writes.
   */
  lemma NumberRead(env: Env, p: nat, s: Parts)
    requires NumberIs(env, p, s)
    ensures TooBig(env, p, s) ==> ParseNumber(env, p) == Bad(NumberTooBig, p)
    ensures !TooBig(env, p, s) ==> ParseNumber(env, p).Got? && ParseNumber(env, p).next == s.e && p < s.e
    ensures !TooBig(env, p, s) ==>
              var ev := ParseNumber(env, p).value;
              && (ev.Double? ==> ev.lexeme == Slice(env.text, p, s.e - p))
              && (s.f > s.i || s.e > s.f || !IsDigit(Peek(env.text, s.q)) ==> ev.Double?)
              && (s.e == s.i && IsDigit(Peek(env.text, s.q)) ==>
                    && AllDigits(env.text, s.q, s.i)
                    && IntegerEventIs(ev, Peek(env.text, p) == MINUS, DigitsValue(env.text, s.q, s.i)))
  {
    var minus := Peek(env.text, p) == MINUS;
    IntegerRead(env, minus, s.q, p, s.i);
    if IntegerTooBig(env, minus, s.q, s.i) {
      assert ParseNumber(env, p) == Bad(NumberTooBig, p);
    } else {
      hide ParseNumber, Integer, IntegerTooBig, IntegerIs, ExponentTooBig, DigitsValue;
      NumberOf(env, p, s, Integer(env, minus, s.q, p).value);
    }
  }

  /** The integer part is refused as no value exactly when there is none. */
  lemma IntegerMissing(env: Env, minus: bool, q: nat, start: nat)
    ensures
      var r := Integer(env, minus, q, start);
      && (r.Got? ==> IntegerIs(env, q, r.next))
      && (r.Bad? && r.code != NumberTooBig ==> r.code == ValueInvalid && forall i: nat :: !IntegerIs(env, q, i))
      && (r.Bad? && r.code == NumberTooBig ==> r.offset == start && IntegerIs(env, q, DigitsEnd(env.text, q)))
  {
    var t := env.text;
    if DIGIT_1 <= Peek(t, q) <= DIGIT_9 {
      assert DigitsEnd(t, q) > q;
    } else if Peek(t, q) != DIGIT_0 {
      SpecialWordsOnly(t, q);
    }
  }

  lemma SpecialWordsOnly(t: seq<Byte>, q: nat)
    ensures
      var r := Special(t, q);
      if r.Got? then SpecialIs(t, q, r.next) && r.value == IntegerPart(Narrow(0), 0, true)
      else r.code == ValueInvalid && forall i: nat :: !SpecialIs(t, q, i)
    ensures Peek(t, q) != UPPER_I && Peek(t, q) != UPPER_N ==> forall i: nat :: !SpecialIs(t, q, i)
  {
    forall i: nat
      ensures Special(t, q) == Got(i, IntegerPart(Narrow(0), 0, true)) <==> SpecialIs(t, q, i)
      ensures SpecialIs(t, q, i) ==> Peek(t, q) == UPPER_I || Peek(t, q) == UPPER_N
    {
      SpecialWords(t, q, i);
      AtHead(t, q, NAN_WORD);
      AtHead(t, q, [] + INF_WORD);
      AtHead(t, q, [UPPER_N] + INF_WORD);
      AtHead(t, q, [UPPER_N, LOWER_A] + INF_WORD);
    }
  }

  /** The parts of the number whose integer part ends at `i`, as far as there are any. */
  function PartsFrom(t: seq<Byte>, q: nat, i: nat): Parts {
    var f := if Peek(t, i) == DOT then DigitsEnd(t, i + 1) else i;
    Parts(q, i, f, if IsE(Peek(t, f)) then DigitsEnd(t, Power(t, f)) else f)
  }

  lemma FractionMissing(env: Env, p: nat, q: nat, part: IntegerPart, i: nat)
    requires q == Start(env, p) && Integer(env, Peek(env.text, p) == MINUS, q, p) == Got(i, part)
    requires Peek(env.text, i) == DOT && !IsDigit(Peek(env.text, i + 1))
    ensures ParseNumber(env, p) == Bad(NumberMissFraction, i + 1)
  {
    hide Integer, ParseExponent, NumberEvent, FractionDigits, RealFractionDigits;
  }

  lemma ExponentMissing(env: Env, p: nat, s: Parts, part: IntegerPart)
    requires s.q == Start(env, p) && IntegerIs(env, s.q, s.i)
    requires Integer(env, Peek(env.text, p) == MINUS, s.q, p) == Got(s.i, part)
    requires FractionIs(env.text, s.i, s.f) && IsE(Peek(env.text, s.f)) && !IsDigit(Peek(env.text, Power(env.text, s.f)))
    ensures ParseNumber(env, p) == Bad(NumberMissExponent, Power(env.text, s.f))
  {
    hide Integer, IntegerIs, ParseFraction, NumberEvent, Counted, FractionIs;
    FractionPart(env, Peek(env.text, p) == MINUS, s, p, part);
    CountedBounds(env.text, s);
  }

  /** After an integer part a dot without a digit, or an `e` without one, is refused where the digit is missed. */
  lemma DigitsMissing(env: Env, p: nat, s: Parts)
    requires s.q == Start(env, p) && IntegerIs(env, s.q, s.i)
    requires !IntegerTooBig(env, Peek(env.text, p) == MINUS, s.q, s.i)
    ensures Peek(env.text, s.i) == DOT && !IsDigit(Peek(env.text, s.i + 1)) ==>
              ParseNumber(env, p) == Bad(NumberMissFraction, s.i + 1)
    ensures FractionIs(env.text, s.i, s.f) && IsE(Peek(env.text, s.f)) && !IsDigit(Peek(env.text, Power(env.text, s.f))) ==>
              ParseNumber(env, p) == Bad(NumberMissExponent, Power(env.text, s.f))
  {
    var minus := Peek(env.text, p) == MINUS;
    IntegerRead(env, minus, s.q, p, s.i);
    hide Integer, IntegerIs, IntegerTooBig, ParseNumber, FractionIs, DigitsValue, AllDigits;
    var part := Integer(env, minus, s.q, p).value;
    if Peek(env.text, s.i) == DOT && !IsDigit(Peek(env.text, s.i + 1)) {
      FractionMissing(env, p, s.q, part, s.i);
    }
    if FractionIs(env.text, s.i, s.f) && IsE(Peek(env.text, s.f)) && !IsDigit(Peek(env.text, Power(env.text, s.f))) {
      ExponentMissing(env, p, s, part);
    }
  }

  /** Whether the integer part that ends at `s.i`, or else the number with these parts, is too big. */
  ghost predicate RefusedAsTooBig(env: Env, p: nat, s: Parts) {
    && s.q == Start(env, p) && IntegerIs(env, s.q, s.i)
    && (|| IntegerTooBig(env, Peek(env.text, p) == MINUS, s.q, s.i)
        || (NumberIs(env, p, s) && ExponentTooBig(env.text, s)))
  }

  lemma TooBigRead(env: Env, p: nat, s: Parts)
    requires RefusedAsTooBig(env, p, s)
    ensures ParseNumber(env, p) == Bad(NumberTooBig, p)
  {
    IntegerRead(env, Peek(env.text, p) == MINUS, s.q, p, s.i);
    hide Integer, IntegerTooBig, IntegerIs, ParseFraction, ParseExponent, ExponentTooBig;
    if NumberIs(env, p, s) && ExponentTooBig(env.text, s) {
      assert TooBig(env, p, s);
      NumberRead(env, p, s);
    }
  }

  lemma RunEnds(t: seq<Byte>, p: nat)
    ensures IsDigit(Peek(t, p)) ==> Run(t, p, DigitsEnd(t, p))
  {}

  /** The parts there are decide what becomes of the number. */
  lemma NumberCases(env: Env, p: nat, s: Parts)
    requires s == PartsFrom(env.text, Start(env, p), s.i) && IntegerIs(env, s.q, s.i)
    ensures
      var r := ParseNumber(env, p);
      || (NumberIs(env, p, s) && !TooBig(env, p, s))
      || (r == Bad(NumberTooBig, p) && RefusedAsTooBig(env, p, s))
      || r == Bad(NumberMissFraction, s.i + 1)
      || r == Bad(NumberMissExponent, Power(env.text, s.f))
  {
    hide ParseNumber, IntegerIs, IntegerTooBig, ExponentTooBig, Counted, AllDigits;
    if IntegerTooBig(env, Peek(env.text, p) == MINUS, s.q, s.i) {
      TooBigRead(env, p, s);
    } else {
      DigitsMissing(env, p, s);
      if NumberIs(env, p, s) && TooBig(env, p, s) {
        TooBigRead(env, p, s);
      } else if !NumberIs(env, p, s) {
        RunEnds(env.text, s.i + 1);
        RunEnds(env.text, Power(env.text, s.f));
      }
    }
  }

  /** The outcome when there is no integer part, and an end of it when there is one. */
  lemma IntegerFound(env: Env, p: nat) returns (i: nat)
    ensures IntegerIs(env, Start(env, p), i) || (ParseNumber(env, p).Bad? && ParseNumber(env, p).code == ValueInvalid)
    ensures !IntegerIs(env, Start(env, p), i) ==> forall j: nat :: !IntegerIs(env, Start(env, p), j)
  {
    var minus := Peek(env.text, p) == MINUS;
    IntegerMissing(env, minus, Start(env, p), p);
    hide IntegerIs, Integer;
    var r := Integer(env, minus, Start(env, p), p);
    i := if r.Got? then r.next else DigitsEnd(env.text, Start(env, p));
  }

  /** A text is read as a number exactly when it begins with one that is not too big; the other outcomes each say why. */
  lemma NumberIff(env: Env, p: nat)
    ensures ParseNumber(env, p).Got? <==> exists s :: NumberIs(env, p, s) && !TooBig(env, p, s)
    ensures ParseNumber(env, p) == Bad(NumberTooBig, p) <==> exists s :: RefusedAsTooBig(env, p, s)
    ensures ParseNumber(env, p).Bad? && ParseNumber(env, p).code == ValueInvalid <==>
            forall i: nat :: !IntegerIs(env, Start(env, p), i)
  {
    var i := IntegerFound(env, p);
    var s := PartsFrom(env.text, Start(env, p), i);
    if IntegerIs(env, s.q, i) {
      NumberCases(env, p, s);
    }
    hide ParseNumber, IntegerIs, TooBig, IntegerTooBig, ExponentTooBig;
    forall s | NumberIs(env, p, s) && !TooBig(env, p, s)
      ensures ParseNumber(env, p).Got?
    {
      NumberRead(env, p, s);
    }
    forall s | RefusedAsTooBig(env, p, s)
      ensures ParseNumber(env, p) == Bad(NumberTooBig, p)
    {
      TooBigRead(env, p, s);
    }
  }

  /** A dot or an `e` among the characters of a number makes it a double. */
  lemma DoubleIfMarked(env: Env, p: nat, k: nat)
    requires ParseNumber(env, p).Got? && p <= k < ParseNumber(env, p).next
    requires Peek(env.text, k) == DOT || IsE(Peek(env.text, k))
    ensures ParseNumber(env, p).value == Double(Slice(env.text, p, ParseNumber(env, p).next - p))
  {
    NumberIff(env, p);
    var s :| NumberIs(env, p, s) && !TooBig(env, p, s);
    NumberRead(env, p, s);
  }
}
