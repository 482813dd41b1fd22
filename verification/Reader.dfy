/**
 The reader as the class it is: a cursor over a character buffer, a stack shared by decoded strings and
 parser states, and a parse result. Its methods are proved against the functions of the other modules;
 in-situ parsing writes decoded strings into the buffer it reads from.
 */
module Reader {
  import opened Text
  import opened Sax
  import opened Lexer
  import opened Numbers
  import opened Recursive
  import opened Iterative
  import Utf8

  /** A decoded string left in the buffer: where it starts and what it held when it was handed out. */
  datatype Ref = Ref(head: nat, bytes: seq<Byte>)

  /** One escape of a string's body. */
  lemma BodyEscape(validate: bool, t: seq<Byte>, p: nat, out: seq<Byte>)
    requires Peek(t, p) == BACKSLASH
    ensures
      var e, u := Peek(t, p + 1), Lexer.UnicodeEscape(t, p + 2, p);
      StringBody(validate, t, p, out) ==
      if Unescape(e).Some? then StringBody(validate, t, p + 2, out + [Unescape(e).value])
      else if e != LOWER_U then Bad(StringEscapeInvalid, p)
      else if u.Bad? then Bad(u.code, u.offset)
      else StringBody(validate, t, u.next, out + Utf8.Encode(u.value))
  {
    hide Lexer.UnicodeEscape, Utf8.Encode;
  }

  /** One character of a string's body that is not an escape. */
  lemma BodyStep(validate: bool, t: seq<Byte>, p: nat, out: seq<Byte>)
    requires Peek(t, p) != BACKSLASH
    ensures
      var c, n := Peek(t, p), Utf8.Length(t, p);
      StringBody(validate, t, p, out) ==
      if c == QUOTE then Got(p + 1, out)
      else if c == NUL then Bad(StringMissQuotationMark, p)
      else if c < 0x20 then Bad(StringEscapeInvalid, p)
      else if !validate then StringBody(validate, t, p + 1, out + [c])
      else if n == 0 then Bad(StringInvalidEncoding, p)
      else StringBody(validate, t, p + n, out + Slice(t, p, n))
  {
    hide Utf8.Length, Slice;
  }

  class Reader {
    const insitu: bool
    const flags: Flags
    const accepts: seq<Event> -> bool
    const tooBig: seq<Byte> -> bool
    const buf: array<Byte>
    var src: nat
    var dst: nat
    var stack: seq<int>
    var events: seq<Event>
    var code: Option<ErrorCode>
    var offset: nat
    ghost const text: seq<Byte>
    ghost var refs: seq<Ref>

    constructor (insitu: bool, flags: Flags, buf: array<Byte>, accepts: seq<Event> -> bool, tooBig: seq<Byte> -> bool)
      ensures Valid() && this.buf == buf && text == buf[..] && this.insitu == insitu && this.flags == flags
      ensures this.accepts == accepts && this.tooBig == tooBig
      ensures src == 0 && stack == [] && events == [] && code.None? && refs == []
    {
      this.insitu, this.flags, this.buf, this.accepts, this.tooBig := insitu, flags, buf, accepts, tooBig;
      src, dst, stack, events, code, offset, refs := 0, 0, [], [], None, 0, [];
      text := buf[..];
    }

    ghost function Env(): Env {
      Sax.Env(text, flags, accepts, tooBig)
    }

    /** The string and the NUL after it are still in the buffer, and lie before the cursor. */
    ghost predicate Kept(r: Ref)
      reads this, buf
    {
      r.head + |r.bytes| < src && At(buf[..], r.head, r.bytes + [NUL])
    }

    /** What has not been read is as it was, and so is every string handed out; only in-situ mode writes. */
    ghost predicate Valid()
      reads this, buf
    {
      && buf.Length == |text|
      && (forall i | src <= i < |text| :: buf[i] == text[i])
      && (forall r | r in refs :: Kept(r))
      && (!insitu ==> buf[..] == text)
    }

    /** In-situ, every string sent is one of the strings left in the buffer, in order. */
    ghost predicate Tracked()
      reads this
    {
      insitu ==> BytesOf(refs) == StringsOf(events)
    }

    /** The parse so far: where it stands, or the error it has met. */
    function Result(): Outcome
      reads this
    {
      if code.None? then Ok(src, events) else Err(code.value, offset, events)
    }

    // ---------------------------------------------------------- Stream, result

    function PeekChar(): (c: Byte)
      reads this, buf
      ensures Valid() ==> c == Peek(text, src)
    {
      if src < buf.Length then buf[src] else NUL
    }

    method Take() returns (c: Byte)
      requires Valid()
      modifies this`src
      ensures Valid() && src == old(src) + 1 && c == Peek(text, old(src))
    {
      c := PeekChar();
      src := src + 1;
    }

    method Consume(expected: Byte) returns (ok: bool)
      requires Valid()
      modifies this`src
      ensures Valid() && ok == (Peek(text, old(src)) == expected)
      ensures src == if ok then old(src) + 1 else old(src)
    {
      ok := PeekChar() == expected;
      if ok {
        src := src + 1;
      }
    }

    /** An error is only ever set once. */
    method SetParseError(c: ErrorCode, o: nat)
      requires Valid() && code.None?
      modifies this`code, this`offset
      ensures Valid() && code == Some(c) && offset == o
    {
      code, offset := Some(c), o;
    }

    /** Sends an event; on refusal sets the termination error at `at`. */
    method Send(e: Event, at: nat)
      requires Valid() && code.None?
      modifies this`events, this`code, this`offset
      ensures Valid() && Result() == Emit(Env(), src, old(events), e, at) && events == old(events) + [e]
      ensures old(Tracked()) && !e.String? && !e.Key? ==> Tracked()
    {
      events := events + [e];
      assert events[..|events| - 1] == old(events);
      if !accepts(events) {
        SetParseError(Termination, at);
      }
    }

    /** Sends an event and only then takes the character it stands for. */
    method SendThenTake(e: Event)
      requires Valid() && code.None? && Tracked() && !e.String? && !e.Key?
      modifies this`src, this`events, this`code, this`offset
      ensures Valid() && Tracked() && Result() == Emit(Env(), old(src) + 1, old(events), e, old(src))
    {
      Send(e, src);
      if code.None? {
        src := src + 1;
      }
    }

    // ----------------------------------------------------- Whitespace, comments

    method SkipSpaces()
      requires Valid()
      modifies this`src
      ensures Valid() && src == SkipWhitespace(text, old(src))
    {
      while IsWhitespace(PeekChar())
        invariant Valid() && old(src) <= src
        invariant SkipWhitespace(text, src) == SkipWhitespace(text, old(src))
        decreases |text| - src
      {
        src := src + 1;
      }
    }

    /** The rest of a block comment; returns whether it was closed. */
    method SkipBlockComment()
      requires Valid() && code.None?
      modifies this`src, this`code, this`offset
      ensures Valid()
      ensures match BlockComment(text, old(src))
              case None => code == Some(UnspecificSyntaxError) && offset == BlockCommentEnd(text, old(src))
              case Some(q) => code.None? && src == q
    {
      while true
        invariant Valid() && code.None? && old(src) <= src
        invariant BlockComment(text, src) == BlockComment(text, old(src))
        invariant BlockCommentEnd(text, src) == BlockCommentEnd(text, old(src))
        decreases |text| - src
      {
        if PeekChar() == NUL {
          SetParseError(UnspecificSyntaxError, src);
          return;
        }
        var star := Consume(STAR);
        if star {
          var slash := Consume(SLASH);
          if slash {
            return;
          }
        } else {
          src := src + 1;
        }
      }
    }

    method SkipLineComment()
      requires Valid()
      modifies this`src
      ensures Valid() && src == LineComment(text, old(src))
    {
      while PeekChar() != NUL
        invariant Valid() && old(src) <= src
        invariant LineComment(text, src) == LineComment(text, old(src))
        decreases |text| - src
      {
        var c := Take();
        if c == LF {
          return;
        }
      }
    }

    /** One comment, from its slash on, and the whitespace after it. */
    method SkipComment()
      requires Valid() && code.None? && PeekChar() == SLASH
      modifies this`src, this`code, this`offset
      ensures Valid()
      ensures code.None? ==> old(src) < src && Comments(text, old(src)) == Comments(text, src)
      ensures code.Some? ==> Comments(text, old(src)) == Bad(code.value, offset)
    {
      src := src + 1;
      var star := Consume(STAR);
      if star {
        SkipBlockComment();
        if code.Some? {
          return;
        }
      } else {
        var slash := Consume(SLASH);
        if slash {
          SkipLineComment();
        } else {
          SetParseError(UnspecificSyntaxError, src);
          return;
        }
      }
      SkipSpaces();
    }

    method SkipWhitespaceAndComments()
      requires Valid() && code.None?
      modifies this`src, this`code, this`offset
      ensures Valid()
      ensures match Skip(Env(), old(src))
              case Bad(c, o) => code == Some(c) && offset == o
              case Got(q, _) => code.None? && src == q
    {
      SkipSpaces();
      if flags.comments {
        ghost var start := src;
        while PeekChar() == SLASH
          invariant Valid() && code.None? && start <= src
          invariant Comments(text, src) == Comments(text, start)
          decreases |text| - src
        {
          SkipComment();
          if code.Some? {
            return;
          }
        }
      }
    }

    // ----------------------------------------------------------------- Strings

    /**
     A string is being decoded: `out` so far is in the buffer from `head` on (in-situ) or on top of
     `base` on the stack, and no string handed out earlier reaches as far as `head`.
     */
    ghost predicate Writing(head: nat, base: seq<int>, out: seq<Byte>)
      reads this, buf
    {
      && (forall r | r in refs :: r.head + |r.bytes| < head)
      && (if insitu
          then dst == head + |out| && (forall i | 0 <= i < |out| && head + i < buf.Length :: buf[head + i] == out[i]) && stack == base
          else stack == base + out)
    }

    /** Puts a character into the string; in-situ this writes strictly behind the read cursor. */
    method Put(c: Byte, ghost head: nat, ghost base: seq<int>, ghost out: seq<Byte>)
      requires Valid() && Writing(head, base, out)
      requires insitu ==> head + |out| < src
      modifies this`dst, this`stack, buf
      ensures Valid() && Writing(head, base, out + [c])
      ensures insitu ==> forall i | 0 <= i < buf.Length && i != old(dst) :: buf[i] == old(buf[i])
    {
      if insitu {
        if dst < buf.Length {
          buf[dst] := c;
        }
        dst := dst + 1;
        forall r | r in refs ensures Kept(r) {
          assert old(Kept(r));
          var end := r.head + |r.bytes + [NUL]|;
          assert buf[..][r.head..end] == old(buf[..])[r.head..end];
        }
      } else {
        stack := stack + [c];
        assert base + (out + [c]) == (base + out) + [c];
      }
    }

    method PutAll(s: seq<Byte>, ghost head: nat, ghost base: seq<int>, ghost out: seq<Byte>)
      requires Valid() && Writing(head, base, out)
      requires insitu ==> head + |out| + |s| <= src
      modifies this`dst, this`stack, buf
      ensures Valid() && Writing(head, base, out + s)
    {
      assert out + s[..0] == out;
      for i := 0 to |s|
        invariant Valid() && Writing(head, base, out + s[..i])
      {
        Put(s[i], head, base, out + s[..i]);
        assert out + s[..i + 1] == out + s[..i] + [s[i]];
      }
      assert s[..|s|] == s;
    }

    /** Four hexadecimal digits. */
    method ParseHex4(escapeOffset: nat) returns (codepoint: nat)
      requires Valid() && code.None?
      modifies this`src, this`code, this`offset
      ensures Valid()
      ensures match Hex4(text, old(src))
              case None => code == Some(StringUnicodeEscapeInvalidHex) && offset == escapeOffset
              case Some(h) => code.None? && src == old(src) + 4 && codepoint == h
    {
      codepoint := 0;
      ghost var p := src;
      for i := 0 to 4
        invariant Valid() && code.None? && src == p + i
        invariant HexPrefix(text, p, i) == Some(codepoint)
      {
        var c := PeekChar();
        codepoint := codepoint * 16 + c;
        if IsDigit(c) {
          codepoint := codepoint - DIGIT_0;
        } else if UPPER_A <= c <= UPPER_F {
          codepoint := codepoint - (UPPER_A - 10);
        } else if LOWER_A <= c <= LOWER_F {
          codepoint := codepoint - (LOWER_A - 10);
        } else {
          NoHex(text, p, i);
          SetParseError(StringUnicodeEscapeInvalidHex, escapeOffset);
          return;
        }
        src := src + 1;
      }
      HexPrefixIsHex4(text, p);
    }

    /** A unicode escape after its `u`, with the second half of a surrogate pair. */
    method ParseUnicodeEscape(escapeOffset: nat) returns (codepoint: nat)
      requires Valid() && code.None?
      modifies this`src, this`code, this`offset
      ensures Valid()
      ensures match UnicodeEscape(text, old(src), escapeOffset)
              case Bad(c, o) => code == Some(c) && offset == o
              case Got(q, cp) => code.None? && src == q && codepoint == cp
    {
      codepoint := ParseHex4(escapeOffset);
      if code.None? && 0xD800 <= codepoint <= 0xDBFF {
        var ok := Consume(BACKSLASH);
        if ok {
          ok := Consume(LOWER_U);
        }
        if !ok {
          SetParseError(StringUnicodeSurrogateInvalid, escapeOffset);
          return;
        }
        var codepoint2 := ParseHex4(escapeOffset);
        if code.None? {
          if codepoint2 < 0xDC00 || codepoint2 > 0xDFFF {
            SetParseError(StringUnicodeSurrogateInvalid, escapeOffset);
            return;
          }
          codepoint := (codepoint - 0xD800) * 0x400 + (codepoint2 - 0xDC00) + 0x10000;
        }
      }
    }

    /** Copies one character of the text, checking that it is well-formed. */
    method CopyValidated(ghost head: nat, ghost base: seq<int>, ghost out: seq<Byte>) returns (ok: bool)
      requires Valid() && Writing(head, base, out)
      requires insitu ==> head + |out| <= src
      modifies this`src, this`dst, this`stack, buf
      ensures Valid() && ok == (Utf8.Length(text, old(src)) > 0)
      ensures ok ==> src == old(src) + Utf8.Length(text, old(src))
      ensures ok ==> Writing(head, base, out + Slice(text, old(src), Utf8.Length(text, old(src))))
    {
      var rest := if src < buf.Length then buf[src..] else [];
      assert forall i: nat :: Peek(rest, i) == Peek(text, src + i);
      assert Utf8.Length(rest, 0) == Utf8.Length(text, src);
      var input := new Utf8.StringStream(rest, 0);
      var os := new Utf8.OutputStream();
      ok := input.Validate(os);
      ghost var p := src;
      src := src + input.src;
      assert os.out == Slice(text, p, input.src);
      PutAll(os.out, head, base, out);
    }

    /** Decodes up to the closing quote and terminates the string with a NUL. */
    method ParseStringToStream(ghost base: seq<int>) returns (length: nat, ghost out: seq<Byte>)
      requires Valid() && code.None? && Writing(src, base, [])
      modifies this`src, this`dst, this`stack, this`code, this`offset, buf
      ensures Valid()
      ensures match StringBody(flags.validateEncoding, text, old(src), [])
              case Bad(c, o) => code == Some(c) && offset == o
              case Got(q, s) => code.None? && src == q && out == s && length == |out| + 1 && Writing(old(src), base, out + [NUL])
                                && (insitu ==> old(src) + |out| + 1 <= src)
    {
      hide StringBody, Utf8.Length, Slice;
      ghost var head := src;
      length, out := 0, [];
      while true
        invariant Valid() && code.None? && head <= src && Writing(head, base, out)
        invariant length == |out| && (insitu ==> head + |out| <= src)
        invariant StringBody(flags.validateEncoding, text, src, out) == StringBody(flags.validateEncoding, text, head, [])
        decreases |text| - src
      {
        var c := PeekChar();
        if c != BACKSLASH {
          BodyStep(flags.validateEncoding, text, src, out);
        }
        if c == BACKSLASH {
          var count;
          count, out := ParseEscape(head, base, out);
          length := length + count;
          if code.Some? {
            return;
          }
        } else if c == QUOTE {
          src := src + 1;
          Put(NUL, head, base, out);
          length := length + 1;
          return;
        } else if c < 0x20 {
          SetParseError(if c == NUL then StringMissQuotationMark else StringEscapeInvalid, src);
          return;
        } else if flags.validateEncoding {
          var at := src;
          var ok := CopyValidated(head, base, out);
          if !ok {
            SetParseError(StringInvalidEncoding, at);
            return;
          }
          length := length + (src - at);
          out := out + Slice(text, at, Utf8.Length(text, at));
        } else {
          src := src + 1;
          Put(c, head, base, out);
          length := length + 1;
          out := out + [c];
        }
      }
    }

    /** One escape sequence, from its backslash on. */
    method ParseEscape(ghost head: nat, ghost base: seq<int>, ghost out: seq<Byte>) returns (count: nat, ghost out': seq<Byte>)
      requires Valid() && code.None? && Writing(head, base, out) && PeekChar() == BACKSLASH
      requires insitu ==> head + |out| <= src
      modifies this`src, this`dst, this`stack, this`code, this`offset, buf
      ensures Valid()
      ensures var v := flags.validateEncoding;
              if code.Some? then StringBody(v, text, old(src), out) == Bad(code.value, offset)
              else
                && old(src) < src && |out'| == |out| + count && Writing(head, base, out') && (insitu ==> head + |out'| <= src)
                && StringBody(v, text, old(src), out) == StringBody(v, text, src, out')
    {
      hide StringBody, Utf8.Encode;
      BodyEscape(flags.validateEncoding, text, src, out);
      count, out' := 0, out;
      var escapeOffset := src;
      src := src + 1;
      var e := PeekChar();
      var plain := Unescape(e);
      if plain.Some? {
        src := src + 1;
        Put(plain.value, head, base, out);
        count, out' := 1, out + [plain.value];
      } else if e == LOWER_U {
        src := src + 1;
        var codepoint := ParseUnicodeEscape(escapeOffset);
        if code.Some? {
          return;
        }
        PutAll(Utf8.Encode(codepoint), head, base, out);
        count, out' := |Utf8.Encode(codepoint)|, out + Utf8.Encode(codepoint);
      } else {
        SetParseError(StringEscapeInvalid, escapeOffset);
      }
    }

    /** The decoded string: the buffer from `head` on, or the top `length` cells of the stack, popped. */
    method TakeString(head: nat, length: nat, ghost base: seq<int>, ghost out: seq<Byte>) returns (s: seq<Byte>)
      requires Valid() && length == |out| + 1 && Writing(head, base, out + [NUL])
      requires insitu ==> head + length <= src <= buf.Length
      modifies this`stack
      ensures Valid() && s == out && stack == base
      ensures insitu ==> At(buf[..], head, s + [NUL]) && head + |s| < src
    {
      ghost var all := out + [NUL];
      if insitu {
        s := buf[head..dst - 1];
        assert buf[..][head..dst] == all;
        assert forall i | 0 <= i < |out| :: buf[head + i] == all[i] && all[i] == out[i];
        assert s == out;
      } else {
        var n := |stack| - length;
        assert stack == base + all;
        assert stack[n..|stack| - 1] == out;
        s := stack[n..|stack| - 1];
        stack := stack[..n];
      }
    }

    /**
     A string from its opening quote on. In-situ, it is decoded into the buffer over its own escapes and
     handed out from there; otherwise it is decoded on the stack, which ends as it was.
     */
    method ParseString(isKey: bool)
      requires Valid() && code.None? && PeekChar() == QUOTE && Tracked()
      modifies this, buf
      ensures Valid() && Tracked() && old(refs) <= refs
      ensures Result() == Recursive.ParseString(Env(), old(src), old(events), isKey)
      ensures code.None? ==> stack == old(stack)
    {
      hide StringBody;
      src := src + 1;
      var head := src;
      dst := src;
      ghost var base := stack;
      assert base + [] == base;
      var length, out := ParseStringToStream(base);
      if code.Some? {
        return;
      }
      var s := TakeString(head, length, base, out);
      ghost var before := events;
      Send(if isKey then Key(s) else String(s), src);
      assert events[..|events| - 1] == before;
      if insitu {
        ghost var known := refs;
        refs := refs + [Ref(head, s)];
        assert BytesOf(refs) == BytesOf(known) + [s];
      }
    }

    // ----------------------------------------------------------------- Numbers

    ghost predicate Scanning(q: nat)
      reads this, buf
    {
      && Valid() && code.None? && q < src <= |text|
      && AllDigits(text, q, src) && DigitsEnd(text, src) == DigitsEnd(text, q)
    }

    /** Digits into a 32-bit accumulator that never wraps; stops early when the next one would not fit. */
    method ScanNarrow(minus: bool, ghost q: nat, first: nat) returns (i: nat, use64bit: bool, digits: nat)
      requires Scanning(q) && src == q + 1 && first == DigitsValue(text, q, src)
      modifies this`src
      ensures Scanning(q) && digits == src - q - 1 && i == DigitsValue(text, q, src) <= NarrowLimit(minus)
      ensures if use64bit then DigitsValue(text, q, DigitsEnd(text, q)) > NarrowLimit(minus)
              else src == DigitsEnd(text, q)
    {
      i, use64bit, digits := first, false, 0;
      assert i == DigitsValue(text, q, q) * 10 + (Peek(text, q) - DIGIT_0);
      while IsDigit(PeekChar())
        invariant Scanning(q) && digits == src - q - 1
        invariant i == DigitsValue(text, q, src) <= NarrowLimit(minus)
        decreases |text| - src
      {
        var d := PeekChar() - DIGIT_0;
        if minus {
          if i >= 214748364 && (i != 214748364 || d > 8) {
            use64bit := true;
          }
        } else {
          if i >= 429496729 && (i != 429496729 || d > 5) {
            use64bit := true;
          }
        }
        assert DigitsValue(text, q, src + 1) == i * 10 + d;
        if use64bit {
          DigitsValueMonotone(text, q, src + 1, DigitsEnd(text, q));
          return;
        }
        i := U32(i * 10 + d);
        src := src + 1;
        digits := digits + 1;
      }
    }

    /** The same in a 64-bit accumulator, going on from where the 32-bit one stopped. */
    method ScanWide(minus: bool, ghost q: nat, first: nat, count: nat) returns (i64: nat, useDouble: bool, digits: nat)
      requires Scanning(q) && first == DigitsValue(text, q, src) <= NarrowLimit(minus) && count == src - q - 1
      modifies this`src
      ensures Scanning(q) && digits == src - q - 1 && i64 == DigitsValue(text, q, src) <= WideLimit(minus)
      ensures old(src) <= src <= DigitsEnd(text, q)
      ensures if useDouble then src < DigitsEnd(text, q) && DigitsValue(text, q, src + 1) > WideLimit(minus)
              else src == DigitsEnd(text, q)
    {
      i64, useDouble, digits := first, false, count;
      while IsDigit(PeekChar())
        invariant Scanning(q) && digits == src - q - 1 && old(src) <= src
        invariant i64 == DigitsValue(text, q, src) <= WideLimit(minus)
        decreases |text| - src
      {
        var d := PeekChar() - DIGIT_0;
        if minus {
          if i64 >= 0x0CCC_CCCC_CCCC_CCCC && (i64 != 0x0CCC_CCCC_CCCC_CCCC || d > 8) {
            useDouble := true;
          }
        } else {
          if i64 >= 0x1999_9999_9999_9999 && (i64 != 0x1999_9999_9999_9999 || d > 5) {
            useDouble := true;
          }
        }
        assert DigitsValue(text, q, src + 1) == i64 * 10 + d;
        if useDouble {
          return;
        }
        i64 := U64(i64 * 10 + d);
        src := src + 1;
        digits := digits + 1;
      }
    }

    /** The digits left go into a double, unless it grows too big. */
    method ScanReal(q: nat, startOffset: nat)
      requires Scanning(q) && forall i | q <= i < |text| :: buf[i] == text[i]
      modifies this`src, this`code, this`offset
      ensures Valid()
      ensures if TooBigFrom(Env(), q, old(src), DigitsEnd(text, q)) then code == Some(NumberTooBig) && offset == startOffset
              else code.None? && src == DigitsEnd(text, q)
    {
      while IsDigit(PeekChar())
        invariant Scanning(q)
        invariant TooBigFrom(Env(), q, src, DigitsEnd(text, q)) == TooBigFrom(Env(), q, old(src), DigitsEnd(text, q))
        decreases |text| - src
      {
        assert buf[q..src] == Slice(text, q, src - q);
        if tooBig(buf[q..src]) {
          SetParseError(NumberTooBig, startOffset);
          return;
        }
        src := src + 1;
      }
    }

    /** Takes the characters of `word` as long as they match. */
    method ConsumeWord(word: seq<Byte>) returns (ok: bool)
      requires Valid() && NUL !in word
      modifies this`src
      ensures Valid() && (ok, src) == Match(text, old(src), word)
    {
      ok := true;
      ghost var p := src;
      var k := 0;
      while ok && k < |word|
        invariant Valid() && k <= |word|
        invariant ok ==> Match(text, p, word) == Match(text, src, word[k..])
        invariant !ok ==> Match(text, p, word) == (false, src)
        decreases |word| - k, ok
      {
        ok := Consume(word[k]);
        if ok {
          k := k + 1;
        }
      }
    }

    method ParseSpecial() returns (part: IntegerPart)
      requires Valid() && code.None?
      modifies this`src, this`code, this`offset
      ensures Valid()
      ensures match Special(text, old(src))
              case Bad(c, o) => code == Some(c) && offset == o
              case Got(p, v) => code.None? && src == p && part == v
    {
      part := IntegerPart(Narrow(0), 0, true);
      var ok := ConsumeWord(NAN_WORD);
      if !ok {
        ok := ConsumeWord(INF_WORD);
        if ok && PeekChar() == LOWER_I {
          ok := ConsumeWord(INITY_WORD);
        }
        if !ok {
          SetParseError(ValueInvalid, src);
        }
      }
    }

    method ParseIntegerPart(minus: bool, startOffset: nat) returns (part: IntegerPart)
      requires Valid() && code.None? && src <= |text|
      modifies this`src, this`code, this`offset
      ensures Valid()
      ensures match Integer(Env(), minus, old(src), startOffset)
              case Bad(c, o) => code == Some(c) && offset == o
              case Got(p, v) => code.None? && src == p && part == v
    {
      var c := PeekChar();
      if c == DIGIT_0 {
        part := IntegerPart(Narrow(0), 0, false);
        src := src + 1;
      } else if IsDigit(c) {
        part := ParseDigits(minus, startOffset);
      } else if flags.nanAndInf && (c == UPPER_I || c == UPPER_N) {
        part := ParseSpecial();
      } else {
        part := IntegerPart(Narrow(0), 0, false);
        SetParseError(ValueInvalid, src);
      }
    }

    /** An integer part that starts with a digit from 1 to 9. */
    method ParseDigits(minus: bool, startOffset: nat) returns (part: IntegerPart)
      requires Valid() && code.None? && src < |text|
      requires IsDigit(PeekChar()) && PeekChar() != DIGIT_0
      modifies this`src, this`code, this`offset
      ensures Valid()
      ensures match IntegerDigits(Env(), minus, old(src), startOffset)
              case Bad(c, o) => code == Some(c) && offset == o
              case Got(p, v) => code.None? && src == p && part == v
    {
      var q := src;
      var first := PeekChar() - DIGIT_0;
      assert DigitsValue(text, q, q) == 0;
      src := src + 1;
      var i, use64bit, digits := ScanNarrow(minus, q, first);
      if !use64bit {
        return IntegerPart(Narrow(i), digits, false);
      }
      part := ParseLongDigits(minus, startOffset, q, i, digits);
    }

    /** The rest of a run of digits that 32 bits do not hold. */
    method ParseLongDigits(minus: bool, startOffset: nat, q: nat, first: nat, count: nat) returns (part: IntegerPart)
      requires Scanning(q) && first == DigitsValue(text, q, src) <= NarrowLimit(minus) && count == src - q - 1
      requires IsDigit(Peek(text, q)) && DigitsValue(text, q, DigitsEnd(text, q)) > NarrowLimit(minus)
      requires forall i | q <= i < |text| :: buf[i] == text[i]
      modifies this`src, this`code, this`offset
      ensures Valid()
      ensures match IntegerDigits(Env(), minus, q, startOffset)
              case Bad(c, o) => code == Some(c) && offset == o
              case Got(p, v) => code.None? && src == p && part == v
    {
      ghost var e := DigitsEnd(text, q);
      var i64, useDouble, digits := ScanWide(minus, q, first, count);
      if !useDouble {
        return IntegerPart(Wide(i64), digits, false);
      }
      DigitsValueMonotone(text, q, src + 1, e);
      FitEndIs(text, q, q + 1, e, WideLimit(minus), src);
      part := IntegerPart(Real, digits, false);
      ScanReal(q, startOffset);
    }

    /** Fraction digits, first into the 64-bit significand and then into the double; returns the exponent shift. */
    method ScanFraction(i64: nat, positive: bool, inInteger: bool, count: nat) returns (expFrac: int)
      requires Valid() && code.None?
      modifies this`src
      ensures Valid()
      ensures Fraction(src, true, expFrac) ==
              if inInteger then FractionDigits(text, old(src), i64, count, 0)
              else RealFractionDigits(text, old(src), positive, count, 0)
    {
      var n: nat, digits: nat, isPositive := i64, count, positive;
      expFrac := 0;
      ghost var p := src;
      if inInteger {
        while IsDigit(PeekChar()) && n <= 0x1F_FFFF_FFFF_FFFF
          invariant Valid()
          invariant FractionDigits(text, src, n, digits, expFrac) == FractionDigits(text, p, i64, count, 0)
          decreases |text| - src
        {
          n := n * 10 + (PeekChar() - DIGIT_0);
          src := src + 1;
          expFrac := expFrac - 1;
          if n != 0 {
            digits := digits + 1;
          }
        }
        isPositive := n > 0;
      }
      while IsDigit(PeekChar())
        invariant Valid()
        invariant RealFractionDigits(text, src, isPositive, digits, expFrac) ==
                  if inInteger then FractionDigits(text, p, i64, count, 0)
                  else RealFractionDigits(text, p, positive, count, 0)
        decreases |text| - src
      {
        var c := Take();
        if digits < 17 {
          isPositive := isPositive || c != DIGIT_0;
          expFrac := expFrac - 1;
          if isPositive {
            digits := digits + 1;
          }
        }
      }
    }

    method ParseFractionPart(part: IntegerPart) returns (fraction: Fraction)
      requires Valid() && code.None?
      modifies this`src, this`code, this`offset
      ensures Valid()
      ensures match ParseFraction(text, old(src), part)
              case Bad(c, o) => code == Some(c) && offset == o
              case Got(p, f) => code.None? && src == p && fraction == f
    {
      fraction := Fraction(src, part.sig.Real?, 0);
      var dot := Consume(DOT);
      if dot {
        if !IsDigit(PeekChar()) {
          SetParseError(NumberMissFraction, src);
          return;
        }
        var expFrac;
        if part.sig.Real? {
          expFrac := ScanFraction(0, true, false, part.significantDigits);
        } else {
          expFrac := ScanFraction(part.sig.n, true, true, part.significantDigits);
        }
        fraction := Fraction(src, true, expFrac);
      }
    }

    method ParseExponentPart(expFrac: int, startOffset: nat) returns (hasExponent: bool)
      requires Valid() && code.None? && expFrac <= 0
      modifies this`src, this`code, this`offset
      ensures Valid()
      ensures match ParseExponent(text, old(src), expFrac, startOffset)
              case Bad(c, o) => code == Some(c) && offset == o
              case Got(p, h) => code.None? && src == p && hasExponent == h
    {
      hide DigitsValue, DigitsEnd, Valid;
      hasExponent := Consume(LOWER_E);
      if !hasExponent {
        hasExponent := Consume(UPPER_E);
      }
      if !hasExponent {
        return;
      }
      var expMinus := false;
      var plus := Consume(PLUS);
      if !plus {
        expMinus := Consume(MINUS);
      }
      if !IsDigit(PeekChar()) {
        SetParseError(NumberMissExponent, src);
      } else if expMinus {
        ScanNegativeExponent();
      } else {
        ScanPositiveExponent(308 - expFrac, startOffset);
      }
    }

    /** All exponent digits are taken; the accumulator stops growing before it could overflow. */
    method ScanNegativeExponent()
      requires Valid() && IsDigit(PeekChar())
      modifies this`src
      ensures Valid() && src == DigitsEnd(text, old(src))
    {
      var exp := PeekChar() - DIGIT_0;
      src := src + 1;
      while IsDigit(PeekChar())
        invariant Valid() && DigitsEnd(text, src) == DigitsEnd(text, old(src))
        invariant exp < 0x8000_0000 && (exp >= 214748364 ==> !IsDigit(PeekChar()))
        decreases |text| - src
      {
        exp := exp * 10 + (PeekChar() - DIGIT_0);
        src := src + 1;
        if exp >= 214748364 {
          while IsDigit(PeekChar())
            invariant Valid() && DigitsEnd(text, src) == DigitsEnd(text, old(src))
            decreases |text| - src
          {
            src := src + 1;
          }
        }
      }
    }

    method ScanPositiveExponent(maxExp: nat, startOffset: nat)
      requires Valid() && code.None? && IsDigit(PeekChar()) && maxExp >= 308
      modifies this`src, this`code, this`offset
      ensures Valid()
      ensures if DigitsValue(text, old(src), DigitsEnd(text, old(src))) > maxExp then code == Some(NumberTooBig) && offset == startOffset
              else code.None? && src == DigitsEnd(text, old(src))
    {
      ghost var q := src;
      ghost var e := DigitsEnd(text, q);
      assert DigitsValue(text, q, q) == 0;
      var exp := PeekChar() - DIGIT_0;
      src := src + 1;
      while IsDigit(PeekChar())
        invariant Valid() && code.None? && q < src <= e && DigitsEnd(text, src) == e
        invariant exp == DigitsValue(text, q, src) <= maxExp
        decreases |text| - src
      {
        exp := exp * 10 + (PeekChar() - DIGIT_0);
        src := src + 1;
        if exp > maxExp {
          DigitsValueMonotone(text, q, src, e);
          SetParseError(NumberTooBig, startOffset);
          return;
        }
      }
    }

    /** A number: its grammar, then the event for the kind of significand it ended with. */
    method ParseNumber()
      requires Valid() && code.None? && src <= |text| && Tracked()
      modifies this`src, this`events, this`code, this`offset
      ensures Valid() && Tracked()
      ensures match Numbers.ParseNumber(Env(), old(src))
              case Bad(c, o) => Result() == Err(c, o, old(events))
              case Got(q, e) => Result() == Emit(Env(), q, old(events), e, old(src))
    {
      hide Integer, ParseFraction, ParseExponent, NumberEvent;
      var startOffset := src;
      var minus := Consume(MINUS);
      var part := ParseIntegerPart(minus, startOffset);
      if code.Some? {
        return;
      }
      var fraction := ParseFractionPart(part);
      if code.Some? {
        return;
      }
      var hasExponent := ParseExponentPart(fraction.expFrac, startOffset);
      if code.Some? {
        return;
      }
      assert buf[startOffset..src] == Slice(text, startOffset, src - startOffset);
      NumberIsNoString(minus, part, fraction.useDouble || hasExponent, buf[startOffset..src]);
      Send(NumberEvent(minus, part, fraction.useDouble || hasExponent, buf[startOffset..src]), startOffset);
    }

    static lemma NumberIsNoString(minus: bool, part: IntegerPart, useDouble: bool, lexeme: seq<Byte>)
      ensures var e := NumberEvent(minus, part, useDouble, lexeme); !e.String? && !e.Key?
    {}

    /** A literal from its first character on. */
    method ParseLiteral(tail: seq<Byte>, e: Event)
      requires Valid() && code.None? && NUL !in tail && !e.String? && !e.Key? && Tracked()
      modifies this`src, this`events, this`code, this`offset
      ensures Valid() && Tracked()
      ensures Result() == Recursive.ParseLiteral(Env(), old(src), old(events), tail, e)
    {
      src := src + 1;
      var ok := ConsumeWord(tail);
      if ok {
        Send(e, src);
      } else {
        SetParseError(ValueInvalid, src);
      }
    }

    // ------------------------------------------------------- Recursive descent

    /** Ready to read a value: no error so far, nothing read past the text. */
    ghost predicate Ready()
      reads this, buf
    {
      Valid() && Tracked() && code.None? && src <= |text|
    }

    method ParseValue()
      requires Ready()
      modifies this, buf
      ensures Valid() && Tracked() && old(refs) <= refs
      ensures Result() == Recursive.ParseValue(Env(), old(src), old(events))
      ensures code.None? ==> stack == old(stack)
      decreases |text| - src, 2
    {
      hide Numbers.ParseNumber, Recursive.ParseString, Recursive.ParseLiteral, Recursive.ParseObject, Recursive.ParseArray;
      var c := PeekChar();
      if c == LOWER_N {
        ParseLiteral(NULL_TAIL, Event.Null);
      } else if c == LOWER_T {
        ParseLiteral(TRUE_TAIL, Bool(true));
      } else if c == LOWER_F {
        ParseLiteral(FALSE_TAIL, Bool(false));
      } else if c == QUOTE {
        ParseString(false);
      } else if c == LBRACE {
        ParseObject();
      } else if c == LBRACKET {
        ParseArray();
      } else {
        ParseNumber();
      }
    }

    method ParseObject()
      requires Ready() && PeekChar() == LBRACE
      modifies this, buf
      ensures Valid() && Tracked() && old(refs) <= refs
      ensures Result() == Recursive.ParseObject(Env(), old(src), old(events))
      ensures code.None? ==> stack == old(stack)
      decreases |text| - src, 1
    {
      hide Lexer.Skip, Recursive.ParseMembers;
      src := src + 1;
      Send(StartObject, src);
      if code.Some? { return; }
      SkipWhitespaceAndComments();
      if code.Some? { return; }
      var empty := Consume(RBRACE);
      if empty {
        Send(EndObject(0), src);
        return;
      }
      ParseObjectMembers();
    }

    /** The loop over members: name, colon, value, then a comma or the closing brace. */
    method ParseObjectMembers()
      requires Ready()
      modifies this, buf
      ensures Valid() && Tracked() && old(refs) <= refs
      ensures Result() == Recursive.ParseMembers(Env(), old(src), old(events), 0)
      ensures code.None? ==> stack == old(stack)
      decreases |text| - src, 3
    {
      hide Lexer.Skip, Recursive.ParseMember, Recursive.AfterMember, Recursive.Emit;
      var memberCount := 0;
      while true
        invariant Ready() && old(refs) <= refs && old(src) <= src && stack == old(stack)
        invariant Recursive.ParseMembers(Env(), src, events, memberCount) == Recursive.ParseMembers(Env(), old(src), old(events), 0)
        decreases |text| - src
      {
        ParseMember();
        if code.Some? { return; }
        memberCount := memberCount + 1;
        var more := NextMember(memberCount);
        if !more { return; }
      }
    }

    /** After a member: takes a comma and tells that more follow, or ends the object. */
    method NextMember(memberCount: nat) returns (more: bool)
      requires Ready()
      modifies this`src, this`events, this`code, this`offset
      ensures Valid() && Tracked()
      ensures var rest := Recursive.AfterMember(Env(), old(src), old(events), memberCount);
              if more then Ready() && old(src) < src && rest == Recursive.ParseMembers(Env(), src, events, memberCount)
              else Result() == rest
    {
      hide Lexer.Skip, Recursive.ParseMembers, Recursive.Emit;
      var c := PeekChar();
      more := false;
      if c == COMMA {
        src := src + 1;
        SkipWhitespaceAndComments();
        if code.Some? { return; }
      } else if c == RBRACE {
        src := src + 1;
        Send(EndObject(memberCount), src);
        return;
      } else {
        SetParseError(ObjectMissCommaOrCurlyBracket, src);
        return;
      }
      if flags.trailingCommas && PeekChar() == RBRACE {
        SendThenTake(EndObject(memberCount));
        return;
      }
      more := true;
    }

    method ParseMember()
      requires Ready()
      modifies this, buf
      ensures Valid() && Tracked() && old(refs) <= refs
      ensures Result() == Recursive.ParseMember(Env(), old(src), old(events))
      ensures code.None? ==> stack == old(stack)
      decreases |text| - src, 2
    {
      hide Lexer.Skip, Recursive.ParseValue, Recursive.ParseString;
      if PeekChar() != QUOTE {
        SetParseError(ObjectMissName, src);
        return;
      }
      ParseString(true);
      if code.Some? { return; }
      SkipWhitespaceAndComments();
      if code.Some? { return; }
      var colon := Consume(COLON);
      if !colon {
        SetParseError(ObjectMissColon, src);
        return;
      }
      SkipWhitespaceAndComments();
      if code.Some? { return; }
      ParseValue();
      if code.Some? { return; }
      SkipWhitespaceAndComments();
    }

    method ParseArray()
      requires Ready() && PeekChar() == LBRACKET
      modifies this, buf
      ensures Valid() && Tracked() && old(refs) <= refs
      ensures Result() == Recursive.ParseArray(Env(), old(src), old(events))
      ensures code.None? ==> stack == old(stack)
      decreases |text| - src, 1
    {
      hide Lexer.Skip, Recursive.ParseElements;
      src := src + 1;
      Send(StartArray, src);
      if code.Some? { return; }
      SkipWhitespaceAndComments();
      if code.Some? { return; }
      var empty := Consume(RBRACKET);
      if empty {
        Send(EndArray(0), src);
        return;
      }
      ParseArrayElements();
    }

    /** The loop over elements: a value, then a comma or the closing bracket. */
    method ParseArrayElements()
      requires Ready()
      modifies this, buf
      ensures Valid() && Tracked() && old(refs) <= refs
      ensures Result() == Recursive.ParseElements(Env(), old(src), old(events), 0)
      ensures code.None? ==> stack == old(stack)
      decreases |text| - src, 3
    {
      hide Lexer.Skip, Recursive.ParseValue, Recursive.AfterElement, Recursive.Emit;
      var elementCount := 0;
      while true
        invariant Ready() && old(refs) <= refs && old(src) <= src && stack == old(stack)
        invariant Recursive.ParseElements(Env(), src, events, elementCount) == Recursive.ParseElements(Env(), old(src), old(events), 0)
        decreases |text| - src
      {
        ParseValue();
        if code.Some? { return; }
        elementCount := elementCount + 1;
        SkipWhitespaceAndComments();
        if code.Some? { return; }
        var more := NextElement(elementCount);
        if !more { return; }
      }
    }

    /** After an element: takes a comma and tells that more follow, or ends the array. */
    method NextElement(elementCount: nat) returns (more: bool)
      requires Ready()
      modifies this`src, this`events, this`code, this`offset
      ensures Valid() && Tracked()
      ensures var rest := Recursive.AfterElement(Env(), old(src), old(events), elementCount);
              if more then Ready() && old(src) < src && rest == Recursive.ParseElements(Env(), src, events, elementCount)
              else Result() == rest
    {
      hide Lexer.Skip, Recursive.ParseElements, Recursive.Emit;
      more := false;
      var comma := Consume(COMMA);
      if comma {
        SkipWhitespaceAndComments();
        if code.Some? { return; }
      } else {
        var close := Consume(RBRACKET);
        if close {
          Send(EndArray(elementCount), src);
        } else {
          SetParseError(ArrayMissCommaOrSquareBracket, src);
        }
        return;
      }
      if flags.trailingCommas && PeekChar() == RBRACKET {
        SendThenTake(EndArray(elementCount));
        return;
      }
      more := true;
    }

    /** Parses the whole text by recursive descent. */
    method Parse()
      requires Ready() && src == 0 && events == []
      modifies this, buf
      ensures Valid() && Tracked() && old(refs) <= refs
      ensures Result() == Recursive.Parse(Env())
    {
      hide Lexer.Skip, Recursive.ParseValue;
      SkipWhitespaceAndComments();
      if code.Some? { return; }
      if PeekChar() == NUL {
        SetParseError(DocumentEmpty, src);
        return;
      }
      ParseValue();
      if code.Some? { return; }
      if !flags.stopWhenDone {
        SkipWhitespaceAndComments();
        if code.Some? { return; }
        if PeekChar() != NUL {
          SetParseError(DocumentRootNotSingular, src);
        }
      }
    }

    // -------------------------------------------------------- Iterative parser

    /** The configuration the run is in. */
    ghost function Current(state: State, frames: seq<Frame>): Config
      reads this
    {
      Config(state, frames, src, events)
    }

    /** The container cells on the stack are the frames, two words each. */
    ghost predicate Running(state: State, frames: seq<Frame>)
      reads this, buf
    {
      Ready() && stack == Flatten(frames) && Inv(Current(state, frames))
    }

    /** Reads a scalar or a name on behalf of the table. */
    method TransitScalar(isKey: bool, ghost from: State, ghost frames: seq<Frame>)
      requires Running(from, frames) && PeekChar() != LBRACE && PeekChar() != LBRACKET
      requires isKey ==> PeekChar() == QUOTE
      modifies this, buf
      ensures Valid() && Tracked() && old(refs) <= refs
      ensures Result() == if isKey then Recursive.ParseString(Env(), old(src), old(events), true)
                          else ParseScalar(Env(), old(src), old(events))
      ensures code.None? ==> stack == old(stack)
    {
      hide Recursive.ParseString, ParseScalar;
      if isKey {
        ParseString(true);
      } else {
        ParseValue();
      }
    }

    /** Pushes the return state and a zero count, and tells the handler. */
    method TransitOpen(from: State, dst: State, ghost frames: seq<Frame>) returns (to: State, ghost frames': seq<Frame>)
      requires Running(from, frames) && src < |text| && (dst == ObjectInitial || dst == ArrayInitial)
      modifies this
      ensures Valid() && Tracked() && refs == old(refs)
      ensures var step := Open(Env(), old(Current(from, frames)), dst, if dst == ObjectInitial then StartObject else StartArray);
              if to == Error then code.Some? && step == Stop(Result())
              else code.None? && stack == Flatten(frames') && step == Next(Current(to, frames'))
      ensures to == Error || (to == dst && src == old(src) + 1)
    {
      hide Valid, Tracked, Flatten;
      frames' := PushFrame(from, frames);
      SendThenTake(if dst == ObjectInitial then StartObject else StartArray);
      to := if code.Some? then Error else dst;
    }

    method PushFrame(from: State, ghost frames: seq<Frame>) returns (ghost frames': seq<Frame>)
      requires Valid() && Tracked() && stack == Flatten(frames)
      modifies this`stack
      ensures Valid() && Tracked()
      ensures frames' == frames + [Frame(ReturnState(from), 0)] && stack == Flatten(frames')
    {
      hide Flatten;
      var n := from;
      if from == ArrayInitial || from == ElementDelimiter {
        n := Element;
      } else if from == KeyValueDelimiter {
        n := MemberValue;
      }
      stack := stack + [StateCode(n)];
      stack := stack + [0];
      frames' := frames + [Frame(n, 0)];
      FlattenPush(frames, Frame(n, 0));
    }

    /** Takes a comma and counts the value before it. */
    method TransitComma(dst: State, ghost from: State, ghost frames: seq<Frame>) returns (ghost frames': seq<Frame>)
      requires Running(from, frames) && src < |text| && frames != []
      modifies this`src, this`stack
      ensures Valid() && Tracked() && code.None? && stack == Flatten(frames')
      ensures Count(old(Current(from, frames)), dst) == Next(Current(dst, frames')) && src == old(src) + 1
    {
      hide Flatten, StringsOf, BytesOf;
      ghost var n := |frames| - 1;
      ghost var top := frames[n].(count := frames[n].count + 1);
      frames' := frames[n := top];
      FlattenPush(frames[..n], frames[n]);
      FlattenPush(frames[..n], top);
      assert frames[..n] + [frames[n]] == frames && frames[..n] + [top] == frames';
      src := src + 1;
      stack := stack[|stack| - 1 := stack[|stack| - 1] + 1];
      assert stack == Flatten(frames');
    }

    /** Pops the count and the return state of the top container. */
    method PopFrame(ghost frames: seq<Frame>) returns (count: nat, ret: State, ghost frames': seq<Frame>)
      requires Valid() && Tracked() && stack == Flatten(frames) && frames != []
      modifies this`stack
      ensures Valid() && Tracked() && stack == Flatten(frames')
      ensures frames' == frames[..|frames| - 1] && frames[|frames| - 1] == Frame(ret, count)
    {
      hide Flatten, StringsOf, BytesOf;
      ghost var k := |frames| - 1;
      FlattenPush(frames[..k], frames[k]);
      assert frames[..k] + [frames[k]] == frames;
      frames' := frames[..k];
      assert stack == Flatten(frames') + [StateCode(frames[k].ret), frames[k].count];
      count := stack[|stack| - 1];
      stack := stack[..|stack| - 1];
      ret := CodeState(stack[|stack| - 1]);
      stack := stack[..|stack| - 1];
    }

    /** Ends the top container, and goes back to the state it was opened from. */
    method TransitClose(from: State, isObject: bool, ghost frames: seq<Frame>) returns (to: State, ghost frames': seq<Frame>)
      requires Running(from, frames) && src < |text| && frames != []
      modifies this
      ensures Valid() && Tracked() && refs == old(refs)
      ensures var last := if isObject then MemberValue else Element;
              var step := Close(Env(), old(Current(from, frames)), last, isObject);
              if to == Error then code.Some? && step == Stop(Result())
              else code.None? && stack == Flatten(frames') && step == Next(Current(to, frames'))
      ensures to != Error ==> src == old(src) + 1
    {
      hide Flatten, Valid, Tracked;
      var c, n;
      c, n, frames' := PopFrame(frames);
      if from == (if isObject then MemberValue else Element) {
        c := c + 1;
      }
      if n == Start {
        n := Finish;
      }
      SendThenTake(if isObject then EndObject(c) else EndArray(c));
      to := if code.Some? then Error else n;
    }

    /**
     One transition to the state the table gives, or to the state that a closed container returns to;
     Error when the parse cannot go on, with the error already set unless the table itself refused.
     */
    method Transit(from: State, dst: State, ghost frames: seq<Frame>) returns (to: State, ghost frames': seq<Frame>)
      requires Running(from, frames) && src < |text| && PeekChar() != NUL
      requires dst == Predict(from, Tokenize(PeekChar()))
      modifies this, buf
      ensures Valid() && Tracked() && old(refs) <= refs
      ensures var step := Iterative.Transit(Env(), old(Current(from, frames)));
              if to == Error then
                step == Stop(if code.Some? then Result() else Err(StateError(from), old(src), old(events)))
                && (code.None? ==> src == old(src) && events == old(events))
              else Running(to, frames') && old(src) < src && step == Next(Current(to, frames'))
    {
      hide Recursive.ParseString, ParseScalar, Open, Close, Count, Emit, StateError;
      ghost var step := Iterative.Transit(Env(), Current(from, frames));
      frames', to := frames, Error;
      match dst {
        case Error =>
        case ObjectInitial =>
          to, frames' := TransitOpen(from, dst, frames);
        case ArrayInitial =>
          to, frames' := TransitOpen(from, dst, frames);
        case MemberKey =>
          TransitScalar(true, from, frames);
          to := if code.Some? then Error else dst;
        case KeyValueDelimiter =>
          src := src + 1;
          to := dst;
        case MemberValue =>
          TransitScalar(false, from, frames);
          to := if code.Some? then Error else dst;
        case Element =>
          TransitScalar(false, from, frames);
          to := if code.Some? then Error else dst;
        case MemberDelimiter =>
          frames' := TransitComma(dst, from, frames);
          to := dst;
        case ElementDelimiter =>
          frames' := TransitComma(dst, from, frames);
          to := dst;
        case ObjectFinish =>
          if !flags.trailingCommas && from == MemberDelimiter {
            SetParseError(ObjectMissName, src);
          } else {
            to, frames' := TransitClose(from, true, frames);
          }
        case ArrayFinish =>
          if !flags.trailingCommas && from == ElementDelimiter {
            SetParseError(ValueInvalid, src);
          } else {
            to, frames' := TransitClose(from, false, frames);
          }
        case Value =>
          TransitScalar(false, from, frames);
          to := if code.Some? then Error else Finish;
      }
    }

    /** The error of the state the run stopped in, unless one has been set. */
    method HandleError(from: State)
      requires Valid() && (code.None? ==> from == Start || from == Finish || InContainer(from))
      modifies this`code, this`offset
      ensures Valid()
      ensures if old(code).Some? then code == old(code) && offset == old(offset)
              else code == Some(StateError(from)) && offset == src
    {
      if code.Some? {
        return;
      }
      match from {
        case Start => SetParseError(DocumentEmpty, src);
        case Finish => SetParseError(DocumentRootNotSingular, src);
        case ObjectInitial => SetParseError(ObjectMissName, src);
        case MemberDelimiter => SetParseError(ObjectMissName, src);
        case MemberKey => SetParseError(ObjectMissColon, src);
        case MemberValue => SetParseError(ObjectMissCommaOrCurlyBracket, src);
        case KeyValueDelimiter => SetParseError(ValueInvalid, src);
        case ArrayInitial => SetParseError(ValueInvalid, src);
        case ElementDelimiter => SetParseError(ValueInvalid, src);
        case Element => SetParseError(ArrayMissCommaOrSquareBracket, src);
      }
    }

    /** Parses the whole text with the explicit stack. */
    method IterativeParse()
      requires Ready() && src == 0 && events == [] && stack == []
      modifies this, buf
      ensures Valid() && Tracked() && old(refs) <= refs
      ensures Result() == Iterative.Parse(Env())
    {
      hide Lexer.Skip, Iterative.Transit;
      var state := Start;
      ghost var frames: seq<Frame> := [];
      SkipWhitespaceAndComments();
      if code.Some? { return; }
      while PeekChar() != NUL
        invariant Valid() && Tracked() && old(refs) <= refs && Running(state, frames)
        invariant Run(Env(), Current(state, frames)) == Iterative.Parse(Env())
        decreases |text| - src
      {
        var n := Predict(state, Tokenize(PeekChar()));
        var d;
        d, frames := Transit(state, n, frames);
        if d == Error {
          HandleError(state);
          break;
        }
        state := d;
        if flags.stopWhenDone && state == Finish {
          break;
        }
        SkipWhitespaceAndComments();
        if code.Some? { return; }
      }
      if state != Finish {
        HandleError(state);
      }
    }
  }

  function StateCode(s: State): (n: int)
    ensures CodeState(n) == s
  {
    match s
    case Start => 0
    case Finish => 1
    case Error => 2
    case ObjectInitial => 3
    case MemberKey => 4
    case KeyValueDelimiter => 5
    case MemberValue => 6
    case MemberDelimiter => 7
    case ObjectFinish => 8
    case ArrayInitial => 9
    case Element => 10
    case ElementDelimiter => 11
    case ArrayFinish => 12
    case Value => 13
  }

  function CodeState(n: int): State {
    match n
    case 0 => Start
    case 1 => Finish
    case 2 => Error
    case 3 => ObjectInitial
    case 4 => MemberKey
    case 5 => KeyValueDelimiter
    case 6 => MemberValue
    case 7 => MemberDelimiter
    case 8 => ObjectFinish
    case 9 => ArrayInitial
    case 10 => Element
    case 11 => ElementDelimiter
    case 12 => ArrayFinish
    case _ => Value
  }

  /** The stack words of the open containers. */
  ghost function Flatten(frames: seq<Frame>): seq<int> {
    if frames == [] then []
    else
      var n := |frames| - 1;
      Flatten(frames[..n]) + [StateCode(frames[n].ret), frames[n].count]
  }

  lemma FlattenPush(frames: seq<Frame>, f: Frame)
    ensures Flatten(frames + [f]) == Flatten(frames) + [StateCode(f.ret), f.count]
  {
    var all := frames + [f];
    assert all[..|all| - 1] == frames && all[|all| - 1] == f;
  }

  /** The strings among the events, in order. */
  function StringsOf(events: seq<Event>): seq<seq<Byte>> {
    if events == [] then []
    else
      var rest := StringsOf(events[..|events| - 1]);
      match events[|events| - 1]
      case String(s) => rest + [s]
      case Key(k) => rest + [k]
      case _ => rest
  }

  function BytesOf(refs: seq<Ref>): seq<seq<Byte>> {
    seq(|refs|, i requires 0 <= i < |refs| => refs[i].bytes)
  }

  /** The run that fits ends at `k` when it fits there and one more digit does not. */
  lemma {:induction false} FitEndIs(t: seq<Byte>, q: nat, j: nat, e: nat, limit: nat, k: nat)
    requires q <= j <= k < e && AllDigits(t, q, e)
    requires DigitsValue(t, q, k) <= limit < DigitsValue(t, q, k + 1)
    ensures FitEnd(t, q, j, e, limit) == k
    decreases k - j
  {
    if j < k {
      DigitsValueMonotone(t, q, j + 1, k);
      FitEndIs(t, q, j + 1, e, limit, k);
    }
  }

  /** 32-bit unsigned arithmetic. */
  function U32(n: int): (r: nat)
    ensures 0 <= n < 0x1_0000_0000 ==> r == n
    ensures r < 0x1_0000_0000
  {
    n % 0x1_0000_0000
  }

  /** 64-bit unsigned arithmetic. */
  function U64(n: int): (r: nat)
    ensures 0 <= n < 0x1_0000_0000_0000_0000 ==> r == n
    ensures r < 0x1_0000_0000_0000_0000
  {
    n % 0x1_0000_0000_0000_0000
  }

  /** The number written by the first `n` of the hexadecimal digits at `p`. */
  function HexPrefix(t: seq<Byte>, p: nat, n: nat): Option<nat> {
    if n == 0 then Some(0)
    else
      match HexPrefix(t, p, n - 1)
      case None => None
      case Some(h) =>
        match HexDigit(Peek(t, p + n - 1))
        case None => None
        case Some(d) => Some(h * 16 + d)
  }

  lemma HexPrefixIsHex4(t: seq<Byte>, p: nat)
    ensures HexPrefix(t, p, 4) == Hex4(t, p)
  {
    assert HexPrefix(t, p, 0) == Some(0);
    assert HexPrefix(t, p, 1) == HexDigit(Peek(t, p));
    assert HexPrefix(t, p, 2).Some? ==> HexPrefix(t, p, 1).Some?;
    assert HexPrefix(t, p, 3).Some? ==> HexPrefix(t, p, 2).Some?;
  }

  lemma NoHex(t: seq<Byte>, p: nat, i: nat)
    requires i < 4 && HexDigit(Peek(t, p + i)).None?
    ensures Hex4(t, p).None?
  {
    assert Peek(t, p + i) in {Peek(t, p), Peek(t, p + 1), Peek(t, p + 2), Peek(t, p + 3)};
  }
}
