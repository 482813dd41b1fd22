/**
 The pointer as it is built: one pass counts the solidi and so the tokens, a second fills the tokens and one
 buffer with all their names, never longer than the source.
 */
module PointerParser {
  import opened Text
  import opened Pointers
  import opened Printer
  import Lexer
  import Utf8

  /** A token as it is kept: where its name stands in the buffer. */
  datatype Slot = Slot(name: nat, length: nat, index: nat)

  /** Decodes `%XY` triplets; after a bad one it is invalid and gives zeros. */
  class PercentDecodeStream {
    const text: seq<Byte>
    const head: nat
    var src: nat
    var valid: bool

    constructor (t: seq<Byte>, p: nat)
      ensures text == t && head == src == p && valid
    {
      text, head, src, valid := t, p, p, true;
    }

    method Take() returns (c: Byte)
      modifies this
      ensures match PercentByte(text, old(src))
              case Some(b) => c == b && src == old(src) + 3 && valid == old(valid)
              case None => c == NUL && !valid && src >= old(src)
    {
      if Peek(text, src) != PERCENT || src + 3 > |text| {
        valid := false;
        return NUL;
      }
      src := src + 1;
      c := 0;
      var start := src;
      while src < start + 2
        invariant start == old(src) + 1 && start <= src <= start + 2 && valid == old(valid) && src + (start + 2 - src) <= |text|
        invariant src == start ==> c == 0
        invariant src > start ==> Lexer.HexDigit(text[start]).Some? && c == Lexer.HexDigit(text[start]).value
                                                                            * (if src == start + 1 then 1 else 16)
                                                                            + (if src == start + 1 then 0 else HexOrZero(text[start + 1]))
        invariant src == start + 2 ==> Lexer.HexDigit(text[start + 1]).Some?
      {
        var h := Lexer.HexDigit(text[src]);
        if h.None? {
          valid := false;
          return NUL;
        }
        c := c * 16 % 256 + h.value;
        src := src + 1;
      }
    }
  }

  function HexOrZero(c: Byte): nat {
    match Lexer.HexDigit(c)
    case None => 0
    case Some(d) => d
  }

  function SlashCount(t: seq<Byte>, i: nat): nat
    requires i <= |t|
    decreases |t| - i
  {
    if i == |t| then 0 else (if t[i] == SLASH then 1 else 0) + SlashCount(t, i + 1)
  }

  lemma {:induction false} NoSlashes(t: seq<Byte>, i: nat, j: nat)
    requires i <= j <= |t| && forall k | i <= k < j :: t[k] != SLASH
    ensures SlashCount(t, i) == SlashCount(t, j)
    decreases j - i
  {
    if i < j {
      NoSlashes(t, i + 1, j);
    }
  }

  function TripletBytes(t: seq<Byte>, p: nat, n: nat): Option<seq<Byte>> {
    if n == 0 then Some([])
    else
      match TripletBytes(t, p, n - 1)
      case None => None
      case Some(s) =>
        match PercentByte(t, p + 3 * (n - 1))
        case None => None
        case Some(b) => Some(s + [b])
  }

  lemma {:induction false} TripletsAre(t: seq<Byte>, p: nat, s: seq<Byte>)
    requires forall k | 0 <= k < |s| :: PercentByte(t, p + 3 * k) == Some(s[k])
    ensures TripletBytes(t, p, |s|) == Some(s)
    decreases s
  {
    hide PercentByte;
    if s != [] {
      TripletsAre(t, p, s[..|s| - 1]);
      assert s[..|s| - 1] + [s[|s| - 1]] == s;
    }
  }

  lemma {:induction false} TripletsHave(t: seq<Byte>, p: nat, s: seq<Byte>, k: nat)
    requires TripletBytes(t, p, |s|) == Some(s) && k < |s|
    ensures PercentByte(t, p + 3 * k) == Some(s[k])
    decreases |s|
  {
    hide PercentByte;
    var init := TripletBytes(t, p, |s| - 1).value;
    TripletLength(t, p, |s| - 1);
    assert s == init + [s[|s| - 1]];
    if k < |s| - 1 {
      TripletsHave(t, p, init, k);
    }
  }

  lemma {:induction false} TripletLength(t: seq<Byte>, p: nat, n: nat)
    ensures TripletBytes(t, p, n).Some? ==> |TripletBytes(t, p, n).value| == n
  {
    hide PercentByte;
    if n > 0 {
      TripletLength(t, p, n - 1);
    }
  }

  lemma {:induction false} TripletsHaveNoSlash(t: seq<Byte>, p: nat, n: nat)
    requires TripletBytes(t, p, n).Some? && p <= |t|
    ensures p + 3 * n <= |t| && SlashCount(t, p) == SlashCount(t, p + 3 * n)
  {
    hide SlashCount;
    if n > 0 {
      TripletsHaveNoSlash(t, p, n - 1);
      NoSlashes(t, p + 3 * (n - 1), p + 3 * n);
    }
  }

  lemma OneTriplet(t: seq<Byte>, p: nat)
    ensures TripletBytes(t, p, 1) == match PercentByte(t, p) case None => None case Some(b) => Some([b])
  {
    hide PercentByte;
    assert TripletBytes(t, p, 0) == Some([]);
    assert forall b: Byte :: [] + [b] == [b];
  }

  lemma LengthConsumed(t: seq<Byte>, p: nat)
    ensures Utf8.Length(t, p) > 0 ==> Utf8.Length(t, p) == Utf8.Consumed(Peek(t, p))
    ensures Utf8.Length(t, p) > 1 ==> !IsDigit(Peek(t, p))
  {}

  lemma QuadTriplets(t: seq<Byte>, p: nat)
    requires Utf8.Length(Quad(t, p), 0) > 0 && PercentByte(t, p).Some?
    ensures TripletBytes(t, p, Utf8.Length(Quad(t, p), 0)) == Some(Quad(t, p)[..Utf8.Length(Quad(t, p), 0)])
  {
    hide PercentByte, Utf8.Length, TripletBytes, Quad;
    var q, n := Quad(t, p), Utf8.Length(Quad(t, p), 0);
    TripletsThere(t, p);
    TripletNone(t, p);
    assert q[..0] == [];
    QuadByte(t, p, 0);
    TripletNext(t, p, q, 0);
    if n > 1 {
      QuadByte(t, p, 1);
      TripletNext(t, p, q, 1);
    }
    if n > 2 {
      QuadByte(t, p, 2);
      TripletNext(t, p, q, 2);
    }
    if n > 3 {
      QuadByte(t, p, 3);
      TripletNext(t, p, q, 3);
    }
  }

  lemma QuadByte(t: seq<Byte>, p: nat, k: nat)
    requires k < 4 && (forall x | 0 <= x <= k :: PercentByte(t, p + 3 * x).Some?)
    ensures PercentByte(t, p + 3 * k) == Some(Quad(t, p)[k])
  {
    hide PercentByte;
    assert PercentByte(t, p + 3 * k).Some?;
  }

  lemma TripletNone(t: seq<Byte>, p: nat)
    ensures TripletBytes(t, p, 0) == Some([])
  {}

  lemma TripletNext(t: seq<Byte>, p: nat, q: seq<Byte>, k: nat)
    requires k < |q| && TripletBytes(t, p, k) == Some(q[..k]) && PercentByte(t, p + 3 * k) == Some(q[k])
    ensures TripletBytes(t, p, k + 1) == Some(q[..k + 1])
  {
    hide PercentByte;
    assert q[..k + 1] == q[..k] + [q[k]];
  }

  lemma TripletsQuad(t: seq<Byte>, p: nat, bytes: seq<Byte>)
    requires TripletBytes(t, p, |bytes|) == Some(bytes) && 0 < |bytes| <= 4
    ensures PercentByte(t, p).Some? && forall k | 0 <= k < |bytes| :: Quad(t, p)[k] == bytes[k]
  {
    hide PercentByte, TripletBytes;
    TripletsHave(t, p, bytes, 0);
    if |bytes| > 1 { TripletsHave(t, p, bytes, 1); }
    if |bytes| > 2 { TripletsHave(t, p, bytes, 2); }
    if |bytes| > 3 { TripletsHave(t, p, bytes, 3); }
  }

  /** A character never swallows a solidus. */
  lemma CharHasNoSlash(uri: bool, t: seq<Byte>, i: nat)
    requires i < |t| && t[i] != SLASH
    ensures ReadChar(uri, t, i).Done? ==> SlashCount(t, i) == SlashCount(t, ReadChar(uri, t, i).next)
  {
    hide SlashCount, Utf8.Length, PercentByte, TripletBytes, Quad;
    var r := ReadChar(uri, t, i);
    if r.Done? {
      if uri && t[i] == PERCENT {
        var n := |PercentChar(t, i).value|;
        QuadTriplets(t, i);
        TripletsHaveNoSlash(t, i, n);
        NoSlashes(t, i + 3 * n, r.next);
      } else {
        NoSlashes(t, i, r.next);
      }
    }
  }

  predicate SlotIs(s: Slot, buffer: seq<Byte>, token: Token) {
    s.name + s.length <= |buffer| && buffer[s.name..s.name + s.length] == token.name && s.index == token.index
  }

  /** The slots stand for the tokens, their names in the buffer. */
  predicate Slots(slots: seq<Slot>, buffer: seq<Byte>, ts: seq<Token>) {
    |slots| == |ts| && forall k | 0 <= k < |ts| :: SlotIs(slots[k], buffer, ts[k])
  }

  lemma SlotsGrow(slots: seq<Slot>, buffer: seq<Byte>, ts: seq<Token>, more: seq<Byte>, slot: Slot, token: Token)
    requires Slots(slots, buffer, ts) && SlotIs(slot, buffer + more, token)
    ensures Slots(slots + [slot], buffer + more, ts + [token])
  {
    forall k | 0 <= k < |ts| ensures SlotIs(slots[k], buffer + more, ts[k]) {
      var s := slots[k];
      assert (buffer + more)[s.name..s.name + s.length] == buffer[s.name..s.name + s.length];
    }
  }

  lemma SlotsInMore(slots: seq<Slot>, buffer: seq<Byte>, ts: seq<Token>, n: nat)
    requires n <= |buffer| && Slots(slots, buffer[..n], ts)
    ensures Slots(slots, buffer, ts)
  {
    forall k | 0 <= k < |ts| ensures SlotIs(slots[k], buffer, ts[k]) {
      var s := slots[k];
      assert buffer[..n][s.name..s.name + s.length] == buffer[s.name..s.name + s.length];
    }
  }

  class Pointer {
    var tokens: array<Slot>
    var nameBuffer: array<Byte>
    var tokenCount: nat
    var parseErrorCode: Option<PointerError>
    var parseErrorOffset: nat

    /** The pointer has these tokens. */
    ghost predicate Holds(ts: seq<Token>)
      reads this, tokens, nameBuffer
    {
      tokens.Length == tokenCount && Slots(tokens[..], nameBuffer[..], ts)
    }

    constructor (source: seq<Byte>)
      ensures match ParsePointer(source)
              case Done(_, ts) => parseErrorCode.None? && Holds(ts)
              case Failed(code, offset) => parseErrorCode == Some(code) && parseErrorOffset == offset && Holds([])
    {
      tokens := new Slot[0];
      nameBuffer := new Byte[0];
      tokenCount, parseErrorCode, parseErrorOffset := 0, None, 0;
      new;
      Parse(source);
    }

    method Parse(source: seq<Byte>)
      modifies this
      ensures match ParsePointer(source)
              case Done(_, ts) => parseErrorCode.None? && Holds(ts)
              case Failed(code, offset) => parseErrorCode == Some(code) && parseErrorOffset == offset && Holds([])
    {
      var i := 0;
      tokenCount := 0;
      while i < |source|
        invariant 0 <= i <= |source| && tokenCount + SlashCount(source, i) == SlashCount(source, 0)
      {
        if source[i] == SLASH {
          tokenCount := tokenCount + 1;
        }
        i := i + 1;
      }
      tokens := new Slot[tokenCount](k => Slot(0, 0, 0));
      nameBuffer := new Byte[|source|](k => NUL);
      var uri := Peek(source, 0) == HASH;
      i := if uri then 1 else 0;
      if i != |source| && source[i] != SLASH {
        Fail(TokenMustBeginWithSolidus, i);
        return;
      }
      ParseTokens(source, uri, i);
    }

    method Fail(code: PointerError, offset: nat)
      modifies this
      ensures parseErrorCode == Some(code) && parseErrorOffset == offset && Holds([])
    {
      tokens := new Slot[0];
      nameBuffer := new Byte[0];
      tokenCount := 0;
      parseErrorCode, parseErrorOffset := Some(code), offset;
    }

    /** The tokens from the first solidus on. */
    method ParseTokens(source: seq<Byte>, uri: bool, start: nat)
      requires start <= |source| && (start < |source| ==> source[start] == SLASH)
      requires tokens.Length == tokenCount == SlashCount(source, start) && nameBuffer.Length == |source|
      modifies this, tokens, nameBuffer
      ensures match ReadTokens(uri, source, start, [])
              case Done(_, ts) => parseErrorCode.None? && Holds(ts)
              case Failed(code, offset) => parseErrorCode == Some(code) && parseErrorOffset == offset && Holds([])
    {
      hide ReadName, IndexOf;
      var i, name, token := start, 0, 0;
      ghost var done: seq<Token> := [];
      while i < |source|
        invariant tokens == old(tokens) && nameBuffer == old(nameBuffer) && tokenCount == old(tokenCount)
        invariant tokens.Length == tokenCount && nameBuffer.Length == |source|
        invariant 0 <= name <= i <= |source| && (i < |source| ==> source[i] == SLASH)
        invariant token == |done| && token + SlashCount(source, i) == tokenCount
        invariant Slots(tokens[..token], nameBuffer[..name], done)
        invariant ReadTokens(uri, source, i, done) == ReadTokens(uri, source, start, [])
      {
        var code, next, end := ParseToken(source, uri, i + 1, name, token, done);
        if code.Some? {
          Fail(code.value, next);
          return;
        }
        var read := ReadName(uri, source, i + 1, []);
        done := done + [Token(read.value, IndexOf(read.value))];
        i, name, token := next, end, token + 1;
      }
      assert tokens[..token] == tokens[..];
      SlotsInMore(tokens[..], nameBuffer[..], done, name);
      parseErrorCode := None;
    }

    /** Reads a token after its solidus: its name, the terminator, and its slot. */
    method ParseToken(source: seq<Byte>, uri: bool, begin: nat, name: nat, token: nat, ghost done: seq<Token>)
      returns (code: Option<PointerError>, next: nat, limit: nat)
      requires name < begin <= |source| == nameBuffer.Length
      requires token < tokens.Length && Slots(tokens[..token], nameBuffer[..name], done)
      modifies tokens, nameBuffer
      ensures match ReadName(uri, source, begin, [])
              case Done(n, value) =>
                && code.None? && next == n && limit <= next && SlashCount(source, begin) == SlashCount(source, next)
                && Slots(tokens[..token + 1], nameBuffer[..limit], done + [Token(value, IndexOf(value))])
              case Failed(c, offset) => code == Some(c) && next == offset
    {
      hide ReadName, IndexOf, Digits, SlashCount, Slots;
      var end, isNumber;
      code, next, end, isNumber := ParseName(source, uri, begin, name);
      limit := end;
      if code.Some? {
        return;
      }
      ghost var value := ReadName(uri, source, begin, []).value;
      ghost var names, slots := nameBuffer[..name], tokens[..token];
      nameBuffer[end] := NUL;
      assert nameBuffer[name..end] == value;
      var index := ParseIndex(name, end, isNumber);
      tokens[token] := Slot(name, end - name, index);
      limit := end + 1;
      assert nameBuffer[..limit] == names + nameBuffer[name..limit];
      assert (names + nameBuffer[name..limit])[name..end] == value;
      SlotsGrow(slots, names, done, nameBuffer[name..limit], tokens[token], Token(value, IndexOf(value)));
      assert tokens[..token + 1] == slots + [tokens[token]];
    }

    /** Reads a name into the buffer from `start` on. */
    method ParseName(source: seq<Byte>, uri: bool, begin: nat, start: nat)
      returns (code: Option<PointerError>, i: nat, name: nat, isNumber: bool)
      requires start < begin <= |source| == nameBuffer.Length
      modifies nameBuffer
      ensures nameBuffer[..start] == old(nameBuffer[..start])
      ensures match ReadName(uri, source, begin, [])
              case Done(next, value) =>
                && code.None? && i == next && name == start + |value| < i && nameBuffer[start..name] == value
                && (isNumber <==> Digits(value)) && SlashCount(source, begin) == SlashCount(source, i)
              case Failed(c, offset) => code == Some(c) && i == offset
    {
      hide ReadName, ReadChar, SlashCount, Digits;
      NoDigits();
      i, name, isNumber := begin, start, true;
      ghost var done: seq<Byte> := [];
      while i < |source| && source[i] != SLASH
        invariant start <= name < i <= |source| && begin <= i && nameBuffer[..start] == old(nameBuffer[..start])
        invariant nameBuffer[start..name] == done && (isNumber <==> Digits(done))
        invariant ReadName(uri, source, i, done) == ReadName(uri, source, begin, [])
        invariant SlashCount(source, begin) == SlashCount(source, i)
        decreases |source| - i
      {
        ghost var p, from := i, nameBuffer[..];
        ghost var before := name;
        CharHasNoSlash(uri, source, i);
        code, i, name, isNumber := ParseChar(source, uri, i, name, isNumber);
        if code.Some? {
          ReadNameFails(uri, source, p, done);
          return;
        }
        ghost var bytes := nameBuffer[before..name];
        assert nameBuffer[start..name] == done + bytes;
        assert nameBuffer[..start] == nameBuffer[..before][..start];
        ReadNameStep(uri, source, p, done, i, bytes);
        DigitsBoth(done, bytes);
        done := done + bytes;
      }
      ReadNameEnds(uri, source, i, done);
      code := None;
    }

    /** Reads one character of a name into the buffer at `at`. */
    method ParseChar(source: seq<Byte>, uri: bool, begin: nat, at: nat, wasNumber: bool)
      returns (code: Option<PointerError>, i: nat, name: nat, isNumber: bool)
      requires at < begin < |source| == nameBuffer.Length
      modifies nameBuffer
      ensures nameBuffer[..at] == old(nameBuffer[..at])
      ensures match ReadChar(uri, source, begin)
              case Done(next, bytes) =>
                && code.None? && i == next && name == at + |bytes| < i && nameBuffer[at..name] == bytes
                && (isNumber <==> wasNumber && Digits(bytes))
              case Failed(c, offset) => code == Some(c) && i == offset
    {
      hide PercentChar, NeedPercentEncode, Digits;
      i, name, isNumber := begin, at, wasNumber;
      var c := source[i];
      if uri {
        if c == PERCENT {
          var ok, len := DecodeChar(source, i, name);
          if !ok {
            return Some(InvalidPercentEncoding), i, name, isNumber;
          }
          i := i + 3 * len - 1;
          if len == 1 {
            c := nameBuffer[name];
          } else {
            NotDigits(nameBuffer[at..at + len]);
            return None, i + 1, name + len, false;
          }
        } else if NeedPercentEncode(c) {
          return Some(CharacterMustPercentEncode), i, name, isNumber;
        }
      }
      i := i + 1;
      if c == TILDE {
        if i < |source| && source[i] == DIGIT_0 {
          c := TILDE;
        } else if i < |source| && source[i] == DIGIT_1 {
          c := SLASH;
        } else {
          return Some(InvalidEscape), i, name, isNumber;
        }
        i := i + 1;
      }
      if !IsDigit(c) {
        isNumber := false;
      }
      nameBuffer[name] := c;
      OneDigit(c);
      assert nameBuffer[at..at + 1] == [c];
      name := name + 1;
      code := None;
    }

    /**
     Decodes one percent-encoded character into the buffer. Each byte is written there as it is taken, also when the
     bytes turn out to be no character: four at the most, and none past the end of the buffer.
     */
    method DecodeChar(source: seq<Byte>, i: nat, at: nat) returns (ok: bool, len: nat)
      requires at < i < |source| == nameBuffer.Length
      modifies nameBuffer
      ensures nameBuffer[..at] == old(nameBuffer[..at])
      ensures forall k | at + 4 <= k < nameBuffer.Length :: nameBuffer[k] == old(nameBuffer[k])
      ensures match PercentChar(source, i)
              case None => !ok
              case Some(bytes) => ok && len == |bytes| && at + len <= nameBuffer.Length && nameBuffer[at..at + len] == bytes
                                  && (len > 1 ==> !IsDigit(bytes[0]))
    {
      hide PercentChar, PercentByte, Utf8.Length, TripletBytes;
      len := 0;
      var stream := new PercentDecodeStream(source, i);
      var bytes := TakeBytes(stream, i, at);
      var os := new Utf8.OutputStream();
      var decoded := new Utf8.StringStream(bytes, 0);
      ok := decoded.Validate(os);
      ok := ok && stream.valid;
      Decoded(source, i, bytes);
      if ok {
        len := |os.out|;
        assert os.out == bytes[..len];
        assert nameBuffer[at..at + len] == nameBuffer[at..at + |bytes|][..len];
      }
    }

    /** Takes as many bytes as the first one asks for, and writes each into the buffer. */
    method TakeBytes(stream: PercentDecodeStream, i: nat, at: nat) returns (bytes: seq<Byte>)
      requires at < i < |stream.text| == nameBuffer.Length && stream.src == i && stream.valid
      modifies stream, nameBuffer
      ensures bytes != [] && |bytes| == Utf8.Consumed(bytes[0]) && bytes[0] == ByteOrZero(stream.text, i)
      ensures TripletBytes(stream.text, i, |bytes|) == if stream.valid then Some(bytes) else None
      ensures at + |bytes| <= nameBuffer.Length && nameBuffer[at..at + |bytes|] == bytes
      ensures nameBuffer[..at] == old(nameBuffer[..at])
      ensures forall k | at + 4 <= k < nameBuffer.Length :: nameBuffer[k] == old(nameBuffer[k])
    {
      hide PercentByte;
      var b := stream.Take();
      nameBuffer[at] := b;
      bytes := [b];
      RoomForFour(stream.text, i, at, b);
      OneTriplet(stream.text, i);
      while |bytes| < Utf8.Consumed(b)
        invariant 1 <= |bytes| <= Utf8.Consumed(b) && bytes[0] == b
        invariant stream.valid ==> stream.src == i + 3 * |bytes|
        invariant TripletBytes(stream.text, i, |bytes|) == if stream.valid then Some(bytes) else None
        invariant at + |bytes| <= nameBuffer.Length && nameBuffer[at..at + |bytes|] == bytes
        invariant nameBuffer[..at] == old(nameBuffer[..at])
        invariant forall k | at + 4 <= k < nameBuffer.Length :: nameBuffer[k] == old(nameBuffer[k])
      {
        ghost var before := bytes;
        var next := stream.Take();
        nameBuffer[at + |bytes|] := next;
        bytes := bytes + [next];
        assert bytes[..|bytes| - 1] == before;
        assert nameBuffer[at..at + |before|] == before;
      }
    }

    /** A first byte that asks for more was written by a triplet, which is as long as what may be written over it. */
    lemma RoomForFour(source: seq<Byte>, i: nat, at: nat, b: Byte)
      requires at < i < |source| && b == ByteOrZero(source, i)
      ensures at + Utf8.Consumed(b) <= |source|
    {}

    /** The index a name in the buffer writes. */
    method ParseIndex(start: nat, end: nat, isNumber: bool) returns (index: nat)
      requires start <= end <= nameBuffer.Length && (isNumber <==> Digits(nameBuffer[start..end]))
      ensures index == IndexOf(nameBuffer[start..end])
    {
      ghost var name := nameBuffer[start..end];
      if !isNumber || start == end || (end - start > 1 && nameBuffer[start] == DIGIT_0) {
        return INVALID_INDEX;
      }
      var n := 0;
      var j := start;
      while j < end
        invariant start <= j <= end && Accumulate(name, 0, 0) == Accumulate(name, j - start, n)
      {
        var m := (n * 10 + (nameBuffer[j] - DIGIT_0)) % TWO_32;
        if m < n {
          return INVALID_INDEX;
        }
        n := m;
        j := j + 1;
      }
      index := n;
    }

    /** Name of token `k`. */
    function Name(k: nat): seq<Byte>
      requires k < tokens.Length && tokens[k].name + tokens[k].length <= nameBuffer.Length
      reads this, tokens, nameBuffer
    {
      nameBuffer[tokens[k].name..tokens[k].name + tokens[k].length]
    }

    lemma CountIs(ts: seq<Token>)
      requires Holds(ts)
      ensures |ts| == tokenCount
    {}

    lemma NameIs(k: nat, ts: seq<Token>)
      requires Holds(ts) && k < tokenCount
      ensures k < tokens.Length && k < |ts| && tokens[k].name + tokens[k].length <= nameBuffer.Length && Name(k) == ts[k].name
    {
      assert SlotIs(tokens[..][k], nameBuffer[..], ts[k]);
    }

    /** Writes the pointer in string form or as a URI fragment; false when a name cannot be encoded. */
    method Stringify(uri: bool, os: Utf8.OutputStream, ghost ts: seq<Token>) returns (ok: bool)
      requires Holds(ts)
      modifies os
      ensures ok <==> Pointers.Stringify(uri, ts).Some?
      ensures ok ==> os.out == old(os.out) + Pointers.Stringify(uri, ts).value
    {
      hide WriteName, WriteTokens, Prepend, Slots, Pointer.Holds;
      ghost var all := WriteTokens(uri, ts);
      if uri {
        os.Put(HASH);
      }
      ghost var start, done := os.out, [];
      var k := 0;
      CountIs(ts);
      assert ts[0..] == ts && start + [] == start;
      PrependNothing(all);
      while k < tokenCount
        invariant 0 <= k <= tokenCount == |ts| && Holds(ts) && os.out == start + done
        invariant all == Prepend(done, WriteTokens(uri, ts[k..]))
      {
        NameIs(k, ts);
        TokensNext(uri, ts, k, done);
        ok := PutToken(uri, os, Name(k));
        if !ok {
          StringifyIs(uri, ts);
          return;
        }
        ghost var text := [SLASH] + WriteName(uri, ts[k].name, 0).value;
        assert start + done + text == start + (done + text);
        done := done + text;
        k := k + 1;
      }
      TokensEnd(uri, ts);
      WrittenWhole(done, Some([]));
      StringifyIs(uri, ts);
      assert old(os.out) + ([HASH] + done) == old(os.out) + [HASH] + done;
      ok := true;
    }

    method PutToken(uri: bool, os: Utf8.OutputStream, name: seq<Byte>) returns (ok: bool)
      modifies os
      ensures ok <==> WriteName(uri, name, 0).Some?
      ensures ok ==> os.out == old(os.out) + ([SLASH] + WriteName(uri, name, 0).value)
    {
      hide WriteName;
      os.Put(SLASH);
      ok := PutName(uri, os, name);
    }

    method PutName(uri: bool, os: Utf8.OutputStream, name: seq<Byte>) returns (ok: bool)
      modifies os
      ensures ok <==> WriteName(uri, name, 0).Some?
      ensures ok ==> os.out == old(os.out) + WriteName(uri, name, 0).value
    {
      hide PercentEncode, Utf8.Length, NeedPercentEncode;
      ghost var done: seq<Byte> := [];
      PrependNothing(WriteName(uri, name, 0));
      var j := 0;
      while j < |name|
        invariant 0 <= j <= |name| && os.out == old(os.out) + done
        invariant WriteName(uri, name, 0) == Prepend(done, WriteName(uri, name, j))
      {
        var c := name[j];
        ghost var text: seq<Byte> := [c];
        if c == TILDE {
          os.Put(TILDE);
          os.Put(DIGIT_0);
          text := [TILDE, DIGIT_0];
          j := j + 1;
        } else if c == SLASH {
          os.Put(TILDE);
          os.Put(DIGIT_1);
          text := [TILDE, DIGIT_1];
          j := j + 1;
        } else if uri && NeedPercentEncode(c) {
          var n;
          ok, n := PutPercentChar(os, name, j);
          if !ok {
            return;
          }
          text := PercentEncode(name[j..j + n]);
          j := j + n;
        } else {
          os.Put(c);
          j := j + 1;
        }
        PrependTwice(done, text, WriteName(uri, name, j));
        done := done + text;
      }
      assert done + [] == done;
      ok := true;
    }

    /** Checks one character and puts its bytes as triplets. */
    method PutPercentChar(os: Utf8.OutputStream, name: seq<Byte>, j: nat) returns (ok: bool, n: nat)
      requires j < |name|
      modifies os
      ensures ok <==> Utf8.Length(name, j) > 0
      ensures ok ==> n == Utf8.Length(name, j) && j + n <= |name| && os.out == old(os.out) + PercentEncode(name[j..j + n])
      ensures !ok ==> os.out == old(os.out)
    {
      hide Utf8.Length, PercentEncode;
      var source := new Utf8.StringStream(name, j);
      var bytes := new Utf8.OutputStream();
      ok := source.Validate(bytes);
      n := |bytes.out|;
      if !ok {
        return;
      }
      Utf8.EncodeOfDecode(name, j);
      assert bytes.out == name[j..j + n];
      PutTriplets(os, bytes.out);
    }

    method PutTriplets(os: Utf8.OutputStream, s: seq<Byte>)
      modifies os
      ensures os.out == old(os.out) + PercentEncode(s)
    {
      var k := 0;
      assert s[0..] == s;
      while k < |s|
        invariant 0 <= k <= |s| && os.out + PercentEncode(s[k..]) == old(os.out) + PercentEncode(s)
      {
        ghost var before, rest := os.out, PercentEncode(s[k + 1..]);
        ghost var triplet := [PERCENT, HexChar(s[k] / 16), HexChar(s[k] % 16)];
        assert s[k..][0] == s[k] && s[k..][1..] == s[k + 1..];
        assert before + PercentEncode(s[k..]) == before + triplet + rest;
        os.Put(PERCENT);
        os.Put(HexChar(s[k] / 16));
        os.Put(HexChar(s[k] % 16));
        assert os.out == before + triplet;
        k := k + 1;
      }
      assert s[k..] == [];
      assert os.out + [] == os.out;
    }

    /** Two valid pointers with the same tokens. */
    method Equals(rhs: Pointer, ghost ts: seq<Token>, ghost us: seq<Token>) returns (r: bool)
      requires Holds(ts) && rhs.Holds(us)
      ensures r <==> parseErrorCode.None? && rhs.parseErrorCode.None? && ts == us
    {
      if parseErrorCode.Some? || rhs.parseErrorCode.Some? || tokenCount != rhs.tokenCount {
        return false;
      }
      var k := 0;
      while k < tokenCount
        invariant 0 <= k <= tokenCount && ts[..k] == us[..k]
      {
        assert SlotIs(tokens[..][k], nameBuffer[..], ts[k]) && SlotIs(rhs.tokens[..][k], rhs.nameBuffer[..], us[k]);
        if tokens[k].index != rhs.tokens[k].index || tokens[k].length != rhs.tokens[k].length || Name(k) != rhs.Name(k) {
          return false;
        }
        k := k + 1;
      }
      assert ts[..k] == ts && us[..k] == us;
      return true;
    }
  }

  lemma TokensNext(uri: bool, ts: seq<Token>, k: nat, done: seq<Byte>)
    requires k < |ts|
    ensures Prepend(done, WriteTokens(uri, ts[k..])) ==
            match WriteName(uri, ts[k].name, 0)
            case None => None
            case Some(name) => Prepend(done + ([SLASH] + name), WriteTokens(uri, ts[k + 1..]))
  {
    hide WriteName;
    assert ts[k..][0] == ts[k] && ts[k..][1..] == ts[k + 1..];
    if WriteName(uri, ts[k].name, 0).Some? {
      PrependTwice(done, [SLASH] + WriteName(uri, ts[k].name, 0).value, WriteTokens(uri, ts[k + 1..]));
    }
  }

  lemma TokensEnd(uri: bool, ts: seq<Token>)
    ensures WriteTokens(uri, ts[|ts|..]) == Some([])
  {}

  lemma WrittenWhole(done: seq<Byte>, rest: Option<seq<Byte>>)
    ensures Prepend(done, rest) == match rest case None => None case Some(r) => Some(done + r)
    ensures done + [] == done
  {}

  lemma StringifyIs(uri: bool, ts: seq<Token>)
    ensures Pointers.Stringify(uri, ts) == match WriteTokens(uri, ts)
                                           case None => None
                                           case Some(r) => Some(if uri then [HASH] + r else r)
  {}

  lemma PrependNothing(r: Option<seq<Byte>>)
    ensures Prepend([], r) == r
  {
    if r.Some? {
      assert [] + r.value == r.value;
    }
  }

  lemma PrependTwice(a: seq<Byte>, b: seq<Byte>, r: Option<seq<Byte>>)
    ensures Prepend(a, Prepend(b, r)) == Prepend(a + b, r)
  {
    if r.Some? {
      assert a + (b + r.value) == a + b + r.value;
    }
  }

  /** As many triplets as the first byte calls for decide whether there is a character, and which. */
  lemma Decoded(t: seq<Byte>, p: nat, bytes: seq<Byte>)
    requires bytes != [] && |bytes| == Utf8.Consumed(bytes[0]) && bytes[0] == ByteOrZero(t, p)
    requires TripletBytes(t, p, |bytes|).Some? ==> TripletBytes(t, p, |bytes|) == Some(bytes)
    ensures PercentChar(t, p) == if TripletBytes(t, p, |bytes|).Some? && Utf8.Length(bytes, 0) > 0
                                 then Some(bytes[..Utf8.Length(bytes, 0)]) else None
    ensures Utf8.Length(bytes, 0) > 1 ==> !IsDigit(bytes[0])
  {
    hide Utf8.Length, TripletBytes, PercentByte;
    var q := Quad(t, p);
    LengthConsumed(q, 0);
    LengthConsumed(bytes, 0);
    if Utf8.Length(q, 0) > 0 && PercentByte(t, p).Some? {
      QuadTriplets(t, p);
      var n := Utf8.Length(q, 0);
      assert bytes == q[..n] && bytes[..n] == bytes;
      SameLength(q, 0, bytes);
    } else if TripletBytes(t, p, |bytes|).Some? && Utf8.Length(bytes, 0) > 0 {
      TripletsQuad(t, p, bytes);
      SameLength(bytes, 0, q);
      assert false;
    }
  }

  lemma ReadNameEnds(uri: bool, t: seq<Byte>, i: nat, name: seq<Byte>)
    requires EndsName(t, i)
    ensures ReadName(uri, t, i, name) == Done(i, name)
  {}

  lemma ReadNameFails(uri: bool, t: seq<Byte>, i: nat, name: seq<Byte>)
    requires i < |t| && t[i] != SLASH && ReadChar(uri, t, i).Failed?
    ensures ReadName(uri, t, i, name) == Failed(ReadChar(uri, t, i).code, ReadChar(uri, t, i).offset)
  {}

  lemma NoDigits()
    ensures Digits([])
  {}

  lemma OneDigit(c: Byte)
    ensures Digits([c]) <==> IsDigit(c)
  {
    assert [c][0] == c;
  }

  lemma NotDigits(s: seq<Byte>)
    requires s != []
    ensures !IsDigit(s[0]) ==> !Digits(s)
  {}

  lemma DigitsBoth(a: seq<Byte>, b: seq<Byte>)
    ensures Digits(a + b) <==> Digits(a) && Digits(b)
  {
    if Digits(a + b) {
      forall i | 0 <= i < |a| ensures IsDigit(a[i]) { assert (a + b)[i] == a[i]; }
      forall i | 0 <= i < |b| ensures IsDigit(b[i]) { assert (a + b)[|a| + i] == b[i]; }
    }
  }
}
