/**
 The UTF-8 codec. `Length` and `CodePoint` are section 4 of RFC 3629; the table-driven
 `StringStream.Decode` and `StringStream.Validate` are proved to agree with them.
 */
module Utf8 {
  import opened Text

  // ---------------------------------------------------------------- RFC 3629

  predicate IsTail(c: Byte) {
    0x80 <= c <= 0xBF
  }

  /** Length of the well-formed character that starts at `p`, or 0 when there is none. */
  function Length(t: seq<Byte>, p: nat): (n: nat)
    ensures n <= 4
  {
    var c0, c1, c2, c3 := Peek(t, p), Peek(t, p + 1), Peek(t, p + 2), Peek(t, p + 3);
    if c0 <= 0x7F then 1
    else if 0xC2 <= c0 <= 0xDF && IsTail(c1) then 2
    else if ThreeByteHead(c0, c1) && IsTail(c2) then 3
    else if FourByteHead(c0, c1) && IsTail(c2) && IsTail(c3) then 4
    else 0
  }

  predicate ThreeByteHead(c0: Byte, c1: Byte) {
    || (c0 == 0xE0 && 0xA0 <= c1 <= 0xBF)
    || (0xE1 <= c0 <= 0xEC && IsTail(c1))
    || (c0 == 0xED && 0x80 <= c1 <= 0x9F)
    || (0xEE <= c0 <= 0xEF && IsTail(c1))
  }

  predicate FourByteHead(c0: Byte, c1: Byte) {
    || (c0 == 0xF0 && 0x90 <= c1 <= 0xBF)
    || (0xF1 <= c0 <= 0xF3 && IsTail(c1))
    || (c0 == 0xF4 && 0x80 <= c1 <= 0x8F)
  }

  /** The code point of the well-formed character at `p`. */
  function CodePoint(t: seq<Byte>, p: nat): (cp: nat)
    requires Length(t, p) > 0
  {
    var c0, c1, c2, c3 := Peek(t, p), Peek(t, p + 1), Peek(t, p + 2), Peek(t, p + 3);
    match Length(t, p)
    case 1 => c0
    case 2 => (c0 - 0xC0) * 64 + (c1 - 0x80)
    case 3 => ((c0 - 0xE0) * 64 + (c1 - 0x80)) * 64 + (c2 - 0x80)
    case _ => (((c0 - 0xF0) * 64 + (c1 - 0x80)) * 64 + (c2 - 0x80)) * 64 + (c3 - 0x80)
  }

  predicate IsScalar(cp: nat) {
    cp < 0xD800 || 0xE000 <= cp <= 0x10FFFF
  }

  /** The whole of `s` from `p` on is a sequence of well-formed characters. */
  predicate ValidFrom(s: seq<Byte>, p: nat)
    decreases |s| - p
  {
    p == |s| || (p < |s| && Length(s, p) > 0 && ValidFrom(s, p + Length(s, p)))
  }

  predicate Valid(s: seq<Byte>) {
    ValidFrom(s, 0)
  }

  // ----------------------------------------------------------------- Encoder

  function Encode(cp: nat): (s: seq<Byte>)
    requires cp <= 0x10FFFF
    ensures 1 <= |s| <= 4
  {
    if cp <= 0x7F then [cp]
    else if cp <= 0x7FF then [0xC0 + cp / 64, 0x80 + cp % 64]
    else if cp <= 0xFFFF then [0xE0 + cp / 4096, 0x80 + cp / 64 % 64, 0x80 + cp % 64]
    else [0xF0 + cp / 262144, 0x80 + cp / 4096 % 64, 0x80 + cp / 64 % 64, 0x80 + cp % 64]
  }

  predicate AreScalars(cps: seq<nat>) {
    forall cp | cp in cps :: IsScalar(cp)
  }

  /** The UTF-8 string of these code points. */
  function EncodeAll(cps: seq<nat>): seq<Byte>
    requires AreScalars(cps)
  {
    if cps == [] then [] else assert cps[0] in cps; Encode(cps[0]) + EncodeAll(cps[1..])
  }

  /** Decoding an encoded scalar value gives it back and consumes exactly its bytes. */
  lemma DecodeOfEncode(cp: nat, t: seq<Byte>, p: nat)
    requires IsScalar(cp) && At(t, p, Encode(cp))
    ensures Length(t, p) == |Encode(cp)| && CodePoint(t, p) == cp
  {
    hide At, ThreeByteHead, FourByteHead;
    var s := Encode(cp);
    AtPeek(t, p, s, 0);
    if cp <= 0x7F {
    } else if cp <= 0x7FF {
      AtPeek(t, p, s, 1);
      TwoDigits(cp);
    } else if cp <= 0xFFFF {
      AtPeek(t, p, s, 1);
      AtPeek(t, p, s, 2);
      ThreeDigits(cp);
    } else {
      AtPeek(t, p, s, 1);
      AtPeek(t, p, s, 2);
      AtPeek(t, p, s, 3);
      FourDigits(cp);
    }
  }

  lemma TwoDigits(cp: nat)
    requires 0x80 <= cp <= 0x7FF
    ensures 2 <= cp / 64 < 32 && cp / 64 * 64 + cp % 64 == cp
  {}

  lemma ThreeDigits(cp: nat)
    requires 0x800 <= cp <= 0xFFFF && IsScalar(cp)
    ensures ThreeByteHead(0xE0 + cp / 4096, 0x80 + cp / 64 % 64)
    ensures (cp / 4096 * 64 + cp / 64 % 64) * 64 + cp % 64 == cp
  {
    Quotients(cp);
  }

  lemma FourDigits(cp: nat)
    requires 0x10000 <= cp <= 0x10FFFF
    ensures FourByteHead(0xF0 + cp / 262144, 0x80 + cp / 4096 % 64)
    ensures !ThreeByteHead(0xF0 + cp / 262144, 0x80 + cp / 4096 % 64)
    ensures ((cp / 262144 * 64 + cp / 4096 % 64) * 64 + cp / 64 % 64) * 64 + cp % 64 == cp
  {
    Quotients(cp);
    Quotients(cp / 64);
  }

  lemma Quotients(n: nat)
    ensures n / 64 / 64 == n / 4096 && n / 64 == n / 4096 * 64 + n / 64 % 64 && n == n / 64 * 64 + n % 64
    ensures n / 4096 / 64 == n / 262144
  {}

  /** A decoded character is a scalar value, and encoding it gives back the bytes consumed. */
  lemma EncodeOfDecode(t: seq<Byte>, p: nat)
    requires Length(t, p) > 0 && p < |t|
    ensures IsScalar(CodePoint(t, p)) && At(t, p, Encode(CodePoint(t, p)))
    ensures |Encode(CodePoint(t, p))| == Length(t, p)
  {
    hide Encode, ThreeByteHead, FourByteHead;
    var n := Length(t, p);
    InBounds(t, p);
    if n == 1 {
      EncodeOne(t[p]);
      assert t[p..p + 1] == [t[p]];
    } else if n == 2 {
      EncodeTwo(t[p], t[p + 1]);
      assert t[p..p + 2] == [t[p], t[p + 1]];
    } else if n == 3 {
      EncodeThree(t[p], t[p + 1], t[p + 2]);
      assert t[p..p + 3] == [t[p], t[p + 1], t[p + 2]];
    } else {
      EncodeFour(t[p], t[p + 1], t[p + 2], t[p + 3]);
      assert t[p..p + 4] == [t[p], t[p + 1], t[p + 2], t[p + 3]];
    }
  }

  /** No character runs past the end: what is read there is no trailing byte. */
  lemma InBounds(t: seq<Byte>, p: nat)
    requires Length(t, p) > 0 && p < |t|
    ensures p + Length(t, p) <= |t|
  {}

  lemma EncodeOne(c: Byte)
    requires c <= 0x7F
    ensures Encode(c) == [c]
  {}

  lemma EncodeTwo(c0: Byte, c1: Byte)
    requires 0xC2 <= c0 <= 0xDF && IsTail(c1)
    ensures IsScalar((c0 - 0xC0) * 64 + (c1 - 0x80))
    ensures Encode((c0 - 0xC0) * 64 + (c1 - 0x80)) == [c0, c1]
  {
    Digits64(c0 - 0xC0, c1 - 0x80);
  }

  lemma EncodeThree(c0: Byte, c1: Byte, c2: Byte)
    requires ThreeByteHead(c0, c1) && IsTail(c2)
    ensures IsScalar(((c0 - 0xE0) * 64 + (c1 - 0x80)) * 64 + (c2 - 0x80))
    ensures Encode(((c0 - 0xE0) * 64 + (c1 - 0x80)) * 64 + (c2 - 0x80)) == [c0, c1, c2]
  {
    var high := (c0 - 0xE0) * 64 + (c1 - 0x80);
    Digits64(c0 - 0xE0, c1 - 0x80);
    Digits64(high, c2 - 0x80);
    assert (high * 64 + (c2 - 0x80)) / 4096 == high / 64;
  }

  lemma EncodeFour(c0: Byte, c1: Byte, c2: Byte, c3: Byte)
    requires FourByteHead(c0, c1) && IsTail(c2) && IsTail(c3)
    ensures IsScalar((((c0 - 0xF0) * 64 + (c1 - 0x80)) * 64 + (c2 - 0x80)) * 64 + (c3 - 0x80))
    ensures Encode((((c0 - 0xF0) * 64 + (c1 - 0x80)) * 64 + (c2 - 0x80)) * 64 + (c3 - 0x80)) == [c0, c1, c2, c3]
  {
    var top := (c0 - 0xF0) * 64 + (c1 - 0x80);
    var high := top * 64 + (c2 - 0x80);
    var cp := high * 64 + (c3 - 0x80);
    Digits64(c0 - 0xF0, c1 - 0x80);
    Digits64(top, c2 - 0x80);
    Digits64(high, c3 - 0x80);
    assert cp / 4096 == high / 64 && cp / 262144 == top / 64;
  }

  lemma Digits64(high: int, low: int)
    requires 0 <= low < 64
    ensures (high * 64 + low) / 64 == high && (high * 64 + low) % 64 == low
  {}

  // ------------------------------------------------------ Table-driven codec

  /** Class of a byte; the classes of trailing bytes are the bits 0x10, 0x20 and 0x40. */
  function GetRange(c: Byte): bv8 {
    if c < 0x80 then 0
    else if c < 0x90 then 0x10
    else if c < 0xA0 then 0x40
    else if c < 0xC0 then 0x20
    else if c < 0xC2 then 8
    else if c < 0xE0 then 2
    else if c == 0xE0 then 10
    else if c < 0xED then 3
    else if c == 0xED then 4
    else if c < 0xF0 then 3
    else if c == 0xF0 then 11
    else if c < 0xF4 then 6
    else if c == 0xF4 then 5
    else 8
  }

  /** `(0xFF >> type) & c`: the payload bits of a lead byte of class `type`. */
  function LeadBits(range: bv8, c: Byte): Byte {
    if range == 2 then c % 64
    else if range == 3 then c % 32
    else if range == 4 then c % 16
    else if range == 5 then c % 8
    else if range == 6 then c % 4
    else 0
  }

  /** The trailing bytes whose class bit is in `mask`. */
  predicate MaskAllows(mask: bv8, c: Byte) {
    if mask == 0x70 then IsTail(c)
    else if mask == 0x50 then 0x80 <= c <= 0x9F
    else if mask == 0x10 then 0x80 <= c <= 0x8F
    else if mask == 0x20 then 0xA0 <= c <= 0xBF
    else 0x90 <= c <= 0xBF
  }

  /** Bytes a decoding step takes after seeing lead byte `c`, whether or not they turn out well-formed. */
  function Consumed(c: Byte): (n: nat)
    ensures 1 <= n <= 4
  {
    if c < 0xC2 || c > 0xF4 then 1 else if c <= 0xDF then 2 else if c <= 0xEF then 3 else 4
  }

  /** The masks for the trailing bytes of each class of lead byte. */
  function Masks(range: bv8): seq<bv8> {
    match range
    case 2 => [0x70]
    case 3 => [0x70, 0x70]
    case 4 => [0x50, 0x70]
    case 5 => [0x10, 0x70, 0x70]
    case 6 => [0x70, 0x70, 0x70]
    case 10 => [0x20, 0x70]
    case 11 => [0x60, 0x70, 0x70]
    case _ => []
  }

  /** The trailing bytes at `p` pass the masks. */
  predicate Pass(masks: seq<bv8>, t: seq<Byte>, p: nat) {
    masks == [] || (MaskAllows(masks[0], Peek(t, p)) && Pass(masks[1..], t, p + 1))
  }

  /** The table is RFC 3629: the lead byte's class and the masks decide, and the payload bits are the code point. */
  lemma Table(t: seq<Byte>, p: nat)
    requires Peek(t, p) >= 0x80
    ensures
      var c, masks := Peek(t, p), Masks(GetRange(Peek(t, p)));
      && Consumed(c) == |masks| + 1
      && (Length(t, p) > 0 <==> masks != [] && Pass(masks, t, p + 1))
      && (Length(t, p) > 0 ==> Length(t, p) == Consumed(c))
      && (Length(t, p) > 0 ==> CodePoint(t, p) == Payload(LeadBits(GetRange(c), c), t, p + 1, |masks|))
  {
    hide CodePoint;
    var c := Peek(t, p);
    var masks := Masks(GetRange(c));
    if masks != [] {
      PassAll(masks, t, p + 1);
      if Length(t, p) > 0 {
        TablePoint(t, p);
      }
    }
  }

  /** `high` extended by the payload bits of one, two or three trailing bytes. */
  function Payload(high: nat, t: seq<Byte>, p: nat, n: nat): int {
    var one := high * 64 + (Peek(t, p) - 0x80);
    var two := one * 64 + (Peek(t, p + 1) - 0x80);
    if n == 1 then one else if n == 2 then two else two * 64 + (Peek(t, p + 2) - 0x80)
  }

  lemma PassAll(masks: seq<bv8>, t: seq<Byte>, p: nat)
    requires 1 <= |masks| <= 3
    ensures Pass(masks, t, p) <==>
            && MaskAllows(masks[0], Peek(t, p))
            && (|masks| > 1 ==> MaskAllows(masks[1], Peek(t, p + 1)))
            && (|masks| > 2 ==> MaskAllows(masks[2], Peek(t, p + 2)))
  {
    hide MaskAllows;
    assert |masks| > 1 ==> masks[1..][0] == masks[1];
    assert |masks| > 2 ==> masks[1..][1..][0] == masks[2];
    if |masks| > 1 {
      assert Pass(masks[1..], t, p + 1) <==> MaskAllows(masks[1], Peek(t, p + 1)) && Pass(masks[1..][1..], t, p + 2);
    }
    if |masks| > 2 {
      assert Pass(masks[1..][1..], t, p + 2) <==> MaskAllows(masks[2], Peek(t, p + 2)) && Pass(masks[1..][1..][1..], t, p + 3);
    }
  }

  /** What each class of lead byte asks for. */
  lemma TableRow(range: bv8, t: seq<Byte>, p: nat)
    ensures |Masks(range)| == match range case 2 => 1 case 3 => 2 case 4 => 2 case 5 => 3 case 6 => 3 case 10 => 2 case 11 => 3 case _ => 0
    ensures Masks(range) != [] ==>
              (Pass(Masks(range), t, p) <==>
               match range
               case 2 => MaskAllows(0x70, Peek(t, p))
               case 3 => MaskAllows(0x70, Peek(t, p)) && MaskAllows(0x70, Peek(t, p + 1))
               case 4 => MaskAllows(0x50, Peek(t, p)) && MaskAllows(0x70, Peek(t, p + 1))
               case 5 => MaskAllows(0x10, Peek(t, p)) && MaskAllows(0x70, Peek(t, p + 1)) && MaskAllows(0x70, Peek(t, p + 2))
               case 6 => MaskAllows(0x70, Peek(t, p)) && MaskAllows(0x70, Peek(t, p + 1)) && MaskAllows(0x70, Peek(t, p + 2))
               case 10 => MaskAllows(0x20, Peek(t, p)) && MaskAllows(0x70, Peek(t, p + 1))
               case 11 => MaskAllows(0x60, Peek(t, p)) && MaskAllows(0x70, Peek(t, p + 1)) && MaskAllows(0x70, Peek(t, p + 2))
               case _ => false)
  {
    hide MaskAllows;
    if Masks(range) != [] {
      PassAll(Masks(range), t, p);
    }
  }

  lemma TablePoint(t: seq<Byte>, p: nat)
    requires Length(t, p) > 1
    ensures CodePoint(t, p) == Payload(LeadBits(GetRange(Peek(t, p)), Peek(t, p)), t, p + 1, Length(t, p) - 1)
  {}

  /** An append-only output. */
  class OutputStream {
    var out: seq<Byte>

    constructor ()
      ensures out == []
    {
      out := [];
    }

    method Put(c: Byte)
      modifies this
      ensures out == old(out) + [c]
    {
      out := out + [c];
    }
  }

  /** The bytes of a code point, one Put each. */
  method PutCodePoint(os: OutputStream, codepoint: nat)
    requires codepoint <= 0x10FFFF
    modifies os
    ensures os.out == old(os.out) + Encode(codepoint)
  {
    if codepoint <= 0x7F {
      os.Put(codepoint);
    } else if codepoint <= 0x7FF {
      os.Put(0xC0 + codepoint / 64);
      os.Put(0x80 + codepoint % 64);
    } else if codepoint <= 0xFFFF {
      os.Put(0xE0 + codepoint / 4096);
      os.Put(0x80 + codepoint / 64 % 64);
      os.Put(0x80 + codepoint % 64);
    } else {
      os.Put(0xF0 + codepoint / 262144);
      os.Put(0x80 + codepoint / 4096 % 64);
      os.Put(0x80 + codepoint / 64 % 64);
      os.Put(0x80 + codepoint % 64);
    }
  }

  /** A read cursor over a NUL-terminated text. */
  class StringStream {
    const text: seq<Byte>
    var src: nat

    constructor (t: seq<Byte>, p: nat)
      ensures text == t && src == p
    {
      text, src := t, p;
    }

    method Take() returns (c: Byte)
      modifies this
      ensures c == Peek(text, old(src)) && src == old(src) + 1
    {
      c := Peek(text, src);
      src := src + 1;
    }

    /** One trailing byte: shifts its bits into the code point, checks its class. */
    method Tail(codepoint: nat, mask: bv8, result: bool) returns (cp: nat, r: bool)
      requires mask in {0x70, 0x50, 0x10, 0x20, 0x60}
      modifies this
      ensures src == old(src) + 1
      ensures r == (result && MaskAllows(mask, Peek(text, old(src))))
      ensures r ==> cp == codepoint * 64 + (Peek(text, old(src)) - 0x80)
    {
      var c := Take();
      cp := codepoint * 64 + c % 64;
      r := result && GetRange(c) & mask != 0;
    }

    method Decode() returns (ok: bool, codepoint: nat)
      modifies this
      ensures ok <==> Length(text, old(src)) > 0
      ensures ok ==> codepoint == CodePoint(text, old(src)) && src == old(src) + Length(text, old(src))
      ensures src == old(src) + Consumed(Peek(text, old(src)))
    {
      var c := Take();
      if c < 0x80 {
        return true, c;
      }
      Table(text, old(src));
      var range := GetRange(c);
      TableRow(range, text, src);
      hide Length, CodePoint, GetRange, LeadBits, MaskAllows, Consumed, Pass, Masks;
      codepoint := LeadBits(range, c);
      ok := true;
      match range {
        case 2 =>
          codepoint, ok := Tail(codepoint, 0x70, ok);
        case 3 =>
          codepoint, ok := Tail(codepoint, 0x70, ok);
          codepoint, ok := Tail(codepoint, 0x70, ok);
        case 4 =>
          codepoint, ok := Tail(codepoint, 0x50, ok);
          codepoint, ok := Tail(codepoint, 0x70, ok);
        case 5 =>
          codepoint, ok := Tail(codepoint, 0x10, ok);
          codepoint, ok := Tail(codepoint, 0x70, ok);
          codepoint, ok := Tail(codepoint, 0x70, ok);
        case 6 =>
          codepoint, ok := Tail(codepoint, 0x70, ok);
          codepoint, ok := Tail(codepoint, 0x70, ok);
          codepoint, ok := Tail(codepoint, 0x70, ok);
        case 10 =>
          codepoint, ok := Tail(codepoint, 0x20, ok);
          codepoint, ok := Tail(codepoint, 0x70, ok);
        case 11 =>
          codepoint, ok := Tail(codepoint, 0x60, ok);
          codepoint, ok := Tail(codepoint, 0x70, ok);
          codepoint, ok := Tail(codepoint, 0x70, ok);
        case _ =>
          ok := false;
      }
    }

    method Copy(os: OutputStream) returns (c: Byte)
      modifies this, os
      ensures c == Peek(text, old(src)) && src == old(src) + 1
      ensures os.out == old(os.out) + [c]
    {
      c := Take();
      os.Put(c);
    }

    /** One trailing byte, copied after those from `start` on. */
    method CopyTail(os: OutputStream, mask: bv8, result: bool, ghost before: seq<Byte>, ghost start: nat) returns (r: bool)
      requires mask in {0x70, 0x50, 0x10, 0x20, 0x60}
      requires start <= src && os.out == before + Slice(text, start, src - start)
      modifies this, os
      ensures src == old(src) + 1
      ensures r == (result && MaskAllows(mask, Peek(text, old(src))))
      ensures os.out == before + Slice(text, start, src - start)
    {
      var c := Copy(os);
      assert Slice(text, start, src - start) == Slice(text, start, src - start - 1) + [c];
      r := result && GetRange(c) & mask != 0;
    }

    /** Copies one character without computing its code point. */
    method Validate(os: OutputStream) returns (ok: bool)
      modifies this, os
      ensures ok <==> Length(text, old(src)) > 0
      ensures ok ==> src == old(src) + Length(text, old(src))
      ensures src == old(src) + Consumed(Peek(text, old(src)))
      ensures os.out == old(os.out) + Slice(text, old(src), src - old(src))
    {
      ghost var before, start := os.out, src;
      var c := Copy(os);
      assert Slice(text, start, 1) == [c];
      if c < 0x80 {
        return true;
      }
      Table(text, old(src));
      TableRow(GetRange(c), text, src);
      hide Length, GetRange, MaskAllows, Consumed, Pass, Masks, Slice;
      ok := true;
      match GetRange(c) {
        case 2 =>
          ok := CopyTail(os, 0x70, ok, before, start);
        case 3 =>
          ok := CopyTail(os, 0x70, ok, before, start);
          ok := CopyTail(os, 0x70, ok, before, start);
        case 4 =>
          ok := CopyTail(os, 0x50, ok, before, start);
          ok := CopyTail(os, 0x70, ok, before, start);
        case 5 =>
          ok := CopyTail(os, 0x10, ok, before, start);
          ok := CopyTail(os, 0x70, ok, before, start);
          ok := CopyTail(os, 0x70, ok, before, start);
        case 6 =>
          ok := CopyTail(os, 0x70, ok, before, start);
          ok := CopyTail(os, 0x70, ok, before, start);
          ok := CopyTail(os, 0x70, ok, before, start);
        case 10 =>
          ok := CopyTail(os, 0x20, ok, before, start);
          ok := CopyTail(os, 0x70, ok, before, start);
        case 11 =>
          ok := CopyTail(os, 0x60, ok, before, start);
          ok := CopyTail(os, 0x70, ok, before, start);
          ok := CopyTail(os, 0x70, ok, before, start);
        case _ =>
          ok := false;
      }
    }
  }
}
