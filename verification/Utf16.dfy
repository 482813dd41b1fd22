/** UTF-16 code units, and the change of encoding one character at a time. */
module Utf16 {
  import opened Text
  import Utf8

  type Unit = u: int | 0 <= u < 0x10000

  /** The unit at `p`; everything after the text reads as its terminator. */
  function UnitAt(t: seq<Unit>, p: nat): Unit {
    if p < |t| then t[p] else 0
  }

  ghost predicate Stands(t: seq<Unit>, p: nat, x: seq<Unit>) {
    p + |x| <= |t| && t[p..p + |x|] == x
  }

  /** Units of the well-formed character at `p`, or 0 when there is none. */
  function Length(t: seq<Unit>, p: nat): (n: nat)
    ensures n <= 2
  {
    if UnitAt(t, p) < 0xD800 || UnitAt(t, p) > 0xDFFF then 1
    else if UnitAt(t, p) <= 0xDBFF && 0xDC00 <= UnitAt(t, p + 1) <= 0xDFFF then 2
    else 0
  }

  function CodePoint(t: seq<Unit>, p: nat): (cp: nat)
    requires Length(t, p) > 0
    ensures Utf8.IsScalar(cp)
  {
    if Length(t, p) == 1 then UnitAt(t, p)
    else (UnitAt(t, p) - 0xD800) * 0x400 + (UnitAt(t, p + 1) - 0xDC00) + 0x10000
  }

  /** One unit, or the two of a surrogate pair. */
  function Encode(cp: nat): (s: seq<Unit>)
    requires Utf8.IsScalar(cp)
    ensures 1 <= |s| <= 2
  {
    if cp <= 0xFFFF then [cp]
    else [0xD800 + (cp - 0x10000) / 0x400, 0xDC00 + (cp - 0x10000) % 0x400]
  }

  lemma DecodeOfEncode(cp: nat, t: seq<Unit>, p: nat)
    requires Utf8.IsScalar(cp) && Stands(t, p, Encode(cp))
    ensures Length(t, p) == |Encode(cp)| && CodePoint(t, p) == cp
  {
    assert t[p] == t[p..p + |Encode(cp)|][0];
    if cp > 0xFFFF {
      assert t[p + 1] == t[p..p + |Encode(cp)|][1];
    }
  }

  lemma EncodeOfDecode(t: seq<Unit>, p: nat)
    requires p < |t| && Length(t, p) > 0
    ensures p + Length(t, p) <= |t| && Encode(CodePoint(t, p)) == t[p..p + Length(t, p)]
  {
    if Length(t, p) == 2 {
      var high: int, low: int := t[p] - 0xD800, t[p + 1] - 0xDC00;
      assert (high * 0x400 + low) / 0x400 == high && (high * 0x400 + low) % 0x400 == low;
    }
  }

  predicate ValidFrom(t: seq<Unit>, p: nat)
    decreases |t| - p
  {
    p >= |t| || (Length(t, p) > 0 && ValidFrom(t, p + Length(t, p)))
  }

  // ------------------------------------------------------- Whole strings

  /** The characters of `s` from `i` on, one by one in UTF-16; None at the first that is not well-formed. */
  function FromUtf8(s: seq<Byte>, i: nat): Option<seq<Unit>>
    decreases |s| - i
  {
    if i >= |s| then Some([])
    else if Utf8.Length(s, i) == 0 then None
    else
      Utf8.EncodeOfDecode(s, i);
      match FromUtf8(s, i + Utf8.Length(s, i))
      case None => None
      case Some(rest) => Some(Encode(Utf8.CodePoint(s, i)) + rest)
  }

  function ToUtf8(t: seq<Unit>, i: nat): Option<seq<Byte>>
    decreases |t| - i
  {
    if i >= |t| then Some([])
    else if Length(t, i) == 0 then None
    else
      match ToUtf8(t, i + Length(t, i))
      case None => None
      case Some(rest) => Some(Utf8.Encode(CodePoint(t, i)) + rest)
  }

  lemma StandsSplit(t: seq<Unit>, p: nat, x: seq<Unit>, y: seq<Unit>)
    ensures Stands(t, p, x + y) <==> Stands(t, p, x) && Stands(t, p + |x|, y)
  {
    if p + |x| + |y| <= |t| {
      var s := t[p..p + |x| + |y|];
      assert t[p..p + |x|] == s[..|x|];
      assert t[p + |x|..p + |x| + |y|] == s[|x|..];
      assert (x + y)[..|x|] == x && (x + y)[|x|..] == y;
      assert s == s[..|x|] + s[|x|..];
    }
  }

  /** Every UTF-8 string, and no other, has a UTF-16 form, and that form gives back the same bytes. */
  lemma {:induction false} ThereAndBack(s: seq<Byte>, i: nat, t: seq<Unit>, p: nat)
    requires i <= |s|
    ensures FromUtf8(s, i).Some? <==> Utf8.ValidFrom(s, i)
    ensures FromUtf8(s, i).Some? && Stands(t, p, FromUtf8(s, i).value) && p + |FromUtf8(s, i).value| == |t| ==>
              ToUtf8(t, p) == Some(s[i..])
    decreases |s| - i
  {
    hide Utf8.Length, Utf8.CodePoint, Utf8.Encode, Encode, Length, CodePoint;
    if i == |s| {
      assert s[i..] == [];
    } else if Utf8.Length(s, i) > 0 {
      var n, cp := Utf8.Length(s, i), Utf8.CodePoint(s, i);
      Utf8.EncodeOfDecode(s, i);
      Utf8.InBounds(s, i);
      ThereAndBack(s, i + n, t, p + |Encode(cp)|);
      if FromUtf8(s, i).Some? && Stands(t, p, FromUtf8(s, i).value) && p + |FromUtf8(s, i).value| == |t| {
        StandsSplit(t, p, Encode(cp), FromUtf8(s, i + n).value);
        DecodeOfEncode(cp, t, p);
        assert s[i..] == s[i..i + n] + s[i + n..];
      }
    }
  }

  /** Every sequence of units without a lone surrogate, and no other, has a UTF-8 form, and that form gives it back. */
  lemma {:induction false} BackAndThere(t: seq<Unit>, p: nat, s: seq<Byte>, i: nat)
    requires p <= |t|
    ensures ToUtf8(t, p).Some? <==> ValidFrom(t, p)
    ensures ToUtf8(t, p).Some? && At(s, i, ToUtf8(t, p).value) && i + |ToUtf8(t, p).value| == |s| ==>
              FromUtf8(s, i) == Some(t[p..])
    decreases |t| - p
  {
    hide Utf8.Length, Utf8.CodePoint, Utf8.Encode, Encode, Length, CodePoint;
    if p == |t| {
      assert t[p..] == [];
    } else if Length(t, p) > 0 {
      var n, cp := Length(t, p), CodePoint(t, p);
      EncodeOfDecode(t, p);
      BackAndThere(t, p + n, s, i + |Utf8.Encode(cp)|);
      if ToUtf8(t, p).Some? && At(s, i, ToUtf8(t, p).value) && i + |ToUtf8(t, p).value| == |s| {
        AtSplit(s, i, Utf8.Encode(cp), ToUtf8(t, p + n).value);
        Utf8.DecodeOfEncode(cp, s, i);
        assert t[p..] == t[p..p + n] + t[p + n..];
      }
    }
  }

  // ------------------------------------------------------------- Streams

  class UnitOutput {
    var out: seq<Unit>

    constructor ()
      ensures out == []
    {
      out := [];
    }

    method Put(u: Unit)
      modifies this
      ensures out == old(out) + [u]
    {
      out := out + [u];
    }
  }

  /** Puts the units of a code point; the caller answers for its being no surrogate. */
  method PutCodePoint(os: UnitOutput, codepoint: nat)
    requires Utf8.IsScalar(codepoint)
    modifies os
    ensures os.out == old(os.out) + Encode(codepoint)
  {
    if codepoint <= 0xFFFF {
      os.Put(codepoint);
    } else {
      var v := codepoint - 0x10000;
      os.Put(0xD800 + v / 0x400);
      os.Put(0xDC00 + v % 0x400);
    }
  }

  class UnitStream {
    const text: seq<Unit>
    var src: nat

    constructor (t: seq<Unit>, p: nat)
      ensures text == t && src == p
    {
      text := t;
      src := p;
    }

    method Take() returns (u: Unit)
      modifies this
      ensures u == UnitAt(text, old(src)) && src == old(src) + 1
    {
      u := UnitAt(text, src);
      src := src + 1;
    }

    method Decode() returns (ok: bool, codepoint: nat)
      modifies this
      ensures ok <==> Length(text, old(src)) > 0
      ensures ok ==> codepoint == CodePoint(text, old(src)) && src == old(src) + Length(text, old(src))
    {
      var c := Take();
      if c < 0xD800 || c > 0xDFFF {
        return true, c;
      } else if c <= 0xDBFF {
        var high: int := c % 0x400;
        c := Take();
        var low: int := c % 0x400;
        return 0xDC00 <= c <= 0xDFFF, high * 0x400 + low + 0x10000;
      }
      return false, 0;
    }

    /** Takes one character and puts it in UTF-8. */
    method Transcode(os: Utf8.OutputStream) returns (ok: bool)
      modifies this, os
      ensures ok <==> Length(text, old(src)) > 0
      ensures ok ==> src == old(src) + Length(text, old(src)) && os.out == old(os.out) + Utf8.Encode(CodePoint(text, old(src)))
      ensures !ok ==> os.out == old(os.out)
    {
      var codepoint;
      ok, codepoint := Decode();
      if ok {
        Utf8.PutCodePoint(os, codepoint);
      }
    }
  }

  /** Takes one UTF-8 character and puts it in UTF-16. */
  method Transcode(input: Utf8.StringStream, os: UnitOutput) returns (ok: bool)
    requires input.src < |input.text|
    modifies input, os
    ensures ok <==> Utf8.Length(input.text, old(input.src)) > 0
    ensures ok ==> input.src == old(input.src) + Utf8.Length(input.text, old(input.src))
    ensures ok ==> Utf8.IsScalar(Utf8.CodePoint(input.text, old(input.src)))
    ensures ok ==> os.out == old(os.out) + Encode(Utf8.CodePoint(input.text, old(input.src)))
    ensures !ok ==> os.out == old(os.out)
  {
    ghost var p := input.src;
    var codepoint;
    ok, codepoint := input.Decode();
    if ok {
      Utf8.EncodeOfDecode(input.text, p);
      PutCodePoint(os, codepoint);
    }
  }
}
