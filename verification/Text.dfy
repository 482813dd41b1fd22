/** Bytes, the characters JSON is made of, and reading a NUL-terminated text. */
module Text {
  type Byte = b: int | 0 <= b < 256

  const NUL: Byte := 0
  const BACKSPACE: Byte := 8
  const TAB: Byte := 9
  const LF: Byte := 10
  const FORMFEED: Byte := 12
  const CR: Byte := 13
  const SPACE: Byte := 32
  const QUOTE: Byte := 34
  const HASH: Byte := 35
  const PERCENT: Byte := 37
  const STAR: Byte := 42
  const PLUS: Byte := 43
  const COMMA: Byte := 44
  const MINUS: Byte := 45
  const DOT: Byte := 46
  const SLASH: Byte := 47
  const DIGIT_0: Byte := 48
  const DIGIT_1: Byte := 49
  const DIGIT_9: Byte := 57
  const COLON: Byte := 58
  const UPPER_A: Byte := 65
  const UPPER_E: Byte := 69
  const UPPER_F: Byte := 70
  const UPPER_I: Byte := 73
  const UPPER_N: Byte := 78
  const UPPER_Z: Byte := 90
  const LBRACKET: Byte := 91
  const BACKSLASH: Byte := 92
  const RBRACKET: Byte := 93
  const UNDERSCORE: Byte := 95
  const LOWER_A: Byte := 97
  const LOWER_B: Byte := 98
  const LOWER_E: Byte := 101
  const LOWER_F: Byte := 102
  const LOWER_I: Byte := 105
  const LOWER_L: Byte := 108
  const LOWER_N: Byte := 110
  const LOWER_R: Byte := 114
  const LOWER_S: Byte := 115
  const LOWER_T: Byte := 116
  const LOWER_U: Byte := 117
  const LOWER_Y: Byte := 121
  const LOWER_Z: Byte := 122
  const LBRACE: Byte := 123
  const RBRACE: Byte := 125
  const TILDE: Byte := 126

  datatype Option<+T> = None | Some(value: T)

  /** The character at `p`; everything after the text reads as its NUL terminator. */
  function Peek(t: seq<Byte>, p: nat): Byte {
    if p < |t| then t[p] else NUL
  }

  /** `x` stands in `t` at position `p`. */
  ghost predicate At(t: seq<Byte>, p: nat, x: seq<Byte>) {
    p + |x| <= |t| && t[p..p + |x|] == x
  }

  lemma AtSplit(t: seq<Byte>, p: nat, x: seq<Byte>, y: seq<Byte>)
    ensures At(t, p, x + y) <==> At(t, p, x) && At(t, p + |x|, y)
  {
    if p + |x| + |y| <= |t| {
      var s := t[p..p + |x| + |y|];
      assert t[p..p + |x|] == s[..|x|];
      assert t[p + |x|..p + |x| + |y|] == s[|x|..];
      assert (x + y)[..|x|] == x && (x + y)[|x|..] == y;
      assert s == s[..|x|] + s[|x|..];
    }
  }

  lemma AtSplit3(t: seq<Byte>, p: nat, x: seq<Byte>, y: seq<Byte>, z: seq<Byte>)
    ensures At(t, p, x + y + z) <==> At(t, p, x) && At(t, p + |x|, y) && At(t, p + |x| + |y|, z)
  {
    AtSplit(t, p, x + y, z);
    AtSplit(t, p, x, y);
  }

  lemma AtEmpty(t: seq<Byte>, p: nat)
    ensures At(t, p, []) <==> p <= |t|
  {}

  lemma AtPeek(t: seq<Byte>, p: nat, x: seq<Byte>, i: nat)
    requires At(t, p, x) && i < |x|
    ensures p + i < |t| && Peek(t, p + i) == x[i]
  {
    assert t[p..p + |x|][i] == t[p + i];
  }

  lemma AtHead(t: seq<Byte>, p: nat, x: seq<Byte>)
    requires x != []
    ensures At(t, p, x) ==> Peek(t, p) == x[0]
  {
    if At(t, p, x) {
      AtPeek(t, p, x, 0);
    }
  }

  /** The `n` characters read from `p` on. */
  function Slice(t: seq<Byte>, p: nat, n: nat): (s: seq<Byte>)
    ensures |s| == n
    ensures forall i | 0 <= i < n :: s[i] == Peek(t, p + i)
  {
    seq<Byte>(n, i requires 0 <= i < n => Peek(t, p + i))
  }

  predicate IsDigit(c: Byte) {
    DIGIT_0 <= c <= DIGIT_9
  }

  predicate IsWhitespace(c: Byte) {
    c == SPACE || c == LF || c == CR || c == TAB
  }
}
