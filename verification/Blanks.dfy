/** Whitespace and comments, said of the characters they are made of. */
module Blanks {
  import opened Text
  import opened Sax
  import opened Lexer

  predicate Pair(t: seq<Byte>, p: nat, c: int, d: int) {
    Peek(t, p) == c && Peek(t, p + 1) == d
  }

  lemma WhitespaceIs(c: Byte)
    ensures IsWhitespace(c) <==> c == ' ' as int || c == '\n' as int || c == '\r' as int || c == '\t' as int
  {}

  /** All whitespace is skipped, and nothing else. */
  lemma {:induction false} SkipWhitespaceIff(t: seq<Byte>, p: nat, q: nat)
    ensures SkipWhitespace(t, p) == q <==>
            p <= q && (forall k | p <= k < q :: IsWhitespace(Peek(t, k))) && !IsWhitespace(Peek(t, q))
    decreases |t| - p
  {
    if IsWhitespace(Peek(t, p)) {
      SkipWhitespaceIff(t, p + 1, q);
    }
  }

  /** A block comment ends after the first star and slash, and none may come after the end of the text. */
  lemma {:induction false} BlockCommentIff(t: seq<Byte>, p: nat, q: nat)
    ensures BlockComment(t, p) == Some(q) <==>
            && p + 2 <= q && Pair(t, q - 2, '*' as int, '/' as int)
            && forall k | p <= k < q - 2 :: Peek(t, k) != 0 && !Pair(t, k, '*' as int, '/' as int)
    decreases |t| - p
  {
    if Peek(t, p) == NUL {
    } else if Pair(t, p, '*' as int, '/' as int) {
    } else {
      BlockCommentIff(t, p + 1, q);
    }
  }

  /** A line comment ends after the first line feed, or where the text ends. */
  lemma {:induction false} LineCommentIff(t: seq<Byte>, p: nat, q: nat)
    ensures LineComment(t, p) == q <==>
            || (p <= q && Peek(t, q) == 0 && forall k | p <= k < q :: Peek(t, k) != 0 && Peek(t, k) != '\n' as int)
            || (p < q && Peek(t, q - 1) == '\n' as int && forall k | p <= k < q - 1 :: Peek(t, k) != 0 && Peek(t, k) != '\n' as int)
    decreases |t| - p
  {
    if Peek(t, p) != NUL && Peek(t, p) != LF {
      LineCommentIff(t, p + 1, q);
    }
  }

  // -------------------------------------------------------------------- Gaps

  /** One character of whitespace or, where they are allowed, one whole comment. */
  ghost predicate BlankIs(env: Env, p: nat, q: nat) {
    || (q == p + 1 && IsWhitespace(Peek(env.text, p)))
    || (env.flags.comments && Pair(env.text, p, '/' as int, '*' as int) && BlockComment(env.text, p + 2) == Some(q))
    || (env.flags.comments && Pair(env.text, p, '/' as int, '/' as int) && LineComment(env.text, p + 2) == q)
  }

  /** Blanks one after the other from `p` to `q`; `cuts` are the places where they end. */
  ghost predicate BlanksAre(env: Env, p: nat, cuts: seq<nat>, q: nat)
    decreases cuts
  {
    if cuts == [] then p == q else BlankIs(env, p, cuts[0]) && BlanksAre(env, cuts[0], cuts[1..], q)
  }

  ghost predicate GapIs(env: Env, p: nat, q: nat) {
    exists cuts :: BlanksAre(env, p, cuts, q)
  }

  /** No blank can begin at `q`. */
  predicate NoBlank(env: Env, q: nat) {
    !IsWhitespace(Peek(env.text, q)) && !(env.flags.comments && Peek(env.text, q) == '/' as int)
  }

  lemma {:induction false} SkipBlanks(env: Env, p: nat, cuts: seq<nat>, q: nat)
    requires BlanksAre(env, p, cuts, q) && NoBlank(env, q)
    ensures Skip(env, p) == Got(q, ())
    decreases cuts
  {
    hide BlockComment, LineComment;
    if cuts != [] {
      SkipBlanks(env, cuts[0], cuts[1..], q);
    }
  }

  lemma {:induction false} SkippedBlanks(env: Env, p: nat, q: nat) returns (cuts: seq<nat>)
    requires Skip(env, p) == Got(q, ())
    ensures BlanksAre(env, p, cuts, q) && NoBlank(env, q)
    decreases |env.text| - p
  {
    hide BlockComment, LineComment;
    var t := env.text;
    var k := p;
    if IsWhitespace(Peek(t, p)) {
      k := p + 1;
    } else if env.flags.comments && Peek(t, p) == SLASH {
      k := if Peek(t, p + 1) == STAR then BlockComment(t, p + 2).value else LineComment(t, p + 2);
    }
    if k == p {
      cuts := [];
    } else {
      assert BlankIs(env, p, k) && Skip(env, p) == Skip(env, k);
      var rest := SkippedBlanks(env, k, q);
      cuts := [k] + rest;
      assert cuts[1..] == rest;
    }
  }

  /** What is skipped before a token is a gap, and all of it. */
  lemma SkipIff(env: Env, p: nat, q: nat)
    ensures Skip(env, p) == Got(q, ()) <==> GapIs(env, p, q) && NoBlank(env, q)
  {
    hide Skip, NoBlank;
    if Skip(env, p) == Got(q, ()) {
      var cuts := SkippedBlanks(env, p, q);
    }
    if GapIs(env, p, q) && NoBlank(env, q) {
      var cuts :| BlanksAre(env, p, cuts, q);
      SkipBlanks(env, p, cuts, q);
    }
  }
}
