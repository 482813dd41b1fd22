/**
 The writer and the indenting writer: a handler that turns events into text, keeping for every open
 container how many values it has been sent. Fed with a value's events it writes that value's text.
 */
module Writer {
  import opened Text
  import Sax
  import opened Dom
  import opened Printer
  import Utf8

  /** An open container and the number of values, names included, written in it. */
  datatype Level = Level(valueCount: nat, inArray: bool)

  datatype State = State(out: seq<Byte>, levels: seq<Level>, hasRoot: bool)

  /** Separator, line break and indentation before the next value, inside the given levels. */
  function PrefixText(style: Style, levels: seq<Level>): seq<Byte> {
    if levels == [] then []
    else
      var top := levels[|levels| - 1];
      if top.inArray || top.valueCount % 2 == 0
      then Comma(top.valueCount == 0) + Gap(style, top.inArray, top.valueCount == 0, |levels|)
      else [COLON] + ColonGap(style)
  }

  /** The assertions of the prefix: one root only, and every other value of an object is a name. */
  predicate MayStart(w: State, isString: bool) {
    if w.levels == [] then !w.hasRoot
    else
      var top := w.levels[|w.levels| - 1];
      top.inArray || top.valueCount % 2 == 1 || isString
  }

  /** The levels with one more value counted. */
  function Counted(levels: seq<Level>): (r: seq<Level>)
    ensures |r| == |levels|
  {
    if levels == [] then []
    else
      var n := |levels| - 1;
      levels[n := levels[n].(valueCount := levels[n].valueCount + 1)]
  }

  function Prefix(style: Style, w: State): State {
    State(w.out + PrefixText(style, w.levels), Counted(w.levels), true)
  }

  function Append(w: State, s: seq<Byte>): State {
    w.(out := w.out + s)
  }

  predicate IsText(e: Sax.Event) {
    e.String? || e.Key?
  }

  /** The text of an event that is a whole value or a name; None when it cannot be written. */
  function ScalarText(ascii: bool, e: Sax.Event): Option<seq<Byte>> {
    match e
    case Null => Some(NULL_TEXT)
    case Bool(b) => Some(if b then TRUE_TEXT else FALSE_TEXT)
    case Int(i) => Some(SignedDecimal(i))
    case Uint(u) => Some(SignedDecimal(u))
    case Int64(i) => Some(SignedDecimal(i))
    case Uint64(u) => Some(SignedDecimal(u))
    case String(s) => StringText(ascii, s)
    case Key(k) => StringText(ascii, k)
    case _ => None
  }

  /** One event; None when an assertion of the writer fails or the event cannot be written. */
  function Step(f: Format, w: State, e: Sax.Event): Option<State> {
    match e
    case StartObject =>
      if !MayStart(w, false) then None
      else
        var p := Prefix(f.style, w);
        Some(State(p.out + [LBRACE], p.levels + [Level(0, false)], true))
    case StartArray =>
      if !MayStart(w, false) then None
      else
        var p := Prefix(f.style, w);
        Some(State(p.out + [LBRACKET], p.levels + [Level(0, true)], true))
    case EndObject(_) => End(f, w, false)
    case EndArray(_) => End(f, w, true)
    case _ =>
      if !MayStart(w, IsText(e)) || ScalarText(f.ascii, e).None? then None
      else Some(Append(Prefix(f.style, w), ScalarText(f.ascii, e).value))
  }

  function End(f: Format, w: State, inArray: bool): Option<State> {
    if w.levels == [] || w.levels[|w.levels| - 1].inArray != inArray then None
    else
      var n := |w.levels| - 1;
      var gap := if w.levels[n].valueCount == 0 then [] else CloseGap(f.style, inArray, n);
      Some(w.(out := w.out + gap + [if inArray then RBRACKET else RBRACE], levels := w.levels[..n]))
  }

  function StepAll(f: Format, w: State, events: seq<Sax.Event>): Option<State>
    decreases events
  {
    if events == [] then Some(w)
    else
      match Step(f, w, events[0])
      case None => None
      case Some(next) => StepAll(f, next, events[1..])
  }

  lemma StepAllConcat(f: Format, w: State, a: seq<Sax.Event>, b: seq<Sax.Event>)
    ensures StepAll(f, w, a + b) == match StepAll(f, w, a) case None => None case Some(s) => StepAll(f, s, b)
    decreases a
  {
    if a == [] {
      assert a + b == b;
    } else {
      assert (a + b)[0] == a[0] && (a + b)[1..] == a[1..] + b;
      match Step(f, w, a[0])
      case None =>
      case Some(next) => StepAllConcat(f, next, a[1..], b);
    }
  }

  // --------------------------------------------------- Events write the text

  /** The state after a value that is written as `s`. */
  function After(f: Format, w: State, s: seq<Byte>): State {
    Append(Prefix(f.style, w), s)
  }

  /** Sending a value's events, whoever sends them, writes exactly its text where a value is due. */
  lemma {:induction false} WriteValue(f: Format, origin: Origin, w: State, v: Value)
    requires WellFormed(v) && Printable(f, v) && MayStart(w, false)
    ensures StepAll(f, w, Events(origin, v)) == Some(After(f, w, Print(f, v, |w.levels|)))
    decreases v, 1
  {
    match v
    case Array(_) => WriteArray(f, origin, w, v);
    case Object(_) => WriteObject(f, origin, w, v);
    case _ => WriteScalar(f, origin, w, v);
  }

  lemma WriteScalar(f: Format, origin: Origin, w: State, v: Value)
    requires WellFormed(v) && Printable(f, v) && MayStart(w, false) && !v.Array? && !v.Object?
    ensures StepAll(f, w, Events(origin, v)) == Some(After(f, w, Print(f, v, |w.levels|)))
  {
    ScalarPrint(f, origin, v, |w.levels|);
    hide Print, Events, PrefixText, Escape, Decimal, WellFormed, Printable;
    var e := Events(origin, v)[0];
    assert Events(origin, v) == [e];
    One(f, w, e);
  }

  /** A scalar is one event, and its text is the text of that event. */
  lemma ScalarPrint(f: Format, origin: Origin, v: Value, depth: nat)
    requires WellFormed(v) && Printable(f, v) && !v.Array? && !v.Object?
    ensures |Events(origin, v)| == 1 && ScalarText(f.ascii, Events(origin, v)[0]) == Some(Print(f, v, depth))
  {
    hide Escape, Decimal;
    match v
    case Number(_, _) => NumberText(origin, v);
    case String(s) => EscapeFails(f.ascii, s, 0);
    case _ =>
  }

  lemma NumberText(origin: Origin, v: Value)
    requires IsInteger(v)
    ensures |Events(origin, v)| == 1
    ensures ScalarText(true, Events(origin, v)[0]) == Some(SignedDecimal(IntegerOf(v)))
    ensures ScalarText(false, Events(origin, v)[0]) == Some(SignedDecimal(IntegerOf(v)))
  {
    hide SignedDecimal, Events, IntegerOf;
    var e := IntegerEvent(origin, v);
  }

  lemma One(f: Format, w: State, e: Sax.Event)
    ensures StepAll(f, w, [e]) == Step(f, w, e)
  {}

  lemma Bracketed(f: Format, w: State, open: Sax.Event, contents: seq<Sax.Event>, close: Sax.Event, inside: State)
    requires Step(f, w, open).Some? && StepAll(f, Step(f, w, open).value, contents) == Some(inside)
    ensures StepAll(f, w, [open] + contents + [close]) == Step(f, inside, close)
  {
    hide Step;
    StepAllConcat(f, w, [open], contents);
    StepAllConcat(f, w, [open] + contents, [close]);
    One(f, w, open);
    One(f, inside, close);
  }

  lemma WriteArray(f: Format, origin: Origin, w: State, v: Value)
    requires WellFormed(v) && Printable(f, v) && MayStart(w, false) && v.Array?
    ensures StepAll(f, w, Events(origin, v)) == Some(After(f, w, Print(f, v, |w.levels|)))
    decreases v, 0
  {
    hide PrefixText, PrintElements, ElementEvents, StepAll, CloseGap, WellFormed, Printable;
    var es, p := v.elements, Prefix(f.style, w);
    var begun := State(p.out + [LBRACKET], p.levels + [Level(0, true)], true);
    Contents(f, v);
    ArrayParts(f, v, |w.levels|);
    hide Print;
    WriteElements(f, origin, begun, es);
    var inner := PrintElements(f, es, |begun.levels|, true);
    var inside := Inside(f, begun, inner, |es|);
    Bracketed(f, w, Sax.StartArray, ElementEvents(origin, es), Sax.EndArray(|es|), inside);
    var gap := (if es == [] then [] else CloseGap(f.style, true, |w.levels|));
    assert inside.out + gap + [RBRACKET] == p.out + ([LBRACKET] + inner + gap + [RBRACKET]);
    assert inside.levels[..|w.levels|] == p.levels;
  }

  lemma WriteObject(f: Format, origin: Origin, w: State, v: Value)
    requires WellFormed(v) && Printable(f, v) && MayStart(w, false) && v.Object?
    ensures StepAll(f, w, Events(origin, v)) == Some(After(f, w, Print(f, v, |w.levels|)))
    decreases v, 0
  {
    hide PrefixText, PrintMembers, MemberEvents, StepAll, CloseGap, WellFormed, Printable;
    var ms, p := v.members, Prefix(f.style, w);
    var begun := State(p.out + [LBRACE], p.levels + [Level(0, false)], true);
    Contents(f, v);
    ObjectParts(f, v, |w.levels|);
    hide Print;
    WriteMembers(f, origin, begun, ms);
    var inner := PrintMembers(f, ms, |begun.levels|, true);
    var inside := Inside(f, begun, inner, 2 * |ms|);
    Bracketed(f, w, Sax.StartObject, MemberEvents(origin, ms), Sax.EndObject(|ms|), inside);
    var gap := (if ms == [] then [] else CloseGap(f.style, false, |w.levels|));
    assert inside.out + gap + [RBRACE] == p.out + ([LBRACE] + inner + gap + [RBRACE]);
    assert inside.levels[..|w.levels|] == p.levels;
  }

  lemma ArrayParts(f: Format, v: Value, depth: nat)
    requires WellFormed(v) && Printable(f, v) && v.Array?
    ensures Print(f, v, depth) ==
            [LBRACKET] + PrintElements(f, v.elements, depth + 1, true)
            + (if v.elements == [] then [] else CloseGap(f.style, true, depth)) + [RBRACKET]
  {}

  lemma ObjectParts(f: Format, v: Value, depth: nat)
    requires WellFormed(v) && Printable(f, v) && v.Object?
    ensures Print(f, v, depth) ==
            [LBRACE] + PrintMembers(f, v.members, depth + 1, true)
            + (if v.members == [] then [] else CloseGap(f.style, false, depth)) + [RBRACE]
  {}

  lemma Contents(f: Format, v: Value)
    requires WellFormed(v) && Printable(f, v)
    ensures v.Array? ==> forall e | e in v.elements :: WellFormed(e) && Printable(f, e)
    ensures v.Object? ==> forall m | m in v.members ::
                            WellFormed(m.value) && (f.ascii ==> Utf8.Valid(m.name)) && Printable(f, m.value)
  {}

  /** The state with `s` written and `n` more values counted in the top level. */
  function Inside(f: Format, w: State, s: seq<Byte>, n: nat): State
    requires w.levels != []
  {
    var k := |w.levels| - 1;
    State(w.out + s, w.levels[k := w.levels[k].(valueCount := w.levels[k].valueCount + n)], w.hasRoot)
  }

  lemma {:induction false} WriteElements(f: Format, origin: Origin, w: State, es: seq<Value>)
    requires w.levels != [] && w.levels[|w.levels| - 1].inArray && w.hasRoot
    requires forall e | e in es :: WellFormed(e) && Printable(f, e)
    ensures StepAll(f, w, ElementEvents(origin, es)) ==
            Some(Inside(f, w, PrintElements(f, es, |w.levels|, w.levels[|w.levels| - 1].valueCount == 0), |es|))
    decreases es
  {
    hide Gap, Print, Events, WellFormed, Printable, Step;
    var k := |w.levels| - 1;
    var first := w.levels[k].valueCount == 0;
    if es == [] {
      assert Inside(f, w, [], 0) == w;
    } else {
      WriteValue(f, origin, w, es[0]);
      var text := Print(f, es[0], |w.levels|);
      var next := After(f, w, text);
      StepAllConcat(f, w, Events(origin, es[0]), ElementEvents(origin, es[1..]));
      WriteElements(f, origin, next, es[1..]);
      var rest := PrintElements(f, es[1..], |w.levels|, false);
      hide PrintElements, ElementEvents;
      assert w.out + (Comma(first) + Gap(f.style, true, first, |w.levels|)) + text + rest ==
             w.out + (Comma(first) + Gap(f.style, true, first, |w.levels|) + text + rest);
      assert Inside(f, next, rest, |es| - 1).levels == Inside(f, w, [], |es|).levels;
    }
  }

  /** A name and then its value. */
  lemma WriteMember(f: Format, origin: Origin, w: State, m: Member)
    requires w.levels != [] && !w.levels[|w.levels| - 1].inArray && w.levels[|w.levels| - 1].valueCount % 2 == 0 && w.hasRoot
    requires WellFormed(m.value) && (f.ascii ==> Utf8.Valid(m.name)) && Printable(f, m.value)
    ensures
      var first := w.levels[|w.levels| - 1].valueCount == 0;
      StepAll(f, w, [Sax.Key(m.name)] + Events(origin, m.value)) ==
      Some(Inside(f, w, Comma(first) + Gap(f.style, false, first, |w.levels|) + PrintMember(f, m, |w.levels|), 2))
    decreases m, 2
  {
    hide Gap, ColonGap, Print, PrintString, Events, WellFormed, Printable, Escape, Step, PrefixText, Utf8.Valid;
    var name, value := PrintString(f, m.name), Print(f, m.value, |w.levels|);
    WriteName(f, w, m.name);
    var named := After(f, w, name);
    One(f, w, Sax.Key(m.name));
    StepAllConcat(f, w, [Sax.Key(m.name)], Events(origin, m.value));
    WriteValue(f, origin, named, m.value);
    MemberState(f, w, name, value);
    assert PrintMember(f, m, |w.levels|) == name + [COLON] + ColonGap(f.style) + value;
  }

  /** The state after a name and a value, and the text between them. */
  lemma MemberState(f: Format, w: State, name: seq<Byte>, value: seq<Byte>)
    requires w.levels != [] && !w.levels[|w.levels| - 1].inArray && w.levels[|w.levels| - 1].valueCount % 2 == 0 && w.hasRoot
    ensures
      var first := w.levels[|w.levels| - 1].valueCount == 0;
      After(f, After(f, w, name), value) ==
      Inside(f, w, Comma(first) + Gap(f.style, false, first, |w.levels|) + (name + [COLON] + ColonGap(f.style) + value), 2)
  {
    hide Gap, ColonGap;
    var first := w.levels[|w.levels| - 1].valueCount == 0;
    var prefix, colon := Comma(first) + Gap(f.style, false, first, |w.levels|), ColonGap(f.style);
    assert w.out + prefix + name + ([COLON] + colon) + value == w.out + (prefix + (name + [COLON] + colon + value));
    assert After(f, After(f, w, name), value).levels == Inside(f, w, [], 2).levels;
  }

  lemma WriteName(f: Format, w: State, name: seq<Byte>)
    requires MayStart(w, true) && (f.ascii ==> Utf8.Valid(name))
    ensures Step(f, w, Sax.Key(name)) == Some(After(f, w, PrintString(f, name)))
  {
    hide Escape;
    EscapeFails(f.ascii, name, 0);
  }

  lemma {:induction false} WriteMembers(f: Format, origin: Origin, w: State, ms: seq<Member>)
    requires w.levels != [] && !w.levels[|w.levels| - 1].inArray && w.levels[|w.levels| - 1].valueCount % 2 == 0 && w.hasRoot
    requires forall m | m in ms :: WellFormed(m.value) && (f.ascii ==> Utf8.Valid(m.name)) && Printable(f, m.value)
    ensures StepAll(f, w, MemberEvents(origin, ms)) ==
            Some(Inside(f, w, PrintMembers(f, ms, |w.levels|, w.levels[|w.levels| - 1].valueCount == 0), 2 * |ms|))
    decreases ms
  {
    hide Gap, Print, PrintMember, Events, WellFormed, Printable, Step;
    var k := |w.levels| - 1;
    var first := w.levels[k].valueCount == 0;
    if ms == [] {
      assert Inside(f, w, [], 0) == w;
    } else {
      WriteMember(f, origin, w, ms[0]);
      var text := Comma(first) + Gap(f.style, false, first, |w.levels|) + PrintMember(f, ms[0], |w.levels|);
      var next := Inside(f, w, text, 2);
      StepAllConcat(f, w, [Sax.Key(ms[0].name)] + Events(origin, ms[0].value), MemberEvents(origin, ms[1..]));
      WriteMembers(f, origin, next, ms[1..]);
      var rest := PrintMembers(f, ms[1..], |w.levels|, false);
      hide PrintMembers, MemberEvents;
      assert w.out + text + rest == w.out + (text + rest);
      assert Inside(f, next, rest, 2 * |ms[1..]|).levels == Inside(f, w, [], 2 * |ms|).levels;
    }
  }

  // ------------------------------------------------------- The writer itself

  /** Writer and, with an indented style, PrettyWriter. */
  class TextWriter {
    const f: Format
    const os: Utf8.OutputStream
    var levels: seq<Level>
    var hasRoot: bool

    constructor (format: Format, stream: Utf8.OutputStream)
      ensures f == format && os == stream && levels == [] && !hasRoot
    {
      f, os, levels, hasRoot := format, stream, [], false;
    }

    /** What the writer has done so far. */
    ghost function Progress(): State
      reads this, os
    {
      State(os.out, levels, hasRoot)
    }

    method PutAll(s: seq<Byte>)
      modifies os
      ensures os.out == old(os.out) + s
    {
      var i := 0;
      while i < |s|
        invariant 0 <= i <= |s| && os.out == old(os.out) + s[..i]
      {
        os.Put(s[i]);
        i := i + 1;
      }
    }

    /** The indentation of every open container. */
    method WriteIndent()
      requires f.style.Pretty?
      modifies os
      ensures os.out == old(os.out) + Repeat(f.style.indentChar, |levels| * f.style.indentCount)
    {
      var count := |levels| * f.style.indentCount;
      var i := 0;
      while i < count
        invariant 0 <= i <= count && os.out == old(os.out) + Repeat(f.style.indentChar, i)
      {
        os.Put(f.style.indentChar);
        i := i + 1;
      }
    }

    method BreakLine()
      requires f.style.Pretty?
      modifies os
      ensures os.out == old(os.out) + NewLine(f.style, |levels|)
    {
      os.Put(LF);
      WriteIndent();
    }

    method PlainSeparator(top: Level)
      requires f.style.Compact? && levels != [] && top == levels[|levels| - 1]
      modifies os
      ensures os.out == old(os.out) + PrefixText(f.style, levels)
    {
      if top.valueCount > 0 {
        if top.inArray {
          os.Put(COMMA);
        } else {
          os.Put(if top.valueCount % 2 == 0 then COMMA else COLON);
        }
      }
    }

    method PrettySeparator(top: Level)
      requires f.style.Pretty? && levels != [] && top == levels[|levels| - 1]
      modifies os
      ensures os.out == old(os.out) + PrefixText(f.style, levels)
    {
      if top.inArray {
        if top.valueCount > 0 {
          os.Put(COMMA);
          if f.style.singleLineArray {
            os.Put(SPACE);
          }
        }
        if !f.style.singleLineArray {
          BreakLine();
        }
      } else {
        if top.valueCount > 0 {
          if top.valueCount % 2 == 0 {
            os.Put(COMMA);
            os.Put(LF);
          } else {
            os.Put(COLON);
            os.Put(SPACE);
          }
        } else {
          os.Put(LF);
        }
        if top.valueCount % 2 == 0 {
          WriteIndent();
        }
      }
    }

    /** Separator and indentation of the next value, which is then counted. */
    method PutPrefix(isString: bool)
      requires MayStart(Progress(), isString)
      modifies this, os
      ensures Progress() == Prefix(f.style, old(Progress()))
    {
      if levels != [] {
        var top := levels[|levels| - 1];
        if f.style.Compact? {
          PlainSeparator(top);
        } else {
          PrettySeparator(top);
        }
        levels := levels[|levels| - 1 := top.(valueCount := top.valueCount + 1)];
      }
      // a writer with open containers already has its root
      hasRoot := true;
    }

    method PutUnicode(u: nat)
      requires u < 0x10000
      modifies os
      ensures os.out == old(os.out) + UnicodeEscape(u)
    {
      os.Put(BACKSLASH);
      os.Put(LOWER_U);
      os.Put(HexChar(u / 4096 % 16));
      os.Put(HexChar(u / 256 % 16));
      os.Put(HexChar(u / 16 % 16));
      os.Put(HexChar(u % 16));
    }

    /** One escape, or the two of a surrogate pair. */
    method PutCodePoint(codepoint: nat)
      requires Utf8.IsScalar(codepoint)
      modifies os
      ensures os.out == old(os.out) + CodePointEscape(codepoint)
    {
      hide UnicodeEscape;
      if codepoint <= 0xD7FF || 0xE000 <= codepoint <= 0xFFFF {
        PutUnicode(codepoint);
      } else {
        var s := codepoint - 0x10000;
        PutUnicode(s / 0x400 + 0xD800);
        PutUnicode(s % 0x400 + 0xDC00);
      }
    }

    method PutEscaped(c: Byte)
      modifies os
      ensures os.out == old(os.out) + EscapeChar(c)
    {
      match EscapeLetter(c) {
        case None =>
          os.Put(c);
        case Some(letter) =>
          os.Put(BACKSLASH);
          os.Put(letter);
          if letter == LOWER_U {
            os.Put(DIGIT_0);
            os.Put(DIGIT_0);
            os.Put(HexChar(c / 16));
            os.Put(HexChar(c % 16));
          }
      }
    }

    /** The escapes of one character up to the next, whose first byte is not plain ASCII. */
    method PutDecoded(source: Utf8.StringStream) returns (ok: bool)
      requires source.src < |source.text|
      modifies source, os
      ensures ok <==> Utf8.Length(source.text, old(source.src)) > 0
      ensures ok ==> source.src == old(source.src) + Utf8.Length(source.text, old(source.src)) <= |source.text|
      ensures ok ==> Utf8.IsScalar(Utf8.CodePoint(source.text, old(source.src)))
      ensures ok ==> os.out == old(os.out) + CodePointEscape(Utf8.CodePoint(source.text, old(source.src)))
      ensures !ok ==> os.out == old(os.out)
    {
      hide Utf8.Length, Utf8.CodePoint, CodePointEscape;
      ghost var p := source.src;
      var codepoint;
      ok, codepoint := source.Decode();
      if ok {
        Utf8.EncodeOfDecode(source.text, p);
        PutCodePoint(codepoint);
      }
    }

    /** `done` and the escapes of the rest of `s` are the escapes of all of it. */
    static ghost predicate Escaping(ascii: bool, s: seq<Byte>, i: nat, done: seq<Byte>)
      requires i <= |s|
    {
      match Escape(ascii, s, i)
      case None => Escape(ascii, s, 0).None?
      case Some(rest) => Escape(ascii, s, 0) == Some(done + rest)
    }

    static lemma EscapingNext(ascii: bool, s: seq<Byte>, i: nat, done: seq<Byte>)
      requires i < |s| && Escaping(ascii, s, i, done)
      ensures !(ascii && s[i] >= 0x80) ==> Escaping(ascii, s, i + 1, done + EscapeChar(s[i]))
      ensures ascii && s[i] >= 0x80 && Utf8.Length(s, i) == 0 ==> Escape(ascii, s, 0).None?
      ensures ascii && s[i] >= 0x80 && Utf8.Length(s, i) > 0 ==>
                && Utf8.IsScalar(Utf8.CodePoint(s, i)) && i + Utf8.Length(s, i) <= |s|
                && Escaping(ascii, s, i + Utf8.Length(s, i), done + CodePointEscape(Utf8.CodePoint(s, i)))
    {
      hide Utf8.Length, Utf8.CodePoint, CodePointEscape, EscapeChar;
      var n := Utf8.Length(s, i);
      if ascii && s[i] >= 0x80 && n > 0 {
        Utf8.EncodeOfDecode(s, i);
        var escape := CodePointEscape(Utf8.CodePoint(s, i));
        match Escape(ascii, s, i + n)
        case None =>
        case Some(rest) => assert done + (escape + rest) == (done + escape) + rest;
      } else if !(ascii && s[i] >= 0x80) {
        match Escape(ascii, s, i + 1)
        case None =>
        case Some(rest) => assert done + (EscapeChar(s[i]) + rest) == (done + EscapeChar(s[i])) + rest;
      }
    }

    /** A quoted string. What is put, whether or not the string can be written, fits the space reserved for it. */
    method WriteString(s: seq<Byte>) returns (ok: bool)
      modifies os
      ensures ok <==> StringText(f.ascii, s).Some?
      ensures ok ==> os.out == old(os.out) + StringText(f.ascii, s).value
      ensures |os.out| <= |old(os.out)| + 2 + 6 * |s|
    {
      hide Escape, Utf8.Length, Utf8.CodePoint, CodePointEscape, EscapeChar;
      os.Put(QUOTE);
      var source := new Utf8.StringStream(s, 0);
      ghost var done: seq<Byte> := [];
      assert Escaping(f.ascii, s, 0, []) by { EscapingStart(f.ascii, s); }
      while source.src < |s|
        invariant source.text == s && source.src <= |s| && fresh(source)
        invariant Escaping(f.ascii, s, source.src, done)
        invariant os.out == old(os.out) + [QUOTE] + done && |done| <= 6 * source.src
        decreases |s| - source.src
      {
        ghost var p := source.src;
        EscapingNext(f.ascii, s, p, done);
        var c := s[source.src];
        if f.ascii && c >= 0x80 {
          LongEscapes(s, p);
          ok := PutDecoded(source);
          if !ok {
            return false;
          }
          done := done + CodePointEscape(Utf8.CodePoint(s, p));
        } else {
          c := source.Take();
          PutEscaped(c);
          done := done + EscapeChar(c);
        }
      }
      os.Put(QUOTE);
      EscapingEnd(f.ascii, s, done);
      ok := true;
    }

    static lemma EscapingStart(ascii: bool, s: seq<Byte>)
      ensures Escaping(ascii, s, 0, [])
    {
      match Escape(ascii, s, 0)
      case None =>
      case Some(rest) => assert [] + rest == rest;
    }

    static lemma EscapingEnd(ascii: bool, s: seq<Byte>, done: seq<Byte>)
      requires Escaping(ascii, s, |s|, done)
      ensures Escape(ascii, s, 0) == Some(done)
    {
      assert done + [] == done;
    }

    static lemma LongEscapes(s: seq<Byte>, i: nat)
      requires i < |s|
      ensures Utf8.Length(s, i) > 0 ==> Utf8.IsScalar(Utf8.CodePoint(s, i))
      ensures Utf8.Length(s, i) > 0 ==> |CodePointEscape(Utf8.CodePoint(s, i))| <= 6 * Utf8.Length(s, i)
    {
      hide Utf8.CodePoint;
      if Utf8.Length(s, i) > 0 {
        Utf8.EncodeOfDecode(s, i);
      }
    }

    method Null()
      requires MayStart(Progress(), false)
      modifies this, os
      ensures Some(Progress()) == Step(f, old(Progress()), Sax.Event.Null)
    {
      PutPrefix(false);
      PutAll(NULL_TEXT);
    }

    method Bool(b: bool)
      requires MayStart(Progress(), false)
      modifies this, os
      ensures Some(Progress()) == Step(f, old(Progress()), Sax.Event.Bool(b))
    {
      PutPrefix(false);
      PutAll(if b then TRUE_TEXT else FALSE_TEXT);
    }

    /** Any of the integer events; the digits are those of the library's integer printing. */
    method Integer(e: Sax.Event)
      requires e.Int? || e.Uint? || e.Int64? || e.Uint64?
      requires MayStart(Progress(), false)
      modifies this, os
      ensures Some(Progress()) == Step(f, old(Progress()), e)
    {
      PutPrefix(false);
      match e {
        case Int(i) => PutAll(SignedDecimal(i));
        case Uint(u) => PutAll(SignedDecimal(u));
        case Int64(i) => PutAll(SignedDecimal(i));
        case Uint64(u) => PutAll(SignedDecimal(u));
      }
    }

    /** A string or a name; false exactly when it cannot be written. */
    method String(s: seq<Byte>) returns (ok: bool)
      requires MayStart(Progress(), true)
      modifies this, os
      ensures ok <==> Step(f, old(Progress()), Sax.Event.String(s)).Some?
      ensures ok ==> Some(Progress()) == Step(f, old(Progress()), Sax.Event.String(s)) == Step(f, old(Progress()), Sax.Event.Key(s))
      ensures |levels| == |old(levels)|
    {
      PutPrefix(true);
      ok := WriteString(s);
    }

    method StartObject()
      requires MayStart(Progress(), false)
      modifies this, os
      ensures Some(Progress()) == Step(f, old(Progress()), Sax.Event.StartObject)
    {
      PutPrefix(false);
      levels := levels + [Level(0, false)];
      os.Put(LBRACE);
    }

    method EndObject(memberCount: nat)
      requires levels != [] && !levels[|levels| - 1].inArray
      modifies this, os
      ensures Some(Progress()) == Step(f, old(Progress()), Sax.Event.EndObject(memberCount))
    {
      var empty := levels[|levels| - 1].valueCount == 0;
      levels := levels[..|levels| - 1];
      if !empty && f.style.Pretty? {
        BreakLine();
      } else {
        assert os.out + [] == os.out;
      }
      os.Put(RBRACE);
    }

    method StartArray()
      requires MayStart(Progress(), false)
      modifies this, os
      ensures Some(Progress()) == Step(f, old(Progress()), Sax.Event.StartArray)
    {
      PutPrefix(false);
      levels := levels + [Level(0, true)];
      os.Put(LBRACKET);
    }

    method EndArray(elementCount: nat)
      requires levels != [] && levels[|levels| - 1].inArray
      modifies this, os
      ensures Some(Progress()) == Step(f, old(Progress()), Sax.Event.EndArray(elementCount))
    {
      var empty := levels[|levels| - 1].valueCount == 0;
      levels := levels[..|levels| - 1];
      if !empty && f.style.Pretty? && !f.style.singleLineArray {
        BreakLine();
      } else {
        assert os.out + [] == os.out;
      }
      os.Put(RBRACKET);
    }
  }
}
