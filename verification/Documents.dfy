/**
 A document is a handler that builds values on a stack. Visiting a value with it copies the value;
 visiting it with a writer and parsing the text with either parser, in place or not, gives the value back.
 */
module Documents {
  import opened Text
  import Sax
  import opened Dom
  import opened Printer
  import Recursive
  import Iterative
  import Equivalence
  import RoundTrip
  import Trees
  import Utf8
  import Writer
  import Reader

  /** Cells read two by two, a name and its value. */
  method Gather(cells: seq<Value>) returns (members: seq<Member>)
    requires AreMembers(cells)
    ensures members == Pairs(cells)
  {
    hide Pairs, AreMembers;
    members := [];
    var i := 0;
    assert cells[0..] == cells;
    while i < |cells|
      invariant 0 <= i <= |cells| && AreMembers(cells[i..]) && Pairs(cells) == members + Pairs(cells[i..])
    {
      PairsNext(cells, i);
      members := members + [Member(cells[i].s, cells[i + 1])];
      i := i + 2;
    }
    PairsNone(cells[i..]);
  }

  lemma PairsNone(cells: seq<Value>)
    requires cells == []
    ensures AreMembers(cells) && Pairs(cells) == []
  {}

  lemma PairsNext(cells: seq<Value>, i: nat)
    requires i < |cells| && AreMembers(cells[i..])
    ensures i + 2 <= |cells| && cells[i].String? && AreMembers(cells[i + 2..])
    ensures Pairs(cells[i..]) == [Member(cells[i].s, cells[i + 1])] + Pairs(cells[i + 2..])
  {
    var rest := cells[i..];
    assert rest[0] == cells[i] && rest[1] == cells[i + 1] && rest[2..] == cells[i + 2..];
    forall k | 0 <= k < |rest| - 2 && k % 2 == 0 ensures rest[2..][k].String? {
      assert rest[2..][k] == rest[k + 2];
    }
  }

  class Document {
    var stack: seq<Value>
    var root: Value

    constructor ()
      ensures stack == [] && root == Value.Null
    {
      stack, root := [], Value.Null;
    }

    method Null()
      modifies this`stack
      ensures Some(stack) == Build(old(stack), Sax.Event.Null)
    {
      stack := stack + [Value.Null];
    }

    method Bool(b: bool)
      modifies this`stack
      ensures Some(stack) == Build(old(stack), Sax.Event.Bool(b))
    {
      stack := stack + [Value.Bool(b)];
    }

    method Int(i: int)
      requires -TWO_31 <= i < TWO_31
      modifies this`stack
      ensures Some(stack) == Build(old(stack), Sax.Event.Int(i))
    {
      stack := stack + [OfInt(i)];
    }

    method Uint(u: int)
      requires 0 <= u < TWO_32
      modifies this`stack
      ensures Some(stack) == Build(old(stack), Sax.Event.Uint(u))
    {
      stack := stack + [OfUint(u)];
    }

    method Int64(i: int)
      requires -TWO_63 <= i < TWO_63
      modifies this`stack
      ensures Some(stack) == Build(old(stack), Sax.Event.Int64(i))
    {
      stack := stack + [OfInt64(i)];
    }

    method Uint64(u: int)
      requires 0 <= u < TWO_64
      modifies this`stack
      ensures Some(stack) == Build(old(stack), Sax.Event.Uint64(u))
    {
      stack := stack + [OfUint64(u)];
    }

    method Double(lexeme: seq<Byte>)
      modifies this`stack
      ensures Some(stack) == Build(old(stack), Sax.Event.Double(lexeme))
    {
      stack := stack + [Value.Double(lexeme)];
    }

    /** A string, or a member's name. */
    method String(s: seq<Byte>)
      modifies this`stack
      ensures Some(stack) == Build(old(stack), Sax.Event.String(s)) == Build(old(stack), Sax.Event.Key(s))
    {
      stack := stack + [Value.String(s)];
    }

    method StartObject()
      modifies this`stack
      ensures Some(stack) == Build(old(stack), Sax.Event.StartObject)
    {
      stack := stack + [Object([])];
    }

    /** Takes the members off the stack, two cells each, and into the object below them. */
    method EndObject(memberCount: nat)
      requires Build(stack, Sax.Event.EndObject(memberCount)).Some?
      modifies this`stack
      ensures Some(stack) == Build(old(stack), Sax.Event.EndObject(memberCount))
    {
      var below := |stack| - 2 * memberCount;
      var members := Gather(stack[below..]);
      stack := stack[..below - 1] + [Object(members)];
    }

    method StartArray()
      modifies this`stack
      ensures Some(stack) == Build(old(stack), Sax.Event.StartArray)
    {
      stack := stack + [Array([])];
    }

    method EndArray(elementCount: nat)
      requires |stack| > elementCount
      modifies this`stack
      ensures Some(stack) == Build(old(stack), Sax.Event.EndArray(elementCount))
    {
      var below := |stack| - elementCount;
      stack := stack[..below - 1] + [Array(stack[below..])];
    }

    method Handle(e: Sax.Event)
      requires Build(stack, e).Some?
      modifies this`stack
      ensures Some(stack) == Build(old(stack), e)
    {
      match e {
        case Null => Null();
        case Bool(b) => Bool(b);
        case Int(i) => Int(i);
        case Uint(u) => Uint(u);
        case Int64(i) => Int64(i);
        case Uint64(u) => Uint64(u);
        case Double(lexeme) => Double(lexeme);
        case String(s) => String(s);
        case Key(k) => String(k);
        case StartObject => StartObject();
        case EndObject(n) => EndObject(n);
        case StartArray => StartArray();
        case EndArray(n) => EndArray(n);
      }
    }

    method HandleAll(events: seq<Sax.Event>)
      requires BuildAll(stack, events).Some?
      modifies this`stack
      ensures Some(stack) == BuildAll(old(stack), events)
    {
      hide Build;
      var i := 0;
      while i < |events|
        invariant 0 <= i <= |events|
        invariant BuildAll(old(stack), events) == BuildAll(stack, events[i..])
      {
        assert events[i..][0] == events[i] && events[i..][1..] == events[i + 1..];
        Handle(events[i]);
        i := i + 1;
      }
      assert events[i..] == [];
    }

    /**
     Parses with either parser and handles what is sent, also by a parse that fails. An accepted text leaves exactly
     one value, which becomes the document; then whatever is left on the stack is dropped.
     */
    method ParseStream(reader: Reader.Reader, iterative: bool) returns (ok: bool)
      requires reader.Ready() && reader.src == 0 && reader.events == [] && reader.stack == [] && stack == []
      modifies this, reader, reader.buf
      ensures ok <==> Recursive.Parse(reader.Env()).Ok?
      ensures ok ==> Sound(root) && BuildAll([], Recursive.Parse(reader.Env()).events) == Some([root])
      ensures !ok ==> root == old(root)
      ensures stack == []
    {
      hide Recursive.Parse, Iterative.Parse, BuildAll, Equivalence.StrayAtRoot;
      Equivalence.ParsersAgree(reader.Env());
      Trees.ParsedTree(reader.Env());
      if iterative {
        reader.IterativeParse();
      } else {
        reader.Parse();
      }
      ok := reader.code.None?;
      ghost var sent := Recursive.Parse(reader.Env()).events;
      Trees.ParseIsHandled(reader.Env(), |sent|);
      assert sent[..|sent|] == sent == reader.events;
      HandleAll(reader.events);
      if ok {
        root := stack[0];
      }
      stack := [];
    }
  }

  // ---------------------------------------------------------------- Visitors

  /** Visiting a value with a document pushes a copy of it and changes nothing below. */
  method CopyTo(v: Value, d: Document)
    requires Sound(v)
    modifies d`stack
    ensures d.stack == old(d.stack) + [v]
    decreases v, 1
  {
    match v {
      case Null => d.Null();
      case Bool(b) => d.Bool(b);
      case Number(_, _) => CopyNumber(v, d);
      case Double(lexeme) => d.Double(lexeme);
      case String(s) => d.String(s);
      case Array(_) => CopyArray(v, d);
      case Object(_) => CopyObject(v, d);
    }
  }

  /** A number is sent by the narrowest of its types. */
  method CopyNumber(v: Value, d: Document)
    requires IsInteger(v)
    modifies d`stack
    ensures d.stack == old(d.stack) + [v]
  {
    ghost var base := d.stack;
    EventOfInteger(v);
    ConstructorsAgree(IntegerOf(v));
    if v.flags.isInt {
      d.Int(LowInt(v.bits));
    } else if v.flags.isUint {
      d.Uint(v.bits % TWO_32);
    } else if v.flags.isInt64 {
      d.Int64(SignedPattern(v.bits));
    } else {
      d.Uint64(v.bits);
    }
  }

  method CopyArray(v: Value, d: Document)
    requires Sound(v) && v.Array?
    modifies d`stack
    ensures d.stack == old(d.stack) + [v]
    decreases v, 0
  {
    ghost var base := d.stack;
    var es := v.elements;
    d.StartArray();
    var i := 0;
    while i < |es|
      invariant 0 <= i <= |es| && d.stack == base + [Array([])] + es[..i]
    {
      CopyTo(es[i], d);
      assert es[..i + 1] == es[..i] + [es[i]];
      i := i + 1;
    }
    assert es[..i] == es;
    ghost var full := d.stack;
    assert full[..|full| - |es| - 1] == base && full[|full| - |es|..] == es;
    d.EndArray(|es|);
  }

  method CopyObject(v: Value, d: Document)
    requires Sound(v) && v.Object?
    modifies d`stack
    ensures d.stack == old(d.stack) + [v]
    decreases v, 0
  {
    hide Cells;
    ghost var base := d.stack;
    var ms := v.members;
    d.StartObject();
    assert Cells([]) == [] by { CellsNone(); }
    var i := 0;
    while i < |ms|
      invariant 0 <= i <= |ms| && d.stack == base + [Object([])] + Cells(ms[..i])
    {
      d.String(ms[i].name);
      CopyTo(ms[i].value, d);
      Trees.CellsMore(ms[..i], ms[i]);
      assert ms[..i + 1] == ms[..i] + [ms[i]];
      i := i + 1;
    }
    assert ms[..i] == ms;
    BuildObjectEnd(base, ms);
    d.EndObject(|ms|);
  }

  lemma CellsNone()
    ensures Cells([]) == []
  {}

  lemma EventOfInteger(v: Value)
    requires IsInteger(v)
    ensures var n := IntegerOf(v);
            && (v.flags.isInt ==> LowInt(v.bits) == n && -TWO_31 <= n < TWO_31)
            && (!v.flags.isInt && v.flags.isUint ==> v.bits % TWO_32 == n && 0 <= n < TWO_32)
            && (!v.flags.isUint && v.flags.isInt64 ==> SignedPattern(v.bits) == n && n < TWO_63)
            && (!v.flags.isInt64 ==> v.bits == n && 0 <= n)
  {
    if IntegerOf(v) < 0 {
      Negative(v, IntegerOf(v));
    }
  }

  /** A deep copy is the value. */
  method DeepCopy(v: Value) returns (r: Value)
    requires Sound(v)
    ensures r == v
  {
    match v {
      case Array(_) =>
        var d := new Document();
        CopyTo(v, d);
        r := d.stack[|d.stack| - 1];
      case Object(_) =>
        var d := new Document();
        CopyTo(v, d);
        r := d.stack[|d.stack| - 1];
      case _ =>
        r := v;
    }
  }

  /** Visiting a value with a writer writes its text; it stops exactly when a string cannot be written. */
  method WriteTo(v: Value, w: Writer.TextWriter) returns (ok: bool)
    requires WellFormed(v) && Writer.MayStart(w.Progress(), false)
    modifies w, w.os
    ensures ok <==> Printable(w.f, v)
    ensures ok ==> w.Progress() == Writer.After(w.f, old(w.Progress()), Print(w.f, v, |old(w.levels)|))
    decreases v, 1
  {
    if v.Array? {
      ok := WriteArray(v, w);
    } else if v.Object? {
      ok := WriteObject(v, w);
    } else {
      ok := WriteScalar(v, w);
    }
  }

  method WriteScalar(v: Value, w: Writer.TextWriter) returns (ok: bool)
    requires WellFormed(v) && Writer.MayStart(w.Progress(), false) && !v.Array? && !v.Object?
    modifies w, w.os
    ensures ok <==> Printable(w.f, v)
    ensures ok ==> w.Progress() == Writer.After(w.f, old(w.Progress()), Print(w.f, v, |old(w.levels)|))
  {
    hide Writer.StepAll, Print, Writer.PrefixText, Writer.After, IsInteger;
    ghost var start := w.Progress();
    ok := true;
    match v {
      case Null => w.Null();
      case Bool(b) => w.Bool(b);
      case Number(_, _) => w.Integer(NumberEvent(v));
      case String(s) =>
        EscapeFails(w.f.ascii, s, 0);
        ok := w.String(s);
    }
    if ok {
      ghost var e := Events(Visited, v)[0];
      assert Events(Visited, v) == [e] && Some(w.Progress()) == Writer.Step(w.f, start, e);
      Writer.One(w.f, start, e);
      Writer.WriteValue(w.f, Visited, start, v);
    }
  }

  /** The elements still to be sent will take the writer where all of them take it from `begun`. */
  ghost predicate Sending(f: Format, begun: Writer.State, all: seq<Sax.Event>, now: Writer.State, rest: seq<Sax.Event>) {
    Writer.StepAll(f, begun, all) == Writer.StepAll(f, now, rest)
  }

  lemma Sent(f: Format, begun: Writer.State, all: seq<Sax.Event>, now: Writer.State, v: Value, more: seq<Sax.Event>)
    requires WellFormed(v) && Printable(f, v) && Writer.MayStart(now, false)
    requires Sending(f, begun, all, now, Events(Visited, v) + more)
    ensures Sending(f, begun, all, Writer.After(f, now, Print(f, v, |now.levels|)), more)
  {
    Writer.WriteValue(f, Visited, now, v);
    Writer.StepAllConcat(f, now, Events(Visited, v), more);
  }

  method WriteArray(v: Value, w: Writer.TextWriter) returns (ok: bool)
    requires WellFormed(v) && Writer.MayStart(w.Progress(), false) && v.Array?
    modifies w, w.os
    ensures ok <==> Printable(w.f, v)
    ensures ok ==> w.Progress() == Writer.After(w.f, old(w.Progress()), Print(w.f, v, |old(w.levels)|))
    decreases v, 0
  {
    hide Writer.StepAll, Print, Writer.PrefixText, Events, Sending;
    ghost var start := w.Progress();
    var es := v.elements;
    w.StartArray();
    ghost var begun := w.Progress();
    ghost var all := ElementEvents(Visited, es);
    assert es[0..] == es;
    assert Sending(w.f, begun, all, begun, all) by { SendingStart(w.f, begun, all); }
    var i := 0;
    while i < |es|
      invariant 0 <= i <= |es| && w.hasRoot
      invariant w.levels == begun.levels[|begun.levels| - 1 := Writer.Level(i, true)]
      invariant forall j | 0 <= j < i :: Printable(w.f, es[j])
      invariant Sending(w.f, begun, all, w.Progress(), ElementEvents(Visited, es[i..]))
    {
      ghost var now := w.Progress();
      assert es[i..][0] == es[i] && es[i..][1..] == es[i + 1..];
      ok := WriteTo(es[i], w);
      if !ok {
        return;
      }
      Sent(w.f, begun, all, now, es[i], ElementEvents(Visited, es[i + 1..]));
      i := i + 1;
    }
    assert es[i..] == [];
    ghost var inside := w.Progress();
    SendingEnd(w.f, begun, all, inside);
    w.EndArray(|es|);
    Writer.Bracketed(w.f, start, Sax.StartArray, all, Sax.EndArray(|es|), inside);
    WholeArray(w.f, start, v, w.Progress());
    ok := true;
  }

  lemma SendingStart(f: Format, begun: Writer.State, all: seq<Sax.Event>)
    ensures Sending(f, begun, all, begun, all)
  {}

  lemma SendingEnd(f: Format, begun: Writer.State, all: seq<Sax.Event>, inside: Writer.State)
    requires Sending(f, begun, all, inside, [])
    ensures Writer.StepAll(f, begun, all) == Some(inside)
  {}

  lemma WholeArray(f: Format, start: Writer.State, v: Value, end: Writer.State)
    requires WellFormed(v) && v.Array? && Writer.MayStart(start, false) && forall e | e in v.elements :: Printable(f, e)
    requires Some(end) == Writer.StepAll(f, start, [Sax.StartArray] + ElementEvents(Visited, v.elements) + [Sax.EndArray(|v.elements|)])
    ensures Printable(f, v) && end == Writer.After(f, start, Print(f, v, |start.levels|))
  {
    hide Writer.StepAll, Print, ElementEvents, Writer.After;
    Writer.WriteValue(f, Visited, start, v);
  }

  method WriteObject(v: Value, w: Writer.TextWriter) returns (ok: bool)
    requires WellFormed(v) && Writer.MayStart(w.Progress(), false) && v.Object?
    modifies w, w.os
    ensures ok <==> Printable(w.f, v)
    ensures ok ==> w.Progress() == Writer.After(w.f, old(w.Progress()), Print(w.f, v, |old(w.levels)|))
    decreases v, 0
  {
    hide Writer.StepAll, Print, Writer.PrefixText, Events, Sending, Utf8.ValidFrom;
    ghost var start := w.Progress();
    var ms := v.members;
    w.StartObject();
    ghost var begun := w.Progress();
    ghost var all := MemberEvents(Visited, ms);
    assert ms[0..] == ms;
    assert Sending(w.f, begun, all, begun, all) by { SendingStart(w.f, begun, all); }
    var i := 0;
    while i < |ms|
      invariant 0 <= i <= |ms| && w.hasRoot
      invariant w.levels == begun.levels[|begun.levels| - 1 := Writer.Level(2 * i, false)]
      invariant forall j | 0 <= j < i :: (w.f.ascii ==> Utf8.Valid(ms[j].name)) && Printable(w.f, ms[j].value)
      invariant Sending(w.f, begun, all, w.Progress(), MemberEvents(Visited, ms[i..]))
    {
      assert ms[i..][0] == ms[i] && ms[i..][1..] == ms[i + 1..];
      ok := WriteMember(ms[i], w, begun, all, MemberEvents(Visited, ms[i + 1..]));
      if !ok {
        return;
      }
      i := i + 1;
    }
    assert ms[i..] == [];
    ghost var inside := w.Progress();
    SendingEnd(w.f, begun, all, inside);
    w.EndObject(|ms|);
    Writer.Bracketed(w.f, start, Sax.StartObject, all, Sax.EndObject(|ms|), inside);
    WholeObject(w.f, start, v, w.Progress());
    ok := true;
  }

  /** A name and its value. */
  method WriteMember(m: Member, w: Writer.TextWriter, ghost begun: Writer.State, ghost all: seq<Sax.Event>, ghost more: seq<Sax.Event>)
    returns (ok: bool)
    requires w.levels != [] && !w.levels[|w.levels| - 1].inArray && w.levels[|w.levels| - 1].valueCount % 2 == 0 && w.hasRoot
    requires WellFormed(m.value)
    requires Sending(w.f, begun, all, w.Progress(), [Sax.Key(m.name)] + Events(Visited, m.value) + more)
    modifies w, w.os
    ensures ok <==> (w.f.ascii ==> Utf8.Valid(m.name)) && Printable(w.f, m.value)
    ensures ok ==> w.hasRoot && w.levels == Writer.Counted(Writer.Counted(old(w.levels)))
    ensures ok ==> Sending(w.f, begun, all, w.Progress(), more)
    decreases m, 2
  {
    hide Writer.PrefixText, Print, Events, Utf8.ValidFrom;
    ghost var start := w.Progress();
    EscapeFails(w.f.ascii, m.name, 0);
    ok := w.String(m.name);
    if ok {
      ghost var named := w.Progress();
      Named(w.f, begun, all, start, named, m.name, Events(Visited, m.value) + more);
      assert [Sax.Key(m.name)] + (Events(Visited, m.value) + more) == [Sax.Key(m.name)] + Events(Visited, m.value) + more;
      ok := WriteTo(m.value, w);
      if ok {
        Sent(w.f, begun, all, named, m.value, more);
      }
    }
  }

  lemma Named(f: Format, begun: Writer.State, all: seq<Sax.Event>, start: Writer.State, named: Writer.State, name: seq<Byte>,
              more: seq<Sax.Event>)
    requires Writer.Step(f, start, Sax.Key(name)) == Some(named)
    ensures Sending(f, begun, all, start, [Sax.Key(name)] + more) ==> Sending(f, begun, all, named, more)
  {
    hide Writer.Step;
    Writer.StepAllConcat(f, start, [Sax.Key(name)], more);
    Writer.One(f, start, Sax.Key(name));
  }

  lemma WholeObject(f: Format, start: Writer.State, v: Value, end: Writer.State)
    requires WellFormed(v) && v.Object? && Writer.MayStart(start, false)
    requires forall m | m in v.members :: (f.ascii ==> Utf8.Valid(m.name)) && Printable(f, m.value)
    requires Some(end) == Writer.StepAll(f, start, [Sax.StartObject] + MemberEvents(Visited, v.members) + [Sax.EndObject(|v.members|)])
    ensures Printable(f, v) && end == Writer.After(f, start, Print(f, v, |start.levels|))
  {
    hide Writer.StepAll, Print, MemberEvents, Writer.After, Utf8.ValidFrom;
    Writer.WriteValue(f, Visited, start, v);
  }

  // -------------------------------------------------------------- Round trip

  /** What a value's visit writes, both parsers read back as its events, and they build the value again. */
  lemma {:induction false} WriteParseBuild(env: Sax.Env, f: Format, v: Value)
    requires RoundTrip.Calm(env) && RoundTrip.Suits(env, f, v) && env.text == Print(f, v, 0)
    ensures Writer.StepAll(f, Writer.State([], [], false), Events(Visited, v)) == Some(Writer.State(env.text, [], true))
    ensures Recursive.Parse(env) == Iterative.Parse(env) == Recursive.Ok(|env.text|, Events(Read, v))
    ensures BuildAll([], Events(Read, v)) == Some([v])
  {
    hide Recursive.Parse, Iterative.Parse, Print, Events, BuildAll, Writer.StepAll, WellFormed, Equivalence.StrayAtRoot;
    var w := Writer.State([], [], false);
    Writer.WriteValue(f, Visited, w, v);
    assert [] + env.text == env.text;
    assert Writer.After(f, w, env.text) == Writer.State(env.text, [], true);
    RoundTrip.PrintReads(env, f, v);
    Equivalence.ParsersAgree(env);
    WellFormedIsSound(v);
    BuildValue(Read, [], v);
    assert [] + [v] == [v];
  }

  /** Writing a value, in any format, and parsing the text with either parser, in place or not, gives the value back. */
  method SaveAndLoad(v: Value, f: Format, flags: Sax.Flags, insitu: bool, iterative: bool, tooBig: seq<Byte> -> bool)
    returns (saved: bool, loaded: bool, r: Value)
    requires WellFormed(v) && GoodStyle(f.style)
    requires flags.validateEncoding ==> Printable(f.(ascii := true), v)
    ensures saved <==> Printable(f, v)
    ensures saved ==> loaded && r == v
  {
    hide Print, WellFormed, Printable, Recursive.Parse, BuildAll, Events;
    var os := new Utf8.OutputStream();
    var w := new Writer.TextWriter(f, os);
    saved := WriteTo(v, w);
    loaded, r := false, Value.Null;
    if saved {
      assert os.out == Print(f, v, 0);
      var buf := new Byte[|os.out|](i requires 0 <= i < |os.out| reads os => os.out[i]);
      var reader := new Reader.Reader(insitu, flags, buf, events => true, tooBig);
      var d := new Document();
      assert buf[..] == os.out;
      WriteParseBuild(reader.Env(), f, v);
      loaded := d.ParseStream(reader, iterative);
      r := d.root;
    }
  }
}
