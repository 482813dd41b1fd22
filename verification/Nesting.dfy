/**
 Every configuration the table-driven parser can reach: its stack has one frame for every container that the
 events sent so far leave open, of the same kind, and the state it is in is one of that container's states.
 */
module Nesting {
  import opened Text
  import opened Sax
  import opened Lexer
  import opened Recursive
  import opened Iterative

  datatype Kind = InObject | InArray

  /** The containers opened and not closed by an event, innermost last; None when a close does not match. */
  function Nest(open: seq<Kind>, e: Event): Option<seq<Kind>> {
    match e
    case StartObject => Some(open + [InObject])
    case StartArray => Some(open + [InArray])
    case EndObject(_) => if open != [] && open[|open| - 1] == InObject then Some(open[..|open| - 1]) else None
    case EndArray(_) => if open != [] && open[|open| - 1] == InArray then Some(open[..|open| - 1]) else None
    case _ => Some(open)
  }

  function Opened(events: seq<Event>): Option<seq<Kind>> {
    if events == [] then Some([])
    else
      match Opened(events[..|events| - 1])
      case None => None
      case Some(open) => Nest(open, events[|events| - 1])
  }

  lemma OpenedSnoc(events: seq<Event>, e: Event)
    ensures Opened(events + [e]) == match Opened(events) case None => None case Some(open) => Nest(open, e)
  {
    assert (events + [e])[..|events|] == events;
  }

  /** The container a state belongs to. */
  function KindOf(state: State): Kind {
    if state in {ArrayInitial, Element, ElementDelimiter} then InArray else InObject
  }

  /** The kinds of the frames: of all but the top one by the state the next returns to, of the top one by the state. */
  function Kinds(c: Config): seq<Kind> {
    seq(|c.stack|, i requires 0 <= i < |c.stack| => KindOf(if i + 1 < |c.stack| then c.stack[i + 1].ret else c.state))
  }

  /** The configuration after `n` transitions, if the run lasts that long. */
  ghost function Reached(env: Env, n: nat): Option<Config> {
    if n == 0 then
      match Skip(env, 0)
      case Bad(_, _) => None
      case Got(p, _) => Some(Config(Start, [], p, []))
    else
      match Reached(env, n - 1)
      case None => None
      case Some(c) => After(env, c)
  }

  /** The next configuration, whitespace skipped; None when the run ends here. */
  ghost function After(env: Env, c: Config): Option<Config> {
    if !Inv(c) || c.pos >= |env.text| || Peek(env.text, c.pos) == NUL then None
    else
      match Transit(env, c)
      case Stop(_) => None
      case Next(d) =>
        if env.flags.stopWhenDone && d.state == Finish then None
        else
          match Skip(env, d.pos)
          case Bad(_, _) => None
          case Got(p, _) => Some(d.(pos := p))
  }

  lemma PushedKinds(c: Config, d: Config)
    requires d.stack == c.stack + [Frame(ReturnState(c.state), 0)] && d.state in {ObjectInitial, ArrayInitial}
    requires c.stack == [] || KindOf(ReturnState(c.state)) == KindOf(c.state)
    ensures Kinds(d) == Kinds(c) + [KindOf(d.state)]
  {}

  lemma PoppedKinds(c: Config, d: Config)
    requires c.stack != [] && d.stack == c.stack[..|c.stack| - 1]
    requires |c.stack| > 1 ==> d.state == c.stack[|c.stack| - 1].ret
    ensures Kinds(d) == Kinds(c)[..|c.stack| - 1]
  {}

  lemma SameKinds(c: Config, d: Config)
    requires |d.stack| == |c.stack| && forall i | 0 <= i < |c.stack| :: d.stack[i].ret == c.stack[i].ret
    requires c.stack != [] ==> KindOf(d.state) == KindOf(c.state)
    ensures Kinds(d) == Kinds(c)
  {}

  /** One event at most is sent by a transition, and the frames change with it. */
  lemma {:induction false} TransitKeepsNesting(env: Env, c: Config)
    requires Inv(c) && c.pos < |env.text| && Peek(env.text, c.pos) != NUL && Opened(c.events) == Some(Kinds(c))
    ensures Transit(env, c).Next? ==> Opened(Transit(env, c).config.events) == Some(Kinds(Transit(env, c).config))
  {
    hide ParseString, ParseScalar, Kinds, Opened;
    if Transit(env, c).Next? {
      var d := Transit(env, c).config;
      var dst := Predict(c.state, Tokenize(Peek(env.text, c.pos)));
      match dst {
        case ObjectInitial =>
          OpenedSnoc(c.events, StartObject);
          PushedKinds(c, d);
        case ArrayInitial =>
          OpenedSnoc(c.events, StartArray);
          PushedKinds(c, d);
        case ObjectFinish =>
          OpenedSnoc(c.events, d.events[|d.events| - 1]);
          PoppedKinds(c, d);
          TopKind(c);
        case ArrayFinish =>
          OpenedSnoc(c.events, d.events[|d.events| - 1]);
          PoppedKinds(c, d);
          TopKind(c);
        case KeyValueDelimiter => SameKinds(c, d);
        case MemberDelimiter => SameKinds(c, d);
        case ElementDelimiter => SameKinds(c, d);
        case MemberKey =>
          OneEvent(env, c, d);
          SameKinds(c, d);
        case MemberValue =>
          OneEvent(env, c, d);
          SameKinds(c, d);
        case Element =>
          OneEvent(env, c, d);
          SameKinds(c, d);
        case Value =>
          OneEvent(env, c, d);
          SameKinds(c, d);
      }
    }
  }

  lemma TopKind(c: Config)
    requires c.stack != []
    ensures |Kinds(c)| == |c.stack| && Kinds(c)[|c.stack| - 1] == KindOf(c.state)
  {}

  /** A scalar or a name is one event that opens and closes nothing. */
  lemma OneEvent(env: Env, c: Config, d: Config)
    requires c.pos <= |env.text|
    requires (ParseString(env, c.pos, c.events, true).Ok? && d.events == ParseString(env, c.pos, c.events, true).events)
             || (ParseScalar(env, c.pos, c.events).Ok? && d.events == ParseScalar(env, c.pos, c.events).events)
    ensures Opened(d.events) == Opened(c.events)
  {
    hide StringBody, Opened;
    var e := d.events[|d.events| - 1];
    assert d.events == c.events + [e] && !e.StartObject? && !e.StartArray? && !e.EndObject? && !e.EndArray?;
    OpenedSnoc(c.events, e);
  }

  /** What holds in every configuration of every run. */
  lemma {:induction false} ReachedIsNested(env: Env, n: nat)
    ensures match Reached(env, n)
            case None => true
            case Some(c) =>
              && Inv(c) && c.pos <= |env.text|
              && Opened(c.events) == Some(Kinds(c))
              && c.state !in {State.Error, ObjectFinish, ArrayFinish, Value}
  {
    hide Transit, Opened, Skip;
    if n == 0 {
      assert Opened([]) == Some([]) by { NothingOpened(); }
      if Reached(env, 0).Some? {
        assert Kinds(Reached(env, 0).value) == [];
      }
    } else if Reached(env, n).Some? {
      ReachedIsNested(env, n - 1);
      var c := Reached(env, n - 1).value;
      TransitKeepsNesting(env, c);
      SameKinds(Transit(env, c).config, Reached(env, n).value);
    }
  }

  lemma NothingOpened()
    ensures Opened([]) == Some([])
  {}
}
