/** The recursive-descent parser, as a function of the text: where it stops, what it reported, what it sent. */
module Recursive {
  import opened Text
  import opened Sax
  import opened Lexer
  import opened Numbers

  datatype Outcome = Ok(pos: nat, events: seq<Event>) | Err(code: ErrorCode, offset: nat, events: seq<Event>)

  const NULL_TAIL: seq<Byte> := [LOWER_U, LOWER_L, LOWER_L]
  const TRUE_TAIL: seq<Byte> := [LOWER_R, LOWER_U, LOWER_E]
  const FALSE_TAIL: seq<Byte> := [LOWER_A, LOWER_L, LOWER_S, LOWER_E]

  /** Sends `e`; a handler that refuses it ends the parse with the error placed at `offset`. */
  function Emit(env: Env, pos: nat, events: seq<Event>, e: Event, offset: nat): (r: Outcome)
    ensures r.Ok? ==> r.pos == pos
  {
    if env.accepts(events + [e]) then Ok(pos, events + [e]) else Err(Termination, offset, events + [e])
  }

  /** Literal whose first character is at `p` and whose remaining ones are `tail`. */
  function ParseLiteral(env: Env, p: nat, events: seq<Event>, tail: seq<Byte>, e: Event): (r: Outcome)
    requires NUL !in tail
    ensures r.Ok? ==> p < r.pos && (p < |env.text| ==> r.pos <= |env.text|)
  {
    var (ok, q) := Match(env.text, p + 1, tail);
    if ok then Emit(env, q, events, e, q) else Err(ValueInvalid, q, events)
  }

  /** String whose opening quote is at `p`. */
  function ParseString(env: Env, p: nat, events: seq<Event>, isKey: bool): (r: Outcome)
    ensures r.Ok? ==> p < r.pos <= |env.text|
  {
    match StringBody(env.flags.validateEncoding, env.text, p + 1, [])
    case Bad(code, offset) => Err(code, offset, events)
    case Got(q, s) => Emit(env, q, events, if isKey then Key(s) else String(s), q)
  }

  /** Any value that is neither an object nor an array. */
  function ParseScalar(env: Env, p: nat, events: seq<Event>): (r: Outcome)
    requires p <= |env.text|
    ensures r.Ok? ==> p < r.pos <= |env.text|
  {
    var c := Peek(env.text, p);
    if c == LOWER_N then ParseLiteral(env, p, events, NULL_TAIL, Event.Null)
    else if c == LOWER_T then ParseLiteral(env, p, events, TRUE_TAIL, Bool(true))
    else if c == LOWER_F then ParseLiteral(env, p, events, FALSE_TAIL, Bool(false))
    else if c == QUOTE then ParseString(env, p, events, false)
    else
      match ParseNumber(env, p)
      case Bad(code, offset) => Err(code, offset, events)
      case Got(q, e) => Emit(env, q, events, e, p)
  }

  function ParseValue(env: Env, p: nat, events: seq<Event>): (r: Outcome)
    requires p <= |env.text|
    ensures r.Ok? ==> p < r.pos <= |env.text|
    decreases |env.text| - p, 2
  {
    if Peek(env.text, p) == LBRACE then ParseObject(env, p, events)
    else if Peek(env.text, p) == LBRACKET then ParseArray(env, p, events)
    else ParseScalar(env, p, events)
  }

  function ParseObject(env: Env, p: nat, events: seq<Event>): (r: Outcome)
    requires p <= |env.text| && Peek(env.text, p) == LBRACE
    ensures r.Ok? ==> p < r.pos <= |env.text|
    decreases |env.text| - p, 1
  {
    match Emit(env, p + 1, events, StartObject, p + 1)
    case Err(code, offset, events') => Err(code, offset, events')
    case Ok(_, events') =>
      match Skip(env, p + 1)
      case Bad(code, offset) => Err(code, offset, events')
      case Got(q, _) => ObjectBody(env, q, events')
  }

  /** What follows the opening bracket: the closing one, or the first of the contents. */
  function ObjectBody(env: Env, q: nat, events: seq<Event>): (r: Outcome)
    requires q <= |env.text|
    ensures r.Ok? ==> q < r.pos <= |env.text|
    decreases |env.text| - q, 4
  {
    if Peek(env.text, q) == RBRACE then Emit(env, q + 1, events, EndObject(0), q + 1) else ParseMembers(env, q, events, 0)
  }

  /** The members from `p` on, `count` of them being already read; one call is one turn of the loop. */
  function ParseMembers(env: Env, p: nat, events: seq<Event>, count: nat): (r: Outcome)
    requires p <= |env.text|
    ensures r.Ok? ==> p < r.pos <= |env.text|
    decreases |env.text| - p, 3
  {
    match ParseMember(env, p, events)
    case Err(code, offset, events') => Err(code, offset, events')
    case Ok(q, events') => AfterMember(env, q, events', count + 1)
  }

  /** What follows a member, `count` of them being read: the closing brace, or a comma and more members. */
  function AfterMember(env: Env, q: nat, events: seq<Event>, count: nat): (r: Outcome)
    requires q <= |env.text|
    ensures r.Ok? ==> q < r.pos <= |env.text|
    decreases |env.text| - q, 4
  {
    if Peek(env.text, q) == RBRACE then Emit(env, q + 1, events, EndObject(count), q + 1)
    else if Peek(env.text, q) != COMMA then Err(ObjectMissCommaOrCurlyBracket, q, events)
    else
      match Skip(env, q + 1)
      case Bad(code, offset) => Err(code, offset, events)
      case Got(next, _) =>
        if env.flags.trailingCommas && Peek(env.text, next) == RBRACE
        then Emit(env, next + 1, events, EndObject(count), next)
        else ParseMembers(env, next, events, count)
  }

  /** One name, colon and value, up to the character that follows them. */
  function ParseMember(env: Env, p: nat, events: seq<Event>): (r: Outcome)
    requires p <= |env.text|
    ensures r.Ok? ==> p < r.pos <= |env.text|
    decreases |env.text| - p, 2
  {
    if Peek(env.text, p) != QUOTE then Err(ObjectMissName, p, events)
    else
      match ParseString(env, p, events, true)
      case Err(code, offset, events1) => Err(code, offset, events1)
      case Ok(p1, events1) =>
        match Skip(env, p1)
        case Bad(code, offset) => Err(code, offset, events1)
        case Got(p2, _) =>
          if Peek(env.text, p2) != COLON then Err(ObjectMissColon, p2, events1)
          else
            match Skip(env, p2 + 1)
            case Bad(code, offset) => Err(code, offset, events1)
            case Got(p3, _) =>
              match ParseValue(env, p3, events1)
              case Err(code, offset, events2) => Err(code, offset, events2)
              case Ok(p4, events2) =>
                match Skip(env, p4)
                case Bad(code, offset) => Err(code, offset, events2)
                case Got(p5, _) => Ok(p5, events2)
  }

  function ParseArray(env: Env, p: nat, events: seq<Event>): (r: Outcome)
    requires p <= |env.text| && Peek(env.text, p) == LBRACKET
    ensures r.Ok? ==> p < r.pos <= |env.text|
    decreases |env.text| - p, 1
  {
    match Emit(env, p + 1, events, StartArray, p + 1)
    case Err(code, offset, events') => Err(code, offset, events')
    case Ok(_, events') =>
      match Skip(env, p + 1)
      case Bad(code, offset) => Err(code, offset, events')
      case Got(q, _) => ArrayBody(env, q, events')
  }

  /** What follows the opening bracket: the closing one, or the first of the contents. */
  function ArrayBody(env: Env, q: nat, events: seq<Event>): (r: Outcome)
    requires q <= |env.text|
    ensures r.Ok? ==> q < r.pos <= |env.text|
    decreases |env.text| - q, 4
  {
    if Peek(env.text, q) == RBRACKET then Emit(env, q + 1, events, EndArray(0), q + 1) else ParseElements(env, q, events, 0)
  }

  /** The elements from `p` on, `count` of them being already read; one call is one turn of the loop. */
  function ParseElements(env: Env, p: nat, events: seq<Event>, count: nat): (r: Outcome)
    requires p <= |env.text|
    ensures r.Ok? ==> p < r.pos <= |env.text|
    decreases |env.text| - p, 3
  {
    match ParseValue(env, p, events)
    case Err(code, offset, events') => Err(code, offset, events')
    case Ok(p1, events') =>
      match Skip(env, p1)
      case Bad(code, offset) => Err(code, offset, events')
      case Got(q, _) => AfterElement(env, q, events', count + 1)
  }

  /** What follows an element, `count` of them being read: the closing bracket, or a comma and more elements. */
  function AfterElement(env: Env, q: nat, events: seq<Event>, count: nat): (r: Outcome)
    requires q <= |env.text|
    ensures r.Ok? ==> q < r.pos <= |env.text|
    decreases |env.text| - q, 4
  {
    if Peek(env.text, q) == RBRACKET then Emit(env, q + 1, events, EndArray(count), q + 1)
    else if Peek(env.text, q) != COMMA then Err(ArrayMissCommaOrSquareBracket, q, events)
    else
      match Skip(env, q + 1)
      case Bad(code, offset) => Err(code, offset, events)
      case Got(next, _) =>
        if env.flags.trailingCommas && Peek(env.text, next) == RBRACKET
        then Emit(env, next + 1, events, EndArray(count), next)
        else ParseElements(env, next, events, count)
  }

  /** A whole text: one value, and nothing but whitespace after it unless told to stop there. */
  function Parse(env: Env): Outcome {
    match Skip(env, 0)
    case Bad(code, offset) => Err(code, offset, [])
    case Got(p, _) =>
      if Peek(env.text, p) == NUL then Err(DocumentEmpty, p, [])
      else
        match ParseValue(env, p, [])
        case Err(code, offset, events) => Err(code, offset, events)
        case Ok(q, events) =>
          if env.flags.stopWhenDone then Ok(q, events)
          else
            match Skip(env, q)
            case Bad(code, offset) => Err(code, offset, events)
            case Got(end, _) =>
              if Peek(env.text, end) != NUL then Err(DocumentRootNotSingular, end, events) else Ok(end, events)
  }
}
