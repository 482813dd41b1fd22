/** The explicit-stack parser: a transition table over states and tokens, and the run it drives. */
module Iterative {
  import opened Text
  import opened Sax
  import opened Lexer
  import opened Recursive

  datatype State =
    | Start
    | Finish
    | Error
    | ObjectInitial
    | MemberKey
    | KeyValueDelimiter
    | MemberValue
    | MemberDelimiter
    | ObjectFinish
    | ArrayInitial
    | Element
    | ElementDelimiter
    | ArrayFinish
    | Value

  datatype Token =
    | LeftBracket
    | RightBracket
    | LeftCurlyBracket
    | RightCurlyBracket
    | CommaToken
    | ColonToken
    | StringToken
    | FalseToken
    | TrueToken
    | NullToken
    | NumberToken

  function Tokenize(c: Byte): Token {
    if c == LBRACKET then LeftBracket
    else if c == RBRACKET then RightBracket
    else if c == LBRACE then LeftCurlyBracket
    else if c == RBRACE then RightCurlyBracket
    else if c == COMMA then CommaToken
    else if c == COLON then ColonToken
    else if c == QUOTE then StringToken
    else if c == LOWER_F then FalseToken
    else if c == LOWER_T then TrueToken
    else if c == LOWER_N then NullToken
    else NumberToken
  }

  /** Row of the transition table for a state in which a value may start. */
  function ValueRow(token: Token, onRightBracket: State, onScalar: State): State {
    match token
    case LeftBracket => ArrayInitial
    case RightBracket => onRightBracket
    case LeftCurlyBracket => ObjectInitial
    case RightCurlyBracket => Error
    case CommaToken => Error
    case ColonToken => Error
    case _ => onScalar
  }

  function Predict(state: State, token: Token): State {
    match state
    case Start => ValueRow(token, Error, Value)
    case ObjectInitial =>
      (match token case RightCurlyBracket => ObjectFinish case StringToken => MemberKey case _ => Error)
    case MemberKey => if token == ColonToken then KeyValueDelimiter else Error
    case KeyValueDelimiter => ValueRow(token, Error, MemberValue)
    case MemberValue =>
      (match token case RightCurlyBracket => ObjectFinish case CommaToken => MemberDelimiter case _ => Error)
    case MemberDelimiter =>
      (match token case RightCurlyBracket => ObjectFinish case StringToken => MemberKey case _ => Error)
    case ArrayInitial => ValueRow(token, ArrayFinish, Element)
    case Element =>
      (match token case RightBracket => ArrayFinish case CommaToken => ElementDelimiter case _ => Error)
    case ElementDelimiter => ValueRow(token, ArrayFinish, Element)
    case _ => Error
  }

  /** State to come back to, and members or elements counted so far, of an open container. */
  datatype Frame = Frame(ret: State, count: nat)

  datatype Config = Config(state: State, stack: seq<Frame>, pos: nat, events: seq<Event>)

  /** Where a transition leads; a failed one keeps the parser's outcome. */
  datatype Step = Next(config: Config) | Stop(outcome: Outcome)

  /** The error reported for the source state when no other error has been set. */
  function StateError(state: State): ErrorCode {
    match state
    case Start => DocumentEmpty
    case Finish => DocumentRootNotSingular
    case ObjectInitial => ObjectMissName
    case MemberDelimiter => ObjectMissName
    case MemberKey => ObjectMissColon
    case MemberValue => ObjectMissCommaOrCurlyBracket
    case KeyValueDelimiter => ValueInvalid
    case ArrayInitial => ValueInvalid
    case ElementDelimiter => ValueInvalid
    case _ => ArrayMissCommaOrSquareBracket
  }

  /** State to return to once a container opened in `src` is closed. */
  function ReturnState(src: State): State {
    if src == ArrayInitial || src == ElementDelimiter then Element
    else if src == KeyValueDelimiter then MemberValue
    else src
  }

  /** What follows the end of a value whose container returns to `ret`. */
  function Resume(ret: State): State {
    if ret == Start then Finish else ret
  }

  predicate InContainer(state: State) {
    state in {ObjectInitial, MemberKey, KeyValueDelimiter, MemberValue, MemberDelimiter,
              ArrayInitial, Element, ElementDelimiter}
  }

  /**
   What holds in every reachable configuration: one frame per open container, only the bottom one
   returning to Start, and a container state on top unless nothing is open.
   */
  ghost predicate Inv(c: Config) {
    && (forall i | 0 <= i < |c.stack| :: c.stack[i].ret == Start <==> i == 0)
    && (forall i | 0 < i < |c.stack| :: c.stack[i].ret == MemberValue || c.stack[i].ret == Element)
    && (if c.stack == [] then c.state == Start || c.state == Finish else InContainer(c.state))
  }

  function Scalar(c: Config, state: State, outcome: Outcome): Step {
    match outcome
    case Err(_, _, _) => Stop(outcome)
    case Ok(pos, events) => Next(Config(state, c.stack, pos, events))
  }

  function Open(env: Env, c: Config, dst: State, e: Event): Step {
    match Emit(env, c.pos + 1, c.events, e, c.pos)
    case Err(code, offset, events) => Stop(Err(code, offset, events))
    case Ok(pos, events) => Next(Config(dst, c.stack + [Frame(ReturnState(c.state), 0)], pos, events))
  }

  function Count(c: Config, dst: State): Step
    requires c.stack != []
  {
    var n := |c.stack| - 1;
    Next(Config(dst, c.stack[n := c.stack[n].(count := c.stack[n].count + 1)], c.pos + 1, c.events))
  }

  /** Closes the top container; `last` is the state in which its last value is not counted yet. */
  function Close(env: Env, c: Config, last: State, isObject: bool): Step
    requires c.stack != []
  {
    var n := |c.stack| - 1;
    var count := if c.state == last then c.stack[n].count + 1 else c.stack[n].count;
    match Emit(env, c.pos + 1, c.events, if isObject then EndObject(count) else EndArray(count), c.pos)
    case Err(code, offset, events) => Stop(Err(code, offset, events))
    case Ok(pos, events) => Next(Config(Resume(c.stack[n].ret), c.stack[..n], pos, events))
  }

  /** One transition on the character at the current position. */
  function Transit(env: Env, c: Config): (s: Step)
    requires Inv(c) && c.pos < |env.text| && Peek(env.text, c.pos) != NUL
    ensures s.Next? ==> Inv(s.config) && c.pos < s.config.pos <= |env.text|
  {
    var dst := Predict(c.state, Tokenize(Peek(env.text, c.pos)));
    match dst
    case ObjectInitial => Open(env, c, dst, StartObject)
    case ArrayInitial => Open(env, c, dst, StartArray)
    case MemberKey => Scalar(c, dst, ParseString(env, c.pos, c.events, true))
    case KeyValueDelimiter => Next(c.(state := dst, pos := c.pos + 1))
    case MemberValue => Scalar(c, dst, ParseScalar(env, c.pos, c.events))
    case Element => Scalar(c, dst, ParseScalar(env, c.pos, c.events))
    case Value => Scalar(c, Finish, ParseScalar(env, c.pos, c.events))
    case MemberDelimiter => Count(c, dst)
    case ElementDelimiter => Count(c, dst)
    case ObjectFinish =>
      if c.state == MemberDelimiter && !env.flags.trailingCommas
      then Stop(Err(ObjectMissName, c.pos, c.events)) else Close(env, c, MemberValue, true)
    case ArrayFinish =>
      if c.state == ElementDelimiter && !env.flags.trailingCommas
      then Stop(Err(ValueInvalid, c.pos, c.events)) else Close(env, c, Element, false)
    case _ => Stop(Err(StateError(c.state), c.pos, c.events))
  }

  /** The run from a configuration that has whitespace skipped. */
  function Run(env: Env, c: Config): Outcome
    requires Inv(c) && c.pos <= |env.text|
    decreases |env.text| - c.pos, 0
  {
    if Peek(env.text, c.pos) == NUL then
      if c.state == Finish then Ok(c.pos, c.events) else Err(StateError(c.state), c.pos, c.events)
    else
      match Transit(env, c)
      case Stop(outcome) => outcome
      case Next(c') => Continue(env, c')
  }

  /** Goes on after a transition, unless the root is complete and the run was to stop there. */
  function Continue(env: Env, c: Config): Outcome
    requires Inv(c) && c.pos <= |env.text|
    decreases |env.text| - c.pos, 1
  {
    if env.flags.stopWhenDone && c.state == Finish then Ok(c.pos, c.events)
    else
      match Skip(env, c.pos)
      case Bad(code, offset) => Err(code, offset, c.events)
      case Got(p, _) => Run(env, c.(pos := p))
  }

  function Parse(env: Env): Outcome {
    match Skip(env, 0)
    case Bad(code, offset) => Err(code, offset, [])
    case Got(p, _) => Run(env, Config(Start, [], p, []))
  }
}
