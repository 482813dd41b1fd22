/**
 The streaming validator as a function of the events. A context stands on the stack for every open value;
 the validators and the hasher that run beside it have seen exactly the events since it was pushed.
 */
module Validation {
  import opened Text
  import Sax
  import opened Dom
  import opened Hashes
  import opened Schemas
  import opened Printer

  datatype Context = Context(
    schema: Schema,
    ghost start: nat,              // where the context's own events begin in the log
    valueSchema: Option<Schema>,
    propertyExist: seq<bool>,      // empty when not allocated
    arrayElementIndex: nat,
    inArray: bool,
    valueUniqueness: bool,
    arrayUniqueness: bool,
    elementHashes: seq<Hash>)

  /** `doc` is the path to the current value; `log` is every event handled so far. */
  datatype Machine = Machine(root: Schema, stack: seq<Context>, doc: seq<Byte>, valid: bool, log: seq<Sax.Event>)

  function Init(root: Schema): Machine {
    Machine(root, [], [], true, [])
  }

  /** A schema reachable from the root: it, one nested in it, or the typeless one. */
  ghost predicate Within(s: Schema, root: Schema) {
    s == root || s < root || s == TYPELESS
  }

  ghost predicate Fits(c: Context, root: Schema, logged: nat) {
    c.start <= logged && Within(c.schema, root) && (c.valueSchema.Some? ==> Within(c.valueSchema.value, root))
  }

  ghost predicate Bounded(m: Machine) {
    forall i | 0 <= i < |m.stack| :: Fits(m.stack[i], m.root, |m.log|)
  }

  function Top(m: Machine): Context
    requires m.stack != []
  {
    m.stack[|m.stack| - 1]
  }

  function WithTop(m: Machine, c: Context): (r: Machine)
    requires m.stack != []
    ensures |r.stack| == |m.stack| && Top(r) == c && r.stack[..|r.stack| - 1] == m.stack[..|m.stack| - 1]
    ensures r == m.(stack := m.stack[..|m.stack| - 1] + [c])
    ensures Bounded(m) && Fits(c, m.root, |m.log|) ==> Bounded(r)
  {
    m.(stack := m.stack[..|m.stack| - 1] + [c])
  }

  function Fail(m: Machine): Machine {
    m.(valid := false)
  }

  // ------------------------------------------------------------ Document path

  function EscapeToken(name: seq<Byte>): seq<Byte> {
    if name == [] then []
    else
      (if name[0] == TILDE then [TILDE, DIGIT_0]
       else if name[0] == SLASH then [TILDE, DIGIT_1]
       else [name[0]]) + EscapeToken(name[1..])
  }

  function Token(name: seq<Byte>): seq<Byte> {
    [SLASH] + EscapeToken(name)
  }

  /** Characters are popped up to and including the last slash. */
  function PopToken(doc: seq<Byte>): seq<Byte> {
    if doc == [] then []
    else if doc[|doc| - 1] == SLASH then doc[..|doc| - 1]
    else PopToken(doc[..|doc| - 1])
  }

  // ------------------------------------------------------------ Schema checks

  function Count(flag: bool): nat {
    if flag then 1 else 0
  }

  /** A number reported with a signed type. */
  predicate CheckInt(s: Schema, i: int) {
    && (IntegerKind in s.types || NumberKind in s.types)
    && (s.minimum.Some? ==>
          if s.minimum.value < TWO_63 then !(if s.exclusiveMinimum then i <= s.minimum.value else i < s.minimum.value)
          else false)
    && (s.maximum.Some? && s.maximum.value < TWO_63 ==>
          !(if s.exclusiveMaximum then i >= s.maximum.value else i > s.maximum.value))
    && (s.multipleOf.Some? && s.multipleOf.value > 0 ==> (if i >= 0 then i else 0 - i) % s.multipleOf.value == 0)
  }

  /** A number reported with an unsigned type. */
  predicate CheckUint(s: Schema, u: int) {
    && (IntegerKind in s.types || NumberKind in s.types)
    && (s.minimum.Some? && s.minimum.value >= 0 ==>
          !(if s.exclusiveMinimum then u <= s.minimum.value else u < s.minimum.value))
    && (s.maximum.Some? ==>
          if s.maximum.value >= 0 then !(if s.exclusiveMaximum then u >= s.maximum.value else u > s.maximum.value)
          else false)
    && (s.multipleOf.Some? && s.multipleOf.value > 0 ==> u % s.multipleOf.value == 0)
  }

  predicate CheckString(s: Schema, t: seq<Byte>) {
    StringKind in s.types &&
    (s.minLength != 0 || s.maxLength.Some? ==>
       match CountCodePoints(t, 0)
       case None => true
       case Some(n) => !(n < s.minLength) && AtMost(n, s.maxLength))
  }

  /** The checks made on the first event of a value. */
  predicate Admits(s: Schema, e: Sax.Event) {
    match e
    case Null => NullKind in s.types
    case Bool(_) => BooleanKind in s.types
    case Int(i) => CheckInt(s, i)
    case Uint(u) => CheckUint(s, u)
    case Int64(i) => CheckInt(s, i)
    case Uint64(u) => CheckUint(s, u)
    case Double(_) => NumberKind in s.types
    case String(t) => CheckString(s, t)
    case StartObject => ObjectKind in s.types
    case StartArray => ArrayKind in s.types
    case _ => true
  }

  predicate HasRequired(s: Schema) {
    exists p | p in s.properties :: p.required
  }

  predicate HasDependencies(s: Schema) {
    exists p | p in s.properties :: !p.dependency.NoDependency?
  }

  /** What the first event of a container does to its context. */
  function Opened(c: Context, e: Sax.Event): (r: Context)
    ensures r.schema == c.schema && r.start == c.start && r.valueSchema == c.valueSchema
    ensures r.arrayUniqueness == c.arrayUniqueness && r.valueUniqueness == c.valueUniqueness
    ensures r.inArray == (c.inArray || e.StartArray?)
  {
    if e.StartObject? && (HasRequired(c.schema) || HasDependencies(c.schema))
    then c.(propertyExist := seq(|c.schema.properties|, i => false))
    else if e.StartArray? then c.(arrayElementIndex := 0, inArray := true)
    else c
  }

  /** The context of an object once a member's name is known; None when no such member is allowed. */
  function Named(c: Context, name: seq<Byte>): Option<Context> {
    var schema := MemberSchema(c.schema, name);
    if schema.None? then None
    else Some(c.(valueSchema := schema, propertyExist := Mark(c.propertyExist, FindProperty(c.schema.properties, name))))
  }

  function Mark(exist: seq<bool>, index: Option<nat>): (r: seq<bool>)
    ensures |r| == |exist|
  {
    if index.Some? && index.value < |exist| then exist[index.value := true] else exist
  }

  predicate Marked(exist: seq<bool>, i: nat) {
    i < |exist| && exist[i]
  }

  // -------------------------------------------------------------------- Steps

  /** Whether a validator of `s` is still content with the events since `start`. */
  ghost predicate Content(s: Schema, root: Schema, log: seq<Sax.Event>, start: nat)
    requires start <= |log|
    requires s < root
    decreases root, 0, 0
  {
    Run(Init(s), log[start..]).valid
  }

  /** What the presence of property `i` asks for is there. */
  ghost predicate Depends(c: Context, root: Schema, log: seq<Sax.Event>, i: nat)
    requires c.start <= |log| && Within(c.schema, root) && i < |c.schema.properties|
    decreases root, 0, 1
  {
    match c.schema.properties[i].dependency
    case NoDependency => true
    case Needs(indices) => forall j | 0 <= j < |c.schema.properties| && j in indices :: Marked(c.propertyExist, j)
    case Meets(schema) => Content(schema, root, log, c.start)
  }

  /** The checks at the end of an object. */
  ghost predicate ObjectEnds(c: Context, root: Schema, log: seq<Sax.Event>, memberCount: nat)
    requires c.start <= |log| && Within(c.schema, root)
    decreases root, 1, 0
  {
    var s := c.schema;
    && (forall i | 0 <= i < |s.properties| :: s.properties[i].required ==> Marked(c.propertyExist, i))
    && s.minProperties <= memberCount && AtMost(memberCount, s.maxProperties)
    && (forall i | 0 <= i < |s.properties| && Marked(c.propertyExist, i) :: Depends(c, root, log, i))
  }

  predicate ArrayEnds(c: Context, elementCount: nat) {
    c.schema.minItems <= elementCount && AtMost(elementCount, c.schema.maxItems)
  }

  ghost function ContentCount(schemas: seq<Schema>, root: Schema, log: seq<Sax.Event>, start: nat): nat
    requires start <= |log|
    requires forall i | 0 <= i < |schemas| :: schemas[i] < root
    decreases root, 1, |schemas|
  {
    if schemas == [] then 0 else Count(Content(schemas[0], root, log, start)) + ContentCount(schemas[1..], root, log, start)
  }

  /** The hash of the events since `start`. */
  function LogHash(log: seq<Sax.Event>, start: nat): Hash
    requires start <= |log|
  {
    var stack := HashAll([], log[start..]);
    if |stack| == 0 then 0 else stack[|stack| - 1]
  }

  /** The checks at the end of any value: its hash, and the validators that ran beside it. */
  ghost predicate ValueEnds(c: Context, root: Schema, log: seq<Sax.Event>)
    requires c.start <= |log| && Within(c.schema, root)
    decreases root, 2, 0
  {
    var s := c.schema;
    && (s.enumHashes.Some? ==> LogHash(log, c.start) in s.enumHashes.value)
    && (forall i | 0 <= i < |s.allOf| :: Content(s.allOf[i], root, log, c.start))
    && (s.anyOf != [] ==> exists i | 0 <= i < |s.anyOf| :: Content(s.anyOf[i], root, log, c.start))
    && (s.oneOf != [] ==> ContentCount(s.oneOf, root, log, c.start) == 1)
    && (s.not_.Some? ==> !Content(s.not_.value, root, log, c.start))
  }

  /** Pushes the context of a value that begins. */
  ghost function Begin(m: Machine): (r: Machine)
    requires Bounded(m)
    ensures Bounded(r) && r.root == m.root && r.log == m.log
    ensures r.valid ==> r.stack != []
  {
    if m.stack == [] then Push(m, m.root, false)
    else
      var c := Top(m);
      if !c.inArray then
        if c.valueSchema.None? then Fail(m) // no value comes here in the events of a value
        else Push(m, c.valueSchema.value, c.valueUniqueness)
      else
        var m1 := m.(doc := m.doc + Token(Decimal(c.arrayElementIndex)));
        var unique := c.valueUniqueness || c.schema.uniqueItems;
        match ItemSchema(c.schema, c.arrayElementIndex)
        case None => Fail(WithTop(m1, c.(valueUniqueness := unique)))
        case Some(item) =>
          ItemWithin(c.schema, c.arrayElementIndex, m.root);
          var next := c.(valueUniqueness := unique, valueSchema := Some(item), arrayElementIndex := c.arrayElementIndex + 1);
          Push(WithTop(m1, next), item, unique)
  }

  /** Contexts that begin at the same event, with the same schema and the same need of a hash. */
  ghost predicate SameScope(c: Context, d: Context) {
    c.schema == d.schema && c.start == d.start && c.arrayUniqueness == d.arrayUniqueness
  }

  /** The contexts below keep what was decided when they were pushed. */
  lemma BeginKeeps(m: Machine)
    requires Bounded(m) && m.valid
    ensures var b := Begin(m);
            && |b.stack| == |m.stack| + Count(b.valid)
            && (forall i | 0 <= i < |m.stack| :: SameScope(m.stack[i], b.stack[i]))
            && (b.valid ==> Top(b).start == |m.log|)
  {
    hide ItemSchema, Token, Decimal, Within, Fits;
    if m.stack != [] && Top(m).inArray && ItemSchema(Top(m).schema, Top(m).arrayElementIndex).Some? {
      ItemKeeps(m);
    }
  }

  lemma ItemKeeps(m: Machine)
    requires Bounded(m) && m.valid && m.stack != [] && Top(m).inArray && ItemSchema(Top(m).schema, Top(m).arrayElementIndex).Some?
    ensures var b := Begin(m);
            && b.valid && |b.stack| == |m.stack| + 1 && Top(b).start == |m.log|
            && (forall i | 0 <= i < |m.stack| :: SameScope(m.stack[i], b.stack[i]))
  {
    hide ItemSchema, Token, Decimal;
    var b := Begin(m);
    assert forall i | 0 <= i < |m.stack| - 1 :: b.stack[i] == m.stack[i];
  }

  lemma NamedFits(c: Context, name: seq<Byte>, root: Schema, logged: nat)
    requires Fits(c, root, logged)
    ensures Named(c, name).Some? ==> Fits(Named(c, name).value, root, logged) && SameScope(c, Named(c, name).value)
  {
    if Named(c, name).Some? {
      MemberWithin(c.schema, name, root);
    }
  }

  lemma ItemWithin(s: Schema, index: nat, root: Schema)
    requires Within(s, root) && ItemSchema(s, index).Some?
    ensures Within(ItemSchema(s, index).value, root)
  {}

  lemma MemberWithin(s: Schema, name: seq<Byte>, root: Schema)
    requires Within(s, root) && MemberSchema(s, name).Some?
    ensures Within(MemberSchema(s, name).value, root)
  {}

  ghost function Push(m: Machine, s: Schema, unique: bool): (r: Machine)
    requires Bounded(m) && Within(s, m.root)
    ensures Bounded(r) && r.stack != []
  {
    m.(stack := m.stack + [Context(s, |m.log|, None, [], 0, false, false, unique, [])])
  }

  /** Every validator and hasher sees the event. */
  ghost function Feed(m: Machine, e: Sax.Event): (r: Machine)
    ensures Bounded(m) ==> Bounded(r)
  {
    m.(log := m.log + [e])
  }

  /** A value begins: its context is pushed and its schema checks its first event. */
  ghost function Enter(m: Machine, e: Sax.Event): (r: Machine)
    requires Bounded(m)
    ensures Bounded(r) && r.root == m.root
    ensures r.valid ==> r.stack != []
  {
    var b := Begin(m);
    if !b.valid then b
    else if !Admits(Top(b).schema, e) then Fail(b)
    else Feed(WithTop(b, Opened(Top(b), e)), e)
  }

  /** A value ends: the last checks are made and its context is popped. */
  ghost function Finish(m: Machine): (r: Machine)
    requires Bounded(m) && m.stack != []
    ensures Bounded(r) && r.root == m.root
    decreases m.root, 3, 0
  {
    var c := Top(m);
    if !ValueEnds(c, m.root, m.log) then Fail(m)
    else Leave(m, if c.arrayUniqueness then LogHash(m.log, c.start) else 0)
  }

  /** Pops the context of a value and notes its hash where elements must be unique. */
  ghost function Leave(m: Machine, h: Hash): (r: Machine)
    requires Bounded(m) && m.stack != []
    ensures Bounded(r) && r.root == m.root && r.log == m.log
  {
    var p := m.(stack := m.stack[..|m.stack| - 1]);
    if p.stack != [] && Top(p).valueUniqueness && h in Top(p).elementHashes then Fail(p)
    else
      var q := if p.stack != [] && Top(p).valueUniqueness
               then WithTop(p, Top(p).(elementHashes := Top(p).elementHashes + [h])) else p;
      q.(doc := PopToken(q.doc))
  }

  /** One event. A name or the end of a container only comes inside one. */
  ghost function Step(m: Machine, e: Sax.Event): (r: Machine)
    requires Bounded(m)
    ensures Bounded(r) && r.root == m.root
    decreases m.root, 4, 0
  {
    if !m.valid then m
    else
      match e
      case StartObject => Enter(m, e)
      case StartArray => Enter(m, e)
      case Key(k) =>
        if m.stack == [] then m
        else
          var m1 := m.(doc := m.doc + Token(k));
          (match Named(Top(m), k)
           case None => Fail(m1)
           case Some(c) =>
             MemberWithin(Top(m).schema, k, m.root);
             Feed(WithTop(m1, c), e))
      case EndObject(n) =>
        if m.stack == [] then m
        else
          var m1 := Feed(m, e);
          if ObjectEnds(Top(m1), m1.root, m1.log, n) then Finish(m1) else Fail(m1)
      case EndArray(n) =>
        if m.stack == [] then m
        else
          var m1 := WithTop(Feed(m, e), Top(m).(inArray := false));
          if ArrayEnds(Top(m1), n) then Finish(m1) else Fail(m1)
      case _ =>
        var m1 := Enter(m, e);
        if m1.valid then Finish(m1) else m1
  }

  ghost function Run(m: Machine, events: seq<Sax.Event>): (r: Machine)
    requires Bounded(m)
    ensures Bounded(r) && r.root == m.root
    decreases m.root, 5, |events|
  {
    if events == [] then m else Run(Step(m, events[0]), events[1..])
  }
}
