/**
 A compiled schema, what it means for a value to be accepted by it, and where a value that is not
 accepted first goes against it.
 */
module Schemas {
  import opened Text
  import Sax
  import opened Dom
  import opened Hashes
  import Utf8

  datatype Kind = NullKind | BooleanKind | ObjectKind | ArrayKind | StringKind | NumberKind | IntegerKind

  /** What the presence of a property asks for: other properties by index, or that the object meets a schema. */
  datatype Dependency = NoDependency | Needs(indices: set<nat>) | Meets(schema: Schema)

  datatype Property = Property(name: seq<Byte>, schema: Schema, required: bool, dependency: Dependency)

  datatype Schema = Schema(
    types: set<Kind>,
    enumHashes: Option<seq<Hash>>,
    allOf: seq<Schema>,
    anyOf: seq<Schema>,
    oneOf: seq<Schema>,
    not_: Option<Schema>,
    properties: seq<Property>,
    additionalProperties: bool,
    additionalPropertiesSchema: Option<Schema>,
    minProperties: nat,
    maxProperties: Option<nat>,
    itemsList: Option<Schema>,
    hasItemsTuple: bool,
    itemsTuple: seq<Schema>,
    additionalItems: bool,
    additionalItemsSchema: Option<Schema>,
    minItems: nat,
    maxItems: Option<nat>,
    uniqueItems: bool,
    minLength: nat,
    maxLength: Option<nat>,
    minimum: Option<int>,
    maximum: Option<int>,
    multipleOf: Option<nat>,
    exclusiveMinimum: bool,
    exclusiveMaximum: bool)

  const ALL_KINDS := {NullKind, BooleanKind, ObjectKind, ArrayKind, StringKind, NumberKind, IntegerKind}

  /** The schema of an empty JSON object, which accepts everything. */
  const TYPELESS := Schema(ALL_KINDS, None, [], [], [], None, [], true, None, 0, None, None, false, [], true, None, 0, None, false,
                           0, None, None, None, None, false, false)

  // ------------------------------------------------------- Names and indices

  /** First property of that name. */
  function FindProperty(properties: seq<Property>, name: seq<Byte>): (r: Option<nat>)
    ensures r.Some? ==> r.value < |properties| && properties[r.value].name == name
  {
    FindPropertyFrom(properties, name, 0)
  }

  function FindPropertyFrom(properties: seq<Property>, name: seq<Byte>, i: nat): (r: Option<nat>)
    requires i <= |properties|
    ensures r.Some? ==> i <= r.value < |properties| && properties[r.value].name == name
    ensures r.None? ==> forall k | i <= k < |properties| :: properties[k].name != name
    decreases |properties| - i
  {
    if i == |properties| then None
    else if properties[i].name == name then Some(i)
    else FindPropertyFrom(properties, name, i + 1)
  }

  /** The schema of a member's value; None when no such member is allowed. */
  function MemberSchema(s: Schema, name: seq<Byte>): Option<Schema> {
    match FindProperty(s.properties, name)
    case Some(i) => Some(s.properties[i].schema)
    case None =>
      if s.additionalPropertiesSchema.Some? then s.additionalPropertiesSchema
      else if s.additionalProperties then Some(TYPELESS)
      else None
  }

  /** The schema of the element at `index`; None when there may be none. */
  function ItemSchema(s: Schema, index: nat): Option<Schema> {
    if s.itemsList.Some? then s.itemsList
    else if s.hasItemsTuple then
      if index < |s.itemsTuple| then Some(s.itemsTuple[index])
      else if s.additionalItemsSchema.Some? then s.additionalItemsSchema
      else if s.additionalItems then Some(TYPELESS)
      else None
    else Some(TYPELESS)
  }

  // ---------------------------------------------------------------- Meaning

  predicate AtMost(n: nat, bound: Option<nat>) {
    bound.Some? ==> n <= bound.value
  }

  predicate NumberMeets(s: Schema, n: int) {
    && (s.minimum.Some? ==> if s.exclusiveMinimum then n > s.minimum.value else n >= s.minimum.value)
    && (s.maximum.Some? ==> if s.exclusiveMaximum then n < s.maximum.value else n <= s.maximum.value)
    && (s.multipleOf.Some? && s.multipleOf.value > 0 ==> n % s.multipleOf.value == 0)
  }

  /** Number of characters of a UTF-8 string; None when it is not one. */
  function CountCodePoints(s: seq<Byte>, i: nat): (r: Option<nat>)
    requires i <= |s|
    decreases |s| - i
  {
    if i == |s| then Some(0)
    else if Utf8.Length(s, i) == 0 then None
    else
      Utf8.EncodeOfDecode(s, i);
      match CountCodePoints(s, i + Utf8.Length(s, i))
      case None => None
      case Some(n) => Some(n + 1)
  }

  /** Lengths are in characters, and are not checked in a string that is not UTF-8. */
  predicate StringMeets(s: Schema, t: seq<Byte>) {
    match CountCodePoints(t, 0)
    case None => true
    case Some(n) => s.minLength <= n && AtMost(n, s.maxLength)
  }

  predicate TypeAllows(s: Schema, v: Value) {
    match v
    case Null => NullKind in s.types
    case Bool(_) => BooleanKind in s.types
    case Number(_, _) => NumberKind in s.types || IntegerKind in s.types
    case Double(_) => NumberKind in s.types
    case String(_) => StringKind in s.types
    case Array(_) => ArrayKind in s.types
    case Object(_) => ObjectKind in s.types
  }

  /** Some member carries the name of property `i`. */
  predicate Present(s: Schema, ms: seq<Member>, i: nat) {
    exists m | m in ms :: FindProperty(s.properties, m.name) == Some(i)
  }

  predicate RequiredPresent(s: Schema, ms: seq<Member>) {
    forall i | 0 <= i < |s.properties| && s.properties[i].required :: Present(s, ms, i)
  }

  predicate NeedsPresent(s: Schema, ms: seq<Member>) {
    forall i, j | 0 <= i < |s.properties| && 0 <= j < |s.properties| ::
      s.properties[i].dependency.Needs? && j in s.properties[i].dependency.indices && Present(s, ms, i) ==> Present(s, ms, j)
  }

  /** How many of the schemas accept the value. */
  function Matches(schemas: seq<Schema>, v: Value): nat
    decreases v, schemas, 2
  {
    if schemas == [] then 0 else (if Accepts(schemas[0], v) then 1 else 0) + Matches(schemas[1..], v)
  }

  /** The meaning of a schema: no order of checks, no state. */
  predicate Accepts(s: Schema, v: Value)
    decreases v, s, 1
  {
    && TypeAllows(s, v)
    && (v.Number? && v.bits < TWO_64 ==> NumberMeets(s, IntegerOf(v)))
    && (v.String? ==> StringMeets(s, v.s))
    && (v.Array? ==>
          && s.minItems <= |v.elements| && AtMost(|v.elements|, s.maxItems)
          && (forall i | 0 <= i < |v.elements| :: ItemSchema(s, i).Some? && Accepts(ItemSchema(s, i).value, v.elements[i]))
          && (s.uniqueItems ==>
                forall i, j | 0 <= i < j < |v.elements| :: HashOf(v.elements[i]) != HashOf(v.elements[j])))
    && (v.Object? ==>
          && s.minProperties <= |v.members| && AtMost(|v.members|, s.maxProperties)
          && RequiredPresent(s, v.members) && NeedsPresent(s, v.members)
          && (forall i | 0 <= i < |s.properties| ::
                Present(s, v.members, i) && s.properties[i].dependency.Meets? ==> Accepts(s.properties[i].dependency.schema, v))
          && (forall m | m in v.members :: MemberSchema(s, m.name).Some? && Accepts(MemberSchema(s, m.name).value, m.value)))
    && (s.enumHashes.Some? ==> HashOf(v) in s.enumHashes.value)
    && (forall i | 0 <= i < |s.allOf| :: Accepts(s.allOf[i], v))
    && (s.anyOf != [] ==> exists i | 0 <= i < |s.anyOf| :: Accepts(s.anyOf[i], v))
    && (s.oneOf != [] ==> Matches(s.oneOf, v) == 1)
    && (s.not_.Some? ==> !Accepts(s.not_.value, v))
  }

  /** The hashes an enum of these values is compiled to. */
  function EnumHashes(values: seq<Value>): (r: seq<Hash>)
    ensures |r| == |values| && forall i | 0 <= i < |values| :: r[i] == HashOf(values[i])
  {
    seq(|values|, i requires 0 <= i < |values| => HashOf(values[i]))
  }
}
