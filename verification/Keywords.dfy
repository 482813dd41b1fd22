/**
 What each keyword of a schema demands of a value, from the schema's fields alone. A value is accepted exactly when
 every keyword is met.
 */
module Keywords {
  import opened Text
  import opened Dom
  import opened Hashes
  import opened Schemas
  import opened Offenders
  import Utf8

  // ---------------------------------------------------------- type, numbers

  /** The kinds a value is of: an integer is also a number. */
  predicate IsOf(v: Value, k: Kind) {
    match k
    case NullKind => v.Null?
    case BooleanKind => v.Bool?
    case ObjectKind => v.Object?
    case ArrayKind => v.Array?
    case StringKind => v.String?
    case NumberKind => v.Number? || v.Double?
    case IntegerKind => v.Number?
  }

  predicate TypeMet(s: Schema, v: Value) {
    exists k | k in s.types :: IsOf(v, k)
  }

  /** minimum, exclusiveMinimum, maximum, exclusiveMaximum, multipleOf. */
  ghost predicate RangeMet(s: Schema, n: int) {
    && (s.minimum.Some? ==> s.minimum.value < n || (s.minimum.value == n && !s.exclusiveMinimum))
    && (s.maximum.Some? ==> n < s.maximum.value || (n == s.maximum.value && !s.exclusiveMaximum))
    && (s.multipleOf.Some? && s.multipleOf.value > 0 ==> exists q: int :: n == q * s.multipleOf.value)
  }

  lemma RangeIff(s: Schema, n: int)
    ensures NumberMeets(s, n) <==> RangeMet(s, n)
  {
    if s.multipleOf.Some? && s.multipleOf.value > 0 {
      var m := s.multipleOf.value;
      if q: int :| n == q * m {
        MultipleRemainder(q, m);
      }
      if n % m == 0 {
        assert n == n / m * m;
      }
    }
  }

  lemma MultipleRemainder(q: int, m: nat)
    requires m > 0
    ensures q * m % m == 0
  {
    var n := q * m;
    var d := n / m;
    assert n == d * m + n % m;
    calc {
      (q - d) * m;
      q * m - d * m;
      n % m;
    }
    SmallMultiple(q - d, m);
  }

  lemma SmallMultiple(x: int, m: nat)
    requires 0 <= x * m < m
    ensures x == 0
  {
    assert x > 0 ==> x * m == (x - 1) * m + m;
    assert x < 0 ==> x * m == (x + 1) * m - m;
  }

  // ---------------------------------------------------------------- Strings

  /** minLength and maxLength count code points; a string that is not UTF-8 has no length to check. */
  ghost predicate LengthMet(s: Schema, t: seq<Byte>) {
    forall cps | Utf8.AreScalars(cps) && t == Utf8.EncodeAll(cps) :: s.minLength <= |cps| && (s.maxLength.Some? ==> |cps| <= s.maxLength.value)
  }

  /** Code points are counted, one by one. */
  lemma {:induction false} CountIs(t: seq<Byte>, i: nat, cps: seq<nat>)
    requires i <= |t| && Utf8.AreScalars(cps) && t[i..] == Utf8.EncodeAll(cps)
    ensures CountCodePoints(t, i) == Some(|cps|)
    decreases cps
  {
    hide Utf8.Encode, Utf8.Length, Utf8.CodePoint;
    if cps != [] {
      assert cps[0] in cps;
      var c := Utf8.Encode(cps[0]);
      assert t[i..i + |c|] == t[i..][..|c|] == c;
      Utf8.DecodeOfEncode(cps[0], t, i);
      assert t[i + |c|..] == t[i..][|c|..] == Utf8.EncodeAll(cps[1..]);
      CountIs(t, i + |c|, cps[1..]);
    }
  }

  /** Only a UTF-8 string has a count. */
  lemma {:induction false} CountedIsText(t: seq<Byte>, i: nat) returns (cps: seq<nat>)
    requires i <= |t| && CountCodePoints(t, i).Some?
    ensures Utf8.AreScalars(cps) && t[i..] == Utf8.EncodeAll(cps)
    decreases |t| - i
  {
    hide Utf8.Encode, Utf8.Length, Utf8.CodePoint;
    if i == |t| {
      cps := [];
    } else {
      var n, cp := Utf8.Length(t, i), Utf8.CodePoint(t, i);
      Utf8.EncodeOfDecode(t, i);
      var rest := CountedIsText(t, i + n);
      cps := [cp] + rest;
      assert cps[1..] == rest;
      assert t[i..] == t[i..i + n] + t[i + n..];
    }
  }

  lemma LengthIff(s: Schema, t: seq<Byte>)
    ensures StringMeets(s, t) <==> LengthMet(s, t)
  {
    hide CountCodePoints, Utf8.EncodeAll;
    assert t[0..] == t;
    forall cps | Utf8.AreScalars(cps) && t == Utf8.EncodeAll(cps)
      ensures CountCodePoints(t, 0) == Some(|cps|)
    {
      CountIs(t, 0, cps);
    }
    if CountCodePoints(t, 0).Some? {
      var cps := CountedIsText(t, 0);
    }
  }

  // ----------------------------------------------------------------- Arrays

  /**
   What items and additionalItems demand of the element at `i`: one schema for all elements; or the schema of its
   place, and beyond the last place the additional one, or any value, or none at all.
   */
  predicate ItemMet(s: Schema, i: nat, e: Value) {
    if s.itemsList.Some? then Accepts(s.itemsList.value, e)
    else if !s.hasItemsTuple then true
    else if i < |s.itemsTuple| then Accepts(s.itemsTuple[i], e)
    else if s.additionalItemsSchema.Some? then Accepts(s.additionalItemsSchema.value, e)
    else s.additionalItems
  }

  predicate ArrayMet(s: Schema, es: seq<Value>) {
    && s.minItems <= |es| && (s.maxItems.Some? ==> |es| <= s.maxItems.value)
    && (forall i | 0 <= i < |es| :: ItemMet(s, i, es[i]))
    && (s.uniqueItems ==> forall i, j | 0 <= i < |es| && 0 <= j < |es| && i != j :: HashOf(es[i]) != HashOf(es[j]))
  }

  /** The schema that asks nothing accepts every value. */
  lemma {:induction false} TypelessAccepts(v: Value)
    ensures Accepts(TYPELESS, v)
    decreases v
  {
    hide Accepts, HashOf;
    AcceptsParts(TYPELESS, v);
    if v.Array? {
      forall i | 0 <= i < |v.elements|
        ensures ItemAccepted(TYPELESS, i, v.elements[i])
      {
        TypelessAccepts(v.elements[i]);
      }
    } else if v.Object? {
      forall i | 0 <= i < |v.members|
        ensures Accepts(TYPELESS, v.members[i].value)
      {
        TypelessAccepts(v.members[i].value);
      }
    } else if v.String? {
      LengthIff(TYPELESS, v.s);
    }
  }

  lemma ItemIff(s: Schema, i: nat, e: Value)
    ensures ItemAccepted(s, i, e) <==> ItemMet(s, i, e)
  {
    hide Accepts;
    TypelessAccepts(e);
  }

  // ---------------------------------------------------------------- Objects

  /** The property at `i` is the first of its name. */
  predicate IsProperty(s: Schema, i: nat, name: seq<Byte>) {
    i < |s.properties| && s.properties[i].name == name && forall j | 0 <= j < i :: s.properties[j].name != name
  }

  lemma PropertyIff(s: Schema, i: nat, name: seq<Byte>)
    ensures FindProperty(s.properties, name) == Some(i) <==> IsProperty(s, i, name)
    ensures FindProperty(s.properties, name) == None <==> forall j | 0 <= j < |s.properties| :: s.properties[j].name != name
  {
    FirstProperty(s.properties, name, 0);
  }

  lemma {:induction false} FirstProperty(ps: seq<Property>, name: seq<Byte>, i: nat)
    requires i <= |ps|
    ensures var r := FindPropertyFrom(ps, name, i); r.Some? ==> forall j | i <= j < r.value :: ps[j].name != name
    decreases |ps| - i
  {
    if i < |ps| {
      FirstProperty(ps, name, i + 1);
    }
  }

  /**
   What properties and additionalProperties demand of a member: the schema of the first property of its name; without
   one the additional schema, or any value, or none at all.
   */
  predicate MemberMet(s: Schema, m: Member) {
    if exists i: nat | i < |s.properties| :: IsProperty(s, i, m.name)
    then exists i: nat | i < |s.properties| :: IsProperty(s, i, m.name) && Accepts(s.properties[i].schema, m.value)
    else if s.additionalPropertiesSchema.Some? then Accepts(s.additionalPropertiesSchema.value, m.value)
    else s.additionalProperties
  }

  /** A member carries the name of the property at `i`. */
  predicate HasProperty(s: Schema, ms: seq<Member>, i: nat) {
    exists m | m in ms :: IsProperty(s, i, m.name)
  }

  /** What a dependency of the property at `i` demands once the property is there. */
  predicate DependencyMet(s: Schema, ms: seq<Member>, d: Dependency) {
    match d
    case NoDependency => true
    case Needs(indices) => forall j | j in indices && j < |s.properties| :: HasProperty(s, ms, j)
    case Meets(schema) => Accepts(schema, Object(ms))
  }

  predicate ObjectMet(s: Schema, ms: seq<Member>) {
    && s.minProperties <= |ms| && (s.maxProperties.Some? ==> |ms| <= s.maxProperties.value)
    && (forall i | 0 <= i < |s.properties| && s.properties[i].required :: HasProperty(s, ms, i))
    && (forall i | 0 <= i < |s.properties| :: HasProperty(s, ms, i) ==> DependencyMet(s, ms, s.properties[i].dependency))
    && (forall m | m in ms :: MemberMet(s, m))
  }

  lemma MemberIff(s: Schema, m: Member)
    ensures MemberSchema(s, m.name).Some? && Accepts(MemberSchema(s, m.name).value, m.value) <==> MemberMet(s, m)
  {
    hide Accepts, FindProperty;
    TypelessAccepts(m.value);
    forall i: nat
      ensures FindProperty(s.properties, m.name) == Some(i) <==> IsProperty(s, i, m.name)
    {
      PropertyIff(s, i, m.name);
    }
    if FindProperty(s.properties, m.name).Some? {
      assert IsProperty(s, FindProperty(s.properties, m.name).value, m.name);
    }
  }

  lemma PresentIff(s: Schema, ms: seq<Member>, i: nat)
    ensures Present(s, ms, i) <==> HasProperty(s, ms, i)
  {
    hide FindProperty;
    forall m | m in ms
      ensures FindProperty(s.properties, m.name) == Some(i) <==> IsProperty(s, i, m.name)
    {
      PropertyIff(s, i, m.name);
    }
  }

  // ------------------------------------------------------------ Combinations

  /** The schema at `i` accepts the value, and no other does. */
  predicate OnlyOne(schemas: seq<Schema>, v: Value, i: nat)
    requires i < |schemas|
  {
    forall j | 0 <= j < |schemas| :: Accepts(schemas[j], v) <==> j == i
  }

  predicate CombinationMet(s: Schema, v: Value) {
    && (s.enumHashes.Some? ==> exists h | h in s.enumHashes.value :: h == HashOf(v))
    && (forall t | t in s.allOf :: Accepts(t, v))
    && (s.anyOf != [] ==> exists t | t in s.anyOf :: Accepts(t, v))
    && (s.oneOf != [] ==> exists i | 0 <= i < |s.oneOf| :: OnlyOne(s.oneOf, v, i))
    && (s.not_.Some? ==> !Accepts(s.not_.value, v))
  }

  predicate NoneAccepts(schemas: seq<Schema>, v: Value) {
    forall j | 0 <= j < |schemas| :: !Accepts(schemas[j], v)
  }

  lemma {:induction false} MatchesNone(schemas: seq<Schema>, v: Value)
    ensures Matches(schemas, v) == 0 <==> NoneAccepts(schemas, v)
    decreases schemas
  {
    hide Accepts;
    if schemas != [] {
      var rest := schemas[1..];
      MatchesNone(rest, v);
      assert forall j | 0 < j < |schemas| :: schemas[j] == rest[j - 1];
    }
  }

  lemma OnlyFirst(schemas: seq<Schema>, v: Value)
    requires schemas != [] && Accepts(schemas[0], v)
    ensures (exists i | 0 <= i < |schemas| :: OnlyOne(schemas, v, i)) <==> NoneAccepts(schemas[1..], v)
  {
    hide Accepts;
    var rest := schemas[1..];
    assert forall j | 0 < j < |schemas| :: schemas[j] == rest[j - 1];
    if NoneAccepts(rest, v) {
      assert OnlyOne(schemas, v, 0);
    }
    if i :| 0 <= i < |schemas| && OnlyOne(schemas, v, i) {
      assert i == 0;
    }
  }

  lemma OnlyLater(schemas: seq<Schema>, v: Value)
    requires schemas != [] && !Accepts(schemas[0], v)
    ensures (exists i | 0 <= i < |schemas| :: OnlyOne(schemas, v, i)) <==>
            exists i | 0 <= i < |schemas[1..]| :: OnlyOne(schemas[1..], v, i)
  {
    hide Accepts;
    var rest := schemas[1..];
    assert forall j | 0 < j < |schemas| :: schemas[j] == rest[j - 1];
    if i :| 0 <= i < |schemas| && OnlyOne(schemas, v, i) {
      assert OnlyOne(rest, v, i - 1);
    }
    if i :| 0 <= i < |rest| && OnlyOne(rest, v, i) {
      assert OnlyOne(schemas, v, i + 1);
    }
  }

  lemma {:induction false} MatchesOne(schemas: seq<Schema>, v: Value)
    ensures Matches(schemas, v) == 1 <==> exists i | 0 <= i < |schemas| :: OnlyOne(schemas, v, i)
    decreases schemas
  {
    hide Accepts, OnlyOne;
    if schemas != [] {
      if Accepts(schemas[0], v) {
        MatchesNone(schemas[1..], v);
        OnlyFirst(schemas, v);
      } else {
        MatchesOne(schemas[1..], v);
        OnlyLater(schemas, v);
      }
    }
  }

  lemma CombinationIff(s: Schema, v: Value)
    ensures CombinationAccepted(s, v) <==> CombinationMet(s, v)
  {
    hide Accepts, HashOf, Matches;
    MatchesOne(s.oneOf, v);
  }

  lemma EndIff(s: Schema, v: Value)
    ensures v.Object? ==>
              (EndAccepted(s, v) && MembersAccepted(s, v.members) <==> ObjectMet(s, v.members))
  {
    hide Accepts, Present, HasProperty, MemberSchema, MemberMet;
    if v.Object? {
      assert v == Object(v.members);
      forall i: nat
        ensures Present(s, v.members, i) <==> HasProperty(s, v.members, i)
      {
        PresentIff(s, v.members, i);
      }
      forall m: Member
        ensures MemberSchema(s, m.name).Some? && Accepts(MemberSchema(s, m.name).value, m.value) <==> MemberMet(s, m)
      {
        MemberIff(s, m);
      }
    }
  }

  lemma ElementsIff(s: Schema, v: Value)
    ensures v.Array? ==> (EndAccepted(s, v) && ElementsAccepted(s, v.elements) <==> ArrayMet(s, v.elements))
  {
    hide Accepts, HashOf, ItemAccepted, ItemMet;
    if v.Array? {
      forall i: nat, e: Value
        ensures ItemAccepted(s, i, e) <==> ItemMet(s, i, e)
      {
        ItemIff(s, i, e);
      }
    }
  }

  lemma AdmissibleIff(s: Schema, v: Value)
    ensures Admissible(s, v) <==>
            && TypeMet(s, v)
            && (v.Number? && v.bits < TWO_64 ==> RangeMet(s, IntegerOf(v)))
            && (v.String? ==> LengthMet(s, v.s))
  {
    hide NumberMeets, RangeMet, StringMeets, LengthMet, IntegerOf;
    if v.Number? && v.bits < TWO_64 {
      RangeIff(s, IntegerOf(v));
    } else if v.String? {
      LengthIff(s, v.s);
    }
    assert v.Null? ==> IsOf(v, NullKind);
    assert v.Bool? ==> IsOf(v, BooleanKind);
    assert v.Object? ==> IsOf(v, ObjectKind);
    assert v.Array? ==> IsOf(v, ArrayKind);
    assert v.String? ==> IsOf(v, StringKind);
    assert v.Double? || v.Number? ==> IsOf(v, NumberKind);
    assert v.Number? ==> IsOf(v, IntegerKind);
  }

  // --------------------------------------------------------------- Theorems

  ghost predicate KeywordsMet(s: Schema, v: Value) {
    && TypeMet(s, v)
    && (v.Number? && v.bits < TWO_64 ==> RangeMet(s, IntegerOf(v)))
    && (v.String? ==> LengthMet(s, v.s))
    && (v.Array? ==> ArrayMet(s, v.elements))
    && (v.Object? ==> ObjectMet(s, v.members))
    && CombinationMet(s, v)
  }

  /** A schema accepts a value exactly when the value meets every keyword. */
  lemma AcceptsIff(s: Schema, v: Value)
    ensures Accepts(s, v) <==> KeywordsMet(s, v)
  {
    AcceptsParts(s, v);
    AdmissibleIff(s, v);
    ElementsIff(s, v);
    EndIff(s, v);
    CombinationIff(s, v);
    assert !v.Array? && !v.Object? ==> EndAccepted(s, v);
    hide Accepts, Admissible, TypeMet, RangeMet, LengthMet, ElementsAccepted, MembersAccepted, EndAccepted, ArrayMet, ObjectMet,
         CombinationAccepted, CombinationMet;
  }
}
