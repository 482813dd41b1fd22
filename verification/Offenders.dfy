/**
 Where a value first goes against a schema, in the order a validator meets it: the path to the value that
 is to blame, or None. There is such a value exactly when the schema does not accept.
 */
module Offenders {
  import opened Text
  import opened Dom
  import opened Hashes
  import opened Likeness
  import opened Schemas
  import opened Printer

  /** Member names and element indices, from the root down. */
  type Path = seq<seq<Byte>>

  /** What is checked on the first event of a value. */
  predicate Admissible(s: Schema, v: Value) {
    && TypeAllows(s, v)
    && (v.Number? && v.bits < TWO_64 ==> NumberMeets(s, IntegerOf(v)))
    && (v.String? ==> StringMeets(s, v.s))
  }

  function Offender(s: Schema, v: Value): Option<Path>
    decreases v, s, 4
  {
    if !Admissible(s, v) then Some([])
    else
      var inner := if v.Array? then ElementsOffender(s, v.elements, 0, [])
                   else if v.Object? then MembersOffender(s, v.members)
                   else None;
      if inner.Some? then inner
      else if !EndsWell(s, v) || !Combined(s, v) then Some([])
      else None
  }

  /** What is found inside a value. */
  function Inner(s: Schema, v: Value): Option<Path> {
    if v.Array? then ElementsOffender(s, v.elements, 0, [])
    else if v.Object? then MembersOffender(s, v.members)
    else None
  }

  lemma OffenderIs(s: Schema, v: Value)
    ensures Offender(s, v) == if !Admissible(s, v) then Some([])
                              else if Inner(s, v).Some? then Inner(s, v)
                              else if !EndsWell(s, v) || !Combined(s, v) then Some([])
                              else None
  {
    hide EndsWell, Combined, ElementsOffender, MembersOffender, Admissible;
  }

  /** Elements from `index` on; `hashes` are those of the elements before. */
  function ElementsOffender(s: Schema, es: seq<Value>, index: nat, hashes: seq<Hash>): Option<Path>
    decreases es
  {
    if es == [] then None
    else
      var token := Decimal(index);
      if ItemSchema(s, index).None? then Some([token])
      else
        var inner := Offender(ItemSchema(s, index).value, es[0]);
        if inner.Some? then Some([token] + inner.value)
        else if s.uniqueItems && HashOf(es[0]) in hashes then Some([token])
        else ElementsOffender(s, es[1..], index + 1, if s.uniqueItems then hashes + [HashOf(es[0])] else hashes)
  }

  function MembersOffender(s: Schema, ms: seq<Member>): Option<Path>
    decreases ms
  {
    if ms == [] then None
    else if MemberSchema(s, ms[0].name).None? then Some([ms[0].name])
    else
      var inner := Offender(MemberSchema(s, ms[0].name).value, ms[0].value);
      if inner.Some? then Some([ms[0].name] + inner.value) else MembersOffender(s, ms[1..])
  }

  /** What is checked at the end of an array or an object. */
  predicate EndsWell(s: Schema, v: Value)
    decreases v, s, 2
  {
    && (v.Array? ==> s.minItems <= |v.elements| && AtMost(|v.elements|, s.maxItems))
    && (v.Object? ==>
          && s.minProperties <= |v.members| && AtMost(|v.members|, s.maxProperties)
          && RequiredPresent(s, v.members) && NeedsPresent(s, v.members)
          && forall i | 0 <= i < |s.properties| && Present(s, v.members, i) && s.properties[i].dependency.Meets? ::
               Offender(s.properties[i].dependency.schema, v).None?)
  }

  /** What is checked at the end of any value. */
  predicate Combined(s: Schema, v: Value)
    decreases v, s, 3
  {
    && (s.enumHashes.Some? ==> HashOf(v) in s.enumHashes.value)
    && (forall i | 0 <= i < |s.allOf| :: Offender(s.allOf[i], v).None?)
    && (s.anyOf != [] ==> exists i | 0 <= i < |s.anyOf| :: Offender(s.anyOf[i], v).None?)
    && (s.oneOf != [] ==> Innocent(s.oneOf, v) == 1)
    && (s.not_.Some? ==> Offender(s.not_.value, v).Some?)
  }

  function Innocent(schemas: seq<Schema>, v: Value): nat
    decreases v, schemas, 5
  {
    if schemas == [] then 0 else (if Offender(schemas[0], v).None? then 1 else 0) + Innocent(schemas[1..], v)
  }

  // --------------------------------------------------- Blame is the meaning

  /** Some value is to blame exactly when the schema does not accept. */
  lemma {:induction false} OffenderIff(s: Schema, v: Value)
    ensures Offender(s, v).None? <==> Accepts(s, v)
    decreases v, s, 4
  {
    hide Accepts, Offender, EndsWell, Combined, ElementsOffender, MembersOffender, Admissible, ElementsAccepted, MembersAccepted,
         EndAccepted, CombinationAccepted;
    OffenderIs(s, v);
    AcceptsParts(s, v);
    EndsIff(s, v);
    CombinedIff(s, v);
    if v.Array? {
      ElementsIff(s, v.elements, 0, []);
      FromStart(s, v.elements);
    } else if v.Object? {
      MembersIff(s, v.members);
    }
  }

  predicate ItemAccepted(s: Schema, index: nat, e: Value) {
    ItemSchema(s, index).Some? && Accepts(ItemSchema(s, index).value, e)
  }

  predicate ElementsAccepted(s: Schema, es: seq<Value>) {
    && (forall i | 0 <= i < |es| :: ItemAccepted(s, i, es[i]))
    && (s.uniqueItems ==> forall i, j | 0 <= i < j < |es| :: HashOf(es[i]) != HashOf(es[j]))
  }

  predicate MembersAccepted(s: Schema, ms: seq<Member>) {
    forall i | 0 <= i < |ms| :: MemberSchema(s, ms[i].name).Some? && Accepts(MemberSchema(s, ms[i].name).value, ms[i].value)
  }

  predicate EndAccepted(s: Schema, v: Value) {
    && (v.Array? ==> s.minItems <= |v.elements| && AtMost(|v.elements|, s.maxItems))
    && (v.Object? ==>
          && s.minProperties <= |v.members| && AtMost(|v.members|, s.maxProperties)
          && RequiredPresent(s, v.members) && NeedsPresent(s, v.members)
          && forall i | 0 <= i < |s.properties| && Present(s, v.members, i) && s.properties[i].dependency.Meets? ::
               Accepts(s.properties[i].dependency.schema, v))
  }

  predicate CombinationAccepted(s: Schema, v: Value) {
    && (s.enumHashes.Some? ==> HashOf(v) in s.enumHashes.value)
    && (forall i | 0 <= i < |s.allOf| :: Accepts(s.allOf[i], v))
    && (s.anyOf != [] ==> exists i | 0 <= i < |s.anyOf| :: Accepts(s.anyOf[i], v))
    && (s.oneOf != [] ==> Matches(s.oneOf, v) == 1)
    && (s.not_.Some? ==> !Accepts(s.not_.value, v))
  }

  lemma AcceptsParts(s: Schema, v: Value)
    ensures Accepts(s, v) <==>
            && Admissible(s, v) && EndAccepted(s, v) && CombinationAccepted(s, v)
            && (v.Array? ==> ElementsAccepted(s, v.elements)) && (v.Object? ==> MembersAccepted(s, v.members))
  {
    hide NumberMeets, StringMeets, RequiredPresent, NeedsPresent, Present, HashOf, ItemSchema, MemberSchema, Matches, TypeAllows;
    if v.Array? {
      forall i | 0 <= i < |v.elements|
        ensures ItemAccepted(s, i, v.elements[i]) <==> ItemSchema(s, i).Some? && Accepts(ItemSchema(s, i).value, v.elements[i])
      {
      }
    }
    if v.Object? && MembersAccepted(s, v.members) {
      forall m | m in v.members ensures MemberSchema(s, m.name).Some? && Accepts(MemberSchema(s, m.name).value, m.value) {
        var i :| 0 <= i < |v.members| && v.members[i] == m;
      }
    }
  }

  lemma EndsIff(s: Schema, v: Value)
    ensures EndsWell(s, v) <==> EndAccepted(s, v)
    decreases v, s, 2
  {
    hide RequiredPresent, NeedsPresent, Present, Accepts, Offender;
    if v.Object? {
      forall i | 0 <= i < |s.properties| && s.properties[i].dependency.Meets?
        ensures Offender(s.properties[i].dependency.schema, v).None? <==> Accepts(s.properties[i].dependency.schema, v)
      {
        OffenderIff(s.properties[i].dependency.schema, v);
      }
    }
  }

  lemma CombinedIff(s: Schema, v: Value)
    ensures Combined(s, v) <==> CombinationAccepted(s, v)
    decreases v, s, 3
  {
    hide Accepts, Offender;
    forall i | 0 <= i < |s.allOf| ensures Offender(s.allOf[i], v).None? <==> Accepts(s.allOf[i], v) {
      OffenderIff(s.allOf[i], v);
    }
    forall i | 0 <= i < |s.anyOf| ensures Offender(s.anyOf[i], v).None? <==> Accepts(s.anyOf[i], v) {
      OffenderIff(s.anyOf[i], v);
    }
    InnocentIff(s, s.oneOf, v);
    if s.not_.Some? {
      OffenderIff(s.not_.value, v);
    }
  }

  lemma {:induction false} InnocentIff(s: Schema, schemas: seq<Schema>, v: Value)
    requires forall i | 0 <= i < |schemas| :: schemas[i] < s
    ensures Innocent(schemas, v) == Matches(schemas, v)
    decreases v, s, 1, |schemas|
  {
    hide Accepts, Offender;
    if schemas != [] {
      OffenderIff(schemas[0], v);
      InnocentIff(s, schemas[1..], v);
    }
  }

  predicate ItemsFrom(s: Schema, es: seq<Value>, index: nat) {
    forall i | 0 <= i < |es| :: ItemAccepted(s, index + i, es[i])
  }

  predicate DistinctFrom(es: seq<Value>, hashes: seq<Hash>) {
    && (forall i | 0 <= i < |es| :: HashOf(es[i]) !in hashes)
    && forall i, j | 0 <= i < j < |es| :: HashOf(es[i]) != HashOf(es[j])
  }

  lemma FromStart(s: Schema, es: seq<Value>)
    ensures ElementsAccepted(s, es) <==> ItemsFrom(s, es, 0) && (s.uniqueItems ==> DistinctFrom(es, []))
  {
    hide ItemAccepted, HashOf;
    if ItemsFrom(s, es, 0) {
      forall i | 0 <= i < |es| ensures ItemAccepted(s, i, es[i]) {
        assert ItemAccepted(s, 0 + i, es[i]);
      }
    }
  }

  lemma ItemsStep(s: Schema, es: seq<Value>, index: nat)
    requires es != []
    ensures ItemsFrom(s, es, index) <==> ItemAccepted(s, index, es[0]) && ItemsFrom(s, es[1..], index + 1)
  {
    hide ItemAccepted;
    if ItemAccepted(s, index, es[0]) && ItemsFrom(s, es[1..], index + 1) {
      forall i | 0 <= i < |es| ensures ItemAccepted(s, index + i, es[i]) {
        if i > 0 {
          assert ItemAccepted(s, index + 1 + (i - 1), es[1..][i - 1]);
        }
      }
    }
    if ItemsFrom(s, es, index) {
      assert ItemAccepted(s, index + 0, es[0]);
      forall i | 0 <= i < |es| - 1 ensures ItemAccepted(s, index + 1 + i, es[1..][i]) {
        assert ItemAccepted(s, index + (i + 1), es[i + 1]);
      }
    }
  }

  lemma DistinctStep(es: seq<Value>, hashes: seq<Hash>)
    requires es != []
    ensures DistinctFrom(es, hashes) <==> HashOf(es[0]) !in hashes && DistinctFrom(es[1..], hashes + [HashOf(es[0])])
  {
    hide HashOf;
    var h := HashOf(es[0]);
    if h !in hashes && DistinctFrom(es[1..], hashes + [h]) {
      forall i | 0 <= i < |es| ensures HashOf(es[i]) !in hashes {
        if i > 0 {
          assert HashOf(es[1..][i - 1]) !in hashes + [h];
        }
      }
      forall i, j | 0 <= i < j < |es| ensures HashOf(es[i]) != HashOf(es[j]) {
        assert HashOf(es[1..][j - 1]) !in hashes + [h] && (hashes + [h])[|hashes|] == h;
        if i > 0 {
          assert HashOf(es[1..][i - 1]) != HashOf(es[1..][j - 1]);
        }
      }
    }
    if DistinctFrom(es, hashes) {
      forall i | 0 <= i < |es| - 1 ensures HashOf(es[1..][i]) !in hashes + [h] {
        assert es[1..][i] == es[i + 1];
      }
      forall i, j | 0 <= i < j < |es| - 1 ensures HashOf(es[1..][i]) != HashOf(es[1..][j]) {
        assert HashOf(es[i + 1]) != HashOf(es[j + 1]);
      }
    }
  }

  lemma {:induction false} ElementsIff(s: Schema, es: seq<Value>, index: nat, hashes: seq<Hash>)
    ensures ElementsOffender(s, es, index, hashes).None? <==>
            ItemsFrom(s, es, index) && (s.uniqueItems ==> DistinctFrom(es, hashes))
    decreases es
  {
    hide Accepts, Offender, HashOf, ItemSchema;
    if es != [] {
      ItemsStep(s, es, index);
      DistinctStep(es, hashes);
      hide ItemsFrom, DistinctFrom;
      if ItemSchema(s, index).Some? {
        OffenderIff(ItemSchema(s, index).value, es[0]);
        ElementsIff(s, es[1..], index + 1, if s.uniqueItems then hashes + [HashOf(es[0])] else hashes);
      }
    }
  }

  lemma {:induction false} MembersIff(s: Schema, ms: seq<Member>)
    ensures MembersOffender(s, ms).None? <==> MembersAccepted(s, ms)
    decreases ms
  {
    hide Accepts, Offender, MemberSchema;
    if ms != [] && MemberSchema(s, ms[0].name).Some? {
      OffenderIff(MemberSchema(s, ms[0].name).value, ms[0].value);
      MembersIff(s, ms[1..]);
    }
  }

  // -------------------------------------------------------------------- Enums

  /** An enum never rejects a value that is one of its members up to the order of object members. */
  lemma EnumIgnoresOrder(s: Schema, values: seq<Value>, i: nat, v: Value)
    requires s.enumHashes == Some(EnumHashes(values)) && i < |values| && Alike(Exact, values[i], v)
    ensures Accepts(s, v) <==> Accepts(s.(enumHashes := None), v)
  {
    hide Accepts, HashOf, TypeAllows, NumberMeets, StringMeets, FindProperty, Matches;
    HashIgnoresOrder(values[i], v);
    assert s.enumHashes.value[i] == HashOf(v);
    var t := s.(enumHashes := None);
    AcceptsParts(s, v);
    AcceptsParts(t, v);
    SameChecks(s, t, v);
  }

  /** Everything but the enum is read from the same fields. */
  lemma SameChecks(s: Schema, t: Schema, v: Value)
    requires t == s.(enumHashes := None)
    ensures Admissible(s, v) == Admissible(t, v) && EndAccepted(s, v) == EndAccepted(t, v)
    ensures v.Array? ==> ElementsAccepted(s, v.elements) == ElementsAccepted(t, v.elements)
    ensures v.Object? ==> MembersAccepted(s, v.members) == MembersAccepted(t, v.members)
  {
    hide Accepts, HashOf, CountCodePoints, FindProperty;
    assert TypeAllows(s, v) == TypeAllows(t, v);
    if v.Array? {
      assert forall k: nat :: ItemSchema(s, k) == ItemSchema(t, k);
    } else if v.Object? {
      assert forall k: nat :: Present(s, v.members, k) == Present(t, v.members, k);
      assert RequiredPresent(s, v.members) == RequiredPresent(t, v.members);
      assert NeedsPresent(s, v.members) == NeedsPresent(t, v.members);
      assert forall name :: MemberSchema(s, name) == MemberSchema(t, name);
    }
  }
}
