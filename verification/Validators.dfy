/**
 The validator as it runs: a stack of contexts, and beside every context the hasher and the validators it owns,
 each a validator of the same kind with a stack of its own. It does what the functional validator does.
 */
module Validators {
  import opened Text
  import Sax
  import opened Dom
  import opened Hashes
  import opened Schemas
  import opened Printer
  import opened Offenders
  import opened Validation
  import Streaming

  class Hasher {
    var stack: seq<Hash>

    constructor ()
      ensures stack == []
    {
      stack := [];
    }

    method Push(h: Hash)
      modifies this
      ensures stack == old(stack) + [h]
    {
      stack := stack + [h];
    }

    method WriteBuffer(kind: Hash, data: seq<Byte>)
      modifies this
      ensures stack == old(stack) + [Hashes.WriteBuffer(kind, data)]
    {
      hide Combine;
      var h := Combine(OFFSET_BASIS, kind);
      var i := 0;
      while i < |data|
        invariant 0 <= i <= |data| && BufferHash(h, data[i..]) == Hashes.WriteBuffer(kind, data)
      {
        assert data[i..][1..] == data[i + 1..];
        h := Combine(h, Wide(data[i]));
        i := i + 1;
      }
      Push(h);
    }

    method WriteNumber(n: int)
      requires -TWO_63 <= n < TWO_64
      modifies this
      ensures stack == old(stack) + [NumberHash(n)]
    {
      WriteBuffer(NUMBER_TYPE, LittleEndian(if n < 0 then n + TWO_64 else n, 8) + LittleEndian(DoubleBits(n), 8));
    }

    method EndObject(memberCount: nat)
      requires |stack| >= 2 * memberCount
      modifies this
      ensures stack == HashStep(old(stack), Sax.EndObject(memberCount))
    {
      hide Combine;
      var below := |stack| - 2 * memberCount;
      var kv := stack[below..];
      var h := Combine(0, OBJECT_TYPE);
      var i := 0;
      while i < memberCount
        invariant 0 <= i <= memberCount && ObjectHash(h, kv[2 * i..]) == ObjectHash(Combine(0, OBJECT_TYPE), kv)
      {
        assert kv[2 * i..][0] == kv[2 * i] && kv[2 * i..][1] == kv[2 * i + 1] && kv[2 * i..][2..] == kv[2 * (i + 1)..];
        h := Xor(h, Combine(kv[2 * i], kv[2 * i + 1]));
        i := i + 1;
      }
      stack := stack[..below];
      Push(h);
    }

    method EndArray(elementCount: nat)
      requires |stack| >= elementCount
      modifies this
      ensures stack == HashStep(old(stack), Sax.EndArray(elementCount))
    {
      hide Combine;
      var below := |stack| - elementCount;
      var e := stack[below..];
      var h := Combine(0, ARRAY_TYPE);
      var i := 0;
      while i < elementCount
        invariant 0 <= i <= elementCount && ArrayHash(h, e[i..]) == ArrayHash(Combine(0, ARRAY_TYPE), e)
      {
        assert e[i..][1..] == e[i + 1..];
        h := Combine(h, e[i]);
        i := i + 1;
      }
      stack := stack[..below];
      Push(h);
    }

    /** One event; one that cannot come at this point is ignored. */
    method Handle(e: Sax.Event)
      modifies this
      ensures stack == HashStep(old(stack), e)
    {
      hide NumberHash, Hashes.WriteBuffer, ObjectHash, ArrayHash, Combine;
      match e {
        case Null => WriteBuffer(NULL_TYPE, []);
        case Bool(b) => WriteBuffer(if b then TRUE_TYPE else FALSE_TYPE, []);
        case Int(n) => if -TWO_63 <= n < TWO_64 { WriteNumber(n); }
        case Uint(n) => if -TWO_63 <= n < TWO_64 { WriteNumber(n); }
        case Int64(n) => if -TWO_63 <= n < TWO_64 { WriteNumber(n); }
        case Uint64(n) => if -TWO_63 <= n < TWO_64 { WriteNumber(n); }
        case Double(_) =>
        case String(s) => WriteBuffer(STRING_TYPE, s);
        case Key(k) => WriteBuffer(STRING_TYPE, k);
        case StartObject =>
        case StartArray =>
        case EndObject(n) => if |stack| >= 2 * n { EndObject(n); }
        case EndArray(n) => if |stack| >= n { EndArray(n); }
      }
    }
  }

  // ------------------------------------------------- Validators of a context

  function DependencySchemas(properties: seq<Property>): seq<Schema> {
    if properties == [] then []
    else
      var rest := DependencySchemas(properties[1..]);
      match properties[0].dependency
      case NoDependency => rest
      case Needs(_) => rest
      case Meets(schema) => [schema] + rest
  }

  function NotSchemas(s: Schema): seq<Schema> {
    if s.not_.Some? then [s.not_.value] else []
  }

  /** The schemas validated in parallel, in the order their validators are kept. */
  function Subs(s: Schema): seq<Schema> {
    s.allOf + s.anyOf + s.oneOf + NotSchemas(s) + DependencySchemas(s.properties)
  }

  lemma {:induction false} DependenciesSmaller(s: Schema, properties: seq<Property>)
    requires forall i | 0 <= i < |properties| :: properties[i] < s
    ensures forall i | 0 <= i < |DependencySchemas(properties)| :: DependencySchemas(properties)[i] < s
  {
    if properties != [] {
      DependenciesSmaller(s, properties[1..]);
    }
  }

  lemma SubsSmaller(s: Schema, root: Schema)
    requires Within(s, root)
    ensures forall i | 0 <= i < |Subs(s)| :: Subs(s)[i] < root
  {
    DependenciesSmaller(s, s.properties);
  }

  /** Place of property `i`'s schema among the dependency schemas. */
  function DependencyIndex(properties: seq<Property>, i: nat): nat
    requires i <= |properties|
  {
    if i == 0 then 0 else Count(properties[0].dependency.Meets?) + DependencyIndex(properties[1..], i - 1)
  }

  lemma {:induction false} DependencyAt(properties: seq<Property>, i: nat)
    requires i < |properties| && properties[i].dependency.Meets?
    ensures DependencyIndex(properties, i) < |DependencySchemas(properties)|
    ensures DependencySchemas(properties)[DependencyIndex(properties, i)] == properties[i].dependency.schema
    decreases i
  {
    if i > 0 {
      DependencyAt(properties[1..], i - 1);
    }
  }

  /** First places of the groups of validators. */
  function AnyOfBegin(s: Schema): nat {
    |s.allOf|
  }

  function OneOfBegin(s: Schema): nat {
    AnyOfBegin(s) + |s.anyOf|
  }

  function NotIndex(s: Schema): nat {
    OneOfBegin(s) + |s.oneOf|
  }

  function DependenciesBegin(s: Schema): nat {
    NotIndex(s) + Count(s.not_.Some?)
  }

  lemma SubsAt(s: Schema)
    ensures |Subs(s)| == DependenciesBegin(s) + |DependencySchemas(s.properties)|
    ensures forall i | 0 <= i < |s.allOf| :: Subs(s)[i] == s.allOf[i]
    ensures forall i | 0 <= i < |s.anyOf| :: Subs(s)[AnyOfBegin(s) + i] == s.anyOf[i]
    ensures forall i | 0 <= i < |s.oneOf| :: Subs(s)[OneOfBegin(s) + i] == s.oneOf[i]
    ensures s.not_.Some? ==> Subs(s)[NotIndex(s)] == s.not_.value
    ensures forall i | 0 <= i < |DependencySchemas(s.properties)| ::
              Subs(s)[DependenciesBegin(s) + i] == DependencySchemas(s.properties)[i]
  {}

  /** The groups are all there, and every schema is nested in the root. */
  ghost predicate Placed(s: Schema, root: Schema) {
    DependenciesBegin(s) <= |Subs(s)| && forall i | 0 <= i < |Subs(s)| :: Subs(s)[i] < root
  }

  lemma Placing(s: Schema, root: Schema)
    requires Within(s, root)
    ensures Placed(s, root)
  {
    SubsSmaller(s, root);
    SubsAt(s);
  }

  lemma GroupBounds(s: Schema, root: Schema)
    requires Placed(s, root)
    ensures AnyOfBegin(s) <= OneOfBegin(s) <= NotIndex(s) <= |Subs(s)|
    ensures s.not_.Some? ==> NotIndex(s) < |Subs(s)|
    ensures forall i | 0 <= i < |Subs(s)| :: Subs(s)[i] < root
  {}

  /** What a validator of every schema makes of the events since `start`. */
  ghost function Contents(schemas: seq<Schema>, root: Schema, log: seq<Sax.Event>, start: nat): (r: seq<bool>)
    requires start <= |log| && forall i | 0 <= i < |schemas| :: schemas[i] < root
    ensures |r| == |schemas| && forall i | 0 <= i < |schemas| :: r[i] == Content(schemas[i], root, log, start)
  {
    seq(|schemas|, i requires 0 <= i < |schemas| => Content(schemas[i], root, log, start))
  }

  function CountTrue(verdicts: seq<bool>): nat {
    if verdicts == [] then 0 else Count(verdicts[0]) + CountTrue(verdicts[1..])
  }

  lemma RunSnoc(m: Machine, seen: seq<Sax.Event>, e: Sax.Event)
    requires Bounded(m)
    ensures Run(m, seen + [e]) == Step(Run(m, seen), e)
  {
    hide Run, Step;
    Streaming.RunConcat(m, seen, [e]);
    Streaming.RunOne(Run(m, seen), e);
  }

  lemma HashSnoc(seen: seq<Sax.Event>, e: Sax.Event)
    ensures HashAll([], seen + [e]) == HashStep(HashAll([], seen), e)
  {
    hide HashStep;
    HashAllConcat([], seen, [e]);
    HashOne(HashAll([], seen), e);
  }

  /** A validator of `sub` that has handled `events`. */
  ghost predicate Ran(v: Validator, bound: Schema, sub: Schema, events: seq<Sax.Event>)
    reads v, v.Repr
    decreases bound, 0
  {
    v.root == sub && sub < bound && v.Valid() && v.Progress() == Run(Init(sub), events)
  }

  ghost predicate Apart(vs: seq<Validator>)
    reads vs
  {
    forall i, j | 0 <= i < j < |vs| :: vs[i].Repr !! vs[j].Repr
  }

  method Fresh(ghost bound: Schema, sub: Schema) returns (v: Validator)
    requires sub < bound
    ensures v in v.Repr && fresh(v.Repr) && Ran(v, bound, sub, [])
  {
    hide Run;
    v := new Validator(sub);
    Streaming.RunNothing(Init(sub));
  }

  lemma HashNothing()
    ensures HashAll([], []) == []
  {}

  /** One more event for a validator. */
  method Advance(v: Validator, ghost bound: Schema, ghost sub: Schema, ghost seen: seq<Sax.Event>, e: Sax.Event)
    requires v in v.Repr && Ran(v, bound, sub, seen)
    modifies v.Repr
    ensures v in v.Repr && fresh(v.Repr - old(v.Repr)) && Ran(v, bound, sub, seen + [e])
    decreases bound, 1
  {
    hide Run, Step;
    RunSnoc(Init(sub), seen, e);
    v.Handle(e);
  }

  /** What a context owns: its hasher, and the validators that see the same events. */
  class Scope {
    const schema: Schema
    ghost const bound: Schema
    const hashed: bool
    var hasher: Hasher?
    var validators: seq<Validator>
    ghost var seen: seq<Sax.Event>
    ghost var Repr: set<object>

    ghost predicate Valid()
      reads this, Repr
      decreases bound, 1
    {
      && (forall v | v in validators :: v in Repr) && Held()
      && (hasher != null ==> hasher in Repr) && HasherRuns(seen)
      && |validators| == |Subs(schema)|
      && forall i | 0 <= i < |validators| :: Ran(validators[i], bound, Subs(schema)[i], seen)
    }

    ghost predicate HasherRuns(events: seq<Sax.Event>)
      reads this, hasher
    {
      (hashed <==> hasher != null) && (hasher != null ==> hasher.stack == HashAll([], events))
    }

    /** The hasher and the validators own objects of their own, within those of the scope. */
    ghost predicate Held()
      reads this, validators
    {
      && this in Repr && (hasher != null ==> hasher in Repr)
      && (forall i | 0 <= i < |validators| :: Holds(validators[i]))
      && Apart(validators)
    }

    ghost predicate Holds(v: Validator)
      reads this, v
    {
      v in Repr && v in v.Repr && v.Repr <= Repr && this !in v.Repr && hasher !in v.Repr
    }

    /** Makes the hasher and the validators of a value whose first event has passed its checks. */
    constructor (s: Schema, hashed: bool, ghost root: Schema)
      requires Within(s, root)
      ensures Valid() && fresh(Repr) && this in Repr && seen == []
      ensures schema == s && bound == root && this.hashed == hashed
    {
      schema, bound, this.hashed := s, root, hashed;
      hasher, validators, seen := null, [], [];
      new;
      hide Subs, Ran, HashAll, Within;
      HashNothing();
      Repr := {this};
      if hashed {
        hasher := new Hasher();
        Repr := Repr + {hasher};
      }
      CreateValidators();
    }

    /** One validator for every schema validated in parallel. */
    method CreateValidators()
      requires Within(schema, bound) && validators == [] && seen == [] && this in Repr
      requires (hasher != null ==> hasher in Repr) && HasherRuns([])
      modifies this
      ensures Valid() && seen == [] && hasher == old(hasher) && fresh(Repr - old(Repr)) && this in Repr
    {
      hide Subs, Ran, HashAll, Within;
      SubsSmaller(schema, bound);
      var subs := Subs(schema);
      while |validators| < |subs|
        invariant |validators| <= |subs| && fresh(Repr - old(Repr)) && seen == [] && hasher == old(hasher) && this in Repr
        invariant HasherRuns([]) && Held()
        invariant forall i | 0 <= i < |validators| :: Ran(validators[i], bound, subs[i], [])
      {
        label L:
        var v := Fresh(bound, subs[|validators|]);
        assert forall k | 0 <= k < |validators| :: validators[k].Repr == old@L(validators[k].Repr);
        Repr := Repr + v.Repr;
        validators := validators + [v];
      }
    }

    /** The hasher and every validator handle the event. */
    method Feed(e: Sax.Event)
      requires Valid()
      modifies Repr
      ensures Valid() && fresh(Repr - old(Repr)) && seen == old(seen) + [e]
      decreases bound, 2, 1
    {
      hide Ran, HashStep, HashAll, Subs;
      if hasher != null {
        hasher.Handle(e);
      }
      HashSnoc(seen, e);
      FeedValidators(e);
      seen := seen + [e];
    }

    method FeedValidators(e: Sax.Event)
      requires (forall v | v in validators :: v in Repr) && Held()
      requires |validators| == |Subs(schema)|
      requires forall i | 0 <= i < |validators| :: Ran(validators[i], bound, Subs(schema)[i], seen)
      modifies Repr - {hasher}
      ensures hasher == old(hasher) && validators == old(validators) && seen == old(seen)
      ensures (forall v | v in validators :: v in Repr) && Held() && old(Repr) <= Repr && fresh(Repr - old(Repr))
      ensures forall i | 0 <= i < |validators| :: Ran(validators[i], bound, Subs(schema)[i], seen + [e])
      decreases bound, 2, 0
    {
      hide Ran, Subs;
      ghost var fed := seen + [e];
      var i := 0;
      while i < |validators|
        invariant 0 <= i <= |validators| == |Subs(schema)| && validators == old(validators) && hasher == old(hasher)
        invariant old(Repr) <= Repr && fresh(Repr - old(Repr)) && seen == old(seen) && Held()
        invariant forall k | 0 <= k < i :: Ran(validators[k], bound, Subs(schema)[k], fed)
        invariant forall k | i <= k < |validators| :: Ran(validators[k], bound, Subs(schema)[k], seen)
      {
        var v := validators[i];
        assert Holds(v);
        label L:
        Advance(v, bound, Subs(schema)[i], seen, e);
        assert forall k | 0 <= k < |validators| && k != i :: validators[k].Repr == old@L(validators[k].Repr);
        Repr := Repr + v.Repr;
        i := i + 1;
      }
    }

    /** The verdict of every validator. */
    ghost predicate Judge(verdicts: seq<bool>)
      reads this, validators
    {
      |verdicts| == |validators| && forall i | 0 <= i < |validators| :: validators[i].valid == verdicts[i]
    }

    /** The verdicts are on what the context has seen. */
    lemma Judging(log: seq<Sax.Event>, start: nat)
      requires Valid() && start <= |log| && Within(schema, bound) && seen == log[start..]
      ensures Placed(schema, bound) && Judge(Contents(Subs(schema), bound, log, start))
    {
      hide Run, Subs;
      Placing(schema, bound);
      forall i | 0 <= i < |validators| ensures validators[i].valid <==> Content(Subs(schema)[i], bound, log, start) {
        assert Ran(validators[i], bound, Subs(schema)[i], seen);
        assert validators[i].Progress().valid == validators[i].valid;
      }
    }

    method AllValid(lo: nat, hi: nat, ghost verdicts: seq<bool>) returns (ok: bool)
      requires Judge(verdicts) && lo <= hi <= |validators|
      ensures ok <==> forall i | lo <= i < hi :: verdicts[i]
    {
      var i := lo;
      while i < hi
        invariant lo <= i <= hi
        invariant forall k | lo <= k < i :: verdicts[k]
      {
        if !validators[i].valid {
          return false;
        }
        i := i + 1;
      }
      return true;
    }

    method AnyValid(lo: nat, hi: nat, ghost verdicts: seq<bool>) returns (ok: bool)
      requires Judge(verdicts) && lo <= hi <= |validators|
      ensures ok <==> exists i | lo <= i < hi :: verdicts[i]
    {
      var i := lo;
      while i < hi
        invariant lo <= i <= hi
        invariant forall k | lo <= k < i :: !verdicts[k]
      {
        if validators[i].valid {
          return true;
        }
        i := i + 1;
      }
      return false;
    }

    /** Exactly one of the group is valid; the loop stops at a second. */
    method OneValid(lo: nat, hi: nat, ghost verdicts: seq<bool>) returns (ok: bool)
      requires Judge(verdicts) && lo <= hi <= |validators|
      ensures ok <==> CountTrue(verdicts[lo..hi]) == 1
    {
      var oneValid := false;
      var i := lo;
      while i < hi
        invariant lo <= i <= hi
        invariant Count(oneValid) + CountTrue(verdicts[i..hi]) == CountTrue(verdicts[lo..hi])
      {
        assert verdicts[i..hi][0] == verdicts[i] && verdicts[i..hi][1..] == verdicts[i + 1..hi];
        if validators[i].valid {
          if oneValid {
            return false;
          }
          oneValid := true;
        }
        i := i + 1;
      }
      return oneValid;
    }

    /** Hash of what has been seen. */
    method GetHashCode() returns (h: Hash)
      requires Valid() && hashed
      ensures h == LogHash(seen, 0)
    {
      hide HashAll, Subs;
      assert seen[0..] == seen;
      h := if |hasher.stack| == 0 then 0 else hasher.stack[|hasher.stack| - 1];
    }

    /** The hash is one of those of the enum, if there is one. */
    method EnumMet() returns (ok: bool)
      requires Valid() && (schema.enumHashes.Some? ==> hashed)
      ensures ok <==> (schema.enumHashes.Some? ==> LogHash(seen, 0) in schema.enumHashes.value)
    {
      hide LogHash, Valid;
      if schema.enumHashes.None? {
        return true;
      }
      var h := GetHashCode();
      var hashes := schema.enumHashes.value;
      var i := 0;
      while i < |hashes|
        invariant 0 <= i <= |hashes| && h !in hashes[..i]
      {
        if hashes[i] == h {
          return true;
        }
        i := i + 1;
      }
      return false;
    }

    /** The checks at the end of a value. */
    method EndValue(ghost c: Context, ghost log: seq<Sax.Event>) returns (ok: bool)
      requires Valid() && c.schema == schema && Within(schema, bound)
      requires c.start <= |log| && seen == log[c.start..] && (schema.enumHashes.Some? ==> hashed)
      ensures ok <==> ValueEnds(c, bound, log)
    {
      hide Content, Contents, ValueEnds, LogHash, Subs, AnyOfBegin, OneOfBegin, NotIndex, Valid, Placed, CountTrue;
      Judging(log, c.start);
      GroupBounds(schema, bound);
      ghost var verdicts := Contents(Subs(schema), bound, log, c.start);
      ValueEndsParts(c, bound, log, verdicts);
      ok := EnumMet();
      if !ok { return; }
      ok := AllValid(0, AnyOfBegin(schema), verdicts);
      if !ok { return; }
      if schema.anyOf != [] {
        ok := AnyValid(AnyOfBegin(schema), OneOfBegin(schema), verdicts);
        if !ok { return; }
      }
      if schema.oneOf != [] {
        ok := OneValid(OneOfBegin(schema), NotIndex(schema), verdicts);
        if !ok { return; }
      }
      if schema.not_.Some? && validators[NotIndex(schema)].valid {
        return false;
      }
      return true;
    }

    method RequiredMet(exist: seq<bool>) returns (ok: bool)
      ensures ok <==> forall i | 0 <= i < |schema.properties| :: schema.properties[i].required ==> Marked(exist, i)
    {
      var i := 0;
      while i < |schema.properties|
        invariant 0 <= i <= |schema.properties|
        invariant forall k | 0 <= k < i :: schema.properties[k].required ==> Marked(exist, k)
      {
        if schema.properties[i].required && !Marked(exist, i) {
          return false;
        }
        i := i + 1;
      }
      return true;
    }

    /** The checks at the end of an object. */
    method EndObject(c: Context, memberCount: nat, ghost log: seq<Sax.Event>) returns (ok: bool)
      requires Valid() && c.schema == schema && Within(schema, bound)
      requires c.start <= |log| && seen == log[c.start..]
      ensures ok <==> ObjectEnds(c, bound, log, memberCount)
    {
      Judging(log, c.start);
      hide Content, Contents, Subs, Depends, Valid, Judge;
      ok := RequiredMet(c.propertyExist);
      if !ok || memberCount < schema.minProperties || !AtMost(memberCount, schema.maxProperties) {
        return false;
      }
      var i := 0;
      while i < |schema.properties|
        invariant 0 <= i <= |schema.properties|
        invariant forall k | 0 <= k < i && Marked(c.propertyExist, k) :: Depends(c, bound, log, k)
      {
        if Marked(c.propertyExist, i) {
          ok := DependencyMet(c, i, log);
          if !ok {
            return false;
          }
        }
        i := i + 1;
      }
      return true;
    }

    /** What the presence of property `i` asks for is there. */
    method DependencyMet(c: Context, i: nat, ghost log: seq<Sax.Event>) returns (ok: bool)
      requires Within(schema, bound) && c.schema == schema && c.start <= |log| && Placed(schema, bound)
      requires Judge(Contents(Subs(schema), bound, log, c.start))
      requires i < |schema.properties|
      ensures ok <==> Depends(c, bound, log, i)
    {
      SubsAt(schema);
      hide Content, Subs, DependenciesBegin;
      match schema.properties[i].dependency {
        case NoDependency => return true;
        case Needs(indices) =>
          var j := 0;
          while j < |schema.properties|
            invariant 0 <= j <= |schema.properties|
            invariant forall k | 0 <= k < j && k in indices :: Marked(c.propertyExist, k)
          {
            if j in indices && !Marked(c.propertyExist, j) {
              return false;
            }
            j := j + 1;
          }
          return true;
        case Meets(_) =>
          DependencyAt(schema.properties, i);
          return validators[DependenciesBegin(schema) + DependencyIndex(schema.properties, i)].valid;
      }
    }
  }

  /** What the end of a value asks of the groups of validators. */
  lemma ValueEndsParts(c: Context, root: Schema, log: seq<Sax.Event>, verdicts: seq<bool>)
    requires c.start <= |log| && Within(c.schema, root) && Placed(c.schema, root)
    requires verdicts == Contents(Subs(c.schema), root, log, c.start)
    ensures
      var s := c.schema;
      ValueEnds(c, root, log) <==>
      && (s.enumHashes.Some? ==> LogHash(log[c.start..], 0) in s.enumHashes.value)
      && (forall i | 0 <= i < AnyOfBegin(s) :: verdicts[i])
      && (s.anyOf != [] ==> exists i | AnyOfBegin(s) <= i < OneOfBegin(s) :: verdicts[i])
      && (s.oneOf != [] ==> CountTrue(verdicts[OneOfBegin(s)..NotIndex(s)]) == 1)
      && (s.not_.Some? ==> !verdicts[NotIndex(s)])
  {
    hide Content, HashAll, Subs, ContentCount, CountTrue, Contents, AnyOfBegin, OneOfBegin, NotIndex;
    assert log[c.start..][0..] == log[c.start..];
    var s := c.schema;
    GroupBounds(s, root);
    AllOfContents(s, root, log, c.start, verdicts);
    AnyOfContents(s, root, log, c.start, verdicts);
    OneOfContents(s, root, log, c.start, verdicts);
    NotContent(s, root, log, c.start, verdicts);
    hide Placed;
  }

  lemma OneOfContents(s: Schema, root: Schema, log: seq<Sax.Event>, start: nat, verdicts: seq<bool>)
    requires start <= |log| && Within(s, root) && Placed(s, root) && verdicts == Contents(Subs(s), root, log, start)
    ensures ContentCount(s.oneOf, root, log, start) == CountTrue(verdicts[OneOfBegin(s)..NotIndex(s)])
  {
    hide Content, Subs, ContentCount, CountTrue;
    SubsAt(s);
    var group := verdicts[OneOfBegin(s)..NotIndex(s)];
    assert forall i | 0 <= i < |s.oneOf| :: group[i] == verdicts[OneOfBegin(s) + i];
    CountOfContents(s.oneOf, root, log, start, group);
  }

  lemma NotContent(s: Schema, root: Schema, log: seq<Sax.Event>, start: nat, verdicts: seq<bool>)
    requires start <= |log| && Within(s, root) && Placed(s, root) && verdicts == Contents(Subs(s), root, log, start)
    ensures s.not_.Some? ==> verdicts[NotIndex(s)] == Content(s.not_.value, root, log, start)
  {
    hide Content, Subs;
    SubsAt(s);
  }

  lemma AllOfContents(s: Schema, root: Schema, log: seq<Sax.Event>, start: nat, verdicts: seq<bool>)
    requires start <= |log| && Within(s, root) && Placed(s, root) && verdicts == Contents(Subs(s), root, log, start)
    ensures (forall i | 0 <= i < |s.allOf| :: Content(s.allOf[i], root, log, start)) <==>
            forall i | 0 <= i < AnyOfBegin(s) :: verdicts[i]
  {
    hide Content, Subs;
    SubsAt(s);
    assert forall i | 0 <= i < |s.allOf| :: verdicts[i] == Content(s.allOf[i], root, log, start);
  }

  lemma AnyOfContents(s: Schema, root: Schema, log: seq<Sax.Event>, start: nat, verdicts: seq<bool>)
    requires start <= |log| && Within(s, root) && Placed(s, root) && verdicts == Contents(Subs(s), root, log, start)
    ensures (exists i | 0 <= i < |s.anyOf| :: Content(s.anyOf[i], root, log, start)) <==>
            exists i | AnyOfBegin(s) <= i < OneOfBegin(s) :: verdicts[i]
  {
    hide Content, Subs;
    SubsAt(s);
    if i :| 0 <= i < |s.anyOf| && Content(s.anyOf[i], root, log, start) {
      assert verdicts[AnyOfBegin(s) + i];
    }
    if i :| AnyOfBegin(s) <= i < OneOfBegin(s) && verdicts[i] {
      assert Subs(s)[AnyOfBegin(s) + (i - AnyOfBegin(s))] == s.anyOf[i - AnyOfBegin(s)];
    }
  }

  lemma {:induction false} CountOfContents(schemas: seq<Schema>, root: Schema, log: seq<Sax.Event>, start: nat, verdicts: seq<bool>)
    requires start <= |log| && |verdicts| == |schemas| && forall i | 0 <= i < |schemas| :: schemas[i] < root
    requires forall i | 0 <= i < |schemas| :: verdicts[i] == Content(schemas[i], root, log, start)
    ensures ContentCount(schemas, root, log, start) == CountTrue(verdicts)
    decreases schemas
  {
    hide Content;
    if schemas != [] {
      CountOfContents(schemas[1..], root, log, start, verdicts[1..]);
    }
  }

  /** The scope of a context that has seen `events`. */
  ghost predicate Tracks(scope: Scope, root: Schema, schema: Schema, unique: bool, events: seq<Sax.Event>)
    reads scope, scope.Repr
    decreases root, 2, 0
  {
    && scope.bound == root && scope.schema == schema
    && scope.hashed == (schema.enumHashes.Some? || unique)
    && scope.seen == events
    && scope.Valid()
  }

  /** The scope of a context, when `events` is the whole log. */
  ghost predicate Follows(scope: Scope, root: Schema, c: Context, events: seq<Sax.Event>)
    reads scope, scope.Repr
    decreases root, 2, 1
  {
    c.start <= |events| && Tracks(scope, root, c.schema, c.arrayUniqueness, events[c.start..])
  }

  /** Every scope has seen the events since its context was pushed. */
  ghost predicate AllTracked(scopes: seq<Scope>, root: Schema, stack: seq<Context>, events: seq<Sax.Event>)
    reads scopes, set s, o | s in scopes && o in s.Repr :: o
    decreases root, 2, 2
  {
    forall i {:trigger scopes[i]} {:trigger stack[i]} | 0 <= i < |scopes| && i < |stack| ::
      Follows(scopes[i], root, stack[i], events)
  }

  /** Contexts may change, but not what their scopes depend on. */
  lemma Retracked(scopes: seq<Scope>, root: Schema, stack: seq<Context>, events: seq<Sax.Event>, next: seq<Context>)
    requires AllTracked(scopes, root, stack, events) && |scopes| <= |stack|
    requires forall i | 0 <= i < |scopes| && i < |next| :: SameScope(stack[i], next[i])
    ensures AllTracked(scopes, root, next, events)
  {
    hide Tracks;
  }

  lemma NewFollows(scope: Scope, root: Schema, c: Context, events: seq<Sax.Event>)
    requires scope.Valid() && scope.bound == root && scope.schema == c.schema && scope.seen == []
    requires scope.hashed == (c.schema.enumHashes.Some? || c.arrayUniqueness) && c.start == |events|
    ensures Follows(scope, root, c, events)
  {
    hide Scope.Valid;
    assert events[c.start..] == [];
  }

  lemma TrackedOneMore(scopes: seq<Scope>, root: Schema, stack: seq<Context>, events: seq<Sax.Event>, scope: Scope)
    requires AllTracked(scopes, root, stack, events) && |stack| == |scopes| + 1
    requires Follows(scope, root, stack[|scopes|], events)
    ensures AllTracked(scopes + [scope], root, stack, events)
  {
    hide Follows;
  }

  lemma TrackedOneLess(scopes: seq<Scope>, root: Schema, stack: seq<Context>, events: seq<Sax.Event>)
    requires AllTracked(scopes, root, stack, events) && |stack| == |scopes| > 0
    ensures AllTracked(scopes[..|scopes| - 1], root, stack[..|stack| - 1], events)
  {
    hide Follows;
  }

  lemma TrackedAt(scopes: seq<Scope>, root: Schema, stack: seq<Context>, events: seq<Sax.Event>, i: nat)
    requires AllTracked(scopes, root, stack, events) && i < |scopes| && i < |stack|
    ensures Follows(scopes[i], root, stack[i], events)
  {
    hide Follows;
  }

  lemma BoundedEither(m: Machine, valid: bool)
    requires Bounded(m)
    ensures Bounded(m.(valid := valid))
  {}

  ghost predicate ScopesApart(scopes: seq<Scope>)
    reads scopes
  {
    forall i, j | 0 <= i < j < |scopes| :: scopes[i].Repr !! scopes[j].Repr
  }

  class Validator {
    const root: Schema
    var stack: seq<Context>
    var scopes: seq<Scope>
    var doc: seq<Byte>
    var valid: bool
    ghost var log: seq<Sax.Event>
    ghost var Repr: set<object>

    ghost function Progress(): Machine
      reads this
    {
      Machine(root, stack, doc, valid, log)
    }

    ghost predicate Valid()
      reads this, Repr
      decreases root, 3
    {
      && this in Repr && Bounded(Progress())
      && (valid ==> |scopes| == |stack| && (forall s | s in scopes :: s in Repr) && Held() && AllTracked(scopes, root, stack, log))
    }

    ghost predicate Held()
      reads this, scopes
    {
      (forall i | 0 <= i < |scopes| :: Holds(scopes[i])) && ScopesApart(scopes)
    }

    ghost predicate Holds(scope: Scope)
      reads this, scope
    {
      scope in Repr && scope in scope.Repr && scope.Repr <= Repr && this !in scope.Repr
    }

    constructor (schema: Schema)
      ensures Valid() && fresh(Repr) && root == schema && Progress() == Init(schema)
    {
      root, stack, scopes, doc, valid, log := schema, [], [], [], true, [];
      Repr := {this};
    }

    /** Every context's hasher and validators handle the event. */
    method FeedAll(e: Sax.Event)
      requires Valid() && valid
      modifies Repr
      ensures Valid() && fresh(Repr - old(Repr))
      ensures Progress() == Validation.Feed(old(Progress()), e)
      decreases root, 3, 1
    {
      hide AllTracked, Bounded;
      FeedScopes(e);
      log := log + [e];
      assert Progress() == Validation.Feed(old(Progress()), e);
    }

    method FeedScopes(e: Sax.Event)
      requires this in Repr && |scopes| == |stack| && (forall s | s in scopes :: s in Repr) && Held()
      requires AllTracked(scopes, root, stack, log)
      modifies Repr
      ensures scopes == old(scopes) && Progress() == old(Progress()) && old(Repr) <= Repr && fresh(Repr - old(Repr))
      ensures this in Repr && (forall s | s in scopes :: s in Repr) && Held()
      ensures AllTracked(scopes, root, stack, log + [e])
      decreases root, 3, 0
    {
      hide Follows;
      ghost var fed := log + [e];
      var i := 0;
      while i < |scopes|
        invariant 0 <= i <= |scopes| == |stack| && scopes == old(scopes) && Progress() == old(Progress())
        invariant this in Repr && old(Repr) <= Repr && fresh(Repr - old(Repr)) && Held()
        invariant forall k | 0 <= k < i :: Follows(scopes[k], root, stack[k], fed)
        invariant forall k | i <= k < |scopes| :: Follows(scopes[k], root, stack[k], log)
      {
        var scope, c := scopes[i], stack[i];
        assert Holds(scope);
        label L:
        AdvanceScope(scope, root, c, log, e);
        assert forall k | 0 <= k < |scopes| && k != i :: scopes[k].Repr == old@L(scopes[k].Repr);
        Repr := Repr + scope.Repr;
        i := i + 1;
      }
    }

    /** Scopes and contexts go together but for the newest context, whose scope is still to be made. */
    ghost predicate Pending()
      reads this, Repr
      decreases root, 3, 1
    {
      && this in Repr && Bounded(Progress()) && |stack| == |scopes| + 1
      && (forall s | s in scopes :: s in Repr) && Held() && AllTracked(scopes, root, stack, log)
    }

    /** Pushes the context of a value that begins; false when there may be no value here. */
    method BeginValue() returns (ok: bool)
      requires Valid() && valid
      modifies this
      ensures ok == Begin(old(Progress())).valid && valid && Repr == old(Repr)
      ensures Progress() == Begin(old(Progress())).(valid := true)
      ensures ok ==> Pending() && Top(Progress()).start == |log|
    {
      hide AllTracked, Token, Decimal, ItemSchema, Bounded;
      ghost var before := Progress();
      BoundedEither(Begin(before), true);
      BeginKeeps(before);
      ok := PushNext();
      if ok {
        Retracked(scopes, root, old(stack), log, stack);
      }
    }

    /** The same, of the contexts alone. */
    method PushNext() returns (ok: bool)
      requires Bounded(Progress()) && valid
      modifies this`stack, this`doc
      ensures ok == Begin(old(Progress())).valid && Progress() == Begin(old(Progress())).(valid := true)
    {
      hide Token, Decimal, ItemSchema, Bounded;
      if stack == [] {
        PushSchema(root, false);
        return true;
      }
      var n := |stack| - 1;
      var c := stack[n];
      if !c.inArray {
        if c.valueSchema.None? {
          return false;
        }
        PushSchema(c.valueSchema.value, c.valueUniqueness);
        return true;
      }
      AppendToken(Decimal(c.arrayElementIndex));
      if c.schema.uniqueItems {
        c := c.(valueUniqueness := true);
      }
      stack := stack[..n] + [c];
      var item := ItemSchema(c.schema, c.arrayElementIndex);
      if item.None? {
        return false;
      }
      c := c.(valueSchema := item, arrayElementIndex := c.arrayElementIndex + 1);
      stack := stack[..n] + [c];
      PushSchema(item.value, c.valueUniqueness);
      return true;
    }

    /** The scope of the newest context. */
    lemma TopScope()
      requires Valid() && valid && stack != []
      ensures |scopes| == |stack|
      ensures
        var scope, c := scopes[|scopes| - 1], stack[|stack| - 1];
        && scope.Valid() && scope.schema == c.schema && scope.bound == root && Within(c.schema, root)
        && scope.hashed == (c.schema.enumHashes.Some? || c.arrayUniqueness)
        && c.start <= |log| && scope.seen == log[c.start..]
    {
      hide Within, AllTracked;
      assert Fits(stack[|stack| - 1], root, |log|);
      TrackedAt(scopes, root, stack, log, |scopes| - 1);
    }

    method PushSchema(schema: Schema, unique: bool)
      modifies this`stack
      ensures stack == old(stack) + [Context(schema, |log|, None, [], 0, false, false, unique, [])]
    {
      stack := stack + [Context(schema, |log|, None, [], 0, false, false, unique, [])];
    }

    /** A slash and the token with its tildes and slashes escaped. */
    method AppendToken(name: seq<Byte>)
      modifies this`doc
      ensures doc == old(doc) + Token(name)
    {
      doc := doc + [SLASH];
      assert name[0..] == name;
      var i := 0;
      while i < |name|
        invariant 0 <= i <= |name|
        invariant doc + EscapeToken(name[i..]) == old(doc) + Token(name)
      {
        ghost var before, rest := doc, EscapeToken(name[i + 1..]);
        assert name[i..][0] == name[i] && name[i..][1..] == name[i + 1..];
        var piece := if name[i] == TILDE then [TILDE, DIGIT_0] else if name[i] == SLASH then [TILDE, DIGIT_1] else [name[i]];
        doc := doc + piece;
        assert before + (piece + rest) == before + piece + rest;
        i := i + 1;
      }
      assert name[i..] == [] && doc + [] == doc;
    }

    /** Removes the last token. */
    method PopLastToken()
      modifies this`doc
      ensures doc == PopToken(old(doc))
    {
      while doc != []
        invariant PopToken(doc) == PopToken(old(doc))
        decreases |doc|
      {
        var c := doc[|doc| - 1];
        doc := doc[..|doc| - 1];
        if c == SLASH {
          return;
        }
      }
    }

    /** A value begins: its context is pushed and checked, and what it owns is made and sees its first event. */
    method StartValue(e: Sax.Event)
      requires Valid() && valid
      modifies Repr
      ensures Valid() && fresh(Repr - old(Repr)) && Progress() == Enter(old(Progress()), e)
      decreases root, 4
    {
      hide AllTracked, Begin, Admits, Opened, Bounded;
      BoundedEither(Begin(Progress()), false);
      var ok := BeginValue();
      if !ok {
        valid := false;
        return;
      }
      BoundedEither(Progress(), false);
      var n := |stack| - 1;
      if !Admits(stack[n].schema, e) {
        valid := false;
        return;
      }
      OpenScope(e);
      FeedAll(e);
    }

    /** Makes what the newest context owns. */
    method OpenScope(e: Sax.Event)
      requires Pending() && valid && stack[|stack| - 1].start == |log|
      modifies this
      ensures Valid() && fresh(Repr - old(Repr))
      ensures Progress() == WithTop(old(Progress()), Opened(Top(old(Progress())), e))
    {
      hide AllTracked, Opened, Bounded, Within, Scope.Valid;
      ghost var before, m := stack, Progress();
      var n := |stack| - 1;
      stack := stack[..n] + [Opened(stack[n], e)];
      OpenedKeeps(m, e);
      assert Progress() == WithTop(m, Opened(Top(m), e));
      Retracked(scopes, root, before, log, stack);
      AddScope();
    }

    lemma OpenedKeeps(m: Machine, e: Sax.Event)
      requires Bounded(m) && m.stack != []
      ensures Bounded(WithTop(m, Opened(Top(m), e))) && Opened(Top(m), e).start == Top(m).start
      ensures SameScope(Top(m), Opened(Top(m), e))
    {}

    /** A new scope for the newest context. */
    method AddScope()
      requires Pending() && stack[|stack| - 1].start == |log|
      modifies this`scopes, this`Repr
      ensures Valid() && fresh(Repr - old(Repr)) && Progress() == old(Progress())
    {
      hide AllTracked, Bounded, Within, Scope.Valid, Follows, Tracks;
      TopFits();
      var c := stack[|stack| - 1];
      var scope := new Scope(c.schema, c.schema.enumHashes.Some? || c.arrayUniqueness, root);
      NewFollows(scope, root, c, log);
      TrackedOneMore(scopes, root, stack, log, scope);
      scopes := scopes + [scope];
      Repr := Repr + scope.Repr;
    }

    lemma TopFits()
      requires Pending()
      ensures Fits(stack[|stack| - 1], root, |log|)
    {}

    /** Null, a boolean, a number or a string. */
    method Scalar(e: Sax.Event)
      requires Valid() && !e.StartObject? && !e.StartArray? && !e.Key? && !e.EndObject? && !e.EndArray?
      modifies Repr
      ensures Valid() && fresh(Repr - old(Repr)) && Progress() == Step(old(Progress()), e)
      decreases root, 5
    {
      hide Enter, Finish, Bounded, AllTracked, Held;
      if valid {
        StartValue(e);
        if valid {
          EndValue();
        }
      }
    }

    method StartObject()
      requires Valid()
      modifies Repr
      ensures Valid() && fresh(Repr - old(Repr)) && Progress() == Step(old(Progress()), Sax.StartObject)
      decreases root, 5
    {
      hide Enter, Valid;
      if valid {
        StartValue(Sax.StartObject);
      }
    }

    method StartArray()
      requires Valid()
      modifies Repr
      ensures Valid() && fresh(Repr - old(Repr)) && Progress() == Step(old(Progress()), Sax.StartArray)
      decreases root, 5
    {
      hide Enter, Valid;
      if valid {
        StartValue(Sax.StartArray);
      }
    }

    method Key(name: seq<Byte>)
      requires Valid()
      modifies Repr
      ensures Valid() && fresh(Repr - old(Repr)) && Progress() == Step(old(Progress()), Sax.Key(name))
      decreases root, 5
    {
      hide Token, Named, AllTracked;
      if !valid || stack == [] {
        return;
      }
      AppendToken(name);
      var n := |stack| - 1;
      assert Fits(stack[n], root, |log|);
      NamedFits(stack[n], name, root, |log|);
      var next := Named(stack[n], name);
      if next.None? {
        valid := false;
        return;
      }
      ghost var before := stack;
      stack := stack[..n] + [next.value];
      Retracked(scopes, root, before, log, stack);
      FeedAll(Sax.Key(name));
    }

    method EndObject(memberCount: nat)
      requires Valid()
      modifies Repr
      ensures Valid() && fresh(Repr - old(Repr)) && Progress() == Step(old(Progress()), Sax.EndObject(memberCount))
      decreases root, 5
    {
      hide ObjectEnds, Finish, AllTracked, Bounded;
      if !valid || stack == [] {
        return;
      }
      FeedAll(Sax.EndObject(memberCount));
      TopScope();
      var n := |stack| - 1;
      BoundedEither(Progress(), false);
      var ok := scopes[n].EndObject(stack[n], memberCount, log);
      if !ok {
        valid := false;
        return;
      }
      EndValue();
    }

    method EndArray(elementCount: nat)
      requires Valid()
      modifies Repr
      ensures Valid() && fresh(Repr - old(Repr)) && Progress() == Step(old(Progress()), Sax.EndArray(elementCount))
      decreases root, 5
    {
      hide Finish, AllTracked;
      if !valid || stack == [] {
        return;
      }
      FeedAll(Sax.EndArray(elementCount));
      var n := |stack| - 1;
      var c := stack[n];
      ghost var before := stack;
      stack := stack[..n] + [c.(inArray := false)];
      Retracked(scopes, root, before, log, stack);
      if elementCount < c.schema.minItems || !AtMost(elementCount, c.schema.maxItems) {
        valid := false;
        return;
      }
      EndValue();
    }

    /** The last checks of the newest context. */
    method ValueMet() returns (ok: bool)
      requires Valid() && valid && stack != []
      ensures ok <==> ValueEnds(stack[|stack| - 1], root, log)
    {
      hide ValueEnds, AllTracked, Bounded, Leave, Accepts;
      TopScope();
      var n := |stack| - 1;
      ok := scopes[n].EndValue(stack[n], log);
    }

    /** The hash of the newest context's value, where elements must be unique. */
    method ValueHash() returns (h: Hash)
      requires Valid() && valid && stack != []
      ensures var c := stack[|stack| - 1];
              c.start <= |log| && h == if c.arrayUniqueness then LogHash(log, c.start) else 0
    {
      hide ValueEnds, AllTracked, Bounded, Leave, Accepts;
      TopScope();
      var n := |stack| - 1;
      h := 0;
      if stack[n].arrayUniqueness {
        h := scopes[n].GetHashCode();
        assert log[stack[n].start..][0..] == log[stack[n].start..];
      }
    }

    /** The last checks of a value; then its context is popped and the path goes back. */
    method EndValue()
      requires Valid() && valid && stack != []
      modifies this
      ensures Valid() && Repr == old(Repr) && Progress() == Finish(old(Progress()))
    {
      hide ValueEnds, AllTracked, Bounded, Leave, LogHash;
      BoundedEither(Progress(), false);
      var ok := ValueMet();
      if !ok {
        valid := false;
        return;
      }
      var h := ValueHash();
      PopContext(h);
    }

    /** Pops the newest context, and notes the hash of its value where elements must be unique. */
    method PopContext(h: Hash)
      requires Valid() && valid && stack != []
      modifies this
      ensures Valid() && Repr == old(Repr) && Progress() == Leave(old(Progress()), h)
    {
      hide PopToken, AllTracked;
      var n := |stack| - 1;
      TrackedOneLess(scopes, root, stack, log);
      stack, scopes := stack[..n], scopes[..n];
      if stack != [] {
        var top := stack[n - 1];
        if top.valueUniqueness {
          if h in top.elementHashes {
            valid := false;
            return;
          }
          ghost var before := stack;
          stack := stack[..n - 1] + [top.(elementHashes := top.elementHashes + [h])];
          Retracked(scopes, root, before, log, stack);
        }
      }
      PopLastToken();
    }

    /** Any event, as a validator that runs beside a context gets it. */
    method Handle(e: Sax.Event)
      requires Valid()
      modifies Repr
      ensures Valid() && fresh(Repr - old(Repr)) && Progress() == Step(old(Progress()), e)
      decreases root, 6
    {
      hide Step, Valid;
      match e {
        case StartObject => StartObject();
        case StartArray => StartArray();
        case Key(k) => Key(k);
        case EndObject(n) => EndObject(n);
        case EndArray(n) => EndArray(n);
        case _ => Scalar(e);
      }
    }

    /** Forgets everything, ready for another value. */
    method Reset()
      requires Valid()
      modifies this
      ensures Valid() && Repr == old(Repr) && Progress() == Init(root)
    {
      stack, scopes, doc, valid, log := [], [], [], true, [];
    }
  }

  /** One more event for a context's hasher and validators. */
  method AdvanceScope(scope: Scope, ghost root: Schema, ghost c: Context, ghost log: seq<Sax.Event>, e: Sax.Event)
    requires scope in scope.Repr && Follows(scope, root, c, log)
    modifies scope.Repr
    ensures scope in scope.Repr && fresh(scope.Repr - old(scope.Repr)) && Follows(scope, root, c, log + [e])
    decreases root, 2, 3
  {
    assert log[c.start..] + [e] == (log + [e])[c.start..];
    scope.Feed(e);
  }

  /** Feeds the events of a value until one is refused. */
  method Validate(validator: Validator, origin: Origin, v: Value) returns (ok: bool)
    requires WellFormed(v) && validator.Valid() && validator.Progress() == Init(validator.root)
    modifies validator.Repr
    ensures validator.Valid() && fresh(validator.Repr - old(validator.Repr))
    ensures ok <==> Accepts(validator.root, v)
    ensures ok ==> validator.doc == [] && validator.stack == []
    ensures !ok ==> Offender(validator.root, v).Some?
                    && validator.doc == Streaming.PathText(Offender(validator.root, v).value)
  {
    hide Run, Step, Accepts, Offender, Events, Validator.Valid;
    var root := validator.root;
    Streaming.ValidatorAccepts(root, origin, v);
    var events := Events(origin, v);
    var i := 0;
    assert events[0..] == events;
    while i < |events|
      invariant 0 <= i <= |events| && validator.root == root
      invariant validator.Valid() && validator.valid && fresh(validator.Repr - old(validator.Repr))
      invariant Bounded(validator.Progress())
      invariant Run(Init(root), events) == Run(validator.Progress(), events[i..])
    {
      RunNext(validator.Progress(), events, i);
      validator.Handle(events[i]);
      i := i + 1;
      if !validator.valid {
        Streaming.RunInvalid(validator.Progress(), events[i..]);
        return false;
      }
    }
    Streaming.RunNothing(validator.Progress());
    assert events[i..] == [];
    return true;
  }

  lemma RunNext(m: Machine, events: seq<Sax.Event>, i: nat)
    requires Bounded(m) && i < |events|
    ensures Run(m, events[i..]) == Run(Step(m, events[i]), events[i + 1..])
  {
    hide Step;
    assert events[i..][0] == events[i] && events[i..][1..] == events[i + 1..];
  }
}
