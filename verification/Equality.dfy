/** Equality of values: what the comparison computes, and what it means when names are unique and when they are not. */
module Equality {
  import opened Text
  import opened Dom
  import opened Likeness
  import opened Resolving

  /** The comparison; doubles are not modelled. */
  predicate Equal(a: Value, b: Value)
    requires WellFormed(a) && WellFormed(b)
    decreases a, 1
  {
    match a
    case Null => b.Null?
    case Bool(x) => b == Value.Bool(x)
    case Number(bits, _) => b.Number? && bits == b.bits
    case String(s) => b == Value.String(s)
    case Array(es) => b.Array? && |es| == |b.elements| && ElementsEqual(es, b.elements)
    case Object(ms) => b.Object? && |ms| == |b.members| && MembersFound(ms, b.members)
  }

  predicate ElementsEqual(es: seq<Value>, fs: seq<Value>)
    requires |es| == |fs| && (forall e | e in es :: WellFormed(e)) && forall f | f in fs :: WellFormed(f)
    decreases es
  {
    es == [] || (Equal(es[0], fs[0]) && ElementsEqual(es[1..], fs[1..]))
  }

  /** Every member is found by name among the others, with an equal value. */
  predicate MembersFound(ms: seq<Member>, ns: seq<Member>)
    requires (forall m | m in ms :: WellFormed(m.value)) && forall n | n in ns :: WellFormed(n.value)
    decreases ms
  {
    ms == [] || (Found(ms[0], ns) && MembersFound(ms[1..], ns))
  }

  predicate Found(m: Member, ns: seq<Member>)
    requires WellFormed(m.value) && forall n | n in ns :: WellFormed(n.value)
    decreases m, 0
  {
    match FindMember(ns, m.name)
    case None => false
    case Some(j) => Equal(m.value, ns[j].value)
  }

  /** The comparison as it runs. */
  method Compare(a: Value, b: Value) returns (r: bool)
    requires WellFormed(a) && WellFormed(b)
    ensures r <==> Equal(a, b)
    decreases a
  {
    match a {
      case Null => return b.Null?;
      case Bool(x) => return b.Bool? && b.b == x;
      case Number(bits, _) => return b.Number? && bits == b.bits;
      case String(s) =>
        return b.String? && s == b.s;
      case Array(es) =>
        if !b.Array? || |es| != |b.elements| {
          return false;
        }
        var i := 0;
        assert es[0..] == es && b.elements[0..] == b.elements;
        while i < |es|
          invariant 0 <= i <= |es|
          invariant ElementsEqual(es, b.elements) == ElementsEqual(es[i..], b.elements[i..])
        {
          assert es[i..][0] == es[i] && es[i..][1..] == es[i + 1..];
          assert b.elements[i..][0] == b.elements[i] && b.elements[i..][1..] == b.elements[i + 1..];
          r := Compare(es[i], b.elements[i]);
          if !r {
            return;
          }
          i := i + 1;
        }
        return true;
      case Object(ms) =>
        if !b.Object? || |ms| != |b.members| {
          return false;
        }
        var i := 0;
        assert ms[0..] == ms;
        while i < |ms|
          invariant 0 <= i <= |ms|
          invariant MembersFound(ms, b.members) == MembersFound(ms[i..], b.members)
        {
          assert ms[i..][0] == ms[i] && ms[i..][1..] == ms[i + 1..];
          var j := Find(b.members, ms[i].name);
          if j == |b.members| {
            return false;
          }
          r := Compare(ms[i].value, b.members[j].value);
          if !r {
            return;
          }
          i := i + 1;
        }
        return true;
    }
  }

  /** Linear search; the length when there is no such member. */
  method Find(ns: seq<Member>, name: seq<Byte>) returns (j: nat)
    ensures match FindMember(ns, name) case None => j == |ns| case Some(k) => j == k < |ns|
  {
    j := 0;
    while j < |ns|
      invariant 0 <= j <= |ns| && forall k | 0 <= k < j :: ns[k].name != name
    {
      if ns[j].name == name {
        return;
      }
      j := j + 1;
    }
  }

  // ---------------------------------------------------- Equal and alike

  predicate Distinct(ms: seq<Member>) {
    forall i, j | 0 <= i < j < |ms| :: ms[i].name != ms[j].name
  }

  /** A member is found, among fewer members, where it is found among all. */
  lemma {:induction false} FindWithout(ns: seq<Member>, j: nat, name: seq<Byte>)
    requires j < |ns| && ns[j].name != name
    ensures match FindMember(ns, name)
            case None => FindMember(Without(ns, j), name).None?
            case Some(k) => FindMember(Without(ns, j), name) == Some(if k < j then k else k - 1)
    decreases j
  {
    hide Without;
    WithoutFirst(ns, j);
    if j > 0 {
      FirstOfWithout(ns, j);
      FindWithout(ns[1..], j - 1, name);
    }
  }

  lemma FirstOfWithout(ns: seq<Member>, j: nat)
    requires 0 < j < |ns|
    ensures Without(ns, j)[0] == ns[0] && Without(ns, j)[1..] == Without(ns[1..], j - 1)
  {}

  lemma {:induction false} FoundWithout(ms: seq<Member>, ns: seq<Member>, j: nat)
    requires (forall m | m in ms :: WellFormed(m.value)) && forall n | n in ns :: WellFormed(n.value)
    requires j < |ns| && forall m | m in ms :: m.name != ns[j].name
    ensures MembersFound(ms, ns) <==> MembersFound(ms, Without(ns, j))
    decreases ms
  {
    hide FindMember, WellFormed, Equal;
    if ms != [] {
      FindWithout(ns, j, ms[0].name);
      FoundWithout(ms[1..], ns, j);
    }
  }

  /** Equal values with unique names are alike; only the left ones need be unique. */
  lemma {:induction false} EqualIsAlike(a: Value, b: Value)
    requires WellFormed(a) && WellFormed(b) && UniqueNames(a) && Equal(a, b)
    ensures Alike(ByPattern, a, b)
    decreases a, 1
  {
    if a.Array? {
      ElementsAlike(a.elements, b.elements);
    } else if a.Object? {
      MembersAlike(a.members, b.members);
    }
  }

  lemma {:induction false} ElementsAlike(es: seq<Value>, fs: seq<Value>)
    requires |es| == |fs| && (forall e | e in es :: WellFormed(e) && UniqueNames(e)) && forall f | f in fs :: WellFormed(f)
    requires ElementsEqual(es, fs)
    ensures AlikeElements(ByPattern, es, fs)
    decreases es
  {
    hide Equal, Alike, WellFormed, UniqueNames;
    if es != [] {
      EqualIsAlike(es[0], fs[0]);
      ElementsAlike(es[1..], fs[1..]);
    }
  }

  lemma {:induction false} MembersAlike(ms: seq<Member>, ns: seq<Member>)
    requires (forall m | m in ms :: WellFormed(m.value) && UniqueNames(m.value)) && forall n | n in ns :: WellFormed(n.value)
    requires |ms| == |ns| && Distinct(ms) && MembersFound(ms, ns)
    ensures AlikeMembers(ByPattern, ms, ns)
    decreases ms
  {
    hide Equal, Alike, WellFormed, UniqueNames, FindMember;
    if ms != [] {
      var j := FindMember(ns, ms[0].name).value;
      EqualIsAlike(ms[0].value, ns[j].value);
      FoundWithout(ms[1..], ns, j);
      MembersAlike(ms[1..], Without(ns, j));
    }
  }

  /** Alike values are equal when the right ones have unique names. */
  lemma {:induction false} AlikeIsEqual(a: Value, b: Value)
    requires WellFormed(a) && WellFormed(b) && UniqueNames(b) && Alike(ByPattern, a, b)
    ensures Equal(a, b)
    decreases a, 1
  {
    if a.Array? {
      AlikeElementsEqual(a.elements, b.elements);
    } else if a.Object? {
      AlikeMembersFound(a.members, b.members);
    }
  }

  lemma {:induction false} AlikeElementsEqual(es: seq<Value>, fs: seq<Value>)
    requires (forall e | e in es :: WellFormed(e)) && forall f | f in fs :: WellFormed(f) && UniqueNames(f)
    requires AlikeElements(ByPattern, es, fs)
    ensures ElementsEqual(es, fs)
    decreases es
  {
    hide Equal, Alike, WellFormed, UniqueNames;
    if es != [] {
      AlikeIsEqual(es[0], fs[0]);
      AlikeElementsEqual(es[1..], fs[1..]);
    }
  }

  lemma {:induction false} AlikeMembersFound(ms: seq<Member>, ns: seq<Member>)
    requires (forall m | m in ms :: WellFormed(m.value)) && forall n | n in ns :: WellFormed(n.value) && UniqueNames(n.value)
    requires Distinct(ns) && AlikeMembers(ByPattern, ms, ns)
    ensures MembersFound(ms, ns)
    decreases ms
  {
    hide Equal, Alike, WellFormed, UniqueNames, FindMember;
    if ms != [] {
      var j := Partner(ByPattern, ms, ns);
      AlikeIsEqual(ms[0].value, ns[j].value);
      OnlyOne(ns, j);
      AlikeMembersFound(ms[1..], Without(ns, j));
      NamesElsewhere(ms[1..], ns, j);
      FoundWithout(ms[1..], ns, j);
    }
  }

  lemma OnlyOne(ns: seq<Member>, j: nat)
    requires j < |ns| && Distinct(ns)
    ensures FindMember(ns, ns[j].name) == Some(j) && Distinct(Without(ns, j))
  {}

  /** Members that pair off with the others do not carry the name left out. */
  lemma {:induction false} NamesElsewhere(ms: seq<Member>, ns: seq<Member>, j: nat)
    requires j < |ns| && Distinct(ns) && AlikeMembers(ByPattern, ms, Without(ns, j))
    ensures forall m | m in ms :: m.name != ns[j].name
  {
    hide Alike;
    forall m | m in ms ensures m.name != ns[j].name {
      var i :| 0 <= i < |ms| && ms[i] == m;
      var k := PartnerOf(ByPattern, ms, i, Without(ns, j));
      assert Without(ns, j)[k] == ns[if k < j then k else k + 1];
    }
  }

  /** On values with unique names, equality is sameness up to the order of members, integers by their 64 bits. */
  lemma EqualIffAlike(a: Value, b: Value)
    requires WellFormed(a) && WellFormed(b) && UniqueNames(a) && UniqueNames(b)
    ensures Equal(a, b) <==> Alike(ByPattern, a, b)
  {
    hide Equal, Alike;
    if Equal(a, b) {
      EqualIsAlike(a, b);
    }
    if Alike(ByPattern, a, b) {
      AlikeIsEqual(a, b);
    }
  }

  /** On values with unique names, equality is an equivalence relation. */
  lemma EqualityIsEquivalence(a: Value, b: Value, c: Value)
    requires WellFormed(a) && WellFormed(b) && WellFormed(c) && UniqueNames(a) && UniqueNames(b) && UniqueNames(c)
    ensures Equal(a, a)
    ensures Equal(a, b) ==> Equal(b, a)
    ensures Equal(a, b) && Equal(b, c) ==> Equal(a, c)
  {
    hide Equal, Alike, WellFormed, UniqueNames;
    EqualIffAlike(a, a);
    EqualIffAlike(a, b);
    EqualIffAlike(b, a);
    EqualIffAlike(b, c);
    EqualIffAlike(a, c);
    AlikeReflexive(ByPattern, a);
    if Equal(a, b) {
      AlikeSymmetric(ByPattern, a, b);
      if Equal(b, c) {
        AlikeTransitive(ByPattern, a, b, c);
      }
    }
  }

  // ------------------------------------------------------- Repeated names

  /** Members of the same name are equal. */
  predicate Consistent(ms: seq<Member>)
    requires forall m | m in ms :: WellFormed(m.value)
  {
    forall i, j | 0 <= i < j < |ms| && ms[i].name == ms[j].name :: Equal(ms[i].value, ms[j].value)
  }

  /**
   An object with repeated names is equal to some object exactly when its members of the same name are equal;
   the documentation says it never is.
   */
  lemma RepeatedNames(a: Value)
    requires WellFormed(a) && a.Object? && forall m | m in a.members :: UniqueNames(m.value)
    ensures Consistent(a.members) <==> exists b :: WellFormed(b) && Equal(a, b)
  {
    hide UniqueNames;
    if Consistent(a.members) {
      ConsistentEqualsItself(a);
    }
    if b :| WellFormed(b) && Equal(a, b) {
      EqualIsConsistent(a, b);
    }
  }

  lemma {:induction false} FoundIff(ms: seq<Member>, ns: seq<Member>)
    requires (forall m | m in ms :: WellFormed(m.value)) && forall n | n in ns :: WellFormed(n.value)
    ensures MembersFound(ms, ns) <==> forall i | 0 <= i < |ms| :: Found(ms[i], ns)
    decreases ms
  {
    hide Found, WellFormed;
    if ms != [] {
      FoundIff(ms[1..], ns);
      assert ms == [ms[0]] + ms[1..];
    }
  }

  lemma ConsistentEqualsItself(a: Value)
    requires WellFormed(a) && a.Object? && (forall m | m in a.members :: UniqueNames(m.value)) && Consistent(a.members)
    ensures Equal(a, a)
  {
    hide UniqueNames;
    var ms := a.members;
    forall i | 0 <= i < |ms| ensures Found(ms[i], ms) {
      var k := FindMember(ms, ms[i].name).value;
      var x, y := ms[i].value, ms[k].value;
      EqualityIsEquivalence(x, y, x);
      EqualityIsEquivalence(y, x, y);
      if k < i {
        assert Equal(y, x);
      }
    }
    FoundIff(ms, ms);
  }

  lemma EqualIsConsistent(a: Value, b: Value)
    requires WellFormed(a) && a.Object? && (forall m | m in a.members :: UniqueNames(m.value))
    requires WellFormed(b) && Equal(a, b)
    ensures Consistent(a.members)
  {
    hide UniqueNames, FindMember;
    var ms, ns := a.members, b.members;
    FoundIff(ms, ns);
    forall i, j | 0 <= i < j < |ms| && ms[i].name == ms[j].name ensures Equal(ms[i].value, ms[j].value) {
      assert Found(ms[i], ns) && Found(ms[j], ns);
      var z := ns[FindMember(ns, ms[i].name).value].value;
      SameAsThird(ms[i].value, ms[j].value, z);
    }
  }

  lemma SameAsThird(x: Value, y: Value, z: Value)
    requires WellFormed(x) && WellFormed(y) && WellFormed(z) && UniqueNames(x) && UniqueNames(y)
    requires Equal(x, z) && Equal(y, z)
    ensures Equal(x, y)
  {
    hide Equal, Alike, WellFormed, UniqueNames;
    EqualIsAlike(x, z);
    EqualIsAlike(y, z);
    AlikeSymmetric(ByPattern, y, z);
    AlikeTransitive(ByPattern, x, z, y);
    AlikeIsEqual(x, y);
  }

  /** Every name of the one occurs in the other. */
  predicate NamesIn(ns: seq<Member>, ms: seq<Member>) {
    forall n | n in ns :: FindMember(ms, n.name).Some?
  }

  /**
   An equality of objects holds the other way round exactly when the right one's members of the same name are equal
   and none of its names is missing on the left.
   */
  lemma SymmetryIff(a: Value, b: Value)
    requires WellFormed(a) && WellFormed(b) && a.Object? && b.Object? && Equal(a, b)
    requires (forall m | m in a.members :: UniqueNames(m.value)) && forall n | n in b.members :: UniqueNames(n.value)
    ensures Equal(b, a) <==> Consistent(b.members) && NamesIn(b.members, a.members)
  {
    hide UniqueNames, FindMember;
    var ms, ns := a.members, b.members;
    FoundIff(ns, ms);
    FoundIff(ms, ns);
    if Equal(b, a) {
      EqualIsConsistent(b, a);
      forall n | n in ns ensures FindMember(ms, n.name).Some? {
        var i :| 0 <= i < |ns| && ns[i] == n;
        assert Found(ns[i], ms);
      }
    }
    if Consistent(ns) && NamesIn(ns, ms) {
      forall i | 0 <= i < |ns| ensures Found(ns[i], ms) {
        assert ns[i] in ns;
        var k := FindMember(ms, ns[i].name).value;
        assert Found(ms[k], ns);
        var j := FindMember(ns, ns[i].name).value;
        SameWayBack(ns[i].value, ms[k].value, ns[j].value);
      }
    }
  }

  /** `y` equals `z`, and so does `x` in the one order or the other: then `x` equals `y`. */
  lemma SameWayBack(x: Value, y: Value, z: Value)
    requires WellFormed(x) && WellFormed(y) && WellFormed(z) && UniqueNames(x) && UniqueNames(y) && UniqueNames(z)
    requires Equal(y, z) && (x == z || Equal(x, z) || Equal(z, x))
    ensures Equal(x, y)
  {
    hide Equal, WellFormed, UniqueNames;
    EqualityIsEquivalence(y, z, x);
    EqualityIsEquivalence(z, x, y);
    EqualityIsEquivalence(x, z, y);
  }

  /** Equality is by pattern: -1 equals 2^64 - 1. And with repeated names it need not be symmetric. */
  lemma EqualitySurprises()
    ensures Equal(Integer(-1), Integer(TWO_64 - 1)) && Integer(-1) != Integer(TWO_64 - 1)
    ensures
      var one := Integer(1);
      var a, b := Object([Member([LOWER_A], one), Member([LOWER_A], one)]), Object([Member([LOWER_A], one), Member([LOWER_B], one)]);
      WellFormed(a) && WellFormed(b) && Equal(a, b) && !Equal(b, a)
  {
    var one := Integer(1);
    var x, y := Member([LOWER_A], one), Member([LOWER_B], one);
    var a, b := Object([x, x]), Object([x, y]);
    assert IsInteger(one) && WellFormed(one);
    FoundIff(a.members, b.members);
    FoundIff(b.members, a.members);
    assert FindMember(b.members, [LOWER_A]) == Some(0) && FindMember(a.members, [LOWER_A]) == Some(0);
    assert FindMember(a.members, [LOWER_B]).None?;
    assert b.members[1] == y && !Found(y, a.members);
  }
}
