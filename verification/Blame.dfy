/** The pointer a failed validation reports is well-formed, and names the value that is to blame. */
module Blame {
  import opened Text
  import Sax
  import opened Dom
  import opened Hashes
  import opened Likeness
  import opened Schemas
  import opened Offenders
  import opened Streaming
  import opened Positions
  import opened Printer
  import Validation
  import Pointers
  import Resolving
  import TreeEditing

  // ------------------------------------------------------- Paths are pointers

  lemma {:induction false} EscapedAsWritten(name: seq<Byte>)
    ensures Pointers.WriteName(false, name, 0) == Some(Validation.EscapeToken(name))
    decreases name
  {
    if name != [] {
      EscapedAsWritten(name[1..]);
      Pointers.WriteShift(name, 1);
    }
  }

  function TokensOf(path: Path): (r: seq<Pointers.Token>)
    ensures |r| == |path| && forall k | 0 <= k < |path| :: r[k] == Pointers.Token(path[k], Pointers.IndexOf(path[k]))
  {
    seq(|path|, k requires 0 <= k < |path| => Pointers.Token(path[k], Pointers.IndexOf(path[k])))
  }

  lemma {:induction false} PathAsWritten(path: Path)
    ensures Pointers.WriteTokens(false, TokensOf(path)) == Some(PathText(path))
    decreases path
  {
    hide Pointers.WriteName, Validation.EscapeToken, Pointers.IndexOf;
    if path == [] {
    } else {
      EscapedAsWritten(path[0]);
      PathAsWritten(path[1..]);
      assert TokensOf(path)[1..] == TokensOf(path[1..]);
    }
  }

  /** The path buffer always parses, to the names it was made of. */
  lemma PathParses(path: Path)
    ensures Pointers.ParsePointer(PathText(path)) == Pointers.Done(|PathText(path)|, TokensOf(path))
  {
    hide Pointers.ParsePointer, PathText, Pointers.IndexOf;
    PathAsWritten(path);
    Pointers.StringifyParses(false, TokensOf(path));
    assert Pointers.Reindexed(TokensOf(path)) == TokensOf(path);
  }

  // ------------------------------------------------- The value to blame

  predicate HasChild(v: Value, k: nat) {
    (v.Array? && k < |v.elements|) || (v.Object? && k < |v.members|)
  }

  /** The schema a child must meet; None when it may not be there. */
  function ChildSchema(s: Schema, v: Value, k: nat): Option<Schema>
    requires HasChild(v, k)
  {
    if v.Array? then ItemSchema(s, k) else MemberSchema(s, v.members[k].name)
  }

  predicate RepeatsEarlier(s: Schema, v: Value, k: nat)
    requires HasChild(v, k)
  {
    v.Array? && s.uniqueItems && exists j | 0 <= j < k :: HashOf(v.elements[j]) == HashOf(v.elements[k])
  }

  /** The child may be there, is accepted, and repeats none before it. */
  predicate ChildFine(s: Schema, v: Value, k: nat)
    requires HasChild(v, k)
  {
    && ChildSchema(s, v, k).Some? && Accepts(ChildSchema(s, v, k).value, ChildAt(v, k))
    && !RepeatsEarlier(s, v, k)
  }

  predicate ChildrenFine(s: Schema, v: Value, n: nat)
    requires forall k | 0 <= k < n :: HasChild(v, k)
  {
    forall k | 0 <= k < n :: ChildFine(s, v, k)
  }

  function ChildCount(v: Value): (n: nat)
    ensures forall k: nat :: k < n <==> HasChild(v, k)
  {
    match v
    case Array(es) => |es|
    case Object(ms) => |ms|
    case _ => 0
  }

  /**
   The value at `position` is itself at fault, and everything before it in document order is in order: its type or
   bounds are wrong; or all inside it is fine and what is asked at its end is not met; or it may not be there; or it
   is accepted and repeats an earlier element.
   */
  predicate Culprit(s: Schema, v: Value, position: seq<nat>)
    requires HasPosition(v, position)
    decreases position
  {
    if position == [] then
      !Admissible(s, v) || (ChildrenFine(s, v, ChildCount(v)) && !(EndAccepted(s, v) && CombinationAccepted(s, v)))
    else
      var k := position[0];
      && Admissible(s, v) && ChildrenFine(s, v, k)
      && match ChildSchema(s, v, k)
         case None => |position| == 1
         case Some(t) =>
           Culprit(t, ChildAt(v, k), position[1..]) ||
           (|position| == 1 && Accepts(t, ChildAt(v, k)) && RepeatsEarlier(s, v, k))
  }

  lemma FineIff(s: Schema, v: Value)
    ensures ChildrenFine(s, v, ChildCount(v)) <==>
            (v.Array? ==> ElementsAccepted(s, v.elements)) && (v.Object? ==> MembersAccepted(s, v.members))
  {
    hide Accepts, HashOf, ItemSchema, MemberSchema;
    if v.Array? {
      if ChildrenFine(s, v, ChildCount(v)) {
        forall i | 0 <= i < |v.elements| ensures ItemAccepted(s, i, v.elements[i]) {
          assert ChildFine(s, v, i);
        }
        forall i, j | s.uniqueItems && 0 <= i < j < |v.elements| ensures HashOf(v.elements[i]) != HashOf(v.elements[j]) {
          assert ChildFine(s, v, j);
        }
      }
      if ElementsAccepted(s, v.elements) {
        forall k | 0 <= k < ChildCount(v) ensures ChildFine(s, v, k) {
          assert ItemAccepted(s, k, v.elements[k]);
        }
      }
    } else if v.Object? {
      if ChildrenFine(s, v, ChildCount(v)) {
        forall i | 0 <= i < |v.members|
          ensures MemberSchema(s, v.members[i].name).Some? && Accepts(MemberSchema(s, v.members[i].name).value, v.members[i].value)
        {
          assert ChildFine(s, v, i);
        }
      }
    }
  }

  /** A value is accepted when its children are fine and it is not at fault itself. */
  lemma AcceptsIff(s: Schema, v: Value)
    ensures Accepts(s, v) <==>
            Admissible(s, v) && ChildrenFine(s, v, ChildCount(v)) && EndAccepted(s, v) && CombinationAccepted(s, v)
  {
    hide Accepts, Admissible, EndAccepted, CombinationAccepted, ElementsAccepted, MembersAccepted, ChildrenFine;
    AcceptsParts(s, v);
    FineIff(s, v);
  }

  lemma {:induction false} CulpritRejected(s: Schema, v: Value, position: seq<nat>)
    requires HasPosition(v, position) && Culprit(s, v, position)
    ensures !Accepts(s, v)
    decreases position
  {
    hide Accepts, Admissible, EndAccepted, CombinationAccepted, RepeatsEarlier, ChildSchema;
    AcceptsIff(s, v);
    if position != [] {
      var k := position[0];
      assert HasChild(v, k);
      if ChildSchema(s, v, k).Some? && Culprit(ChildSchema(s, v, k).value, ChildAt(v, k), position[1..]) {
        CulpritRejected(ChildSchema(s, v, k).value, ChildAt(v, k), position[1..]);
      }
      assert !ChildFine(s, v, k);
    }
  }

  /** No more than one value is to blame. */
  lemma {:induction false} OneCulprit(s: Schema, v: Value, p: seq<nat>, q: seq<nat>)
    requires HasPosition(v, p) && Culprit(s, v, p) && HasPosition(v, q) && Culprit(s, v, q)
    ensures p == q
    decreases p
  {
    hide Accepts, Admissible, EndAccepted, CombinationAccepted, RepeatsEarlier, ChildSchema;
    if p != [] {
      ChildNotFine(s, v, p);
    }
    if q != [] {
      ChildNotFine(s, v, q);
    }
    if p != [] && q != [] {
      var k := p[0];
      assert q[0] == k;
      if ChildSchema(s, v, k).Some? {
        var t := ChildSchema(s, v, k).value;
        if Culprit(t, ChildAt(v, k), p[1..]) {
          CulpritRejected(t, ChildAt(v, k), p[1..]);
        }
        if Culprit(t, ChildAt(v, k), q[1..]) {
          CulpritRejected(t, ChildAt(v, k), q[1..]);
        }
        if Culprit(t, ChildAt(v, k), p[1..]) && Culprit(t, ChildAt(v, k), q[1..]) {
          OneCulprit(t, ChildAt(v, k), p[1..], q[1..]);
        }
      }
      assert p == [k] + p[1..] && q == [k] + q[1..];
    }
  }

  lemma ChildNotFine(s: Schema, v: Value, position: seq<nat>)
    requires HasPosition(v, position) && position != [] && Culprit(s, v, position)
    ensures HasChild(v, position[0]) && position[0] < ChildCount(v) && !ChildFine(s, v, position[0])
  {
    hide Accepts, Admissible, EndAccepted, CombinationAccepted, RepeatsEarlier, ChildSchema, ChildrenFine;
    var k := position[0];
    assert HasChild(v, k);
    if ChildSchema(s, v, k).Some? && Culprit(ChildSchema(s, v, k).value, ChildAt(v, k), position[1..]) {
      CulpritRejected(ChildSchema(s, v, k).value, ChildAt(v, k), position[1..]);
    }
  }

  /** The path to the offender is the path to the culprit. */
  lemma {:induction false} OffenderPosition(s: Schema, v: Value) returns (position: seq<nat>)
    requires Offender(s, v).Some?
    ensures HasPosition(v, position) && PathTo(v, position) == Offender(s, v).value && Culprit(s, v, position)
    decreases v
  {
    hide Offender, Accepts, ElementsOffender, MembersOffender, EndAccepted, CombinationAccepted, Admissible, ElementsAccepted,
         MembersAccepted, EndsWell, Combined;
    OffenderIs(s, v);
    Offenders.EndsIff(s, v);
    CombinedIff(s, v);
    if v.Array? && Admissible(s, v) {
      assert v.elements[0..] == v.elements;
      ElementsIff(s, v.elements, 0, []);
      FromStart(s, v.elements);
    } else if v.Object? && Admissible(s, v) {
      assert v.members[0..] == v.members;
      MembersIff(s, v.members);
    }
    if v.Array? && ElementsOffender(s, v.elements, 0, []).Some? && Admissible(s, v) {
      position := ElementPosition(s, v, 0, []);
    } else if v.Object? && MembersOffender(s, v.members).Some? && Admissible(s, v) {
      position := MemberPosition(s, v, 0);
    } else {
      FineIff(s, v);
      position := [];
    }
  }

  lemma {:induction false} ElementPosition(s: Schema, v: Value, index: nat, hashes: seq<Hash>) returns (position: seq<nat>)
    requires v.Array? && index <= |v.elements| && ElementsOffender(s, v.elements[index..], index, hashes).Some?
    requires Admissible(s, v) && ChildrenFine(s, v, index)
    requires s.uniqueItems ==> |hashes| == index && forall j | 0 <= j < index :: hashes[j] == HashOf(v.elements[j])
    ensures HasPosition(v, position)
    ensures PathTo(v, position) == ElementsOffender(s, v.elements[index..], index, hashes).value && Culprit(s, v, position)
    decreases v.elements, |v.elements| - index
  {
    hide Offender, Accepts, HashOf, ItemSchema, Decimal, Admissible, EndAccepted, CombinationAccepted;
    var e := v.elements[index];
    assert v.elements[index..][0] == e && v.elements[index..][1..] == v.elements[index + 1..];
    position := [index];
    assert position[1..] == [];
    assert s.uniqueItems ==> (RepeatsEarlier(s, v, index) <==> HashOf(e) in hashes) by {
      if s.uniqueItems && HashOf(e) in hashes {
        var j :| 0 <= j < |hashes| && hashes[j] == HashOf(e);
        assert HashOf(v.elements[j]) == HashOf(v.elements[index]);
      }
    }
    if ItemSchema(s, index).Some? {
      var t := ItemSchema(s, index).value;
      OffenderIff(t, e);
      if Offender(t, e).Some? {
        var rest := OffenderPosition(t, e);
        position := [index] + rest;
        assert position[1..] == rest;
      } else if !(s.uniqueItems && HashOf(e) in hashes) {
        assert ChildFine(s, v, index);
        position := ElementPosition(s, v, index + 1, if s.uniqueItems then hashes + [HashOf(e)] else hashes);
      }
    }
  }

  lemma {:induction false} MemberPosition(s: Schema, v: Value, index: nat) returns (position: seq<nat>)
    requires v.Object? && index <= |v.members| && MembersOffender(s, v.members[index..]).Some?
    requires Admissible(s, v) && ChildrenFine(s, v, index)
    ensures HasPosition(v, position)
    ensures PathTo(v, position) == MembersOffender(s, v.members[index..]).value && Culprit(s, v, position)
    decreases v.members, |v.members| - index
  {
    hide Offender, Accepts, MemberSchema, Admissible, EndAccepted, CombinationAccepted;
    var m := v.members[index];
    assert v.members[index..][0] == m && v.members[index..][1..] == v.members[index + 1..];
    position := [index];
    assert position[1..] == [];
    if MemberSchema(s, m.name).Some? {
      var t := MemberSchema(s, m.name).value;
      OffenderIff(t, m.value);
      if Offender(t, m.value).Some? {
        var rest := OffenderPosition(t, m.value);
        position := [index] + rest;
        assert position[1..] == rest;
      } else {
        assert ChildFine(s, v, index);
        position := MemberPosition(s, v, index + 1);
      }
    }
  }

  // -------------------------------------------------------------- Resolution

  /** Every member on the way is the first of its name, and every index can be written in a pointer. */
  predicate FirstNames(v: Value, position: seq<nat>)
    requires HasPosition(v, position)
    decreases position
  {
    position == [] ||
    (&& FirstNames(ChildAt(v, position[0]), position[1..])
     && (v.Array? ==> position[0] < Pointers.INVALID_INDEX)
     && (v.Object? ==> forall j | 0 <= j < position[0] :: v.members[j].name != v.members[position[0]].name))
  }

  lemma {:induction false} DecimalWrites(n: nat)
    ensures Pointers.Digits(Decimal(n)) && Pointers.Value(Decimal(n)) == n && Pointers.WritesIndex(Decimal(n))
    ensures Decimal(n)[0] == DIGIT_0 ==> n == 0
  {
    var s := Decimal(n);
    if n >= 10 {
      DecimalWrites(n / 10);
      assert s[..|s| - 1] == Decimal(n / 10);
    } else {
      assert s[..0] == [] && Pointers.Value([]) == 0;
    }
  }

  /** An index token names the element it was made for exactly when there are 32 bits for it. */
  lemma DecimalIndex(n: nat)
    ensures n < Pointers.INVALID_INDEX ==> Pointers.IndexOf(Decimal(n)) == n
    ensures n >= Pointers.INVALID_INDEX ==> Pointers.IndexOf(Decimal(n)) == Pointers.INVALID_INDEX || Pointers.IndexOf(Decimal(n)) < n
  {
    hide Pointers.Value, Pointers.IndexOf, Decimal;
    DecimalWrites(n);
    Pointers.IndexIsValue(Decimal(n));
    Pointers.IndexBounded(Decimal(n));
  }

  /** The path to a position, as a pointer, leads there exactly when every member on the way is the first of its name. */
  lemma {:induction false} PositionResolves(v: Value, position: seq<nat>, tokens: seq<Pointers.Token>, i: nat)
    requires HasPosition(v, position) && i <= |tokens| && tokens[i..] == TokensOf(PathTo(v, position))
    ensures TreeEditing.Leads(v, tokens, i, position) <==> FirstNames(v, position)
    decreases position
  {
    hide Decimal, Pointers.IndexOf, Resolving.FindMember;
    if position != [] {
      var k, path := position[0], PathTo(v, position);
      assert tokens[i] == tokens[i..][0] && tokens[i + 1..] == tokens[i..][1..];
      assert path[1..] == PathTo(ChildAt(v, k), position[1..]);
      assert tokens[i + 1..] == TokensOf(path[1..]);
      PositionResolves(ChildAt(v, k), position[1..], tokens, i + 1);
      if v.Array? {
        DecimalIndex(k);
      } else {
        FirstIsFound(v.members, k);
      }
    }
  }

  lemma FirstIsFound(ms: seq<Member>, k: nat)
    requires k < |ms|
    ensures Resolving.FindMember(ms, ms[k].name) == Some(k) <==> forall j | 0 <= j < k :: ms[j].name != ms[k].name
  {}

  lemma {:induction false} PathLength(v: Value, position: seq<nat>)
    requires HasPosition(v, position)
    ensures |PathTo(v, position)| == |position|
    decreases position
  {
    hide Decimal;
    if position != [] {
      PathLength(ChildAt(v, position[0]), position[1..]);
    }
  }

  /**
   When validation fails, the pointer it reports parses, and it is the path to the one value to blame: the value that
   is itself at fault with everything before it in order. It leads there exactly when every member on the way is the
   first of its name.
   */
  lemma {:induction false} FailureNamesCulprit(root: Schema, origin: Origin, v: Value) returns (position: seq<nat>)
    requires WellFormed(v) && !Accepts(root, v)
    ensures HasPosition(v, position) && Culprit(root, v, position)
    ensures forall q | HasPosition(v, q) && Culprit(root, v, q) :: q == position
    ensures
      var r, tokens := Validation.Run(Validation.Init(root), Events(origin, v)), TokensOf(PathTo(v, position));
      && Pointers.ParsePointer(r.doc) == Pointers.Done(|r.doc|, tokens)
      && (TreeEditing.Leads(v, tokens, 0, position) <==> FirstNames(v, position))
      && (FirstNames(v, position) ==> Resolving.Get(v, tokens) == Resolving.Found(ValueAt(v, position)))
  {
    hide Validation.Run, Accepts, Offender, Culprit, PathTo, HasPosition, Events, Pointers.ParsePointer, FirstNames;
    ValidatorAccepts(root, origin, v);
    position := OffenderPosition(root, v);
    var path := PathTo(v, position);
    PathParses(path);
    PathLength(v, position);
    assert TokensOf(path)[0..] == TokensOf(path);
    PositionResolves(v, position, TokensOf(path), 0);
    if FirstNames(v, position) {
      TreeEditing.LeadsGet(v, TokensOf(path), 0, position);
    }
    forall q | HasPosition(v, q) && Culprit(root, v, q) ensures q == position {
      OneCulprit(root, v, q, position);
    }
  }

  /** Of two members of one name the second is to blame, and the pointer to it leads to the first. */
  lemma SecondOfItsName()
    ensures
      var s := TYPELESS.(additionalPropertiesSchema := Some(TYPELESS.(types := {NullKind})));
      var v := Object([Member([LOWER_A], Value.Null), Member([LOWER_A], Value.Bool(true))]);
      && WellFormed(v) && !Accepts(s, v) && HasPosition(v, [1]) && Culprit(s, v, [1])
      && Resolving.Get(v, TokensOf(PathTo(v, [1]))) == Resolving.Found(Value.Null)
  {
    var s := TYPELESS.(additionalPropertiesSchema := Some(TYPELESS.(types := {NullKind})));
    var first, second := Member([LOWER_A], Value.Null), Member([LOWER_A], Value.Bool(true));
    var v := Object([first, second]);
    assert [1 as nat][1..] == [];
    AllNull(v);
    CulpritRejected(s, v, [1]);
    var tokens := TokensOf(PathTo(v, [1]));
    assert PathTo(v, [1]) == [[LOWER_A]];
    assert tokens[0].name == [LOWER_A] && |tokens| == 1;
    hide Culprit, Accepts;
    assert Resolving.Child(v, tokens[0]) == Some(0);
    assert Resolving.GetFrom(Value.Null, tokens, 1) == Resolving.Found(Value.Null);
  }

  /** With every member to be null, the second of two is the first that is not. */
  lemma AllNull(v: Value)
    requires v.Object? && |v.members| == 2 && v.members[0].value.Null? && v.members[1].value.Bool?
    ensures HasPosition(v, [1]) && Culprit(TYPELESS.(additionalPropertiesSchema := Some(TYPELESS.(types := {NullKind}))), v, [1])
  {
    var t := TYPELESS.(types := {NullKind});
    var s := TYPELESS.(additionalPropertiesSchema := Some(t));
    assert [1 as nat][1..] == [];
    assert Accepts(t, Value.Null) && !Admissible(t, v.members[1].value);
    hide Accepts, EndAccepted, CombinationAccepted, RepeatsEarlier;
    assert forall name :: MemberSchema(s, name) == Some(t);
    assert ChildFine(s, v, 0) by { assert !RepeatsEarlier(s, v, 0); }
    assert Culprit(t, v.members[1].value, []);
  }
}
