/** What a pointer's tokens do to a value: find a value in it, create one, erase one. */
module Resolving {
  import opened Text
  import opened Dom
  import opened Pointers
  import opened Likeness
  import opened Positions

  const DASH: seq<Byte> := [MINUS]

  /** Index of the first member of that name. */
  function FindMember(ms: seq<Member>, name: seq<Byte>): (r: Option<nat>)
    ensures r.Some? ==> r.value < |ms| && ms[r.value].name == name
                        && forall k | 0 <= k < r.value :: ms[k].name != name
    ensures r.None? ==> forall k | 0 <= k < |ms| :: ms[k].name != name
    decreases ms
  {
    if ms == [] then None
    else if ms[0].name == name then Some(0)
    else
      match FindMember(ms[1..], name)
      case None => None
      case Some(k) => Some(k + 1)
  }

  /** The child of `v` a token names, if there is one. */
  function Child(v: Value, t: Token): (r: Option<nat>)
    ensures r.Some? && v.Array? ==> r.value < |v.elements|
    ensures r.Some? && v.Object? ==> r.value < |v.members|
    ensures r.Some? ==> v.Array? || v.Object?
  {
    match v
    case Object(ms) => FindMember(ms, t.name)
    case Array(es) => if t.index == INVALID_INDEX || t.index >= |es| then None else Some(t.index)
    case _ => None
  }

  /** The value the tokens lead to, or the index of the first token that leads nowhere. */
  datatype Resolution = Found(value: Value) | Unresolved(token: nat)

  function Get(v: Value, tokens: seq<Token>): Resolution {
    GetFrom(v, tokens, 0)
  }

  function GetFrom(v: Value, tokens: seq<Token>, i: nat): Resolution
    requires i <= |tokens|
    decreases |tokens| - i
  {
    if i == |tokens| then Found(v)
    else if Child(v, tokens[i]).None? then Unresolved(i)
    else GetFrom(ChildAt(v, Child(v, tokens[i]).value), tokens, i + 1)
  }

  /** The tree, whether every value on the way was there, and whether a `-` was appended to an array. */
  datatype Created = Created(tree: Value, exist: bool, appended: bool)

  predicate Appends(v: Value, t: Token) {
    v.Array? && t.name == DASH
  }

  /** `v`, or the empty container it is changed to when a token cannot name anything in it. */
  function Container(v: Value, t: Token): (c: Value)
    ensures c.Array? || c.Object?
    ensures t.index == INVALID_INDEX ==> c.Object?
  {
    if t.index == INVALID_INDEX then if v.Object? then v else Object([])
    else if v.Array? || v.Object? then v
    else Array([])
  }

  function Nulls(n: nat): (s: seq<Value>)
    ensures |s| == n && forall k | 0 <= k < n :: s[k] == Value.Null
  {
    seq(n, i => Value.Null)
  }

  /** The container with the child the token names in it, made null if it was not there. */
  function WithRoom(c: Value, t: Token): (r: Value)
    requires (c.Array? && t.index != INVALID_INDEX) || c.Object?
    ensures Child(r, t).Some? && (r.Array? <==> c.Array?)
  {
    if c.Array? then
      if t.index < |c.elements| then c else Array(c.elements + Nulls(t.index + 1 - |c.elements|))
    else
      match FindMember(c.members, t.name)
      case Some(_) => c
      case None =>
        var ms := c.members + [Member(t.name, Value.Null)];
        assert FindMember(ms, t.name).Some? by {
          assert ms[|c.members|].name == t.name;
        }
        Object(ms)
  }

  function Create(v: Value, tokens: seq<Token>, i: nat): Created
    requires i <= |tokens|
    decreases |tokens| - i
  {
    if i == |tokens| then Created(v, true, false)
    else if Appends(v, tokens[i]) then
      var inner := Create(Value.Null, tokens, i + 1);
      Created(Array(v.elements + [inner.tree]), false, true)
    else
      var c := Container(v, tokens[i]);
      var r := WithRoom(c, tokens[i]);
      var k := Child(r, tokens[i]).value;
      var inner := Create(ChildAt(r, k), tokens, i + 1);
      Created(WithChild(r, k, inner.tree), Child(c, tokens[i]).Some? && inner.exist, inner.appended)
  }

  /** A `-` names no element: its index is invalid, as it is in every token that was read. */
  predicate DashIsNoIndex(tokens: seq<Token>) {
    forall k | 0 <= k < |tokens| && tokens[k].name == DASH :: tokens[k].index == INVALID_INDEX
  }

  lemma ReadTokensHaveNoDashIndex(tokens: seq<Token>)
    requires Reindexed(tokens) == tokens
    ensures DashIsNoIndex(tokens)
  {
    forall k | 0 <= k < |tokens| && tokens[k].name == DASH ensures tokens[k].index == INVALID_INDEX {
      assert tokens[k] == Reindexed(tokens)[k];
      assert !IsDigit(DASH[0]);
    }
  }

  /** Creating finds that the value was there exactly when it could be resolved, and then changes nothing. */
  lemma {:induction false} CreateExists(v: Value, tokens: seq<Token>, i: nat)
    requires i <= |tokens| && DashIsNoIndex(tokens)
    ensures Create(v, tokens, i).exist <==> GetFrom(v, tokens, i).Found?
    ensures Create(v, tokens, i).exist ==> Create(v, tokens, i).tree == v && !Create(v, tokens, i).appended
    decreases |tokens| - i
  {
    if i < |tokens| && !Appends(v, tokens[i]) {
      var r := WithRoom(Container(v, tokens[i]), tokens[i]);
      var k := Child(r, tokens[i]).value;
      CreateExists(ChildAt(r, k), tokens, i + 1);
      RoomNeeded(v, tokens[i]);
      if Create(v, tokens, i).exist {
        assert WithChild(v, k, ChildAt(v, k)) == v;
      }
    }
  }

  /** A value has room for a token's child exactly when it has that child. */
  lemma RoomNeeded(v: Value, t: Token)
    requires !Appends(v, t)
    ensures Child(Container(v, t), t).Some? <==> Child(v, t).Some?
    ensures Child(v, t).Some? ==> WithRoom(Container(v, t), t) == v
  {}

  lemma {:induction false} FindMemberKept(ms: seq<Member>, name: seq<Byte>, k: nat, x: Value)
    requires k < |ms|
    ensures FindMember(ms[k := Member(ms[k].name, x)], name) == FindMember(ms, name)
    decreases ms
  {
    var ns := ms[k := Member(ms[k].name, x)];
    if k > 0 {
      assert ns[1..] == ms[1..][k - 1 := Member(ms[k].name, x)];
      FindMemberKept(ms[1..], name, k - 1, x);
    } else {
      assert ns[1..] == ms[1..];
    }
  }

  lemma ChildReplaced(r: Value, t: Token, x: Value)
    requires Child(r, t).Some?
    ensures Child(WithChild(r, Child(r, t).value, x), t) == Child(r, t)
    ensures ChildAt(WithChild(r, Child(r, t).value, x), Child(r, t).value) == x
  {
    if r.Object? {
      FindMemberKept(r.members, t.name, Child(r, t).value, x);
    }
  }

  /** After a creation the tokens lead to its value exactly when no `-` was applied to an array. */
  lemma {:induction false} CreateThenGet(v: Value, tokens: seq<Token>, i: nat)
    requires i <= |tokens| && DashIsNoIndex(tokens)
    ensures
      var c := Create(v, tokens, i);
      GetFrom(c.tree, tokens, i) == if GetFrom(v, tokens, i).Found? then GetFrom(v, tokens, i)
                                    else if c.appended then GetFrom(c.tree, tokens, i)
                                    else Found(Value.Null)
    ensures GetFrom(Create(v, tokens, i).tree, tokens, i).Found? <==> !Create(v, tokens, i).appended
    decreases |tokens| - i
  {
    if i < |tokens| && !Appends(v, tokens[i]) {
      var r := WithRoom(Container(v, tokens[i]), tokens[i]);
      var k := Child(r, tokens[i]).value;
      CreateThenGet(ChildAt(r, k), tokens, i + 1);
      ChildReplaced(r, tokens[i], Create(ChildAt(r, k), tokens, i + 1).tree);
      RoomNeeded(v, tokens[i]);
    }
  }

  // ------------------------------------------------------------------ Erasing

  function WithoutChild(v: Value, k: nat): Value
    requires (v.Array? && k < |v.elements|) || (v.Object? && k < |v.members|)
  {
    if v.Array? then Array(Without(v.elements, k)) else Object(Without(v.members, k))
  }

  /** The tree without the value the tokens lead to, and whether there was one. The root cannot be erased. */
  function Erase(v: Value, tokens: seq<Token>, i: nat): (Value, bool)
    requires i <= |tokens|
    decreases |tokens| - i
  {
    if i == |tokens| || Child(v, tokens[i]).None? then (v, false)
    else
      var k := Child(v, tokens[i]).value;
      if i + 1 == |tokens| then (WithoutChild(v, k), true)
      else
        var (child, erased) := Erase(ChildAt(v, k), tokens, i + 1);
        (WithChild(v, k, child), erased)
  }

  /** The tree with the value the tokens lead to replaced. */
  function Replace(v: Value, tokens: seq<Token>, i: nat, x: Value): Value
    requires i <= |tokens| && GetFrom(v, tokens, i).Found?
    decreases |tokens| - i
  {
    if i == |tokens| then x
    else
      var k := Child(v, tokens[i]).value;
      WithChild(v, k, Replace(ChildAt(v, k), tokens, i + 1, x))
  }

  /**
   Erasing succeeds exactly on a value that can be resolved and is not the root; then its parent loses just that
   child, and otherwise nothing changes.
   */
  lemma {:induction false} EraseExactly(v: Value, tokens: seq<Token>, i: nat)
    requires i <= |tokens|
    ensures Erase(v, tokens, i).1 <==> i < |tokens| && GetFrom(v, tokens, i).Found?
    ensures !Erase(v, tokens, i).1 ==> Erase(v, tokens, i).0 == v
    ensures Erase(v, tokens, i).1 ==>
              var parent := tokens[..|tokens| - 1];
              && GetFrom(v, parent, i).Found?
              && Child(GetFrom(v, parent, i).value, tokens[|tokens| - 1]).Some?
              && Erase(v, tokens, i).0 ==
                 Replace(v, parent, i, WithoutChild(GetFrom(v, parent, i).value,
                                                    Child(GetFrom(v, parent, i).value, tokens[|tokens| - 1]).value))
    decreases |tokens| - i
  {
    if i + 1 < |tokens| && Child(v, tokens[i]).Some? {
      var k := Child(v, tokens[i]).value;
      EraseExactly(ChildAt(v, k), tokens, i + 1);
      assert WithChild(v, k, ChildAt(v, k)) == v;
    }
  }

  /** `us` goes another way than `tokens` at step `j`, which both reach. */
  predicate Diverge(v: Value, tokens: seq<Token>, us: seq<Token>, i: nat)
    requires i <= |tokens|
    decreases |tokens| - i
  {
    && i < |tokens| && i < |us| && Child(v, tokens[i]).Some? && Child(v, us[i]).Some?
    && (Child(v, tokens[i]) == Child(v, us[i]) ==> Diverge(ChildAt(v, Child(v, us[i]).value), tokens, us, i + 1))
  }

  /** Replacing a value changes nothing that is reached another way. */
  lemma {:induction false} ReplaceElsewhere(v: Value, tokens: seq<Token>, us: seq<Token>, i: nat, x: Value)
    requires i <= |tokens| && GetFrom(v, tokens, i).Found? && i <= |us| && Diverge(v, tokens, us, i)
    ensures GetFrom(Replace(v, tokens, i, x), us, i) == GetFrom(v, us, i)
    decreases |tokens| - i
  {
    var k, l := Child(v, tokens[i]).value, Child(v, us[i]).value;
    var inner := Replace(ChildAt(v, k), tokens, i + 1, x);
    if v.Object? {
      FindMemberKept(v.members, us[i].name, k, inner);
    }
    if k == l {
      ReplaceElsewhere(ChildAt(v, k), tokens, us, i + 1, x);
    }
  }

  /** The last token would name a new member, or the element after the last. */
  predicate AddsLast(p: Value, t: Token) {
    Child(p, t).None? && (p.Object? || (p.Array? && t.index == |p.elements| != INVALID_INDEX && t.name != DASH))
  }

  /** Erasing undoes a creation that added one value at the end of a container that was there. */
  lemma {:induction false} EraseUndoesCreate(v: Value, tokens: seq<Token>, i: nat)
    requires i < |tokens| && DashIsNoIndex(tokens)
    requires GetFrom(v, tokens[..|tokens| - 1], i).Found?
    requires AddsLast(GetFrom(v, tokens[..|tokens| - 1], i).value, tokens[|tokens| - 1])
    ensures Erase(Create(v, tokens, i).tree, tokens, i) == (v, true)
    decreases |tokens| - i
  {
    hide WithRoom, Container, FindMember;
    if i + 1 == |tokens| {
      AddThenDrop(v, tokens[i]);
    } else {
      var k := Child(v, tokens[i]).value;
      RoomNeeded(v, tokens[i]);
      EraseUndoesCreate(ChildAt(v, k), tokens, i + 1);
      ChildReplaced(v, tokens[i], Create(ChildAt(v, k), tokens, i + 1).tree);
      assert WithChild(WithChild(v, k, Create(ChildAt(v, k), tokens, i + 1).tree), k, ChildAt(v, k)) == v;
    }
  }

  lemma AddThenDrop(v: Value, t: Token)
    requires AddsLast(v, t)
    ensures
      var r := WithRoom(Container(v, t), t);
      && Child(r, t).Some? && ChildAt(r, Child(r, t).value) == Value.Null
      && WithChild(r, Child(r, t).value, Value.Null) == r
      && WithoutChild(r, Child(r, t).value) == v
  {
    var r := WithRoom(Container(v, t), t);
    if v.Array? {
      assert Without(r.elements, t.index) == v.elements;
    } else {
      FindAppended(v.members, t.name);
      assert Without(r.members, |v.members|) == v.members;
    }
  }

  lemma {:induction false} FindAppended(ms: seq<Member>, name: seq<Byte>)
    requires FindMember(ms, name).None?
    ensures FindMember(ms + [Member(name, Value.Null)], name) == Some(|ms|)
  {
    if ms != [] {
      assert (ms + [Member(name, Value.Null)])[1..] == ms[1..] + [Member(name, Value.Null)];
      FindAppended(ms[1..], name);
    }
  }
}
