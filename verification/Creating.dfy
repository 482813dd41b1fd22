/** What creating a value leaves as it was: how a value makes room for one more, and all that is reached another way. */
module Creating {
  import opened Text
  import opened Dom
  import opened Pointers
  import opened Positions
  import opened Resolving

  /** The elements of an array and, of any other value, none. */
  function ElementsOf(v: Value): seq<Value> {
    if v.Array? then v.elements else []
  }

  predicate IsDash(name: seq<Byte>) {
    name == ['-' as int]
  }

  /** `r` has the elements of `v` first, then nulls, and `n` elements in all. */
  predicate Padded(v: Value, r: Value, n: nat) {
    && r.Array? && |r.elements| == n && ElementsOf(v) <= r.elements
    && forall j | |ElementsOf(v)| <= j < n :: r.elements[j] == Value.Null
  }

  predicate IsFirst(ms: seq<Member>, k: nat, name: seq<Byte>) {
    k < |ms| && ms[k].name == name && forall j | 0 <= j < k :: ms[j].name != name
  }

  /** `r` has the members of `v` first, then, if no member was called `name`, a null of that name; the child is at `k`. */
  predicate Named(ms: seq<Member>, r: Value, name: seq<Byte>, k: nat) {
    && r.Object? && ms <= r.members && IsFirst(r.members, k, name)
    && |r.members| == (if k < |ms| then |ms| else |ms| + 1)
    && (k == |ms| ==> r.members[k].value == Value.Null)
  }

  /**
   `r` is the value `v` once the token has a child in it, which is at `k`. A dash appends to an array. A token that is no
   index makes an object of anything else, an index an array of anything that is neither. An array grows just as far
   as the index, and an object by one member.
   */
  predicate Grows(v: Value, t: Token, r: Value, k: nat) {
    if v.Array? && IsDash(t.name) then Padded(v, r, |v.elements| + 1) && k == |v.elements|
    else if v.Object? then Named(v.members, r, t.name, k)
    else if t.index == INVALID_INDEX then Named([], r, t.name, k)
    else Padded(v, r, if t.index < |ElementsOf(v)| then |ElementsOf(v)| else t.index + 1) && k == t.index
  }

  /** Creation makes room for the first token's child, and goes on in it. */
  lemma CreateStep(v: Value, tokens: seq<Token>, i: nat) returns (r: Value, k: nat)
    requires i < |tokens|
    ensures Grows(v, tokens[i], r, k) && if r.Array? then k < |r.elements| else r.Object? && k < |r.members|
    ensures Create(v, tokens, i).tree == WithChild(r, k, Create(ChildAt(r, k), tokens, i + 1).tree)
    ensures !Appends(v, tokens[i]) ==> Child(r, tokens[i]) == Some(k)
  {
    var t := tokens[i];
    if Appends(v, t) {
      r, k := Array(v.elements + [Value.Null]), |v.elements|;
    } else {
      r := WithRoom(Container(v, t), t);
      k := Child(r, t).value;
    }
  }

  /** The token makes an object of an array: what the array held is lost. */
  predicate ChangesType(v: Value, t: Token) {
    v.Array? && t.index == INVALID_INDEX && !IsDash(t.name)
  }

  /**
   `us`, which leads somewhere in `v`, leaves the way of `tokens` before it ends and before a value there changes type,
   or goes on where `tokens` ends.
   */
  predicate Spared(v: Value, tokens: seq<Token>, us: seq<Token>, i: nat)
    requires i <= |tokens| && i <= |us| && GetFrom(v, us, i).Found?
    decreases |tokens| - i
  {
    || i == |tokens|
    || (&& i < |us| && !ChangesType(v, tokens[i])
        && (Child(v, us[i]) == Child(v, tokens[i]) ==> Spared(ChildAt(v, Child(v, us[i]).value), tokens, us, i + 1)))
  }

  /** The children that were there stay where they were, and a token that named one names it still. */
  lemma GrownKeeps(v: Value, t: Token, r: Value, k: nat, u: Token)
    requires Grows(v, t, r, k) && !ChangesType(v, t) && Child(v, u).Some?
    ensures Child(r, u) == Child(v, u) && ChildAt(r, Child(r, u).value) == ChildAt(v, Child(v, u).value)
  {
    if v.Object? {
      FindInPrefix(v.members, r.members, u.name);
    }
  }

  lemma {:induction false} FindInPrefix(ms: seq<Member>, ns: seq<Member>, name: seq<Byte>)
    requires ms <= ns && FindMember(ms, name).Some?
    ensures FindMember(ns, name) == FindMember(ms, name)
  {
    if ms[0].name != name {
      FindInPrefix(ms[1..], ns[1..], name);
    }
  }

  /** Creation keeps everything that its tokens do not name and no change of type takes away. */
  lemma {:induction false} CreateKeeps(v: Value, tokens: seq<Token>, us: seq<Token>, i: nat)
    requires i <= |tokens| && i <= |us| && DashIsNoIndex(tokens)
    requires GetFrom(v, us, i).Found? && Spared(v, tokens, us, i)
    ensures GetFrom(Create(v, tokens, i).tree, us, i) == GetFrom(v, us, i)
    decreases |tokens| - i
  {
    if i < |tokens| {
      hide Create, Grows;
      var r, k := CreateStep(v, tokens, i);
      GrownKeeps(v, tokens[i], r, k, us[i]);
      KeptBeside(v, tokens, us, i, r, k);
    }
  }

  lemma {:induction false} KeptBeside(v: Value, tokens: seq<Token>, us: seq<Token>, i: nat, r: Value, k: nat)
    requires i < |tokens| && i < |us| && DashIsNoIndex(tokens)
    requires GetFrom(v, us, i).Found? && Spared(v, tokens, us, i)
    requires Grows(v, tokens[i], r, k) && if r.Array? then k < |r.elements| else r.Object? && k < |r.members|
    requires Child(r, us[i]) == Child(v, us[i]) && ChildAt(r, Child(r, us[i]).value) == ChildAt(v, Child(v, us[i]).value)
    requires !Appends(v, tokens[i]) ==> Child(r, tokens[i]) == Some(k)
    ensures GetFrom(WithChild(r, k, Create(ChildAt(r, k), tokens, i + 1).tree), us, i) == GetFrom(v, us, i)
    decreases |tokens| - i, 0
  {
    var j := Child(v, us[i]).value;
    var inner := Create(ChildAt(r, k), tokens, i + 1).tree;
    if r.Object? {
      FindMemberKept(r.members, us[i].name, k, inner);
    }
    if j == k {
      CreateKeeps(ChildAt(v, j), tokens, us, i + 1);
    }
  }
}
