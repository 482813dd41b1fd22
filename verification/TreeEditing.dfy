/**
 A tree that pointers find values in and change in place. Where the library holds a C++ pointer to a value of the
 tree, the loops below hold its position.
 */
module TreeEditing {
  import opened Text
  import opened Dom
  import opened Pointers
  import opened Likeness
  import opened Positions
  import opened Resolving
  import Equality

  /** From `v` on, the tokens from `i` on choose the children at the indices of `at`. */
  predicate Leads(v: Value, tokens: seq<Token>, i: nat, at: seq<nat>)
    decreases at
  {
    at == [] ||
    (i < |tokens| && Child(v, tokens[i]) == Some(at[0]) && Leads(ChildAt(v, at[0]), tokens, i + 1, at[1..]))
  }

  /** What is left to resolve is resolved from where the tokens have led. */
  lemma {:induction false} LeadsGet(v: Value, tokens: seq<Token>, i: nat, at: seq<nat>)
    requires i <= |tokens| && Leads(v, tokens, i, at)
    ensures HasPosition(v, at) && i + |at| <= |tokens|
    ensures GetFrom(v, tokens, i) == GetFrom(ValueAt(v, at), tokens, i + |at|)
    decreases at
  {
    if at != [] {
      LeadsGet(ChildAt(v, at[0]), tokens, i + 1, at[1..]);
    }
  }

  lemma {:induction false} LeadsOn(v: Value, tokens: seq<Token>, i: nat, at: seq<nat>, k: nat)
    requires Leads(v, tokens, i, at) && HasPosition(v, at)
    requires i + |at| < |tokens| && Child(ValueAt(v, at), tokens[i + |at|]) == Some(k)
    ensures Leads(v, tokens, i, at + [k])
    decreases at
  {
    if at == [] {
      assert at + [k] == [k] && [k][1..] == [];
    } else {
      LeadsOn(ChildAt(v, at[0]), tokens, i + 1, at[1..], k);
      assert (at + [k])[1..] == at[1..] + [k];
    }
  }

  /** Writing where the tokens lead does not change where they lead. */
  lemma {:induction false} LeadsPut(v: Value, tokens: seq<Token>, i: nat, at: seq<nat>, x: Value)
    requires Leads(v, tokens, i, at) && HasPosition(v, at)
    ensures Leads(Put(v, at, x), tokens, i, at)
    decreases at
  {
    if at != [] {
      var inner := Put(ChildAt(v, at[0]), at[1..], x);
      LeadsPut(ChildAt(v, at[0]), tokens, i + 1, at[1..], x);
      ChildReplaced(v, tokens[i], inner);
    }
  }

  /** The child of a value a token names, by index or by a search through the members. */
  method FindChild(v: Value, t: Token) returns (k: Option<nat>)
    ensures k == Child(v, t)
  {
    k := None;
    match v {
      case Object(ms) =>
        var j := Equality.Find(ms, t.name);
        if j < |ms| {
          k := Some(j);
        }
      case Array(es) =>
        if t.index != INVALID_INDEX && t.index < |es| {
          k := Some(t.index);
        }
      case _ =>
    }
  }

  class Tree {
    var root: Value

    constructor (v: Value)
      ensures root == v
    {
      root := v;
    }

    /** The place the tokens lead to, or the index of the first token that leads nowhere. */
    method Resolve(tokens: seq<Token>) returns (place: Option<seq<nat>>, unresolved: nat)
      ensures match Get(root, tokens)
              case Found(v) =>
                && place.Some? && |place.value| == |tokens| && Leads(root, tokens, 0, place.value)
                && HasPosition(root, place.value) && ValueAt(root, place.value) == v
              case Unresolved(i) => place.None? && unresolved == i
    {
      var at: seq<nat> := [];
      unresolved := 0;
      while unresolved < |tokens|
        invariant unresolved == |at| <= |tokens| && Leads(root, tokens, 0, at)
      {
        LeadsGet(root, tokens, 0, at);
        var k := FindChild(ValueAt(root, at), tokens[unresolved]);
        if k.None? {
          return None, unresolved;
        }
        LeadsOn(root, tokens, 0, at, k.value);
        at := at + [k.value];
        unresolved := unresolved + 1;
      }
      LeadsGet(root, tokens, 0, at);
      place := Some(at);
    }

    // ------------------------------------------------------------- Changing

    /** Assigns to the value at a place. */
    method Assign(at: seq<nat>, x: Value)
      requires HasPosition(root, at)
      modifies this
      ensures root == Put(old(root), at, x) && HasPosition(root, at) && ValueAt(root, at) == x
    {
      PutLaws(root, at, x, x);
      root := Put(root, at, x);
    }

    method PushBack(at: seq<nat>, x: Value)
      requires HasPosition(root, at) && ValueAt(root, at).Array?
      modifies this
      ensures HasPosition(root, at) && ValueAt(root, at) == Array(ValueAt(old(root), at).elements + [x])
      ensures root == Put(old(root), at, ValueAt(root, at))
    {
      Assign(at, Array(ValueAt(root, at).elements + [x]));
    }

    /** Makes the value at `at` one that has the child the token names; tells where, and if it was there. */
    method Grow(at: seq<nat>, t: Token) returns (k: nat, existed: bool)
      requires HasPosition(root, at)
      modifies this
      ensures Grown(old(root), root, at, t, k, existed)
    {
      if ValueAt(root, at).Array? && t.name == DASH {
        PushBack(at, Value.Null);
        k, existed := |ValueAt(root, at).elements| - 1, false;
      } else {
        k, existed := MakeRoom(at, t);
      }
    }

    /** The same for a token that is no `-` applied to an array. */
    method MakeRoom(at: seq<nat>, t: Token) returns (k: nat, existed: bool)
      requires HasPosition(root, at) && !Appends(ValueAt(root, at), t)
      modifies this
      ensures Grown(old(root), root, at, t, k, existed)
    {
      ghost var was := root;
      MakeContainer(at, t);
      ghost var c := ValueAt(root, at);
      PutLaws(was, at, c, WithRoom(c, t));
      PutLaws(was, at, WithRoom(c, t), c);
      existed := true;
      if ValueAt(root, at).Array? {
        k := t.index;
        if t.index >= |ValueAt(root, at).elements| {
          PadWithNulls(at, t.index);
          existed := false;
        }
      } else {
        var ms := ValueAt(root, at).members;
        k := Equality.Find(ms, t.name);
        if k == |ms| {
          FindAppended(ms, t.name);
          Assign(at, Object(ms + [Member(t.name, Value.Null)]));
          existed := false;
        }
      }
    }

    /** Changes the type of a value in which the token cannot name anything. */
    method MakeContainer(at: seq<nat>, t: Token)
      requires HasPosition(root, at)
      modifies this
      ensures HasPosition(root, at) && ValueAt(root, at) == Container(ValueAt(old(root), at), t)
      ensures root == Put(old(root), at, ValueAt(root, at))
    {
      PutLaws(root, at, ValueAt(root, at), ValueAt(root, at));
      if t.index == INVALID_INDEX {
        if !ValueAt(root, at).Object? {
          Assign(at, Object([]));
        }
      } else if !ValueAt(root, at).Array? && !ValueAt(root, at).Object? {
        Assign(at, Array([]));
      }
    }

    /** Pushes nulls until the array has an element at `index`. */
    method PadWithNulls(at: seq<nat>, index: nat)
      requires HasPosition(root, at) && ValueAt(root, at).Array? && index >= |ValueAt(root, at).elements|
      modifies this
      ensures
        var es := ValueAt(old(root), at).elements;
        root == Put(old(root), at, Array(es + Nulls(index + 1 - |es|)))
    {
      ghost var was := root;
      ghost var es := ValueAt(root, at).elements;
      var size := |ValueAt(root, at).elements|;
      PutLaws(was, at, Array(es), Array(es));
      assert es + Nulls(0) == es;
      while index >= size
        invariant |es| <= size <= index + 1 && HasPosition(root, at)
        invariant ValueAt(root, at) == Array(es + Nulls(size - |es|)) && root == Put(was, at, ValueAt(root, at))
      {
        assert es + Nulls(size - |es|) + [Value.Null] == es + Nulls(size + 1 - |es|);
        PutLaws(was, at, ValueAt(root, at), Array(es + Nulls(size + 1 - |es|)));
        PushBack(at, Value.Null);
        size := size + 1;
      }
    }

    /**
     Creates the value the tokens name, with every container on the way. The place returned is the one the tokens
     lead to afterwards, unless a `-` was applied to an array; what is there was there before, or is null.
     */
    method Create(tokens: seq<Token>) returns (place: seq<nat>, exist: bool)
      modifies this
      ensures
        var c := Resolving.Create(old(root), tokens, 0);
        && root == c.tree && exist == c.exist && HasPosition(root, place) && |place| == |tokens|
        && (!c.appended ==> Leads(root, tokens, 0, place))
      ensures exist ==> root == old(root)
      ensures !exist ==> ValueAt(root, place) == Value.Null
    {
      hide Resolving.Create, Child, Put, ValueAt, HasPosition;
      ghost var appended := false;
      place, exist := [], true;
      var i := 0;
      CreateStarts(root, tokens);
      while i < |tokens|
        invariant i == |place| <= |tokens|
        invariant Creating(old(root), root, tokens, place, exist, appended)
      {
        ghost var was := root;
        var k, existed := Grow(place, tokens[i]);
        StepInto(old(root), was, root, tokens, place, k, exist, existed, appended);
        appended := appended || Appends(ValueAt(was, place), tokens[i]);
        place, exist, i := place + [k], exist && existed, i + 1;
      }
      CreateEnds(old(root), root, tokens, place, exist, appended);
    }

    /** Assigns to the value the tokens name, created if it is not there. */
    method Set(tokens: seq<Token>, x: Value) returns (place: seq<nat>)
      modifies this
      ensures
        var c := Resolving.Create(old(root), tokens, 0);
        && HasPosition(c.tree, place) && root == Put(c.tree, place, x)
        && (!c.appended ==> Get(root, tokens) == Found(x))
    {
      var exist;
      place, exist := Create(tokens);
      ghost var created := root;
      Assign(place, x);
      if !Resolving.Create(old(root), tokens, 0).appended {
        LeadsPut(created, tokens, 0, place, x);
        LeadsGet(root, tokens, 0, place);
      }
    }

    /** Erases the value the tokens lead to; the root cannot be erased. */
    method Erase(tokens: seq<Token>) returns (ok: bool)
      modifies this
      ensures (root, ok) == Resolving.Erase(old(root), tokens, 0)
    {
      if |tokens| == 0 {
        return false;
      }
      var at: seq<nat>, i := [], 0;
      while i < |tokens| - 1
        invariant i == |at| < |tokens| && HasPosition(root, at) && root == old(root)
        invariant
          var inner := Resolving.Erase(ValueAt(root, at), tokens, i);
          Resolving.Erase(root, tokens, 0) == (Put(root, at, inner.0), inner.1)
      {
        var v := ValueAt(root, at);
        var k := FindChild(v, tokens[i]);
        PutLaws(root, at, v, v);
        if k.None? {
          return false;
        }
        PutChild(root, at, k.value, Resolving.Erase(ChildAt(v, k.value), tokens, i + 1).0);
        at, i := at + [k.value], i + 1;
      }
      var v := ValueAt(root, at);
      var k := FindChild(v, tokens[i]);
      PutLaws(root, at, v, v);
      if k.None? {
        return false;
      }
      Assign(at, if v.Array? then Array(Without(v.elements, k.value)) else Object(Without(v.members, k.value)));
      ok := true;
    }
  }

  /** A value `v` has become one, `r`, whose child `k` is the token's. */
  ghost predicate GrownTo(v: Value, r: Value, t: Token, k: nat, existed: bool) {
    if Appends(v, t) then r == Array(v.elements + [Value.Null]) && k == |v.elements| && !existed
    else
      && r == WithRoom(Container(v, t), t) && Child(r, t) == Some(k)
      && existed == Child(Container(v, t), t).Some? && (!existed ==> ChildAt(r, k) == Value.Null)
  }

  /** From `was` to `now` the value at `at` has, and nothing else has changed. */
  ghost predicate Grown(was: Value, now: Value, at: seq<nat>, t: Token, k: nat, existed: bool) {
    && HasPosition(was, at) && HasPosition(now, at) && now == Put(was, at, ValueAt(now, at))
    && GrownTo(ValueAt(was, at), ValueAt(now, at), t, k, existed)
  }

  /** The tokens have been followed to `at`; creating the rest there will complete the tree. */
  ghost predicate Creating(start: Value, now: Value, tokens: seq<Token>, at: seq<nat>, exist: bool, appended: bool) {
    && |at| <= |tokens| && HasPosition(now, at)
    && var whole, rest := Resolving.Create(start, tokens, 0), Resolving.Create(ValueAt(now, at), tokens, |at|);
       && Put(now, at, rest.tree) == whole.tree
       && (exist && rest.exist) == whole.exist && (appended || rest.appended) == whole.appended
       && (!appended ==> Leads(now, tokens, 0, at))
       && if exist then now == start else ValueAt(now, at) == Value.Null
  }

  lemma CreateStarts(start: Value, tokens: seq<Token>)
    ensures Creating(start, start, tokens, [], true, false)
  {}

  lemma CreateEnds(start: Value, now: Value, tokens: seq<Token>, at: seq<nat>, exist: bool, appended: bool)
    requires Creating(start, now, tokens, at, exist, appended) && |at| == |tokens|
    ensures
      var whole := Resolving.Create(start, tokens, 0);
      && HasPosition(now, at) && now == whole.tree && exist == whole.exist && (!whole.appended ==> Leads(now, tokens, 0, at))
      && if exist then now == start else ValueAt(now, at) == Value.Null
  {
    PutLaws(now, at, Value.Null, Value.Null);
  }

  /** One turn of the creation. */
  lemma StepInto(start: Value, was: Value, now: Value, tokens: seq<Token>, at: seq<nat>, k: nat, exist: bool, existed: bool,
                 appended: bool)
    requires Creating(start, was, tokens, at, exist, appended) && |at| < |tokens|
    requires Grown(was, now, at, tokens[|at|], k, existed)
    ensures Creating(start, now, tokens, at + [k], exist && existed, appended || Appends(ValueAt(was, at), tokens[|at|]))
  {
    hide Resolving.Create, Child, Put, ValueAt, WithRoom, Container, GrownTo, Leads, Appends;
    var v, t, r := ValueAt(was, at), tokens[|at|], ValueAt(now, at);
    CreateOnce(v, r, tokens, |at|, k, existed);
    var inner := Resolving.Create(ChildAt(r, k), tokens, |at| + 1);
    PutChild(now, at, k, inner.tree);
    PutLaws(was, at, r, WithChild(r, k, inner.tree));
    PutLaws(was, at, v, v);
    if !appended && !Appends(v, t) {
      LeadsPut(was, tokens, 0, at, r);
      LeadsOn(now, tokens, 0, at, k);
    }
  }

  /** Creation in a value, by creation in its child. */
  lemma CreateOnce(v: Value, r: Value, tokens: seq<Token>, i: nat, k: nat, existed: bool)
    requires i < |tokens| && GrownTo(v, r, tokens[i], k, existed)
    ensures (r.Array? && k < |r.elements|) || (r.Object? && k < |r.members|)
    ensures HasPosition(r, [k]) && (!Appends(v, tokens[i]) ==> Child(r, tokens[i]) == Some(k))
    ensures
      var inner := Resolving.Create(ChildAt(r, k), tokens, i + 1);
      && Resolving.Create(v, tokens, i) ==
         Created(WithChild(r, k, inner.tree), existed && inner.exist, Appends(v, tokens[i]) || inner.appended)
      && if existed then r == v else ChildAt(r, k) == Value.Null
  {
    if Appends(v, tokens[i]) {
      var inner := Resolving.Create(Value.Null, tokens, i + 1);
      assert WithChild(r, k, inner.tree) == Array(v.elements + [inner.tree]);
    } else {
      RoomNeeded(v, tokens[i]);
    }
  }
}
