/** Places inside a value, as a C++ pointer into a tree denotes one: what is there, and what writing there changes. */
module Positions {
  import opened Dom

  function ChildAt(v: Value, k: nat): Value
    requires (v.Array? && k < |v.elements|) || (v.Object? && k < |v.members|)
  {
    if v.Array? then v.elements[k] else v.members[k].value
  }

  function WithChild(v: Value, k: nat, child: Value): Value
    requires (v.Array? && k < |v.elements|) || (v.Object? && k < |v.members|)
  {
    if v.Array? then Array(v.elements[k := child]) else Object(v.members[k := Member(v.members[k].name, child)])
  }

  /** `position` leads, by indices of elements and members, to a value inside `v`. */
  predicate HasPosition(v: Value, position: seq<nat>)
    decreases position
  {
    position == [] ||
    (v.Array? && position[0] < |v.elements| && HasPosition(v.elements[position[0]], position[1..])) ||
    (v.Object? && position[0] < |v.members| && HasPosition(v.members[position[0]].value, position[1..]))
  }

  function ValueAt(v: Value, position: seq<nat>): Value
    requires HasPosition(v, position)
    decreases position
  {
    if position == [] then v
    else if v.Array? then ValueAt(v.elements[position[0]], position[1..])
    else ValueAt(v.members[position[0]].value, position[1..])
  }

  /** `v` with `x` written at `position`. */
  function Put(v: Value, position: seq<nat>, x: Value): Value
    requires HasPosition(v, position)
    decreases position
  {
    if position == [] then x
    else WithChild(v, position[0], Put(ChildAt(v, position[0]), position[1..], x))
  }

  /** What was written is read back, a second write hides the first, and writing what is there changes nothing. */
  lemma {:induction false} PutLaws(v: Value, position: seq<nat>, x: Value, y: Value)
    requires HasPosition(v, position)
    ensures HasPosition(Put(v, position, x), position) && ValueAt(Put(v, position, x), position) == x
    ensures Put(Put(v, position, x), position, y) == Put(v, position, y)
    ensures Put(v, position, ValueAt(v, position)) == v
    decreases position
  {
    if position != [] {
      var k := position[0];
      PutLaws(ChildAt(v, k), position[1..], x, y);
      assert WithChild(v, k, ChildAt(v, k)) == v;
    }
  }

  /** One step further down, from a value to its child. */
  lemma {:induction false} PutChild(v: Value, position: seq<nat>, k: nat, x: Value)
    requires HasPosition(v, position)
    requires HasPosition(ValueAt(v, position), [k])
    ensures HasPosition(v, position + [k]) && ValueAt(v, position + [k]) == ChildAt(ValueAt(v, position), k)
    ensures Put(v, position + [k], x) == Put(v, position, WithChild(ValueAt(v, position), k, x))
    decreases position
  {
    if position == [] {
      assert position + [k] == [k];
    } else {
      PutChild(ChildAt(v, position[0]), position[1..], k, x);
      assert (position + [k])[1..] == position[1..] + [k];
    }
  }
}
