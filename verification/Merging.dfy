/**
 Which values compare equal to some value at all. The documentation says that an object with repeated names never
 does; here is exactly when one does, repeated names at any depth included.
 */
module Merging {
  import opened Text
  import opened Dom
  import opened Resolving
  import opened Equality

  // -------------------------------------------------------------------- Depth

  predicate Shallow(v: Value, h: nat)
    decreases v
  {
    match v
    case Array(es) => h > 0 && forall e | e in es :: Shallow(e, h - 1)
    case Object(ms) => h > 0 && forall m | m in ms :: Shallow(m.value, h - 1)
    case _ => true
  }

  function Max(a: nat, b: nat): nat {
    if a > b then a else b
  }

  function Depth(v: Value): nat
    decreases v
  {
    match v
    case Array(es) => 1 + DepthOfElements(es)
    case Object(ms) => 1 + DepthOfMembers(ms)
    case _ => 0
  }

  function DepthOfElements(es: seq<Value>): nat
    decreases es
  {
    if es == [] then 0 else Max(Depth(es[0]), DepthOfElements(es[1..]))
  }

  function DepthOfMembers(ms: seq<Member>): nat
    decreases ms
  {
    if ms == [] then 0 else Max(Depth(ms[0].value), DepthOfMembers(ms[1..]))
  }

  lemma {:induction false} ShallowDepth(v: Value, h: nat)
    requires Depth(v) <= h
    ensures Shallow(v, h)
    decreases v
  {
    if v.Array? {
      forall e | e in v.elements ensures Shallow(e, h - 1) {
        ElementDepth(v.elements, e);
        ShallowDepth(e, h - 1);
      }
    } else if v.Object? {
      forall m | m in v.members ensures Shallow(m.value, h - 1) {
        MemberDepth(v.members, m);
        ShallowDepth(m.value, h - 1);
      }
    }
  }

  lemma {:induction false} ElementDepth(es: seq<Value>, e: Value)
    requires e in es
    ensures Depth(e) <= DepthOfElements(es)
    decreases es
  {
    if e != es[0] {
      ElementDepth(es[1..], e);
    }
  }

  lemma {:induction false} MemberDepth(ms: seq<Member>, m: Member)
    requires m in ms
    ensures Depth(m.value) <= DepthOfMembers(ms)
    decreases ms
  {
    if m != ms[0] {
      MemberDepth(ms[1..], m);
    }
  }

  // ---------------------------------------------------------- Names and values

  /** The names and those of the members that are not among them. */
  function AddNames(names: seq<seq<Byte>>, ms: seq<Member>): seq<seq<Byte>>
    decreases ms
  {
    if ms == [] then names
    else AddNames(if ms[0].name in names then names else names + [ms[0].name], ms[1..])
  }

  /** Every name of a member of one of the objects, once. */
  function AllNames(vs: seq<Value>): seq<seq<Byte>>
    requires forall v | v in vs :: v.Object?
  {
    if vs == [] then [] else AddNames(AllNames(vs[1..]), vs[0].members)
  }

  predicate NoRepeats(names: seq<seq<Byte>>) {
    forall i, j | 0 <= i < j < |names| :: names[i] != names[j]
  }

  predicate Carries(ms: seq<Member>, name: seq<Byte>) {
    exists m | m in ms :: m.name == name
  }

  predicate SomeCarries(vs: seq<Value>, name: seq<Byte>)
    requires forall v | v in vs :: v.Object?
  {
    exists v | v in vs :: Carries(v.members, name)
  }

  /** Each of the names is one of a member of one of the objects. */
  predicate Carried(vs: seq<Value>, names: seq<seq<Byte>>)
    requires forall v | v in vs :: v.Object?
  {
    forall i | 0 <= i < |names| :: SomeCarries(vs, names[i])
  }

  lemma {:induction false} AddedNames(names: seq<seq<Byte>>, ms: seq<Member>)
    requires NoRepeats(names)
    ensures NoRepeats(AddNames(names, ms))
    ensures forall x :: x in AddNames(names, ms) <==> x in names || Carries(ms, x)
    decreases ms
  {
    if ms != [] {
      var more := if ms[0].name in names then names else names + [ms[0].name];
      AddedNames(more, ms[1..]);
      forall x ensures x in AddNames(names, ms) <==> x in names || Carries(ms, x) {
        assert Carries(ms, x) <==> ms[0].name == x || Carries(ms[1..], x) by {
          assert ms == [ms[0]] + ms[1..];
        }
      }
    }
  }

  lemma {:induction false} AllNamesAre(vs: seq<Value>)
    requires forall v | v in vs :: v.Object?
    ensures NoRepeats(AllNames(vs))
    ensures forall x :: x in AllNames(vs) <==> SomeCarries(vs, x)
    ensures Carried(vs, AllNames(vs))
    decreases vs
  {
    hide Carries;
    if vs != [] {
      AllNamesAre(vs[1..]);
      AddedNames(AllNames(vs[1..]), vs[0].members);
      assert vs == [vs[0]] + vs[1..];
    }
  }

  /** The values of the members of that name. */
  function ValuesNamed(ms: seq<Member>, name: seq<Byte>): seq<Value> {
    if ms == [] then [] else (if ms[0].name == name then [ms[0].value] else []) + ValuesNamed(ms[1..], name)
  }

  function AllNamed(vs: seq<Value>, name: seq<Byte>): seq<Value>
    requires forall v | v in vs :: v.Object?
  {
    if vs == [] then [] else ValuesNamed(vs[0].members, name) + AllNamed(vs[1..], name)
  }

  lemma {:induction false} ValuesNamedAre(ms: seq<Member>, name: seq<Byte>)
    ensures forall x :: x in ValuesNamed(ms, name) <==> Member(name, x) in ms
    decreases ms
  {
    if ms != [] {
      ValuesNamedAre(ms[1..], name);
      assert ms == [ms[0]] + ms[1..];
    }
  }

  lemma {:induction false} AllNamedAre(vs: seq<Value>, name: seq<Byte>)
    requires forall v | v in vs :: v.Object?
    ensures forall x :: x in AllNamed(vs, name) <==> exists v | v in vs :: Member(name, x) in v.members
    ensures AllNamed(vs, name) != [] <==> SomeCarries(vs, name)
    decreases vs
  {
    if vs != [] {
      AllNamedAre(vs[1..], name);
      ValuesNamedAre(vs[0].members, name);
      assert vs == [vs[0]] + vs[1..];
      var own := ValuesNamed(vs[0].members, name);
      assert Carries(vs[0].members, name) <==> own != [] by {
        if own != [] {
          assert own[0] in own && Member(name, own[0]) in vs[0].members;
        }
        if m :| m in vs[0].members && m.name == name {
          assert Member(name, m.value) == m && m.value in own;
        }
      }
    }
  }

  // ------------------------------------------------------------------ Merging

  /** The elements at one index. */
  function Column(vs: seq<Value>, i: nat): (r: seq<Value>)
    requires forall v | v in vs :: v.Array? && i < |v.elements|
    ensures |r| == |vs| && forall k | 0 <= k < |r| :: r[k] == vs[k].elements[i]
  {
    seq(|vs|, k requires 0 <= k < |vs| => vs[k].elements[i])
  }

  ghost predicate Fit(vs: seq<Value>, h: nat) {
    forall v | v in vs :: WellFormed(v) && Shallow(v, h)
  }

  /**
   A value that all of the values compare equal to, if there is one: scalars must be the same; arrays are merged
   element by element; of objects all values under one name are merged, and there must not be more names than any of
   them has members.
   */
  function Merge(vs: seq<Value>, h: nat): Option<Value>
    requires vs != [] && Fit(vs, h)
    decreases h, 2, 0
  {
    match vs[0]
    case Array(es) =>
      if exists v | v in vs :: !v.Array? || |v.elements| != |es| then None
      else
        assert vs[0] in vs;
        (match MergeColumns(vs, |es|, h)
         case None => None
         case Some(bs) => Some(Array(bs)))
    case Object(ms) =>
      if exists v | v in vs :: !v.Object? || |v.members| != |ms| then None
      else
        assert vs[0] in vs;
        AllNamesAre(vs);
        if |AllNames(vs)| > |ms| then None
        else
          (match MergeNames(vs, AllNames(vs), h)
           case None => None
           case Some(bs) => Some(Object(Padded(bs, |ms|))))
    case _ => if forall v | v in vs :: Equal(v, vs[0]) then Some(vs[0]) else None
  }

  function MergeColumns(vs: seq<Value>, n: nat, h: nat): Option<seq<Value>>
    requires vs != [] && Fit(vs, h) && h > 0 && forall v | v in vs :: v.Array? && n <= |v.elements|
    decreases h, 1, n
  {
    if n == 0 then Some([])
    else
      ColumnFits(vs, n - 1, h);
      match MergeColumns(vs, n - 1, h)
      case None => None
      case Some(bs) =>
        match Merge(Column(vs, n - 1), h - 1)
        case None => None
        case Some(b) => Some(bs + [b])
  }

  function MergeNames(vs: seq<Value>, names: seq<seq<Byte>>, h: nat): Option<seq<Member>>
    requires vs != [] && Fit(vs, h) && h > 0 && (forall v | v in vs :: v.Object?)
    requires Carried(vs, names)
    decreases h, 1, |names|
  {
    if names == [] then Some([])
    else
      var last := names[|names| - 1];
      NamedFits(vs, names, h);
      match MergeNames(vs, names[..|names| - 1], h)
      case None => None
      case Some(bs) =>
        match Merge(AllNamed(vs, last), h - 1)
        case None => None
        case Some(b) => Some(bs + [Member(last, b)])
  }

  lemma NamedFits(vs: seq<Value>, names: seq<seq<Byte>>, h: nat)
    requires Fit(vs, h) && h > 0 && (forall v | v in vs :: v.Object?) && Carried(vs, names) && names != []
    ensures Carried(vs, names[..|names| - 1])
    ensures AllNamed(vs, names[|names| - 1]) != [] && Fit(AllNamed(vs, names[|names| - 1]), h - 1)
  {
    hide SomeCarries, Fit;
    AllNamedAre(vs, names[|names| - 1]);
    NamedFit(vs, names[|names| - 1], h);
  }

  lemma {:induction false} MergedNames(vs: seq<Value>, names: seq<seq<Byte>>, h: nat)
    requires vs != [] && Fit(vs, h) && h > 0 && (forall v | v in vs :: v.Object?) && Carried(vs, names)
    ensures var r := MergeNames(vs, names, h);
            r.Some? ==> |r.value| == |names| && forall i | 0 <= i < |names| :: r.value[i].name == names[i]
    decreases |names|
  {
    hide Merge, SomeCarries, Fit;
    if names != [] {
      NamedFits(vs, names, h);
      MergedNames(vs, names[..|names| - 1], h);
    }
  }

  /** As many members, the first again for those that are missing. */
  function Padded(bs: seq<Member>, n: nat): (r: seq<Member>)
    ensures bs != [] && |bs| <= n ==> |r| == n && bs <= r
    ensures bs == [] ==> r == []
  {
    if bs == [] || n < |bs| then bs else bs + seq(n - |bs|, i => bs[0])
  }

  lemma ColumnFits(vs: seq<Value>, i: nat, h: nat)
    requires Fit(vs, h) && h > 0 && forall v | v in vs :: v.Array? && i < |v.elements|
    ensures Fit(Column(vs, i), h - 1)
  {
    forall x | x in Column(vs, i) ensures WellFormed(x) && Shallow(x, h - 1) {
      var k :| 0 <= k < |vs| && Column(vs, i)[k] == x;
      assert vs[k] in vs && x in vs[k].elements;
    }
  }

  lemma NamedFit(vs: seq<Value>, name: seq<Byte>, h: nat)
    requires Fit(vs, h) && h > 0 && forall v | v in vs :: v.Object?
    ensures Fit(AllNamed(vs, name), h - 1)
  {
    AllNamedAre(vs, name);
    forall x | x in AllNamed(vs, name) ensures WellFormed(x) && Shallow(x, h - 1) {
      var v :| v in vs && Member(name, x) in v.members;
    }
  }

  /** `b` is well-formed and all of the values compare equal to it. */
  ghost predicate Above(b: Value, vs: seq<Value>)
    requires forall v | v in vs :: WellFormed(v)
  {
    WellFormed(b) && forall v | v in vs :: Equal(v, b)
  }

  // ------------------------------------------------- The merged value is above

  lemma {:induction false} ElementsEqualAt(es: seq<Value>, fs: seq<Value>)
    requires |es| == |fs| && (forall e | e in es :: WellFormed(e)) && forall f | f in fs :: WellFormed(f)
    ensures ElementsEqual(es, fs) <==> forall i | 0 <= i < |es| :: Equal(es[i], fs[i])
    decreases es
  {
    hide Equal, WellFormed;
    if es != [] {
      ElementsEqualAt(es[1..], fs[1..]);
      if ElementsEqual(es, fs) {
        forall i | 0 <= i < |es| ensures Equal(es[i], fs[i]) {
          if i > 0 {
            assert Equal(es[1..][i - 1], fs[1..][i - 1]);
          }
        }
      }
      if forall i | 0 <= i < |es| :: Equal(es[i], fs[i]) {
        forall i | 0 <= i < |es| - 1 ensures Equal(es[1..][i], fs[1..][i]) {
          assert Equal(es[i + 1], fs[i + 1]);
        }
      }
    }
  }

  lemma {:induction false} MergeIsAbove(vs: seq<Value>, h: nat)
    requires vs != [] && Fit(vs, h) && Merge(vs, h).Some?
    ensures Above(Merge(vs, h).value, vs)
    decreases h, 2, 0
  {
    var b := Merge(vs, h).value;
    assert vs[0] in vs;
    if vs[0].Array? {
      var n := |vs[0].elements|;
      ColumnsAbove(vs, n, h);
      var bs := MergeColumns(vs, n, h).value;
      forall v | v in vs ensures Equal(v, b) {
        ElementsEqualAt(v.elements, bs);
        var k :| 0 <= k < |vs| && vs[k] == v;
        forall i | 0 <= i < n ensures Equal(v.elements[i], bs[i]) {
          assert Column(vs, i)[k] == v.elements[i] && v.elements[i] in Column(vs, i);
        }
      }
    } else if vs[0].Object? {
      AllNamesAre(vs);
      NamesAbove(vs, AllNames(vs), h);
      PaddedAbove(vs, h);
    }
  }

  lemma {:induction false} ColumnsAbove(vs: seq<Value>, n: nat, h: nat)
    requires vs != [] && Fit(vs, h) && h > 0 && (forall v | v in vs :: v.Array? && n <= |v.elements|)
    requires MergeColumns(vs, n, h).Some?
    ensures |MergeColumns(vs, n, h).value| == n
    ensures forall i | 0 <= i < n :: Fit(Column(vs, i), h - 1) && Above(MergeColumns(vs, n, h).value[i], Column(vs, i))
    ensures forall x | x in MergeColumns(vs, n, h).value :: WellFormed(x)
    decreases h, 1, n
  {
    hide Merge, Fit, Column;
    if n > 0 {
      ColumnsAbove(vs, n - 1, h);
      ColumnFits(vs, n - 1, h);
      MergeIsAbove(Column(vs, n - 1), h - 1);
      var bs := MergeColumns(vs, n - 1, h).value;
      assert MergeColumns(vs, n, h).value == bs + [Merge(Column(vs, n - 1), h - 1).value];
    }
  }

  lemma {:induction false} NamesAbove(vs: seq<Value>, names: seq<seq<Byte>>, h: nat)
    requires vs != [] && Fit(vs, h) && h > 0 && (forall v | v in vs :: v.Object?)
    requires Carried(vs, names)
    requires MergeNames(vs, names, h).Some?
    ensures |MergeNames(vs, names, h).value| == |names|
    ensures forall i | 0 <= i < |names| ::
              Fit(AllNamed(vs, names[i]), h - 1) && Above(MergeNames(vs, names, h).value[i].value, AllNamed(vs, names[i]))
    decreases h, 1, |names|
  {
    hide Merge, SomeCarries, Fit, Above, AllNamed, Carried;
    if names != [] {
      var last := names[|names| - 1];
      NamedFits(vs, names, h);
      MergedNames(vs, names[..|names| - 1], h);
      NamesAbove(vs, names[..|names| - 1], h);
      MergeIsAbove(AllNamed(vs, last), h - 1);
      var bs := MergeNames(vs, names[..|names| - 1], h).value;
      assert MergeNames(vs, names, h).value == bs + [Member(last, Merge(AllNamed(vs, last), h - 1).value)];
    }
  }

  /** The members are merged values under all the names of the objects. */
  ghost predicate AboveNames(vs: seq<Value>, bs: seq<Member>) {
    && (forall v | v in vs :: v.Object? && WellFormed(v))
    && |bs| == |AllNames(vs)|
    && (forall i | 0 <= i < |bs| :: bs[i].name == AllNames(vs)[i] && WellFormed(bs[i].value))
    && forall i | 0 <= i < |bs| :: forall x | x in AllNamed(vs, bs[i].name) :: WellFormed(x) && Equal(x, bs[i].value)
  }

  lemma NamesSuffice(vs: seq<Value>, bs: seq<Member>, h: nat)
    requires Fit(vs, h) && h > 0 && (forall v | v in vs :: v.Object?) && |bs| == |AllNames(vs)|
    requires forall i | 0 <= i < |bs| ::
               && bs[i].name == AllNames(vs)[i] && Fit(AllNamed(vs, AllNames(vs)[i]), h - 1)
               && Above(bs[i].value, AllNamed(vs, AllNames(vs)[i]))
    ensures AboveNames(vs, bs)
  {
    hide AllNames, AllNamed, Shallow, WellFormed, Equal;
    forall i | 0 <= i < |bs|
      ensures WellFormed(bs[i].value) && forall x | x in AllNamed(vs, bs[i].name) :: WellFormed(x) && Equal(x, bs[i].value)
    {
      assert Above(bs[i].value, AllNamed(vs, AllNames(vs)[i]));
    }
  }

  /** What the merging of objects comes to. */
  lemma ObjectsMerged(vs: seq<Value>, h: nat)
    requires vs != [] && Fit(vs, h) && Merge(vs, h).Some? && vs[0].Object?
    ensures h > 0 && forall v | v in vs :: v.Object? && |v.members| == |vs[0].members|
    ensures Carried(vs, AllNames(vs)) && |AllNames(vs)| <= |vs[0].members| && MergeNames(vs, AllNames(vs), h).Some?
    ensures Merge(vs, h).value == Object(Padded(MergeNames(vs, AllNames(vs), h).value, |vs[0].members|))
  {
    hide MergeNames, AllNames, Padded, WellFormed, Carried, NoRepeats;
    assert vs[0] in vs;
    AllNamesAre(vs);
  }

  lemma PaddedAbove(vs: seq<Value>, h: nat)
    requires vs != [] && Fit(vs, h) && h > 0 && Merge(vs, h).Some? && vs[0].Object? && (forall v | v in vs :: v.Object?)
    requires Carried(vs, AllNames(vs)) && MergeNames(vs, AllNames(vs), h).Some?
    requires var bs := MergeNames(vs, AllNames(vs), h).value;
             && |bs| == |AllNames(vs)|
             && forall i | 0 <= i < |bs| ::
                  Fit(AllNamed(vs, AllNames(vs)[i]), h - 1) && Above(bs[i].value, AllNamed(vs, AllNames(vs)[i]))
    ensures Above(Merge(vs, h).value, vs)
  {
    hide Merge, AllNames, Padded, AllNamed, MergeNames, Shallow, Carried, AboveNames, Equal, WellFormed;
    ObjectsMerged(vs, h);
    var n, bs := |vs[0].members|, MergeNames(vs, AllNames(vs), h).value;
    MergedNames(vs, AllNames(vs), h);
    NamesSuffice(vs, bs, h);
    assert vs[0] in vs;
    EveryMemberFound(vs, bs, n, vs[0]);
    forall v | v in vs ensures Equal(v, Object(Padded(bs, n))) {
      EveryMemberFound(vs, bs, n, v);
    }
  }

  /** Every member of an object is found under its name in what the names were merged to. */
  lemma EveryMemberFound(vs: seq<Value>, bs: seq<Member>, n: nat, v: Value)
    requires AboveNames(vs, bs) && |bs| <= n && v in vs && |v.members| == n
    ensures WellFormed(Object(Padded(bs, n))) && Equal(v, Object(Padded(bs, n)))
  {
    hide AllNames, Padded, AllNamed, SomeCarries, FindMember;
    var all := Padded(bs, n);
    AllNamesAre(vs);
    PaddedMembers(bs, n);
    assert WellFormed(Object(all));
    FoundIff(v.members, all);
    forall k | 0 <= k < n ensures Equality.Found(v.members[k], all) {
      var m := v.members[k];
      CarriesIn(vs, v, m);
      var i :| 0 <= i < |AllNames(vs)| && AllNames(vs)[i] == m.name;
      PaddedFind(bs, n, i);
      AllNamedAre(vs, m.name);
      assert Member(m.name, m.value) in v.members;
      assert m.value in AllNamed(vs, bs[i].name);
    }
    if n > 0 {
      CarriesIn(vs, v, v.members[0]);
    }
  }

  lemma CarriesIn(vs: seq<Value>, v: Value, m: Member)
    requires (forall x | x in vs :: x.Object?) && v in vs && m in v.members
    ensures SomeCarries(vs, m.name)
  {
    assert Carries(v.members, m.name);
  }

  lemma PaddedMembers(bs: seq<Member>, n: nat)
    ensures forall x | x in Padded(bs, n) :: x in bs
  {}

  lemma PaddedFind(bs: seq<Member>, n: nat, i: nat)
    requires i < |bs| <= n && forall j, k | 0 <= j < k < |bs| :: bs[j].name != bs[k].name
    ensures FindMember(Padded(bs, n), bs[i].name) == Some(i)
  {
    var all := Padded(bs, n);
    assert all[i] == bs[i];
    var k := FindMember(all, bs[i].name).value;
    assert k <= i && all[k] == bs[k];
  }

  // -------------------------------------------- What is above is found merging

  lemma {:induction false} MergeExists(vs: seq<Value>, h: nat, b: Value)
    requires vs != [] && Fit(vs, h) && Above(b, vs)
    ensures Merge(vs, h).Some?
    decreases h, 2, 0
  {
    assert vs[0] in vs && Equal(vs[0], b);
    if vs[0].Array? {
      forall v | v in vs ensures v.Array? && |v.elements| == |vs[0].elements| {
        assert Equal(v, b);
      }
      ColumnsExist(vs, |b.elements|, h, b);
    } else if vs[0].Object? {
      forall v | v in vs ensures v.Object? && |v.members| == |vs[0].members| {
        assert Equal(v, b);
      }
      AllNamesAre(vs);
      FewNames(vs, AllNames(vs), b);
      NamesExist(vs, AllNames(vs), h, b);
    } else {
      forall v | v in vs ensures Equal(v, vs[0]) {
        assert Equal(v, b);
      }
    }
  }

  lemma {:induction false} ColumnsExist(vs: seq<Value>, n: nat, h: nat, b: Value)
    requires vs != [] && Fit(vs, h) && h > 0 && Above(b, vs) && b.Array? && n <= |b.elements|
    requires forall v | v in vs :: v.Array? && |v.elements| == |b.elements|
    ensures MergeColumns(vs, n, h).Some?
    decreases h, 1, n
  {
    if n > 0 {
      ColumnsExist(vs, n - 1, h, b);
      ColumnFits(vs, n - 1, h);
      var c := b.elements[n - 1];
      forall x | x in Column(vs, n - 1) ensures Equal(x, c) {
        var k :| 0 <= k < |vs| && Column(vs, n - 1)[k] == x;
        assert vs[k] in vs && Equal(vs[k], b);
        ElementsEqualAt(vs[k].elements, b.elements);
      }
      MergeExists(Column(vs, n - 1), h - 1, c);
    }
  }

  lemma {:induction false} NamesExist(vs: seq<Value>, names: seq<seq<Byte>>, h: nat, b: Value)
    requires vs != [] && Fit(vs, h) && h > 0 && Above(b, vs) && b.Object? && (forall v | v in vs :: v.Object?)
    requires Carried(vs, names)
    ensures MergeNames(vs, names, h).Some?
    decreases h, 1, |names|
  {
    if names != [] {
      var last := names[|names| - 1];
      NamedFits(vs, names, h);
      NamesExist(vs, names[..|names| - 1], h, b);
      var x0 := AllNamed(vs, last)[0];
      NamedBelow(vs, last, b, x0);
      var c := b.members[FindMember(b.members, last).value].value;
      forall x | x in AllNamed(vs, last) ensures Equal(x, c) {
        NamedBelow(vs, last, b, x);
      }
      MergeExists(AllNamed(vs, last), h - 1, c);
    }
  }

  /** The value of a member compares equal to the first of its name in what is above. */
  lemma NamedBelow(vs: seq<Value>, name: seq<Byte>, b: Value, x: Value)
    requires (forall v | v in vs :: WellFormed(v) && v.Object?) && Above(b, vs) && b.Object? && x in AllNamed(vs, name)
    ensures WellFormed(x) && FindMember(b.members, name).Some?
    ensures Equal(x, b.members[FindMember(b.members, name).value].value)
  {
    hide FindMember;
    AllNamedAre(vs, name);
    var v :| v in vs && Member(name, x) in v.members;
    assert Equal(v, b);
    FoundIff(v.members, b.members);
    var i :| 0 <= i < |v.members| && v.members[i] == Member(name, x);
    assert Equality.Found(v.members[i], b.members);
  }

  /** Every name is one of a member of what is above, so there are not too many. */
  lemma FewNames(vs: seq<Value>, names: seq<seq<Byte>>, b: Value)
    requires (forall v | v in vs :: WellFormed(v) && v.Object?) && Above(b, vs) && b.Object? && NoRepeats(names)
    requires Carried(vs, names)
    ensures |names| <= |b.members|
  {
    var own := seq(|b.members|, i requires 0 <= i < |b.members| => b.members[i].name);
    forall name | name in names ensures name in own {
      var i :| 0 <= i < |names| && names[i] == name;
      AllNamedAre(vs, name);
      NamedBelow(vs, name, b, AllNamed(vs, name)[0]);
      var k := FindMember(b.members, name).value;
      assert own[k] == name;
    }
    Pigeons(names, own);
  }

  /** Distinct items, all of them among others, are no more than those. */
  lemma {:induction false} Pigeons(names: seq<seq<Byte>>, own: seq<seq<Byte>>)
    requires NoRepeats(names) && forall x | x in names :: x in own
    ensures |names| <= |own|
    decreases names
  {
    if names != [] {
      var n := |names| - 1;
      assert names[n] in names;
      var k :| 0 <= k < |own| && own[k] == names[n];
      var rest := own[..k] + own[k + 1..];
      forall x | x in names[..n] ensures x in rest {
        var i :| 0 <= i < n && names[i] == x;
        assert names[i] in names;
        var j :| 0 <= j < |own| && own[j] == x;
        assert j < k ==> rest[j] == x;
        assert j > k ==> rest[j - 1] == x;
      }
      Pigeons(names[..n], rest);
    }
  }

  /** Some value compares equal to `a` exactly when the values that meet under one name in it can be merged. */
  lemma ComparesEqualIff(a: Value)
    requires WellFormed(a)
    ensures Fit([a], Depth(a))
    ensures Merge([a], Depth(a)).Some? <==> exists b :: WellFormed(b) && Equal(a, b)
    ensures Merge([a], Depth(a)).Some? ==> WellFormed(Merge([a], Depth(a)).value) && Equal(a, Merge([a], Depth(a)).value)
  {
    hide Merge, Equal, WellFormed;
    ShallowDepth(a, Depth(a));
    assert a in [a];
    if Merge([a], Depth(a)).Some? {
      MergeIsAbove([a], Depth(a));
    }
    if b :| WellFormed(b) && Equal(a, b) {
      MergeExists([a], Depth(a), b);
    }
  }
}
