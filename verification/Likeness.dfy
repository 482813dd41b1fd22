/** Values that are the same up to the order of object members. */
module Likeness {
  import opened Text
  import opened Dom

  /** How two integers are compared: wholly, or only by their 64 bits. */
  datatype Leaves = Exact | ByPattern

  /** The sequence without its element at `j`. */
  function Without<T>(s: seq<T>, j: nat): (r: seq<T>)
    requires j < |s|
    ensures |r| == |s| - 1
  {
    s[..j] + s[j + 1..]
  }

  /** Equal up to the order of members, at any depth. */
  ghost predicate Alike(leaves: Leaves, a: Value, b: Value)
    decreases a, 1
  {
    match a
    case Array(es) => b.Array? && AlikeElements(leaves, es, b.elements)
    case Object(ms) => b.Object? && AlikeMembers(leaves, ms, b.members)
    case Number(bits, _) => if leaves.ByPattern? then b.Number? && b.bits == bits else a == b
    case _ => a == b
  }

  ghost predicate AlikeElements(leaves: Leaves, es: seq<Value>, fs: seq<Value>)
    decreases es
  {
    |es| == |fs| && (es != [] ==> Alike(leaves, es[0], fs[0]) && AlikeElements(leaves, es[1..], fs[1..]))
  }

  /** The first member has a partner, and the others pair off without it. */
  ghost predicate AlikeMembers(leaves: Leaves, ms: seq<Member>, ns: seq<Member>)
    decreases ms
  {
    && |ms| == |ns|
    && (ms != [] ==>
          exists j | 0 <= j < |ns| ::
            && ns[j].name == ms[0].name && Alike(leaves, ms[0].value, ns[j].value)
            && AlikeMembers(leaves, ms[1..], Without(ns, j)))
  }

  /** A partner of the first member. */
  ghost function Partner(leaves: Leaves, ms: seq<Member>, ns: seq<Member>): (j: nat)
    requires ms != [] && AlikeMembers(leaves, ms, ns)
    ensures j < |ns| && ns[j].name == ms[0].name && Alike(leaves, ms[0].value, ns[j].value)
    ensures AlikeMembers(leaves, ms[1..], Without(ns, j))
  {
    var j :| 0 <= j < |ns| && ns[j].name == ms[0].name && Alike(leaves, ms[0].value, ns[j].value)
             && AlikeMembers(leaves, ms[1..], Without(ns, j));
    j
  }

  /** No object has two members of one name, at any depth. */
  predicate UniqueNames(v: Value) {
    match v
    case Array(es) => forall e | e in es :: UniqueNames(e)
    case Object(ms) =>
      (forall i, j | 0 <= i < j < |ms| :: ms[i].name != ms[j].name) && forall m | m in ms :: UniqueNames(m.value)
    case _ => true
  }

  // ------------------------------------------------- Likeness is an equivalence

  /** Removing two elements in either order leaves the same. */
  lemma WithoutTwice<T>(s: seq<T>, i: nat, k: nat)
    requires i < |s| && k < |s| - 1
    ensures var other := if k < i then k else k + 1;
            var back := if k < i then i - 1 else i;
            && Without(s, i)[k] == s[other] && Without(s, other)[back] == s[i]
            && Without(Without(s, i), k) == Without(Without(s, other), back)
  {}

  /** Members that pair off, and one pair more. */
  lemma {:induction false} AlikeWith(leaves: Leaves, ns: seq<Member>, j: nat, ms: seq<Member>, i: nat)
    requires j < |ns| && i < |ms| && ns[j].name == ms[i].name && Alike(leaves, ns[j].value, ms[i].value)
    requires AlikeMembers(leaves, Without(ns, j), Without(ms, i))
    ensures AlikeMembers(leaves, ns, ms)
    decreases j
  {
    hide Alike;
    if j == 0 {
      assert Without(ns, 0) == ns[1..];
    } else {
      assert Without(ns, j)[0] == ns[0] && Without(ns, j)[1..] == Without(ns[1..], j - 1);
      var k := Partner(leaves, Without(ns, j), Without(ms, i));
      WithoutTwice(ms, i, k);
      var other, back := if k < i then k else k + 1, if k < i then i - 1 else i;
      AlikeWith(leaves, ns[1..], j - 1, Without(ms, other), back);
    }
  }

  lemma WithoutFirst<T>(s: seq<T>, j: nat)
    requires j < |s|
    ensures j == 0 ==> Without(s, j) == s[1..]
    ensures j > 0 ==> Without(s, j)[0] == s[0] && Without(Without(s, j), 0) == Without(s[1..], j - 1)
  {}

  lemma NotEmpty(leaves: Leaves, ns: seq<Member>, ms: seq<Member>)
    requires AlikeMembers(leaves, ns, ms)
    ensures |ns| == |ms|
  {}

  /** Any member, not only the first, has a partner. */
  lemma {:induction false} PartnerOf(leaves: Leaves, ns: seq<Member>, j: nat, ms: seq<Member>) returns (i: nat)
    requires j < |ns| && AlikeMembers(leaves, ns, ms)
    ensures i < |ms| && ns[j].name == ms[i].name && Alike(leaves, ns[j].value, ms[i].value)
    ensures AlikeMembers(leaves, Without(ns, j), Without(ms, i))
    decreases j
  {
    hide Alike, AlikeMembers, Without;
    NotEmpty(leaves, ns, ms);
    var k := Partner(leaves, ns, ms);
    WithoutFirst(ns, j);
    if j == 0 {
      i := k;
    } else {
      var l := PartnerOf(leaves, ns[1..], j - 1, Without(ms, k));
      WithoutTwice(ms, k, l);
      i := if l < k then l else l + 1;
      var back := if l < k then k - 1 else k;
      AlikeWith(leaves, Without(ns, j), 0, Without(ms, i), back);
    }
  }

  lemma {:induction false} AlikeReflexive(leaves: Leaves, a: Value)
    ensures Alike(leaves, a, a)
    decreases a, 1
  {
    if a.Array? {
      ElementsReflexive(leaves, a.elements);
    } else if a.Object? {
      MembersReflexive(leaves, a.members);
    }
  }

  lemma {:induction false} ElementsReflexive(leaves: Leaves, es: seq<Value>)
    ensures AlikeElements(leaves, es, es)
    decreases es
  {
    hide Alike;
    if es != [] {
      AlikeReflexive(leaves, es[0]);
      ElementsReflexive(leaves, es[1..]);
    }
  }

  lemma {:induction false} MembersReflexive(leaves: Leaves, ms: seq<Member>)
    ensures AlikeMembers(leaves, ms, ms)
    decreases ms
  {
    hide Alike;
    if ms != [] {
      AlikeReflexive(leaves, ms[0].value);
      MembersReflexive(leaves, ms[1..]);
      assert Without(ms, 0) == ms[1..];
    }
  }

  lemma {:induction false} AlikeSymmetric(leaves: Leaves, a: Value, b: Value)
    requires Alike(leaves, a, b)
    ensures Alike(leaves, b, a)
    decreases a, 1
  {
    if a.Array? {
      ElementsSymmetric(leaves, a.elements, b.elements);
    } else if a.Object? {
      MembersSymmetric(leaves, a.members, b.members);
    }
  }

  lemma {:induction false} ElementsSymmetric(leaves: Leaves, es: seq<Value>, fs: seq<Value>)
    requires AlikeElements(leaves, es, fs)
    ensures AlikeElements(leaves, fs, es)
    decreases es
  {
    hide Alike;
    if es != [] {
      AlikeSymmetric(leaves, es[0], fs[0]);
      ElementsSymmetric(leaves, es[1..], fs[1..]);
    }
  }

  lemma {:induction false} MembersSymmetric(leaves: Leaves, ms: seq<Member>, ns: seq<Member>)
    requires AlikeMembers(leaves, ms, ns)
    ensures AlikeMembers(leaves, ns, ms)
    decreases ms
  {
    hide Alike;
    if ms != [] {
      var j := Partner(leaves, ms, ns);
      AlikeSymmetric(leaves, ms[0].value, ns[j].value);
      MembersSymmetric(leaves, ms[1..], Without(ns, j));
      assert Without(ms, 0) == ms[1..];
      AlikeWith(leaves, ns, j, ms, 0);
    }
  }

  lemma {:induction false} AlikeTransitive(leaves: Leaves, a: Value, b: Value, c: Value)
    requires Alike(leaves, a, b) && Alike(leaves, b, c)
    ensures Alike(leaves, a, c)
    decreases a, 1
  {
    if a.Array? {
      ElementsTransitive(leaves, a.elements, b.elements, c.elements);
    } else if a.Object? {
      MembersTransitive(leaves, a.members, b.members, c.members);
    }
  }

  lemma {:induction false} ElementsTransitive(leaves: Leaves, es: seq<Value>, fs: seq<Value>, gs: seq<Value>)
    requires AlikeElements(leaves, es, fs) && AlikeElements(leaves, fs, gs)
    ensures AlikeElements(leaves, es, gs)
    decreases es
  {
    hide Alike;
    if es != [] {
      AlikeTransitive(leaves, es[0], fs[0], gs[0]);
      ElementsTransitive(leaves, es[1..], fs[1..], gs[1..]);
    }
  }

  lemma {:induction false} MembersTransitive(leaves: Leaves, ms: seq<Member>, ns: seq<Member>, os: seq<Member>)
    requires AlikeMembers(leaves, ms, ns) && AlikeMembers(leaves, ns, os)
    ensures AlikeMembers(leaves, ms, os)
    decreases ms
  {
    hide Alike;
    if ms != [] {
      var j := Partner(leaves, ms, ns);
      var k := PartnerOf(leaves, ns, j, os);
      AlikeTransitive(leaves, ms[0].value, ns[j].value, os[k].value);
      MembersTransitive(leaves, ms[1..], Without(ns, j), Without(os, k));
    }
  }
}
