// The linked lists of the program as sequences without repetitions.
module LinkedLists {

  // The identity of a record a list node points to.
  type Id = nat

  predicate Distinct(s: seq<Id>) {
    forall i, j :: 0 <= i < j < |s| ==> s[i] != s[j]
  }

  // A list without some members.
  function Without(s: seq<Id>, gone: set<Id>): (r: seq<Id>)
    ensures forall x :: x in r <==> x in s && x !in gone
  {
    if s == [] then []
    else if s[0] in gone then Without(s[1..], gone)
    else [s[0]] + Without(s[1..], gone)
  }

  lemma {:induction false} WithoutTwice(s: seq<Id>, a: set<Id>, b: set<Id>)
    ensures Without(Without(s, a), b) == Without(s, a + b)
  {
    if s != [] {
      WithoutTwice(s[1..], a, b);
      if s[0] !in a {
        assert Without(s, a)[1..] == Without(s[1..], a);
      }
    }
  }

  lemma {:induction false} WithoutNone(s: seq<Id>, gone: set<Id>)
    requires forall x <- s :: x !in gone
    ensures Without(s, gone) == s
  {
    if s != [] {
      assert s[0] in s && forall x <- s[1..] :: x in s;
      WithoutNone(s[1..], gone);
    }
  }

  lemma {:induction false} WithoutDistinct(s: seq<Id>, gone: set<Id>)
    requires Distinct(s)
    ensures Distinct(Without(s, gone))
  {
    if s != [] {
      WithoutDistinct(s[1..], gone);
      assert s[0] !in s[1..];
    }
  }

  // The list without the first node that holds x (mowgli_node_find and mowgli_node_delete).
  function Deleted(s: seq<Id>, x: Id): seq<Id> {
    if s == [] then [] else if s[0] == x then s[1..] else [s[0]] + Deleted(s[1..], x)
  }

  lemma {:induction false} DeletedOnly(s: seq<Id>, x: Id)
    requires Distinct(s)
    ensures Deleted(s, x) == Without(s, {x})
  {
    if s != [] {
      if s[0] == x {
        assert forall y <- s[1..] :: y !in {x};
        WithoutNone(s[1..], {x});
      } else {
        DeletedOnly(s[1..], x);
      }
    }
  }

  function Elems(s: seq<Id>): set<Id> {
    set x <- s
  }

  lemma ElemsMore(s: seq<Id>, i: nat)
    requires i < |s|
    ensures Elems(s[..i + 1]) == Elems(s[..i]) + {s[i]}
  {
    assert s[..i + 1] == s[..i] + [s[i]];
  }
}
