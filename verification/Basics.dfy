// What several parts of the model share.
module Basics {

  datatype Option<+T> = None | Some(value: T)

  type Byte = b: nat | b < 256

  // ---- counting ----

  // The numbers below n, of which there are n.
  lemma {:induction false} Numbers(n: nat) returns (all: set<nat>)
    ensures |all| == n && forall x: nat :: x in all <==> x < n
  {
    if n == 0 {
      all := {};
    } else {
      var rest := Numbers(n - 1);
      all := rest + {n - 1};
    }
  }

  lemma {:induction false} SubsetIsSmaller(a: set<nat>, b: set<nat>)
    requires a <= b
    ensures |a| <= |b|
  {
    if a != {} {
      var x :| x in a;
      SubsetIsSmaller(a - {x}, b - {x});
    }
  }

  lemma {:induction false} DistinctCount(v: seq<nat>) returns (all: set<nat>)
    requires forall i, j :: 0 <= i < j < |v| ==> v[i] != v[j]
    ensures |all| == |v| && forall x :: x in all <==> x in v
  {
    if v == [] {
      all := {};
    } else {
      var n := |v| - 1;
      var rest := DistinctCount(v[..n]);
      all := rest + {v[n]};
      assert v == v[..n] + [v[n]];
    }
  }
}
