/**
 Sequences without repetitions, and sizes of sets.
 */
module Sequences {

  ghost predicate Distinct(l: seq<int>) { forall i, j :: 0 <= i < j < |l| ==> l[i] != l[j] }

  /** The sequence without its k-th element. */
  function Without(l: seq<int>, k: int): (r: seq<int>)
    requires 0 <= k < |l|
    ensures |r| == |l| - 1 && forall i :: 0 <= i < |r| ==> r[i] == l[if i < k then i else i + 1]
  {
    l[..k] + l[k + 1..]
  }

  lemma WithoutIs(l: seq<int>, k: int)
    requires Distinct(l) && 0 <= k < |l|
    ensures Distinct(Without(l, k)) && forall y :: y in Without(l, k) <==> y in l && y != l[k]
  {
    var w := Without(l, k);
    forall y ensures y in w <==> y in l && y != l[k] {
      if y in l && y != l[k] {
        var j :| 0 <= j < |l| && l[j] == y;
        assert w[if j < k then j else j - 1] == y;
      }
    }
  }

  lemma {:induction false} SetSize<T>(a: set<T>, b: set<T>)
    requires a <= b
    ensures |a| <= |b|
  {
    if a != {} {
      var x :| x in a;
      SetSize(a - {x}, b - {x});
    }
  }
}
