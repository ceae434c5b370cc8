/** Facts about the sizes of finite sets. */
module FiniteSets {
  lemma {:induction false} SubsetIsSmaller<T>(a: set<T>, b: set<T>)
    requires a <= b
    ensures |a| <= |b|
    decreases a
  {
    if x :| x in a {
      SubsetIsSmaller(a - {x}, b - {x});
    }
  }

  lemma SubsetOfSameSize<T>(a: set<T>, b: set<T>)
    requires a <= b && |b| <= |a|
    ensures a == b
  {
    forall x | x in b ensures x in a {
      if x !in a {
        assert |b - {x}| == |b| - 1;
        SubsetIsSmaller(a, b - {x});
      }
    }
  }

  function Below(n: nat): (r: set<nat>)
    ensures |r| == n && forall i: nat :: i in r <==> i < n
  {
    if n == 0 then {} else Below(n - 1) + {n - 1}
  }

  /** Numbers below `n` are at most `n` many, and if there are that many, they are all. */
  lemma FewBelow(s: set<nat>, n: nat)
    requires forall i :: i in s ==> i < n
    ensures |s| <= n && (|s| == n ==> s == Below(n))
  {
    SubsetIsSmaller(s, Below(n));
    if |s| == n {
      SubsetOfSameSize(s, Below(n));
    }
  }
}
