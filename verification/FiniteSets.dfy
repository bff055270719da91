/** Counting distinct indices below a bound. */
module FiniteSets {

  ghost function Below(n: nat): set<nat> {
    if n == 0 then {} else Below(n - 1) + {n - 1}
  }

  lemma {:induction false} BelowHas(n: nat, i: nat)
    ensures i in Below(n) <==> i < n
  {
    if n != 0 {
      BelowHas(n - 1, i);
    }
  }

  lemma {:induction false} BelowSize(n: nat)
    ensures |Below(n)| == n
  {
    if n != 0 {
      BelowSize(n - 1);
      BelowHas(n - 1, n - 1);
    }
  }

  lemma {:induction false} SubsetSize<T>(a: set<T>, b: set<T>)
    requires a <= b
    ensures |a| <= |b|
    ensures |a| == |b| ==> a == b
  {
    if a != {} {
      var x :| x in a;
      SubsetSize(a - {x}, b - {x});
    }
  }

  /** Indices below `n` number at most `n`, and `n` of them are all of them. */
  lemma IndicesBelow(s: set<nat>, n: nat)
    requires forall i :: i in s ==> i < n
    ensures |s| <= n
    ensures |s| == n ==> forall i: nat :: i < n ==> i in s
  {
    forall i | i in s
      ensures i in Below(n)
    {
      BelowHas(n, i);
    }
    BelowSize(n);
    SubsetSize(s, Below(n));
    if |s| == n {
      forall i: nat | i < n
        ensures i in s
      {
        BelowHas(n, i);
      }
    }
  }
}
