/** How many different numbers below n there can be. */
module Counting {

  ghost function Elements(s: seq<nat>): set<nat> {
    set x | x in s
  }

  lemma {:induction false} DistinctSize(s: seq<nat>)
    requires forall j, k | 0 <= j < k < |s| :: s[j] != s[k]
    ensures |Elements(s)| == |s|
  {
    if s != [] {
      var n := |s| - 1;
      DistinctSize(s[..n]);
      assert Elements(s) == Elements(s[..n]) + {s[n]};
    }
  }

  ghost function Range(n: nat): (r: set<nat>)
    ensures forall i: nat :: i in r <==> i < n
    ensures |r| == n
  {
    if n == 0 then {} else Range(n - 1) + {n - 1}
  }

  /** Distinct numbers below n are at most n, and n exactly when they are all there are. */
  lemma AllTaken(s: seq<nat>, n: nat)
    requires forall j, k | 0 <= j < k < |s| :: s[j] != s[k]
    requires forall k | 0 <= k < |s| :: s[k] < n
    ensures |s| <= n && (|s| == n <==> forall i: nat | i < n :: i in s)
  {
    DistinctSize(s);
    Subset(Elements(s), Range(n));
    if |s| == n {
      forall i: nat | i < n ensures i in s {
        assert i in Range(n) && i in Elements(s);
      }
    }
    if forall i: nat | i < n :: i in s {
      assert forall i | i in Range(n) :: i in Elements(s);
    }
  }

  lemma {:induction false} Subset(a: set<nat>, b: set<nat>)
    requires a <= b
    ensures |a| <= |b| && (|a| == |b| <==> a == b)
  {
    if a != {} {
      var x :| x in a;
      Subset(a - {x}, b - {x});
      assert a == b <==> a - {x} == b - {x};
    }
  }

  lemma AtMost(s: set<nat>, n: nat)
    requires forall i | i in s :: i < n
    ensures |s| <= n
  {
    Subset(s, Range(n));
  }
}
