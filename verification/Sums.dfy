/** Sums over sequences. */
module Sums {
  ghost function Sum<T>(f: T -> int, s: seq<T>): int {
    if s == [] then 0 else Sum(f, s[..|s| - 1]) + f(s[|s| - 1])
  }

  lemma {:induction false} SumUpdate<T>(f: T -> int, s: seq<T>, t: nat, x: T)
    requires t < |s|
    ensures Sum(f, s[t := x]) == Sum(f, s) - f(s[t]) + f(x)
  {
    var n := |s| - 1;
    if t == n {
      assert s[t := x][..n] == s[..n];
    } else {
      assert s[t := x][..n] == s[..n][t := x];
      SumUpdate(f, s[..n], t, x);
    }
  }

  /** A sum of terms of at most `v` reaches its greatest value only if every term does. */
  lemma {:induction false} SumBound<T>(f: T -> int, s: seq<T>, v: int)
    requires forall t :: 0 <= t < |s| ==> f(s[t]) <= v
    ensures Sum(f, s) <= |s| * v
    ensures Sum(f, s) == |s| * v <==> forall t :: 0 <= t < |s| ==> f(s[t]) == v
  {
    if s != [] {
      var n := |s| - 1;
      SumBound(f, s[..n], v);
      assert |s| * v == n * v + v;
      assert (forall t :: 0 <= t < |s| ==> f(s[t]) == v) <==> f(s[n]) == v && forall t :: 0 <= t < n ==> f(s[..n][t]) == v;
    }
  }

  lemma SumConstant<T>(f: T -> int, s: seq<T>, v: int)
    requires forall t :: 0 <= t < |s| ==> f(s[t]) == v
    ensures Sum(f, s) == |s| * v
  {
    SumBound(f, s, v);
  }
}
