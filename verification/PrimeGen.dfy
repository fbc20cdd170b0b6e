/** simple_primegen() of primegen.c: trial division by every number from 2 to below limit / 2, whatever the candidate. */
module PrimeGen {
  predicate Divides(d: nat, n: nat)
    requires d > 0
  {
    n % d == 0
  }

  ghost predicate Prime(n: int) {
    n >= 2 && forall d: nat :: 2 <= d < n ==> !Divides(d, n)
  }

  /** The inner loop lets `i` through. */
  ghost predicate Passes(i: nat, limit: nat) {
    forall j: nat :: 2 <= j < limit / 2 && j != i ==> !Divides(j, i)
  }

  ghost predicate Ascending(out: seq<nat>) {
    forall k, m :: 0 <= k < m < |out| ==> out[k] < out[m]
  }

  lemma AscendingSnoc(out: seq<nat>, n: nat)
    requires Ascending(out) && forall x: nat :: x in out ==> x < n
    ensures Ascending(out + [n])
  {
    forall k | 0 <= k < |out| ensures out[k] < n {
      assert out[k] in out;
    }
  }

  /** 2, 3 and whatever passes from 4 on. */
  ghost predicate Printed(out: seq<nat>, limit: nat) {
    forall n: nat :: n in out <==> n == 2 || n == 3 || (4 <= n <= limit && Passes(n, limit))
  }

  /** The numbers printed, in order; `num` is the program's count of them. */
  method SimplePrimegen(limit: nat) returns (out: seq<nat>, num: nat)
    ensures num == |out| && Ascending(out) && Printed(out, limit)
  {
    num := 2;
    out := [2, 3];
    var i := 4;
    while i <= limit
      invariant i >= 4 && num == |out| && Ascending(out)
      invariant forall n: nat :: n in out <==> n == 2 || n == 3 || (4 <= n < i && n <= limit && Passes(n, limit))
    {
      var isPrime := true;
      var j := 2;
      while j < limit / 2
        invariant 2 <= j && isPrime
        invariant forall d: nat :: 2 <= d < j && d != i ==> !Divides(d, i)
      {
        if i != j && i % j == 0 {
          assert Divides(j, i) && !Passes(i, limit);
          isPrime := false;
          break;
        }
        j := j + 1;
      }
      if isPrime {
        assert Passes(i, limit);
        num := num + 1;
        AscendingSnoc(out, i);
        out := out + [i];
      }
      i := i + 1;
    }
  }

  // ----- what passes -----

  /** A composite number has a factor whose square does not exceed it. */
  lemma SmallFactor(n: nat, d: nat) returns (p: nat)
    requires 2 <= d < n && Divides(d, n)
    ensures 2 <= p && p * p <= n && Divides(p, n)
  {
    var q := n / d;
    assert n == q * d;
    if d <= q {
      assert d * d <= q * d;
      p := d;
    } else {
      if q < 2 { assert false; }
      assert q * q <= q * d;
      MultipleDivides(q, d);
      p := q;
    }
  }

  lemma MultipleDivides(q: nat, d: nat)
    requires q > 0
    ensures Divides(q, q * d)
  {
    var n := q * d;
    assert n == q * (n / q) + n % q;
    assert q * (d - n / q) == n % q;
    OnlyZeroBelow(q, d - n / q);
  }

  lemma OnlyZeroBelow(q: nat, t: int)
    requires 0 <= q * t < q
    ensures t == 0
  {
  }

  /** From limit 6 on, the bound limit / 2 covers such a factor for every composite number up to the limit. */
  lemma CompositeCaught(i: nat, limit: nat, d: nat) returns (p: nat)
    requires 6 <= limit && 4 <= i <= limit && 2 <= d < i && Divides(d, i)
    ensures 2 <= p < limit / 2 && p != i && Divides(p, i)
  {
    p := SmallFactor(i, d);
    if p >= 3 {
      assert p * p >= 3 * p;
    }
    assert p * p >= 2 * p;
  }

  lemma PassesExactlyPrimes(i: nat, limit: nat)
    requires 6 <= limit && 4 <= i <= limit
    ensures Passes(i, limit) <==> Prime(i)
  {
    if !Prime(i) {
      var d: nat :| 2 <= d < i && Divides(d, i);
      var p := CompositeCaught(i, limit, d);
    } else {
      forall j: nat | 2 <= j < limit / 2 && j != i ensures !Divides(j, i) {
        if j > i { assert i % j == i; }
      }
    }
  }

  ghost predicate ExactlyPrimes(out: seq<nat>, limit: nat) {
    forall n: nat :: n in out <==> Prime(n) && n <= limit
  }

  /**
   The output is exactly the primes up to `limit` if and only if the limit is 3 or at least 6. For 4 and 5, the limits
   below 6 that main() lets through, it is the primes and the number 4.
   */
  lemma PrimesExactlyFrom6(out: seq<nat>, limit: nat)
    requires Printed(out, limit)
    ensures ExactlyPrimes(out, limit) <==> limit == 3 || limit >= 6
    ensures limit == 4 || limit == 5 ==> forall n: nat :: n in out <==> n == 4 || (Prime(n) && n <= limit)
  {
    SmallPrimes();
    if limit >= 6 {
      forall n: nat ensures n in out <==> Prime(n) && n <= limit {
        if 4 <= n <= limit { PassesExactlyPrimes(n, limit); }
      }
    } else if limit >= 4 {
      assert Passes(4, limit) && Passes(5, limit);
      assert 4 in out;
    } else {
      assert 3 in out;
    }
  }

  lemma SmallPrimes()
    ensures Prime(2) && Prime(3) && !Prime(4) && Prime(5)
    ensures forall n :: Prime(n) && n < 4 ==> n == 2 || n == 3
  {
    assert Divides(2, 4);
  }
}
