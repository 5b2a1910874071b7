/** The mathematical factorial that both CPU-bound workloads are measured against. */
module Factorial {

  /** n! = 1 * 2 * ... * n, with 0! = 1; never smaller than 1. */
  function Fact(n: nat): (r: nat)
    ensures r >= 1
  {
    if n == 0 then 1 else n * Fact(n - 1)
  }

  /** The recurrence an accumulator loop relies on: (n+1)! = (n+1) * n!. */
  lemma FactRecurrence(n: nat)
    ensures Fact(n + 1) == (n + 1) * Fact(n)
  {
  }

  /** n! grows strictly from 1! on: (n-1)! < n! for every n >= 2. */
  lemma {:induction false} FactIncreasing(n: nat)
    requires n >= 2
    ensures Fact(n - 1) < Fact(n)
  {
    assert Fact(n) == n * Fact(n - 1);
    MulGrows(n, Fact(n - 1));
  }

  /** Every integer d in 1..n is a factor of n!: n! == d * c for some c. */
  lemma {:induction false} FactMultiple(n: nat, d: nat) returns (c: nat)
    requires 1 <= d <= n
    ensures Fact(n) == d * c
  {
    if d == n {
      c := Fact(n - 1);
    } else {
      var c' := FactMultiple(n - 1, d);
      c := n * c';
      MulRotate(n, d, c');
    }
  }

  /** Every integer d in 1..n divides n! without remainder. */
  lemma FactDivisible(n: nat, d: nat)
    requires 1 <= d <= n
    ensures Fact(n) % d == 0
  {
    var c := FactMultiple(n, d);
    MultipleMod(c, d);
  }

  lemma MulGrows(a: nat, b: nat)
    requires a >= 2 && b >= 1
    ensures b < a * b
  {
  }

  lemma MulRotate(a: int, b: int, c: int)
    ensures a * (b * c) == b * (a * c)
  {
  }

  lemma MulAtLeast(a: int, d: int)
    requires a >= 1 && d >= 1
    ensures d * a >= d
  {
  }

  lemma Distribute(d: int, q: int, k: int)
    ensures d * q - d * k == d * (q - k)
  {
  }

  /** A multiple of d leaves no remainder when divided by d. */
  lemma MultipleMod(q: nat, d: nat)
    requires d >= 1
    ensures (d * q) % d == 0
  {
    var x := d * q;
    var r := x % d;
    var k := x / d;
    assert x == d * k + r;
    Distribute(d, q, k);
    assert d * (q - k) == r;
    if q > k {
      MulAtLeast(q - k, d);
    } else if q < k {
      MulAtLeast(k - q, d);
      Distribute(d, k, q);
    }
  }
}
