/** Primality by trial division up to the square root. */
module Primes {

  /** `n` is greater than 1 and has no divisor in 2..n-1. */
  predicate Prime(n: int) {
    n > 1 && forall d | 2 <= d < n :: n % d != 0
  }

  /** Multiplying by a non-negative factor keeps order. */
  lemma MulMono(a: int, b: int, c: int)
    requires a >= 0 && b <= c
    ensures a * b <= a * c
  {
    assert a * c - a * b == a * (c - b);
  }

  /** A multiple `d * e` of positive numbers is divisible by `e`. */
  lemma MultipleDivisible(d: int, e: int)
    requires d > 0 && e > 0
    ensures (d * e) % e == 0
  {
    var q, r := (d * e) / e, (d * e) % e;
    assert d * e == e * q + r && 0 <= r < e;
    assert e * (d - q) == r by {
      assert e * (d - q) == e * d - e * q;
    }
    if d - q >= 1 {
      MulMono(e, 1, d - q);
    } else if d - q <= -1 {
      MulMono(e, d - q, -1);
    }
  }

  /** A divisor at or above `i` pairs with one below `i` once `i * i` exceeds `n`. */
  lemma CoDivisor(n: int, d: int, i: int)
    requires 2 <= i <= d < n && n < i * i && n % d == 0
    ensures 2 <= n / d < i && n % (n / d) == 0
  {
    var e := n / d;
    assert n == d * e;
    if e <= 0 {
      MulMono(d, e, 0);
    } else if e == 1 {
    } else if e >= i {
      MulMono(e, i, d);
      MulMono(i, i, e);
      assert false;
    }
    MultipleDivisible(d, e);
  }

  /** Every number from 2 up is below its square. */
  lemma BelowSquare(i: int)
    requires i >= 2
    ensures i < i * i
  {
    MulMono(i, 2, i);
  }

  /** With no divisor below `i` and `i * i > n`, there is no divisor at all. */
  lemma NoLargeDivisor(n: int, i: int)
    requires n > 1 && i >= 2 && i * i > n
    requires forall d | 2 <= d < i :: n % d != 0
    ensures Prime(n)
  {
    forall d | 2 <= d < n
      ensures n % d != 0
    {
      if d >= i && n % d == 0 {
        CoDivisor(n, d, i);
      }
    }
  }

  /** `is_prime`: false for n <= 1, false at the first divisor i with i * i <= n, true when the loop ends. */
  method IsPrime(n: int) returns (b: bool)
    ensures b <==> Prime(n)
  {
    if n <= 1 {
      return false;
    }
    var i := 2;
    while i * i <= n
      invariant 2 <= i
      invariant forall d | 2 <= d < i :: n % d != 0
      decreases n - i
    {
      if n % i == 0 {
        BelowSquare(i);
        return false;
      }
      i := i + 1;
    }
    NoLargeDivisor(n, i);
    return true;
  }

  /** The two examples the program itself evaluates: 11 is prime and 4 is not. */
  lemma Examples()
    ensures Prime(11) && !Prime(4)
  {
    assert 4 % 2 == 0;
  }
}
