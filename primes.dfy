/** The low prime used as the capacity of every accumulator table (`get_prime`). */
module Primes {

  predicate IsPrime(n: int)
  {
    n >= 2 && forall d :: 2 <= d < n ==> n % d != 0
  }

  /** Specification of `get_prime`: scan down from `n` to the first prime, stopping at 2. */
  function LowPrime(n: int): (p: int)
    ensures 2 <= p
    decreases n
  {
    if n <= 2 then 2 else if IsPrime(n) then n else LowPrime(n - 1)
  }

  /** `get_prime(n)` is a prime; for n >= 2 it is the largest prime not above n, else 2. */
  lemma {:induction false} LowPrimeIsLargest(n: int)
    ensures IsPrime(LowPrime(n))
    ensures n < 2 ==> LowPrime(n) == 2
    ensures n >= 2 ==> LowPrime(n) <= n && forall p :: LowPrime(n) < p <= n ==> !IsPrime(p)
    decreases n
  {
    if n <= 2 {
      assert IsPrime(2);
    } else if !IsPrime(n) {
      LowPrimeIsLargest(n - 1);
    }
  }

  /** Every prime up to n is a lower bound of `get_prime(n)`. */
  lemma LowPrimeAtLeast(n: int, p: int)
    requires IsPrime(p) && p <= n
    ensures p <= LowPrime(n)
  {
    LowPrimeIsLargest(n);
  }

  /** Products grow with either factor. */
  lemma MulMono(a: int, b: int, c: int)
    requires a >= 0 && b <= c
    ensures a * b <= a * c
  {
    assert a * c - a * b == a * (c - b);
  }

  /** A multiple of a is divisible by a. */
  lemma MultipleMod(a: int, b: int)
    requires a > 0
    ensures (a * b) % a == 0
  {
    var q, r := (a * b) / a, (a * b) % a;
    assert a * (b - q) == r;
    if b - q >= 1 {
      MulMono(a, 1, b - q);
    } else if b - q <= -1 {
      MulMono(a, b - q, -1);
    }
  }

  /** A number at least 2 is below its square. */
  lemma BelowSquare(d: int)
    requires d >= 2
    ensures d < d * d
  {
    MulMono(d, 2, d);
  }

  /** Trial division up to the square root decides primality. */
  lemma SquareRootTest(n: int, k: int)
    requires n >= 2 && k >= 2 && k * k > n
    requires forall d :: 2 <= d < k ==> n % d != 0
    ensures IsPrime(n)
  {
    forall d | k <= d < n
      ensures n % d != 0
    {
      CoFactor(n, d, k);
    }
  }

  /** A divisor d of n at least k leaves a co-factor n / d below k that also divides n. */
  lemma CoFactor(n: int, d: int, k: int)
    requires n >= 2 && 2 <= k <= d < n && k * k > n
    ensures n % d == 0 ==> exists e :: 2 <= e < k && n % e == 0
  {
    if n % d == 0 {
      var e := n / d;
      assert n == d * e;
      if e <= 1 {
        MulMono(d, e, 1);
      }
      assert e >= 2;
      if e >= k {
        MulMono(d, k, e);
        MulMono(k, k, d);
      }
      assert e < k;
      MultipleMod(e, d);
      assert n == e * d;
      assert n % e == 0;
    }
  }

  /** `get_prime`: decrement n until trial division finds no divisor; 2 at the bottom. */
  method GetPrime(n0: nat) returns (r: nat)
    ensures r == LowPrime(n0)
  {
    var n := n0;
    while n > 2
      invariant LowPrime(n) == LowPrime(n0)
      decreases n
    {
      var divisor: nat := 2;
      var found := true;
      while divisor * divisor <= n
        invariant 2 <= divisor <= n
        invariant forall d :: 2 <= d < divisor ==> n % d != 0
        decreases n - divisor
      {
        BelowSquare(divisor);
        if n % divisor == 0 {
          found := false;
          break;
        }
        divisor := divisor + 1;
      }
      if found {
        SquareRootTest(n, divisor);
        return n;
      }
      BelowSquare(divisor);
      n := n - 1;
    }
    return 2;
  }
}
