/**
 * The number theory the prime sieve of TestSecrets is specified against:
 * divisibility, primality, and the set of primes below a bound.
 */
module Primes {

  /** d divides n (Dafny's % is Euclidean, so the sign of n does not matter here). */
  ghost predicate Divides(d: int, n: int)
  {
    d != 0 && n % d == 0
  }

  /** A prime is an integer of at least 2 with no divisor strictly between 1 and itself. */
  ghost predicate IsPrime(n: int)
  {
    2 <= n && forall d :: 2 <= d < n ==> !Divides(d, n)
  }

  /** All primes p with 2 <= p < n; the empty set when n <= 2. */
  ghost function PrimesBelow(n: int): set<int>
  {
    set p | 2 <= p < n && IsPrime(p)
  }

  /** A positive d divides every multiple d * m. */
  lemma DividesProduct(d: int, m: int)
    requires 1 <= d
    ensures Divides(d, d * m)
  {
  }

  /** d divides n exactly when n is d times the quotient n / d. */
  lemma DividesQuotient(d: int, n: int)
    requires 1 <= d && Divides(d, n)
    ensures n == d * (n / d)
  {
  }

  lemma DividesTransitive(a: int, b: int, c: int)
    requires 1 <= a && 1 <= b
    requires Divides(a, b) && Divides(b, c)
    ensures Divides(a, c)
  {
    var k, l := b / a, c / b;
    DividesQuotient(a, b);
    DividesQuotient(b, c);
    assert c == (a * k) * l;
    assert c == a * (k * l);
    DividesProduct(a, k * l);
  }

  /** A product of two factors that are both at least 2 is not prime. */
  lemma MultipleIsNotPrime(d: int, m: int)
    requires 2 <= d && 2 <= m
    ensures 2 <= d * m && !IsPrime(d * m)
  {
    assert d * m >= d * 2;
    DividesProduct(d, m);
  }

  lemma MulMonotone(a: int, b: int, c: int)
    requires 0 <= a && b <= c
    ensures a * b <= a * c
  {
  }

  /** A proper divisor a < n of n leaves a cofactor of at least 2. */
  lemma CofactorAtLeastTwo(a: int, b: int, n: int)
    requires 2 <= a < n && n == a * b
    ensures 2 <= b
  {
  }

  /**
   * Every composite n has a divisor d >= 2 with d * d <= n: of the two
   * cofactors d and n / d, the smaller one does.
   */
  lemma SmallDivisorOfComposite(n: int) returns (d: int)
    requires 2 <= n && !IsPrime(n)
    ensures 2 <= d && d * d <= n && Divides(d, n)
  {
    var a :| 2 <= a < n && Divides(a, n);
    var b := n / a;
    DividesQuotient(a, n);
    CofactorAtLeastTwo(a, b, n);
    DividesProduct(b, a);
    if a <= b {
      MulMonotone(a, a, b);
      d := a;
    } else {
      MulMonotone(b, b, a);
      d := b;
    }
  }

  /**
   * The only multiple of i in the window [i * m, i * m + i) is i * m itself:
   * consecutive multiples of i are i apart.
   */
  lemma OnlyMultipleInWindow(i: int, m: int, x: int)
    requires 1 <= i && Divides(i, x)
    requires i * m <= x < i * m + i
    ensures x == i * m
  {
    var k := x / i;
    DividesQuotient(i, x);
    if k < m {
      MulMonotone(i, k, m - 1);
      assert false;
    } else if k > m {
      MulMonotone(i, m + 1, k);
      assert false;
    }
  }

  /**
   * Trial division from d on: no candidate e with e * e <= n divides n.
   * On literal arguments the verifier evaluates a few steps of it at a time.
   */
  ghost predicate NoDivisorFrom(n: int, d: int)
    decreases n - d
  {
    d > n || d * d > n || (!Divides(d, n) && NoDivisorFrom(n, d + 1))
  }

  lemma {:induction false} NoDivisorFromSound(n: int, d: int)
    requires 2 <= d && NoDivisorFrom(n, d)
    ensures forall e :: d <= e && e * e <= n ==> !Divides(e, n)
    decreases n - d
  {
    if d > n || d * d > n {
      forall e | d <= e && e * e <= n
        ensures false
      {
        MulMonotone(e, d, e);
        MulMonotone(d, d, e);
      }
    } else {
      NoDivisorFromSound(n, d + 1);
    }
  }

  /** Trial division up to the square root decides primality. */
  lemma PrimeByTrialDivision(n: int)
    requires 2 <= n && NoDivisorFrom(n, 2)
    ensures IsPrime(n)
  {
    NoDivisorFromSound(n, 2);
    if !IsPrime(n) {
      var d := SmallDivisorOfComposite(n);
      assert false;
    }
  }

  /** Below 3 there is no prime: the sieve's degenerate bounds. */
  lemma NoPrimesBelowThree(n: int)
    requires n <= 2
    ensures PrimesBelow(n) == {}
  {
  }

  /** Moving the bound from n to n + 1 adds n exactly when n is prime. */
  lemma PrimesBelowStep(n: int)
    ensures IsPrime(n) ==> PrimesBelow(n + 1) == PrimesBelow(n) + {n}
    ensures !IsPrime(n) ==> PrimesBelow(n + 1) == PrimesBelow(n)
  {
  }

  /** Raising the bound never removes a prime. */
  lemma PrimesBelowMonotone(m: int, n: int)
    requires m <= n
    ensures PrimesBelow(m) <= PrimesBelow(n)
  {
  }

  /** The two smallest primes; every bound of at least 4 contains both. */
  lemma TwoAndThreeArePrime(n: int)
    requires 4 <= n
    ensures 2 in PrimesBelow(n) && 3 in PrimesBelow(n)
  {
  }

  /** The single prime below 3 is 2. */
  lemma PrimesBelowThree()
    ensures PrimesBelow(3) == {2}
  {
  }

  /** The worked example: the primes below 10 are 2, 3, 5 and 7. */
  lemma PrimesBelowTen()
    ensures PrimesBelow(10) == {2, 3, 5, 7}
  {
    assert IsPrime(2);
    assert !Divides(2, 3) && IsPrime(3);
    assert !Divides(2, 5) && !Divides(3, 5) && !Divides(4, 5) && IsPrime(5);
    assert !Divides(2, 7) && !Divides(3, 7) && !Divides(4, 7) && !Divides(5, 7) && !Divides(6, 7);
    assert IsPrime(7);
    assert Divides(2, 4) && Divides(2, 6) && Divides(2, 8) && Divides(3, 9);
    forall p | p in PrimesBelow(10) ensures p in {2, 3, 5, 7} {
      assert p != 4 && p != 6 && p != 8 && p != 9;
    }
  }
}
