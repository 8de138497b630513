/**
 * TestSecrets: decides whether an implementation of the Secret API (an
 * int -> int function) is additive over the primes below a bound N.
 * GetPrimeSet is the Sieve of Eratosthenes over [2, N); the checker
 * searches the ordered pairs of distinct primes for a counterexample to
 * s(i) + s(j) == s(i + j) and stops at the first one it meets.
 */
module TestSecrets {
  import opened Primes
  import NonAdditiveSecret

  /** The bound main falls back to when the input is unusable. */
  const DefaultN: int := 57

  /** The largest value of a Java int. */
  const JavaIntMax: int := 0x7fff_ffff

  /**
   * The largest bound for which every product the sieve computes fits in a
   * Java int: each candidate i < N has i * i <= 46340 * 46340 <= JavaIntMax.
   */
  const SieveBound: int := 46341

  /** The value a Java int holds after an arithmetic result x: x wrapped into 32 bits. */
  function Wrap32(x: int): (r: int)
    ensures -0x8000_0000 <= r <= JavaIntMax
    ensures (x - r) % 0x1_0000_0000 == 0
    ensures -0x8000_0000 <= x <= JavaIntMax ==> r == x
  {
    (x + 0x8000_0000) % 0x1_0000_0000 - 0x8000_0000
  }

  /**
   * The guard of getPrimeSet's marking loop as Java evaluates it: the product
   * wraps. It agrees with the overflow-free guard whenever the product fits.
   */
  function JavaMarkingGuard(i: int, multiplier: int, maxRange: int): (r: bool)
    ensures -0x8000_0000 <= i * multiplier <= JavaIntMax ==> (r <==> i * multiplier < maxRange)
  {
    Wrap32(i * multiplier) < maxRange
  }

  datatype Option<T> = None | Some(value: T)

  /**
   * The counterexample the checker reports when it stops: the pair and the
   * two sides of the failed equation, s(i) + s(j) and s(i + j).
   */
  datatype Violation = Violation(i: int, j: int, sumOfSecrets: int, secretOfSum: int)

  /** The equation the checker tests for one pair. */
  ghost predicate AdditiveOn(s: int -> int, i: int, j: int)
  {
    s(i) + s(j) == s(i + j)
  }

  /** s is additive on every pair of distinct members of primes. */
  ghost predicate AllPairsAdditive(s: int -> int, primes: set<int>)
  {
    forall i, j :: i in primes && j in primes && i != j ==> AdditiveOn(s, i, j)
  }

  /** v is a pair of distinct members of primes on which s fails, with the values s gives. */
  ghost predicate IsViolation(s: int -> int, primes: set<int>, v: Violation)
  {
    && v.i in primes && v.j in primes && v.i != v.j
    && v.sumOfSecrets == s(v.i) + s(v.j)
    && v.secretOfSum == s(v.i + v.j)
    && v.sumOfSecrets != v.secretOfSum
  }

  /** A tested pair: two distinct members of primes. */
  ghost predicate IsDistinctPairIn(pair: (int, int), primes: set<int>)
  {
    pair.0 in primes && pair.1 in primes && pair.0 != pair.1
  }

  /** No pair occurs twice in a trace of compared pairs. */
  ghost predicate NoRepeats(tested: seq<(int, int)>)
  {
    forall k, l :: 0 <= k < l < |tested| ==> tested[k] != tested[l]
  }

  /** Appending a pair the trace does not hold keeps it free of repeats. */
  lemma AppendFreshPair(tested: seq<(int, int)>, pair: (int, int))
    requires NoRepeats(tested) && pair !in tested
    ensures NoRepeats(tested + [pair])
  {
  }

  /** The check main applies to the number it read: a non-positive N becomes DefaultN. */
  function ValidatedMaxRange(n: int): (r: int)
    ensures r > 0
    ensures n > 0 ==> r == n
    ensures n <= 0 ==> r == DefaultN
  {
    if n <= 0 then DefaultN else n
  }

  // ---------------------------------------------------------------------
  // The sieve's loop invariants
  // ---------------------------------------------------------------------

  /** Everything marked is a composite below the bound: no prime is ever marked. */
  ghost predicate OnlyComposites(nonPrimes: set<int>, maxRange: int)
  {
    forall x :: x in nonPrimes ==> 2 <= x < maxRange && !IsPrime(x)
  }

  /**
   * Every x below the bound that has a divisor d with 2 <= d < c and
   * d * d <= x has been marked: the marks made by the candidates before c.
   */
  ghost predicate MarkedBefore(nonPrimes: set<int>, maxRange: int, c: int)
  {
    forall d, x :: 2 <= d < c && d * d <= x < maxRange && Divides(d, x) ==> x in nonPrimes
  }

  /** The multiples of the prime i from i * i on, below upTo, are marked. */
  ghost predicate MarkedMultiplesOf(nonPrimes: set<int>, i: int, upTo: int)
  {
    forall x :: i * i <= x < upTo && Divides(i, x) ==> x in nonPrimes
  }

  /** Candidates up to c have been sieved: an unmarked candidate c is prime. */
  lemma UnmarkedIsPrime(nonPrimes: set<int>, maxRange: int, c: int)
    requires 2 <= c < maxRange
    requires MarkedBefore(nonPrimes, maxRange, c)
    requires c !in nonPrimes
    ensures IsPrime(c)
  {
    if !IsPrime(c) {
      var d := SmallDivisorOfComposite(c);
      assert false;
    }
  }

  /**
   * A composite candidate c needs no marking of its own: the multiples of c
   * from c * c on are multiples of c's small divisor, marked already.
   */
  lemma CompositeAddsNoMarks(nonPrimes: set<int>, maxRange: int, c: int)
    requires 2 <= c && !IsPrime(c)
    requires MarkedBefore(nonPrimes, maxRange, c)
    ensures MarkedBefore(nonPrimes, maxRange, c + 1)
  {
    var a := SmallDivisorOfComposite(c);
    assert a < a * a;
    forall d, x | 2 <= d < c + 1 && d * d <= x < maxRange && Divides(d, x)
      ensures x in nonPrimes
    {
      if d == c {
        DividesTransitive(a, c, x);
        MulMonotone(c, 1, c);
      }
    }
  }

  /**
   * One step of the marking loop: marking i * m keeps the marks composite
   * and extends the marked multiples of i up to the next multiple.
   */
  lemma MarkStep(nonPrimes: set<int>, maxRange: int, i: int, m: int)
    requires 2 <= i <= m && i * m < maxRange
    requires OnlyComposites(nonPrimes, maxRange)
    requires MarkedBefore(nonPrimes, maxRange, i)
    requires MarkedMultiplesOf(nonPrimes, i, i * m)
    ensures i * (m + 1) == i * m + i
    ensures OnlyComposites(nonPrimes + {i * m}, maxRange)
    ensures MarkedBefore(nonPrimes + {i * m}, maxRange, i)
    ensures MarkedMultiplesOf(nonPrimes + {i * m}, i, i * (m + 1))
  {
    MultipleIsNotPrime(i, m);
    forall x | i * m <= x < i * m + i && Divides(i, x)
      ensures x == i * m
    {
      OnlyMultipleInWindow(i, m, x);
    }
  }

  /**
   * When the marking loop of a prime i ends (i * m has reached the bound),
   * the candidates up to and including i have been sieved.
   */
  lemma MarkingComplete(nonPrimes: set<int>, maxRange: int, i: int, m: int)
    requires 2 <= i && maxRange <= i * m
    requires MarkedBefore(nonPrimes, maxRange, i)
    requires MarkedMultiplesOf(nonPrimes, i, i * m)
    ensures MarkedBefore(nonPrimes, maxRange, i + 1)
  {
  }

  /**
   * The sieve of getPrimeSet: for each candidate i in [2, N) not yet marked
   * as composite, i is prime, and i * i, i * (i + 1), ... below N are marked.
   */
  method GetPrimeSet(maxRange: int) returns (primeSet: set<int>)
    ensures primeSet == PrimesBelow(maxRange)
    ensures maxRange <= 2 ==> primeSet == {}
  {
    primeSet := {};
    var nonPrimes: set<int> := {};
    if maxRange > 2 {
      for i := 2 to maxRange
        invariant primeSet == PrimesBelow(i)
        invariant OnlyComposites(nonPrimes, maxRange)
        invariant MarkedBefore(nonPrimes, maxRange, i)
      {
        PrimesBelowStep(i);
        if i !in nonPrimes {
          UnmarkedIsPrime(nonPrimes, maxRange, i);
          primeSet := primeSet + {i};
          if maxRange <= SieveBound {
            MulMonotone(i, i, SieveBound - 1);
            MulMonotone(SieveBound - 1, i, SieveBound - 1);
          }
          var multiplier := i;
          while i * multiplier < maxRange
            invariant i <= multiplier
            invariant maxRange <= SieveBound ==> JavaMarkingGuard(i, multiplier, maxRange) == (i * multiplier < maxRange)
            invariant OnlyComposites(nonPrimes, maxRange)
            invariant MarkedBefore(nonPrimes, maxRange, i)
            invariant MarkedMultiplesOf(nonPrimes, i, i * multiplier)
            decreases maxRange - i * multiplier
          {
            MarkStep(nonPrimes, maxRange, i, multiplier);
            nonPrimes := nonPrimes + {i * multiplier};
            multiplier := multiplier + 1;
          }
          MarkingComplete(nonPrimes, maxRange, i, multiplier);
        } else {
          CompositeAddsNoMarks(nonPrimes, maxRange, i);
        }
      }
    } else {
      NoPrimesBelowThree(maxRange);
    }
  }

  /**
   * isAdditiveForSpecifiedPrimes: builds the prime set below maxRange and
   * searches its ordered pairs (i, j), i != j, in the set's iteration order
   * (left unspecified: each pick is arbitrary) for one with
   * s(i) + s(j) != s(i + j), leaving both loops at the first it finds.
   * An empty prime set is never confirmed additive.
   * breaker is the counterexample the source prints when it stops; the ghost
   * trace tested lists the pairs compared, in order.
   */
  method IsAdditiveForSpecifiedPrimes(s: int -> int, maxRange: int)
    returns (isAdditiveMethod: bool, breaker: Option<Violation>, ghost tested: seq<(int, int)>)
    ensures isAdditiveMethod <==> PrimesBelow(maxRange) != {} && AllPairsAdditive(s, PrimesBelow(maxRange))
    ensures maxRange <= 2 ==> !isAdditiveMethod
    ensures breaker.Some? <==> !AllPairsAdditive(s, PrimesBelow(maxRange))
    ensures breaker.Some? ==> IsViolation(s, PrimesBelow(maxRange), breaker.value)
    // Short-circuit: every pair compared is a pair of distinct primes, every one
    // before the last passed, and the search stopped at the reported pair ...
    ensures forall k :: 0 <= k < |tested| ==> IsDistinctPairIn(tested[k], PrimesBelow(maxRange))
    ensures forall k :: 0 <= k < |tested| - 1 ==> AdditiveOn(s, tested[k].0, tested[k].1)
    ensures breaker.Some? ==> |tested| > 0 && tested[|tested| - 1] == (breaker.value.i, breaker.value.j)
    // ... or, when it did not stop, it compared every ordered pair and all passed.
    ensures breaker.None? ==> forall k :: 0 <= k < |tested| ==> AdditiveOn(s, tested[k].0, tested[k].1)
    ensures breaker.None? ==> forall i, j :: i in PrimesBelow(maxRange) && j in PrimesBelow(maxRange) && i != j ==> (i, j) in tested
    // No ordered pair is compared twice.
    ensures NoRepeats(tested)
  {
    isAdditiveMethod := false;
    breaker := None;
    tested := [];
    var primeSet := GetPrimeSet(maxRange);
    if primeSet != {} {
      var isAdditiveForSet := true;
      var outer := primeSet;
      label comboCheck:
      while outer != {}
        invariant outer <= primeSet
        invariant isAdditiveForSet && breaker.None?
        invariant forall k :: 0 <= k < |tested| ==> IsDistinctPairIn(tested[k], primeSet)
        invariant forall k :: 0 <= k < |tested| ==> AdditiveOn(s, tested[k].0, tested[k].1)
        invariant forall i, j :: i in primeSet && i !in outer && j in primeSet && i != j ==> (i, j) in tested
        invariant forall k :: 0 <= k < |tested| ==> tested[k].0 !in outer
        invariant NoRepeats(tested)
        decreases outer
      {
        var i :| i in outer;
        var inner := primeSet;
        while inner != {}
          invariant inner <= primeSet
          invariant isAdditiveForSet && breaker.None?
          invariant forall k :: 0 <= k < |tested| ==> IsDistinctPairIn(tested[k], primeSet)
          invariant forall k :: 0 <= k < |tested| ==> AdditiveOn(s, tested[k].0, tested[k].1)
          invariant forall a, j :: a in primeSet && a !in outer && j in primeSet && a != j ==> (a, j) in tested
          invariant forall j :: j in primeSet && j !in inner && i != j ==> (i, j) in tested
          invariant forall k :: 0 <= k < |tested| ==> tested[k].0 !in outer || (tested[k].0 == i && tested[k].1 !in inner)
          invariant NoRepeats(tested)
          decreases inner
        {
          var j :| j in inner;
          inner := inner - {j};
          if i == j {
            continue;
          }
          AppendFreshPair(tested, (i, j));
          tested := tested + [(i, j)];
          if s(i) + s(j) != s(i + j) {
            breaker := Some(Violation(i, j, s(i) + s(j), s(i + j)));
            isAdditiveForSet := false;
            break comboCheck;
          }
        }
        outer := outer - {i};
      }
      if isAdditiveForSet {
        isAdditiveMethod := true;
      }
    }
  }

  // ---------------------------------------------------------------------
  // What the verdict is for particular functions and bounds
  // ---------------------------------------------------------------------

  /**
   * The pair order does not matter: the equation is symmetric in i and j,
   * so checking each unordered pair once gives the same verdict.
   */
  lemma UnorderedPairsSuffice(s: int -> int, primes: set<int>)
    ensures AllPairsAdditive(s, primes) <==>
      forall i, j :: i in primes && j in primes && i < j ==> AdditiveOn(s, i, j)
  {
  }

  /**
   * At N = 3 the prime set is {2}: there is no pair of distinct primes, so
   * every function passes, while below 3 the empty set fails every function.
   */
  lemma SinglePrimePassesVacuously(s: int -> int)
    ensures PrimesBelow(3) == {2}
    ensures PrimesBelow(3) != {} && AllPairsAdditive(s, PrimesBelow(3))
  {
  }

  /** A linear function x => c * x is confirmed additive for every N >= 3. */
  lemma LinearIsAccepted(c: int, maxRange: int)
    requires 3 <= maxRange
    ensures PrimesBelow(maxRange) != {}
    ensures AllPairsAdditive(x => c * x, PrimesBelow(maxRange))
  {
    PrimesBelowThree();
    PrimesBelowMonotone(3, maxRange);
    forall i, j ensures c * i + c * j == c * (i + j) {
    }
  }

  /**
   * The square of NonAdditiveSecret fails on every pair of distinct positive
   * members of a set, so it fails on any set of primes with two members.
   */
  lemma SecretFailsOnDistinctPositives(primes: set<int>, i: int, j: int)
    requires i in primes && j in primes && i != j && 0 < i && 0 < j
    ensures !AllPairsAdditive(NonAdditiveSecret.Secret, primes)
  {
  }

  /**
   * The verdict on NonAdditiveSecret: confirmed additive only at N = 3, where
   * the single prime 2 leaves no pair to test; rejected for N <= 2 (no primes)
   * and for every N >= 4 (the primes 2 and 3 give 4 + 9 != 25).
   */
  lemma NonAdditiveSecretVerdict(maxRange: int)
    ensures (PrimesBelow(maxRange) != {} && AllPairsAdditive(NonAdditiveSecret.Secret, PrimesBelow(maxRange)))
      <==> maxRange == 3
  {
    if maxRange <= 2 {
      NoPrimesBelowThree(maxRange);
    } else if maxRange == 3 {
      SinglePrimePassesVacuously(NonAdditiveSecret.Secret);
    } else {
      TwoAndThreeArePrime(maxRange);
      SecretFailsOnDistinctPositives(PrimesBelow(maxRange), 2, 3);
    }
  }

  /**
   * As written, the marking loop of getPrimeSet does not stop for
   * N = Integer.MAX_VALUE: the first candidate, 2, is unmarked, and every
   * product 2 * multiplier wraps to an even int, which is always below the
   * odd bound, whatever int the multiplier has reached. Computed without
   * overflow (as GetPrimeSet does), the guard fails from 2^30 on.
   */
  lemma MarkingLoopNeverEndsAtIntMax(multiplier: int)
    requires -0x8000_0000 <= multiplier <= JavaIntMax
    ensures JavaMarkingGuard(2, multiplier, JavaIntMax)
    ensures multiplier >= 0x4000_0000 ==> !(2 * multiplier < JavaIntMax)
  {
  }

  /** 46349 is prime. */
  lemma CandidateIsPrime46349()
    ensures IsPrime(46349)
  {
    // trial division, five candidate divisors per step, up to 216 > sqrt(46349)
    calc <== {
      NoDivisorFrom(46349, 2); NoDivisorFrom(46349, 7); NoDivisorFrom(46349, 12); NoDivisorFrom(46349, 17); NoDivisorFrom(46349, 22);
      NoDivisorFrom(46349, 27); NoDivisorFrom(46349, 32); NoDivisorFrom(46349, 37); NoDivisorFrom(46349, 42); NoDivisorFrom(46349, 47);
      NoDivisorFrom(46349, 52); NoDivisorFrom(46349, 57); NoDivisorFrom(46349, 62); NoDivisorFrom(46349, 67); NoDivisorFrom(46349, 72);
      NoDivisorFrom(46349, 77); NoDivisorFrom(46349, 82); NoDivisorFrom(46349, 87); NoDivisorFrom(46349, 92); NoDivisorFrom(46349, 97);
      NoDivisorFrom(46349, 102); NoDivisorFrom(46349, 107); NoDivisorFrom(46349, 112); NoDivisorFrom(46349, 117); NoDivisorFrom(46349, 122);
      NoDivisorFrom(46349, 127); NoDivisorFrom(46349, 132); NoDivisorFrom(46349, 137); NoDivisorFrom(46349, 142); NoDivisorFrom(46349, 147);
      NoDivisorFrom(46349, 152); NoDivisorFrom(46349, 157); NoDivisorFrom(46349, 162); NoDivisorFrom(46349, 167); NoDivisorFrom(46349, 172);
      NoDivisorFrom(46349, 177); NoDivisorFrom(46349, 182); NoDivisorFrom(46349, 187); NoDivisorFrom(46349, 192); NoDivisorFrom(46349, 197);
      NoDivisorFrom(46349, 202); NoDivisorFrom(46349, 207); NoDivisorFrom(46349, 212); NoDivisorFrom(46349, 216);
    }
    PrimeByTrialDivision(46349);
  }

  /**
   * 46349 is the first prime candidate whose square is past Integer.MAX_VALUE:
   * 46341 is the first number whose square is, and 46341 to 46348 are composite.
   */
  lemma FirstPrimePastSquareBound()
    ensures 46340 * 46340 <= JavaIntMax < 46341 * 46341
    ensures forall c :: 46341 <= c < 46349 ==> !IsPrime(c)
    ensures IsPrime(46349)
  {
    MultipleIsNotPrime(3, 15447);
    MultipleIsNotPrime(2, 23171);
    MultipleIsNotPrime(11, 4213);
    MultipleIsNotPrime(2, 23172);
    MultipleIsNotPrime(5, 9269);
    MultipleIsNotPrime(2, 23173);
    MultipleIsNotPrime(3, 15449);
    MultipleIsNotPrime(2, 23174);
    CandidateIsPrime46349();
  }

  /** 55487, the prime the wrapped marking of 46349 hits. */
  lemma MarkedIsPrime55487()
    ensures IsPrime(55487)
  {
    // trial division, five candidate divisors per step, up to 236 > sqrt(55487)
    calc <== {
      NoDivisorFrom(55487, 2); NoDivisorFrom(55487, 7); NoDivisorFrom(55487, 12); NoDivisorFrom(55487, 17); NoDivisorFrom(55487, 22);
      NoDivisorFrom(55487, 27); NoDivisorFrom(55487, 32); NoDivisorFrom(55487, 37); NoDivisorFrom(55487, 42); NoDivisorFrom(55487, 47);
      NoDivisorFrom(55487, 52); NoDivisorFrom(55487, 57); NoDivisorFrom(55487, 62); NoDivisorFrom(55487, 67); NoDivisorFrom(55487, 72);
      NoDivisorFrom(55487, 77); NoDivisorFrom(55487, 82); NoDivisorFrom(55487, 87); NoDivisorFrom(55487, 92); NoDivisorFrom(55487, 97);
      NoDivisorFrom(55487, 102); NoDivisorFrom(55487, 107); NoDivisorFrom(55487, 112); NoDivisorFrom(55487, 117); NoDivisorFrom(55487, 122);
      NoDivisorFrom(55487, 127); NoDivisorFrom(55487, 132); NoDivisorFrom(55487, 137); NoDivisorFrom(55487, 142); NoDivisorFrom(55487, 147);
      NoDivisorFrom(55487, 152); NoDivisorFrom(55487, 157); NoDivisorFrom(55487, 162); NoDivisorFrom(55487, 167); NoDivisorFrom(55487, 172);
      NoDivisorFrom(55487, 177); NoDivisorFrom(55487, 182); NoDivisorFrom(55487, 187); NoDivisorFrom(55487, 192); NoDivisorFrom(55487, 197);
      NoDivisorFrom(55487, 202); NoDivisorFrom(55487, 207); NoDivisorFrom(55487, 212); NoDivisorFrom(55487, 217); NoDivisorFrom(55487, 222);
      NoDivisorFrom(55487, 227); NoDivisorFrom(55487, 232); NoDivisorFrom(55487, 236);
    }
    PrimeByTrialDivision(55487);
  }

  /**
   * As written, getPrimeSet(60000) leaves out the prime 55487. No product
   * wraps for the candidates below 46341 (they sieve as GetPrimeSet does),
   * the composites 46341 to 46348 are marked, and so the prime 46349 is
   * reached unmarked (FirstPrimePastSquareBound), although its square is past
   * Integer.MAX_VALUE. Its marking loop runs on through wrapped products, all
   * below the bound, until the product for multiplier 92667 wraps to 55487,
   * which is added to nonPrimes; the next one wraps to 101836 and ends the
   * loop. The candidate 55487 is then skipped as marked, although it is prime,
   * so it is one of PrimesBelow(60000), which GetPrimeSet returns.
   */
  lemma JavaSieveMarksPrimeBelow60000()
    ensures IsPrime(46349) && 46349 * 46349 > JavaIntMax
    ensures forall m :: 46349 <= m <= 92667 ==> JavaMarkingGuard(46349, m, 60000)
    ensures Wrap32(46349 * 92667) == 55487
    ensures !JavaMarkingGuard(46349, 92668, 60000)
    ensures IsPrime(55487) && 55487 in PrimesBelow(60000)
  {
    FirstPrimePastSquareBound();
    MarkedIsPrime55487();
    forall m | 46349 <= m <= 92667
      ensures JavaMarkingGuard(46349, m, 60000)
    {
      MulMonotone(46349, 46349, m);
      MulMonotone(46349, m, 92667);
    }
  }
}
