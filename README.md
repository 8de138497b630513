# Additivity of a Secret over the primes below N

This project models the core of a small Java utility. The utility tests whether an implementation of the
`Secret` API (a function from int to int) is additive over the primes below a bound N, that is,
whether `secret(i) + secret(j) == secret(i + j)` for every pair of distinct primes `i`, `j` below N.

The model has three modules:

- `Primes` (Primes.dfy) is the number theory the sieve is specified against. It defines
  divisibility, primality and `PrimesBelow(n)`, the set of primes p with 2 <= p < n, and proves the
  facts the sieve's proof needs.
- `TestSecrets` (TestSecrets.dfy) holds the two algorithms of `TestSecrets.java`:
  - `GetPrimeSet` is the Sieve of Eratosthenes. It uses two local mutable sets, `primeSet` and
    `nonPrimes`, a `for` loop over the candidates and a `while` loop over the multiplier, which
    starts at the candidate itself. It is proved to return exactly `PrimesBelow(N)`.
  - `IsAdditiveForSpecifiedPrimes` is the pairwise search. It has two nested loops over the prime
    set and a labelled `break comboCheck` out of both. Each pick from the set is arbitrary, which
    stands for `HashSet` iteration order. The verdict is proved to be exactly "the prime set is
    non-empty and every pair of distinct primes satisfies the equation", so it does not depend on
    the iteration order. The counterexample the Java prints when it stops is returned as
    `breaker`. A ghost trace `tested` records the pairs compared, which lets the contract state
    the short-circuit behaviour.
  - The module also proves what the verdict is for linear functions, for the single-prime set at
    N = 3, and for `NonAdditiveSecret`.
- `NonAdditiveSecret` (NonAdditiveSecret.dfy) is the vendor implementation `secret(x) = x*x`, with
  its non-additivity proved.

The Java `Secret` interface becomes the function type `int -> int`: the checker takes the
function under test as a parameter.

## Model

| member | source | states |
|---|---|---|
| `TestSecrets.GetPrimeSet` | src/com/test/api/TestSecrets.java:106-126 | the returned set is exactly the primes p with 2 <= p < N (soundness and completeness); it is empty when N <= 2; for N <= 46341 every product the marking loop evaluates fits in a Java int, so the Java guard and the mathematical guard agree |
| `TestSecrets.IsAdditiveForSpecifiedPrimes` | src/com/test/api/TestSecrets.java:68-99 | true iff the prime set below N is non-empty and s(i) + s(j) == s(i + j) for every pair of distinct primes; false whenever N <= 2; the reported counterexample exists iff some pair fails, is a pair of distinct primes and carries the two unequal sides; every pair compared is distinct primes and none is compared twice; all pairs before the last passed and the last is the reported one; with no counterexample every ordered pair was compared |
| `TestSecrets.ValidatedMaxRange` | src/com/test/api/TestSecrets.java:38-41 | the bound main uses is always positive: a positive input is kept, a non-positive one becomes DEFAULT_N = 57 |
| `TestSecrets.UnmarkedIsPrime` | src/com/test/api/TestSecrets.java:116-118 | once every candidate below c has marked its multiples from its square on, a candidate c that is not marked is prime |
| `TestSecrets.CompositeAddsNoMarks` | src/com/test/api/TestSecrets.java:116-117 | a marked (composite) candidate is skipped without loss: its multiples from its square on are already marked through its smallest divisor |
| `TestSecrets.MarkStep` | src/com/test/api/TestSecrets.java:119-120 | marking i * multiplier keeps every mark composite and below N, and extends the marked multiples of i to the next multiple |
| `TestSecrets.MarkingComplete` | src/com/test/api/TestSecrets.java:119-121 | when the marking loop of i stops, every number below N with a divisor d <= i and d * d <= it is marked |
| `TestSecrets.UnorderedPairsSuffice` | src/com/test/api/TestSecrets.java:78-83 | checking every ordered pair gives the same verdict as checking each unordered pair once, because the equation is symmetric |
| `TestSecrets.SinglePrimePassesVacuously` | src/com/test/api/TestSecrets.java:72-95 | at N = 3 the prime set is {2}; it is non-empty and has no pair of distinct primes, so every function is confirmed additive |
| `TestSecrets.LinearIsAccepted` | src/com/test/api/TestSecrets.java:74-95 | for every N >= 3 the prime set is non-empty and x => c * x satisfies the equation on all of it, so it is confirmed additive |
| `TestSecrets.SecretFailsOnDistinctPositives` | src/com/test/api/TestSecrets.java:83-88 | any set with two distinct positive members contains a counterexample for x * x |
| `TestSecrets.NonAdditiveSecretVerdict` | src/com/test/api/TestSecrets.java:46-50 | the check confirms NonAdditiveSecret as additive exactly when N = 3; it rejects it for N <= 2 (no primes) and for every N >= 4 (the primes 2 and 3) |
| `TestSecrets.Wrap32` | src/com/test/api/TestSecrets.java:119 | the int a Java arithmetic result is stored as: within the int range, congruent to the result modulo 2^32, and equal to it when it fits |
| `TestSecrets.JavaMarkingGuard` | src/com/test/api/TestSecrets.java:119 | the marking loop's guard `i*multiplier < maxRange` as Java evaluates it, on the wrapped product; it agrees with the overflow-free guard whenever the product fits in an int |
| `TestSecrets.MarkingLoopNeverEndsAtIntMax` | src/com/test/api/TestSecrets.java:119 | as written, with N = Integer.MAX_VALUE the guard of the marking loop for i = 2 holds for every int multiplier, while the overflow-free guard fails from 2^30 on |
| `TestSecrets.JavaSieveMarksPrimeBelow60000` | src/com/test/api/TestSecrets.java:116-120 | as written, with N = 60000 the candidate 46349 is prime and its square is past Integer.MAX_VALUE; the wrapped guard holds for every multiplier from 46349 to 92667; the product for 92667 wraps to 55487 and is marked; the guard fails at 92668; and 55487 is a prime below 60000 |
| `TestSecrets.FirstPrimePastSquareBound` | src/com/test/api/TestSecrets.java:116-119 | 46341 is the first candidate whose square is past Integer.MAX_VALUE, 46341 to 46348 are composite (so marked), and 46349 is prime (so reached unmarked) |
| `TestSecrets.CandidateIsPrime46349` | src/com/test/api/TestSecrets.java:116-118 | 46349 is prime |
| `TestSecrets.MarkedIsPrime55487` | src/com/test/api/TestSecrets.java:116-118 | 55487 is prime |
| `NonAdditiveSecret.Secret` | src/com/some/vendor/api/NonAdditiveSecret.java:10-12 | the secret (x * x) is never negative and is zero exactly at zero |
| `NonAdditiveSecret.SecretIsEven` | src/com/some/vendor/api/NonAdditiveSecret.java:11 | secret(-x) == secret(x) |
| `NonAdditiveSecret.SecretSuperadditive` | src/com/some/vendor/api/NonAdditiveSecret.java:3-11 | for positive i and j, secret(i) + secret(j) < secret(i + j), so the function is not additive, as its doc comment says |
| `NonAdditiveSecret.SecretCounterexample` | src/com/some/vendor/api/NonAdditiveSecret.java:11 | secret(2) + secret(3) = 13 while secret(5) = 25 |
| `Primes.SmallDivisorOfComposite` | src/com/test/api/TestSecrets.java:116-118 | every composite n has a divisor d >= 2 with d * d <= n, which is why marking from i * i on finds every composite |
| `Primes.MultipleIsNotPrime` | src/com/test/api/TestSecrets.java:119-120 | a product i * m with i, m >= 2 is not prime, so the sieve never marks a prime |
| `Primes.OnlyMultipleInWindow` | src/com/test/api/TestSecrets.java:119 | stepping the multiplier by one skips no multiple of i |
| `Primes.PrimeByTrialDivision` | src/com/test/api/TestSecrets.java:116-119 | a number of at least 2 with no divisor d >= 2 with d * d <= n is prime, which is the trial division a square-root sieve rests on |
| `Primes.NoPrimesBelowThree` | src/com/test/api/TestSecrets.java:110-114 | there is no prime below N when N <= 2 |
| `Primes.PrimesBelowStep` | src/com/test/api/TestSecrets.java:116-118 | raising the bound from n to n + 1 adds n exactly when n is prime |
| `Primes.PrimesBelowMonotone` | src/com/test/api/TestSecrets.java:106-126 | raising the bound never removes a prime |
| `Primes.PrimesBelowThree` | src/com/test/api/TestSecrets.java:110-114 | the only prime below 3 is 2 |
| `Primes.TwoAndThreeArePrime` | src/com/test/api/TestSecrets.java:110-118 | 2 and 3 are primes below every N >= 4 |
| `Primes.PrimesBelowTen` | src/com/test/api/TestSecrets.java:101-105 | the primes below 10 are exactly 2, 3, 5 and 7 |

## Left out

- `main` (src/com/test/api/TestSecrets.java:22-57) is not modelled: reading N with a `Scanner`, the exception-driven fallback, the prompts and result lines, and `getClass().getName()`. Only its non-positive clamp is modelled, as `ValidatedMaxRange`.
- The `System.out.println` diagnostics of the checker are not modelled as text. The values printed when the search stops (the pair, s(i) + s(j) and s(i + j)) are the `breaker` out-parameter.
- The `Secret` interface and `AdditiveSecret` are not part of this model. `Secret` is the function type `int -> int`. `LinearIsAccepted` stands in for an additive implementation.
- `HashSet` iteration order is not modelled. Each pick is an arbitrary element of the remaining set, so the contracts say nothing about which counterexample is found first.
- IsAdditiveForSpecifiedPrimes: compares s(i) + s(j) with s(i + j) over mathematical integers. Java computes `i + j`, the sum of the secrets and the secrets themselves in 32-bit ints. `i + j` wraps once N > 2^30 (for example 2147483587 + 2147483629), and then Java applies s to the wrapped sum, while the model applies s to the mathematical sum. So the verdicts can differ for very large N, or for a function whose values overflow.
- NonAdditiveSecret.Secret: computes x * x over mathematical integers. Java wraps for |x| > 46340. The verdict on it is unaffected, because the pair (2, 3) fails in both arithmetics.
- GetPrimeSet: computes `i * multiplier` without overflow, which is the corrected behaviour. For N <= 46341 the Java and the model agree, and the loop invariant states it. For N > 46341 the Java can return a set that misses primes: getPrimeSet(60000) misses 55487. For N = Integer.MAX_VALUE its marking loop never ends. Both are findings below.

## Findings

| source | as written | input that shows it | evidently intended | confidence | as-written member | corrected member |
|---|---|---|---|---|---|---|
| src/com/test/api/TestSecrets.java:119 | `i*multiplier` is evaluated in 32-bit int arithmetic. A product past Integer.MAX_VALUE wraps to a smaller int, which still passes `< maxRange` | N = 2147483647: for the first candidate i = 2 every product 2 * multiplier wraps to an even int, which is always below the odd bound, so the marking loop never ends (on a typical heap the JVM runs out of memory for the marked set first, which is why the N = 60000 row matters) | the marking loop stops at the first multiple of i that is not below N, and the result is the primes below N | not executed | `TestSecrets.MarkingLoopNeverEndsAtIntMax` | `TestSecrets.GetPrimeSet` |
| src/com/test/api/TestSecrets.java:119-120 | the wrapped product `i*multiplier` passes `< maxRange` and is added to `nonPrimes`, even when it is a prime that the outer loop has not reached yet | N = 60000: 46349 is the first prime whose square is past Integer.MAX_VALUE, and it is reached unmarked; its products wrap to ints below the bound up to multiplier 92667, whose product wraps to the prime 55487 and marks it; 92668 wraps to 101836 and ends the loop; so getPrimeSet(60000) omits 55487 | the result is the primes below N, whatever N is | not executed | `TestSecrets.JavaSieveMarksPrimeBelow60000` | `TestSecrets.GetPrimeSet` |
