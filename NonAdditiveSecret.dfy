/**
 * The vendor's non-additive implementation of the Secret API: the square
 * of its argument, used by TestSecrets as the function under test that the
 * additivity check must reject.
 */
module NonAdditiveSecret {

  /** The secret of x is its square; it is never negative and vanishes only at 0. */
  function Secret(x: int): (r: int)
    ensures r >= 0
    ensures r == 0 <==> x == 0
  {
    x * x
  }

  /** The secret does not see the sign of its argument. */
  lemma SecretIsEven(x: int)
    ensures Secret(-x) == Secret(x)
  {
  }

  /**
   * The secret is strictly superadditive on positive arguments: the square of
   * a sum exceeds the sum of the squares by 2 * i * j > 0. Hence no two
   * positive arguments satisfy the additive equation.
   */
  lemma SecretSuperadditive(i: int, j: int)
    requires 0 < i && 0 < j
    ensures Secret(i) + Secret(j) < Secret(i + j)
  {
  }

  /** The smallest counterexample among primes: 4 + 9 = 13, but 5 * 5 = 25. */
  lemma SecretCounterexample()
    ensures Secret(2) + Secret(3) == 13 && Secret(2 + 3) == 25
  {
  }
}
