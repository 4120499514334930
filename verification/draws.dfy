/**
 Random draws, made explicit.

 Every `Math.random()` of the simulators becomes a parameter: a real number
 in the half-open unit interval. Picking "a uniformly random index below n"
 is `Math.floor(Math.random() * n)`, modelled over exact reals.
 */
module Draws {

  /** A value `Math.random()` can return. */
  predicate IsUnit(u: real) {
    0.0 <= u < 1.0
  }

  /** `Math.floor(u * n)`: the index a draw `u` selects among `n` choices. */
  function Pick(u: real, n: nat): (i: nat)
    requires IsUnit(u)
    requires n > 0
    ensures i < n
    ensures i as real <= u * n as real < i as real + 1.0
  {
    var x := u * n as real;
    assert x < n as real by {
      assert n as real - x == (1.0 - u) * n as real;
      PositiveProduct(1.0 - u, n as real);
    }
    x.Floor
  }

  lemma PositiveProduct(a: real, b: real)
    requires a > 0.0 && b > 0.0
    ensures a * b > 0.0
  {
  }

  /** Every index is selected by some draw: the draws `k / n` pick index `k`. */
  lemma PickSurjective(k: nat, n: nat)
    requires k < n
    ensures IsUnit(k as real / n as real)
    ensures Pick(k as real / n as real, n) == k
  {
    var u := k as real / n as real;
    assert u * n as real == k as real;
  }
}
