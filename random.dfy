/** The random draw of `generateApple`: `Math.random()` is a `rand` in `[0, 1)`. */
module Random {

  /** `Math.floor(rand * n)` for a `rand` drawn from `[0, 1)`: an index of an `n`-element array, or 0 when there is none. */
  function RandomIndex(rand: real, n: nat): (i: int)
    requires 0.0 <= rand < 1.0
    ensures 0 <= i
    ensures n > 0 ==> i < n
    ensures n == 0 ==> i == 0
  {
    ScaledBelow(rand, n);
    (rand * n as real).Floor
  }

  /** Scaling a fraction in `[0, 1)` by `n` stays in `[0, n)`, or is 0 when `n` is 0. */
  lemma ScaledBelow(rand: real, n: nat)
    requires 0.0 <= rand < 1.0
    ensures 0.0 <= rand * n as real
    ensures n > 0 ==> rand * n as real < n as real
    ensures n == 0 ==> rand * n as real == 0.0
  {
    var m := n as real;
    assert m - rand * m == (1.0 - rand) * m;
    if n > 0 {
      assert (1.0 - rand) * m > 0.0;
    }
  }
}
