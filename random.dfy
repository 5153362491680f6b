/** The only source of randomness in the engine is `Math.random()`, a number in the
    half-open interval [0, 1).  The model receives every such number as a parameter, so
    each call site is handed the value the browser would have produced there; no claim is
    made about the distribution. */
module Random {

  /** One result of `Math.random()`. */
  type Unit = u: real | 0.0 <= u < 1.0

  /** The results of the successive calls made by one loop: `s(k)` is the value drawn at step k. */
  type Stream = nat -> Unit

  /** `Math.floor(u * n)`: the index that a draw `u` selects among `n` candidates. */
  function Index(u: Unit, n: nat): (i: nat)
    requires n > 0
    ensures i < n
  {
    ScaledBelow(u, n);
    (u * n as real).Floor
  }

  /** The product of a draw and a positive count stays below the count. */
  lemma ScaledBelow(u: Unit, n: nat)
    requires n > 0
    ensures 0.0 <= u * n as real < n as real
  {
    var m := n as real;
    assert (1.0 - u) * m > 0.0;
  }

  /** The preference gate `Math.random() * 100 < preferredHitRate`. */
  predicate Gate(u: Unit, rate: int)
  {
    u * 100.0 < rate as real
  }

  /** A rate of 100 (or more) always opens the gate and a rate of 0 (or less) never does. */
  lemma GateExtremes(u: Unit, rate: int)
    ensures rate >= 100 ==> Gate(u, rate)
    ensures rate <= 0 ==> !Gate(u, rate)
  {
  }

  /** Every index is reachable: some draw selects any chosen position. */
  lemma IndexReachable(n: nat, i: nat)
    requires i < n
    ensures Index(i as real / n as real, n) == i
  {
    var u: Unit := i as real / n as real;
    assert u * n as real == i as real;
  }
}
