/**
 * Math.random as an explicit oracle: an infinite stream of draws in [0, 1)
 * fixed when the generator is created, consumed one at a time.
 */
module Oracle {

  class Random {
    /** The i-th value Math.random would return. */
    const draws: nat -> real
    /** How many values have been drawn so far. */
    var used: nat

    ghost predicate Valid()
    {
      forall i: nat :: 0.0 <= draws(i) < 1.0
    }

    constructor (draws: nat -> real)
      requires forall i: nat :: 0.0 <= draws(i) < 1.0
      ensures Valid() && this.draws == draws && used == 0
    {
      this.draws := draws;
      used := 0;
    }

    /** One call of the random source: the next draw of the stream. */
    method Next() returns (r: real)
      requires Valid()
      modifies this
      ensures used == old(used) + 1
      ensures r == draws(old(used)) && 0.0 <= r < 1.0
    {
      r := draws(used);
      used := used + 1;
    }
  }

  /** A draw r scaled to n slots and rounded down: an index into the slots. */
  function Scaled(r: real, n: int): (k: int)
    requires 0.0 <= r < 1.0 && n >= 1
    ensures 0 <= k < n
  {
    ScaledBelow(r, n as real);
    (r * n as real).Floor
  }

  /** r * s lies in [0, s) for a draw r and a positive real s. */
  lemma ScaledBelow(r: real, s: real)
    requires 0.0 <= r < 1.0 && s > 0.0
    ensures 0.0 <= r * s < s
  {
    assert r * s < 1.0 * s;
  }

  /**
   * The random even start coordinate, a draw scaled to the slots, rounded
   * down and doubled:
   * it is even, non-negative and below 2 * slots.
   */
  function EvenStart(r: real, slots: real): (c: int)
    requires 0.0 <= r < 1.0 && slots > 0.0
    ensures c % 2 == 0 && 0 <= c && (c as real) < 2.0 * slots
  {
    ScaledBelow(r, slots);
    var f := (r * slots).Floor;
    assert 0 <= f && f as real <= r * slots;
    assert (f * 2) as real == 2.0 * (f as real);
    f * 2
  }
}
