/**
 * The random source as an oracle (java.util.Random as the maze uses it).
 * The values come from an injected stream of draws; each is reduced into the
 * requested range, so every sequence of values the real generator can return
 * is reproduced by some stream. An exhausted stream answers with the lowest
 * value of the range.
 */
module Randomness {

  class Random {
    /** The draws not yet consumed. */
    var draws: seq<nat>

    constructor (draws: seq<nat>)
      ensures this.draws == draws
    {
      this.draws := draws;
    }

    /** nextInt(bound): a value in [0, bound). */
    method NextInt(bound: int) returns (r: int)
      requires bound > 0
      modifies this
      ensures 0 <= r < bound
      ensures old(draws) == [] ==> r == 0 && draws == []
      ensures old(draws) != [] ==> r == old(draws)[0] % bound && draws == old(draws)[1..]
    {
      if draws == [] {
        r := 0;
      } else {
        r := draws[0] % bound;
        draws := draws[1..];
      }
    }

    /** nextInt(origin, bound): a value in [origin, bound). */
    method NextIntBetween(origin: int, bound: int) returns (r: int)
      requires origin < bound
      modifies this
      ensures origin <= r < bound
      ensures |draws| <= |old(draws)|
    {
      var k := NextInt(bound - origin);
      r := origin + k;
    }
  }
}
