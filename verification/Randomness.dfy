/** The stream of 32-bit draws every generator consumes. The function behind it is arbitrary, as with a
    custom algorithm of `scv_random`; the linear congruential stream is one instance. */
module Randomness {
  const WORD: nat := 0x1_0000_0000

  class RandomStream {
    const draw: nat -> nat
    var pos: nat

    constructor (draw: nat -> nat)
      ensures this.draw == draw && pos == 0
    {
      this.draw := draw;
      pos := 0;
    }

    /** `next`. */
    method Next() returns (r: nat)
      modifies this
      ensures r == draw(old(pos)) % WORD && pos == old(pos) + 1
    {
      r := draw(pos) % WORD;
      pos := pos + 1;
    }
  }
}
