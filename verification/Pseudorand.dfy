/** The Park-Miller generator of the random device. */
module Pseudorands {
  const MULTIPLIER := 16807
  const MODULUS := 0x7fff_ffff
  const K1 := 127773
  const K2 := 2836

  /** MULTIPLIER's inverse: their product is UNIT times the modulus and one more. */
  const INVERSE := 1407677000
  const UNIT := 11017

  predicate IsSeed(s: int) {
    1 <= s <= MODULUS - 1
  }

  predicate Int32(x: int) {
    -0x8000_0000 <= x <= 0x7fff_ffff
  }

  /** The step by Schrage's method: the product is split so that no part overflows. */
  function Next(seed: nat): int {
    var hi, lo := seed / K1, seed % K1;
    var tmp := MULTIPLIER * lo - K2 * hi;
    if tmp <= 0 then tmp + MODULUS else tmp
  }

  /** Two numbers of the same residue, both below the modulus, are one. */
  lemma SameResidue(x: int, y: int, k: int)
    requires x == y + k * MODULUS && 0 <= x < MODULUS && 0 <= y < MODULUS
    ensures x == y
  {
  }

  lemma ModIs(x: nat, q: int, r: int)
    requires x == q * MODULUS + r && 0 <= r < MODULUS
    ensures x % MODULUS == r
  {
    SameResidue(x % MODULUS, r, q - x / MODULUS);
  }

  /**
   * The step multiplies by 16807 modulo 2^31 - 1: every intermediate result fits 32 bits, signed, and the
   * new seed is again a seed.
   */
  lemma NextIs(seed: nat)
    requires IsSeed(seed)
    ensures Next(seed) == MULTIPLIER * seed % MODULUS && IsSeed(Next(seed))
    ensures Int32(MULTIPLIER * (seed % K1)) && Int32(K2 * (seed / K1))
    ensures Int32(MULTIPLIER * (seed % K1) - K2 * (seed / K1))
  {
    var hi, lo := seed / K1, seed % K1;
    var tmp := MULTIPLIER * lo - K2 * hi;
    assert MULTIPLIER * seed == hi * MODULUS + tmp;
    Nonzero(seed, hi, tmp);
    if tmp <= 0 {
      ModIs(MULTIPLIER * seed, hi - 1, tmp + MODULUS);
    } else {
      ModIs(MULTIPLIER * seed, hi, tmp);
    }
  }

  /** A seed's multiple is not a multiple of the modulus. */
  lemma Nonzero(seed: nat, hi: nat, tmp: int)
    requires IsSeed(seed) && MULTIPLIER * seed == hi * MODULUS + tmp
    ensures tmp != 0 && tmp + MODULUS != 0
  {
    if tmp == 0 {
      SameResidue(seed, 0, INVERSE * hi - UNIT * seed);
    } else if tmp + MODULUS == 0 {
      SameResidue(seed, 0, INVERSE * (hi - 1) - UNIT * seed);
    }
  }

  function Previous(seed: nat): nat {
    INVERSE * seed % MODULUS
  }

  /** The step is a permutation of the seeds. */
  lemma NextBack(seed: nat)
    requires IsSeed(seed)
    ensures Previous(Next(seed)) == seed && IsSeed(Previous(seed)) && Next(Previous(seed)) == seed
  {
    NextIs(seed);
    var q := MULTIPLIER * seed / MODULUS;
    ModIs(INVERSE * Next(seed), UNIT * seed - INVERSE * q, seed);
    var p, k := Previous(seed), INVERSE * seed / MODULUS;
    assert MULTIPLIER * p == (UNIT * seed - MULTIPLIER * k) * MODULUS + seed;
    assert p != 0;
    NextIs(p);
    ModIs(MULTIPLIER * p, UNIT * seed - MULTIPLIER * k, seed);
  }

  function Pow(b: nat, n: nat): nat {
    if n == 0 then 1 else b * Pow(b, n - 1)
  }

  function Iterate(seed: nat, n: nat): int
    requires IsSeed(seed)
    decreases n
  {
    if n == 0 then seed else NextIs(seed); Iterate(Next(seed), n - 1)
  }

  /** Every run stays among the seeds, and its n-th seed is the first times 16807 to the n. */
  lemma {:induction false} RunIs(seed: nat, n: nat)
    requires IsSeed(seed)
    ensures IsSeed(Iterate(seed, n)) && Iterate(seed, n) == Pow(MULTIPLIER, n) * seed % MODULUS
    decreases n
  {
    hide Next;
    NextIs(seed);
    if n == 0 {
      ModIs(seed, 0, seed);
    } else {
      RunIs(Next(seed), n - 1);
      OnePower(seed, Pow(MULTIPLIER, n - 1));
    }
  }

  lemma OnePower(seed: nat, p: nat)
    requires IsSeed(seed)
    ensures Next(seed) >= 0 && MULTIPLIER * p * seed % MODULUS == p * Next(seed) % MODULUS
  {
    hide Next;
    NextIs(seed);
    var q := MULTIPLIER * seed / MODULUS;
    MulOut(p, MULTIPLIER * seed, q, Next(seed));
    Assoc(p, seed);
  }

  lemma Assoc(p: nat, seed: nat)
    ensures MULTIPLIER * p * seed == p * (MULTIPLIER * seed)
  {
  }

  lemma MulOut(p: nat, x: nat, q: nat, r: nat)
    requires x == q * MODULUS + r
    ensures p * x % MODULUS == p * r % MODULUS
  {
    var a, b := p * r / MODULUS, p * r % MODULUS;
    assert p * x == (p * q + a) * MODULUS + b;
    ModIs(p * x, p * q + a, b);
  }

  class Softc {
    var seed: nat

    constructor ()
      ensures seed == 305824 && IsSeed(seed)
    {
      seed := 305824;
    }

    /** A number from 0 to the largest there can be. */
    method Random() returns (r: nat)
      requires IsSeed(seed)
      modifies this
      ensures IsSeed(seed) && seed == MULTIPLIER * old(seed) % MODULUS && r == seed - 1 && r <= MODULUS - 2
    {
      NextIs(seed);
      var hi := seed / K1;
      var lo := seed % K1;
      var tmp := MULTIPLIER * lo - K2 * hi;
      if tmp <= 0 {
        tmp := tmp + MODULUS;
      }
      seed := tmp;
      return seed - 1;
    }
  }
}
