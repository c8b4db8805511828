/** The seeded generator `mulberry32` (game.js lines 18-25).

    The JavaScript closure captures a Number `a`; every call adds a constant
    to it, then scrambles its low 32 bits with xor-shifts and 32-bit
    multiplications, and divides the resulting unsigned integer by 2^32.
    Every operator that reads `a` (`^`, `>>>`, `|`, `Math.imul`) sees only
    its residue modulo 2^32, so the state is kept here as that residue, a
    `bv32` that wraps on each addition. The scrambling is `Mix`, and the
    division is the exact real `Unit(k)`. */
module Mulberry {

  /** The additive constant of every step. */
  const Increment: bv32 := 0x6D2B79F5

  /** The low 32 bits of the captured Number after n calls from seed. */
  function StateAfter(seed: bv32, n: nat): bv32 {
    if n == 0 then seed else StateAfter(seed, n - 1) + Increment
  }

  /** The scrambling of lines 21-23 on the 32 bits of the advanced state.
      `Math.imul` is the low 32 bits of the product, `>>>` is a logical shift,
      and the Number addition inside line 22 is reduced modulo 2^32 by the
      xor that follows it; the final `>>> 0` reads the bits as unsigned. */
  function Mix(u: bv32): bv32 {
    var t1 := (u ^ (u >> 15)) * (u | 1);
    var t2 := t1 ^ (t1 + (t1 ^ (t1 >> 7)) * (t1 | 61));
    t2 ^ (t2 >> 14)
  }

  /** The division by 4294967296 (line 23), as an exact real. */
  function Unit(k: bv32): (x: real)
    ensures 0.0 <= x < 1.0
  {
    (k as int) as real / 4294967296.0
  }

  /** The number the closure returns when its state has become s. */
  function Value(s: bv32): (x: real)
    ensures 0.0 <= x < 1.0
  {
    Unit(Mix(s))
  }

  /** The states reached by the first n calls of `mulberry32(seed)`, in order. */
  function Draws(seed: bv32, n: nat): (d: seq<bv32>)
    ensures |d| == n
  {
    if n == 0 then [] else Draws(seed, n - 1) + [StateAfter(seed, n)]
  }

  /** The i-th call of a stream depends only on the seed and i. */
  lemma {:induction false} DrawsAt(seed: bv32, n: nat, i: nat)
    requires i < n
    ensures Draws(seed, n)[i] == StateAfter(seed, i + 1)
  {
    if i < n - 1 {
      DrawsAt(seed, n - 1, i);
    }
  }

  /** A shorter run of a stream is a prefix of a longer run of the same stream. */
  lemma {:induction false} DrawsPrefix(seed: bv32, n: nat, m: nat)
    requires n <= m
    ensures Draws(seed, n) == Draws(seed, m)[..n]
  {
    if n < m {
      DrawsPrefix(seed, n, m - 1);
      assert Draws(seed, m)[..m - 1] == Draws(seed, m - 1);
    }
  }

  /** The closure returned by `mulberry32(seed)`. */
  class Rng {
    /** The low 32 bits of the captured Number `a`. */
    var a: bv32
    /** The seed the closure was created from. */
    ghost const seed: bv32
    /** The states after each call so far, oldest first; the call that
        reached state s returned `Value(s)`. */
    ghost var drawn: seq<bv32>

    ghost predicate Valid()
      reads this
    {
      a == StateAfter(seed, |drawn|) && drawn == Draws(seed, |drawn|)
    }

    constructor (seed: bv32)
      ensures Valid() && this.seed == seed && drawn == [] && a == seed
    {
      a := seed;
      this.seed := seed;
      drawn := [];
    }

    /** One call of the closure: `a += 0x6D2B79F5`, scramble, divide by 2^32. */
    method Next() returns (x: real)
      requires Valid()
      modifies this
      ensures Valid()
      ensures a == old(a) + Increment
      ensures drawn == old(drawn) + [a]
      ensures x == Value(a) && 0.0 <= x < 1.0
    {
      Advance();
      x := Value(a);
    }

    /** `a += 0x6D2B79F5` of line 20. */
    method Advance()
      requires Valid()
      modifies this
      ensures Valid()
      ensures a == old(a) + Increment
      ensures drawn == old(drawn) + [a]
    {
      a := a + Increment;
      drawn := drawn + [a];
    }
  }

  /** Two generators made from the same seed agree on every draw they have both made. */
  lemma SameSeedSameDraws(g: Rng, h: Rng)
    requires g.Valid() && h.Valid() && g.seed == h.seed
    requires |g.drawn| <= |h.drawn|
    ensures g.drawn == h.drawn[..|g.drawn|]
  {
    DrawsPrefix(g.seed, |g.drawn|, |h.drawn|);
  }
}
