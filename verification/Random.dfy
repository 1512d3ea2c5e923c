// The random source of the skip list (random.h) and the tower heights drawn from it.
module RandomSource {
  import opened Bits
  import opened Lehmer
  import LehmerPeriod

  const MAX_LEVEL: nat := 16

  /** The seed the constructor keeps: 31 bits, the two bad values replaced by 1. */
  function InitialSeed(s: nat): (r: nat)
    ensures Seed(r)
    ensures 1 <= s < M ==> r == s
  {
    var low := s % 0x8000_0000;
    if low == 0 || low == M then 1 else low
  }

  function Masked(s: nat): nat { BitAnd(s, M) }

  lemma MaskedIsRemainder(s: nat)
    ensures Masked(s) == s % 0x8000_0000
  {
    AndMask(s, 31);
    ShrIsQuotient(s, 31);
    Pow31();
  }

  class Random {
    var seed: nat

    ghost predicate Valid()
      reads this
    {
      Seed(seed)
    }

    constructor (s: nat)
      ensures Valid() && seed == InitialSeed(s)
      ensures var low := s % 0x8000_0000; seed == if low == 0 || low == 0x7fff_ffff then 1 else low
    {
      seed := Masked(s);
      new;
      MaskedIsRemainder(s);
      if seed == 0 || seed == M {
        seed := 1;
      }
    }

    method Next() returns (r: nat)
      requires Valid()
      modifies this
      ensures Valid() && seed == Step(old(seed)) && r == seed
      ensures seed == old(seed) * 16807 % 0x7fff_ffff
    {
      NextIsStep(seed);
      var product := seed * 16807;
      var sum := FoldedSum(product);
      seed := sum % 0x1_0000_0000;
      if seed > M {
        seed := seed - M;
      }
      r := seed;
    }

    method Uniform(n: nat) returns (r: nat)
      requires Valid() && n > 0
      modifies this
      ensures Valid() && seed == Step(old(seed))
      ensures r == seed % n
    {
      var x := Next();
      r := x % n;
    }
  }

  /** The tower height drawn when the generator stands at the given seed. */
  function LevelOf(seed: nat): (level: nat)
    ensures 1 <= level < MAX_LEVEL
  {
    if seed % MAX_LEVEL == 0 then 1 else seed % MAX_LEVEL
  }

  /** Every height is drawn sooner or later, whatever the seed. */
  lemma EveryLevelOccurs(s: nat, level: nat)
    requires Seed(s) && 1 <= level < MAX_LEVEL
    ensures exists k: nat :: k < LehmerPeriod.PERIOD && LevelOf(Iterate(s, k)) == level
  {
    LehmerPeriod.FullPeriod(s, level);
    var k: nat :| k < LehmerPeriod.PERIOD && Iterate(s, k) == level;
    assert LevelOf(level) == level;
  }
}
