// The order of the multiplier: no proper divisor of M-1 steps lead from 1 back to 1, hence
// the generator visits every seed. The powers below are a certificate: each line is one
// squaring, with a multiplication by the base where the exponent has a one-bit.
module LehmerPeriod {
  import opened Lehmer
  import Bits
  import Counting

  const PERIOD: nat := 2147483646

  /** k steps from 1 lead to v. Stated for every start equal to 1, so that a large exponent
      is not unfolded step by step. */
  ghost predicate Reaches(k: nat, v: nat)
  {
    forall s: nat | s == 1 :: Iterate(s, k) == v
  }

  lemma ReachesIterate(k: nat)
    ensures Reaches(k, Iterate(1, k))
  {
  }

  /** Adding exponents multiplies powers. */
  lemma Sum(a: nat, x: nat, b: nat, y: nat)
    requires Reaches(a, x) && Reaches(b, y)
    ensures Reaches(a + b, Residue(x * y))
  {
    IterateSum(1, a, b);
    IterateScales(x, b);
  }

  lemma Square(a: nat, x: nat, w: nat)
    requires Reaches(a, x) && Residue(x * x) == w
    ensures Reaches(2 * a, w)
  {
    Sum(a, x, a, x);
    assert a + a == 2 * a;
  }

  lemma SquareTimes(a: nat, x: nat, w: nat, b: nat, y: nat, v: nat)
    requires Reaches(a, x) && Reaches(b, y)
    requires Residue(x * x) == w && Residue(w * y) == v
    ensures Reaches(2 * a + b, v)
  {
    Square(a, x, w);
    Sum(2 * a, w, b, y);
  }

  lemma OneStep()
    ensures Reaches(1, 16807)
  {
    var n := 1;
    assert Iterate(1, n - 1) == 1;
    ReachesIterate(n);
  }

  lemma Power42966()
    ensures Reaches(42966, 1730649443)
  {
    OneStep();
    Square(1, 16807, 282475249);
    SquareTimes(2, 282475249, 984943658, 1, 16807, 1144108930);
    Square(5, 1144108930, 2007237709);
    Square(10, 2007237709, 143542612);
    SquareTimes(20, 143542612, 784558821, 1, 16807, 530511967);
    SquareTimes(41, 530511967, 269220094, 1, 16807, 34075629);
    SquareTimes(83, 34075629, 1936329094, 1, 16807, 915896220);
    SquareTimes(167, 915896220, 959637304, 1, 16807, 1021979358);
    SquareTimes(335, 1021979358, 302173465, 1, 16807, 1978084747);
    Square(671, 1978084747, 864971330);
    SquareTimes(1342, 864971330, 1846989860, 1, 16807, 482459635);
    Square(2685, 482459635, 717777385);
    SquareTimes(5370, 717777385, 707638621, 1, 16807, 517866061);
    SquareTimes(10741, 517866061, 285400397, 1, 16807, 1393488628);
    Square(21483, 1393488628, 1730649443);
  }

  lemma Power49981()
    ensures Reaches(49981, 560223525)
  {
    OneStep();
    SquareTimes(1, 16807, 282475249, 1, 16807, 1622650073);
    Square(3, 1622650073, 470211272);
    Square(6, 470211272, 1115438165);
    Square(12, 1115438165, 1998097157);
    Square(24, 1998097157, 1899894091);
    SquareTimes(48, 1899894091, 1816731566, 1, 16807, 884936716);
    SquareTimes(97, 884936716, 1755699915, 1, 16807, 1623161625);
    Square(195, 1623161625, 1939824520);
    Square(390, 1939824520, 1728536152);
    SquareTimes(780, 1728536152, 1854052994, 1, 16807, 1080952188);
    SquareTimes(1561, 1080952188, 1461483549, 1, 16807, 236053657);
    SquareTimes(3123, 236053657, 1711198194, 1, 16807, 1007045934);
    SquareTimes(6247, 1007045934, 1636998382, 1, 16807, 1618804557);
    Square(12495, 1618804557, 1508800045);
    SquareTimes(24990, 1508800045, 2070469759, 1, 16807, 560223525);
  }

  lemma PowersFor151And331()
    ensures Reaches(6487866, 759513457)
    ensures Reaches(14221746, 1013763951)
  {
    Power42966();
    Square(42966, 1730649443, 1376674263);
    Square(85932, 1376674263, 1233326474);
    SquareTimes(171864, 1233326474, 1386718363, 42966, 1730649443, 2046898715);
    Square(386694, 2046898715, 508483168);
    SquareTimes(773388, 508483168, 1563543819, 42966, 1730649443, 1800693194);
    SquareTimes(1589742, 1800693194, 721966392, 42966, 1730649443, 1722962606);
    SquareTimes(3222450, 1722962606, 252779128, 42966, 1730649443, 759513457);
    Square(42966, 1730649443, 1376674263);
    SquareTimes(85932, 1376674263, 1233326474, 42966, 1730649443, 1018536654);
    Square(214830, 1018536654, 1268820004);
    Square(429660, 1268820004, 1612600255);
    SquareTimes(859320, 1612600255, 1146547535, 42966, 1730649443, 1682133510);
    Square(1761606, 1682133510, 133508022);
    SquareTimes(3523212, 133508022, 642862021, 42966, 1730649443, 432825610);
    SquareTimes(7089390, 432825610, 688128574, 42966, 1730649443, 1013763951);
  }

  lemma Power6297606()
    ensures Reaches(6297606, 369197359)
  {
    Power49981();
    SquareTimes(49981, 560223525, 871342565, 49981, 560223525, 1650715800);
    SquareTimes(149943, 1650715800, 64613003, 49981, 560223525, 1940668509);
    SquareTimes(349867, 1940668509, 61803838, 49981, 560223525, 1390445717);
    SquareTimes(749715, 1390445717, 1930637928, 49981, 560223525, 942143378);
    SquareTimes(1549411, 942143378, 1451889758, 49981, 560223525, 67343943);
    Square(3148803, 67343943, 369197359);
  }

  lemma PowersFor11And31()
    ensures Reaches(69273666, 16384)
    ensures Reaches(195225786, 298192073)
  {
    Power6297606();
    Square(6297606, 369197359, 1532422925);
    SquareTimes(12595212, 1532422925, 1136308197, 6297606, 369197359, 1802670614);
    SquareTimes(31488030, 1802670614, 757533870, 6297606, 369197359, 16384);
    SquareTimes(6297606, 369197359, 1532422925, 6297606, 369197359, 707245990);
    SquareTimes(18892818, 707245990, 2117393531, 6297606, 369197359, 1392248643);
    SquareTimes(44083242, 1392248643, 1844024595, 6297606, 369197359, 737763805);
    SquareTimes(94464090, 737763805, 1382984808, 6297606, 369197359, 298192073);
  }

  lemma Power17043521()
    ensures Reaches(17043521, 430777829)
  {
    Power49981();
    Square(49981, 560223525, 871342565);
    SquareTimes(99962, 871342565, 51022971, 49981, 560223525, 755121986);
    Square(249905, 755121986, 1350377864);
    SquareTimes(499810, 1350377864, 1976646781, 49981, 560223525, 1558415999);
    Square(1049601, 1558415999, 1938806421);
    SquareTimes(2099202, 1938806421, 883460592, 49981, 560223525, 1906661874);
    Square(4248385, 1906661874, 443871534);
    SquareTimes(8496770, 443871534, 1381994773, 49981, 560223525, 430777829);
  }

  lemma Power119304647()
    ensures Reaches(119304647, 1074490442)
  {
    Power17043521();
    SquareTimes(17043521, 430777829, 2084867038, 17043521, 430777829, 1568387158);
    SquareTimes(51130563, 1568387158, 744525991, 17043521, 430777829, 1074490442);
  }

  lemma PowersFor3And7()
    ensures Reaches(306783378, 1600955193)
    ensures Reaches(715827882, 634005911)
  {
    Power17043521();
    Square(17043521, 430777829, 2084867038);
    Square(34087042, 2084867038, 587188280);
    SquareTimes(68174084, 587188280, 1706651070, 17043521, 430777829, 394883873);
    Square(153391689, 394883873, 1600955193);
    Power119304647();
    SquareTimes(119304647, 1074490442, 473297587, 119304647, 1074490442, 634005912);
    Square(357913941, 634005912, 634005911);
  }

  lemma PowersFor1And2()
    ensures Reaches(1073741823, 2147483646)
    ensures Reaches(2147483646, 1)
  {
    Power119304647();
    Square(119304647, 1074490442, 473297587);
    Square(238609294, 473297587, 309107220);
    SquareTimes(477218588, 309107220, 809695498, 119304647, 1074490442, 2147483646);
    Square(1073741823, 2147483646, 1);
  }

  // ---------- Divisors of the period ----------

  ghost predicate Prime(p: nat)
  {
    p >= 2 && forall x: nat | 2 <= x < p :: p % x != 0
  }

  predicate NoDivisorUpTo(p: nat, x: nat)
  {
    x < 2 || (p % x != 0 && NoDivisorUpTo(p, x - 1))
  }

  lemma {:induction false} NoDivisor(p: nat, x: nat, y: nat)
    requires NoDivisorUpTo(p, x) && 2 <= y <= x
    ensures p % y != 0
  {
    if y < x {
      NoDivisor(p, x - 1, y);
    }
  }

  /** Trial division up to the square root is enough. */
  lemma TrialDivision(p: nat, root: nat)
    requires p >= 2 && NoDivisorUpTo(p, root) && p < (root + 1) * (root + 1)
    ensures Prime(p)
  {
    forall x: nat | 2 <= x < p
      ensures p % x != 0
    {
      if x <= root {
        NoDivisor(p, root, x);
      } else if p % x == 0 {
        var y := SmallCofactor(p, root, x);
        NoDivisor(p, root, y);
      }
    }
  }

  lemma SmallCofactor(p: nat, root: nat, x: nat) returns (y: nat)
    requires root < x < p && p % x == 0 && p < (root + 1) * (root + 1)
    ensures 2 <= y <= root && p % y == 0
  {
    y := p / x;
    assert p == x * y;
    if y > root {
      ProductBound(x, y, root + 1);
    }
    Bits.MultipleMod(p, y, x);
  }

  lemma ProductBound(x: nat, y: nat, a: nat)
    requires x >= a && y >= a
    ensures x * y >= a * a
  {
    assert x * y == a * a + a * (y - a) + (x - a) * y;
  }

  /** A prime that divides r * g and is larger than r divides g. */
  lemma {:induction false} Euclid(p: nat, r: nat, g: nat, t: int)
    requires Prime(p) && 0 < r < p
    requires r * g == p * t
    ensures g % p == 0
    decreases r
  {
    if r == 1 {
      Bits.MultipleMod(g, p, t);
    } else {
      EuclidStep(p, r, p / r, p % r, g, t);
      Euclid(p, p % r, g, g - (p / r) * t);
    }
  }

  lemma EuclidStep(p: int, r: int, u: int, rest: int, g: int, t: int)
    requires p == r * u + rest && r * g == p * t
    ensures rest * g == p * (g - u * t)
  {
    calc {
      rest * g;
      (p - r * u) * g;
      p * g - u * (r * g);
      p * g - u * (p * t);
      p * (g - u * t);
    }
  }

  /** A prime that does not divide n can be taken out of the cofactor. */
  lemma Strip(p: nat, n: nat, g: nat, rest: nat) returns (h: nat)
    requires Prime(p) && n % p != 0 && g * n == p * rest
    ensures h * n == rest
  {
    Remainder(p, n, n / p, n % p, g, rest);
    Euclid(p, n % p, g, rest - (n / p) * g);
    h := g / p;
    Cancel(p, g, h, n, rest);
  }

  lemma Remainder(p: int, n: int, q: int, r: int, g: int, rest: int)
    requires n == p * q + r && g * n == p * rest
    ensures r * g == p * (rest - q * g)
  {
    assert g * n == p * (q * g) + r * g;
  }

  lemma Cancel(p: nat, g: nat, h: nat, n: nat, rest: nat)
    requires p > 0 && g == p * h && g * n == p * rest
    ensures h * n == rest
  {
    assert p * (h * n - rest) == 0;
    Bits.MultipleIsLarge(p, h * n - rest);
  }

  predicate PeriodPrime(p: nat) { p in {2, 3, 7, 11, 31, 151, 331} }

  lemma PeriodPrimesArePrime(p: nat)
    requires PeriodPrime(p)
    ensures Prime(p)
  {
    assert NoDivisorUpTo(p, 1);
    assert NoDivisorUpTo(7, 2) && NoDivisorUpTo(11, 3) && NoDivisorUpTo(31, 5);
    assert NoDivisorUpTo(151, 6) && NoDivisorUpTo(331, 9);
    assert NoDivisorUpTo(151, 12) && NoDivisorUpTo(331, 18);
    TrialDivision(p, if p <= 3 then 1 else if p == 7 then 2 else if p == 11 then 3
                     else if p == 31 then 5 else if p == 151 then 12 else 18);
  }

  /** If none of the primes of M-1 divides n, then n cannot be a proper factor of M-1. */
  lemma PrimeFactor(n: nat, g: nat) returns (p: nat)
    requires g * n == PERIOD && n > 1
    ensures PeriodPrime(p) && n % p == 0
  {
    forall q: nat | PeriodPrime(q)
      ensures Prime(q)
    {
      PeriodPrimesArePrime(q);
    }
    if q: nat :| PeriodPrime(q) && n % q == 0 {
      return q;
    }
    p := 2;
    assert PeriodPrime(2) && PeriodPrime(3) && PeriodPrime(7) && PeriodPrime(11);
    assert PeriodPrime(31) && PeriodPrime(151) && PeriodPrime(331);
    var h := Strip(2, n, g, 1073741823);
    h := Strip(3, n, h, 357913941);
    h := Strip(3, n, h, 119304647);
    h := Strip(7, n, h, 17043521);
    h := Strip(11, n, h, 1549411);
    h := Strip(31, n, h, 49981);
    h := Strip(151, n, h, 331);
    h := Strip(331, n, h, 1);
    Bits.MultipleIsLarge(n, h);
  }

  // ---------- The order of the multiplier ----------

  lemma {:induction false} MultipleOfPeriod(b: nat, q: nat)
    requires Iterate(1, b) == 1
    ensures Iterate(1, b * q) == 1
  {
    if q > 0 {
      MultipleOfPeriod(b, q - 1);
      assert b * q == b * (q - 1) + b;
      IterateSum(1, b * (q - 1), b);
    }
  }

  /** Two numbers of steps that lead back to 1 have a common divisor that does so as well. */
  lemma {:induction false} CommonPeriod(a: nat, b: nat) returns (g: nat, m: nat, n: nat)
    requires a > 0 && Iterate(1, a) == 1 && Iterate(1, b) == 1
    ensures g > 0 && Iterate(1, g) == 1 && a == g * m && b == g * n
    decreases b
  {
    if b == 0 {
      g, m, n := a, 1, 0;
    } else {
      var q, r := DivideBy(a, b);
      MultipleOfPeriod(b, q);
      IterateSum(1, b * q, r);
      var n';
      g, n, n' := CommonPeriod(b, r);
      m := Multiples(g, n, q, n', b, r);
    }
  }

  lemma DivideBy(a: nat, b: nat) returns (q: nat, r: nat)
    requires b > 0
    ensures a == b * q + r && r < b
  {
    q, r := a / b, a % b;
  }

  lemma Multiples(g: nat, n: nat, q: nat, n': nat, b: nat, r: nat) returns (m: nat)
    requires b == g * n && r == g * n'
    ensures b * q + r == g * m
  {
    assert n * q >= 0;
    m := n * q + n';
    assert g * (n * q) == (g * n) * q;
  }

  lemma ReachesValue(k: nat, v: nat)
    requires Reaches(k, v)
    ensures Iterate(1, k) == v
  {
  }

  lemma NotOne(k: nat, m: nat, v: nat)
    requires Reaches(m, v) && k == m && v != 1
    ensures Iterate(1, k) != 1
  {
    ReachesValue(k, v);
  }

  /** The number of steps a prime of the period leaves. */
  function ShareOf(p: nat): nat
    requires PeriodPrime(p)
  {
    if p == 2 then 1073741823 else if p == 3 then 715827882 else if p == 7 then 306783378
    else if p == 11 then 195225786 else if p == 31 then 69273666 else if p == 151 then 14221746
    else 6487866
  }

  lemma ShareIs(p: nat, k: nat)
    requires PeriodPrime(p) && p * k == PERIOD
    ensures k == ShareOf(p)
  {
  }

  lemma PrimeShareIsNotPeriod(p: nat, k: nat)
    requires PeriodPrime(p) && p * k == PERIOD
    ensures Iterate(1, k) != 1
  {
    ShareIs(p, k);
    ShareIsNotPeriod(p, k);
  }

  lemma ShareIsNotPeriod(p: nat, k: nat)
    requires PeriodPrime(p) && k == ShareOf(p)
    ensures Iterate(1, k) != 1
  {
    if p == 2 {
      PowersFor1And2();
      NotOne(k, 1073741823, 2147483646);
    } else if p == 3 {
      PowersFor3And7();
      NotOne(k, 715827882, 634005911);
    } else if p == 7 {
      PowersFor3And7();
      NotOne(k, 306783378, 1600955193);
    } else if p == 11 {
      PowersFor11And31();
      NotOne(k, 195225786, 298192073);
    } else if p == 31 {
      PowersFor11And31();
      NotOne(k, 69273666, 16384);
    } else if p == 151 {
      PowersFor151And331();
      NotOne(k, 14221746, 1013763951);
    } else {
      PowersFor151And331();
      NotOne(k, 6487866, 759513457);
    }
  }

  lemma FullCycle()
    ensures Iterate(1, PERIOD) == 1
  {
    PowersFor1And2();
    var n := PERIOD;
    ReachesValue(n, 1);
  }

  /** A proper divisor of the period does not lead back to 1. */
  lemma ProperDivisorIsNotPeriod(g: nat, n: nat)
    requires g * n == PERIOD && n > 1
    ensures Iterate(1, g) != 1
  {
    if Iterate(1, g) == 1 {
      var p := PrimeFactor(n, g);
      var k := Share(n, p);
      MultipleOfPeriod(g, k);
      Regroup(p, g, k, n);
      PrimeShareIsNotPeriod(p, g * k);
    }
  }

  lemma Share(n: nat, p: nat) returns (k: nat)
    requires p > 0 && n % p == 0
    ensures n == p * k
  {
    k := n / p;
  }

  lemma Regroup(p: nat, g: nat, k: nat, n: nat)
    requires n == p * k
    ensures p * (g * k) == g * n
  {
  }

  lemma CofactorAboveOne(g: nat, m: nat, n: nat)
    requires 0 < g * m < g * n
    ensures n > 1
  {
    Bits.MultipleIsLarge(g, m);
    Bits.MultipleIsLarge(g, n - m);
  }

  /** M-1 steps lead back to 1 and fewer never do. */
  lemma NoShorterPeriod(d: nat)
    requires 0 < d < PERIOD
    ensures Iterate(1, d) != 1
  {
    if Iterate(1, d) == 1 {
      FullCycle();
      var g, m, n := CommonPeriod(d, PERIOD);
      CofactorAboveOne(g, m, n);
      ProperDivisorIsNotPeriod(g, n);
    }
  }

  lemma Distinct(i: nat, j: nat)
    requires i < j < PERIOD
    ensures Iterate(1, i) != Iterate(1, j)
  {
    if Iterate(1, i) == Iterate(1, j) {
      IterateSum(1, j - i, i);
      IterateInjective(Iterate(1, j - i), 1, i);
      NoShorterPeriod(j - i);
    }
  }

  // ---------- The orbit is everything ----------

  function Visited(n: nat): set<int>
  {
    if n == 0 then {} else Visited(n - 1) + {Iterate(1, n - 1) as int}
  }

  lemma {:induction false} VisitedBy(n: nat, x: int)
    requires x in Visited(n)
    ensures exists k: nat | k < n :: Iterate(1, k) == x
  {
    if x != Iterate(1, n - 1) {
      VisitedBy(n - 1, x);
    }
  }

  lemma NotVisitedBefore(n: nat)
    requires n < PERIOD
    ensures Iterate(1, n) !in Visited(n)
  {
    if Iterate(1, n) in Visited(n) {
      VisitedBy(n, Iterate(1, n));
      var k: nat :| k < n && Iterate(1, k) == Iterate(1, n);
      Distinct(k, n);
    }
  }

  lemma {:induction false} VisitedSize(n: nat)
    requires n <= PERIOD
    ensures |Visited(n)| == n
    ensures forall x | x in Visited(n) :: 1 <= x < M
  {
    if n > 0 {
      VisitedSize(n - 1);
      NotVisitedBefore(n - 1);
    }
  }

  lemma ReachedFromOne(t: nat) returns (k: nat)
    requires Seed(t)
    ensures k < PERIOD && Iterate(1, k) == t
  {
    var n := PERIOD;
    VisitedSize(n);
    Counting.RangeSize(1, n + 1);
    Counting.SubsetSize(Visited(n), Counting.Range(1, n + 1));
    VisitedBy(n, t);
    k :| k < n && Iterate(1, k) == t;
  }

  /** The generator cycles through every number in 1..M-1: from any seed, every seed is
      reached within one period. */
  lemma FullPeriod(s: nat, t: nat)
    requires Seed(s) && Seed(t)
    ensures exists k: nat :: k < PERIOD && Iterate(s, k) == t
  {
    var n := PERIOD;
    var a := ReachedFromOne(s);
    var b := ReachedFromOne(t);
    if b >= a {
      IterateSum(1, a, b - a);
      assert Iterate(s, b - a) == t;
    } else {
      FullCycle();
      IterateSum(1, a, n - a);
      IterateSum(s, n - a, b);
      assert Iterate(s, n - a + b) == t;
    }
  }

  /** No seed comes back earlier than after M-1 calls. */
  lemma NoEarlyReturn(s: nat, d: nat)
    requires Seed(s) && 0 < d < PERIOD
    ensures Iterate(s, d) != s
  {
    var a := ReachedFromOne(s);
    if Iterate(s, d) == s {
      IterateSum(1, a, d);
      IterateSum(1, d, a);
      IterateInjective(Iterate(1, d), 1, a);
      NoShorterPeriod(d);
    }
  }
}
