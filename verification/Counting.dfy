// Counting arguments over finite ranges and sets.
module Counting {
  function Range(lo: int, hi: int): (s: set<int>)
    requires lo <= hi
    ensures forall x :: x in s <==> lo <= x < hi
    decreases hi - lo
  {
    if lo == hi then {} else Range(lo, hi - 1) + {hi - 1}
  }

  lemma {:induction false} RangeSize(lo: int, hi: int)
    requires lo <= hi
    ensures |Range(lo, hi)| == hi - lo
    decreases hi - lo
  {
    if lo < hi {
      var rest := Range(lo, hi - 1);
      RangeSize(lo, hi - 1);
      assert Range(lo, hi) == rest + {hi - 1} && hi - 1 !in rest;
    }
  }

  lemma {:induction false} SubsetSize<T>(a: set<T>, b: set<T>)
    requires a <= b
    ensures |a| <= |b|
    ensures |a| == |b| ==> a == b
  {
    var rest := b - a;
    assert b == a + rest;
    assert |b| == |a| + |rest|;
  }

  ghost predicate HasRemainder(s: set<nat>, m: nat, r: nat)
    requires m > 0
  {
    exists i: nat :: i in s && i % m == r
  }

  /** Pigeonhole: numbers with pairwise different remainders modulo m are at most m many, and m
      many exactly when every remainder occurs. */
  lemma {:induction false} DistinctRemainders(s: set<nat>, m: nat)
    requires m > 0
    requires forall i, j | i in s && j in s && i % m == j % m :: i == j
    ensures |s| <= m
    ensures |s| == m <==> forall r: nat | r < m :: HasRemainder(s, m, r)
  {
    var image := set i | i in s :: i % m;
    ImageSize(s, m, image);
    RangeSize(0, m);
    SubsetSize(image, Range(0, m));
    assert forall r: nat :: r in image <==> HasRemainder(s, m, r);
    if forall r: nat | r < m :: HasRemainder(s, m, r) {
      assert image == Range(0, m);
    }
  }

  lemma {:induction false} ImageSize(s: set<nat>, m: nat, image: set<int>)
    requires m > 0
    requires forall i, j | i in s && j in s && i % m == j % m :: i == j
    requires image == set i | i in s :: i % m
    ensures |image| == |s|
    decreases |s|
  {
    if s != {} {
      var x :| x in s;
      var rest := set i | i in s - {x} :: i % m;
      assert image == rest + {x % m} by {
        assert s == (s - {x}) + {x};
        assert forall y | y in image :: y in rest + {x % m};
      }
      assert x % m !in rest;
      ImageSize(s - {x}, m, rest);
    }
  }
}
