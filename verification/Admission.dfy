// The admission rule of the rate limiter and what it keeps of the history of admitted times.
module Admission {
  import opened Deque
  import Bits
  import Counting

  const WORD: nat := 0x1_0000_0000_0000_0000

  /** Unsigned 64-bit subtraction. */
  function WindowStart(now: nat, window: nat): int
  {
    if now >= window then now - window else now - window + WORD
  }

  function Front(ring: seq<nat>): nat { if |ring| > 0 then ring[0] else 0 }

  /** A request is refused when the ring is full and its oldest time is in the window. */
  predicate Refuses(maxCount: nat, window: nat, ring: seq<nat>, now: nat)
  {
    Front(ring) != 0 && WindowStart(now, window) <= Front(ring) && |ring| >= maxCount
  }

  /** In words of the history alone, for any order of the recorded times: a request is accepted
      exactly when there is no limit to keep, or fewer times than the limit are recorded, or the
      time recorded limit places ago reads zero or lies before the window, which reaches around
      zero when the clock reads less than its length. */
  lemma AcceptsExactlyWhen(maxCount: nat, window: nat, history: seq<nat>, now: nat)
    ensures !Refuses(maxCount, window, Last(maxCount, history), now)
       <==> || maxCount == 0 || |history| < maxCount || history[|history| - maxCount] == 0
            || history[|history| - maxCount] + window < (if now >= window then now else now + 0x1_0000_0000_0000_0000)
  {
    if maxCount > 0 && |history| >= maxCount {
      assert Front(Last(maxCount, history)) == history[|history| - maxCount];
    }
  }

  /** The times admitted out of a sequence of requests. */
  function Admitted(maxCount: nat, window: nat, times: seq<nat>): (history: seq<nat>)
  {
    if times == [] then []
    else
      var before := Admitted(maxCount, window, times[..|times| - 1]);
      var now := times[|times| - 1];
      if Refuses(maxCount, window, Last(maxCount, before), now) then before else before + [now]
  }

  lemma AdmittedNext(maxCount: nat, window: nat, times: seq<nat>, now: nat)
    ensures Admitted(maxCount, window, times + [now])
         == Admitted(maxCount, window, times)
          + if Refuses(maxCount, window, Last(maxCount, Admitted(maxCount, window, times)), now) then [] else [now]
  {
    assert (times + [now])[..|times|] == times;
  }

  ghost predicate AtLeast(lo: nat, s: seq<nat>)
  {
    forall i | 0 <= i < |s| :: s[i] >= lo
  }

  // ---------- Window safety ----------

  /** The positions of a history whose times lie between lo and hi. */
  function Within(history: seq<nat>, lo: int, hi: int): (s: set<nat>)
    ensures forall k: nat :: k in s <==> k < |history| && lo <= history[k] <= hi
  {
    set k: nat | k < |history| && lo <= history[k] <= hi
  }

  /** No closed interval of the window's length holds more than maxCount admitted times. */
  ghost predicate WindowSafe(maxCount: nat, window: nat, history: seq<nat>)
  {
    forall lo: int, hi: int | hi == lo + window :: |Within(history, lo, hi)| <= maxCount
  }

  /** Each time is more than a window later than the one maxCount places before it. The times
      themselves need not be in order. */
  ghost predicate Gapped(maxCount: nat, window: nat, history: seq<nat>)
  {
    forall k {:trigger history[k]} | maxCount <= k < |history| :: history[k] > history[k - maxCount] + window
  }

  lemma {:induction false} SameResidueApart(maxCount: nat, window: nat, history: seq<nat>, i: nat, j: nat)
    requires maxCount >= 1 && Gapped(maxCount, window, history)
    requires i < j < |history| && i % maxCount == j % maxCount
    ensures history[j] > history[i] + window
    decreases j
  {
    var p := j - maxCount;
    ResidueStep(maxCount, i, j);
    assert history[j] > history[p] + window;
    if i < p {
      SameResidueApart(maxCount, window, history, i, p);
    }
  }

  lemma ResidueStep(m: nat, i: nat, j: nat)
    requires m >= 1 && i < j && i % m == j % m
    ensures i <= j - m && (j - m) % m == i % m
  {
    var a, b, r := i / m, j / m, i % m;
    OneStepBack(m, i, j, a, b, r);
    Bits.DivModUnique(j - m, m, b - 1, r);
  }

  lemma OneStepBack(m: nat, i: nat, j: nat, a: nat, b: nat, r: nat)
    requires m >= 1 && i < j && i == m * a + r && j == m * b + r
    ensures b >= 1 && i <= j - m && j - m == m * (b - 1) + r
  {
    assert j - i == m * (b - a);
    Bits.MultipleIsLarge(m, b - a);
    assert m * (b - 1) == m * b - m;
  }

  /** The residues modulo maxCount of the positions in one interval are all different. */
  lemma InsideApart(maxCount: nat, window: nat, history: seq<nat>, lo: int, hi: int)
    requires maxCount >= 1 && Gapped(maxCount, window, history) && hi == lo + window
    ensures forall i, j | i in Within(history, lo, hi) && j in Within(history, lo, hi)
                          && i % maxCount == j % maxCount :: i == j
  {
    var s := Within(history, lo, hi);
    forall i, j | i in s && j in s && i % maxCount == j % maxCount
      ensures i == j
    {
      if i < j {
        SameResidueApart(maxCount, window, history, i, j);
      } else if j < i {
        SameResidueApart(maxCount, window, history, j, i);
      }
    }
  }

  lemma GappedIsSafe(maxCount: nat, window: nat, history: seq<nat>)
    requires maxCount >= 1 && Gapped(maxCount, window, history)
    ensures WindowSafe(maxCount, window, history)
    ensures forall lo: int, hi: int | hi == lo + window :: |Within(history, lo, hi)| <= maxCount
  {
    forall lo: int, hi: int | hi == lo + window
      ensures |Within(history, lo, hi)| <= maxCount
    {
      InsideApart(maxCount, window, history, lo, hi);
      Counting.DistinctRemainders(Within(history, lo, hi), maxCount);
    }
  }

  /** Admitting a time that the rule accepts keeps the gaps. */
  lemma AdmitKeepsGaps(maxCount: nat, window: nat, history: seq<nat>, now: nat)
    requires maxCount >= 1 && Gapped(maxCount, window, history)
    requires now >= window && AtLeast(1, history)
    requires !Refuses(maxCount, window, Last(maxCount, history), now)
    ensures Gapped(maxCount, window, history + [now])
  {
    var h := history + [now];
    forall k | maxCount <= k < |h|
      ensures h[k] > h[k - maxCount] + window
    {
      if k == |history| {
        assert Front(Last(maxCount, history)) == history[k - maxCount];
      } else {
        assert h[k] == history[k];
      }
    }
  }

  lemma {:induction false} RunIsGapped(maxCount: nat, window: nat, times: seq<nat>)
    requires maxCount >= 1 && AtLeast(1, times) && AtLeast(window, times)
    ensures Gapped(maxCount, window, Admitted(maxCount, window, times))
    ensures AtLeast(1, Admitted(maxCount, window, times))
  {
    if times != [] {
      var earlier, now := times[..|times| - 1], times[|times| - 1];
      RunIsGapped(maxCount, window, earlier);
      var before := Admitted(maxCount, window, earlier);
      if !Refuses(maxCount, window, Last(maxCount, before), now) {
        AdmitKeepsGaps(maxCount, window, before, now);
      }
    }
  }

  // ---------- Exactly when every run is safe ----------

  ghost predicate AlwaysSafeFrom(maxCount: nat, window: nat, earliest: nat)
  {
    forall times: seq<nat> | AllFrom(earliest, times) ::
      WindowSafe(maxCount, window, Admitted(maxCount, window, times))
  }

  ghost predicate AllFrom(earliest: nat, times: seq<nat>)
  {
    forall i | 0 <= i < |times| :: earliest <= times[i] < WORD
  }

  /** The same time over and over, never refused. */
  lemma {:induction false} NeverRefused(maxCount: nat, window: nat, now: nat, n: nat)
    requires window < WORD && now < WORD
    requires maxCount == 0 || now == 0 || now < window
    ensures Admitted(maxCount, window, seq(n, _ => now)) == seq(n, _ => now)
  {
    if n > 0 {
      var before := seq(n - 1, _ => now);
      NeverRefused(maxCount, window, now, n - 1);
      SameTimeAccepted(maxCount, window, now, before);
      AdmittedNext(maxCount, window, before, now);
      assert seq(n, _ => now) == before + [now];
    }
  }

  lemma SameTimeAccepted(maxCount: nat, window: nat, now: nat, history: seq<nat>)
    requires window < WORD && now < WORD
    requires maxCount == 0 || now == 0 || now < window
    requires forall i | 0 <= i < |history| :: history[i] == now
    ensures !Refuses(maxCount, window, Last(maxCount, history), now)
  {
  }

  lemma RepeatedTimeUnsafe(maxCount: nat, window: nat, now: nat)
    requires window < WORD && now < WORD
    requires maxCount == 0 || now == 0 || now < window
    ensures !WindowSafe(maxCount, window, Admitted(maxCount, window, seq(maxCount + 1, _ => now)))
  {
    NeverRefused(maxCount, window, now, maxCount + 1);
    ManyInside(seq(maxCount + 1, _ => now), now, now + window, 0);
  }

  /** Whatever the order the times are recorded in, every run is window safe, exactly when the
      limit is at least one and the clock never reads zero nor less than the window. */
  lemma SafeExactlyWhen(maxCount: nat, window: nat, earliest: nat)
    requires window < WORD && earliest < WORD
    ensures AlwaysSafeFrom(maxCount, window, earliest)
       <==> maxCount >= 1 && earliest >= 1 && earliest >= window
  {
    if maxCount >= 1 && earliest >= 1 && earliest >= window {
      forall times: seq<nat> | AllFrom(earliest, times)
        ensures WindowSafe(maxCount, window, Admitted(maxCount, window, times))
      {
        RunIsGapped(maxCount, window, times);
        GappedIsSafe(maxCount, window, Admitted(maxCount, window, times));
      }
    } else {
      var times := seq(maxCount + 1, _ => earliest);
      assert AllFrom(earliest, times);
      RepeatedTimeUnsafe(maxCount, window, earliest);
    }
  }

  // ---------- The naive rule over the full history ----------

  /** Fewer than maxCount earlier admitted times lie in [now - window, now]. */
  ghost predicate NaiveAllows(maxCount: nat, window: nat, history: seq<nat>, now: nat)
  {
    |Within(history, now - window, now)| < maxCount
  }

  ghost predicate InOrder(times: seq<nat>)
  {
    forall i, j | 0 <= i < j < |times| :: times[i] <= times[j]
  }

  /** The rule never admits more than the naive one, even out of order. */
  lemma AdmittedIsNaive(maxCount: nat, window: nat, history: seq<nat>, now: nat)
    requires maxCount >= 1 && Gapped(maxCount, window, history)
    requires now >= window && AtLeast(1, history)
    requires !Refuses(maxCount, window, Last(maxCount, history), now)
    ensures NaiveAllows(maxCount, window, history, now)
  {
    var h := history + [now];
    AdmitKeepsGaps(maxCount, window, history, now);
    GappedIsSafe(maxCount, window, h);
    WithinAppended(history, now - window, now, now);
  }

  lemma WithinAppended(history: seq<nat>, lo: int, hi: int, now: nat)
    requires lo <= now <= hi
    ensures |Within(history + [now], lo, hi)| == |Within(history, lo, hi)| + 1
  {
    var h := history + [now];
    var n: nat := |history|;
    var earlier, all := Within(history, lo, hi), Within(h, lo, hi);
    assert forall k: nat | k < n :: h[k] == history[k];
    assert forall k: nat :: k in all <==> k in earlier || k == n;
    assert all == earlier + {n} && n !in earlier;
  }

  /** In order it admits exactly what the naive one admits. */
  lemma InOrderIsNaive(maxCount: nat, window: nat, history: seq<nat>, now: nat)
    requires maxCount >= 1 && now >= window && AtLeast(1, history)
    requires InOrder(history) && forall i | 0 <= i < |history| :: history[i] <= now
    ensures Refuses(maxCount, window, Last(maxCount, history), now)
       <==> !NaiveAllows(maxCount, window, history, now)
  {
    var n := |history|;
    var ring := Last(maxCount, history);
    if n < maxCount {
      FewInside(history, now - window, now, 0);
    } else {
      assert |ring| == maxCount && Front(ring) == history[n - maxCount];
      if history[n - maxCount] < now - window {
        FewInside(history, now - window, now, n - maxCount + 1);
      } else {
        ManyInside(history, now - window, now, n - maxCount);
      }
    }
  }

  lemma FewInside(history: seq<nat>, lo: int, hi: int, first: nat)
    requires first <= |history| && forall k | 0 <= k < first :: history[k] < lo
    ensures |Within(history, lo, hi)| <= |history| - first
  {
    var inside: set<int> := Within(history, lo, hi);
    Counting.RangeSize(first, |history|);
    Counting.SubsetSize(inside, Counting.Range(first, |history|));
  }

  lemma ManyInside(history: seq<nat>, lo: int, hi: int, first: nat)
    requires first <= |history| && forall k | first <= k < |history| :: lo <= history[k] <= hi
    ensures |Within(history, lo, hi)| >= |history| - first
  {
    var inside: set<int> := Within(history, lo, hi);
    Counting.RangeSize(first, |history|);
    forall k | k in Counting.Range(first, |history|)
      ensures k in inside
    {
      var i: nat := k;
      assert i in Within(history, lo, hi);
    }
    Counting.SubsetSize(Counting.Range(first, |history|), inside);
  }

  // ---------- Times recorded out of order ----------

  /** Of every maxCount-th recorded time, wherever the count starts, one lies between lo and hi. */
  ghost predicate EveryClassWithin(maxCount: nat, history: seq<nat>, lo: int, hi: int)
    requires maxCount >= 1
  {
    forall r: nat | r < maxCount :: Counting.HasRemainder(Within(history, lo, hi), maxCount, r)
  }

  /** A gapped history fills a window exactly when every residue class has a time in it. */
  lemma FullExactlyWhen(maxCount: nat, window: nat, history: seq<nat>, now: nat)
    requires maxCount >= 1 && Gapped(maxCount, window, history)
    ensures !NaiveAllows(maxCount, window, history, now)
       <==> EveryClassWithin(maxCount, history, now - window, now)
  {
    InsideApart(maxCount, window, history, now - window, now);
    Counting.DistinctRemainders(Within(history, now - window, now), maxCount);
  }

  /** When accepting by the ring is accepting by the naive rule. */
  ghost predicate Agrees(maxCount: nat, window: nat, history: seq<nat>, now: nat)
    requires maxCount >= 1
  {
    || |history| < maxCount || history[|history| - maxCount] + window < now
    || EveryClassWithin(maxCount, history, now - window, now)
  }

  /** Whatever the order of the recorded times and wherever the new one falls among them, the
      two rules give one answer exactly when the ring accepts or every residue class has a
      time in the window. */
  lemma AgreesExactlyWhen(maxCount: nat, window: nat, history: seq<nat>, now: nat)
    requires maxCount >= 1 && Gapped(maxCount, window, history)
    requires now >= window && AtLeast(1, history)
    ensures (|history| < maxCount || history[|history| - maxCount] + window < now
             <==> NaiveAllows(maxCount, window, history, now))
       <==> Agrees(maxCount, window, history, now)
    ensures (Refuses(maxCount, window, Last(maxCount, history), now)
             <==> !NaiveAllows(maxCount, window, history, now))
       <==> Agrees(maxCount, window, history, now)
  {
    AcceptsExactlyWhen(maxCount, window, history, now);
    FullExactlyWhen(maxCount, window, history, now);
    if !Refuses(maxCount, window, Last(maxCount, history), now) {
      AdmittedIsNaive(maxCount, window, history, now);
    }
  }

  /** The residue class of a ring position before the window has no member in it. */
  lemma ClassBefore(maxCount: nat, window: nat, history: seq<nat>, now: nat, p: nat)
    requires maxCount >= 1 && Gapped(maxCount, window, history) && now >= window
    requires |history| - maxCount <= p < |history| && history[p] < now - window
    ensures !EveryClassWithin(maxCount, history, now - window, now)
  {
    var s := Within(history, now - window, now);
    forall i: nat | i in s && i % maxCount == p % maxCount
      ensures false
    {
      if i < p {
        SameResidueApart(maxCount, window, history, i, p);
      } else if i > p {
        ResidueStep(maxCount, p, i);
      }
    }
    assert !Counting.HasRemainder(s, maxCount, p % maxCount);
  }

  /** The ring is not full, or its front is before the window, or all of it is in the window. */
  ghost predicate RingAgrees(maxCount: nat, window: nat, ring: seq<nat>, now: nat)
    requires now >= window
  {
    |ring| < maxCount || Front(ring) < now - window || AtLeast(now - window, ring)
  }

  /** When no time in the ring is later than the request, none in the whole history is. */
  lemma {:induction false} NoneLater(maxCount: nat, window: nat, history: seq<nat>, now: nat, i: nat)
    requires maxCount >= 1 && Gapped(maxCount, window, history) && i < |history|
    requires forall t | t in Last(maxCount, history) :: t <= now
    ensures history[i] <= now
    decreases |history| - i
  {
    if i + maxCount < |history| {
      NoneLater(maxCount, window, history, now, i + maxCount);
      assert history[i + maxCount] > history[i + maxCount - maxCount] + window;
    } else {
      assert history[i] in Last(maxCount, history) by {
        var first := |history| - |Last(maxCount, history)|;
        assert history[i] == Last(maxCount, history)[i - first];
      }
    }
  }

  lemma RefusedByRing(maxCount: nat, window: nat, history: seq<nat>, now: nat)
    requires maxCount >= 1 && Gapped(maxCount, window, history) && now >= window
    requires |history| >= maxCount && forall i | 0 <= i < |history| :: history[i] <= now
    ensures !NaiveAllows(maxCount, window, history, now) <==> AtLeast(now - window, Last(maxCount, history))
  {
    var ring, first := Last(maxCount, history), |history| - maxCount;
    assert forall k | first <= k < |history| :: history[k] == ring[k - first];
    if AtLeast(now - window, ring) {
      ManyInside(history, now - window, now, first);
    } else {
      var k :| 0 <= k < |ring| && ring[k] < now - window;
      ClassBefore(maxCount, window, history, now, first + k);
      FullExactlyWhen(maxCount, window, history, now);
    }
  }

  /** With no time in the ring later than the request, the ring alone decides whether the two
      rules give one answer. */
  lemma AgreesByRing(maxCount: nat, window: nat, history: seq<nat>, now: nat)
    requires maxCount >= 1 && Gapped(maxCount, window, history)
    requires now >= window && AtLeast(1, history) && forall t | t in Last(maxCount, history) :: t <= now
    ensures (Refuses(maxCount, window, Last(maxCount, history), now)
             <==> !NaiveAllows(maxCount, window, history, now))
       <==> RingAgrees(maxCount, window, Last(maxCount, history), now)
  {
    if Refuses(maxCount, window, Last(maxCount, history), now) {
      forall i | 0 <= i < |history|
        ensures history[i] <= now
      {
        NoneLater(maxCount, window, history, now, i);
      }
      RefusedByRing(maxCount, window, history, now);
    } else {
      AdmittedIsNaive(maxCount, window, history, now);
      AcceptedByRing(maxCount, window, history, now);
    }
  }

  lemma AcceptedByRing(maxCount: nat, window: nat, history: seq<nat>, now: nat)
    requires maxCount >= 1 && now >= window && AtLeast(1, history)
    requires !Refuses(maxCount, window, Last(maxCount, history), now)
    ensures RingAgrees(maxCount, window, Last(maxCount, history), now)
  {
  }

  lemma FirstTwoAdmitted(window: nat, times: seq<nat>, now: nat)
    requires |times| < 2 && Admitted(2, window, times) == times
    ensures Admitted(2, window, times + [now]) == times + [now]
  {
    AdmittedNext(2, window, times, now);
  }

  lemma PairAdmitted(window: nat, times: seq<nat>)
    requires |times| == 2
    ensures Admitted(2, window, times) == times
  {
    assert times[..1] == times[..0] + [times[0]] && times == times[..1] + [times[1]];
    FirstTwoAdmitted(window, times[..0], times[0]);
    FirstTwoAdmitted(window, times[..1], times[1]);
  }

  /** The case of two recorded times, the later one first: refused, though only one of them
      lies in the window. */
  lemma OutOfOrderRefusesMore(window: nat, times: seq<nat>, now: nat)
    requires |times| == 2 && 1 <= times[1] < now - window <= times[0] <= now
    ensures Admitted(2, window, times) == times
    ensures Refuses(2, window, Last(2, times), now) && NaiveAllows(2, window, times, now)
  {
    PairAdmitted(window, times);
    assert Last(2, times) == times;
    AgreesByRing(2, window, times, now);
  }

  /** The requests the naive rule admits. */
  ghost function NaiveAdmitted(maxCount: nat, window: nat, times: seq<nat>): seq<nat>
  {
    if times == [] then []
    else
      var before := NaiveAdmitted(maxCount, window, times[..|times| - 1]);
      var now := times[|times| - 1];
      if NaiveAllows(maxCount, window, before, now) then before + [now] else before
  }

  ghost predicate SameAt(maxCount: nat, window: nat, times: seq<nat>, k: nat)
    requires k <= |times|
  {
    Admitted(maxCount, window, times[..k]) == NaiveAdmitted(maxCount, window, times[..k])
  }

  ghost predicate AgreesAt(maxCount: nat, window: nat, times: seq<nat>, k: nat)
    requires maxCount >= 1 && k < |times|
  {
    Agrees(maxCount, window, Admitted(maxCount, window, times[..k]), times[k])
  }

  lemma SameAtNext(maxCount: nat, window: nat, times: seq<nat>, k: nat)
    requires maxCount >= 1 && AtLeast(1, times) && AtLeast(window, times)
    requires k < |times| && SameAt(maxCount, window, times, k)
    ensures SameAt(maxCount, window, times, k + 1) <==> AgreesAt(maxCount, window, times, k)
  {
    assert times[..k + 1][..k] == times[..k];
    RunIsGapped(maxCount, window, times[..k]);
    AgreesExactlyWhen(maxCount, window, Admitted(maxCount, window, times[..k]), times[k]);
  }

  lemma {:induction false} SameUpTo(maxCount: nat, window: nat, times: seq<nat>, k: nat)
    requires maxCount >= 1 && AtLeast(1, times) && AtLeast(window, times) && k <= |times|
    requires forall j | 0 <= j < k :: AgreesAt(maxCount, window, times, j)
    ensures SameAt(maxCount, window, times, k)
  {
    if k > 0 {
      SameUpTo(maxCount, window, times, k - 1);
      SameAtNext(maxCount, window, times, k - 1);
    }
  }

  /** Over a run in any order the limiter has admitted, at every point, what the naive rule has,
      exactly when they agree at every request. */
  lemma RunIsNaiveExactlyWhen(maxCount: nat, window: nat, times: seq<nat>)
    requires maxCount >= 1 && AtLeast(1, times) && AtLeast(window, times)
    ensures (forall k | 0 <= k <= |times| :: SameAt(maxCount, window, times, k))
       <==> (forall k | 0 <= k < |times| :: AgreesAt(maxCount, window, times, k))
  {
    if forall k | 0 <= k < |times| :: AgreesAt(maxCount, window, times, k) {
      forall k | 0 <= k <= |times|
        ensures SameAt(maxCount, window, times, k)
      {
        SameUpTo(maxCount, window, times, k);
      }
    }
    if forall k | 0 <= k <= |times| :: SameAt(maxCount, window, times, k) {
      forall k | 0 <= k < |times|
        ensures AgreesAt(maxCount, window, times, k)
      {
        assert SameAt(maxCount, window, times, k + 1);
        SameAtNext(maxCount, window, times, k);
      }
    }
  }

  /** Over a run with times in order the limiter is the naive one. */
  lemma {:induction false} RunIsNaive(maxCount: nat, window: nat, times: seq<nat>)
    requires maxCount >= 1 && InOrder(times) && AtLeast(1, times) && AtLeast(window, times)
    ensures Admitted(maxCount, window, times) == NaiveAdmitted(maxCount, window, times)
  {
    if times != [] {
      var earlier, now := times[..|times| - 1], times[|times| - 1];
      RunIsNaive(maxCount, window, earlier);
      AdmittedInOrder(maxCount, window, earlier, now);
      RunIsGapped(maxCount, window, earlier);
      InOrderIsNaive(maxCount, window, Admitted(maxCount, window, earlier), now);
    }
  }

  lemma {:induction false} AdmittedInOrder(maxCount: nat, window: nat, times: seq<nat>, bound: nat)
    requires InOrder(times) && forall i | 0 <= i < |times| :: times[i] <= bound
    ensures InOrder(Admitted(maxCount, window, times))
    ensures forall i | 0 <= i < |Admitted(maxCount, window, times)| ::
              Admitted(maxCount, window, times)[i] <= bound
  {
    if times != [] {
      AdmittedInOrder(maxCount, window, times[..|times| - 1], times[|times| - 1]);
    }
  }
}
