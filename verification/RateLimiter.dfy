// The rate limiter of c_rate_limiter.hpp: the critical section of one request, over the ring
// buffer of the last admitted times.
module RateLimiters {
  import opened Deque
  import opened Options
  import opened RingBuffers
  import opened Admission

  class CRateLimiter {
    const maxCount: nat
    const windowSize: nat
    const rb: RingBuf<nat>

    // Every time admitted so far.
    ghost var history: seq<nat>

    /** The ring holds the last admitted times, at most maxCount of them, oldest first. */
    ghost predicate Valid()
      reads this, rb, rb.data
    {
      && rb.Valid() && rb.capacity == maxCount
      && rb.Contents() == Last(maxCount, history)
    }

    constructor (maxCount: nat, windowSize: nat)
      ensures Valid() && this.maxCount == maxCount && this.windowSize == windowSize
      ensures history == [] && fresh(rb) && fresh(rb.data)
    {
      this.maxCount, this.windowSize := maxCount, windowSize;
      rb := new RingBuf<nat>(maxCount);
      history := [];
    }

    /** What is done between lock and unlock, for a request that read the clock at now. */
    method AllowAndRecordRequest(now: nat) returns (allowed: bool)
      requires Valid()
      modifies this, rb, rb.data
      ensures Valid()
      ensures allowed <==> !Refuses(maxCount, windowSize, Last(maxCount, old(history)), now)
      ensures history == if allowed then old(history) + [now] else old(history)
      ensures var h := old(history);
              allowed <==>
                || maxCount == 0 || |h| < maxCount || h[|h| - maxCount] == 0
                || h[|h| - maxCount] + windowSize
                   < (if now >= windowSize then now else now + 0x1_0000_0000_0000_0000)
    {
      AcceptsExactlyWhen(maxCount, windowSize, history, now);
      var windowStart := WindowStart(now, windowSize);
      var f := 0;
      if rb.size > 0 {
        var front := rb.At(0);
        match front
        case None => f := 0;
        case Some(t) => f := t;
      }
      if f != 0 && windowStart <= f && rb.size >= maxCount {
        return false;
      }
      PushBackKeepsLast(maxCount, history, now);
      rb.EmplaceBack(now);
      history := history + [now];
      allowed := true;
    }
  }

  /** A run of requests, one after the other, admits what the rule admits of their times. */
  method Requests(limiter: CRateLimiter, times: seq<nat>)
    requires limiter.Valid() && limiter.history == []
    modifies limiter, limiter.rb, limiter.rb.data
    ensures limiter.Valid()
    ensures limiter.history == Admitted(limiter.maxCount, limiter.windowSize, times)
  {
    for i := 0 to |times|
      invariant limiter.Valid()
      invariant limiter.history == Admitted(limiter.maxCount, limiter.windowSize, times[..i])
    {
      assert times[..i + 1] == times[..i] + [times[i]];
      AdmittedNext(limiter.maxCount, limiter.windowSize, times[..i], times[i]);
      var allowed := limiter.AllowAndRecordRequest(times[i]);
    }
    assert times[..|times|] == times;
  }
}
