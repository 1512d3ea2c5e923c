// Any number of threads calling the rate limiter, guarded by the spin lock of spinlock.hpp,
// as a system of atomic steps.
module RateLimiterThreads {
  import opened Deque
  import opened Options
  import opened Admission

  // Where a thread is in allowAndRecordRequest; now is the clock value it has read.
  datatype Place =
    | Outside
    | Wanting(now: nat)             // about to exchange the flag
    | Spinning(now: nat)            // exchange saw the flag set; reloading it until it is clear
    | Locked(now: nat)              // inside, about to look at the front of the ring
    | Looked(now: nat, front: nat)  // inside, has the front, about to decide
    | Recording(now: nat)           // inside, about to push
    | Leaving(now: nat, allowed: bool)  // inside, about to clear the flag and return allowed

  datatype Decision = Decision(thread: nat, now: nat, allowed: bool)

  // The decisions are logged for the statements below; no step depends on the log.
  datatype State = State(flag: bool, ring: seq<nat>, threads: seq<Place>, log: seq<Decision>)

  datatype Action =
    | ReadClock(now: nat)
    | Exchange
    | Reload
    | Look
    | Decide
    | Push
    | Unlock

  predicate Inside(p: Place) { p.Locked? || p.Looked? || p.Recording? || p.Leaving? }

  predicate Enabled(s: State, t: nat, a: Action)
  {
    t < |s.threads| &&
    match a
    case ReadClock(_) => s.threads[t].Outside?
    case Exchange => s.threads[t].Wanting?
    case Reload => s.threads[t].Spinning?
    case Look => s.threads[t].Locked?
    case Decide => s.threads[t].Looked?
    case Push => s.threads[t].Recording?
    case Unlock => s.threads[t].Leaving?
  }

  function At(s: State, t: nat, p: Place): State
    requires t < |s.threads|
  {
    s.(threads := s.threads[t := p])
  }

  function Do(maxCount: nat, window: nat, s: State, t: nat, a: Action): State
    requires Enabled(s, t, a)
  {
    var p := s.threads[t];
    match a
    case ReadClock(now) => At(s, t, Wanting(now))
    case Exchange =>
      At(s, t, if s.flag then Spinning(p.now) else Locked(p.now)).(flag := true)
    case Reload => if s.flag then s else At(s, t, Wanting(p.now))
    case Look => At(s, t, Looked(p.now, Front(s.ring)))
    case Decide =>
      if p.front != 0 && WindowStart(p.now, window) <= p.front && |s.ring| >= maxCount
      then At(s, t, Leaving(p.now, false)).(log := s.log + [Decision(t, p.now, false)])
      else At(s, t, Recording(p.now))
    case Push =>
      At(s, t, Leaving(p.now, true)).(ring := PushBack(maxCount, s.ring, p.now),
                               log := s.log + [Decision(t, p.now, true)])
    case Unlock => At(s, t, Outside).(flag := false)
  }

  datatype Event = Event(thread: nat, action: Action)

  function Start(n: nat): State { State(false, [], seq(n, _ => Outside), []) }

  /** The events form a run from the start that ends in s. */
  ghost predicate Runs(maxCount: nat, window: nat, n: nat, events: seq<Event>, s: State)
  {
    if events == [] then s == Start(n)
    else
      var e := events[|events| - 1];
      exists before: State ::
        && Runs(maxCount, window, n, events[..|events| - 1], before)
        && Enabled(before, e.thread, e.action)
        && s == Do(maxCount, window, before, e.thread, e.action)
  }

  /** The state before the last event. */
  lemma Previous(maxCount: nat, window: nat, n: nat, events: seq<Event>, s: State) returns (before: State)
    requires Runs(maxCount, window, n, events, s) && events != []
    ensures var e := events[|events| - 1];
            && Runs(maxCount, window, n, events[..|events| - 1], before)
            && Enabled(before, e.thread, e.action)
            && s == Do(maxCount, window, before, e.thread, e.action)
  {
    var e := events[|events| - 1];
    before :|
      && Runs(maxCount, window, n, events[..|events| - 1], before)
      && Enabled(before, e.thread, e.action)
      && s == Do(maxCount, window, before, e.thread, e.action);
  }

  // ---------- Mutual exclusion ----------

  /** At most one thread is between lock and unlock, and the flag is set exactly when one is. */
  ghost predicate Exclusive(s: State)
  {
    && (forall t, u | 0 <= t < |s.threads| && 0 <= u < |s.threads| && Inside(s.threads[t]) && Inside(s.threads[u]) :: t == u)
    && (s.flag <==> exists t :: 0 <= t < |s.threads| && Inside(s.threads[t]))
  }

  lemma ExclusiveStep(maxCount: nat, window: nat, s: State, t: nat, a: Action)
    requires Exclusive(s) && Enabled(s, t, a)
    ensures Exclusive(Do(maxCount, window, s, t, a))
  {
    var s' := Do(maxCount, window, s, t, a);
    assert forall u | 0 <= u < |s.threads| && u != t :: s'.threads[u] == s.threads[u];
    if Inside(s'.threads[t]) {
    } else if s.flag && !s'.flag {
      assert Inside(s.threads[t]);
    }
  }

  // ---------- Atomicity ----------

  /** The times the log says were admitted, in the order they were recorded. */
  function Recorded(log: seq<Decision>): seq<nat>
  {
    if log == [] then []
    else
      var d := log[|log| - 1];
      Recorded(log[..|log| - 1]) + if d.allowed then [d.now] else []
  }

  /** Every decision is the one a request running alone would have got. */
  ghost predicate Sequential(maxCount: nat, window: nat, log: seq<Decision>)
  {
    log == [] ||
    (var d := log[|log| - 1];
     && Sequential(maxCount, window, log[..|log| - 1])
     && d.allowed == !Refuses(maxCount, window, Last(maxCount, Recorded(log[..|log| - 1])), d.now))
  }

  function ClockOf(p: Place): seq<nat> { if p.Outside? then [] else [p.now] }

  /** What a thread inside the lock has found out still holds, and what it is about to return
      is the last logged decision. */
  ghost predicate Informed(maxCount: nat, window: nat, s: State, t: nat)
    requires t < |s.threads|
  {
    match s.threads[t]
    case Looked(_, front) => front == Front(s.ring)
    case Recording(now) => !Refuses(maxCount, window, s.ring, now)
    case Leaving(now, allowed) => |s.log| > 0 && s.log[|s.log| - 1] == Decision(t, now, allowed)
    case _ => true
  }

  /** The ring holds the last recorded times and the log is that of requests one at a time. */
  ghost predicate RingMatches(maxCount: nat, window: nat, ring: seq<nat>, log: seq<Decision>)
  {
    ring == Last(maxCount, Recorded(log)) && Sequential(maxCount, window, log)
  }

  ghost predicate Atomic(maxCount: nat, window: nat, s: State)
  {
    && RingMatches(maxCount, window, s.ring, s.log)
    && (forall t | 0 <= t < |s.threads| :: Informed(maxCount, window, s, t))
  }

  lemma LogStep(maxCount: nat, window: nat, log: seq<Decision>, d: Decision)
    requires Sequential(maxCount, window, log)
    requires d.allowed == !Refuses(maxCount, window, Last(maxCount, Recorded(log)), d.now)
    ensures Sequential(maxCount, window, log + [d])
    ensures Recorded(log + [d]) == Recorded(log) + if d.allowed then [d.now] else []
  {
    assert (log + [d])[..|log|] == log;
  }

  lemma AtomicStep(maxCount: nat, window: nat, s: State, t: nat, a: Action)
    requires Exclusive(s) && Atomic(maxCount, window, s) && Enabled(s, t, a)
    ensures Atomic(maxCount, window, Do(maxCount, window, s, t, a))
  {
    RingStep(maxCount, window, s, t, a);
    InformedStep(maxCount, window, s, t, a);
  }

  lemma RingAfterRefusal(maxCount: nat, window: nat, ring: seq<nat>, log: seq<Decision>, t: nat, now: nat)
    requires RingMatches(maxCount, window, ring, log) && Refuses(maxCount, window, ring, now)
    ensures RingMatches(maxCount, window, ring, log + [Decision(t, now, false)])
  {
    LogStep(maxCount, window, log, Decision(t, now, false));
    assert Recorded(log) + [] == Recorded(log);
  }

  lemma RingAfterPush(maxCount: nat, window: nat, ring: seq<nat>, log: seq<Decision>, t: nat, now: nat)
    requires RingMatches(maxCount, window, ring, log) && !Refuses(maxCount, window, ring, now)
    ensures RingMatches(maxCount, window, PushBack(maxCount, ring, now), log + [Decision(t, now, true)])
  {
    LogStep(maxCount, window, log, Decision(t, now, true));
    PushBackKeepsLast(maxCount, Recorded(log), now);
  }

  lemma RingStep(maxCount: nat, window: nat, s: State, t: nat, a: Action)
    requires Atomic(maxCount, window, s) && Enabled(s, t, a)
    ensures RingMatches(maxCount, window, Do(maxCount, window, s, t, a).ring, Do(maxCount, window, s, t, a).log)
  {
    var p := s.threads[t];
    assert Informed(maxCount, window, s, t);
    match a
    case Decide =>
      if Refuses(maxCount, window, s.ring, p.now) {
        RingAfterRefusal(maxCount, window, s.ring, s.log, t, p.now);
      }
    case Push =>
      RingAfterPush(maxCount, window, s.ring, s.log, t, p.now);
    case _ =>
  }

  lemma InformedStep(maxCount: nat, window: nat, s: State, t: nat, a: Action)
    requires Exclusive(s) && Atomic(maxCount, window, s) && Enabled(s, t, a)
    ensures forall u | 0 <= u < |s.threads| ::
              Informed(maxCount, window, Do(maxCount, window, s, t, a), u)
  {
    var s' := Do(maxCount, window, s, t, a);
    forall u | 0 <= u < |s.threads|
      ensures Informed(maxCount, window, s', u)
    {
      assert Informed(maxCount, window, s, u);
      if u != t {
        assert s'.threads[u] == s.threads[u];
        assert Inside(s.threads[t]) ==> !Inside(s.threads[u]);
      }
    }
  }

  // ---------- Every run ----------

  lemma {:induction false} EveryRun(maxCount: nat, window: nat, n: nat, events: seq<Event>, s: State)
    requires Runs(maxCount, window, n, events, s)
    ensures Exclusive(s) && Atomic(maxCount, window, s)
  {
    if events != [] {
      var e := events[|events| - 1];
      var before := Previous(maxCount, window, n, events, s);
      EveryRun(maxCount, window, n, events[..|events| - 1], before);
      ExclusiveStep(maxCount, window, before, e.thread, e.action);
      AtomicStep(maxCount, window, before, e.thread, e.action);
    }
  }

  /** The clock values of a run. */
  ghost predicate ClockFrom(earliest: nat, events: seq<Event>)
  {
    forall i | 0 <= i < |events| && events[i].action.ReadClock? :: events[i].action.now >= earliest
  }

  ghost predicate TimesFrom(earliest: nat, s: State)
  {
    && (forall t | 0 <= t < |s.threads| :: AtLeast(earliest, ClockOf(s.threads[t])))
    && AtLeast(earliest, Recorded(s.log))
    && forall i | 0 <= i < |s.log| :: s.log[i].now >= earliest
  }

  lemma {:induction false} RunTimes(maxCount: nat, window: nat, n: nat, events: seq<Event>, s: State, earliest: nat)
    requires Runs(maxCount, window, n, events, s) && ClockFrom(earliest, events)
    ensures TimesFrom(earliest, s)
  {
    if events != [] {
      var e := events[|events| - 1];
      var before := Previous(maxCount, window, n, events, s);
      RunTimes(maxCount, window, n, events[..|events| - 1], before, earliest);
      TimesStep(maxCount, window, before, e.thread, e.action, earliest);
    }
  }

  lemma TimesStep(maxCount: nat, window: nat, s: State, t: nat, a: Action, earliest: nat)
    requires TimesFrom(earliest, s) && Enabled(s, t, a) && (a.ReadClock? ==> a.now >= earliest)
    ensures TimesFrom(earliest, Do(maxCount, window, s, t, a))
  {
    var s' := Do(maxCount, window, s, t, a);
    assert AtLeast(earliest, ClockOf(s.threads[t]));
    assert ClockOf(s.threads[t]) != [] ==> ClockOf(s.threads[t])[0] >= earliest;
    if s'.log != s.log {
      assert s'.log[..|s.log|] == s.log;
    }
    forall u | 0 <= u < |s'.threads|
      ensures AtLeast(earliest, ClockOf(s'.threads[u]))
    {
      if u != t {
        assert s'.threads[u] == s.threads[u];
      }
    }
  }

  /** The recorded times of a sequential log are what the rule admits of all requested ones. */
  function Requested(log: seq<Decision>): seq<nat>
  {
    seq(|log|, i requires 0 <= i < |log| => log[i].now)
  }

  lemma {:induction false} RecordedIsAdmitted(maxCount: nat, window: nat, log: seq<Decision>)
    requires Sequential(maxCount, window, log)
    ensures Recorded(log) == Admitted(maxCount, window, Requested(log))
  {
    if log != [] {
      var earlier := log[..|log| - 1];
      RecordedIsAdmitted(maxCount, window, earlier);
      assert Requested(log)[..|log| - 1] == Requested(earlier);
    }
  }

  // ---------- What was read ----------

  /** The clock value a thread read last. */
  function LatestRead(events: seq<Event>, t: nat): Option<nat>
  {
    if events == [] then None
    else
      var e := events[|events| - 1];
      if e.thread == t && e.action.ReadClock? then Some(e.action.now) else LatestRead(events[..|events| - 1], t)
  }

  predicate Reads(events: seq<Event>, t: nat, k: nat)
    requires k < |events|
  {
    events[k].thread == t && events[k].action.ReadClock?
  }

  lemma {:induction false} LatestReadIsLast(events: seq<Event>, t: nat, k: nat)
    requires k < |events| && Reads(events, t, k) && forall j | k < j < |events| :: !Reads(events, t, j)
    ensures LatestRead(events, t) == Some(events[k].action.now)
  {
    var n := |events| - 1;
    if k < n {
      assert !Reads(events, t, n);
      forall j | k < j < n
        ensures !Reads(events[..n], t, j)
      {
        assert !Reads(events, t, j);
      }
      LatestReadIsLast(events[..n], t, k);
    }
  }

  /** Every thread with a call under way works with the value it read last. */
  ghost predicate UsesReading(events: seq<Event>, s: State, t: nat)
    requires t < |s.threads|
  {
    !s.threads[t].Outside? ==> LatestRead(events, t) == Some(s.threads[t].now)
  }

  lemma {:induction false} ReadingsAreUsed(maxCount: nat, window: nat, n: nat, events: seq<Event>, s: State)
    requires Runs(maxCount, window, n, events, s)
    ensures |s.threads| == n && forall t: nat | t < n :: UsesReading(events, s, t)
  {
    if events != [] {
      var e := events[|events| - 1];
      var earlier := events[..|events| - 1];
      var before := Previous(maxCount, window, n, events, s);
      ReadingsAreUsed(maxCount, window, n, earlier, before);
      forall t: nat | t < n
        ensures UsesReading(events, s, t)
      {
        assert UsesReading(earlier, before, t);
        UsesStep(maxCount, window, before, earlier, e, t);
        assert earlier + [e] == events;
      }
    }
  }

  lemma UsesStep(maxCount: nat, window: nat, s: State, events: seq<Event>, e: Event, t: nat)
    requires Enabled(s, e.thread, e.action) && t < |s.threads| && UsesReading(events, s, t)
    ensures UsesReading(events + [e], Do(maxCount, window, s, e.thread, e.action), t)
  {
    ReadNext(events, e, t);
    if t != e.thread {
      assert Do(maxCount, window, s, e.thread, e.action).threads[t] == s.threads[t];
    }
  }

  lemma ReadNext(events: seq<Event>, e: Event, t: nat)
    ensures LatestRead(events + [e], t)
         == if e.thread == t && e.action.ReadClock? then Some(e.action.now) else LatestRead(events, t)
  {
    assert (events + [e])[..|events|] == events;
  }

  lemma UsesOne(maxCount: nat, window: nat, n: nat, events: seq<Event>, s: State, t: nat)
    requires Runs(maxCount, window, n, events, s) && t < |s.threads|
    ensures UsesReading(events, s, t)
  {
    ReadingsAreUsed(maxCount, window, n, events, s);
  }

  /** A call by a thread, with the value it read. */
  datatype Call = Call(thread: nat, now: nat)

  function Calls(log: seq<Decision>): seq<Call>
  {
    seq(|log|, i requires 0 <= i < |log| => Call(log[i].thread, log[i].now))
  }

  /** The calls that have returned, in the order of their unlocks, each with its thread's
      latest reading. */
  function Returned(events: seq<Event>): seq<Call>
  {
    if events == [] then []
    else
      var e := events[|events| - 1];
      var earlier := events[..|events| - 1];
      Returned(earlier) +
      match e.action
      case Unlock =>
        (match LatestRead(earlier, e.thread)
         case Some(now) => [Call(e.thread, now)]
         case None => [])
      case _ => []
  }

  /** The log is that of the returned calls, and then of the one about to return, if any. */
  ghost predicate LogIs(events: seq<Event>, s: State)
  {
    && ((forall t | 0 <= t < |s.threads| :: !s.threads[t].Leaving?) ==> Calls(s.log) == Returned(events))
    && (forall t | 0 <= t < |s.threads| && s.threads[t].Leaving? ::
          Calls(s.log) == Returned(events) + [Call(t, s.threads[t].now)])
  }

  lemma CallsNext(log: seq<Decision>, d: Decision)
    ensures Calls(log + [d]) == Calls(log) + [Call(d.thread, d.now)]
  {
  }

  lemma LogStays(s: State, s': State, t: nat, events: seq<Event>, e: Event)
    requires t < |s.threads| == |s'.threads| && s'.log == s.log && LogIs(events, s)
    requires forall u | 0 <= u < |s.threads| && u != t :: s'.threads[u] == s.threads[u]
    requires !s.threads[t].Leaving? && !s'.threads[t].Leaving? && !e.action.Unlock?
    ensures LogIs(events + [e], s')
  {
    assert (events + [e])[..|events|] == events;
    assert Returned(events + [e]) == Returned(events) + [] == Returned(events);
  }

  lemma LogGrows(s: State, s': State, t: nat, d: Decision, events: seq<Event>, e: Event)
    requires t < |s.threads| == |s'.threads| && s'.log == s.log + [d] && LogIs(events, s)
    requires forall u | 0 <= u < |s.threads| :: !s.threads[u].Leaving?
    requires forall u | 0 <= u < |s.threads| && u != t :: s'.threads[u] == s.threads[u]
    requires s'.threads[t].Leaving? && d.thread == t && d.now == s'.threads[t].now && !e.action.Unlock?
    ensures LogIs(events + [e], s')
  {
    assert (events + [e])[..|events|] == events;
    assert Returned(events + [e]) == Returned(events) + [] == Returned(events);
    CallsNext(s.log, d);
  }

  lemma LogReturns(s: State, s': State, t: nat, events: seq<Event>, e: Event)
    requires t < |s.threads| == |s'.threads| && s'.log == s.log && LogIs(events, s)
    requires forall u | 0 <= u < |s'.threads| :: !s'.threads[u].Leaving?
    requires s.threads[t].Leaving? && e == Event(t, Unlock) && LatestRead(events, t) == Some(s.threads[t].now)
    ensures LogIs(events + [e], s')
  {
    assert (events + [e])[..|events|] == events;
    assert Returned(events + [e]) == Returned(events) + [Call(t, s.threads[t].now)];
  }

  lemma LogFollows(maxCount: nat, window: nat, s: State, events: seq<Event>, e: Event)
    requires Exclusive(s) && Enabled(s, e.thread, e.action) && LogIs(events, s)
    requires UsesReading(events, s, e.thread)
    ensures LogIs(events + [e], Do(maxCount, window, s, e.thread, e.action))
  {
    var t := e.thread;
    var s' := Do(maxCount, window, s, t, e.action);
    assert forall u | 0 <= u < |s.threads| && u != t :: s'.threads[u] == s.threads[u];
    if e.action.Unlock? {
      LogReturns(s, s', t, events, e);
    } else if s'.log == s.log {
      LogStays(s, s', t, events, e);
    } else {
      LogGrows(s, s', t, s'.log[|s.log|], events, e);
    }
  }

  /** The log holds one decision for each call that has returned, about the value its thread
      read, and one for the call about to return. */
  lemma {:induction false} LogIsOfCalls(maxCount: nat, window: nat, n: nat, events: seq<Event>, s: State)
    requires Runs(maxCount, window, n, events, s)
    ensures LogIs(events, s)
  {
    if events == [] {
      assert Calls([]) == [];
    } else {
      var e := events[|events| - 1];
      var earlier := events[..|events| - 1];
      var before := Previous(maxCount, window, n, events, s);
      LogIsOfCalls(maxCount, window, n, earlier, before);
      UsesOne(maxCount, window, n, earlier, before, e.thread);
      EveryRun(maxCount, window, n, earlier, before);
      assert earlier + [e] == events;
      LogFollows(maxCount, window, before, earlier, e);
    }
  }

  // ---------- The decisions ----------

  lemma {:induction false} SequentialPrefix(maxCount: nat, window: nat, log: seq<Decision>, k: nat)
    requires Sequential(maxCount, window, log) && k <= |log|
    ensures Sequential(maxCount, window, log[..k])
    decreases |log| - k
  {
    if k == |log| {
      assert log[..k] == log;
    } else {
      SequentialPrefix(maxCount, window, log, k + 1);
      assert log[..k + 1][..k] == log[..k];
    }
  }

  lemma SequentialAt(maxCount: nat, window: nat, log: seq<Decision>, i: nat)
    requires Sequential(maxCount, window, log) && i < |log|
    ensures log[i].allowed == !Refuses(maxCount, window, Last(maxCount, Recorded(log[..i])), log[i].now)
  {
    SequentialPrefix(maxCount, window, log, i + 1);
    assert log[..i + 1][..i] == log[..i];
  }

  /** Every logged decision follows from the values read and admitted before it: it is allowed
      exactly when no limit is to be kept, or fewer values than the limit were admitted, or the
      one admitted limit places ago reads zero or lies before the window. */
  lemma DecisionsFollow(maxCount: nat, window: nat, n: nat, events: seq<Event>, s: State, i: nat)
    requires Runs(maxCount, window, n, events, s) && i < |s.log|
    ensures var h, now := Recorded(s.log[..i]), s.log[i].now;
            s.log[i].allowed <==>
              || maxCount == 0 || |h| < maxCount || h[|h| - maxCount] == 0
              || h[|h| - maxCount] + window < (if now >= window then now else now + 0x1_0000_0000_0000_0000)
  {
    EveryRun(maxCount, window, n, events, s);
    SequentialAt(maxCount, window, s.log, i);
    AcceptsExactlyWhen(maxCount, window, Recorded(s.log[..i]), s.log[i].now);
  }

  /** The decisions that allowed a call which read a value between lo and hi. */
  function AdmittedBetween(log: seq<Decision>, lo: int, hi: int): set<nat>
  {
    set i: nat | i < |log| && log[i].allowed && lo <= log[i].now <= hi
  }

  lemma {:induction false} AdmittedAreRecorded(log: seq<Decision>, lo: int, hi: int)
    ensures |AdmittedBetween(log, lo, hi)| == |Within(Recorded(log), lo, hi)|
  {
    if log != [] {
      var earlier, d := log[..|log| - 1], log[|log| - 1];
      AdmittedAreRecorded(earlier, lo, hi);
      assert log == earlier + [d];
      BetweenNext(earlier, d, lo, hi);
      RecordedNext(earlier, d, lo, hi);
    }
  }

  lemma BetweenNext(log: seq<Decision>, d: Decision, lo: int, hi: int)
    ensures |AdmittedBetween(log + [d], lo, hi)|
         == |AdmittedBetween(log, lo, hi)| + if d.allowed && lo <= d.now <= hi then 1 else 0
  {
    var all := log + [d];
    var n: nat := |log|;
    assert forall i: nat | i < n :: all[i] == log[i];
    assert n !in AdmittedBetween(log, lo, hi);
    if d.allowed && lo <= d.now <= hi {
      assert AdmittedBetween(all, lo, hi) == AdmittedBetween(log, lo, hi) + {n};
    } else {
      assert AdmittedBetween(all, lo, hi) == AdmittedBetween(log, lo, hi);
    }
  }

  lemma RecordedNext(log: seq<Decision>, d: Decision, lo: int, hi: int)
    ensures |Within(Recorded(log + [d]), lo, hi)|
         == |Within(Recorded(log), lo, hi)| + if d.allowed && lo <= d.now <= hi then 1 else 0
  {
    assert (log + [d])[..|log|] == log;
    var h := Recorded(log);
    if d.allowed {
      if lo <= d.now <= hi {
        WithinAppended(h, lo, hi, d.now);
      } else {
        WithinOutside(h, lo, hi, d.now);
      }
    } else {
      assert h + [] == h;
    }
  }

  lemma WithinOutside(history: seq<nat>, lo: int, hi: int, now: nat)
    requires !(lo <= now <= hi)
    ensures Within(history + [now], lo, hi) == Within(history, lo, hi)
  {
    var h := history + [now];
    assert forall k: nat | k < |history| :: h[k] == history[k];
  }

  lemma WindowIsKept(maxCount: nat, window: nat, n: nat, events: seq<Event>, s: State)
    requires maxCount >= 1 && ClockFrom(1, events) && ClockFrom(window, events)
    requires Runs(maxCount, window, n, events, s)
    ensures WindowSafe(maxCount, window, Recorded(s.log)) && s.ring == Last(maxCount, Recorded(s.log))
    ensures Exclusive(s) && TimesFrom(1, s) && TimesFrom(window, s)
  {
    EveryRun(maxCount, window, n, events, s);
    RunTimes(maxCount, window, n, events, s, 1);
    RunTimes(maxCount, window, n, events, s, window);
    RecordedIsAdmitted(maxCount, window, s.log);
    RunIsGapped(maxCount, window, Requested(s.log));
    GappedIsSafe(maxCount, window, Recorded(s.log));
  }

  /** The same with no reading zero or less than the window: a call is allowed exactly when fewer
      values than the limit were admitted before it or the one limit places ago lies before the
      window. */
  lemma DecisionsByWindow(maxCount: nat, window: nat, n: nat, events: seq<Event>, s: State, i: nat)
    requires maxCount >= 1 && ClockFrom(1, events) && ClockFrom(window, events)
    requires Runs(maxCount, window, n, events, s) && i < |s.log|
    ensures var h := Recorded(s.log[..i]);
            s.log[i].allowed <==> |h| < maxCount || h[|h| - maxCount] + window < s.log[i].now
  {
    RunTimes(maxCount, window, n, events, s, 1);
    RunTimes(maxCount, window, n, events, s, window);
    DecisionsFollow(maxCount, window, n, events, s, i);
    RecordedFrom(s.log, i, 1);
  }

  /** For any number of threads, any interleaving and clock values read before the lock is
      taken, so possibly recorded out of order: of the values the threads read, no closed
      interval of the window's length ever holds more than maxCount whose calls were allowed,
      and one thread at a time is inside the lock. */
  lemma ThreadsAreSafe(maxCount: nat, window: nat, n: nat, events: seq<Event>, s: State)
    requires maxCount >= 1 && ClockFrom(1, events) && ClockFrom(window, events)
    requires Runs(maxCount, window, n, events, s)
    ensures forall lo: int, hi: int | hi == lo + window :: |AdmittedBetween(s.log, lo, hi)| <= maxCount
    ensures |s.threads| == n && LogIs(events, s) && forall t: nat | t < n :: UsesReading(events, s, t)
    ensures s.ring == Last(maxCount, Recorded(s.log)) && Exclusive(s)
  {
    WindowIsKept(maxCount, window, n, events, s);
    ReadingsAreUsed(maxCount, window, n, events, s);
    LogIsOfCalls(maxCount, window, n, events, s);
    forall lo: int, hi: int | hi == lo + window
      ensures |AdmittedBetween(s.log, lo, hi)| <= maxCount
    {
      AdmittedAreRecorded(s.log, lo, hi);
    }
  }

  lemma {:induction false} RecordedFrom(log: seq<Decision>, i: nat, earliest: nat)
    requires i <= |log| && forall j | 0 <= j < |log| :: log[j].now >= earliest
    ensures AtLeast(earliest, Recorded(log[..i]))
  {
    if i > 0 {
      RecordedFrom(log, i - 1, earliest);
      assert log[..i][..i - 1] == log[..i - 1];
    }
  }
}
