// The snowflake generator (snowflake.cpp:56-100) over a clock that is any finite list of
// readings, and what its ids are over whole runs.
module Snowflakes {
  import Bits
  import opened Options
  import opened SnowflakeIds
  import opened WorkerIds

  // ---------- The specification ----------

  datatype State = State(last: int, sequence: nat, worker: nat)

  /** An id (or none, when the readings ran out while waiting), the new state, and the
      readings not yet taken. */
  datatype Outcome = Outcome(id: Option<int>, state: State, rest: seq<int>)

  /** The first reading past `last`, and the readings behind it. */
  function Later(last: int, readings: seq<int>): (r: (Option<int>, seq<int>))
    ensures |r.1| <= |readings|
    ensures r.0.Some? ==> r.0.value > last && r.0.value in readings && (forall x | x in r.1 :: x in readings)
  {
    if readings == [] then (None, [])
    else if readings[0] > last then (Some(readings[0]), readings[1..])
    else Later(last, readings[1..])
  }

  /** The id at a timestamp. */
  function At(st: State, timestamp: int, readings: seq<int>): (o: Outcome)
    ensures |o.rest| <= |readings|
  {
    if st.last != timestamp then
      Issue(st.(sequence := 0), timestamp, readings)
    else if st.sequence < MAX_SEQUENCE then
      Issue(st.(sequence := st.sequence + 1), timestamp, readings)
    else
      var (later, rest) := Later(st.last, readings);
      match later
      case None => Outcome(None, st.(sequence := 0), rest)
      case Some(t) => Issue(st.(sequence := 0), t, rest)
  }

  function Issue(st: State, timestamp: int, rest: seq<int>): Outcome
  {
    Outcome(Some(Pack(timestamp - START, st.worker, st.sequence)), st.(last := timestamp), rest)
  }

  /** One call of the generator; the first reading decides whether the clock went back. */
  function Next(st: State, readings: seq<int>): (o: Outcome)
    requires readings != []
    ensures |o.rest| < |readings|
  {
    var o := At(st, readings[0], readings[1..]);
    if readings[0] < st.last && o.id.Some? then o.(id := Some(Masked(o.id.value))) else o
  }

  /** The ids of a run that lasts until the readings are used up. */
  function Ids(st: State, readings: seq<int>): seq<int>
    decreases |readings|
  {
    if readings == [] then []
    else
      var o := Next(st, readings);
      (if o.id.Some? then [o.id.value] else []) + Ids(o.state, o.rest)
  }

  // ---------- What it says ----------

  /** Waiting ends with the first reading past the last timestamp, and takes no more. */
  lemma {:induction false} LaterIsFirst(last: int, readings: seq<int>, k: nat)
    requires k < |readings| && readings[k] > last && forall j | 0 <= j < k :: readings[j] <= last
    ensures Later(last, readings) == (Some(readings[k]), readings[k + 1..])
  {
    if k > 0 {
      assert readings[0] <= last;
      LaterIsFirst(last, readings[1..], k - 1);
    }
  }

  lemma {:induction false} LaterIsNone(last: int, readings: seq<int>)
    requires forall j | 0 <= j < |readings| :: readings[j] <= last
    ensures Later(last, readings) == (None, [])
  {
    if readings != [] {
      LaterIsNone(last, readings[1..]);
    }
  }

  /** The readings the id layout has room for. */
  predicate InEpoch(x: int) { 0 <= x - 1_704_038_400_000 < 0x40_0000_0000 }

  /** An id in numbers: milliseconds since 2024, worker, sequence number. */
  function IdOf(x: int, worker: nat, sequence: nat): int
  {
    ((x - 1_704_038_400_000) * 8192 + worker) * 4096 + sequence
  }

  /** No reading in front of the k-th is past x; that one is, it is t, and rest is behind it, or
      there is none. */
  ghost predicate FirstPast(readings: seq<int>, x: int, k: nat, found: bool, t: int, rest: seq<int>)
  {
    && k <= |readings| && (forall j | 0 <= j < k :: readings[j] <= x)
    && if found then k < |readings| && readings[k] == t > x && rest == readings[k + 1..] else k == |readings|
  }

  /** What a call at x does: a new millisecond restarts the sequence, the same one counts on,
      and a used-up one waits for the first reading past it. */
  ghost predicate Settled(st: State, x: int, readings: seq<int>, found: bool, k: nat, st': State, rest: seq<int>)
  {
    && st'.worker == st.worker
    && (x != st.last ==> found && st'.last == x && st'.sequence == 0 && rest == readings)
    && (x == st.last && st.sequence < 4095 ==>
          found && st'.last == x && st'.sequence == st.sequence + 1 && rest == readings)
    && (x == st.last && st.sequence == 4095 ==>
          && st'.sequence == 0 && (!found ==> st'.last == x && rest == [])
          && FirstPast(readings, x, k, found, st'.last, rest))
  }

  // ---------- The code ----------

  /** The system clock: what it will read, in order. */
  class Clock {
    var readings: seq<int>

    constructor (future: seq<int>)
      ensures readings == future
    {
      readings := future;
    }

    method GetTimestamp() returns (t: Option<int>)
      modifies this
      ensures if old(readings) == [] then t == None && readings == []
              else t == Some(old(readings)[0]) && readings == old(readings)[1..]
    {
      if readings == [] {
        return None;
      }
      t := Some(readings[0]);
      readings := readings[1..];
    }
  }

  class Snowflake {
    var lastTimestamp: int
    var sequence: nat
    var workerId: nat
    const clock: Clock

    ghost function Current(): State
      reads this
    {
      State(lastTimestamp, sequence, workerId)
    }

    ghost predicate Valid()
      reads this
    {
      sequence <= MAX_SEQUENCE && workerId <= MAX_WORKER
    }

    constructor (clock: Clock)
      ensures Valid() && Current() == State(-1, 0, 0) && this.clock == clock
    {
      this.clock := clock;
      lastTimestamp, sequence, workerId := -1, 0, 0;
    }

    method InitWorkerId(ip: string)
      requires Valid()
      modifies this
      ensures Valid() && Current() == old(Current()).(worker := WorkerOfIp(ip))
    {
      workerId := IpToWorkerId(ip);
    }

    /** Waits for a reading past the last timestamp: the k-th is the first. */
    method NextTimestamp() returns (timestamp: Option<int>, ghost k: nat)
      modifies clock
      ensures (timestamp, clock.readings) == Later(lastTimestamp, old(clock.readings))
      ensures k <= |old(clock.readings)| && forall j | 0 <= j < k :: old(clock.readings)[j] <= lastTimestamp
      ensures timestamp.Some? ==>
                && k < |old(clock.readings)| && old(clock.readings)[k] == timestamp.value > lastTimestamp
                && clock.readings == old(clock.readings)[k + 1..]
      ensures timestamp.None? ==> k == |old(clock.readings)| && clock.readings == []
    {
      ghost var r := clock.readings;
      k := 0;
      timestamp := clock.GetTimestamp();
      while timestamp.Some? && timestamp.value <= lastTimestamp
        invariant k <= |r| && forall j | 0 <= j < k :: r[j] <= lastTimestamp
        invariant timestamp.Some? ==> k < |r| && r[k] == timestamp.value && clock.readings == r[k + 1..]
        invariant timestamp.None? ==> k == |r| && clock.readings == []
        decreases |clock.readings|, timestamp.Some?
      {
        k := k + 1;
        timestamp := clock.GetTimestamp();
      }
      if timestamp.Some? {
        LaterIsFirst(lastTimestamp, r, k);
      } else {
        LaterIsNone(lastTimestamp, r);
      }
    }

    /** Moves timestamp and sequence number on for a call at a timestamp; k is the reading a wait
        ended with, and found says whether it did. */
    method Settle(timestamp: int) returns (found: bool, ghost k: nat)
      requires Valid()
      modifies this, clock
      ensures Settled(old(Current()), timestamp, old(clock.readings), found, k, Current(), clock.readings)
    {
      var ts := timestamp;
      k := 0;
      if lastTimestamp == ts {
        SequenceWraps(sequence);
        sequence := Bits.BitAnd(sequence + 1, MAX_SEQUENCE);
        if sequence == 0 {
          var later;
          later, k := NextTimestamp();
          if later.None? {
            return false, k;
          }
          ts := later.value;
        }
      } else {
        sequence := 0;
      }
      lastTimestamp := ts;
      found := true;
    }

    method GetIdByTs(timestamp: int) returns (id: Option<int>, ghost k: nat)
      requires Valid()
      modifies this, clock
      ensures Valid() && Outcome(id, Current(), clock.readings) == At(old(Current()), timestamp, old(clock.readings))
      ensures Settled(old(Current()), timestamp, old(clock.readings), id.Some?, k, Current(), clock.readings)
      ensures id.Some? && InEpoch(lastTimestamp) ==> id == Some(IdOf(lastTimestamp, workerId, sequence))
    {
      ghost var st, r := Current(), clock.readings;
      var found;
      found, k := Settle(timestamp);
      SettledIsAt(st, timestamp, r, found, k, Current(), clock.readings);
      if !found {
        return None, k;
      }
      PackInNumbers(lastTimestamp, workerId, sequence);
      return Some(Pack(lastTimestamp - START, workerId, sequence)), k;
    }

    /** One call. A reading not behind the last timestamp gives the id at it; behind, only bit 35
        of the reading is left. */
    method GetId() returns (id: Option<int>, ghost k: nat)
      requires Valid() && clock.readings != []
      modifies this, clock
      ensures Valid() && Outcome(id, Current(), clock.readings) == Next(old(Current()), old(clock.readings))
      ensures Settled(old(Current()), old(clock.readings[0]), old(clock.readings)[1..], id.Some?, k,
                      Current(), clock.readings)
      ensures old(clock.readings[0]) >= old(lastTimestamp) && id.Some? && InEpoch(lastTimestamp) ==>
                id == Some(IdOf(lastTimestamp, workerId, sequence))
      ensures var x := old(clock.readings[0]);
              x < old(lastTimestamp) && InEpoch(x) ==>
                id == Some(if (x - 1_704_038_400_000) / 0x8_0000_0000 % 2 == 1 then 0x1000_0000_0000_0000 else 0)
    {
      ghost var st, r := Current(), clock.readings;
      var timestamp := clock.GetTimestamp();
      assert clock.readings == r[1..] && timestamp.value == r[0];
      if timestamp.value < lastTimestamp {
        BehindInNumbers(timestamp.value, workerId);
        id, k := GetIdByTs(timestamp.value);
        id := Some(Masked(id.value));
        NextIsAt(st, r);
        return;
      }
      id, k := GetIdByTs(timestamp.value);
      NextIsAt(st, r);
    }
  }

  lemma NextIsAt(st: State, r: seq<int>)
    requires r != []
    ensures var o := At(st, r[0], r[1..]);
            Next(st, r) == if r[0] < st.last && o.id.Some? then o.(id := Some(Masked(o.id.value))) else o
  {
  }

  lemma SettledIsAt(st: State, x: int, r: seq<int>, found: bool, k: nat, st': State, rest: seq<int>)
    requires Settled(st, x, r, found, k, st', rest) && st.sequence <= 4095
    ensures At(st, x, r)
         == Outcome(if found then Some(Pack(st'.last - START, st'.worker, st'.sequence)) else None, st', rest)
  {
    if x == st.last && st.sequence == 4095 {
      if found {
        LaterIsFirst(st.last, r, k);
      } else {
        LaterIsNone(st.last, r);
      }
    }
  }

  lemma PackInNumbers(x: int, worker: nat, sequence: nat)
    requires worker <= 8191 && sequence <= 4095
    ensures InEpoch(x) ==> Pack(x - START, worker, sequence) == IdOf(x, worker, sequence)
  {
    if InEpoch(x) {
      PackIs(x - START, worker, sequence);
    }
  }

  lemma BehindInNumbers(x: int, worker: nat)
    requires worker <= 8191
    ensures InEpoch(x) ==>
              Masked(IdOf(x, worker, 0))
              == if (x - 1_704_038_400_000) / 0x8_0000_0000 % 2 == 1 then 0x1000_0000_0000_0000 else 0
  {
    if InEpoch(x) {
      PackInNumbers(x, worker, 0);
      MaskedPack(x - START, worker, Pack(x - START, worker, 0));
    }
  }

  lemma SequenceWraps(sequence: nat)
    requires sequence <= MAX_SEQUENCE
    ensures Bits.BitAnd(sequence + 1, MAX_SEQUENCE) == if sequence == MAX_SEQUENCE then 0 else sequence + 1
  {
    Widths();
    WrapsAt(sequence, SEQUENCE_BITS);
  }

  lemma WrapsAt(s: nat, k: nat)
    requires s < Bits.Pow2(k)
    ensures Bits.BitAnd(s + 1, Bits.Pow2(k) - 1) == if s + 1 == Bits.Pow2(k) then 0 else s + 1
  {
    Bits.AndMask(s + 1, k);
    if s + 1 == Bits.Pow2(k) {
      Bits.ShlThenAdd(1, 0, k);
      Bits.ShlIsProduct(1, k);
    } else {
      LowIsAll(s + 1, k);
    }
  }
}
