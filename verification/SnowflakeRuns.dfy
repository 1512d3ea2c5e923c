// Runs of the snowflake generator: ids grow, ids of different workers differ, and what
// happens when the clock goes back.
module SnowflakeRuns {
  import opened Options
  import opened SnowflakeIds
  import opened Snowflakes
  import Bits

  predicate Readable(readings: seq<int>) { forall i | 0 <= i < |readings| :: InEpoch(readings[i]) }

  /** A clock that never goes back. */
  predicate Clockwise(readings: seq<int>)
  {
    Readable(readings) && forall i, j | 0 <= i < j < |readings| :: readings[i] <= readings[j]
  }

  /** No call finds its first reading behind the last timestamp; what is read while waiting may
      go back. */
  predicate NeverBehind(st: State, readings: seq<int>)
    decreases |readings|
  {
    readings == [] ||
    (readings[0] >= st.last && NeverBehind(Next(st, readings).state, Next(st, readings).rest))
  }

  /** A state between two calls, before the first id or after one. */
  predicate Good(st: State)
  {
    st.sequence <= MAX_SEQUENCE && st.worker <= MAX_WORKER && (st.last == -1 || InEpoch(st.last))
  }

  /** The id a state was left with. */
  function LastId(st: State): int { Pack(st.last - START, st.worker, st.sequence) }

  /** Later in time, or in the same millisecond with a larger sequence number. */
  predicate After(a: State, b: State)
  {
    a.last > b.last || (a.last == b.last && a.sequence > b.sequence)
  }

  /** What is left after waiting is the end of the readings. */
  lemma {:induction false} LaterLeavesEnd(last: int, readings: seq<int>)
    ensures var rest := Later(last, readings).1; rest == readings[|readings| - |rest|..]
    ensures Later(last, readings).0.None? ==> Later(last, readings).1 == []
  {
    if readings != [] && readings[0] <= last {
      LaterLeavesEnd(last, readings[1..]);
    }
  }

  lemma NextLeavesEnd(st: State, readings: seq<int>)
    requires readings != []
    ensures var o := Next(st, readings);
            o.rest == readings[|readings| - |o.rest|..] && (o.id.None? ==> o.rest == [])
  {
    LaterLeavesEnd(st.last, readings[1..]);
  }

  /** An id issued without the clock going back is the last id of the new state, which is
      after the old one and stamped with one of the readings. */
  lemma NextMovesOn(st: State, readings: seq<int>)
    requires Good(st) && readings != [] && Readable(readings)
    requires readings[0] >= st.last && Next(st, readings).id.Some?
    ensures var o := Next(st, readings);
            && Good(o.state) && o.state.worker == st.worker && o.state.last in readings
            && o.id.value == LastId(o.state) && After(o.state, st)
  {
  }

  lemma AfterIsLarger(a: State, b: State)
    requires Good(a) && Good(b) && InEpoch(a.last) && InEpoch(b.last) && a.worker == b.worker
    ensures LastId(a) > LastId(b) <==> After(a, b)
  {
    PackOrder(b.last - START, a.last - START, a.worker, b.sequence, a.sequence);
  }

  lemma RestIsReadable(st: State, readings: seq<int>)
    requires readings != [] && Readable(readings)
    ensures Readable(Next(st, readings).rest) && forall x | x in Next(st, readings).rest :: x in readings
  {
    NextLeavesEnd(st, readings);
  }

  lemma IdsStep(st: State, readings: seq<int>)
    requires readings != []
    ensures var o := Next(st, readings);
            && (o.id.Some? ==> Ids(st, readings) == [o.id.value] + Ids(o.state, o.rest))
            && (o.id.None? ==> Ids(st, readings) == [])
  {
    NextLeavesEnd(st, readings);
  }

  /** The reading an id is stamped with stands right in front of the rest. */
  lemma StampPrecedes(st: State, readings: seq<int>)
    requires readings != [] && Next(st, readings).id.Some?
    ensures var o := Next(st, readings); readings[|readings| - |o.rest| - 1] == o.state.last
  {
    if st.last == readings[0] && st.sequence >= MAX_SEQUENCE {
      LaterPrecedes(st.last, readings[1..]);
    }
  }

  /** The reading the wait ends with stands right in front of the rest. */
  lemma {:induction false} LaterPrecedes(last: int, readings: seq<int>)
    requires Later(last, readings).0.Some?
    ensures var (t, rest) := Later(last, readings);
            |rest| < |readings| && readings[|readings| - |rest| - 1] == t.value
  {
    if readings[0] <= last {
      LaterPrecedes(last, readings[1..]);
    }
  }

  /** A clock that never goes back lets no call fall behind. */
  lemma {:induction false} ClockwiseIsNeverBehind(st: State, readings: seq<int>)
    requires Good(st) && Clockwise(readings) && (readings != [] ==> readings[0] >= st.last)
    ensures NeverBehind(st, readings)
    decreases |readings|
  {
    if readings != [] {
      var o := Next(st, readings);
      NextLeavesEnd(st, readings);
      if o.id.Some? {
        StampPrecedes(st, readings);
        NextMovesOn(st, readings);
        SuffixIsClockwise(readings, |readings| - |o.rest|);
        ClockwiseIsNeverBehind(o.state, o.rest);
      }
    }
  }

  lemma SuffixIsClockwise(readings: seq<int>, k: nat)
    requires Clockwise(readings) && 0 < k <= |readings|
    ensures Clockwise(readings[k..]) && (k < |readings| ==> readings[k..][0] >= readings[k - 1])
  {
  }

  // ---------- Order ----------

  predicate Increasing(s: seq<int>) { forall i, j | 0 <= i < j < |s| :: s[i] < s[j] }

  /** A list increases exactly when its tail does and its first two elements are in order. */
  lemma IncreasingStep(x: int, y: int, more: seq<int>)
    ensures Increasing([x] + ([y] + more)) <==> x < y && Increasing([y] + more)
  {
    var s, t := [x] + ([y] + more), [y] + more;
    if Increasing(s) {
      assert s[0] < s[1];
      forall i, j | 0 <= i < j < |t|
        ensures t[i] < t[j]
      {
        assert s[i + 1] < s[j + 1];
      }
    }
    if x < y && Increasing(t) {
      forall i, j | 0 <= i < j < |s|
        ensures s[i] < s[j]
      {
        assert j > 1 ==> t[0] < t[j - 1];
        assert i > 0 ==> t[i - 1] < t[j - 1];
      }
    }
  }

  /** One id against the last id of a state that issued it. */
  lemma NextIsLarger(st: State, readings: seq<int>)
    requires Good(st) && InEpoch(st.last) && readings != [] && Readable(readings)
    requires Next(st, readings).id.Some?
    ensures Next(st, readings).id.value > LastId(st) <==> readings[0] >= st.last
  {
    if readings[0] >= st.last {
      NextMovesOn(st, readings);
      AfterIsLarger(Next(st, readings).state, st);
    } else {
      MaskedIsSmaller(st, readings);
    }
  }

  lemma MaskedIsSmaller(st: State, readings: seq<int>)
    requires Good(st) && InEpoch(st.last) && readings != [] && InEpoch(readings[0]) && readings[0] < st.last
    ensures Next(st, readings).id.Some? && Next(st, readings).id.value < LastId(st)
  {
    ClockBackId(st, readings);
    BehindIsSmaller(st, readings[0]);
  }

  lemma BehindIsSmaller(st: State, x: int)
    requires Good(st) && InEpoch(st.last) && InEpoch(x) && x < st.last
    ensures Pack(x - START, st.worker, 0) < LastId(st)
  {
    var back := State(x, 0, st.worker);
    assert After(st, back) && LastId(back) == Pack(x - START, st.worker, 0);
    AfterIsLarger(st, back);
  }

  /** After an id was issued, that id and all later ones are strictly increasing exactly when no
      call finds the clock behind the last timestamp. */
  lemma {:induction false} IncreasingExactlyWhen(st: State, readings: seq<int>)
    requires Good(st) && InEpoch(st.last) && Readable(readings)
    ensures Increasing([LastId(st)] + Ids(st, readings)) <==> NeverBehind(st, readings)
    decreases |readings|
  {
    if readings != [] {
      var o := Next(st, readings);
      IdsStep(st, readings);
      NextLeavesEnd(st, readings);
      if o.id.Some? {
        NextIsLarger(st, readings);
        IncreasingStep(LastId(st), o.id.value, Ids(o.state, o.rest));
        if readings[0] >= st.last {
          NextMovesOn(st, readings);
          RestIsReadable(st, readings);
          IncreasingExactlyWhen(o.state, o.rest);
        }
      }
    }
  }

  /** The ids of a new generator are strictly increasing over a whole run exactly when no call
      finds the clock behind the last timestamp. */
  lemma NewIncreasingExactlyWhen(worker: nat, readings: seq<int>)
    requires worker <= MAX_WORKER && Readable(readings)
    ensures Increasing(Ids(State(-1, 0, worker), readings)) <==> NeverBehind(State(-1, 0, worker), readings)
  {
    if readings != [] {
      var st := State(-1, 0, worker);
      var o := Next(st, readings);
      IdsStep(st, readings);
      NextMovesOn(st, readings);
      RestIsReadable(st, readings);
      IncreasingExactlyWhen(o.state, o.rest);
    }
  }

  // ---------- Repeats ----------

  lemma IncreasingHasNoRepeat(x: int, more: seq<int>)
    requires Increasing([x] + more)
    ensures x !in more
  {
    var s := [x] + more;
    forall i | 0 <= i < |more|
      ensures more[i] != x
    {
      assert s[0] < s[i + 1];
    }
  }

  /** In one millisecond the sequence numbers come one after the other. */
  lemma {:induction false} CountsUp(st: State, r: seq<int>)
    requires r != [] && st.sequence + |r| <= MAX_SEQUENCE && forall i | 0 <= i < |r| :: r[i] == st.last
    ensures LastId(st.(sequence := st.sequence + |r|)) in Ids(st, r)
    decreases |r|
  {
    SameMillisecond(st, r);
    IdsStep(st, r);
    if |r| > 1 {
      CountsUp(st.(sequence := st.sequence + 1), r[1..]);
    }
  }

  lemma SameMillisecond(st: State, r: seq<int>)
    requires r != [] && r[0] == st.last && st.sequence < MAX_SEQUENCE
    ensures var next := st.(sequence := st.sequence + 1); Next(st, r) == Outcome(Some(LastId(next)), next, r[1..])
  {
  }

  lemma NewMillisecond(st: State, r: seq<int>)
    requires r != [] && r[0] > st.last
    ensures var next := st.(last := r[0], sequence := 0); Next(st, r) == Outcome(Some(LastId(next)), next, r[1..])
  {
  }

  /** A reading behind the last timestamp, and then that timestamp again. */
  function Return(st: State, x: int): seq<int> { [x] + seq(st.sequence + 1, _ => st.last) }

  lemma ReturnRepeats(st: State, x: int)
    requires Good(st) && x < st.last
    ensures LastId(st) in Ids(st, Return(st, x))
  {
    var r := Return(st, x);
    assert r[1..] == seq(st.sequence + 1, _ => st.last);
    BackState(st, r);
    IdsStep(st, r);
    RestartRepeats(st, x);
  }

  lemma BackState(st: State, r: seq<int>)
    requires r != [] && r[0] < st.last
    ensures Next(st, r).id.Some? && Next(st, r).rest == r[1..]
    ensures Next(st, r).state == st.(last := r[0], sequence := 0)
  {
  }

  lemma RestartRepeats(st: State, x: int)
    requires Good(st) && x < st.last
    ensures LastId(st) in Ids(st.(last := x, sequence := 0), seq(st.sequence + 1, _ => st.last))
  {
    var r := seq(st.sequence + 1, _ => st.last);
    var back, restart := st.(last := x, sequence := 0), st.(sequence := 0);
    NewMillisecond(back, r);
    IdsStep(back, r);
    if st.sequence > 0 {
      CountsUp(restart, r[1..]);
      assert restart.(sequence := 0 + st.sequence) == st;
    } else {
      assert restart == st;
    }
  }

  /** The last id cannot come again, however the clock runs on from a next reading x, exactly
      when x is not behind the last timestamp. One step back is enough: the clock going on
      from there meets the last timestamp again with the sequence restarted. */
  lemma RepeatsExactlyWhen(st: State, x: int)
    requires Good(st) && InEpoch(st.last) && InEpoch(x)
    ensures (forall r | Clockwise(r) && r != [] && r[0] == x :: LastId(st) !in Ids(st, r)) <==> x >= st.last
  {
    if x >= st.last {
      forall r | Clockwise(r) && r != [] && r[0] == x
        ensures LastId(st) !in Ids(st, r)
      {
        ClockwiseIsNeverBehind(st, r);
        IncreasingExactlyWhen(st, r);
        IncreasingHasNoRepeat(LastId(st), Ids(st, r));
      }
    } else {
      ReturnRepeats(st, x);
      assert Clockwise(Return(st, x)) && Return(st, x)[0] == x;
    }
  }

  /** A new generator whose clock goes back once, by two milliseconds, and on again. */
  lemma StepBackRepeats()
    ensures var ids := Ids(State(-1, 0, 1), [START + 5, START + 3, START + 5]);
            |ids| == 3 && ids[0] == ids[2] == Pack(5, 1, 0)
  {
    var r := [START + 5, START + 3, START + 5];
    var st, at, back := State(-1, 0, 1), State(START + 5, 0, 1), State(START + 3, 0, 1);
    IdsStep(st, r);
    IdsStep(at, r[1..]);
    IdsStep(back, r[2..]);
    assert r[1..][1..] == r[2..] && r[2..][1..] == [];
    assert Next(st, r) == Outcome(Some(LastId(at)), at, r[1..]);
    assert Next(at, r[1..]).state == back && Next(at, r[1..]).rest == r[2..];
    assert Next(back, r[2..]) == Outcome(Some(LastId(at)), at, []);
  }

  // ---------- The mask ----------

  /** Bit 35 of a reading, counted from the start of the epoch. */
  function Bit(x: int): nat
    requires InEpoch(x)
  {
    (x - START) / 0x8_0000_0000 % 2
  }

  /** The millisecond whose first id of worker 0 is the masked id of a reading. */
  function BareTime(x: int): int
    requires InEpoch(x)
  {
    if Bit(x) == 1 then START + 0x8_0000_0000 else START
  }

  function Bare(x: int): State
    requires InEpoch(x)
  {
    State(BareTime(x), 0, 0)
  }

  /** Behind the last timestamp the id is one of two numbers, told apart by bit 35 of the
      reading alone. */
  lemma ClockBackId(st: State, readings: seq<int>)
    requires Good(st) && readings != [] && InEpoch(readings[0]) && readings[0] < st.last
    ensures Next(st, readings).id == Some(if Bit(readings[0]) == 1 then 0x1000_0000_0000_0000 else 0)
    ensures Bit(readings[0]) == (readings[0] - 1_704_038_400_000) / 0x8_0000_0000 % 2
    ensures Next(st, readings).id.value <= Pack(readings[0] - START, st.worker, 0)
  {
    MaskedPack(readings[0] - START, st.worker, Pack(readings[0] - START, st.worker, 0));
    MaskedNext(st, readings);
  }

  lemma MaskedNext(st: State, readings: seq<int>)
    requires readings != [] && readings[0] < st.last
    ensures Next(st, readings).id == Some(Masked(Pack(readings[0] - START, st.worker, 0)))
  {
  }

  lemma BareId(x: int)
    requires InEpoch(x)
    ensures LastId(Bare(x)) == if Bit(x) == 1 then 0x1000_0000_0000_0000 else 0
  {
    PackIs(0, 0, 0);
    PackIs(0x8_0000_0000, 0, 0);
  }

  // ---------- Different workers ----------

  /** An id carries the worker of the run, and one of its readings. */
  predicate Stamped(id: int, worker: nat, readings: seq<int>)
  {
    id >= 0 && WorkerOf(id) == worker && TimestampOf(id) + START in readings
  }

  lemma LastIdIsStamped(st: State, readings: seq<int>)
    requires Good(st) && InEpoch(st.last) && st.last in readings
    ensures Stamped(LastId(st), st.worker, readings)
  {
    Unpack(st.last - START, st.worker, st.sequence);
  }

  lemma StaysGood(st: State, readings: seq<int>)
    requires Good(st) && readings != [] && Readable(readings)
    ensures Good(Next(st, readings).state) && Next(st, readings).state.worker == st.worker
  {
  }

  ghost predicate StampedOrMasked(id: int, st: State, readings: seq<int>)
  {
    Stamped(id, st.worker, readings) || (!NeverBehind(st, readings) && id in {0, 0x1000_0000_0000_0000})
  }

  lemma {:induction false} IsStampedOrMasked(st: State, readings: seq<int>, id: int)
    requires Good(st) && Readable(readings) && id in Ids(st, readings)
    ensures StampedOrMasked(id, st, readings)
    decreases |readings|
  {
    var o := Next(st, readings);
    IdsStep(st, readings);
    if id == o.id.value {
      IdIsStamped(st, readings);
    } else {
      RestIsReadable(st, readings);
      StaysGood(st, readings);
      IsStampedOrMasked(o.state, o.rest, id);
    }
  }

  /** Whatever the clock reads, every id carries the worker and one of the readings, or is one
      of the two masked numbers. */
  lemma IdsAreStamped(st: State, readings: seq<int>)
    requires Good(st) && Readable(readings)
    ensures forall id | id in Ids(st, readings) ::
              Stamped(id, st.worker, readings) || (!NeverBehind(st, readings) && id in {0, 0x1000_0000_0000_0000})
  {
    forall id | id in Ids(st, readings)
      ensures Stamped(id, st.worker, readings) || (!NeverBehind(st, readings) && id in {0, 0x1000_0000_0000_0000})
    {
      IsStampedOrMasked(st, readings, id);
      assert StampedOrMasked(id, st, readings);
    }
  }

  lemma IdIsStamped(st: State, readings: seq<int>)
    requires Good(st) && readings != [] && Readable(readings) && Next(st, readings).id.Some?
    ensures var id := Next(st, readings).id.value;
            if readings[0] < st.last then id in {0, 0x1000_0000_0000_0000} else Stamped(id, st.worker, readings)
  {
    if readings[0] < st.last {
      ClockBackId(st, readings);
    } else {
      NextMovesOn(st, readings);
      LastIdIsStamped(Next(st, readings).state, readings);
    }
  }

  /** The id of every masked call whose reading has the given bit 35. */
  function MaskedId(bit: nat): int { if bit == 1 then 0x1000_0000_0000_0000 else 0 }

  /** Some call of the run is behind the last timestamp with such a reading. */
  predicate EverBehind(st: State, readings: seq<int>, bit: nat)
    decreases |readings|
  {
    readings != [] &&
    ((readings[0] < st.last && InEpoch(readings[0]) && Bit(readings[0]) == bit)
     || EverBehind(Next(st, readings).state, Next(st, readings).rest, bit))
  }

  lemma StampedIsNotMasked(id: int, worker: nat, readings: seq<int>, bit: nat)
    requires Stamped(id, worker, readings) && worker != 0
    ensures id != MaskedId(bit)
  {
    MaskedWorker();
  }

  /** With a worker other than 0, a masked number is issued exactly by a call behind. */
  lemma {:induction false} MaskedExactlyWhen(st: State, readings: seq<int>, bit: nat)
    requires Good(st) && Readable(readings) && st.worker != 0 && bit < 2
    ensures MaskedId(bit) in Ids(st, readings) <==> EverBehind(st, readings, bit)
    decreases |readings|
  {
    if readings != [] {
      var o := Next(st, readings);
      IdsStep(st, readings);
      NextLeavesEnd(st, readings);
      RestIsReadable(st, readings);
      StaysGood(st, readings);
      MaskedExactlyWhen(o.state, o.rest, bit);
      if readings[0] < st.last {
        ClockBackId(st, readings);
      } else if o.id.Some? {
        NextMovesOn(st, readings);
        LastIdIsStamped(o.state, readings);
        StampedIsNotMasked(o.id.value, st.worker, readings, bit);
      }
    }
  }

  /** Over whole runs, generators with different workers share no id while neither falls
      behind. */
  lemma WorkersApart(st: State, readings: seq<int>, st': State, readings': seq<int>)
    requires Good(st) && Readable(readings) && Good(st') && Readable(readings')
    requires st.worker != st'.worker && NeverBehind(st, readings) && NeverBehind(st', readings')
    ensures forall id | id in Ids(st, readings) :: id !in Ids(st', readings')
  {
    IdsAreStamped(st, readings);
    IdsAreStamped(st', readings');
  }

  predicate Shared(id: int, st: State, readings: seq<int>, st': State, readings': seq<int>)
  {
    id in Ids(st, readings) && id in Ids(st', readings')
  }

  predicate BothBehind(bit: nat, st: State, readings: seq<int>, st': State, readings': seq<int>)
  {
    EverBehind(st, readings, bit) && EverBehind(st', readings', bit)
  }

  /** Only masked numbers can be shared. */
  lemma SharedIsMasked(id: int, st: State, readings: seq<int>, st': State, readings': seq<int>)
    requires Good(st) && Readable(readings) && Good(st') && Readable(readings')
    requires st.worker != st'.worker && st.worker != 0 && st'.worker != 0
    requires Shared(id, st, readings, st', readings')
    ensures id == MaskedId(0) || id == MaskedId(1)
  {
    IdsAreStamped(st, readings);
    IdsAreStamped(st', readings');
    MaskedWorker();
  }

  /** Over whole runs, generators with different workers other than 0 share an id exactly when,
      for one value of bit 35, each has a call behind its last timestamp whose reading has it. */
  lemma WorkersShareExactlyWhen(st: State, readings: seq<int>, st': State, readings': seq<int>)
    requires Good(st) && Readable(readings) && Good(st') && Readable(readings')
    requires st.worker != st'.worker && st.worker != 0 && st'.worker != 0
    ensures (exists id :: Shared(id, st, readings, st', readings'))
       <==> (exists bit: nat :: bit < 2 && BothBehind(bit, st, readings, st', readings'))
  {
    forall bit: nat | bit < 2
      ensures Shared(MaskedId(bit), st, readings, st', readings')
         <==> BothBehind(bit, st, readings, st', readings')
    {
      MaskedExactlyWhen(st, readings, bit);
      MaskedExactlyWhen(st', readings', bit);
    }
    forall id | Shared(id, st, readings, st', readings')
      ensures id == MaskedId(0) || id == MaskedId(1)
    {
      SharedIsMasked(id, st, readings, st', readings');
    }
  }

  lemma MaskedWorker()
    ensures WorkerOf(0) == 0 && WorkerOf(0x1000_0000_0000_0000) == 0
  {
    PackIs(0, 0, 0);
    Unpack(0, 0, 0);
    PackIs(0x8_0000_0000, 0, 0);
    Unpack(0x8_0000_0000, 0, 0);
  }

  predicate Behind(st: State, readings: seq<int>)
    requires readings != []
  {
    readings[0] < st.last
  }

  /** The state whose last id a call returns: the new one, or for a masked id one of worker 0. */
  lemma IssuedBy(st: State, readings: seq<int>) returns (origin: State)
    requires Good(st) && readings != [] && Readable(readings) && Next(st, readings).id.Some?
    ensures origin == if Behind(st, readings) then Bare(readings[0]) else Next(st, readings).state
    ensures Next(st, readings).id.value == LastId(origin) && Good(origin) && InEpoch(origin.last)
  {
    if Behind(st, readings) {
      origin := Bare(readings[0]);
      ClockBackId(st, readings);
      BareId(readings[0]);
    } else {
      origin := Next(st, readings).state;
      NextMovesOn(st, readings);
    }
  }

  lemma LastIdInjective(a: State, b: State)
    requires Good(a) && Good(b) && InEpoch(a.last) && InEpoch(b.last)
    ensures LastId(a) == LastId(b) <==> a == b
  {
    if LastId(a) == LastId(b) {
      PackInjective(a.last - START, a.worker, a.sequence, b.last - START, b.worker, b.sequence);
    }
  }

  /** A call starts the sequence of millisecond t: it reads t and did not issue in it last, or
      the last millisecond is used up and t is the first reading past it. */
  predicate Starts(st: State, readings: seq<int>, t: int)
    requires readings != []
  {
    if readings[0] == st.last then st.sequence == MAX_SEQUENCE && Later(st.last, readings[1..]).0 == Some(t)
    else readings[0] == t
  }

  lemma StartsExactlyWhen(st: State, readings: seq<int>, x: int)
    requires Good(st) && readings != [] && InEpoch(x) && Next(st, readings).id.Some?
    ensures Next(st, readings).state == Bare(x) <==> st.worker == 0 && Starts(st, readings, BareTime(x))
  {
  }

  /** Two calls of generators with different workers return one id exactly when both clocks are
      behind and agree in bit 35, or one is and the other is of worker 0 and starts the
      millisecond that bit stands for. */
  lemma CollideExactlyWhen(st: State, readings: seq<int>, st': State, readings': seq<int>)
    requires Good(st) && readings != [] && Readable(readings) && Next(st, readings).id.Some?
    requires Good(st') && readings' != [] && Readable(readings') && Next(st', readings').id.Some?
    requires st.worker != st'.worker
    ensures Next(st, readings).id == Next(st', readings').id
       <==> if Behind(st, readings) then
              if Behind(st', readings') then Bit(readings[0]) == Bit(readings'[0])
              else st'.worker == 0 && Starts(st', readings', BareTime(readings[0]))
            else Behind(st', readings') && st.worker == 0 && Starts(st, readings, BareTime(readings'[0]))
  {
    var origin := IssuedBy(st, readings);
    var origin' := IssuedBy(st', readings');
    LastIdInjective(origin, origin');
    StaysGood(st, readings);
    StaysGood(st', readings');
    StartsExactlyWhen(st, readings, readings'[0]);
    StartsExactlyWhen(st', readings', readings[0]);
  }

  /** Workers 1 and 2, each with its clock one millisecond back. */
  lemma WorkersCollide()
    ensures Next(State(START + 2, 0, 1), [START + 1]).id == Next(State(START + 2, 0, 2), [START + 1]).id
  {
    var st, st', r := State(START + 2, 0, 1), State(START + 2, 0, 2), [START + 1];
    CollideExactlyWhen(st, r, st', r);
  }

  // ---------- The class ----------

  /** Calls the generator until its clock has no readings left. */
  method Generate(g: Snowflake) returns (ids: seq<int>)
    requires g.Valid()
    modifies g, g.clock
    ensures g.Valid() && ids == Ids(old(g.Current()), old(g.clock.readings))
  {
    ids := [];
    while g.clock.readings != []
      invariant g.Valid()
      invariant Ids(old(g.Current()), old(g.clock.readings)) == ids + Ids(g.Current(), g.clock.readings)
      decreases |g.clock.readings|
    {
      ghost var st, readings := g.Current(), g.clock.readings;
      var id;
      ghost var waited;
      id, waited := g.GetId();
      IdsStep(st, readings);
      NextLeavesEnd(st, readings);
      Regroup(ids, id, Ids(g.Current(), g.clock.readings));
      if id.Some? {
        ids := ids + [id.value];
      }
    }
  }

  lemma Regroup(ids: seq<int>, id: Option<int>, more: seq<int>)
    ensures id.Some? ==> ids + ([id.value] + more) == (ids + [id.value]) + more
  {
  }

  /** The ids a new generator issues while its clock does not go back are increasing. */
  method GenerateDistinct(clock: Clock, ip: string) returns (ids: seq<int>)
    requires Clockwise(clock.readings)
    modifies clock
    ensures Increasing(ids)
  {
    var g := new Snowflake(clock);
    g.InitWorkerId(ip);
    ClockwiseIsNeverBehind(g.Current(), clock.readings);
    NewIncreasingExactlyWhen(g.workerId, clock.readings);
    ids := Generate(g);
  }
}
