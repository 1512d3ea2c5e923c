# Proofs about the stateful core of moxt

The project models five parts of the repository and proves what they are for.

**Skip list** (`SkipList.dfy`, `SkipListRuns.dfy`, `LibSkipList.dfy`, reference in
`SortedMap.dfy`). The order-book index as it lies in memory: nodes with `forward` arrays, a
header with sixteen slots, a footer sentinel, `update[]` filled by the descent, towers spliced
in and out slot by slot. A class invariant ties the sixteen chains to one ghost sequence of
nodes. Over every run, in both directions, the list is a finite sorted map: results, count,
enumeration, and the array a client gets from `top_n`. One proof covers both directions because
the comparison is the predicate `Before`. The footer key of a new list is computed by the
verified parser from the text the original uses.

**Random source** (`Random.dfy`, `Lehmer.dfy`, `LehmerPeriod.dfy`, `Bits.dfy`). The shift and
mask reduction modulo 2^31 - 1, and the claim of the source's comment that the generator cycles
through every seed: 16807 generates the whole multiplicative group. Powers are certified by
repeated squaring and the prime factors of 2^31 - 2 by trial division.

**Rate limiter and ring buffer** (`RingBuf.dfy`, `Deque.dfy`, `Admission.dfy`,
`RateLimiter.dfy`, `RateLimiterThreads.dfy`, `Counting.dfy`). The ring is a bounded deque whose
spare slot is never live. The limiter keeps every window within its limit even though
timestamps are read before the lock is taken and recorded out of order; the argument goes over
residue classes of positions. It is proved for one caller, and for any number of threads
interleaved step by step through the spin lock.

**Fixed-point decimals** (`Decimal.dfy`, `FixedText.dfy`, `FixedPrinter.dfy`,
`FixedParser.dfy`, `FixedCanonical.dfy`, `FixedArith.dfy`). The printer works in a character
array, the parser in 64-bit arithmetic; both are proved against functions on text, and those
against the numbers the texts denote.

**Snowflake ids** (`SnowflakeIds.dfy`, `Snowflake.dfy`, `SnowflakeRuns.dfy`, `WorkerIds.dfy`).
A generator over a clock given as any finite list of readings.

Integers are unbounded; where a 32-bit or 64-bit width matters it is written out (the cast in
the generator, the window start, the parser's range conditions, the 64-bit id word, the worker
accumulator).

## Where the code and its comments or callers disagree

- The parser leaves its locals unassigned for a text without a point or with a point first
  (fixed12.cpp:105-116). They are parameters here, `unsetI` and `unsetF`, and the result is
  independent of them exactly for the other texts (`FixedText.ParseSettledExactlyWhen`). So
  printing and parsing restores a value exactly when it is not a whole number
  (`FixedText.RoundTripExactlyWhen`), and parsing and printing a canonical text exactly when it
  has a point (`FixedCanonical.PrintParseExactlyWhen`).
- A fraction whose thirteenth digit rounds up to 10^12 is cut to twelve characters and read as a
  tenth (fixed12.cpp:119-129). The parser rounds to nearest exactly when this carry does not
  happen (`FixedText.ParserRounds`, with an instance in `FixedText.CarryReadsTenth`).
- The limiter is window safe exactly when the limit is at least one and the clock never reads
  zero nor less than the window (`Admission.SafeExactlyWhen`); a front time of zero counts as
  "no front", and the window start wraps below zero. Under that condition it never admits what
  counting over the full history would refuse; with timestamps out of order it can refuse what
  that would admit, and `Admission.AgreesExactlyWhen` and `Admission.AgreesByRing` say exactly when the two agree.
- The string conversion prints into seventeen characters (fixed12.cpp:25-29); which values have
  room is stated exactly (`FixedPrinter.HasRoomExactlyWhen`).
- When a reading is behind the last timestamp, that timestamp moves back and the sequence
  restarts (snowflake.cpp:79-82), so the clock going on from there can bring an earlier id again;
  one step back is enough (`SnowflakeRuns.RepeatsExactlyWhen`). The id of that call is masked
  with 0x9000000000000000, which leaves only bit 60: it no longer carries the worker, and
  generators with different workers can return the same one (`SnowflakeRuns.CollideExactlyWhen`,
  and over whole runs `SnowflakeRuns.WorkersShareExactlyWhen`).
- The last octet of an IPv4 address does not reach the worker id
  (`WorkerIds.SameNetworkSameWorker`).
- The erase documentation of the ring buffer is met by the shifts of elements; the iterator
  helpers it calls omit an argument their constructor has, so iterators are indices here.

## Model

| member | source | states |
|---|---|---|
| SkipLists.SkipList.constructor | moxt/skiplist/skiplist.hpp:28-31 | A new list satisfies the whole invariant and stores nothing; its header has sixteen levels, its footer the given key, its random source the seed 0x12345678. |
| SkipLists.SkipList.Advance | moxt/skiplist/skiplist.hpp:149-152 | The inner descent loop ends at the last node of its level whose key is strictly before the key searched. |
| SkipLists.SkipList.Search | moxt/skiplist/skiplist.hpp:144-160 | Finds a node exactly for stored keys and for the footer's own key, which finds the footer; the node of a stored key holds the map's value. |
| SkipLists.SkipList.FindUpdate | moxt/skiplist/skiplist.hpp:168-177 | `update[]` holds on every level in use the exact predecessor, and the node after it on level 0 is the first one not before the key. |
| SkipLists.SkipList.GetRandomLevel | moxt/skiplist/skiplist.hpp:327-333 | The height is the one determined by the next seed, between 1 and 15. |
| SkipLists.SpliceIn | moxt/skiplist/skiplist.hpp:199-204 | Turns all sixteen chains of the old node sequence into those of the sequence with the tower at its place, writing only the slots of the predecessors and the new node. |
| SkipLists.BypassAll | moxt/skiplist/skiplist.hpp:303-308 | The unlink loop, with its break at the first level the tower does not reach, takes the node out of every chain. |
| SkipLists.SkipList.Insert | moxt/skiplist/skiplist.hpp:162-212 | Returns true exactly when it inserted or may overwrite; the map gains or changes that one key or stays as it is; a new key draws once, and its tower is as high as the draw but at most one level above the list; the footer's own key only overwrites the footer's value. |
| SkipLists.SkipList.Remove | moxt/skiplist/skiplist.hpp:285-325 | Succeeds exactly for stored keys, hands out the stored value, leaves the caller's value otherwise; the map loses that key; one node more is deleted. |
| SkipLists.SkipList.Begin | moxt/skiplist/skiplist.hpp:52-58 | The first stored node, or null for an empty list. |
| SkipLists.SkipList.Next | moxt/skiplist/skiplist.hpp:62-67 | The successor of a stored node, null after the last and for null. |
| SkipLists.SkipList.Enumerate | moxt/skiplist/skiplist.hpp:52-67 | A walk by begin and next lists exactly the pairs of the map, once each, keys ascending in a forward list and descending in a backward one. |
| SkipLists.SkipList.TopN | moxt/skiplist/skiplist.hpp:235-250 | Appends the first min(n, size) pairs, none for negative n, keys ascending in a forward list and descending in a backward one. |
| SkipLists.SkipList.FreeList | moxt/skiplist/skiplist.hpp:133-142 | Terminates and deletes every node created and not yet deleted, each once. |
| SkipListRuns.ChainsAreFiltered | moxt/skiplist/skiplist.hpp:99-110 | Following slot i from the header meets exactly the level-0 nodes with towers of height at least i, in order, then the footer; header slots above the level hold the footer. |
| SkipListRuns.LevelIsHighest | moxt/skiplist/skiplist.hpp:314-316 | The level is the largest node height and 0 exactly for an empty list. |
| SkipListRuns.NodeConservation | moxt/skiplist/skiplist.hpp:112-142 | Nodes created are those deleted plus `nodeCount` plus two. |
| SkipListRuns.EntriesAreListing | moxt/skiplist/skiplist.hpp:52-67 | What the chain stores is the one listing of the map with keys ascending or descending by direction, and `nodeCount` is the map's size. |
| SkipListRuns.Step | moxt/libskiplist.cpp:24-61 | Each operation answers and changes state as on a finite map with one unlisted value under the footer's own key; search and remove answer the stored value, or zero. |
| SkipListRuns.Run | moxt/skiplist/skiplist.hpp:144-325 | For every run, in either direction, all results and the final state are those of the finite sorted map, and one node is created for each new key. |
| SkipListRuns.RunAndFree | moxt/skiplist/skiplist.hpp:28-31 | The nodes created grow by one for each new key inserted in the run; after the destructor every node ever created has been deleted exactly once. |
| SkipListRuns.LevelsUnobservable | moxt/skiplist/skiplist.hpp:327-333 | Two lists with the same contents, whatever their towers and seeds, answer every run alike and store the same chain after it. |
| LibSkipList.SeqNew | moxt/libskiplist.cpp:4-17 | A new list is empty; its footer key is 999999.999999999999 ascending and 0 descending, as parsed from the texts, so it takes every key below the one or above the other. |
| LibSkipList.SeqRemove | moxt/libskiplist.cpp:29-37 | Returns the removed value of a stored key and zero for an absent one, whatever the local held. |
| LibSkipList.SeqSearch | moxt/libskiplist.cpp:39-46 | Returns the stored value, zero when the key is absent, and the footer's value for its own key. |
| LibSkipList.SeqTopN | moxt/libskiplist.cpp:50-61 | Fills both arrays with the first min(n, size) pairs, keys ascending or descending by direction, and leaves the other elements and the list alone. |
| RandomSource.Random.constructor | moxt/skiplist/random.h:14-21 | The seed kept is 31 bits of the argument, never 0 and never 2^31 - 1. |
| RandomSource.Random.Next | moxt/skiplist/random.h:23-45 | The new seed and the result are 16807 times the old seed modulo 2^31 - 1. |
| RandomSource.Random.Uniform | moxt/skiplist/random.h:49 | The next seed modulo n. |
| RandomSource.EveryLevelOccurs | moxt/skiplist/skiplist.hpp:327-333 | From every seed each height from 1 to 15 is drawn within one period. |
| Lehmer.NextIsStep | moxt/skiplist/random.h:33-44 | The folded sum fits 32 bits and is never 2^31 - 1, so one conditional subtraction gives the exact remainder. |
| Lehmer.StepInjective | moxt/skiplist/random.h:28-36 | Two seeds never have the same successor. |
| LehmerPeriod.FullPeriod | moxt/skiplist/random.h:30-32 | From every seed the generator reaches every number in [1, 2^31 - 2] within 2^31 - 2 calls, as its comment claims. |
| LehmerPeriod.NoEarlyReturn | moxt/skiplist/random.h:30-32 | No seed comes back before 2^31 - 2 calls. |
| RingBuffers.RingWrapIsRemainder | moxt/utils/cringbuf.hpp:145-149 | The comparison and subtraction are the remainder modulo the slot count for every index the ring forms. |
| RingBuffers.ContentsLieInOrder | moxt/utils/cringbuf.hpp:372-383 | Element i lies in slot (offset + i) modulo (capacity + 1), for every i below the size. |
| RingBuffers.NextPosition | moxt/utils/cringbuf.hpp:372-383 | The next write position is (offset + size) modulo (capacity + 1), and the slot there is never live. |
| RingBuffers.RingBuf.constructor | moxt/utils/cringbuf.hpp:448-461 | A new ring is empty and valid for its capacity. |
| RingBuffers.RingBuf.At | moxt/utils/cringbuf.hpp:631-650 | Element i of the contents, or the range error. |
| RingBuffers.RingBuf.EmplaceBack | moxt/utils/cringbuf.hpp:788-803 | Appends to the bounded deque, dropping the front when full; the slot constructed first holds no element. |
| RingBuffers.RingBuf.EmplaceFront | moxt/utils/cringbuf.hpp:751-767 | Prepends to the bounded deque, dropping the back when full. |
| RingBuffers.RingBuf.PopFront | moxt/utils/cringbuf.hpp:809-816 | Drops the front of the contents and destroys exactly its slot; nothing when empty. |
| RingBuffers.RingBuf.PopBack | moxt/utils/cringbuf.hpp:821-828 | Drops the back of the contents and destroys exactly its slot; nothing when empty. |
| RingBuffers.RingBuf.Clear | moxt/utils/cringbuf.hpp:835-841 | Leaves no contents and no constructed slot. |
| RingBuffers.RingBuf.Erase | moxt/utils/cringbuf.hpp:849-881 | Contents s become s[..from] + s[to..], whichever side is shifted, and the index of the element after the range is returned. |
| RingBuffers.RingBuf.ShiftTail | moxt/utils/cringbuf.hpp:860-864 | The elements behind the range move down over it and none is overwritten before it was moved. |
| RingBuffers.RingBuf.ShiftHead | moxt/utils/cringbuf.hpp:869-873 | The elements before the range move up over it and none is overwritten before it was moved. |
| RingBuffers.Run | moxt/utils/cringbuf.hpp:751-841 | Over any mix of pushes, pops and clears the contents are those of the bounded deque. |
| Deque.WithinCapacity | moxt/utils/cringbuf.hpp:751-841 | No run exceeds the capacity. |
| Deque.PushBackKeepsLast | moxt/utils/cringbuf.hpp:788-803 | With pushes at the back only, the buffer holds the end of everything pushed. |
| Deque.PushFrontKeepsFirst | moxt/utils/cringbuf.hpp:751-767 | With pushes at the front only, the start of everything put in front. |
| RateLimiters.CRateLimiter.constructor | moxt/utils/c_rate_limiter.hpp:24-26 | A new limiter has admitted nothing. |
| RateLimiters.CRateLimiter.AllowAndRecordRequest | moxt/utils/c_rate_limiter.hpp:31-64 | In any order of times, admits exactly when no limit is to be kept, or fewer than maxCount times are admitted so far, or the one admitted maxCount places ago is zero or lies before the window, which wraps around zero for a clock below its length; records the time exactly then; the ring always holds the last maxCount. |
| RateLimiters.Requests | moxt/utils/c_rate_limiter.hpp:31-64 | A run of requests admits exactly what the rule admits of their times. |
| Admission.SafeExactlyWhen | moxt/utils/c_rate_limiter.hpp:31-64 | For times in any order, every closed window holds at most maxCount admitted times exactly when maxCount >= 1 and the clock never reads 0 nor less than the window. |
| Admission.GappedIsSafe | moxt/utils/c_rate_limiter.hpp:50-56 | When each admitted time is more than a window after the one maxCount places before, no window holds more than maxCount, though times are not sorted. |
| Admission.AdmittedIsNaive | moxt/utils/c_rate_limiter.hpp:50-56 | Out of order too, only requests with fewer than maxCount admitted times in the window before them are admitted. |
| Admission.InOrderIsNaive | moxt/utils/c_rate_limiter.hpp:50-56 | In order, exactly those. |
| Admission.RunIsNaive | moxt/utils/c_rate_limiter.hpp:31-64 | Over a run in order the limiter admits what counting over the full history admits. |
| Admission.AcceptsExactlyWhen | moxt/utils/c_rate_limiter.hpp:40-56 | The rule over the ring in words of the full history, for every history, time, limit and window. |
| Admission.AgreesExactlyWhen | moxt/utils/c_rate_limiter.hpp:32-56 | In any order, accepting by the ring and by counting over the full history are one exactly when the ring accepts, or every residue class of recorded positions modulo maxCount has a time in the window. |
| Admission.AgreesByRing | moxt/utils/c_rate_limiter.hpp:32-56 | When no time in the ring is later than the request, exactly when the ring is not full, or its front is before the window, or all of it is in the window. |
| Admission.RunIsNaiveExactlyWhen | moxt/utils/c_rate_limiter.hpp:31-64 | Carries that agreement from one request to a run: both have admitted the same at every point exactly when they agree at every request along the limiter's own run. |
| Admission.OutOfOrderRefusesMore | moxt/utils/c_rate_limiter.hpp:32-36 | The instance with two recorded times, the later first and the earlier before the window: refused, though only one time lies in the window. |
| RateLimiterThreads.ExclusiveStep | moxt/utils/spinlock.hpp:52-65 | Every step keeps at most one thread between lock and unlock and the flag up exactly then. |
| RateLimiterThreads.AtomicStep | moxt/utils/c_rate_limiter.hpp:36-58 | Every step keeps the ring and the decisions equal to those of whole requests made one after the other. |
| RateLimiterThreads.EveryRun | moxt/utils/c_rate_limiter.hpp:31-64 | Both hold in every state any number of threads can reach. |
| RateLimiterThreads.RecordedIsAdmitted | moxt/utils/c_rate_limiter.hpp:31-64 | The recorded times are what one caller would have admitted in the order of the decisions. |
| RateLimiterThreads.ReadingsAreUsed | moxt/utils/c_rate_limiter.hpp:32-58 | In every reachable state each thread with a call under way works with the value it read last. |
| RateLimiterThreads.LatestReadIsLast | moxt/utils/c_rate_limiter.hpp:32 | The value of a thread's read after which it did not read again. |
| RateLimiterThreads.LogIsOfCalls | moxt/utils/c_rate_limiter.hpp:31-64 | The log holds one decision for each returned call, in the order of the unlocks, about the value its thread read, and one for the call about to return. |
| RateLimiterThreads.DecisionsFollow | moxt/utils/c_rate_limiter.hpp:40-56 | Every decision follows from the values read and admitted before it, as for one caller. |
| RateLimiterThreads.ThreadsAreSafe | moxt/utils/c_rate_limiter.hpp:31-64 | For any number of threads and any interleaving, clock reads before the lock included: of the values the threads read, no window holds more than maxCount whose calls were allowed. |
| FixedText.ParserRounds | moxt/fixed12.cpp:104-138 | Well-formed text is read exactly up to twelve fraction digits, and to the nearest 10^-12, halves away from zero, exactly when rounding does not carry; the value then read is given; the locals never matter. |
| FixedText.CarryReadsTenth | moxt/fixed12.cpp:119-129 | The instance of a carry: 0.9999999999995 is read as 0.1. |
| FixedText.FractionDenotes | moxt/fixed12.cpp:165-196 | The printed fraction has one to twelve digits, no zero at its end, and denotes f parts of 10^12. |
| FixedText.ParsePrint | moxt/fixed12.cpp:104-202 | Parsing what was printed gives the value, off by the unassigned local exactly for whole numbers. |
| FixedText.RoundTripExactlyWhen | moxt/fixed12.cpp:104-202 | Printing then parsing restores a value, whatever the locals held, exactly when it is not whole. |
| FixedText.ParseSettledExactlyWhen | moxt/fixed12.cpp:104-138 | For every non-empty text the result is independent of the locals exactly when the text without its sign has a point behind at least one character. |
| FixedText.ParseWithoutPoint | moxt/fixed12.cpp:111-112 | Digits without a point give the whole number plus what the fraction's local held. |
| FixedText.ParsePointFirst | moxt/fixed12.cpp:114-135 | A point first gives the fraction plus what the whole part's local held. |
| FixedText.PrintInjective | moxt/fixed12.cpp:140-202 | Different values print differently. |
| FixedCanonical.PrintIsCanonical | moxt/fixed12.cpp:140-202 | Printed text has no redundant zero in front, no zero at the end of the fraction, no empty fraction and no negative zero. |
| FixedCanonical.PrintParseExactlyWhen | moxt/fixed12.cpp:104-202 | Parsing a canonical text and printing the value gives the text back, whatever the locals held, exactly when the text has a point. |
| FixedCanonical.PrintParseWith | moxt/fixed12.cpp:104-202 | For given contents of the locals, exactly when it has a point or the fraction's local held zero. |
| FixedCanonical.PrintedExactlyCanonical | moxt/fixed12.cpp:140-202 | The canonical texts are exactly those some value prints as. |
| FixedPrinter.ToText | moxt/fixed12.cpp:140-202 | Leaves the text, its terminator and nothing else in the caller's buffer and returns the text's length. |
| FixedPrinter.TwentyTwoSuffice | moxt/fixed12.cpp:140-202 | Twenty-two characters hold any printed value and its terminator. |
| FixedPrinter.StringOf | moxt/fixed12.cpp:25-29 | The string conversion returns the printed text of every value whose text and terminator have room in its seventeen characters. |
| FixedPrinter.HasRoomExactlyWhen | moxt/fixed12.cpp:25-29 | They have room exactly when the fraction is divisible by 10^k, k being the characters of sign and whole part beyond three. |
| FixedPrinter.NoRoom | moxt/fixed12.cpp:25-29 | The instance 1000.000000000001, whose text alone takes seventeen characters. |
| FixedParser.StrToI | moxt/utils/cast.hpp:6-20 | The loop computes the sum of its characters' distances from '0' by powers of ten, without overflow when no step leaves 64 bits. |
| FixedParser.ReadFraction | moxt/fixed12.cpp:118-135 | The fraction padded, or read, rounded and cut, in parts of 10^12. |
| FixedParser.NewStringView | moxt/fixed12.cpp:104-138 | The parser computes the value of the text whenever no step overflows. |
| FixedParser.TextInRange | moxt/fixed12.cpp:104-138 | On well-formed text no step overflows exactly when the magnitude is a 64-bit value. |
| FixedParser.PrintedInRange | moxt/fixed12.cpp:104-202 | Printed values with a fraction are always read in range. |
| FixedArith.MulExactly | moxt/fixed12.cpp:204-208 | A product is the exact one truncated toward zero, exactly when that is a 64-bit value. |
| FixedArith.TrueDivExactly | moxt/fixed12.cpp:210-214 | A quotient is the exact one truncated toward zero, exactly when the divisor is not zero and it is a 64-bit value. |
| FixedArith.PartsAreUnique | moxt/fixed12.cpp:91-97 | Whole part and fraction are the one split that leans to the value's side with a fraction below one. |
| FixedArith.MulThenDiv | moxt/fixed12.cpp:204-214 | Multiplying by b and dividing back always fits, keeps the sign, and loses exactly the product's remainder over \|b\|, rounded up. |
| FixedArith.MulThenDivBounds | moxt/fixed12.cpp:204-214 | So it never exceeds the value, is exact exactly when the product is not truncated, loses at most one unit for \|b\| >= 10^12 and less than 10^12 / \|b\| + 1 always. |
| FixedArith.DivThenMul | moxt/fixed12.cpp:204-214 | Dividing by b and multiplying back always fits, keeps the sign, and loses exactly the quotient's remainder over 10^12, rounded up. |
| FixedArith.DivThenMulBounds | moxt/fixed12.cpp:204-214 | So it is exact exactly when b divides, and loses less than \|b\| / 10^12 + 1. |
| FixedArith.MulMonotone | moxt/fixed12.cpp:204-208 | Multiplying by a number not below zero keeps order. |
| FixedArith.MulDistributes | moxt/fixed12.hpp:71-84 | Products of a sum and sums of products differ by at most one unit. |
| SnowflakeIds.PackIs | moxt/utils/snowflake.cpp:83-84 | Within the layout's ranges the shifts and unions put the three parts side by side without overlap or sign. |
| SnowflakeIds.Unpack | moxt/utils/snowflake.hpp:36-50 | Timestamp, worker and sequence number can all be read back from an id. |
| SnowflakeIds.PackOrder | moxt/utils/snowflake.hpp:30-50 | With one worker, ids are ordered by timestamp and then by sequence number. |
| Snowflakes.Snowflake.constructor | moxt/utils/snowflake.hpp:36-38 | A generator starts before every timestamp, at sequence number 0 and worker 0. |
| Snowflakes.Snowflake.NextTimestamp | moxt/utils/snowflake.cpp:94-100 | Returns the first reading past the last timestamp and takes no reading behind it; with no such reading, none. |
| Snowflakes.Snowflake.GetIdByTs | moxt/utils/snowflake.cpp:70-85 | A new millisecond restarts the sequence, the same one counts on, and a used-up one goes to the first reading past it; the id is milliseconds since 2024, worker and sequence number by place value. |
| Snowflakes.Snowflake.GetId | moxt/utils/snowflake.cpp:56-66 | The same for the first reading; behind the last timestamp the id is 2^60 or 0 by bit 35 of the reading, and the timestamp moves back all the same. |
| Snowflakes.Snowflake.InitWorkerId | moxt/utils/snowflake.cpp:48-54 | Sets the worker to a number the layout has room for. |
| SnowflakeRuns.NewIncreasingExactlyWhen | moxt/utils/snowflake.cpp:56-100 | The ids of a new generator are strictly increasing over a whole run exactly when no call's first reading is behind the last timestamp; readings taken while waiting may go back. |
| SnowflakeRuns.IncreasingExactlyWhen | moxt/utils/snowflake.cpp:56-100 | The same from any state that has issued its last id, that id counted in. |
| SnowflakeRuns.ClockwiseIsNeverBehind | moxt/utils/snowflake.cpp:56-100 | With a clock that never goes back no call is behind, waits included. |
| SnowflakeRuns.IdsAreStamped | moxt/utils/snowflake.cpp:56-100 | Whatever the clock reads, every id carries the generator's worker and a timestamp read, or, only if some call was behind, is 0 or 2^60. |
| SnowflakeRuns.WorkersApart | moxt/utils/snowflake.cpp:56-84 | Over any two runs with different workers, no id is shared while neither generator falls behind its last timestamp. |
| SnowflakeRuns.WorkersShareExactlyWhen | moxt/utils/snowflake.cpp:60-84 | Over any two runs with different workers other than 0, some id is shared exactly when, for one value of bit 35, each run has a call behind its last timestamp whose reading has it. |
| SnowflakeRuns.CollideExactlyWhen | moxt/utils/snowflake.cpp:60-84 | Two calls with different workers return one id exactly when both clocks are behind and agree in bit 35, or one is behind and the other call is of worker 0 and starts the millisecond that bit stands for. |
| SnowflakeRuns.WorkersCollide | moxt/utils/snowflake.cpp:60-63 | The instance of workers 1 and 2, each with its clock one millisecond back. |
| SnowflakeRuns.ClockBackId | moxt/utils/snowflake.cpp:60-63 | Behind it the id is 0 or 2^60, by bit 35 of the reading alone. |
| SnowflakeRuns.RepeatsExactlyWhen | moxt/utils/snowflake.cpp:59-82 | The last id can never come again, however the clock goes on from its next reading, exactly when that reading is not behind the last timestamp. |
| SnowflakeRuns.StepBackRepeats | moxt/utils/snowflake.cpp:59-82 | The instance of a new generator whose clock steps back once: its first and third ids are equal. |
| SnowflakeRuns.Generate | moxt/utils/snowflake.cpp:56-66 | Calls of the generator until the readings run out return the ids of the run. |
| SnowflakeRuns.GenerateDistinct | moxt/utils/snowflake.cpp:48-66 | The ids a new generator issues while its clock does not go back are strictly increasing. |
| WorkerIds.IpToWorkerId | moxt/utils/snowflake.cpp:31-46 | The first three octets' digits read as one number modulo 1024; the 32-bit wrap in between does not show. |
| WorkerIds.SameNetworkSameWorker | moxt/utils/snowflake.cpp:35-43 | All addresses that share three octets have the same worker id. |
| WorkerIds.FewerDots | moxt/utils/snowflake.cpp:35-43 | Texts with fewer than three dots are read to their end. |

## Left out

- SkipLists.SkipList.Remove: keys strictly before the footer's only. With the footer's own key
  the original reads the footer's slot, which is never set, and frees the footer; what happens
  then is undefined.
- LibSkipList.SeqRemove: the same, and so for removals in SkipListRuns.Step.
- SkipListRuns.Run: every other operation may name the footer's own key; keys behind it are
  excluded.
- SkipListRuns.RunAndFree: as SkipListRuns.Run.
- SkipLists.SkipList.Search: keys behind the footer's, for which the original follows the
  footer's unset slot, are excluded here and in Insert.
- SkipLists.SkipList.constructor: the footer's slot, which the original leaves unset, is null.
- SkipLists.SkipList.Delete: freeing is recorded in a ghost sequence; that freed memory is never
  read again is not modelled.
- Node fields `key`, `nodeLevel` and `forward` are constants set at creation; the original never
  changes them afterwards. Keys and values are unbounded, as they are only compared and copied.
- The second `topN` overload, the dump helpers, and `OneIn` and `Skewed` of the random source:
  easy members or output.
- RingBuffers.RingBuf.Erase: iterators are logical indices, so the iterator class is not
  modelled; neither are allocators, copies and swaps of the ring.
- RateLimiters.CRateLimiter.AllowAndRecordRequest: takes the clock reading as a parameter and
  models what happens between lock and unlock; the lock itself is in RateLimiterThreads.
- RateLimiterThreads.ThreadsAreSafe: atomic steps are sequentially consistent; the weaker memory
  orders of the original and whether a spinning thread ever gets the lock are not modelled.
- FixedPrinter.ToText: the smallest 64-bit value, whose negation overflows, is excluded; the
  buffer must have room for the text and its terminator.
- FixedParser.NewStringView: overflowing texts and the empty text are excluded; what the original
  does then is undefined. Characters count by their distance from '0', whatever they are.
- FixedArith.Mul: a result that does not fit 64 bits is None, as is division by zero in TrueDiv;
  what the big-integer library does then is not part of this model.
- The floating-point conversions and roundings of fixed12.cpp rest on double arithmetic.
- Snowflakes.Snowflake.GetId: when the finite list of readings ends during a wait the result is
  None, where the original goes on waiting. The mutex is not modelled; calls come one at a time.
- Snowflakes.Snowflake.InitWorkerId: the address lookup is a parameter; the worker, one per
  process in the original, is a field.
- SnowflakeRuns.NewIncreasingExactlyWhen: readings must lie within 2^38 milliseconds of the
  epoch, the room the layout has.
- Networking, JSON, Redis, logging, indicators, thread wrappers and the other queues of the
  repository are calls into libraries that are not part of this model.
