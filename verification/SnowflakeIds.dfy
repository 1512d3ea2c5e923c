// The layout of snowflake ids (snowflake.hpp:29-53, snowflake.cpp:83-84): how timestamp,
// worker and sequence are packed into 64 bits, and what can be read back.
module SnowflakeIds {
  import opened Bits

  const START: int := 1_704_038_400_000
  const TIMESTAMP_BITS: nat := 38
  const WORKER_BITS: nat := 13
  const SEQUENCE_BITS: nat := 12
  const TIMESTAMP_LEFT: nat := SEQUENCE_BITS + WORKER_BITS
  const FIRST_BIT_REVERT: nat := 0x9000_0000_0000_0000
  const MAX_WORKER: nat := 8191
  const MAX_SEQUENCE: nat := 4095

  /** A signed number as a 64-bit word, and back. */
  function AsWord(x: int): nat
  {
    if 0 <= x < 0x1_0000_0000_0000_0000 then x else x % 0x1_0000_0000_0000_0000
  }

  function AsSigned(w: nat): int { if w < 0x8000_0000_0000_0000 then w else w - 0x1_0000_0000_0000_0000 }

  /** Three numbers put side by side in a word of n bits. */
  function Join(t: nat, w: nat, s: nat, kw: nat, ks: nat, n: nat): nat
  {
    BitOr(BitOr(Low(Shl(t, ks + kw), n), Shl(w, ks)), s)
  }

  /** The id made of a timestamp relative to START, a worker and a sequence number. */
  function Pack(t: int, worker: nat, sequence: nat): int
  {
    AsSigned(Join(AsWord(t), worker, sequence, WORKER_BITS, SEQUENCE_BITS, 64))
  }

  function TimestampOf(id: nat): nat { Shr(id, TIMESTAMP_LEFT) }

  function WorkerOf(id: nat): nat { BitAnd(Shr(id, SEQUENCE_BITS), MAX_WORKER) }

  function SequenceOf(id: nat): nat { BitAnd(id, MAX_SEQUENCE) }

  /** The parts an id has room for. */
  predicate Fits(t: int, worker: nat, sequence: nat)
  {
    0 <= t < 0x40_0000_0000 && worker <= MAX_WORKER && sequence <= MAX_SEQUENCE
  }

  // ---------- Shifts and sums ----------

  lemma {:induction false} Pow2Sum(j: nat, k: nat)
    ensures Pow2(j + k) == Pow2(j) * Pow2(k)
  {
    if j > 0 {
      Pow2Sum(j - 1, k);
      Twice(Pow2(j - 1), Pow2(k));
    }
  }

  lemma {:induction false} ShlShl(x: nat, j: nat, k: nat)
    ensures Shl(Shl(x, j), k) == Shl(x, j + k)
  {
    if k > 0 {
      ShlShl(x, j, k - 1);
    }
  }

  lemma {:induction false} ShrShr(x: nat, j: nat, k: nat)
    ensures Shr(Shr(x, j), k) == Shr(x, j + k)
  {
    if j > 0 {
      ShrShr(x / 2, j - 1, k);
    }
  }

  lemma {:induction false} ShlSum(x: nat, y: nat, k: nat)
    ensures Shl(x + y, k) == Shl(x, k) + Shl(y, k)
  {
    if k > 0 {
      ShlSum(x, y, k - 1);
    }
  }

  lemma {:induction false} ShlBelow(x: nat, j: nat, k: nat)
    requires x < Pow2(j)
    ensures Shl(x, k) < Pow2(j + k)
  {
    if k > 0 {
      ShlBelow(x, j, k - 1);
    }
  }

  lemma {:induction false} LowIsAll(x: nat, k: nat)
    requires x < Pow2(k)
    ensures Low(x, k) == x
  {
    if k > 0 {
      LowIsAll(x / 2, k - 1);
    }
  }

  lemma {:induction false} ShrOfSmall(x: nat, j: nat, k: nat)
    requires x < Pow2(j + k)
    ensures Shr(x, j) < Pow2(k)
  {
    if j > 0 {
      ShrOfSmall(x / 2, j - 1, k);
    }
  }

  /** The order of x and then of y decides the order of Shl(x, k) + y. */
  lemma {:induction false} ShlThenAddOrder(x: nat, y: nat, x': nat, y': nat, k: nat)
    requires y < Pow2(k) && y' < Pow2(k) && (x < x' || (x == x' && y < y'))
    ensures Shl(x, k) + y < Shl(x', k) + y'
  {
    if k > 0 {
      if x < x' || y / 2 < y' / 2 {
        ShlThenAddOrder(x, y / 2, x', y' / 2, k - 1);
      }
    }
  }

  lemma {:induction false} AndIsSmaller(x: nat, y: nat)
    ensures BitAnd(x, y) <= y
  {
    if x != 0 && y != 0 {
      AndIsSmaller(x / 2, y / 2);
    }
  }

  // ---------- Packing ----------

  lemma JoinTwo(t: nat, w: nat, kw: nat, ks: nat)
    requires w < Pow2(kw)
    ensures BitOr(Shl(t, ks + kw), Shl(w, ks)) == Shl(Shl(t, kw) + w, ks)
  {
    ShlBelow(w, kw, ks);
    assert kw + ks == ks + kw;
    OrDisjoint(t, Shl(w, ks), ks + kw);
    ShlShl(t, kw, ks);
    ShlSum(Shl(t, kw), w, ks);
  }

  /** A word with one bit to spare holds the three numbers one behind the other. */
  lemma JoinIs(t: nat, w: nat, s: nat, kw: nat, ks: nat, kt: nat, n: nat)
    requires t < Pow2(kt) && w < Pow2(kw) && s < Pow2(ks) && ks + kw + kt + 1 == n
    ensures Join(t, w, s, kw, ks, n) == Shl(Shl(t, kw) + w, ks) + s < Pow2(n - 1)
  {
    NoOverflow(t, w, s, kw, ks, kt, n);
    JoinTwo(t, w, kw, ks);
    OrDisjoint(Shl(t, kw) + w, s, ks);
  }

  lemma Widths()
    ensures Pow2(SEQUENCE_BITS) == MAX_SEQUENCE + 1 && Pow2(WORKER_BITS) == MAX_WORKER + 1
    ensures Pow2(63) == 0x8000_0000_0000_0000 && Pow2(64) == 0x1_0000_0000_0000_0000
    ensures Pow2(TIMESTAMP_BITS) == 0x40_0000_0000
  {
    assert Pow2(12) == 4096 && Pow2(13) == 8192;
    PowersOfTwo();
  }

  lemma PowersOfTwo()
    ensures Pow2(35) == 0x8_0000_0000 && Pow2(38) == 0x40_0000_0000 && Pow2(60) == 0x1000_0000_0000_0000
    ensures Pow2(63) == 0x8000_0000_0000_0000 && Pow2(64) == 0x1_0000_0000_0000_0000
  {
    assert Pow2(8) == 0x100;
    assert Pow2(16) == 0x1_0000;
    assert Pow2(24) == 0x100_0000;
    assert Pow2(32) == 0x1_0000_0000;
    assert Pow2(35) == 0x8_0000_0000;
    assert Pow2(38) == 0x40_0000_0000;
    assert Pow2(46) == 0x4000_0000_0000;
    assert Pow2(54) == 0x40_0000_0000_0000;
    assert Pow2(60) == 0x1000_0000_0000_0000;
  }

  lemma PackIsShifted(t: int, worker: nat, sequence: nat)
    requires Fits(t, worker, sequence)
    ensures Pack(t, worker, sequence) == Shl(Shl(t, WORKER_BITS) + worker, SEQUENCE_BITS) + sequence
    ensures 0 <= Pack(t, worker, sequence) < Pow2(63)
  {
    Widths();
    JoinIs(t, worker, sequence, WORKER_BITS, SEQUENCE_BITS, TIMESTAMP_BITS, 64);
  }

  /** A packed id is its three parts one behind the other, and not negative. */
  lemma PackIs(t: int, worker: nat, sequence: nat)
    requires Fits(t, worker, sequence)
    ensures Pack(t, worker, sequence) == (t * 8192 + worker) * 4096 + sequence
    ensures 0 <= Pack(t, worker, sequence) < 0x8000_0000_0000_0000
  {
    Widths();
    PackIsShifted(t, worker, sequence);
    ShlIsProduct(t, WORKER_BITS);
    ShlIsProduct(Shl(t, WORKER_BITS) + worker, SEQUENCE_BITS);
  }

  /** Nothing is shifted out of a word wide enough, whose top bit stays clear. */
  lemma NoOverflow(t: nat, w: nat, s: nat, kw: nat, ks: nat, kt: nat, n: nat)
    requires t < Pow2(kt) && w < Pow2(kw) && s < Pow2(ks) && ks + kw + kt + 1 == n
    ensures Low(Shl(t, ks + kw), n) == Shl(t, ks + kw)
    ensures Shl(Shl(t, kw) + w, ks) + s < Pow2(n - 1)
  {
    ShlBelow(t, kt, ks + kw);
    assert Pow2(n) == 2 * Pow2(n - 1) && kt + (ks + kw) == n - 1;
    LowIsAll(Shl(t, ks + kw), n);
    Top(t, w, kw, kt);
    Top(Shl(t, kw) + w, s, ks, kw + kt);
    assert ks + (kw + kt) == n - 1;
  }

  lemma Top(x: nat, y: nat, k: nat, n: nat)
    requires x < Pow2(n) && y < Pow2(k)
    ensures Shl(x, k) + y < Pow2(k + n)
  {
    ShlThenAddOrder(x, y, Pow2(n), 0, k);
    ShlIsProduct(Pow2(n), k);
    Pow2Sum(k, n);
  }

  lemma Parts(t: nat, w: nat, s: nat, kw: nat, ks: nat, id: nat)
    requires w < Pow2(kw) && s < Pow2(ks) && id == Shl(Shl(t, kw) + w, ks) + s
    ensures Shr(id, ks + kw) == t
    ensures BitAnd(Shr(id, ks), Pow2(kw) - 1) == w && BitAnd(id, Pow2(ks) - 1) == s
  {
    ShlThenAdd(Shl(t, kw) + w, s, ks);
    ShlThenAdd(t, w, kw);
    ShrShr(id, ks, kw);
    AndMask(Shl(t, kw) + w, kw);
    AndMask(id, ks);
  }

  /** Packing loses nothing. */
  lemma Unpack(t: int, worker: nat, sequence: nat)
    requires Fits(t, worker, sequence)
    ensures var id := Pack(t, worker, sequence);
            && id >= 0 && TimestampOf(id) == t && WorkerOf(id) == worker && SequenceOf(id) == sequence
  {
    Widths();
    PackIsShifted(t, worker, sequence);
    Parts(t, worker, sequence, WORKER_BITS, SEQUENCE_BITS, Pack(t, worker, sequence));
  }

  /** Different parts, different ids. */
  lemma PackInjective(t: int, w: nat, s: nat, t': int, w': nat, s': nat)
    requires Fits(t, w, s) && Fits(t', w', s') && Pack(t, w, s) == Pack(t', w', s')
    ensures t == t' && w == w' && s == s'
  {
    Unpack(t, w, s);
    Unpack(t', w', s');
  }

  /** With one worker, ids are ordered by timestamp and then by sequence number. */
  lemma PackOrder(t: int, t': int, worker: nat, s: nat, s': nat)
    requires Fits(t, worker, s) && Fits(t', worker, s')
    ensures Pack(t, worker, s) < Pack(t', worker, s') <==> t < t' || (t == t' && s < s')
  {
    PackIs(t, worker, s);
    PackIs(t', worker, s');
  }

  // ---------- The mask used when the clock goes back ----------

  function Masked(id: int): int { AsSigned(BitAnd(FIRST_BIT_REVERT, AsWord(id))) }

  /** Only bit 60 of an id survives the mask. */
  lemma MaskLeavesOneBit(id: nat)
    requires id < Pow2(63)
    ensures Masked(id) == (if Shr(id, 60) % 2 == 1 then 0x1000_0000_0000_0000 else 0) && Masked(id) <= id
  {
    Widths();
    MaskIsShifted();
    TopBits(FIRST_BIT_REVERT, id, 60);
    MaskedIs(id, Shl(Shr(id, 60) % 2, 60));
  }

  lemma TopBits(mask: nat, id: nat, k: nat)
    requires mask == Shl(9, k) && id < Pow2(k + 3)
    ensures BitAnd(mask, id) == Shl(Shr(id, k) % 2, k) <= id
  {
    AndHigh(9, id, k);
    ShrOfSmall(id, k, 3);
    assert Pow2(3) == 8;
    NineAnd(Shr(id, k));
    AndIsSmaller(mask, id);
  }

  /** For an id made of its parts that is bit 35 of the timestamp. */
  lemma MaskedPack(t: nat, worker: nat, id: int)
    requires Fits(t, worker, 0) && id == Pack(t, worker, 0)
    ensures Masked(id) == if t / 0x8_0000_0000 % 2 == 1 then 0x1000_0000_0000_0000 else 0
    ensures Masked(id) <= id
  {
    PackIs(t, worker, 0);
    Unpack(t, worker, 0);
    PowersOfTwo();
    MaskLeavesOneBit(id);
    ShrShr(id, TIMESTAMP_LEFT, 35);
    ShiftedTimestamp(t);
  }

  lemma ShiftedTimestamp(t: nat)
    ensures Shr(t, 35) == t / 0x8_0000_0000
  {
    ShrIsQuotient(t, 35);
    PowersOfTwo();
  }

  lemma MaskedIs(id: nat, and: nat)
    requires id < 0x8000_0000_0000_0000 && BitAnd(FIRST_BIT_REVERT, id) == and <= id
    ensures Masked(id) == and
  {
  }

  lemma MaskIsShifted()
    ensures FIRST_BIT_REVERT == Shl(9, 60) && Shl(1, 60) == 0x1000_0000_0000_0000 && Shl(0, 60) == 0
  {
    ShlIsProduct(9, 60);
    ShlIsProduct(1, 60);
    ShlIsProduct(0, 60);
    PowersOfTwo();
  }

  lemma NineAnd(x: nat)
    requires x < 8
    ensures BitAnd(9, x) == x % 2
  {
    if x != 0 {
      assert BitAnd(4, x / 2) == 0 by {
        assert BitAnd(2, x / 4) == 0 by {
          assert BitAnd(1, x / 8) == 0;
        }
      }
    }
  }
}
