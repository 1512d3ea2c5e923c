// The ring buffer of cringbuf.hpp: a backing array of capacity + 1 slots, a start, a next
// write position and a size. Slots are constructed and destroyed one at a time.
module RingBuffers {
  import opened Deque
  import opened Options

  /** Wraps a physical position that may have run past the end of the backing array once. */
  function RingWrap(capacity: nat, i: nat): nat
    requires i <= 2 * capacity + 1
  {
    if i <= capacity then i else i - capacity - 1
  }

  lemma RingWrapIsRemainder(capacity: nat, i: nat)
    requires i <= 2 * capacity + 1
    ensures RingWrap(capacity, i) == i % (capacity + 1)
  {
    if i > capacity {
      assert i == (capacity + 1) + (i - capacity - 1);
    }
  }

  /** The logical index a physical slot has when the ring starts at offset. */
  function Logical(capacity: nat, offset: nat, slot: nat): nat
    requires offset <= capacity && slot <= capacity
  {
    if slot >= offset then slot - offset else slot + capacity + 1 - offset
  }

  lemma LogicalInverse(capacity: nat, offset: nat, i: nat)
    requires offset <= capacity && i <= capacity
    ensures RingWrap(capacity, offset + i) <= capacity
    ensures Logical(capacity, offset, RingWrap(capacity, offset + i)) == i
  {
  }

  /** The elements of a ring of the given start and size, in logical order. */
  function View<T>(capacity: nat, d: seq<T>, offset: nat, size: nat): (s: seq<T>)
    requires |d| == capacity + 1 && offset <= capacity && size <= capacity
    ensures |s| == size
    ensures forall i | 0 <= i < size :: s[i] == d[RingWrap(capacity, offset + i)]
  {
    seq(size, i requires 0 <= i < size => d[RingWrap(capacity, offset + i)])
  }

  function Decrement(capacity: nat, index: nat): nat { if index > 0 then index - 1 else capacity }

  function Increment(capacity: nat, index: nat): nat { if index < capacity then index + 1 else 0 }

  lemma ViewWithoutFront<T>(capacity: nat, d: seq<T>, offset: nat, size: nat)
    requires |d| == capacity + 1 && offset <= capacity && 0 < size <= capacity
    ensures View(capacity, d, Increment(capacity, offset), size - 1) == View(capacity, d, offset, size)[1..]
  {
    var s, t := View(capacity, d, offset, size), View(capacity, d, Increment(capacity, offset), size - 1);
    forall i | 0 <= i < size - 1
      ensures t[i] == s[1..][i]
    {
      assert RingWrap(capacity, Increment(capacity, offset) + i) == RingWrap(capacity, offset + (i + 1));
    }
  }

  lemma ViewWithFront<T>(capacity: nat, d: seq<T>, offset: nat, size: nat)
    requires |d| == capacity + 1 && offset <= capacity && size < capacity
    ensures View(capacity, d, Decrement(capacity, offset), size + 1)
         == [d[Decrement(capacity, offset)]] + View(capacity, d, offset, size)
  {
    var s, t := View(capacity, d, offset, size), View(capacity, d, Decrement(capacity, offset), size + 1);
    assert RingWrap(capacity, Decrement(capacity, offset)) == Decrement(capacity, offset);
    forall i | 0 < i <= size
      ensures t[i] == s[i - 1]
    {
      assert RingWrap(capacity, Decrement(capacity, offset) + i) == RingWrap(capacity, offset + (i - 1));
    }
  }

  lemma ViewResize<T>(capacity: nat, d: seq<T>, offset: nat, size: nat)
    requires |d| == capacity + 1 && offset <= capacity && size < capacity
    ensures View(capacity, d, offset, size + 1)
         == View(capacity, d, offset, size) + [d[RingWrap(capacity, offset + size)]]
  {
  }

  /** Writing a slot outside the live ones does not show. */
  lemma ViewHidesWrite<T>(capacity: nat, d: seq<T>, offset: nat, size: nat, slot: nat, x: T)
    requires |d| == capacity + 1 && offset <= capacity && size <= capacity && slot <= capacity
    requires Logical(capacity, offset, slot) >= size
    ensures View(capacity, d[slot := x], offset, size) == View(capacity, d, offset, size)
  {
    var v, w := View(capacity, d[slot := x], offset, size), View(capacity, d, offset, size);
    forall i | 0 <= i < size
      ensures v[i] == w[i]
    {
      LogicalInverse(capacity, offset, i);
    }
  }

  class RingBuf<T(0)> {
    const capacity: nat
    const data: array<T>
    var next: nat
    var ringOffset: nat
    var size: nat

    // Slots that hold a constructed element.
    ghost var constructed: set<nat>

    /** The fields agree, and exactly the live slots and the given extra ones are constructed. */
    ghost predicate ValidWith(extra: set<nat>)
      reads this, data
    {
      && data.Length == capacity + 1
      && ringOffset <= capacity && size <= capacity && next == RingWrap(capacity, ringOffset + size)
      && (forall k | k in constructed :: k <= capacity)
      && (forall k | k in extra :: k <= capacity && !Live(k))
      && (forall k | 0 <= k <= capacity :: k in constructed <==> Live(k) || k in extra)
    }

    ghost predicate Valid()
      reads this, data
    {
      ValidWith({})
    }

    ghost predicate Live(slot: nat)
      requires ringOffset <= capacity && slot <= capacity
      reads this
    {
      Logical(capacity, ringOffset, slot) < size
    }

    ghost function Contents(): seq<T>
      requires data.Length == capacity + 1 && ringOffset <= capacity && size <= capacity
      reads this, data
    {
      View(capacity, data[..], ringOffset, size)
    }

    constructor (capacity: nat)
      ensures Valid() && this.capacity == capacity && Contents() == [] && fresh(data)
    {
      this.capacity := capacity;
      data := new T[capacity + 1];
      next, ringOffset, size := 0, 0, 0;
      constructed := {};
    }

    /** Constructing is allowed only in a slot that holds no element. */
    method Construct(slot: nat, x: T)
      requires slot < data.Length && slot !in constructed
      modifies this`constructed, data
      ensures constructed == old(constructed) + {slot}
      ensures data[..] == old(data[..])[slot := x]
    {
      data[slot] := x;
      constructed := constructed + {slot};
    }

    /** Destroying is allowed only in a slot that holds one. */
    method Destroy(slot: nat)
      requires slot in constructed
      modifies this`constructed
      ensures constructed == old(constructed) - {slot}
    {
      constructed := constructed - {slot};
    }

    method PopFront(ghost extra: set<nat>)
      requires ValidWith(extra)
      modifies this
      ensures ValidWith(extra)
      ensures Contents() == Deque.PopFront(old(Contents()))
      ensures Contents() == if old(Contents()) == [] then [] else old(Contents())[1..]
      ensures next == old(next)
    {
      if size == 0 {
        return;
      }
      ViewWithoutFront(capacity, data[..], ringOffset, size);
      Destroy(ringOffset);
      ringOffset := Increment(capacity, ringOffset);
      size := size - 1;
    }

    method PopBack(ghost extra: set<nat>)
      requires ValidWith(extra)
      modifies this
      ensures ValidWith(extra)
      ensures Contents() == Deque.PopBack(old(Contents()))
      ensures var s := old(Contents()); Contents() == if s == [] then [] else s[..|s| - 1]
      ensures ringOffset == old(ringOffset)
    {
      if size == 0 {
        return;
      }
      ViewResize(capacity, data[..], ringOffset, size - 1);
      next := Decrement(capacity, next);
      size := size - 1;
      Destroy(next);
    }

    /** Takes the element constructed at the next position into the ring. */
    method GrowBack()
      requires size < capacity && ValidWith({next})
      modifies this
      ensures Valid() && Contents() == old(Contents() + [data[next]])
      ensures constructed == old(constructed)
    {
      ViewResize(capacity, data[..], ringOffset, size);
      next := Increment(capacity, next);
      size := size + 1;
    }

    /** Takes the element constructed before the start into the ring. */
    method GrowFront()
      requires size < capacity && ValidWith({Decrement(capacity, ringOffset)})
      modifies this
      ensures Valid() && Contents() == old([data[Decrement(capacity, ringOffset)]] + Contents())
      ensures constructed == old(constructed)
    {
      ViewWithFront(capacity, data[..], ringOffset, size);
      ringOffset := Decrement(capacity, ringOffset);
      size := size + 1;
    }

    /** Constructs in a slot that is not live; what the ring holds does not change. */
    method ConstructSpare(slot: nat, x: T)
      requires Valid() && slot <= capacity && !Live(slot)
      modifies this`constructed, data
      ensures ValidWith({slot}) && Contents() == old(Contents()) && data[slot] == x
    {
      ViewHidesWrite(capacity, data[..], ringOffset, size, slot, x);
      Construct(slot, x);
    }

    /** Constructs in the spare slot first, then makes room by dropping the front. */
    method EmplaceBack(x: T)
      requires Valid()
      modifies this, data
      ensures Valid()
      ensures Contents() == PushBack(capacity, old(Contents()), x)
      ensures var s := old(Contents());
              Contents() == if capacity == 0 then [] else (if |s| < capacity then s else s[1..]) + [x]
    {
      if capacity == 0 {
        return;
      }
      ghost var slot := next;
      LogicalInverse(capacity, ringOffset, size);
      ConstructSpare(next, x);
      if size == capacity {
        PopFront({slot});
      }
      GrowBack();
    }

    method EmplaceFront(x: T)
      requires Valid()
      modifies this, data
      ensures Valid()
      ensures Contents() == PushFront(capacity, old(Contents()), x)
      ensures var s := old(Contents());
              Contents() == if capacity == 0 then [] else [x] + if |s| < capacity then s else s[..|s| - 1]
    {
      if capacity == 0 {
        return;
      }
      ghost var slot := Decrement(capacity, ringOffset);
      ConstructSpare(Decrement(capacity, ringOffset), x);
      if size == capacity {
        PopBack({slot});
      }
      GrowFront();
    }

    method Clear()
      requires Valid()
      modifies this
      ensures Valid() && Contents() == [] && constructed == {}
    {
      while size > 0
        invariant Valid()
      {
        PopFront({});
      }
    }

    /** Range-checked access; the exception is None. */
    method At(index: nat) returns (r: Option<T>)
      requires Valid()
      ensures r == if index < |Contents()| then Some(Contents()[index]) else None
    {
      if index >= size {
        return None;
      }
      r := Some(data[RingWrap(capacity, ringOffset + index)]);
    }

    /** Move-assigns element j to element i, both live. */
    method MoveElement(i: nat, j: nat)
      requires Valid() && i < size && j < size
      modifies data
      ensures Valid() && Contents() == old(Contents())[i := old(Contents())[j]]
    {
      ViewUpdate(capacity, data[..], ringOffset, size, i, data[RingWrap(capacity, ringOffset + j)]);
      data[RingWrap(capacity, ringOffset + i)] := data[RingWrap(capacity, ringOffset + j)];
    }

    /** Erases the elements from..to, shifting the shorter side, and returns the index of the
        element after the range. Iterators are logical indices. */
    method Erase(from: nat, to: nat) returns (after: nat)
      requires Valid() && from <= to <= size
      modifies this, data
      ensures Valid()
      ensures Contents() == old(Contents())[..from] + old(Contents())[to..]
      ensures after == from
    {
      if from == to {
        return to;
      }
      var leading, trailing := from, size - to;
      if leading > trailing {
        EraseFromBack(from, to, trailing);
      } else {
        EraseFromFront(from, to, leading);
      }
      after := size - trailing;
    }

    method EraseFromBack(from: nat, to: nat, trailing: nat)
      requires Valid() && from < to <= size && trailing == size - to
      modifies this, data
      ensures Valid() && size == old(size) - (to - from)
      ensures Contents() == old(Contents())[..from] + old(Contents())[to..]
    {
      ShiftedParts(Contents(), from, to);
      ShiftTail(from, to, trailing);
      PopBackTimes(to - from);
    }

    method EraseFromFront(from: nat, to: nat, leading: nat)
      requires Valid() && from < to <= size && leading == from
      modifies this, data
      ensures Valid() && size == old(size) - (to - from)
      ensures Contents() == old(Contents())[..from] + old(Contents())[to..]
    {
      ShiftedParts(Contents(), from, to);
      ShiftHead(from, to, leading);
      PopFrontTimes(to - from);
    }

    method PopBackTimes(n: nat)
      requires Valid() && n <= size
      modifies this
      ensures Valid() && size == old(size) - n
      ensures Contents() == old(Contents())[..old(size) - n]
    {
      for i := 0 to n
        invariant Valid() && size == old(size) - i
        invariant Contents() == old(Contents())[..old(size) - i]
      {
        PopBack({});
      }
    }

    method PopFrontTimes(n: nat)
      requires Valid() && n <= size
      modifies this
      ensures Valid() && size == old(size) - n
      ensures Contents() == old(Contents())[n..]
    {
      for i := 0 to n
        invariant Valid() && size == old(size) - i
        invariant Contents() == old(Contents())[i..]
      {
        PopFront({});
      }
    }

    method ShiftTail(from: nat, to: nat, trailing: nat)
      requires Valid() && from < to <= size && trailing == size - to
      modifies data
      ensures Valid() && Contents() == ShiftedTail(old(Contents()), from, to)
    {
      ghost var was := Contents();
      TailEnds(was, from, to);
      for i := 0 to trailing
        invariant Valid()
        invariant Contents() == TailSoFar(was, from, to, i)
      {
        TailStep(was, from, to, i);
        MoveElement(from + i, to + i);
      }
    }

    method ShiftHead(from: nat, to: nat, leading: nat)
      requires Valid() && from < to <= size && leading == from
      modifies data
      ensures Valid() && Contents() == ShiftedHead(old(Contents()), from, to)
    {
      ghost var was := Contents();
      HeadEnds(was, from, to);
      var i := -1;
      while i + leading >= 0
        invariant -1 <= i + leading && i <= -1
        invariant Valid()
        invariant Contents() == HeadSoFar(was, from, to, from + i + 1)
        decreases leading + i
      {
        HeadStep(was, from, to, from + i);
        MoveElement(to + i, from + i);
        i := i - 1;
      }
    }
  }

  function TailSoFar<T>(s: seq<T>, from: nat, to: nat, i: nat): seq<T>
    requires from <= to && to + i <= |s|
  {
    s[..from] + s[to..to + i] + s[from + i..]
  }

  lemma TailEnds<T>(s: seq<T>, from: nat, to: nat)
    requires from <= to <= |s|
    ensures TailSoFar(s, from, to, 0) == s
    ensures TailSoFar(s, from, to, |s| - to) == ShiftedTail(s, from, to)
  {
    assert s[to..to + (|s| - to)] == s[to..];
  }

  /** The next element to be moved has not been overwritten yet. */
  lemma TailStep<T>(s: seq<T>, from: nat, to: nat, i: nat)
    requires from <= to && to + i < |s|
    ensures TailSoFar(s, from, to, i)[to + i] == s[to + i]
    ensures TailSoFar(s, from, to, i)[from + i := s[to + i]] == TailSoFar(s, from, to, i + 1)
  {
  }

  /** The first k elements have not been moved yet. */
  function HeadSoFar<T>(s: seq<T>, from: nat, to: nat, k: nat): seq<T>
    requires k <= from < to <= |s|
  {
    s[..to - from + k] + s[k..from] + s[to..]
  }

  lemma HeadEnds<T>(s: seq<T>, from: nat, to: nat)
    requires from < to <= |s|
    ensures HeadSoFar(s, from, to, from) == s
    ensures HeadSoFar(s, from, to, 0) == ShiftedHead(s, from, to)
  {
    assert s[0..from] == s[..from];
  }

  /** The next element to be moved has not been overwritten yet. */
  lemma HeadStep<T>(s: seq<T>, from: nat, to: nat, k: nat)
    requires k < from < to <= |s|
    ensures HeadSoFar(s, from, to, k + 1)[k] == s[k]
    ensures HeadSoFar(s, from, to, k + 1)[to - from + k := s[k]] == HeadSoFar(s, from, to, k)
  {
  }

  /** After either shift the elements kept are in one piece. */
  lemma ShiftedParts<T>(s: seq<T>, from: nat, to: nat)
    requires from <= to <= |s|
    ensures ShiftedTail(s, from, to)[..from + (|s| - to)] == s[..from] + s[to..]
    ensures ShiftedHead(s, from, to)[to - from..] == s[..from] + s[to..]
  {
  }

  lemma ViewUpdate<T>(capacity: nat, d: seq<T>, offset: nat, size: nat, i: nat, x: T)
    requires |d| == capacity + 1 && offset <= capacity && i < size <= capacity
    ensures View(capacity, d[RingWrap(capacity, offset + i) := x], offset, size)
         == View(capacity, d, offset, size)[i := x]
  {
    var v := View(capacity, d[RingWrap(capacity, offset + i) := x], offset, size);
    var w := View(capacity, d, offset, size)[i := x];
    forall k | 0 <= k < size
      ensures v[k] == w[k]
    {
      LogicalInverse(capacity, offset, k);
      LogicalInverse(capacity, offset, i);
    }
  }

  /** The elements after the range moved down over it; the last ones are left over. */
  function ShiftedTail<T>(s: seq<T>, from: nat, to: nat): seq<T>
    requires from <= to <= |s|
  {
    s[..from] + s[to..] + s[from + (|s| - to)..]
  }

  /** The elements before the range moved up over it; the first ones are left over. */
  function ShiftedHead<T>(s: seq<T>, from: nat, to: nat): seq<T>
    requires from <= to <= |s|
  {
    s[..to - from] + s[..from] + s[to..]
  }

  /** The next write position is the start advanced by the size, modulo the slot count; the
      spare slot it names is never live. */
  lemma NextPosition<T(0)>(ring: RingBuf<T>)
    requires ring.Valid()
    ensures ring.next == (ring.ringOffset + ring.size) % (ring.capacity + 1)
    ensures !ring.Live(ring.next) && ring.next !in ring.constructed
  {
    RingWrapIsRemainder(ring.capacity, ring.ringOffset + ring.size);
    LogicalInverse(ring.capacity, ring.ringOffset, ring.size);
  }

  /** Element i lies i slots behind the start, modulo the slot count. */
  lemma ContentsLieInOrder<T(0)>(ring: RingBuf<T>, i: nat)
    requires ring.Valid() && i < ring.size
    ensures |ring.Contents()| == ring.size
    ensures ring.Contents()[i] == ring.data[(ring.ringOffset + i) % (ring.capacity + 1)]
  {
    RingWrapIsRemainder(ring.capacity, ring.ringOffset + i);
  }

  /** Over any mix of operations the ring is the bounded deque. */
  method Run<T(0)>(ring: RingBuf<T>, ops: seq<DequeOp<T>>)
    requires ring.Valid()
    modifies ring, ring.data
    ensures ring.Valid()
    ensures ring.Contents() == ApplyAll(ring.capacity, old(ring.Contents()), ops)
  {
    for i := 0 to |ops|
      invariant ring.Valid()
      invariant ring.Contents() == ApplyAll(ring.capacity, old(ring.Contents()), ops[..i])
    {
      ApplyNext(ring.capacity, old(ring.Contents()), ops, i);
      match ops[i]
      case ToBack(x) => ring.EmplaceBack(x);
      case ToFront(x) => ring.EmplaceFront(x);
      case OffFront => ring.PopFront({});
      case OffBack => ring.PopBack({});
      case Empty => ring.Clear();
    }
    assert ops[..|ops|] == ops;
  }
}
