// The reference for the ring buffer: a sequence that holds at most a fixed number of
// elements and drops the element at the other end when it is full.
module Deque {
  import opened Options

  function PushBack<T>(capacity: nat, s: seq<T>, x: T): seq<T>
  {
    if capacity == 0 then s else if |s| == capacity then s[1..] + [x] else s + [x]
  }

  function PushFront<T>(capacity: nat, s: seq<T>, x: T): seq<T>
  {
    if capacity == 0 then s else if |s| == capacity then [x] + s[..|s| - 1] else [x] + s
  }

  function PopFront<T>(s: seq<T>): seq<T> { if s == [] then s else s[1..] }

  function PopBack<T>(s: seq<T>): seq<T> { if s == [] then s else s[..|s| - 1] }

  function At<T>(s: seq<T>, i: nat): Option<T> { if i < |s| then Some(s[i]) else None }

  /** The last elements of a history, at most as many as the capacity. */
  function Last<T>(capacity: nat, history: seq<T>): (s: seq<T>)
    ensures |s| == if |history| < capacity then |history| else capacity
  {
    if |history| < capacity then history else history[|history| - capacity..]
  }

  lemma LastIsEnd<T>(capacity: nat, history: seq<T>)
    ensures Last(capacity, history) == history[|history| - |Last(capacity, history)|..]
  {
  }

  /** Pushing at the back only, the buffer holds the end of everything pushed. */
  lemma PushBackKeepsLast<T>(capacity: nat, history: seq<T>, x: T)
    ensures PushBack(capacity, Last(capacity, history), x) == Last(capacity, history + [x])
  {
  }

  /** Pushing at the front only, the buffer holds the start of everything put in front. */
  lemma PushFrontKeepsFirst<T>(capacity: nat, history: seq<T>, x: T)
    ensures var kept := if |history| < capacity then history else history[..capacity];
            var all := [x] + history;
            PushFront(capacity, kept, x) == if |all| < capacity then all else all[..capacity]
  {
  }

  datatype DequeOp<T> = ToBack(x: T) | ToFront(x: T) | OffFront | OffBack | Empty

  function Apply<T>(capacity: nat, s: seq<T>, op: DequeOp<T>): seq<T>
  {
    match op
    case ToBack(x) => PushBack(capacity, s, x)
    case ToFront(x) => PushFront(capacity, s, x)
    case OffFront => PopFront(s)
    case OffBack => PopBack(s)
    case Empty => []
  }

  function ApplyAll<T>(capacity: nat, s: seq<T>, ops: seq<DequeOp<T>>): seq<T>
  {
    if ops == [] then s
    else Apply(capacity, ApplyAll(capacity, s, ops[..|ops| - 1]), ops[|ops| - 1])
  }

  lemma ApplyNext<T>(capacity: nat, s: seq<T>, ops: seq<DequeOp<T>>, i: nat)
    requires i < |ops|
    ensures ApplyAll(capacity, s, ops[..i + 1]) == Apply(capacity, ApplyAll(capacity, s, ops[..i]), ops[i])
  {
    assert ops[..i + 1][..i] == ops[..i];
  }

  /** The capacity is never exceeded. */
  lemma {:induction false} WithinCapacity<T>(capacity: nat, s: seq<T>, ops: seq<DequeOp<T>>)
    requires |s| <= capacity
    ensures |ApplyAll(capacity, s, ops)| <= capacity
  {
    if ops != [] {
      WithinCapacity(capacity, s, ops[..|ops| - 1]);
    }
  }
}
