/** The circular FIFO queue of `Queue.java` that `levelOrderTraversal` uses.
    A fixed array of N slots, a `front` index, a `rear` index (the next
    free slot) and an `isEmpty` flag that tells an empty queue (front == rear,
    flag set) from a full one (front == rear, flag clear). Java's `null` slot
    is `None`. The array length is the parameter N; the Java constructor
    always allocates CAPACITY slots. */
module Queues {
  import opened Wrappers

  /** The array length the Java constructor allocates */
  const CAPACITY: int := 262143

  class Queue<T> {
    /** The number of slots */
    const N: nat
    var data: array<Option<T>>
    var front: int
    var rear: int
    var isEmpty: bool
    /** The queued elements, front first */
    ghost var Contents: seq<T>

    /** The slot i places after `front`, wrapping past the end of the array */
    function Slot(i: int): int
      reads this
    {
      if front + i < N then front + i else front + i - N
    }

    ghost predicate Valid()
      reads this, data
    {
      && data.Length == N
      && 0 <= front < N && 0 <= rear < N
      && |Contents| <= N
      && (isEmpty <==> Contents == [])
      && rear == Slot(|Contents|)
      && forall i :: 0 <= i < |Contents| ==> data[Slot(i)] == Some(Contents[i])
    }

    /** Lines 18-22: an empty queue over a fresh array of n slots, both
        indices at slot 0 */
    constructor(n: nat)
      requires n > 0
      ensures Valid() && fresh(data) && N == n && Contents == []
      ensures front == 0 && rear == 0 && isEmpty
    {
      N := n;
      data := new Option<T>[n](_ => None);
      front, rear := 0, 0;
      isEmpty := true;
      Contents := [];
    }

    /** Lines 104-106 */
    function IsEmpty(): (r: bool)
      reads this, data
      requires Valid()
      ensures r <==> Contents == []
    {
      isEmpty
    }

    /** The queue is full exactly when the indices meet and the flag is clear */
    lemma FullWhenIndicesMeet()
      requires Valid()
      ensures (front == rear && !isEmpty) <==> |Contents| == N
    {
    }

    /** The number of queued elements follows from the indices and the flag:
        the distance from `front` forward to `rear` around the ring, or N
        when they meet and the flag is clear */
    lemma CountFromIndices()
      requires Valid()
      ensures |Contents| ==
        if front == rear && !isEmpty then N
        else if front <= rear then rear - front
        else rear - front + N
    {
      if front + |Contents| < N {
        assert rear == front + |Contents|;
      } else {
        assert rear == front + |Contents| - N;
      }
    }

    /** Lines 90-96: the front element, or `None` (Java's null) when empty */
    function GetFront(): (r: Option<T>)
      reads this, data
      requires Valid()
      ensures Contents == [] ==> r == None
      ensures Contents != [] ==> r == Some(Contents[0])
    {
      if isEmpty then None else data[front]
    }

    /** Lines 60-82: append x at the rear; a full queue is left unchanged (the
        Java code prints "Queue is full" and returns) */
    method EnQueue(x: T)
      requires Valid()
      modifies this, data
      ensures Valid() && data == old(data)
      ensures old(|Contents|) == N ==> Contents == old(Contents)
      ensures old(|Contents|) < N ==> Contents == old(Contents) + [x]
    {
      if front == rear && isEmpty == false {
        return;
      }
      data[rear] := Some(x);
      if front == rear {
        isEmpty := false;
      }
      if rear == data.Length - 1 {
        rear := 0;
      } else {
        rear := rear + 1;
      }
      Contents := Contents + [x];
    }

    /** Lines 30-52: remove and return the front element; `None` (Java's
        null) from an empty queue, which stays unchanged */
    method DeQueue() returns (r: Option<T>)
      requires Valid()
      modifies this
      ensures Valid() && data == old(data)
      ensures old(Contents) == [] ==> r == None && Contents == []
      ensures old(Contents) != [] ==> r == Some(old(Contents)[0]) && Contents == old(Contents)[1..]
    {
      if isEmpty {
        return None;
      }
      r := data[front];
      if front == data.Length - 1 {
        front := 0;
      } else {
        front := front + 1;
      }
      Contents := Contents[1..];
      if front == rear {
        isEmpty := true;
      }
    }
  }
}
