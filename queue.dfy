/**
 * The queue adapter (src/4_2/queue/include/queue.h).  push goes to the FRONT
 * of the underlying sequence and pop takes from the BACK, so front() is the
 * newest element and back() the oldest, the other way round from std::queue,
 * while pop still removes the oldest element.
 */
module StlQueue {
  import opened SequenceOrder

  /** s backwards. */
  function Reversed<T>(s: seq<T>): (r: seq<T>)
    ensures |r| == |s| && forall i :: 0 <= i < |s| ==> r[i] == s[|s| - 1 - i]
  {
    if |s| == 0 then [] else [s[|s| - 1]] + Reversed(s[..|s| - 1])
  }

  class Queue<T> {
    /** The underlying container, newest first. */
    var contain: seq<T>

    constructor ()
      ensures contain == []
    {
      contain := [];
    }

    function Empty(): (b: bool)
      reads this
      ensures b <==> Size() == 0
    {
      |contain| == 0
    }

    function Size(): (r: nat)
      reads this
      ensures r == |contain|
    {
      |contain|
    }

    /** front(): the first element of the container, the one pushed last. */
    function Front(): (x: T)
      reads this
      requires !Empty()
      ensures x == contain[0]
    {
      contain[0]
    }

    /** back(): the last element of the container, the oldest one still queued. */
    function Back(): (x: T)
      reads this
      requires !Empty()
      ensures x == contain[|contain| - 1]
    {
      contain[|contain| - 1]
    }

    /** push(value), for lvalues and rvalues alike: push_front on the container. */
    method Push(value: T)
      modifies this
      ensures contain == [value] + old(contain)
      ensures !Empty() && Front() == value && Size() == old(Size()) + 1
      ensures old(Size()) > 0 ==> Back() == old(Back())
    {
      contain := [value] + contain;
    }

    /** pop(): pop_back on the container, which must not be empty. */
    method Pop()
      requires !Empty()
      modifies this
      ensures contain == old(contain)[..old(Size()) - 1]
      ensures Size() == old(Size()) - 1
    {
      contain := contain[..|contain| - 1];
    }
  }

  /** Pushing xs one element after another puts them in the container newest first. */
  method PushAll<T>(q: Queue<T>, xs: seq<T>)
    modifies q
    ensures q.contain == Reversed(xs) + old(q.contain)
  {
    var i := 0;
    while i < |xs|
      invariant 0 <= i <= |xs|
      invariant q.contain == Reversed(xs[..i]) + old(q.contain)
    {
      assert xs[..i + 1][..i] == xs[..i];
      q.Push(xs[i]);
      i := i + 1;
    }
    assert xs[..|xs|] == xs;
  }

  /** Reading back() and popping, size() times, reads the container from its back. */
  method DrainFromBack<T>(q: Queue<T>) returns (out: seq<T>)
    modifies q
    ensures out == Reversed(old(q.contain)) && q.contain == []
  {
    ghost var c := q.contain;
    var count := q.Size();
    out := [];
    var index := 0;
    while index < count
      invariant 0 <= index <= count == |c|
      invariant q.contain == c[..count - index] && |out| == index
      invariant forall i :: 0 <= i < index ==> out[i] == c[count - 1 - i]
    {
      out := out + [q.Back()];
      q.Pop();
      index := index + 1;
    }
  }

  /** First in, first out: draining a queue of pushed values returns them in push order. */
  method PushThenDrain<T>(xs: seq<T>) returns (out: seq<T>)
    ensures out == xs
  {
    var q := new Queue<T>();
    PushAll(q, xs);
    assert q.contain == Reversed(xs);
    out := DrainFromBack(q);
  }

  /** operator==: the two containers hold equal elements in the same order. */
  function Equal(a: Queue<int>, b: Queue<int>): (r: bool)
    reads a, b
    ensures r <==> (|a.contain| == |b.contain| &&
      forall i :: 0 <= i < |a.contain| ==> a.contain[i] == b.contain[i])
  {
    a.contain == b.contain
  }

  /** operator<: lexicographical_compare of the containers, newest first. */
  function Less(a: Queue<int>, b: Queue<int>): (r: bool)
    reads a, b
    ensures r <==> LexLessByIndex(a.contain, b.contain)
  {
    LexLessMeansByIndex(a.contain, b.contain);
    LexLess(a.contain, b.contain)
  }

  /** Exactly one of a < b, a == b and b < a holds. */
  lemma QueuesTotallyOrdered(a: Queue<int>, b: Queue<int>)
    ensures Less(a, b) || Equal(a, b) || Less(b, a)
    ensures Less(a, b) ==> !Equal(a, b) && !Less(b, a)
    ensures Equal(a, b) ==> !Less(b, a)
  {
    LexLessTrichotomy(a.contain, b.contain);
  }
}
