/**
 * The stack adapter (src/4_2/stack/include/stack.h): every operation goes to
 * the back of the underlying sequence, so the last element pushed is the
 * first popped.  The underlying std::deque is a sequence field.
 */
module StlStack {
  import opened SequenceOrder

  class Stack<T> {
    /** The underlying container, bottom first. */
    var container: seq<T>

    constructor ()
      ensures container == []
    {
      container := [];
    }

    function Empty(): (b: bool)
      reads this
      ensures b <==> |container| == 0
    {
      |container| == 0
    }

    function Size(): (r: nat)
      reads this
      ensures r == |container|
    {
      |container|
    }

    /** top(): the back of the container, the last element pushed and not yet popped. */
    function Top(): (x: T)
      reads this
      requires !Empty()
      ensures x == container[|container| - 1]
    {
      container[|container| - 1]
    }

    /** push(value): push_back on the container. */
    method Push(value: T)
      modifies this
      ensures container == old(container) + [value]
      ensures !Empty() && Top() == value && Size() == old(Size()) + 1
    {
      container := container + [value];
    }

    /** pop(): pop_back on the container, which must not be empty. */
    method Pop()
      requires !Empty()
      modifies this
      ensures container == old(container)[..old(Size()) - 1]
      ensures Size() == old(Size()) - 1
    {
      container := container[..|container| - 1];
    }

    /** A push followed by a pop gives back the pushed value and the old stack. */
    method PushThenPop(value: T) returns (top: T)
      modifies this
      ensures top == value && container == old(container)
    {
      Push(value);
      top := Top();
      Pop();
    }
  }

  /** operator==: the two containers hold equal elements in the same order. */
  function Equal(a: Stack<int>, b: Stack<int>): (r: bool)
    reads a, b
    ensures r <==> (|a.container| == |b.container| &&
      forall i :: 0 <= i < |a.container| ==> a.container[i] == b.container[i])
  {
    a.container == b.container
  }

  /** operator<: lexicographical_compare of the containers, bottom first. */
  function Less(a: Stack<int>, b: Stack<int>): (r: bool)
    reads a, b
    ensures r <==> LexLessByIndex(a.container, b.container)
  {
    LexLessMeansByIndex(a.container, b.container);
    LexLess(a.container, b.container)
  }

  /** Exactly one of a < b, a == b and b < a holds. */
  lemma StacksTotallyOrdered(a: Stack<int>, b: Stack<int>)
    ensures Less(a, b) || Equal(a, b) || Less(b, a)
    ensures Less(a, b) ==> !Equal(a, b) && !Less(b, a)
    ensures Equal(a, b) ==> !Less(b, a)
  {
    LexLessTrichotomy(a.container, b.container);
  }

  /**
   * Pushing 0, 1, ..., 999 and then popping until the stack is empty reads
   * the tops 999, 998, ..., 0.
   */
  method CountDown() returns (popped: seq<int>)
    ensures popped == seq(1000, i => 999 - i)
  {
    var stack := new Stack<int>();
    var index := 0;
    while index < 1000
      invariant 0 <= index <= 1000
      invariant stack.container == seq(index, i => i)
    {
      stack.Push(index);
      index := index + 1;
    }
    popped := [];
    while !stack.Empty()
      invariant |stack.container| + |popped| == 1000
      invariant stack.container == seq(|stack.container|, i => i)
      invariant popped == seq(|popped|, i => 999 - i)
      decreases |stack.container|
    {
      popped := popped + [stack.Top()];
      stack.Pop();
    }
  }
}
