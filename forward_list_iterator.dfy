/**
 * The iterator of the singly linked list
 * (src/3_2/myForwardList/src/include/List_Iterator.h): it holds a node
 * pointer, null for a default iterator and for the position past the tail.
 */
module ForwardListIterator {
  import opened Wrappers
  import opened ForwardListItem

  /** What operator+ throws for a negative offset: std::invalid_argument. */
  datatype IteratorError = InvalidArgument(offset: int)

  class ListIterator<T> {
    var itemPointer: MyListItem?<T>

    /** ListIterator(p), its default argument being null. */
    constructor (p: MyListItem?<T>)
      ensures itemPointer == p
    {
      itemPointer := p;
    }

    /** get(): the held pointer. */
    function Get(): (r: MyListItem?<T>)
      reads this
      ensures r == itemPointer
    {
      itemPointer
    }

    /** operator== compares the held pointers. */
    function Equal(x: ListIterator<T>): (b: bool)
      reads this, x
      ensures b <==> itemPointer == x.itemPointer
    {
      itemPointer == x.itemPointer
    }

    /** operator!= is the negation of operator==. */
    function NotEqual(x: ListIterator<T>): (b: bool)
      reads this, x
      ensures b <==> !Equal(x)
    {
      itemPointer != x.itemPointer
    }

    /** Prefix ++: moves to next(), which needs a node to be held. */
    method Increment()
      requires itemPointer != null
      modifies this
      ensures itemPointer == old(itemPointer.nextItem)
    {
      itemPointer := itemPointer.nextItem;
    }

    /** Postfix ++: moves on and returns a copy of the iterator from before. */
    method PostIncrement() returns (before: ListIterator<T>)
      requires itemPointer != null
      modifies this
      ensures fresh(before) && before.itemPointer == old(itemPointer)
      ensures itemPointer == old(itemPointer.nextItem)
    {
      before := new ListIterator(itemPointer);
      Increment();
    }

    /**
     * operator+(offset): invalid_argument for a negative offset; otherwise
     * offset steps along next(), taken by this iterator itself, and a copy
     * of it is returned.  The iterator sits at position i of a chain with at
     * least offset nodes from there on.
     */
    method Plus(offset: int, ghost spine: seq<MyListItem<T>>, ghost i: nat)
      returns (r: Result<ListIterator<T>, IteratorError>)
      requires Linked(spine) && i <= |spine| && itemPointer == At(spine, i)
      requires offset >= 0 ==> i + offset <= |spine|
      modifies this
      ensures offset < 0 ==> r == Err(InvalidArgument(offset)) && itemPointer == old(itemPointer)
      ensures offset >= 0 ==> r.Ok? && fresh(r.value) && itemPointer == At(spine, i + offset)
      ensures r.Ok? ==> r.value.itemPointer == itemPointer
    {
      if offset < 0 {
        return Err(InvalidArgument(offset));
      }
      var index := 0;
      while index < offset
        invariant 0 <= index <= offset && itemPointer == At(spine, i + index)
      {
        assert LinkedAt(spine, i + index);
        itemPointer := itemPointer.nextItem;
        index := index + 1;
      }
      var copy := new ListIterator(itemPointer);
      r := Ok(copy);
    }
  }
}
