/**
 * Iterator categories and the tag-dispatched distance and advance
 * (src/3_6/stl_iterator.h).
 *
 * An iterator is its position, an int: ++ is one step forward and -- one
 * step back; random-access iterators add and subtract positions directly.
 * The category tags form the hierarchy input <- forward <- bidirectional
 * <- random access, and overload resolution sends a tag to the version for
 * the nearest tag it derives from.  There is no version for the output
 * tag, so calls with it do not compile.
 */
module StlIterator {

  datatype Category = Input | Output | Forward | Bidirectional | RandomAccess

  /**
   * What iterator_traits gives an iterator type: a raw pointer, const or
   * not, is random access; a class iterator has the category it declares.
   */
  datatype Kind = Pointer | ClassIterator(declared: Category)

  /** iterator_category(iter): the tag of the iterator's traits. */
  function IteratorCategory(k: Kind): (c: Category)
    ensures k.Pointer? ==> c == RandomAccess
    ensures k.ClassIterator? ==> c == k.declared
  {
    match k
    case Pointer => RandomAccess
    case ClassIterator(c) => c
  }

  /** The random-access __distance: last - first, of either sign. */
  function DistanceRandomAccess(first: int, last: int): (d: int)
    ensures first + d == last
  {
    last - first
  }

  /**
   * The input-iterator __distance: steps from first with ++ and counts
   * until it meets last, which has to lie ahead of it.
   */
  method DistanceInput(first: int, last: int) returns (d: int)
    requires first <= last
    ensures d == DistanceRandomAccess(first, last) && d >= 0
  {
    var iter := first;
    d := 0;
    while iter != last
      invariant first <= iter <= last && d == iter - first
      decreases last - iter
    {
      iter := iter + 1;
      d := d + 1;
    }
  }

  /**
   * distance(first, last, tag): the version the category of the iterator
   * type selects; the tag passed in is not looked at.
   */
  method Distance(first: int, last: int, k: Kind) returns (d: int)
    requires IteratorCategory(k) != Output
    requires IteratorCategory(k) != RandomAccess ==> first <= last
    ensures first + d == last
  {
    if IteratorCategory(k) == RandomAccess {
      d := DistanceRandomAccess(first, last);
    } else {
      d := DistanceInput(first, last);
    }
  }

  /** The random-access __advance: iter += n. */
  function AdvanceRandomAccess(iter: int, n: int): (r: int)
    ensures DistanceRandomAccess(iter, r) == n
  {
    iter + n
  }

  /** The input-iterator __advance: n times ++, n counting down to 0. */
  method AdvanceInput(iter: int, n: int) returns (r: int)
    requires n >= 0
    ensures r == AdvanceRandomAccess(iter, n)
  {
    r := iter;
    var count := n;
    while count != 0
      invariant 0 <= count <= n && r == iter + (n - count)
    {
      count := count - 1;
      r := r + 1;
    }
  }

  /**
   * The bidirectional __advance: n times ++ for n >= 0, otherwise -n times
   * -- with n counting up to 0.
   */
  method AdvanceBidirectional(iter: int, n: int) returns (r: int)
    ensures r == AdvanceRandomAccess(iter, n)
  {
    r := iter;
    var count := n;
    if count >= 0 {
      while count != 0
        invariant 0 <= count <= n && r == iter + (n - count)
      {
        count := count - 1;
        r := r + 1;
      }
    } else {
      while count != 0
        invariant n <= count <= 0 && r == iter + (n - count)
        decreases -count
      {
        count := count + 1;
        r := r - 1;
      }
    }
  }

  /**
   * my_advance(iter, n): input and forward iterators take the input
   * version, which needs n >= 0; bidirectional and random-access iterators
   * take their own and move back for negative n.
   */
  method MyAdvance(iter: int, n: int, k: Kind) returns (r: int)
    requires IteratorCategory(k) != Output
    requires IteratorCategory(k) in {Input, Forward} ==> n >= 0
    ensures r == iter + n
  {
    match IteratorCategory(k)
    case Input => r := AdvanceInput(iter, n);
    case Forward => r := AdvanceInput(iter, n);
    case Bidirectional => r := AdvanceBidirectional(iter, n);
    case RandomAccess => r := AdvanceRandomAccess(iter, n);
  }

  /**
   * The intended dispatch of the calls in test_stl_iterator.cpp on a vector
   * of 6 and a list of 7 elements, through this module's Distance and
   * MyAdvance: distance of begin() and end() is the size, and advancing
   * begin() by size - 1 and by size - 2 reaches those positions.  (In the
   * test itself the calls resolve to std::distance and std::__advance.)
   */
  method SizesAndAdvances() returns (vecSize: int, listSize: int, vecIter: int, listIter: int)
    ensures vecSize == 6 && listSize == 7 && vecIter == 5 && listIter == 5
  {
    vecSize := Distance(0, 6, ClassIterator(RandomAccess));
    listSize := Distance(0, 7, ClassIterator(Bidirectional));
    vecIter := MyAdvance(0, vecSize - 1, ClassIterator(RandomAccess));
    listIter := MyAdvance(0, listSize - 2, ClassIterator(Bidirectional));
  }
}
