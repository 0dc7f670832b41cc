/**
 * The deque iterator (src/4_2/dequeue/include/deque_iterator.h).
 *
 * A deque keeps its elements in fixed-size buffers whose start addresses are
 * listed in a central map.  The iterator holds the map node it is in (an
 * index into the map), the bounds `first` and `last` of that node's buffer
 * and the address `current` of its element.  The position of the iterator in
 * the deque as a whole is node * B + (current - first), where B is the buffer
 * size; Index() names it, and the operations are specified by what they do to
 * it.
 */
module DequeIterator {

  /**
   * __dequeBufferSize(n, size): the requested buffer length n if it is not
   * zero, otherwise as many elements of `size` bytes as fit in 512 bytes, and
   * one element when a single one is already 512 bytes or more.
   */
  function BufferSize(n: nat, size: nat): (r: nat)
    requires size >= 1
    ensures r >= 1
    ensures n != 0 ==> r == n
    ensures n == 0 && size < 512 ==> r * size <= 512 < (r + 1) * size
    ensures n == 0 && size >= 512 ==> r == 1
  {
    if n != 0 then n else if size < 512 then 512 / size else 1
  }

  /** Some buffer sizes: 512-byte buffers for 4-byte and 8-byte elements, one 1000-byte element. */
  lemma BufferSizeExamples()
    ensures BufferSize(0, 4) == 128 && BufferSize(0, 8) == 64
    ensures BufferSize(0, 1000) == 1 && BufferSize(8, 4) == 8
  {
  }

  /** No two buffers listed in the map overlap. */
  ghost predicate BuffersApart(buffers: seq<int>, b: nat)
  {
    forall i, j :: 0 <= i < |buffers| && 0 <= j < |buffers| && i != j ==> buffers[i] + b <= buffers[j] || buffers[j] + b <= buffers[i]
  }

  lemma MulLess(x: int, y: int, b: nat)
    requires x < y && b > 0
    ensures x * b + b <= y * b
  {
    var d := y - x;
    assert y * b == x * b + d * b;
    assert d * b == (d - 1) * b + b;
  }

  /** A position with its offset inside the buffer determines its node. */
  lemma SplitUnique(n1: int, o1: int, n2: int, o2: int, b: nat)
    requires b > 0 && 0 <= o1 < b && 0 <= o2 < b
    requires n1 * b + o1 == n2 * b + o2
    ensures n1 == n2 && o1 == o2
  {
    if n1 < n2 {
      MulLess(n1, n2, b);
    } else if n2 < n1 {
      MulLess(n2, n1, b);
    }
  }

  /**
   * Two positions given as (node, current address) are equal when their
   * addresses are, and the converse holds when the buffers are apart.
   */
  lemma SameCurrent(buffers: seq<int>, b: nat, n1: int, c1: int, n2: int, c2: int)
    requires b > 0 && 0 <= n1 < |buffers| && 0 <= n2 < |buffers|
    requires buffers[n1] <= c1 < buffers[n1] + b && buffers[n2] <= c2 < buffers[n2] + b
    ensures n1 * b + (c1 - buffers[n1]) == n2 * b + (c2 - buffers[n2]) ==> c1 == c2
    ensures BuffersApart(buffers, b) ==> (c1 == c2 <==> n1 * b + (c1 - buffers[n1]) == n2 * b + (c2 - buffers[n2]))
  {
    if n1 * b + (c1 - buffers[n1]) == n2 * b + (c2 - buffers[n2]) {
      SplitUnique(n1, c1 - buffers[n1], n2, c2 - buffers[n2], b);
    }
  }

  /** Comparing by node and then by offset is comparing positions. */
  lemma PositionOrder(n1: int, o1: int, n2: int, o2: int, b: nat)
    requires b > 0 && 0 <= o1 < b && 0 <= o2 < b
    ensures (if n1 == n2 then o1 < o2 else n1 < n2) <==> n1 * b + o1 < n2 * b + o2
  {
    if n1 < n2 {
      MulLess(n1, n2, b);
    } else if n2 < n1 {
      MulLess(n2, n1, b);
    }
  }

  /** A position inside [0, len * b) lies in one of the len nodes. */
  lemma NodeInRange(node: int, offset: int, b: nat, len: nat)
    requires b > 0 && 0 <= offset < b
    requires 0 <= node * b + offset < len * b
    ensures 0 <= node < len
  {
    if node < 0 {
      MulLess(node, 0, b);
    }
    if node >= len {
      if node > len {
        MulLess(len, node, b);
      }
    }
  }

  /**
   * The node step that operator+= takes for an offset outside the buffer:
   * offset / B above zero and -((-offset - 1) / B) - 1 below it, the floor of
   * offset / B either way, so the new offset is inside the buffer.
   */
  function NodeOffset(offset: int, b: nat): int
    requires b > 0
  {
    if offset > 0 then offset / b else -((-offset - 1) / b) - 1
  }

  lemma NodeOffsetBounds(offset: int, b: nat)
    requires b > 0
    ensures 0 <= offset - NodeOffset(offset, b) * b < b
    ensures NodeOffset(offset, b) == offset / b
  {
    if offset <= 0 {
      var q, r := (-offset - 1) / b, (-offset - 1) % b;
      assert -offset - 1 == q * b + r && 0 <= r < b;
      assert offset - NodeOffset(offset, b) * b == b - 1 - r;
      var k := NodeOffset(offset, b);
      assert offset == k * b + (b - 1 - r);
      SplitUnique(k, b - 1 - r, offset / b, offset % b, b);
    }
  }

  class Iterator {
    /** The start address of each node's buffer: `*node` for every node. */
    const buffers: seq<int>
    /** getBufferSize() */
    const bufferSize: nat
    var node: int
    var first: int
    var last: int
    var current: int

    ghost predicate Valid()
      reads this
    {
      bufferSize >= 1 && 0 <= node < |buffers| &&
      first == buffers[node] && last == first + bufferSize && first <= current < last
    }

    /** The position in the deque as a whole. */
    ghost function Index(): int
      reads this
    {
      node * bufferSize + (current - first)
    }

    /** The iterator the deque sets up at offset k of a map node. */
    constructor (buffers: seq<int>, bufferSize: nat, node: nat, k: nat)
      requires bufferSize >= 1 && node < |buffers| && k < bufferSize
      ensures this.buffers == buffers && this.bufferSize == bufferSize
      ensures Valid() && this.node == node && Index() == node * bufferSize + k
    {
      this.buffers := buffers;
      this.bufferSize := bufferSize;
      this.node := node;
      this.first := buffers[node];
      this.last := buffers[node] + bufferSize;
      this.current := buffers[node] + k;
    }

    /** A copy of this iterator on the same map (the copy constructor). */
    method Copy() returns (it: Iterator)
      requires Valid()
      ensures fresh(it) && it.Valid() && it.buffers == buffers && it.bufferSize == bufferSize
      ensures it.node == node && it.current == current && it.Index() == Index()
    {
      it := new Iterator(buffers, bufferSize, node, current - first);
    }

    /** setNode(n): switch to node n, with first and last bounding its buffer. */
    method SetNode(newNode: int)
      requires bufferSize >= 1 && 0 <= newNode < |buffers|
      modifies this
      ensures node == newNode && first == buffers[newNode] && last == first + bufferSize
      ensures current == old(current)
    {
      node := newNode;
      first := buffers[newNode];
      last := first + bufferSize;
    }

    /** operator-(x): the distance from x to this iterator. */
    function Difference(x: Iterator): (r: int)
      reads this, x
      requires Valid() && x.Valid() && x.bufferSize == bufferSize
      ensures r == Index() - x.Index()
    {
      if this == x then 0
      else bufferSize * (node - x.node - 1) + (current - first) + (x.last - x.current)
    }

    /** Prefix ++: the next position, moving to the next node past the buffer's end. */
    method Increment()
      requires Valid() && Index() + 1 < |buffers| * bufferSize
      modifies this
      ensures Valid() && Index() == old(Index()) + 1
      ensures old(current) + 1 < old(last) ==> node == old(node) && current == old(current) + 1
      ensures old(current) + 1 == old(last) ==> node == old(node) + 1 && current == first
    {
      current := current + 1;
      if current == last {
        NodeInRange(node + 1, 0, bufferSize, |buffers|);
        SetNode(node + 1);
        current := first;
      }
    }

    /** Postfix ++: the copy taken before the increment. */
    method PostIncrement() returns (before: Iterator)
      requires Valid() && Index() + 1 < |buffers| * bufferSize
      modifies this
      ensures Valid() && Index() == old(Index()) + 1
      ensures fresh(before) && before.Valid() && before.Index() == old(Index())
    {
      before := Copy();
      Increment();
    }

    /** Prefix --: the previous position, ending at last - 1 of the previous node. */
    method Decrement()
      requires Valid() && Index() >= 1
      modifies this
      ensures Valid() && Index() == old(Index()) - 1
      ensures old(current) != old(first) ==> node == old(node) && current == old(current) - 1
      ensures old(current) == old(first) ==> node == old(node) - 1 && current == last - 1
    {
      if current == first {
        NodeInRange(node - 1, bufferSize - 1, bufferSize, |buffers|);
        SetNode(node - 1);
        current := last;
      }
      current := current - 1;
    }

    /** Postfix --: the copy taken before the decrement. */
    method PostDecrement() returns (before: Iterator)
      requires Valid() && Index() >= 1
      modifies this
      ensures Valid() && Index() == old(Index()) - 1
      ensures fresh(before) && before.Valid() && before.Index() == old(Index())
    {
      before := Copy();
      Decrement();
    }

    /**
     * operator+=(n): a jump that stays in the buffer only moves current;
     * otherwise the node moves by NodeOffset and current lands inside the new
     * buffer.
     */
    method AddAssign(n: int)
      requires Valid() && 0 <= Index() + n < |buffers| * bufferSize
      modifies this
      ensures Valid() && Index() == old(Index()) + n
      ensures 0 <= n + (old(current) - old(first)) < bufferSize ==> node == old(node) && current == old(current) + n
    {
      var offset := n + (current - first);
      if offset >= 0 && offset < bufferSize {
        current := current + n;
      } else {
        var nodeOffset := if offset > 0 then offset / bufferSize else -((-offset - 1) / bufferSize) - 1;
        assert nodeOffset == NodeOffset(offset, bufferSize);
        NodeOffsetBounds(offset, bufferSize);
        var rest := offset - nodeOffset * bufferSize;
        assert (node + nodeOffset) * bufferSize + rest == node * bufferSize + offset;
        NodeInRange(node + nodeOffset, rest, bufferSize, |buffers|);
        SetNode(node + nodeOffset);
        current := first + rest;
      }
    }

    /** operator-=(n): operator+=(-n). */
    method SubAssign(n: int)
      requires Valid() && 0 <= Index() - n < |buffers| * bufferSize
      modifies this
      ensures Valid() && Index() == old(Index()) - n
    {
      AddAssign(-n);
    }

    /** operator+(n): a copy moved by n; this iterator stays where it is. */
    method Plus(n: int) returns (it: Iterator)
      requires Valid() && 0 <= Index() + n < |buffers| * bufferSize
      ensures fresh(it) && it.Valid() && it.buffers == buffers && it.bufferSize == bufferSize
      ensures it.Index() == Index() + n
    {
      it := Copy();
      it.AddAssign(n);
    }

    /** operator-(n): a copy moved back by n, the same as operator+(-n). */
    method Minus(n: int) returns (it: Iterator)
      requires Valid() && 0 <= Index() - n < |buffers| * bufferSize
      ensures fresh(it) && it.Valid() && it.buffers == buffers && it.bufferSize == bufferSize
      ensures it.Index() == Index() - n
    {
      it := Copy();
      it.SubAssign(n);
    }

    /**
     * operator==: the two current pointers are equal; when no two buffers
     * overlap that is exactly the same position.
     */
    function Equal(x: Iterator): (b: bool)
      reads this, x
      requires Valid() && x.Valid() && x.buffers == buffers && x.bufferSize == bufferSize
      ensures Index() == x.Index() ==> b
      ensures BuffersApart(buffers, bufferSize) ==> (b <==> Index() == x.Index())
    {
      SameCurrent(buffers, bufferSize, node, current, x.node, x.current);
      current == x.current
    }

    /** operator!= is the negation of operator==. */
    function NotEqual(x: Iterator): (b: bool)
      reads this, x
      requires Valid() && x.Valid() && x.buffers == buffers && x.bufferSize == bufferSize
      ensures b <==> !Equal(x)
      ensures BuffersApart(buffers, bufferSize) ==> (b <==> Index() != x.Index())
    {
      !Equal(x)
    }

    /** operator<: by node first and by current within a node, which is position order. */
    function Less(x: Iterator): (b: bool)
      reads this, x
      requires Valid() && x.Valid() && x.buffers == buffers && x.bufferSize == bufferSize
      ensures b <==> Index() < x.Index()
    {
      PositionOrder(node, current - first, x.node, x.current - x.first, bufferSize);
      if node == x.node then current < x.current else node < x.node
    }
  }

  /** (it + n) - it == n: operator+ and operator- are inverse. */
  method PlusThenDifference(it: Iterator, n: int) returns (d: int)
    requires it.Valid() && 0 <= it.Index() + n < |it.buffers| * it.bufferSize
    ensures d == n
  {
    var moved := it.Plus(n);
    d := moved.Difference(it);
  }
}
