/**
 * The node and the bidirectional iterator of the circular doubly linked list
 * (src/4_2/list/include/listNode.h, src/4_2/list/include/list_Iterator.h).
 * Node pointers are indices into a sequence of nodes that stands for the
 * heap; the iterator holds one such index.
 */
module ListIterators {

  /** ListNode: the two links and the stored value. */
  datatype Node<T> = Node(prev: nat, next: nat, nodeData: T)

  /** Every node links to nodes that exist, and next and prev undo each other. */
  ghost predicate LinksInverse<T>(nodes: seq<Node<T>>)
  {
    forall i :: 0 <= i < |nodes| ==>
      nodes[i].next < |nodes| && nodes[i].prev < |nodes| &&
      nodes[nodes[i].next].prev == i && nodes[nodes[i].prev].next == i
  }

  class ListIterator<T> {
    var node: nat

    /** ListIterator(x): holds the given node. */
    constructor (x: nat)
      ensures node == x
    {
      node := x;
    }

    /** The copy constructor holds the same node as the original. */
    constructor Copy(x: ListIterator<T>)
      ensures node == x.node
    {
      node := x.node;
    }

    /** operator*: the value stored in the held node. */
    function Deref(nodes: seq<Node<T>>): (r: T)
      reads this
      requires node < |nodes|
      ensures r == nodes[node].nodeData
    {
      nodes[node].nodeData
    }

    /** operator!=: the two iterators hold different nodes. */
    function NotEqual(x: ListIterator<T>): (b: bool)
      reads this, x
      ensures b <==> node != x.node
    {
      node != x.node
    }

    /** Prefix ++: moves to the next node. */
    method Increment(nodes: seq<Node<T>>)
      requires node < |nodes|
      modifies this
      ensures node == nodes[old(node)].next
    {
      node := nodes[node].next;
    }

    /** Prefix --: moves to the previous node. */
    method Decrement(nodes: seq<Node<T>>)
      requires node < |nodes|
      modifies this
      ensures node == nodes[old(node)].prev
    {
      node := nodes[node].prev;
    }

    /** With mutually inverse links, ++ followed by -- comes back to the same node. */
    method IncrementThenDecrement(nodes: seq<Node<T>>)
      requires LinksInverse(nodes) && node < |nodes|
      modifies this
      ensures node == old(node)
    {
      Increment(nodes);
      Decrement(nodes);
    }

    /** With mutually inverse links, -- followed by ++ comes back to the same node. */
    method DecrementThenIncrement(nodes: seq<Node<T>>)
      requires LinksInverse(nodes) && node < |nodes|
      modifies this
      ensures node == old(node)
    {
      Decrement(nodes);
      Increment(nodes);
    }
  }
}
