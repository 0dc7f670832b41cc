/**
 * The red-black tree container (src/5_1/RB_Tree/RB_Tree.h): its header,
 * node count and the queries on them.
 *
 * The tree's node store is a sequence of records and the header is one of
 * them.  The ghost shape is the tree below the header; Valid is the header
 * layout increment() and decrement() rely on.  The node count is kept apart
 * from the shape, as in the source, where clear() resets the count alone.
 */
module RBTree {
  import opened RBTreeNode
  import opened RBTreeIterator

  /** SIZE_MAX for a 64-bit size_t. */
  const SizeMax: nat := 0xFFFF_FFFF_FFFF_FFFF

  class Tree<T> {
    var nodes: seq<Rec<T>>
    var header: nat
    var nodeCount: nat
    ghost var shape: Shape

    ghost predicate Valid()
      reads this
    {
      Layout(nodes, header, shape)
    }

    /**
     * RB_Tree() and init(): a count of 0 and a fresh header that is red,
     * with a null root and itself as leftmost and rightmost node.  The
     * header's value field is never constructed; unset stands for it.
     */
    constructor (unset: T)
      ensures Valid() && shape == Shape.Empty && nodeCount == 0
      ensures |nodes| == 1 && header == 0
      ensures nodes[header].color == Red && nodes[header].parent == Nil
      ensures nodes[header].left == To(header) && nodes[header].right == To(header)
    {
      nodes := [Rec(Red, Nil, To(0), To(0), unset)];
      header := 0;
      nodeCount := 0;
      shape := Shape.Empty;
    }

    /** root(): header.parent, the top of the tree. */
    function Root(): (r: Link)
      reads this
      requires Valid()
      ensures r == Top(shape)
      ensures r == Nil <==> shape.Empty?
    {
      nodes[header].parent
    }

    /** leftmost(): header.left, the first node in order, the header when empty. */
    function Leftmost(): (r: Link)
      reads this
      requires Valid()
      ensures r == To(Position(shape, header, 0))
      ensures shape.Node? ==> r == To(InOrder(shape)[0])
    {
      nodes[header].left
    }

    /** rightmost(): header.right, the last node in order, the header when empty. */
    function Rightmost(): (r: Link)
      reads this
      requires Valid()
      ensures r == To(Last(shape, header))
      ensures shape.Node? ==> r == To(InOrder(shape)[|InOrder(shape)| - 1])
    {
      nodes[header].right
    }

    /** begin(): an iterator at leftmost(), in-order position 0. */
    method Begin() returns (it: Iterator)
      requires Valid()
      ensures fresh(it) && it.node == To(Position(shape, header, 0))
    {
      it := new Iterator(nodes[header].left);
    }

    /** end(): an iterator at the header, the position past the last node. */
    method End() returns (it: Iterator)
      requires Valid()
      ensures fresh(it) && it.node == To(Position(shape, header, |InOrder(shape)|))
    {
      it := new Iterator(To(header));
    }

    /** empty(): the count is 0. */
    function Empty(): (b: bool)
      reads this
      ensures b <==> nodeCount == 0
    {
      nodeCount == 0
    }

    /** size(): the count. */
    function Size(): (n: nat)
      reads this
      ensures n == nodeCount
    {
      nodeCount
    }

    /** max_size(): SIZE_MAX, whatever the tree holds. */
    function MaxSize(): (n: nat)
      ensures n == SizeMax
    {
      SizeMax
    }

    /**
     * clear(): the count becomes 0; the loop that would destroy the nodes
     * is compiled out, so the nodes and the header's links stay as they were.
     */
    method Clear()
      modifies this
      ensures nodeCount == 0
      ensures nodes == old(nodes) && header == old(header) && shape == old(shape)
    {
      nodeCount := 0;
    }
  }

  /** begin() == end() exactly when the tree below the header is empty. */
  lemma BeginIsEnd<T>(tree: Tree<T>)
    requires tree.Valid()
    ensures tree.Leftmost() == To(tree.header) <==> tree.shape.Empty?
  {
  }

  /** A new tree is empty by both counts: size 0 and begin() == end(). */
  method NewTreeIsEmpty<T>(unset: T) returns (tree: Tree<T>)
    ensures tree.Valid() && tree.Empty() && tree.Size() == 0
    ensures tree.Leftmost() == To(tree.header) && tree.Rightmost() == To(tree.header)
  {
    tree := new Tree(unset);
  }
}
