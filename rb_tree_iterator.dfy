/**
 * The red-black tree iterators (src/5_1/RB_Tree/RB_Tree_Base_Iterator.h and
 * src/5_1/RB_Tree/RB_Tree_Iterator.h).
 *
 * A tree keeps a header node beside its nodes: the header is red, its
 * parent is the root, its left and right links are the leftmost and the
 * rightmost node (the header itself when the tree is empty), and the root's
 * parent is the header.  Layout states this.  An iterator at position k of
 * the in-order sequence holds that node, and position |InOrder(t)| is the
 * header, which is end().
 */
module RBTreeIterator {
  import opened RBTreeNode

  /** The node an iterator at in-order position k holds: the header past the last one. */
  function Position(t: Shape, h: nat, k: nat): nat
    requires k <= |InOrder(t)|
  {
    if k < |InOrder(t)| then InOrder(t)[k] else h
  }

  /** The rightmost node, the header for an empty tree. */
  function Last(t: Shape, h: nat): nat
  {
    if t.Empty? then h else InOrder(t)[|InOrder(t)| - 1]
  }

  /**
   * The links of a tree with header h and shape t: the shape is held below
   * the header, no node repeats, the header is red and apart from the
   * nodes, and the root, when there is one, is black.
   */
  ghost predicate Layout<T>(nodes: seq<Rec<T>>, h: nat, t: Shape)
  {
    h < |nodes| && Holds(nodes, t, To(h)) && Distinct(InOrder(t)) && h !in InOrder(t) &&
    (forall j :: 0 <= j < |InOrder(t)| ==> InOrder(t)[j] < |nodes|) &&
    nodes[h].color == Red && nodes[h].parent == Top(t) &&
    nodes[h].left == To(Position(t, h, 0)) && nodes[h].right == To(Last(t, h)) &&
    (t.Node? ==> nodes[t.id].color == Black)
  }

  /** The links stored at the node in position k: those of its subtree, below its parent. */
  lemma {:induction false} NodeAt<T>(nodes: seq<Rec<T>>, h: nat, t: Shape, k: nat)
    requires Layout(nodes, h, t) && k < |InOrder(t)|
    ensures IsPath(t, PathTo(t, InOrder(t)[k]))
    ensures var path := PathTo(t, InOrder(t)[k]);
      Holds(nodes, path[|path| - 1], if |path| == 1 then To(h) else To(path[|path| - 2].id))
  {
    var path := PathTo(t, InOrder(t)[k]);
    PathHolds(nodes, t, To(h), path, |path| - 1);
  }

  /** A node of a subtree is a node of the tree, so it is not the header. */
  lemma RightNotHeader<T>(nodes: seq<Rec<T>>, h: nat, t: Shape)
    requires Layout(nodes, h, t) && t.Node?
    ensures Top(t.right) != To(h)
  {
    if t.right.Node? {
      PartMid(t.right);
      PartRight(t, |InOrder(t.right.left)|);
    }
  }

  /**
   * The climb of increment() from a node without a right child: up while
   * the node is its parent's right child, then to the parent unless the
   * climb ended at the header.  From the rightmost node this is the header.
   */
  method ClimbRight<T>(nodes: seq<Rec<T>>, h: nat, ghost t: Shape, ghost k: nat, x: nat) returns (r: nat)
    requires Layout(nodes, h, t) && k < |InOrder(t)| && x == InOrder(t)[k] && nodes[x].right == Nil
    ensures r == Position(t, h, k + 1)
  {
    ghost var s := InOrder(t);
    ghost var path := PathTo(t, x);
    ghost var i := |path| - 1;
    ghost var atHeader := false;
    PathLinks(nodes, t, To(h), path);
    assert LinksAt(nodes, path, To(h), i);
    PartMid(path[i]);
    if i > 0 {
      assert LinksAt(nodes, path, To(h), i - 1);
    }
    var node := x;
    var parent := nodes[x].parent.index;
    while To(node) == nodes[parent].right
      invariant parent < |nodes|
      invariant !atHeader ==> (i < |path| && node == path[i].id &&
        parent == (if i == 0 then h else path[i - 1].id) &&
        InOrder(path[i])[|InOrder(path[i])| - 1] == x)
      invariant atHeader ==> t.Node? && node == h && parent == t.id && t.right.Empty? && x == t.id
      decreases if atHeader then 0 else i + 1
    {
      assert !atHeader;
      if i == 0 {
        PartMid(t);
        DistinctIndex(s, |InOrder(t.left)|, |s| - 1);
        atHeader := true;
      } else {
        assert LinksAt(nodes, path, To(h), i - 1);
        ClimbRightStep(t, path, i);
        if i > 1 {
          assert LinksAt(nodes, path, To(h), i - 2);
        }
        i := i - 1;
      }
      node := parent;
      parent := nodes[parent].parent.index;
    }
    if atHeader {
      DistinctIndex(s, k, |s| - 1);
    } else if i == 0 {
      RightNotHeader(nodes, h, t);
      DistinctIndex(s, k, |s| - 1);
    } else {
      assert LinksAt(nodes, path, To(h), i - 1) && LinksAt(nodes, path, To(h), i);
      assert Child(path[i - 1], path[i]);
      PathDistinct(t, path, i - 1);
      RightApart(path[i - 1], path[i]);
      NextAfterLeft(t, path, i, k);
    }
    if nodes[node].right != To(parent) {
      node := parent;
    }
    r := node;
  }

  /**
   * The climb of decrement() from a node without a left child that is not
   * the first: up while the node is its parent's left child, then to the
   * parent.
   */
  method ClimbLeft<T>(nodes: seq<Rec<T>>, h: nat, ghost t: Shape, ghost k: nat, x: nat) returns (r: nat)
    requires Layout(nodes, h, t) && 0 < k < |InOrder(t)| && x == InOrder(t)[k] && nodes[x].left == Nil
    ensures r == InOrder(t)[k - 1]
  {
    ghost var s := InOrder(t);
    ghost var path := PathTo(t, x);
    ghost var i := |path| - 1;
    PathLinks(nodes, t, To(h), path);
    assert LinksAt(nodes, path, To(h), i);
    PartMid(path[i]);
    DistinctAt(s, 0, k);
    assert LinksAt(nodes, path, To(h), i - 1);
    var node := x;
    var parent := nodes[x].parent.index;
    while To(node) == nodes[parent].left
      invariant 0 < i < |path| && node == path[i].id && parent == path[i - 1].id && parent < |nodes|
      invariant InOrder(path[i])[0] == x
      decreases i
    {
      assert LinksAt(nodes, path, To(h), i - 1);
      ClimbLeftStep(t, path, i);
      assert LinksAt(nodes, path, To(h), i - 2);
      i := i - 1;
      node := parent;
      parent := nodes[parent].parent.index;
    }
    assert LinksAt(nodes, path, To(h), i - 1) && LinksAt(nodes, path, To(h), i);
    assert Child(path[i - 1], path[i]);
    PrevBeforeRight(t, path, i, k);
    r := parent;
  }

  /**
   * The test decrement() starts with: a red node whose parent's parent is
   * itself.  Of the nodes of a tree only the header passes it.
   */
  predicate HeaderTest<T>(nodes: seq<Rec<T>>, x: nat)
    requires x < |nodes| && nodes[x].parent.To? && nodes[x].parent.index < |nodes|
  {
    nodes[x].color == Red && nodes[nodes[x].parent.index].parent == To(x)
  }

  /** The header of a non-empty tree passes the test and the tree's nodes do not. */
  lemma HeaderTestAt<T>(nodes: seq<Rec<T>>, h: nat, t: Shape, k: nat)
    requires Layout(nodes, h, t) && 0 < k <= |InOrder(t)|
    ensures Position(t, h, k) < |nodes|
    ensures nodes[Position(t, h, k)].parent.To? && nodes[Position(t, h, k)].parent.index < |nodes|
    ensures HeaderTest(nodes, Position(t, h, k)) <==> k == |InOrder(t)|
  {
    var s := InOrder(t);
    if k < |s| {
      NodeAt(nodes, h, t, k);
      var path := PathTo(t, s[k]);
      var i := |path| - 1;
      if i > 1 {
        PathHolds(nodes, t, To(h), path, i - 1);
        PathDistinct(t, path, i - 2);
        AncestorApart(path[i - 2], path[i - 1], path[i]);
      } else if i == 1 {
        PathHolds(nodes, t, To(h), path, i - 1);
      }
    }
  }

  /** An iterator: the node it is at, nullptr for one made by default. */
  class Iterator {
    var node: Link

    /** RBTree_Iterator() holds nullptr and RBTree_Iterator(node) holds node. */
    constructor (n: Link)
      ensures node == n
    {
      node := n;
    }

    /** The copy constructor holds the same node. */
    constructor Copy(other: Iterator)
      ensures node == other.node
    {
      node := other.node;
    }

    /** operator* and operator->: the value field of the node held. */
    function Deref<T>(nodes: seq<Rec<T>>): (v: T)
      reads this
      requires node.To? && node.index < |nodes|
      ensures v == nodes[node.index].valueField
    {
      nodes[node.index].valueField
    }

    /**
     * increment(), and prefix operator++ which calls it: from position k
     * to position k + 1, the header after the last node.
     */
    method Increment<T>(nodes: seq<Rec<T>>, h: nat, ghost t: Shape, ghost k: nat)
      requires Layout(nodes, h, t) && k < |InOrder(t)| && node == To(InOrder(t)[k])
      modifies this
      ensures node == To(Position(t, h, k + 1))
    {
      var x := node.index;
      NodeAt(nodes, h, t, k);
      if nodes[x].right != Nil {
        ghost var path := PathTo(t, x);
        NextInRight(t, path, k);
        x := MinValue(nodes, nodes[x].right.index, path[|path| - 1].right, To(x));
      } else {
        x := ClimbRight(nodes, h, t, k, x);
      }
      node := To(x);
    }

    /**
     * decrement() as intended, and prefix operator--: from position k to
     * position k - 1; from the header to the rightmost node.
     */
    method Decrement<T>(nodes: seq<Rec<T>>, h: nat, ghost t: Shape, ghost k: nat)
      requires Layout(nodes, h, t) && 0 < k <= |InOrder(t)| && node == To(Position(t, h, k))
      modifies this
      ensures node == To(InOrder(t)[k - 1])
    {
      var x := node.index;
      HeaderTestAt(nodes, h, t, k);
      if HeaderTest(nodes, x) {
        x := nodes[x].right.index;
      } else {
        NodeAt(nodes, h, t, k);
        if nodes[x].left != Nil {
          ghost var path := PathTo(t, x);
          PrevInLeft(t, path, k);
          x := MaxValue(nodes, nodes[x].left.index, path[|path| - 1].left, To(x));
        } else {
          x := ClimbLeft(nodes, h, t, k, x);
        }
      }
      node := To(x);
    }

    /**
     * decrement() as written: with a left child the walk to the rightmost
     * node of the left subtree is never stored back, so the iterator stays
     * where it is.
     */
    method DecrementAsWritten<T>(nodes: seq<Rec<T>>, h: nat, ghost t: Shape, ghost k: nat)
      requires Layout(nodes, h, t) && 0 < k <= |InOrder(t)| && node == To(Position(t, h, k))
      modifies this
      ensures k < |InOrder(t)| && nodes[InOrder(t)[k]].left != Nil ==> node == old(node)
      ensures k == |InOrder(t)| || nodes[InOrder(t)[k]].left == Nil ==> node == To(InOrder(t)[k - 1])
    {
      var x := node.index;
      HeaderTestAt(nodes, h, t, k);
      if HeaderTest(nodes, x) {
        node := nodes[x].right;
      } else {
        NodeAt(nodes, h, t, k);
        if nodes[x].left != Nil {
          ghost var path := PathTo(t, x);
          var tempLeft := MaxValue(nodes, nodes[x].left.index, path[|path| - 1].left, To(x));
        } else {
          x := ClimbLeft(nodes, h, t, k, x);
          node := To(x);
        }
      }
    }

    /** Postfix operator++: the copy made before the increment. */
    method PostIncrement<T>(nodes: seq<Rec<T>>, h: nat, ghost t: Shape, ghost k: nat) returns (before: Iterator)
      requires Layout(nodes, h, t) && k < |InOrder(t)| && node == To(InOrder(t)[k])
      modifies this
      ensures fresh(before) && before.node == To(InOrder(t)[k])
      ensures node == To(Position(t, h, k + 1))
    {
      before := new Iterator.Copy(this);
      Increment(nodes, h, t, k);
    }

    /** Postfix operator--: the copy made before the decrement. */
    method PostDecrement<T>(nodes: seq<Rec<T>>, h: nat, ghost t: Shape, ghost k: nat) returns (before: Iterator)
      requires Layout(nodes, h, t) && 0 < k <= |InOrder(t)| && node == To(Position(t, h, k))
      modifies this
      ensures fresh(before) && before.node == To(Position(t, h, k))
      ensures node == To(InOrder(t)[k - 1])
    {
      before := new Iterator.Copy(this);
      Decrement(nodes, h, t, k);
    }
  }

  /** ++ then -- comes back to the node it started from, here and at the header alike. */
  method IncrementThenDecrement<T>(it: Iterator, nodes: seq<Rec<T>>, h: nat, ghost t: Shape, ghost k: nat)
    requires Layout(nodes, h, t) && k < |InOrder(t)| && it.node == To(InOrder(t)[k])
    modifies it
    ensures it.node == old(it.node)
  {
    it.Increment(nodes, h, t, k);
    it.Decrement(nodes, h, t, k + 1);
  }

  /**
   * A walk from begin() to end() with ++ visits the tree's nodes in their
   * in-order sequence, each once.
   */
  method Traverse<T>(nodes: seq<Rec<T>>, h: nat, ghost t: Shape) returns (visited: seq<nat>)
    requires Layout(nodes, h, t)
    ensures visited == InOrder(t)
  {
    var it := new Iterator(nodes[h].left);
    visited := [];
    ghost var k := 0;
    while it.node != To(h)
      invariant k <= |InOrder(t)| && it.node == To(Position(t, h, k))
      invariant visited == InOrder(t)[..k]
      decreases |InOrder(t)| - k
    {
      assert k < |InOrder(t)|;
      visited := visited + [it.node.index];
      it.Increment(nodes, h, t, k);
      k := k + 1;
    }
    assert k == |InOrder(t)|;
  }

  /**
   * decrement() as written on a root 1 whose left child is 2, header 0:
   * from the root it stays at the root, where the predecessor is node 2.
   */
  method DecrementAsWrittenExample() returns (asWritten: Link, intended: Link)
    ensures asWritten == To(1) && intended == To(2)
  {
    var nodes := [Rec(Red, To(1), To(2), To(1), 0), Rec(Black, To(0), To(2), Nil, 0), Rec(Red, To(1), Nil, Nil, 0)];
    ghost var t := Node(Node(Empty, 2, Empty), 1, Empty);
    assert InOrder(t) == [2, 1];
    var it := new Iterator(To(1));
    it.DecrementAsWritten(nodes, 0, t, 1);
    asWritten := it.node;
    var jt := new Iterator(To(1));
    jt.Decrement(nodes, 0, t, 1);
    intended := jt.node;
  }
}
