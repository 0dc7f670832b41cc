/**
 * The red-black tree node (src/5_1/RB_Tree/RB_Tree_Node.h).
 *
 * Nodes live in a store, a sequence of records, and a link is either
 * nullptr or the index of a record.  The ghost datatype Shape names the
 * tree a set of records forms; Holds says the parent, left and right links
 * of the records are exactly those of the shape.  The in-order sequence of
 * a shape is the order the tree's iterators visit its nodes in.
 */
module RBTreeNode {

  /** RB_TREE_RED and RB_TREE_BLACK. */
  const Red: bool := false
  const Black: bool := true

  /** A node pointer: nullptr or the index of a node in the store. */
  datatype Link = Nil | To(index: nat)

  /** RBTree_Node<Type>: the base's colour and three links, and value_field. */
  datatype Rec<T> = Rec(color: bool, parent: Link, left: Link, right: Link, valueField: T)

  /** The shape of a subtree, each node named by its index in the store. */
  datatype Shape = Empty | Node(left: Shape, id: nat, right: Shape)

  /** The link to the top node of a shape. */
  function Top(t: Shape): Link
  {
    if t.Empty? then Nil else To(t.id)
  }

  /** The nodes of a shape, left subtree first, then the node, then the right subtree. */
  function InOrder(t: Shape): (s: seq<nat>)
    ensures t.Node? ==> |s| > 0
  {
    match t
    case Empty => []
    case Node(l, id, r) => InOrder(l) + [id] + InOrder(r)
  }

  /** The links stored for the nodes of t are those of t, and t's top has parent up. */
  ghost predicate Holds<T>(nodes: seq<Rec<T>>, t: Shape, up: Link)
    decreases t
  {
    t.Node? ==>
      t.id < |nodes| && nodes[t.id].parent == up &&
      nodes[t.id].left == Top(t.left) && nodes[t.id].right == Top(t.right) &&
      Holds(nodes, t.left, To(t.id)) && Holds(nodes, t.right, To(t.id))
  }

  ghost predicate Distinct(s: seq<nat>)
  {
    forall i, j :: 0 <= i < j < |s| ==> s[i] != s[j]
  }

  /**
   * min_value(node): follows left links while there is a left child.  For
   * the top of a subtree this is the first node of its in-order sequence,
   * the smallest under the tree's ordering.
   */
  method MinValue<T>(nodes: seq<Rec<T>>, x: nat, ghost t: Shape, ghost up: Link) returns (r: nat)
    requires Holds(nodes, t, up) && Top(t) == To(x)
    ensures r == InOrder(t)[0] && r < |nodes| && nodes[r].left == Nil
  {
    r := x;
    ghost var u, above := t, up;
    while nodes[r].left != Nil
      invariant Holds(nodes, u, above) && Top(u) == To(r)
      invariant InOrder(u)[0] == InOrder(t)[0]
      decreases u
    {
      r := nodes[r].left.index;
      above := To(u.id);
      u := u.left;
    }
  }

  /**
   * max_value(node): follows right links while there is a right child; the
   * last node of the subtree's in-order sequence, the largest.
   */
  method MaxValue<T>(nodes: seq<Rec<T>>, x: nat, ghost t: Shape, ghost up: Link) returns (r: nat)
    requires Holds(nodes, t, up) && Top(t) == To(x)
    ensures r == InOrder(t)[|InOrder(t)| - 1] && r < |nodes| && nodes[r].right == Nil
  {
    r := x;
    ghost var u, above := t, up;
    while nodes[r].right != Nil
      invariant Holds(nodes, u, above) && Top(u) == To(r)
      invariant InOrder(u)[|InOrder(u)| - 1] == InOrder(t)[|InOrder(t)| - 1]
      decreases u
    {
      r := nodes[r].right.index;
      above := To(u.id);
      u := u.right;
    }
  }

  /** c is the left or the right subtree of p. */
  ghost predicate Child(p: Shape, c: Shape)
  {
    p.Node? && (c == p.left || c == p.right)
  }

  /** Nodes, each a subtree of the one before it. */
  ghost predicate Descending(path: seq<Shape>)
  {
    (forall i :: 0 <= i < |path| ==> path[i].Node?) &&
    forall i :: 0 < i < |path| ==> Child(path[i - 1], path[i])
  }

  /** A path of subtrees from t down to a node. */
  ghost predicate IsPath(t: Shape, path: seq<Shape>)
  {
    |path| > 0 && path[0] == t && Descending(path)
  }

  /** The path from t down to node x. */
  ghost function PathTo(t: Shape, x: nat): (path: seq<Shape>)
    requires x in InOrder(t)
    ensures IsPath(t, path) && path[|path| - 1].id == x
    decreases t
  {
    if t.id == x then [t]
    else if x in InOrder(t.left) then
      var p := PathTo(t.left, x);
      assert forall i :: 1 < i < |[t] + p| ==> ([t] + p)[i] == p[i - 1];
      [t] + p
    else
      var p := PathTo(t.right, x);
      assert forall i :: 1 < i < |[t] + p| ==> ([t] + p)[i] == p[i - 1];
      [t] + p
  }

  /** Where the in-order sequence of path[i] starts inside that of path[0]. */
  ghost function Offset(path: seq<Shape>, i: nat): nat
    requires i < |path| && Descending(path)
  {
    if i == 0 then 0
    else if path[i] == path[i - 1].left then Offset(path, i - 1)
    else Offset(path, i - 1) + |InOrder(path[i - 1].left)| + 1
  }

  /** The length of a node's in-order sequence, and where its own node sits in it. */
  lemma PartMid(t: Shape)
    requires t.Node?
    ensures |InOrder(t)| == |InOrder(t.left)| + 1 + |InOrder(t.right)|
    ensures InOrder(t)[|InOrder(t.left)|] == t.id
  {
  }

  /** The in-order sequence of a node starts with that of its left subtree. */
  lemma PartLeft(t: Shape, j: nat)
    requires t.Node? && j < |InOrder(t.left)|
    ensures j < |InOrder(t)| && InOrder(t)[j] == InOrder(t.left)[j]
  {
  }

  /** The in-order sequence of a node ends with that of its right subtree. */
  lemma PartRight(t: Shape, j: nat)
    requires t.Node? && j < |InOrder(t.right)|
    ensures |InOrder(t.left)| + 1 + j < |InOrder(t)|
    ensures InOrder(t)[|InOrder(t.left)| + 1 + j] == InOrder(t.right)[j]
  {
  }

  /**
   * The in-order sequence of a subtree on a path is a contiguous part of the
   * whole one, starting at Offset.
   */
  lemma {:induction false} Slice(t: Shape, path: seq<Shape>, i: nat, j: nat)
    requires IsPath(t, path) && i < |path| && j < |InOrder(path[i])|
    ensures Offset(path, i) + j < |InOrder(t)|
    ensures InOrder(t)[Offset(path, i) + j] == InOrder(path[i])[j]
  {
    if i > 0 {
      var p := path[i - 1];
      if path[i] == p.left {
        PartLeft(p, j);
        Slice(t, path, i - 1, j);
      } else {
        PartRight(p, j);
        Slice(t, path, i - 1, |InOrder(p.left)| + 1 + j);
      }
    }
  }

  /** Every subtree on a path is held, with the node above it as parent. */
  lemma {:induction false} PathHolds<T>(nodes: seq<Rec<T>>, t: Shape, up: Link, path: seq<Shape>, i: nat)
    requires Holds(nodes, t, up) && IsPath(t, path) && i < |path|
    ensures Holds(nodes, path[i], if i == 0 then up else To(path[i - 1].id))
  {
    if i > 0 {
      PathHolds(nodes, t, up, path, i - 1);
    }
  }

  /** The links stored at the node of path[i]: those of its subtree, below the node above it. */
  ghost predicate LinksAt<T>(nodes: seq<Rec<T>>, path: seq<Shape>, up: Link, i: nat)
    requires i < |path| && Descending(path)
  {
    path[i].id < |nodes| &&
    nodes[path[i].id].parent == (if i == 0 then up else To(path[i - 1].id)) &&
    nodes[path[i].id].left == Top(path[i].left) && nodes[path[i].id].right == Top(path[i].right)
  }

  /** Along a path of a held tree every node stores the links of the path. */
  lemma PathLinks<T>(nodes: seq<Rec<T>>, t: Shape, up: Link, path: seq<Shape>)
    requires Holds(nodes, t, up) && IsPath(t, path)
    ensures forall i :: 0 <= i < |path| ==> LinksAt(nodes, path, up, i)
  {
    forall i | 0 <= i < |path| ensures LinksAt(nodes, path, up, i) {
      PathHolds(nodes, t, up, path, i);
    }
  }

  /** In a sequence without repetitions an element sits at one index only. */
  lemma DistinctIndex(s: seq<nat>, j: nat, l: nat)
    requires Distinct(s) && j < |s| && l < |s| && s[j] == s[l]
    ensures j == l
  {
  }

  /** In a sequence without repetitions two indices hold different elements. */
  lemma DistinctAt(s: seq<nat>, j: nat, l: nat)
    requires Distinct(s) && j < |s| && l < |s| && j != l
    ensures s[j] != s[l]
  {
    if j > l {
      assert s[l] != s[j];
    }
  }

  /** The subtrees on a path have distinct in-order sequences when the whole one is. */
  lemma PathDistinct(t: Shape, path: seq<Shape>, i: nat)
    requires IsPath(t, path) && i < |path| && Distinct(InOrder(t))
    ensures Distinct(InOrder(path[i]))
  {
    forall j, l | 0 <= j < l < |InOrder(path[i])| ensures InOrder(path[i])[j] != InOrder(path[i])[l] {
      Slice(t, path, i, j);
      Slice(t, path, i, l);
      DistinctAt(InOrder(t), Offset(path, i) + j, Offset(path, i) + l);
    }
  }

  /**
   * Which side of p the child c is can be read off the links: its top is
   * p's right link exactly when it is the right subtree, and likewise left.
   */
  lemma ChildSide(p: Shape, c: Shape)
    requires Child(p, c) && c.Node? && Distinct(InOrder(p))
    ensures Top(c) == Top(p.right) <==> c == p.right
    ensures Top(c) == Top(p.left) <==> c == p.left
  {
    if p.left.Node? && p.right.Node? {
      PartMid(p.left);
      PartMid(p.right);
      PartLeft(p, |InOrder(p.left.left)|);
      PartRight(p, |InOrder(p.right.left)|);
      DistinctAt(InOrder(p), |InOrder(p.left.left)|, |InOrder(p.left)| + 1 + |InOrder(p.right.left)|);
    }
  }

  /** The top of c's right subtree is not c's parent p. */
  lemma RightApart(p: Shape, c: Shape)
    requires p.Node? && c == p.left && c.Node? && Distinct(InOrder(p))
    ensures Top(c.right) != To(p.id)
  {
    if c.right.Node? {
      PartMid(c.right);
      PartMid(c);
      PartMid(p);
      PartRight(c, |InOrder(c.right.left)|);
      var q := |InOrder(c.left)| + 1 + |InOrder(c.right.left)|;
      PartLeft(p, q);
      DistinctAt(InOrder(p), q, |InOrder(p.left)|);
    }
  }

  /** The top of c's left subtree is not c's parent p. */
  lemma LeftApart(p: Shape, c: Shape)
    requires p.Node? && c == p.right && c.Node? && Distinct(InOrder(p))
    ensures Top(c.left) != To(p.id)
  {
    if c.left.Node? {
      PartMid(c.left);
      PartMid(p);
      PartLeft(c, |InOrder(c.left.left)|);
      var q := |InOrder(c.left.left)|;
      PartRight(p, q);
      DistinctAt(InOrder(p), |InOrder(p.left)| + 1 + q, |InOrder(p.left)|);
    }
  }

  /** A grandchild's node is not the grandparent's. */
  lemma AncestorApart(g: Shape, p: Shape, c: Shape)
    requires Child(g, p) && Child(p, c) && c.Node? && Distinct(InOrder(g))
    ensures g.id != c.id
  {
    PartMid(c);
    PartMid(g);
    var q;
    if c == p.left {
      q := |InOrder(c.left)|;
      PartLeft(p, q);
    } else {
      q := |InOrder(p.left)| + 1 + |InOrder(c.left)|;
      PartRight(p, |InOrder(c.left)|);
    }
    var m;
    if p == g.left {
      m := q;
      PartLeft(g, q);
    } else {
      m := |InOrder(g.left)| + 1 + q;
      PartRight(g, q);
    }
    DistinctAt(InOrder(g), m, |InOrder(g.left)|);
  }

  /**
   * When path[i] is the left subtree of path[i - 1], the node after the
   * last one of path[i] is path[i - 1]'s node.
   */
  lemma NextAfterLeft(t: Shape, path: seq<Shape>, i: nat, k: nat)
    requires IsPath(t, path) && 0 < i < |path| && path[i] == path[i - 1].left
    requires Distinct(InOrder(t)) && k < |InOrder(t)|
    requires InOrder(t)[k] == InOrder(path[i])[|InOrder(path[i])| - 1]
    ensures k + 1 < |InOrder(t)| && InOrder(t)[k + 1] == path[i - 1].id
  {
    var p := path[i - 1];
    var n := |InOrder(path[i])|;
    PartMid(p);
    PartLeft(p, n - 1);
    Slice(t, path, i - 1, n - 1);
    Slice(t, path, i - 1, n);
    DistinctIndex(InOrder(t), k, Offset(path, i - 1) + n - 1);
  }

  /**
   * When path[i] is the right subtree of path[i - 1], the node before the
   * first one of path[i] is path[i - 1]'s node.
   */
  lemma PrevBeforeRight(t: Shape, path: seq<Shape>, i: nat, k: nat)
    requires IsPath(t, path) && 0 < i < |path| && path[i] == path[i - 1].right
    requires Distinct(InOrder(t)) && k < |InOrder(t)|
    requires InOrder(t)[k] == InOrder(path[i])[0]
    ensures k > 0 && InOrder(t)[k - 1] == path[i - 1].id
  {
    var p := path[i - 1];
    var m := |InOrder(p.left)|;
    PartMid(p);
    PartRight(p, 0);
    Slice(t, path, i - 1, m);
    Slice(t, path, i - 1, m + 1);
    DistinctIndex(InOrder(t), k, Offset(path, i - 1) + m + 1);
  }

  /** A node with a right subtree is followed by the first node of that subtree. */
  lemma NextInRight(t: Shape, path: seq<Shape>, k: nat)
    requires IsPath(t, path) && path[|path| - 1].right.Node?
    requires Distinct(InOrder(t)) && k < |InOrder(t)| && InOrder(t)[k] == path[|path| - 1].id
    ensures k + 1 < |InOrder(t)| && InOrder(t)[k + 1] == InOrder(path[|path| - 1].right)[0]
  {
    var i := |path| - 1;
    var x := path[i];
    var m := |InOrder(x.left)|;
    PartMid(x);
    PartRight(x, 0);
    Slice(t, path, i, m);
    Slice(t, path, i, m + 1);
    DistinctIndex(InOrder(t), k, Offset(path, i) + m);
  }

  /** A node with a left subtree is preceded by the last node of that subtree. */
  lemma PrevInLeft(t: Shape, path: seq<Shape>, k: nat)
    requires IsPath(t, path) && path[|path| - 1].left.Node?
    requires Distinct(InOrder(t)) && k < |InOrder(t)| && InOrder(t)[k] == path[|path| - 1].id
    ensures k > 0 && InOrder(t)[k - 1] == InOrder(path[|path| - 1].left)[|InOrder(path[|path| - 1].left)| - 1]
  {
    var i := |path| - 1;
    var x := path[i];
    var m := |InOrder(x.left)|;
    PartMid(x);
    PartLeft(x, m - 1);
    Slice(t, path, i, m);
    Slice(t, path, i, m - 1);
    DistinctIndex(InOrder(t), k, Offset(path, i) + m);
  }

  /**
   * One step of increment()'s climb: when path[i] is the right subtree of
   * path[i - 1], the two end with the same node.
   */
  lemma ClimbRightStep(t: Shape, path: seq<Shape>, i: nat)
    requires IsPath(t, path) && 0 < i < |path| && Distinct(InOrder(t))
    requires Top(path[i]) == Top(path[i - 1].right)
    ensures path[i] == path[i - 1].right
    ensures InOrder(path[i - 1])[|InOrder(path[i - 1])| - 1] == InOrder(path[i])[|InOrder(path[i])| - 1]
  {
    PathDistinct(t, path, i - 1);
    ChildSide(path[i - 1], path[i]);
    PartMid(path[i - 1]);
    PartRight(path[i - 1], |InOrder(path[i])| - 1);
  }

  /**
   * One step of decrement()'s climb: when path[i] is the left subtree of
   * path[i - 1], the two start with the same node.
   */
  lemma ClimbLeftStep(t: Shape, path: seq<Shape>, i: nat)
    requires IsPath(t, path) && 0 < i < |path| && Distinct(InOrder(t))
    requires Top(path[i]) == Top(path[i - 1].left)
    ensures path[i] == path[i - 1].left
    ensures InOrder(path[i - 1])[0] == InOrder(path[i])[0]
  {
    PathDistinct(t, path, i - 1);
    ChildSide(path[i - 1], path[i]);
    PartLeft(path[i - 1], 0);
  }
}
