/**
 * The node of the singly linked list
 * (src/3_2/myForwardList/src/include/List_Item.h): a value fixed at
 * construction and a link that setNext changes.  The std::vector
 * specialisation has the same members and is covered by the same class.
 */
module ForwardListItem {

  class MyListItem<T> {
    const value: T
    var nextItem: MyListItem?<T>

    /** MyListItem(value, next): stores both. */
    constructor (value: T, next: MyListItem?<T>)
      ensures this.value == value && nextItem == next
    {
      this.value := value;
      nextItem := next;
    }

    /** getValue(): a copy of the stored value. */
    function GetValue(): (r: T)
      ensures r == value
    {
      value
    }

    /** next(): the link. */
    function Next(): (r: MyListItem?<T>)
      reads this
      ensures r == nextItem
    {
      nextItem
    }

    /** setNext(p): changes the link only; the value is a constant. */
    method SetNext(p: MyListItem?<T>)
      modifies this
      ensures nextItem == p
    {
      nextItem := p;
    }
  }

  /** Position j of a chain of nodes, or null one past its end. */
  function At<T>(spine: seq<MyListItem<T>>, j: nat): (r: MyListItem?<T>)
    requires j <= |spine|
    ensures r == null <==> j == |spine|
  {
    if j < |spine| then spine[j] else null
  }

  /** No node occurs twice. */
  ghost predicate Distinct<T>(spine: seq<MyListItem<T>>)
  {
    forall i, j :: 0 <= i < j < |spine| ==> spine[i] != spine[j]
  }

  /** Node i links to node i + 1, the last one to null. */
  ghost predicate LinkedAt<T>(spine: seq<MyListItem<T>>, i: nat)
    requires i < |spine|
    reads spine
  {
    spine[i].nextItem == At(spine, i + 1)
  }

  /** The nodes of spine are distinct and each links to the next, the last to null. */
  ghost predicate Linked<T>(spine: seq<MyListItem<T>>)
    reads spine
  {
    Distinct(spine) && forall i :: 0 <= i < |spine| ==> LinkedAt(spine, i)
  }

  /** The values along a chain. */
  ghost function ValuesOf<T>(spine: seq<MyListItem<T>>): (r: seq<T>)
    ensures |r| == |spine| && forall i :: 0 <= i < |spine| ==> r[i] == spine[i].value
  {
    seq(|spine|, i requires 0 <= i < |spine| => spine[i].value)
  }

  lemma ValuesOfConcat<T>(a: seq<MyListItem<T>>, b: seq<MyListItem<T>>)
    ensures ValuesOf(a + b) == ValuesOf(a) + ValuesOf(b)
  {
  }

  lemma ValuesOfSlice<T>(s: seq<MyListItem<T>>, i: nat, j: nat)
    requires i <= j <= |s|
    ensures ValuesOf(s[i..j]) == ValuesOf(s)[i..j]
  {
  }

  /** Removing the node at position k keeps the others distinct. */
  lemma DistinctRemove<T>(s: seq<MyListItem<T>>, k: nat)
    requires Distinct(s) && k < |s|
    ensures Distinct(s[..k] + s[k + 1..])
  {
    var t := s[..k] + s[k + 1..];
    forall i, j | 0 <= i < j < |t| ensures t[i] != t[j] {
      var i', j' := if i < k then i else i + 1, if j < k then j else j + 1;
      assert t[i] == s[i'] && t[j] == s[j'];
    }
  }

  /** A node not in s can be placed at any position and all stay distinct. */
  lemma DistinctInsert<T>(s: seq<MyListItem<T>>, k: nat, node: MyListItem<T>)
    requires Distinct(s) && k <= |s| && node !in s
    ensures Distinct(s[..k] + [node] + s[k..])
  {
    var t := s[..k] + [node] + s[k..];
    forall i, j | 0 <= i < j < |t| ensures t[i] != t[j] {
      if i == k {
        assert t[j] == s[j - 1];
      } else if j == k {
        assert t[i] == s[i];
      } else {
        assert t[i] == s[if i < k then i else i - 1] && t[j] == s[if j < k then j else j - 1];
      }
    }
  }

  lemma ValuesOfInsert<T>(s: seq<MyListItem<T>>, k: nat, node: MyListItem<T>)
    requires k <= |s|
    ensures ValuesOf(s[..k] + [node] + s[k..]) == ValuesOf(s)[..k] + [node.value] + ValuesOf(s)[k..]
  {
  }

  lemma ValuesOfRemove<T>(s: seq<MyListItem<T>>, k: nat)
    requires k < |s|
    ensures ValuesOf(s[..k] + s[k + 1..]) == ValuesOf(s)[..k] + ValuesOf(s)[k + 1..]
  {
  }

  /** A fresh node linked to the head of a chain makes a longer chain. */
  lemma LinkedPrepend<T>(node: MyListItem<T>, s: seq<MyListItem<T>>)
    requires Linked(s) && node !in s && node.nextItem == At(s, 0)
    ensures Linked([node] + s)
  {
    var t := [node] + s;
    forall i | 0 <= i < |t| ensures LinkedAt(t, i) {
      if i > 0 {
        assert LinkedAt(s, i - 1);
      }
    }
  }

  /** A node not in a chain, linked in between positions k - 1 and k, makes a longer chain. */
  lemma LinkedInsert<T>(s: seq<MyListItem<T>>, k: nat, node: MyListItem<T>)
    requires Distinct(s) && 0 < k <= |s| && node !in s
    requires forall i :: 0 <= i < |s| && i != k - 1 ==> LinkedAt(s, i)
    requires s[k - 1].nextItem == node && node.nextItem == At(s, k)
    ensures Linked(s[..k] + [node] + s[k..])
  {
    DistinctInsert(s, k, node);
    var t := s[..k] + [node] + s[k..];
    forall i | 0 <= i < |t| ensures LinkedAt(t, i) {
      if i < k - 1 {
        assert LinkedAt(s, i);
      } else if i > k {
        assert t[i] == s[i - 1] && LinkedAt(s, i - 1);
      }
    }
  }

  /** A node not in a chain, linked after its last node and ending in null, makes a longer chain. */
  lemma LinkedAppend<T>(s: seq<MyListItem<T>>, node: MyListItem<T>)
    requires Distinct(s) && |s| > 0 && node !in s
    requires forall i :: 0 <= i < |s| - 1 ==> LinkedAt(s, i)
    requires s[|s| - 1].nextItem == node && node.nextItem == null
    ensures Linked(s + [node])
  {
    var t := s + [node];
    forall i | 0 <= i < |t| ensures LinkedAt(t, i) {
      if i < |s| - 1 {
        assert LinkedAt(s, i);
      }
    }
  }

  /** Dropping the head of a chain leaves a chain. */
  lemma LinkedDrop<T>(s: seq<MyListItem<T>>)
    requires Linked(s) && |s| > 0
    ensures Linked(s[1..])
  {
    var t := s[1..];
    forall i | 0 <= i < |t| ensures LinkedAt(t, i) {
      assert LinkedAt(s, i + 1);
    }
  }
}
