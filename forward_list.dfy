/**
 * The singly linked list MyForwardList
 * (src/3_2/myForwardList/src/My_Forward_List.cpp and
 * src/3_2/myForwardList/src/include/My_Forward_List.h).
 *
 * The list keeps its first node `front` (__front), its last node `tail`
 * (__end) and the count nodeNumber.  The ghost field `spine` lists the
 * linked nodes in order; Valid() says the pointers and the count agree with
 * it.  Iterators are node pointers here: begin() is the first node and
 * end(), tail->next(), is null.
 */
module ForwardList {
  import opened Wrappers
  import opened ForwardListItem

  /** What deleteFront and deleteEnd throw on an empty list: std::length_error. */
  datatype ListError = LengthError

  class MyForwardList<T> {
    var front: MyListItem?<T>
    var tail: MyListItem?<T>
    var nodeNumber: nat
    ghost var spine: seq<MyListItem<T>>

    ghost predicate Valid()
      reads this, spine
    {
      nodeNumber == |spine| && Linked(spine) &&
      front == (if |spine| == 0 then null else spine[0]) &&
      tail == (if |spine| == 0 then null else spine[|spine| - 1])
    }

    /** The values of the list, first to last. */
    ghost function Values(): seq<T>
      reads this
    {
      ValuesOf(spine)
    }

    /** The default constructor: null head and tail, no nodes. */
    constructor ()
      ensures Valid() && spine == [] && front == null && tail == null && nodeNumber == 0
    {
      front, tail, nodeNumber := null, null, 0;
      spine := [];
    }

    /** begin(): the first node. */
    function Begin(): (r: MyListItem?<T>)
      reads this, spine
      requires Valid()
      ensures r == At(spine, 0)
    {
      front
    }

    /** end(): the tail's next, which dereferences the tail and is null past it. */
    function End(): (r: MyListItem?<T>)
      reads this, spine
      requires Valid() && tail != null
      ensures r == At(spine, |spine|)
    {
      assert LinkedAt(spine, |spine| - 1);
      tail.nextItem
    }

    /** size(): nodeNumber, which is the number of elements. */
    function Size(): (r: nat)
      reads this, spine
      requires Valid()
      ensures r == |Values()|
    {
      nodeNumber
    }

    /** insertFront(value): the new node becomes the head, and the tail too on an empty list. */
    method InsertFront(value: T)
      requires Valid()
      modifies this
      ensures Valid() && |spine| == |old(spine)| + 1 && fresh(spine[0]) && spine == [spine[0]] + old(spine)
      ensures spine[0].value == value && Values() == [value] + old(Values())
      ensures old(|spine|) == 0 ==> front == tail
    {
      var node := new MyListItem(value, front);
      LinkedPrepend(node, spine);
      ValuesOfConcat([node], spine);
      if front == null {
        front, tail := node, node;
      } else {
        front := node;
      }
      nodeNumber := nodeNumber + 1;
      spine := [node] + spine;
    }

    /** insertEnd(value): the new node is linked after the tail and becomes the tail. */
    method InsertEnd(value: T)
      requires Valid()
      modifies this, spine
      ensures Valid() && |spine| == |old(spine)| + 1 && fresh(spine[|spine| - 1])
      ensures spine == old(spine) + [spine[|spine| - 1]]
      ensures spine[|spine| - 1].value == value && Values() == old(Values()) + [value]
    {
      var node := new MyListItem(value, null);
      ghost var s := spine;
      ValuesOfConcat(s, [node]);
      if front == null {
        front := node;
      } else if tail != null {
        tail.SetNext(node);
      }
      tail := node;
      nodeNumber := nodeNumber + 1;
      spine := s + [node];
      forall i | 0 <= i < |spine| ensures LinkedAt(spine, i) {
        if i + 1 < |s| {
          assert old(LinkedAt(s, i)) && s[i] != s[|s| - 1];
        }
      }
    }

    /** deleteFront(): length_error on an empty list, else the head's successor becomes the head. */
    method DeleteFront() returns (r: Result<(), ListError>)
      requires Valid()
      modifies this
      ensures Valid()
      ensures old(|spine|) == 0 ==> r == Err(LengthError) && spine == old(spine)
      ensures old(|spine|) > 0 ==> r == Ok(()) && spine == old(spine)[1..]
      ensures old(|spine|) > 0 ==> Values() == old(Values())[1..]
    {
      if front == null {
        return Err(LengthError);
      } else if front == tail {
        front, tail := null, null;
      } else {
        assert LinkedAt(spine, 0);
        front := front.nextItem;
      }
      LinkedDrop(spine);
      ValuesOfSlice(spine, 1, |spine|);
      nodeNumber := nodeNumber - 1;
      spine := spine[1..];
      r := Ok(());
    }

    /**
     * deleteEnd(): length_error on an empty list; else the node before the
     * tail is found by walking from the head and becomes the tail.
     */
    method DeleteEnd() returns (r: Result<(), ListError>)
      requires Valid()
      modifies this, spine
      ensures Valid()
      ensures old(|spine|) == 0 ==> r == Err(LengthError) && spine == old(spine)
      ensures old(|spine|) > 0 ==> r == Ok(()) && spine == old(spine)[..old(|spine|) - 1]
      ensures old(|spine|) > 0 ==> Values() == old(Values())[..old(|spine|) - 1]
    {
      if front == null {
        return Err(LengthError);
      } else if front == tail {
        front, tail := null, null;
        spine := [];
      } else {
        var temp := front;
        ghost var k := 0;
        while temp.nextItem != tail
          invariant 0 <= k <= |spine| - 2 && temp == spine[k]
          decreases |spine| - k
        {
          assert LinkedAt(spine, k);
          temp := temp.nextItem;
          k := k + 1;
        }
        assert LinkedAt(spine, k);
        ghost var s := spine;
        tail := temp;
        temp.SetNext(null);
        spine := s[..|s| - 1];
        forall i | 0 <= i < |spine| ensures LinkedAt(spine, i) {
          if i < k {
            assert old(LinkedAt(s, i)) && s[i] != s[k];
          }
        }
        ValuesOfSlice(s, 0, |s| - 1);
      }
      nodeNumber := nodeNumber - 1;
      r := Ok(());
    }

    /** Finds the node before target, which is at position k > 0, by walking from the head. */
    method FindBefore(target: MyListItem<T>, ghost k: nat) returns (before: MyListItem<T>)
      requires Valid() && 0 < k < |spine| && target == spine[k]
      ensures before == spine[k - 1]
    {
      before := front;
      var current := before;
      ghost var j := 0;
      while current != target
        invariant 0 <= j <= k && current == spine[j]
        invariant before == spine[if j == 0 then 0 else j - 1]
        decreases k - j
      {
        assert LinkedAt(spine, j);
        before := current;
        current := current.nextItem;
        j := j + 1;
      }
    }

    /** insertBetween(before, target, value): a new node linked between the two. */
    method InsertBetween(before: MyListItem<T>, target: MyListItem<T>, value: T, ghost k: nat)
      requires Valid() && 0 < k < |spine| && before == spine[k - 1] && target == spine[k]
      modifies this, before
      ensures Valid() && |spine| == |old(spine)| + 1 && fresh(spine[k]) && spine[k].value == value
      ensures spine == old(spine)[..k] + [spine[k]] + old(spine)[k..]
      ensures Values() == old(Values())[..k] + [value] + old(Values())[k..]
    {
      ghost var s := spine;
      var node := new MyListItem(value, null);
      before.SetNext(node);
      node.SetNext(target);
      nodeNumber := nodeNumber + 1;
      spine := s[..k] + [node] + s[k..];
      forall i | 0 <= i < |s| && i != k - 1 ensures LinkedAt(s, i) {
        assert old(LinkedAt(s, i)) && s[i] != s[k - 1];
      }
      LinkedInsert(s, k, node);
      ValuesOfInsert(s, k, node);
    }

    /**
     * insert(value, target), target being the node at position k (null for
     * end()): at the head by insertFront, at end() by insertEnd, otherwise
     * linked just before target.  It returns true.
     */
    method Insert(value: T, target: MyListItem?<T>, ghost k: nat) returns (inserted: bool)
      requires Valid() && k <= |spine| && target == At(spine, k)
      modifies this, spine
      ensures Valid() && inserted
      ensures Values() == old(Values())[..k] + [value] + old(Values())[k..]
      ensures |spine| == old(|spine|) + 1 && fresh(spine[k])
      ensures spine == old(spine)[..k] + [spine[k]] + old(spine)[k..]
    {
      ghost var s := spine;
      if target == front {
        assert k == 0 by {
          assert |s| > 0 ==> s[0] == front;
        }
        InsertFront(value);
        assert s[..k] == [] && s[k..] == s;
      } else if target == End() {
        InsertEnd(value);
        assert s[k..] == [] && s[..k] == s;
      } else {
        var before := FindBefore(target, k);
        InsertBetween(before, target, value, k);
      }
      ValuesOfInsert(s, k, spine[k]);
      inserted := true;
    }

    /** deleteBetween(before, target), the corrected form: unlinks target and keeps the tail. */
    method DeleteBetween(before: MyListItem<T>, target: MyListItem<T>, ghost k: nat)
      requires Valid() && 0 < k < |spine| && before == spine[k - 1] && target == spine[k]
      modifies this, before
      ensures Valid() && spine == old(spine)[..k] + old(spine)[k + 1..]
      ensures Values() == old(Values())[..k] + old(Values())[k + 1..]
    {
      ghost var s := spine;
      assert LinkedAt(s, k);
      before.SetNext(target.nextItem);
      if target == tail {
        tail := before;
      }
      nodeNumber := nodeNumber - 1;
      spine := s[..k] + s[k + 1..];
      DistinctRemove(s, k);
      forall i | 0 <= i < |spine| ensures LinkedAt(spine, i) {
        if i < k - 1 {
          assert old(LinkedAt(s, i)) && s[i] != s[k - 1];
        } else if i >= k {
          assert spine[i] == s[i + 1];
          assert old(LinkedAt(s, i + 1)) && s[i + 1] != s[k - 1];
        }
      }
      ValuesOfRemove(s, k);
    }

    /**
     * erase(target), target being the node at position k (null for end()):
     * the head by deleteFront, end() by deleteEnd, which removes the LAST
     * element, otherwise target is unlinked; length_error on an empty list.
     * Unlike the source, unlinking the tail node moves the tail back.
     */
    method Erase(target: MyListItem?<T>, ghost k: nat) returns (r: Result<(), ListError>)
      requires Valid() && k <= |spine| && target == At(spine, k)
      modifies this, spine
      ensures Valid()
      ensures old(|spine|) == 0 ==> r == Err(LengthError) && spine == old(spine)
      ensures old(|spine|) > 0 ==> r == Ok(())
      ensures 0 < old(|spine|) == k ==> Values() == old(Values())[..k - 1]
      ensures k < old(|spine|) ==> Values() == old(Values())[..k] + old(Values())[k + 1..]
    {
      if target == front {
        r := DeleteFront();
      } else if target == End() {
        r := DeleteEnd();
      } else {
        var before := FindBefore(target, k);
        DeleteBetween(before, target, k);
        r := Ok(());
      }
    }

    /**
     * erase(target) as the source writes it for a target past the head:
     * deleteBetween relinks the predecessor but never touches __end, so
     * erasing the tail node this way leaves the tail pointer at the removed
     * node and the list no longer valid.
     */
    method EraseBetweenAsWritten(target: MyListItem<T>, ghost k: nat)
      requires Valid() && 0 < k < |spine| && target == spine[k]
      modifies this, spine
      ensures spine == old(spine)[..k] + old(spine)[k + 1..] && tail == old(tail)
      ensures k == old(|spine|) - 1 ==> !Valid()
    {
      var before := FindBefore(target, k);
      before.SetNext(target.nextItem);
      nodeNumber := nodeNumber - 1;
      spine := spine[..k] + spine[k + 1..];
      if k == old(|spine|) - 1 {
        assert tail == old(spine)[k] && tail != spine[|spine| - 1];
      }
    }

    /** swap(other): exchanges head, tail and count. */
    method Swap(other: MyForwardList<T>)
      modifies this, other
      ensures front == old(other.front) && tail == old(other.tail)
      ensures nodeNumber == old(other.nodeNumber) && spine == old(other.spine)
      ensures other.front == old(front) && other.tail == old(tail)
      ensures other.nodeNumber == old(nodeNumber) && other.spine == old(spine)
    {
      var tempFront, tempTail, tempNumber := front, tail, nodeNumber;
      ghost var tempSpine := spine;
      front, tail, nodeNumber, spine := other.front, other.tail, other.nodeNumber, other.spine;
      other.front, other.tail, other.nodeNumber, other.spine := tempFront, tempTail, tempNumber, tempSpine;
    }

    /**
     * operator=(&&): takes other's nodes and leaves it empty; the nodes this
     * list held are not freed.  Moving a list into itself empties it.
     */
    method MoveAssign(other: MyForwardList<T>)
      modifies this, other
      ensures other.front == null && other.tail == null && other.nodeNumber == 0 && other.spine == []
      ensures this != other ==> front == old(other.front) && tail == old(other.tail)
      ensures this != other ==> nodeNumber == old(other.nodeNumber) && spine == old(other.spine)
    {
      front, tail, nodeNumber, spine := other.front, other.tail, other.nodeNumber, other.spine;
      other.front, other.tail := null, null;
      other.nodeNumber := 0;
      other.spine := [];
    }

    /** The move constructor: takes the nodes and leaves other with null head, tail and count 0. */
    constructor Move(other: MyForwardList<T>)
      modifies other
      ensures front == old(other.front) && tail == old(other.tail)
      ensures nodeNumber == old(other.nodeNumber) && spine == old(other.spine)
      ensures other.front == null && other.tail == null && other.nodeNumber == 0 && other.spine == []
    {
      front, tail, nodeNumber, spine := other.front, other.tail, other.nodeNumber, other.spine;
      new;
      other.front, other.tail := null, null;
      other.nodeNumber := 0;
      other.spine := [];
    }

    /**
     * The copy constructor: new nodes with other's values in the same order
     * and the same count.  It calls other.end(), which dereferences other's
     * tail, so other must not be empty.
     */
    constructor Copy(other: MyForwardList<T>)
      requires other.Valid() && |other.spine| > 0
      ensures Valid() && Values() == other.Values() && nodeNumber == other.nodeNumber
      ensures forall i :: 0 <= i < |spine| ==> fresh(spine[i])
    {
      var first, last, nodes := CopyNodes(other);
      front, tail, spine := first, last, nodes;
      nodeNumber := other.nodeNumber;
    }

    /**
     * operator=(const &): assigning a list to itself changes nothing;
     * otherwise new nodes copy other's values and the count is other's.  The
     * nodes this list held are not freed, and other.end() again needs other
     * not to be empty.
     */
    method CopyAssign(other: MyForwardList<T>)
      requires other.Valid() && |other.spine| > 0
      modifies this
      ensures this == other ==> unchanged(this)
      ensures this != other ==> Valid() && Values() == other.Values()
      ensures this != other ==> forall i :: 0 <= i < |spine| ==> fresh(spine[i])
    {
      if this == other {
        return;
      }
      var first, last, nodes := CopyNodes(other);
      front, tail, spine := first, last, nodes;
      nodeNumber := other.nodeNumber;
    }

    /** MyForwardList{values...}: starts empty and appends each value with insertEnd. */
    constructor FromValues(values: seq<T>)
      ensures Valid() && Values() == values
      ensures forall i :: 0 <= i < |spine| ==> fresh(spine[i])
    {
      front, tail, nodeNumber := null, null, 0;
      spine := [];
      new;
      var index := 0;
      while index < |values|
        invariant 0 <= index <= |values| && Valid() && Values() == values[..index]
        invariant forall i :: 0 <= i < |spine| ==> fresh(spine[i])
      {
        InsertEnd(values[index]);
        assert values[..index + 1] == values[..index] + [values[index]];
        index := index + 1;
      }
      assert values[..index] == values;
    }
  }

  /** The first position whose value is not less than v, or |s| when there is none. */
  function FirstNotLess(s: seq<int>, v: int): (m: nat)
    ensures m <= |s| && (forall i :: 0 <= i < m ==> s[i] < v) && (m < |s| ==> s[m] >= v)
  {
    if |s| == 0 || s[0] >= v then 0 else 1 + FirstNotLess(s[1..], v)
  }

  /** The scan of sort() stops at FirstNotLess. */
  lemma {:induction false} FirstNotLessUnique(s: seq<int>, v: int, m: nat)
    requires m <= |s| && (forall i :: 0 <= i < m ==> s[i] < v) && (m < |s| ==> s[m] >= v)
    ensures FirstNotLess(s, v) == m
  {
    if m > 0 {
      assert s[0] < v;
      FirstNotLessUnique(s[1..], v, m - 1);
    }
  }

  ghost predicate Sorted(s: seq<int>)
  {
    forall i, j :: 0 <= i < j < |s| ==> s[i] <= s[j]
  }

  /** One step of the corrected sort: v goes just before the first value not less than it. */
  function InsertSorted(s: seq<int>, v: int): seq<int>
  {
    var m := FirstNotLess(s, v);
    s[..m] + [v] + s[m..]
  }

  /** The corrected sort(): each value in list order is inserted into the sorted result. */
  function InsertionSorted(s: seq<int>): seq<int>
    decreases |s|
  {
    if |s| == 0 then [] else InsertSorted(InsertionSorted(s[..|s| - 1]), s[|s| - 1])
  }

  lemma InsertSortedFacts(s: seq<int>, v: int)
    ensures multiset(InsertSorted(s, v)) == multiset(s) + multiset{v}
    ensures Sorted(s) ==> Sorted(InsertSorted(s, v))
  {
    var m := FirstNotLess(s, v);
    assert s == s[..m] + s[m..];
    if Sorted(s) {
      var r := InsertSorted(s, v);
      forall i, j | 0 <= i < j < |r| ensures r[i] <= r[j] {
        if j < m || i > m {
        } else if i < m && j > m {
          assert r[i] == s[i] && r[j] == s[j - 1];
        } else if i == m {
          assert r[j] == s[j - 1] && s[m] >= v;
        } else {
          assert r[i] == s[i];
        }
      }
    }
  }

  /** The corrected sort orders the values and only rearranges them. */
  lemma {:induction false} InsertionSortedFacts(s: seq<int>)
    ensures Sorted(InsertionSorted(s)) && multiset(InsertionSorted(s)) == multiset(s)
    decreases |s|
  {
    if |s| > 0 {
      var init := s[..|s| - 1];
      InsertionSortedFacts(init);
      InsertSortedFacts(InsertionSorted(init), s[|s| - 1]);
      assert s == init + [s[|s| - 1]];
    }
  }

  /**
   * One step of sort() as the source writes it: when every sorted value is
   * less than v, the scan reaches end() and v is put at the FRONT.
   *
   * This reading takes end() of the still-empty sortedList to be the null
   * iterator.  As written, the default constructor leaves __end null
   * (My_Forward_List.h:69) and end() reads __end->next() (h:132), so the
   * first pass of a list of two or more nodes dereferences null; and
   * sortedList.empty() (cpp:355) is declared nowhere in the class, so the
   * member as written may never have been compiled.
   */
  function InsertAsWritten(s: seq<int>, v: int): (r: seq<int>)
    ensures FirstNotLess(s, v) < |s| ==> r == InsertSorted(s, v)
    ensures FirstNotLess(s, v) == |s| ==> r == [v] + s
    ensures |r| == |s| + 1
  {
    var m := FirstNotLess(s, v);
    if m == |s| then [v] + s else s[..m] + [v] + s[m..]
  }

  /**
   * sort() as the source writes it, by InsertAsWritten, under the same
   * reading of end() on an empty list as a null iterator.
   */
  function SortAsWritten(s: seq<int>): (r: seq<int>)
    ensures |r| == |s|
    decreases |s|
  {
    if |s| == 0 then [] else InsertAsWritten(SortAsWritten(s[..|s| - 1]), s[|s| - 1])
  }

  /** As written, sort() still only rearranges the values. */
  lemma {:induction false} SortAsWrittenPermutes(s: seq<int>)
    ensures multiset(SortAsWritten(s)) == multiset(s)
    decreases |s|
  {
    if |s| > 0 {
      var init, last := s[..|s| - 1], s[|s| - 1];
      assert s == init + [last];
      SortAsWrittenPermutes(init);
      InsertAsWrittenPermutes(SortAsWritten(init), last);
      assert multiset(s) == multiset(init) + multiset{last};
    }
  }

  /** One step as written adds v to the values and drops none. */
  lemma InsertAsWrittenPermutes(t: seq<int>, v: int)
    ensures multiset(InsertAsWritten(t, v)) == multiset(t) + multiset{v}
  {
    var m := FirstNotLess(t, v);
    assert t == t[..m] + t[m..];
  }

  /** {65, 325345, 14} comes out as 14, 325345, 65, which is not in ascending order. */
  lemma SortAsWrittenExample()
    ensures SortAsWritten([65, 325345, 14]) == [14, 325345, 65]
    ensures !Sorted(SortAsWritten([65, 325345, 14]))
    ensures InsertionSorted([65, 325345, 14]) == [14, 65, 325345]
  {
    assert [65, 325345, 14][..2] == [65, 325345];
    assert [65, 325345][..1] == [65];
    assert [65][..0] == [];
    var r := SortAsWritten([65, 325345, 14]);
    assert r[1] > r[2];
  }

  /**
   * sort(), corrected: lists of length at most 1 are left alone; otherwise
   * each value, in list order, goes into a new list just before its first
   * value that is not less, or at the end (where the source puts it at the
   * front), and the new list is moved into this one.
   */
  method Sort(list: MyForwardList<int>)
    requires list.Valid()
    modifies list
    ensures list.Valid() && list.Values() == InsertionSorted(old(list.Values()))
  {
    if list.nodeNumber <= 1 {
      assert list.Values() == [] || list.Values() == [list.Values()[0]];
      return;
    }
    var sorted := SortedCopy(list);
    list.MoveAssign(sorted);
  }

  /**
   * The loop shared by the copy constructor and operator=: a new node for
   * other's first value, then one more after the last for each further
   * value of other, in order.  Only new objects change.
   */
  method CopyNodes<T>(other: MyForwardList<T>) returns (first: MyListItem<T>, last: MyListItem<T>, ghost nodes: seq<MyListItem<T>>)
    requires other.Valid() && |other.spine| > 0
    ensures |nodes| == |other.spine| && Linked(nodes) && first == nodes[0] && last == nodes[|nodes| - 1]
    ensures ValuesOf(nodes) == other.Values()
    ensures forall i :: 0 <= i < |nodes| ==> fresh(nodes[i])
  {
    first := new MyListItem(other.front.value, null);
    last := first;
    nodes := [first];
    var temp := other.front.nextItem;
    assert LinkedAt(other.spine, 0);
    ghost var j := 1;
    while temp != other.End()
      invariant other.Valid() && 1 <= j <= |other.spine| && temp == At(other.spine, j)
      invariant |nodes| == j && Linked(nodes) && first == nodes[0] && last == nodes[j - 1]
      invariant forall i :: 0 <= i < j ==> nodes[i].value == other.spine[i].value
      invariant forall i :: 0 <= i < j ==> fresh(nodes[i])
      decreases |other.spine| - j
    {
      assert LinkedAt(other.spine, j);
      var node := new MyListItem(temp.value, null);
      ghost var s := nodes;
      label Before:
      last.SetNext(node);
      forall i | 0 <= i < |s| - 1 ensures LinkedAt(s, i) {
        assert old@Before(LinkedAt(s, i)) && s[i] != last;
      }
      LinkedAppend(s, node);
      last := node;
      nodes := s + [node];
      temp := temp.nextItem;
      j := j + 1;
    }
  }

  /**
   * The loop of the corrected sort(): each node's value, in list order, is
   * inserted into a new list, which starts empty.  Only new objects change.
   */
  method SortedCopy(list: MyForwardList<int>) returns (sorted: MyForwardList<int>)
    requires list.Valid() && list.nodeNumber > 1
    ensures fresh(sorted) && sorted.Valid() && sorted.Values() == InsertionSorted(list.Values())
  {
    sorted := new MyForwardList<int>();
    var current := list.front;
    ghost var j := 0;
    while current != list.End()
      invariant 0 <= j <= |list.spine| && current == At(list.spine, j)
      invariant fresh(sorted) && sorted.Valid() && fresh(set n | n in sorted.spine)
      invariant sorted.Values() == InsertionSorted(list.Values()[..j])
      decreases |list.spine| - j
    {
      assert LinkedAt(list.spine, j);
      var next := current.nextItem;
      var value := current.value;
      assert list.Values()[..j + 1] == list.Values()[..j] + [value];
      InsertInOrder(sorted, value);
      current := next;
      j := j + 1;
    }
    assert list.Values()[..j] == list.Values();
  }

  /**
   * The body of the corrected sort() loop: value goes just before the first
   * node of sorted whose value is not less than it, or after the last.
   */
  method InsertInOrder(sorted: MyForwardList<int>, value: int)
    requires sorted.Valid()
    modifies sorted, sorted.spine
    ensures sorted.Valid() && sorted.Values() == InsertSorted(old(sorted.Values()), value)
    ensures forall n :: n in sorted.spine ==> n in old(sorted.spine) || fresh(n)
  {
    ghost var s := sorted.spine;
    var place, m := FindPlace(sorted, value);
    var _ := sorted.Insert(value, place, m);
    assert forall n :: n in sorted.spine ==> n in s[..m] || n == sorted.spine[m] || n in s[m..];
  }

  /**
   * The scan of sort() over the sorted list: the first node whose value is
   * not less than value, null when there is none, and its position.
   */
  method FindPlace(sorted: MyForwardList<int>, value: int) returns (place: MyListItem?<int>, ghost m: nat)
    requires sorted.Valid()
    ensures m == FirstNotLess(sorted.Values(), value) && m <= |sorted.spine|
    ensures place == At(sorted.spine, m)
  {
    place := sorted.front;
    m := 0;
    while place != null && place.value < value
      invariant 0 <= m <= |sorted.spine| && place == At(sorted.spine, m)
      invariant forall i :: 0 <= i < m ==> sorted.Values()[i] < value
      decreases |sorted.spine| - m
    {
      assert LinkedAt(sorted.spine, m);
      place := place.nextItem;
      m := m + 1;
    }
    FirstNotLessUnique(sorted.Values(), value, m);
  }
}
