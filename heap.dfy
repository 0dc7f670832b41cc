/**
 * The heap algorithms (src/4_2/heap/include/heap_algorithm.h).
 *
 * A heap range [first, last) is an array of ints here, indexed from first.
 * The node at position i > 0 has its parent at (i - 1) / 2.  __push_heap is
 * the sift-up of a max-heap and is proved to be one.  __adjust_heap is
 * modelled as the source writes it, and make_heap, pop_heap and sort_heap
 * through it; as written it neither re-inserts the value it is given nor
 * keeps the elements of the range, so no heap property is claimed for them.
 */
module HeapAlgorithm {

  /** C++ integer division by 2 of a signed value, which truncates toward zero. */
  function Half(x: int): (r: int)
    ensures x >= 0 ==> r == x / 2
    ensures x < 0 ==> r == -((-x) / 2)
    ensures x == -1 ==> r == 0
  {
    if x >= 0 then x / 2 else -((-x) / 2)
  }

  /** The element at i > 0 is not larger than its parent. */
  ghost predicate ParentOrdered(s: seq<int>, i: int)
    requires 1 <= i < |s|
  {
    s[(i - 1) / 2] >= s[i]
  }

  /** Max-heap order on the whole sequence: no child is larger than its parent. */
  ghost predicate IsHeap(s: seq<int>)
  {
    forall i :: 1 <= i < |s| ==> ParentOrdered(s, i)
  }

  /** i lies on the path from n up to the root (n itself included). */
  ghost predicate OnPath(i: int, n: int)
    decreases n
  {
    n == i || (n > 0 && OnPath(i, (n - 1) / 2))
  }

  /** Ancestors come first, and the parent of a node on the path is on it too. */
  lemma {:induction false} OnPathFacts(i: int, n: int)
    requires OnPath(i, n)
    ensures i <= n
    ensures n > 0 && i == n ==> OnPath((n - 1) / 2, n)
    decreases n
  {
    if n != i {
      OnPathFacts(i, (n - 1) / 2);
    }
  }

  /** If i is on the path from n, so is the parent of i. */
  lemma {:induction false} OnPathParent(i: int, n: int)
    requires OnPath(i, n) && i > 0
    ensures OnPath((i - 1) / 2, n)
    decreases n
  {
    if n != i {
      OnPathParent(i, (n - 1) / 2);
    }
  }

  /** Positions past n are not on its path. */
  lemma PastHoleOffPath(n: int)
    ensures forall i :: n < i ==> !OnPath(i, n)
  {
    forall i | n < i ensures !OnPath(i, n) {
      if OnPath(i, n) {
        OnPathFacts(i, n);
      }
    }
  }

  /** During the sift-up every edge is in order except the one above the hole h. */
  ghost predicate OrderedBesideHole(b: seq<int>, h: nat)
  {
    forall i :: 1 <= i < |b| && i != h ==> ParentOrdered(b, i)
  }

  /** The children of h are not larger than h's parent. */
  ghost predicate ChildrenBelowGrandparent(b: seq<int>, h: nat)
    requires h < |b|
  {
    h > 0 ==> forall c :: 1 <= c < |b| && (c - 1) / 2 == h ==> b[(h - 1) / 2] >= b[c]
  }

  /** Appending a value to a heap leaves every edge but the new one in order. */
  lemma SiftUpStart(s: seq<int>, value: int)
    requires IsHeap(s)
    ensures OrderedBesideHole(s + [value], |s|)
    ensures ChildrenBelowGrandparent(s + [value], |s|)
  {
    var b := s + [value];
    forall i | 1 <= i < |b| && i != |s| ensures ParentOrdered(b, i) {
      assert ParentOrdered(s, i);
    }
  }

  /** Moving the smaller parent down and the hole up keeps both sift-up facts. */
  lemma SiftUpStep(b: seq<int>, h: nat, value: int)
    requires 0 < h < |b| && b[h] == value && b[(h - 1) / 2] < value
    requires OrderedBesideHole(b, h) && ChildrenBelowGrandparent(b, h)
    ensures OrderedBesideHole(b[h := b[(h - 1) / 2]][(h - 1) / 2 := value], (h - 1) / 2)
    ensures ChildrenBelowGrandparent(b[h := b[(h - 1) / 2]][(h - 1) / 2 := value], (h - 1) / 2)
  {
    var p := (h - 1) / 2;
    var pv := b[p];
    var b' := b[h := pv][p := value];
    forall i | 1 <= i < |b'| && i != p ensures ParentOrdered(b', i) {
      if i == h {
      } else if (i - 1) / 2 == h {
        assert b'[i] == b[i];
      } else if (i - 1) / 2 == p {
        assert ParentOrdered(b, i);
      } else {
        assert ParentOrdered(b, i);
      }
    }
    if p > 0 {
      forall c | 1 <= c < |b'| && (c - 1) / 2 == p ensures b'[(p - 1) / 2] >= b'[c] {
        assert ParentOrdered(b, p);
        if c != h {
          assert ParentOrdered(b, c);
        }
      }
    }
  }

  /** Once the parent of the hole is not smaller, the whole sequence is a heap. */
  lemma SiftUpDone(b: seq<int>, h: nat)
    requires h < |b| && OrderedBesideHole(b, h)
    requires h == 0 || b[(h - 1) / 2] >= b[h]
    ensures IsHeap(b)
  {
    forall i | 1 <= i < |b| ensures ParentOrdered(b, i) {
    }
  }

  /**
   * The sift-up on a sequence whose hole h already holds the value: while h
   * is below top and its parent is smaller, the two trade places.
   */
  ghost function SiftUp(b: seq<int>, h: nat, top: nat): seq<int>
    requires h < |b|
    decreases h
  {
    if h > top && b[(h - 1) / 2] < b[h] then
      var p := (h - 1) / 2;
      SiftUp(b[h := b[p]][p := b[h]], p, top)
    else b
  }

  /** The sift-up only exchanges elements. */
  lemma {:induction false} SiftUpPermutes(b: seq<int>, h: nat, top: nat)
    requires h < |b|
    ensures |SiftUp(b, h, top)| == |b|
    ensures multiset(SiftUp(b, h, top)) == multiset(b)
    decreases h
  {
    if h > top && b[(h - 1) / 2] < b[h] {
      var p := (h - 1) / 2;
      var c := b[h := b[p]][p := b[h]];
      assert multiset(c) == multiset(b) by {
        assert multiset(b[h := b[p]]) == multiset(b) - multiset{b[h]} + multiset{b[p]};
      }
      SiftUpPermutes(c, p, top);
    }
  }

  /**
   * Only positions on the path from h are written, and when top is an
   * ancestor of h, none above top.
   */
  lemma {:induction false} SiftUpFrame(b: seq<int>, h: nat, top: nat)
    requires h < |b|
    ensures |SiftUp(b, h, top)| == |b|
    ensures forall i :: 0 <= i < |b| && !OnPath(i, h) ==> SiftUp(b, h, top)[i] == b[i]
    ensures OnPath(top, h) ==> forall i :: 0 <= i < top && i < |b| ==> SiftUp(b, h, top)[i] == b[i]
    decreases h
  {
    if h > top && b[(h - 1) / 2] < b[h] {
      var p := (h - 1) / 2;
      var c := b[h := b[p]][p := b[h]];
      SiftUpPermutes(c, p, top);
      SiftUpFrame(c, p, top);
      forall i | 0 <= i < |b| && !OnPath(i, h) ensures SiftUp(b, h, top)[i] == b[i] {
        assert i != h && !OnPath(i, p);
      }
      if OnPath(top, h) {
        OnPathFacts(top, p);
      }
    }
  }

  /**
   * Sifting up the last value of a sequence that is a heap but for that value
   * makes the whole sequence a heap.
   */
  lemma {:induction false} SiftUpHeap(b: seq<int>, h: nat)
    requires h < |b| && OrderedBesideHole(b, h) && ChildrenBelowGrandparent(b, h)
    ensures IsHeap(SiftUp(b, h, 0))
    decreases h
  {
    if h > 0 && b[(h - 1) / 2] < b[h] {
      SiftUpStep(b, h, b[h]);
      SiftUpHeap(b[h := b[(h - 1) / 2]][(h - 1) / 2 := b[h]], (h - 1) / 2);
    } else {
      SiftUpDone(b, h);
    }
  }

  /**
   * __push_heap(first, hole, top, value): while the hole is below top and its
   * parent is smaller than value, the parent moves down into the hole and the
   * hole moves up; then value fills the hole.
   */
  method PushHeap(a: array<int>, hole: nat, top: nat, value: int)
    requires hole < a.Length
    modifies a
    ensures a[..hole + 1] == SiftUp(old(a[..hole]) + [value], hole, top)
    ensures a[hole + 1..] == old(a[hole + 1..])
    ensures multiset(a[..hole + 1]) == multiset(old(a[..hole])) + multiset{value}
    ensures top == 0 && IsHeap(old(a[..hole])) ==> IsHeap(a[..hole + 1])
  {
    ghost var b := a[..hole] + [value];
    ghost var start := a[..];
    var h := hole;
    var parent := Half(h - 1);
    assert a[..hole + 1][h := value] == b;
    while h > top && a[parent] < value
      invariant h <= hole && parent == Half(h - 1)
      invariant a[hole + 1..] == start[hole + 1..]
      invariant SiftUp(a[..hole + 1][h := value], h, top) == SiftUp(b, hole, top)
      decreases h
    {
      ghost var c := a[..hole + 1][h := value];
      assert c[h := c[parent]][parent := value] == a[..hole + 1][h := a[parent]][parent := value];
      a[h] := a[parent];
      h := parent;
      parent := Half(h - 1);
    }
    a[h] := value;
    assert a[..hole + 1] == SiftUp(b, hole, top);
    SiftUpPermutes(b, hole, top);
    assert b[..hole] == start[..hole];
    if top == 0 && IsHeap(start[..hole]) {
      SiftUpStart(start[..hole], value);
      SiftUpHeap(b, hole);
    }
  }

  /**
   * What __adjust_heap(first, hole, len, value) does to the range, step by
   * step as the source writes it: the larger child (the left one when the
   * right one is smaller) moves into the hole while the right child exists;
   * then `if (secondChild = len)`, an assignment, copies element len - 1 into
   * the hole whenever len is not 0.  value is never written.
   */
  function SiftDownAsWritten(s: seq<int>, hole: nat, len: nat): seq<int>
    requires len <= |s| && (hole < len || len == 0)
    decreases len - hole
  {
    var second := 2 * hole + 2;
    if second < len then
      var child := if s[second] < s[second - 1] then second - 1 else second;
      SiftDownAsWritten(s[hole := s[child]], child, len)
    else if len != 0 then s[hole := s[len - 1]]
    else s
  }

  /** Every element after the adjustment was already in the range, positions outside [hole, len) stay. */
  lemma {:induction false} SiftDownFacts(s: seq<int>, hole: nat, len: nat)
    requires len <= |s| && (hole < len || len == 0)
    ensures |SiftDownAsWritten(s, hole, len)| == |s|
    ensures forall i :: 0 <= i < |s| ==> SiftDownAsWritten(s, hole, len)[i] in s
    ensures forall i :: 0 <= i < |s| && (i < hole || len <= i) ==> SiftDownAsWritten(s, hole, len)[i] == s[i]
    decreases len - hole
  {
    var second := 2 * hole + 2;
    if second < len {
      var child := if s[second] < s[second - 1] then second - 1 else second;
      var t := s[hole := s[child]];
      SiftDownFacts(t, child, len);
      forall i | 0 <= i < |s| ensures SiftDownAsWritten(s, hole, len)[i] in s {
        assert SiftDownAsWritten(t, child, len)[i] in t;
        assert t[hole] == s[child];
        var j :| 0 <= j < |t| && t[j] == SiftDownAsWritten(t, child, len)[i];
        assert j == hole || t[j] == s[j];
      }
    } else if len != 0 {
      var t := s[hole := s[len - 1]];
      forall i | 0 <= i < |s| ensures t[i] in s {
        assert i == hole || t[i] == s[i];
      }
    }
  }

  /** __adjust_heap as written: value is passed along but never stored. */
  method AdjustHeap(a: array<int>, hole: nat, len: nat, value: int)
    requires len <= a.Length && (hole < len || len == 0)
    modifies a
    ensures a[..] == SiftDownAsWritten(old(a[..]), hole, len)
  {
    var h := hole;
    var topIndex := hole;
    var secondChild := 2 * h + 2;
    while secondChild < len
      invariant (h < len || len == 0) && secondChild == 2 * h + 2
      invariant SiftDownAsWritten(a[..], h, len) == SiftDownAsWritten(old(a[..]), hole, len)
      decreases len - h
    {
      if a[secondChild] < a[secondChild - 1] {
        secondChild := secondChild - 1;
      }
      a[h] := a[secondChild];
      h := secondChild;
      secondChild := 2 * (secondChild + 1);
    }
    secondChild := len;
    if secondChild != 0 {
      a[h] := a[secondChild - 1];
      h := secondChild - 1;
    }
  }

  /** make_heap as written: adjust every parent from (len - 2) / 2 down to 0. */
  function MadeFrom(s: seq<int>, parent: nat, len: nat): seq<int>
    requires parent < len <= |s|
    decreases parent
  {
    SiftDownFacts(s, parent, len);
    var t := SiftDownAsWritten(s, parent, len);
    if parent == 0 then t else MadeFrom(t, parent - 1, len)
  }

  function MadeAsWritten(s: seq<int>): seq<int>
  {
    if |s| < 2 then s else MadeFrom(s, (|s| - 2) / 2, |s|)
  }

  /** __make_heap: nothing below two elements, otherwise the adjust loop. */
  method MakeHeap(a: array<int>)
    modifies a
    ensures a[..] == MadeAsWritten(old(a[..]))
  {
    var len := a.Length;
    if len < 2 {
      return;
    }
    var parent := (len - 2) / 2;
    while true
      invariant 0 <= parent < len
      invariant MadeFrom(a[..], parent, len) == MadeAsWritten(old(a[..]))
      decreases parent
    {
      AdjustHeap(a, parent, len, a[parent]);
      if parent == 0 {
        return;
      }
      parent := parent - 1;
    }
  }

  /** make_heap as written can drop an element and repeat another: [1, 2, 3] becomes [3, 2, 3]. */
  lemma MakeHeapExample()
    ensures MadeAsWritten([1, 2, 3]) == [3, 2, 3]
    ensures multiset(MadeAsWritten([1, 2, 3])) != multiset([1, 2, 3])
  {
    assert SiftDownAsWritten([1, 2, 3], 0, 3) == SiftDownAsWritten([3, 2, 3], 2, 3);
    assert MadeAsWritten([1, 2, 3]) == [3, 2, 3];
    assert multiset([3, 2, 3])[1] == 0;
  }

  /** The elements make_heap leaves all come from the range. */
  lemma {:induction false} MadeFromFacts(s: seq<int>, parent: nat, len: nat)
    requires parent < len <= |s|
    ensures |MadeFrom(s, parent, len)| == |s|
    ensures forall i :: 0 <= i < |s| ==> MadeFrom(s, parent, len)[i] in s
    decreases parent
  {
    SiftDownFacts(s, parent, len);
    var t := SiftDownAsWritten(s, parent, len);
    if parent > 0 {
      MadeFromFacts(t, parent - 1, len);
      forall i | 0 <= i < |s| ensures MadeFrom(s, parent, len)[i] in s {
        var j :| 0 <= j < |t| && t[j] == MadeFrom(t, parent - 1, len)[i];
      }
    }
  }

  /**
   * One pop as sort_heap drives it over [first, last): __pop_heap(first,
   * last - 1, last - 1, *(last - 1)) moves the root to last - 1 and adjusts
   * [first, last - 1) from the root.
   */
  function PopStep(s: seq<int>, last: nat): seq<int>
    requires 1 <= last <= |s|
  {
    SiftDownAsWritten(s[last - 1 := s[0]], 0, last - 1)
  }

  /** After one pop the old root is at last - 1 and nothing from last on has moved. */
  lemma PopStepFacts(s: seq<int>, last: nat)
    requires 1 <= last <= |s|
    ensures |PopStep(s, last)| == |s|
    ensures PopStep(s, last)[last - 1] == s[0]
    ensures PopStep(s, last)[last..] == s[last..]
    ensures forall i :: 0 <= i < |s| ==> PopStep(s, last)[i] in s
  {
    var t := s[last - 1 := s[0]];
    SiftDownFacts(t, 0, last - 1);
    forall i | 0 <= i < |s| ensures PopStep(s, last)[i] in s {
      var j :| 0 <= j < |t| && t[j] == PopStep(s, last)[i];
      assert j == last - 1 || t[j] == s[j];
    }
  }

  /**
   * __pop_heap(first, last, result, value): the root goes to result, then
   * __adjust_heap(first, 0, last - first, value).
   */
  method PopHeapAt(a: array<int>, last: nat, result: nat, value: int)
    requires 0 < a.Length && last <= a.Length && result < a.Length
    modifies a
    ensures a[..] == SiftDownAsWritten(old(a[..])[result := old(a[0])], 0, last)
  {
    a[result] := a[0];
    AdjustHeap(a, 0, last, value);
  }

  /**
   * pop_heap(first, last), wired as __pop_heap(first, last - 1, last - 1,
   * *(last - 1)); the wrappers of the source do not compile.
   */
  method PopHeap(a: array<int>, last: nat)
    requires 1 <= last <= a.Length
    modifies a
    ensures a[..] == PopStep(old(a[..]), last)
  {
    PopHeapAt(a, last - 1, last - 1, a[last - 1]);
  }

  /** sort_heap: pop on [first, last) while it holds more than one element, shrinking last. */
  function SortedFrom(s: seq<int>, last: nat): seq<int>
    requires last <= |s|
    decreases last
  {
    if last <= 1 then s
    else
      PopStepFacts(s, last);
      SortedFrom(PopStep(s, last), last - 1)
  }

  /**
   * Each pop parks the root of the shrinking range just past it: position
   * last - 1 gets the root at that stage and is never touched again, and
   * positions from `last` on keep their values.
   */
  lemma {:induction false} SortedFromFacts(s: seq<int>, last: nat)
    requires last <= |s|
    ensures |SortedFrom(s, last)| == |s|
    ensures SortedFrom(s, last)[last..] == s[last..]
    ensures last >= 2 ==> SortedFrom(s, last)[last - 1] == s[0]
    ensures forall i :: 0 <= i < |s| ==> SortedFrom(s, last)[i] in s
    decreases last
  {
    if last > 1 {
      PopStepFacts(s, last);
      var t := PopStep(s, last);
      SortedFromFacts(t, last - 1);
      assert SortedFrom(s, last) == SortedFrom(t, last - 1);
      assert SortedFrom(t, last - 1)[last - 1..][0] == t[last - 1..][0];
      assert SortedFrom(s, last)[last..] == SortedFrom(t, last - 1)[last - 1..][1..];
      forall i | 0 <= i < |s| ensures SortedFrom(s, last)[i] in s {
        var j :| 0 <= j < |t| && t[j] == SortedFrom(t, last - 1)[i];
      }
    }
  }

  method SortHeap(a: array<int>)
    modifies a
    ensures a[..] == SortedFrom(old(a[..]), a.Length)
  {
    var last := a.Length;
    while last > 1
      invariant 0 <= last <= a.Length
      invariant SortedFrom(a[..], last) == SortedFrom(old(a[..]), a.Length)
      decreases last
    {
      PopHeap(a, last);
      last := last - 1;
    }
  }
}
