/**
 * The circular doubly linked list with a sentinel node
 * (src/4_2/list/include/list.h).  A list is its node storage together with
 * nodePointer, the sentinel; the sentinel's next is the first element and
 * its prev the last, and an empty list is the sentinel linked to itself.
 * Iterators are node indices here.
 */
module SentinelList {
  import opened Wrappers
  import opened ListIterators

  datatype MyList<T> = MyList(nodes: seq<Node<T>>, nodePointer: nat)

  /** No node index occurs twice. */
  ghost predicate Distinct(order: seq<nat>)
  {
    forall j, k :: 0 <= j < k < |order| ==> order[j] != order[k]
  }

  /**
   * order lists the nodes of the ring, the sentinel first, each followed by
   * its next and preceded by its prev, the last one wrapping round.
   */
  ghost predicate Ring<T>(l: MyList<T>, order: seq<nat>)
  {
    |order| >= 1 && order[0] == l.nodePointer && Distinct(order) &&
    (forall k :: 0 <= k < |order| ==> order[k] < |l.nodes|) &&
    (forall k :: 0 <= k < |order| ==> l.nodes[order[k]].next == After(order, k)) &&
    (forall k :: 0 <= k < |order| ==> l.nodes[order[k]].prev == Before(order, k))
  }

  /** The entry after position k, the first one after the last. */
  function After(order: seq<nat>, k: nat): nat
    requires k < |order|
  {
    if k + 1 < |order| then order[k + 1] else order[0]
  }

  /** The entry before position k, the last one before the first. */
  function Before(order: seq<nat>, k: nat): nat
    requires k < |order|
  {
    if k > 0 then order[k - 1] else order[|order| - 1]
  }

  /** The values of the list, from the first node after the sentinel to the last. */
  ghost function Elements<T>(l: MyList<T>, order: seq<nat>): (r: seq<T>)
    requires Ring(l, order)
    ensures |r| == |order| - 1
  {
    seq(|order| - 1, i requires 0 <= i < |order| - 1 => l.nodes[order[i + 1]].nodeData)
  }

  /** begin(): the sentinel's next. */
  function Begin<T>(l: MyList<T>): (r: nat)
    requires l.nodePointer < |l.nodes|
    ensures r == l.nodes[End(l)].next
  {
    l.nodes[l.nodePointer].next
  }

  /** end(): the sentinel itself. */
  function End<T>(l: MyList<T>): (r: nat)
    ensures r == l.nodePointer
  {
    l.nodePointer
  }

  /** empty(): the sentinel's next is the sentinel. */
  function Empty<T>(l: MyList<T>): (b: bool)
    requires l.nodePointer < |l.nodes|
    ensures b <==> Begin(l) == End(l)
  {
    l.nodes[l.nodePointer].next == l.nodePointer
  }

  /**
   * std::distance(from, to) on list iterators: the number of ++ steps from
   * from until to is reached; None when to is not reached within fuel steps
   * or a link leaves the storage.
   */
  function Distance<T>(nodes: seq<Node<T>>, from: nat, to: nat, fuel: nat): (r: Option<nat>)
    ensures r.Some? && from != to ==> r.value > 0
    ensures r.Some? ==> r.value <= fuel
    decreases fuel
  {
    if from == to then Some(0)
    else if fuel == 0 || from >= |nodes| then None
    else
      var d := Distance(nodes, nodes[from].next, to, fuel - 1);
      if d.None? then None else Some(d.value + 1)
  }

  /** size(): distance(begin(), end()), taking at most one step per node. */
  function Size<T>(l: MyList<T>): (r: Option<nat>)
    requires l.nodePointer < |l.nodes|
    ensures r == Some(0) <==> Empty(l)
    ensures r.Some? ==> r.value <= |l.nodes|
  {
    Distance(l.nodes, Begin(l), End(l), |l.nodes|)
  }

  /** front(): the value at begin(). */
  function Front<T>(l: MyList<T>): (x: T)
    requires l.nodePointer < |l.nodes| && Begin(l) < |l.nodes|
    ensures x == l.nodes[Begin(l)].nodeData
  {
    l.nodes[Begin(l)].nodeData
  }

  /** back(): the value at --end(), the sentinel's prev. */
  function Back<T>(l: MyList<T>): (x: T)
    requires l.nodePointer < |l.nodes| && l.nodes[l.nodePointer].prev < |l.nodes|
    ensures x == l.nodes[l.nodes[End(l)].prev].nodeData
  {
    l.nodes[l.nodes[l.nodePointer].prev].nodeData
  }

  /** A list of distinct indices below m has at most m entries. */
  lemma {:induction false} DistinctBounded(s: seq<nat>, m: nat)
    requires Distinct(s) && forall k :: 0 <= k < |s| ==> s[k] < m
    ensures |s| <= m
    decreases m
  {
    if |s| == 0 {
    } else if k :| 0 <= k < |s| && s[k] == m - 1 {
      var t := s[..k] + s[k + 1..];
      forall i | 0 <= i < |t| ensures t[i] < m - 1 {
        if i < k {
          assert t[i] == s[i];
        } else {
          assert t[i] == s[i + 1];
        }
      }
      forall i, j | 0 <= i < j < |t| ensures t[i] != t[j] {
        var i', j' := if i < k then i else i + 1, if j < k then j else j + 1;
        assert t[i] == s[i'] && t[j] == s[j'];
      }
      DistinctBounded(t, m - 1);
    } else {
      assert s[0] < m;
      DistinctBounded(s, m - 1);
    }
  }

  /** empty() holds exactly when the list has no elements. */
  lemma EmptyIffNoElements<T>(l: MyList<T>, order: seq<nat>)
    requires Ring(l, order)
    ensures Empty(l) <==> |Elements(l, order)| == 0
  {
    assert l.nodes[order[0]].next == After(order, 0);
    if |order| > 1 {
      assert order[1] != order[0];
    }
  }

  /** A node at position k of a chain of next links ending in `to` is |chain| - k steps away. */
  lemma {:induction false} DistanceAlongChain<T>(nodes: seq<Node<T>>, chain: seq<nat>, to: nat, k: nat, fuel: nat)
    requires k < |chain| && fuel >= |chain| - k
    requires forall j :: k <= j < |chain| ==> chain[j] < |nodes| && chain[j] != to
    requires forall j :: k <= j < |chain| ==> nodes[chain[j]].next == if j + 1 < |chain| then chain[j + 1] else to
    ensures Distance(nodes, chain[k], to, fuel) == Some(|chain| - k)
    decreases |chain| - k
  {
    if k + 1 < |chain| {
      DistanceAlongChain(nodes, chain, to, k + 1, fuel - 1);
    } else {
      assert Distance(nodes, to, to, fuel - 1) == Some(0);
    }
  }

  /** size() counts the elements. */
  lemma SizeIsElementCount<T>(l: MyList<T>, order: seq<nat>)
    requires Ring(l, order)
    ensures Size(l) == Some(|Elements(l, order)|)
  {
    assert l.nodes[order[0]].next == After(order, 0);
    if |order| > 1 {
      DistinctBounded(order, |l.nodes|);
      forall j | 1 <= j < |order|
        ensures order[j] != l.nodePointer
        ensures l.nodes[order[j]].next == if j + 1 < |order| then order[j + 1] else l.nodePointer
      {
        assert l.nodes[order[j]].next == After(order, j);
      }
      DistanceAlongChain(l.nodes, order, l.nodePointer, 1, |l.nodes|);
    }
  }

  /** front() is the first element and back() the last one. */
  lemma FrontAndBack<T>(l: MyList<T>, order: seq<nat>)
    requires Ring(l, order) && |order| > 1
    ensures Begin(l) < |l.nodes| && Front(l) == Elements(l, order)[0]
    ensures l.nodes[l.nodePointer].prev < |l.nodes|
    ensures Back(l) == Elements(l, order)[|order| - 2]
  {
    assert l.nodes[order[0]].next == After(order, 0);
    assert l.nodes[order[0]].prev == Before(order, 0);
  }

  /** The links of a ring undo each other, as the iterator's ++ and -- need. */
  lemma RingLinksInverse<T>(l: MyList<T>, order: seq<nat>, k: nat)
    requires Ring(l, order) && k < |order|
    ensures l.nodes[order[k]].next < |l.nodes| && l.nodes[l.nodes[order[k]].next].prev == order[k]
    ensures l.nodes[order[k]].prev < |l.nodes| && l.nodes[l.nodes[order[k]].prev].next == order[k]
  {
    var n := |order|;
    var j, i := if k + 1 < n then k + 1 else 0, if k > 0 then k - 1 else n - 1;
    assert l.nodes[order[k]].next == order[j] && l.nodes[order[k]].prev == order[i];
    assert l.nodes[order[j]].prev == Before(order, j) == order[k];
    assert l.nodes[order[i]].next == After(order, i) == order[k];
  }
}
