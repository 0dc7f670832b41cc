/**
 * find and for_each over a half-open range [first, last)
 * (src/1_9_5/1_9_5.cpp).
 *
 * The range lies in a sequence of elements and an iterator is an index into
 * it, last being one past the final element of the range.  A function
 * object is its state together with its call operator, which takes the
 * state and an element to the next state; for_each passes f by value and
 * returns the copy it called.
 */
module FindForEach {

  /**
   * find(first, last, value): steps while first != last and *first !=
   * value.  The result is the first index holding value, and last, one past
   * the range, when there is none.
   */
  method Find<T(==)>(s: seq<T>, first: nat, last: nat, value: T) returns (r: nat)
    requires first <= last <= |s|
    ensures first <= r <= last
    ensures forall i :: first <= i < r ==> s[i] != value
    ensures r < last ==> s[r] == value
  {
    r := first;
    while r != last && s[r] != value
      invariant first <= r <= last
      invariant forall i :: first <= i < r ==> s[i] != value
    {
      r := r + 1;
    }
  }

  /** The state of f after calling it on each of xs, first to last. */
  ghost function Fold<F, T>(call: (F, T) -> F, f: F, xs: seq<T>): F
  {
    if |xs| == 0 then f else Fold(call, call(f, xs[0]), xs[1..])
  }

  /** Calling f over a + b is calling it over a and then over b. */
  lemma {:induction false} FoldConcat<F, T>(call: (F, T) -> F, f: F, a: seq<T>, b: seq<T>)
    ensures Fold(call, f, a + b) == Fold(call, Fold(call, f, a), b)
  {
    if |a| > 0 {
      assert (a + b)[0] == a[0] && (a + b)[1..] == a[1..] + b;
      FoldConcat(call, call(f, a[0]), a[1..], b);
    } else {
      assert a + b == b;
    }
  }

  /** for_each(first, last, f): f called on every element of the range in order, then returned. */
  method ForEach<F, T>(s: seq<T>, first: nat, last: nat, f: F, call: (F, T) -> F) returns (g: F)
    requires first <= last <= |s|
    ensures g == Fold(call, f, s[first..last])
  {
    g := f;
    var i := first;
    while i != last
      invariant first <= i <= last
      invariant Fold(call, f, s[first..last]) == Fold(call, g, s[i..last])
    {
      assert s[i..last][1..] == s[i + 1..last];
      g := call(g, s[i]);
      i := i + 1;
    }
  }

  /** A function object that writes each element it is called on to its output. */
  function Show(out: seq<int>, e: int): seq<int>
  {
    out + [e]
  }

  /** Writing every element of xs after out leaves out followed by xs. */
  lemma {:induction false} FoldShow(out: seq<int>, xs: seq<int>)
    ensures Fold(Show, out, xs) == out + xs
    decreases |xs|
  {
    if |xs| > 0 {
      FoldShow(out + [xs[0]], xs[1..]);
      assert out + [xs[0]] + xs[1..] == out + xs;
    }
  }

  /**
   * The source's main: for_each writes 18 245 254 134 2 3, and find of 2
   * over the whole vector lies 4 past begin().
   */
  method FindForEachExample() returns (printed: seq<int>, offset: nat)
    ensures printed == [18, 245, 254, 134, 2, 3] && offset == 4
  {
    var dataList := [18, 245, 254, 134, 2, 3];
    printed := ForEach(dataList, 0, |dataList|, [], Show);
    FoldShow([], dataList);
    assert dataList[0..|dataList|] == dataList;
    offset := Find(dataList, 0, |dataList|, 2);
    assert dataList[4] == 2;
    assert dataList[0] != 2 && dataList[1] != 2 && dataList[2] != 2 && dataList[3] != 2;
  }
}
