/**
 * The fixed-size array container (src/4_2/array/include/array.h).
 *
 * `array<Type, Size>` is a struct around a built-in array of Size elements.
 * Here it is a class around a Dafny array whose length is Size and never
 * changes; the element type of the three-way comparison is the byte type,
 * the only kind of element type for which the source's `<=>` returns a value.
 */
module StlArray {
  import opened Wrappers

  newtype byte = x: int | 0 <= x < 256

  /** What `at` throws: `std::out_of_range` with the index and Size. */
  datatype ArrayError = OutOfRange(index: nat, size: nat)

  /** The three results of `<=>` on bytes (std::strong_ordering). */
  datatype Ordering = Less | Equivalent | Greater

  class Array<T> {
    const elements: array<T>

    /** Aggregate initialisation with all Size values. */
    constructor (values: seq<T>)
      ensures fresh(elements) && elements[..] == values
    {
      elements := new T[|values|](i requires 0 <= i < |values| => values[i]);
    }

    /** The struct built around an existing block of elements. */
    constructor Adopt(block: array<T>)
      ensures elements == block
    {
      elements := block;
    }

    /** size() and max_size() are both Size. */
    function Size(): (r: nat)
      ensures r == elements.Length
    {
      elements.Length
    }

    function Empty(): (b: bool)
      ensures b <==> Size() == 0
    {
      Size() == 0
    }

    /** operator[] and get<Index>: the index has to be below Size. */
    function Get(n: nat): (x: T)
      reads elements
      requires n < Size()
      ensures x == elements[..][n]
    {
      elements[n]
    }

    /** at(n), const and non-const alike: out_of_range exactly when n >= Size. */
    function At(n: nat): (r: Result<T, ArrayError>)
      reads elements
      ensures r.Err? <==> n >= Size()
      ensures r.Err? ==> r.error == OutOfRange(n, Size())
      ensures r.Ok? ==> r.value == elements[..][n]
    {
      if n >= elements.Length then Err(OutOfRange(n, elements.Length)) else Ok(elements[n])
    }

    function Front(): (x: T)
      reads elements
      requires Size() > 0
      ensures x == elements[..][0]
    {
      elements[0]
    }

    function Back(): (x: T)
      reads elements
      requires Size() > 0
      ensures x == elements[..][Size() - 1]
    {
      elements[elements.Length - 1]
    }

    /**
     * fill(x): every element becomes x.  The source hands end() to
     * std::fill_n as the count; the model fills [begin(), end()), which is
     * what the member is documented to do.
     */
    method Fill(x: T)
      modifies elements
      ensures forall i :: 0 <= i < Size() ==> elements[i] == x
    {
      var i := 0;
      while i < elements.Length
        invariant 0 <= i <= elements.Length
        invariant forall k :: 0 <= k < i ==> elements[k] == x
      {
        elements[i] := x;
        i := i + 1;
      }
    }

    /** swap(other): std::swap_ranges over the two element ranges. */
    method Swap(other: Array<T>)
      requires other.Size() == Size()
      modifies elements, other.elements
      ensures elements[..] == old(other.elements[..])
      ensures other.elements[..] == old(elements[..])
    {
      var i := 0;
      while i < elements.Length
        invariant 0 <= i <= elements.Length
        invariant elements == other.elements ==> elements[..] == old(elements[..])
        invariant elements != other.elements ==>
          elements[..i] == old(other.elements[..i]) && elements[i..] == old(elements[i..]) &&
          other.elements[..i] == old(elements[..i]) && other.elements[i..] == old(other.elements[i..])
      {
        var t := elements[i];
        elements[i] := other.elements[i];
        other.elements[i] := t;
        i := i + 1;
      }
    }
  }

  /** The global at() and operator[] agree wherever at() does not throw. */
  lemma AtAgreesWithGet<T>(a: Array<T>, n: nat)
    requires n < a.Size()
    ensures a.At(n) == Ok(a.Get(n))
  {
  }

  /** The global swap(a, b): a.swap(b). */
  method SwapArrays<T>(a: Array<T>, b: Array<T>)
    requires a.Size() == b.Size()
    modifies a.elements, b.elements
    ensures a.elements[..] == old(b.elements[..]) && b.elements[..] == old(a.elements[..])
  {
    a.Swap(b);
  }

  /** std::equal over two ranges of the same length, element by element. */
  function RangesEqual<T(==)>(s: seq<T>, t: seq<T>): (r: bool)
    requires |s| == |t|
    ensures r <==> s == t
  {
    if |s| == 0 then true
    else if s[0] != t[0] then false
    else (assert s == [s[0]] + s[1..] && t == [t[0]] + t[1..]; RangesEqual(s[1..], t[1..]))
  }

  /** operator==: every corresponding pair of elements is equal. */
  function Equal<T(==)>(a: Array<T>, b: Array<T>): (r: bool)
    reads a.elements, b.elements
    requires a.Size() == b.Size()
    ensures r <==> forall i :: 0 <= i < a.Size() ==> a.elements[i] == b.elements[i]
  {
    RangesEqual(a.elements[..], b.elements[..])
  }

  /** The ordering of the first unequal pair, or Equivalent when there is none. */
  function Lexicographic(s: seq<byte>, t: seq<byte>): Ordering
    requires |s| == |t|
  {
    if |s| == 0 then Equivalent
    else if s[0] < t[0] then Less
    else if s[0] > t[0] then Greater
    else Lexicographic(s[1..], t[1..])
  }

  function Flip(o: Ordering): Ordering
  {
    match o
    case Less => Greater
    case Equivalent => Equivalent
    case Greater => Less
  }

  /** The comparison says Equivalent exactly for equal contents. */
  lemma {:induction false} LexicographicEquivalent(s: seq<byte>, t: seq<byte>)
    requires |s| == |t|
    ensures Lexicographic(s, t) == Equivalent <==> s == t
  {
    if |s| > 0 {
      LexicographicEquivalent(s[1..], t[1..]);
      assert s == [s[0]] + s[1..] && t == [t[0]] + t[1..];
    }
  }

  /** Swapping the operands flips the result. */
  lemma {:induction false} LexicographicFlip(s: seq<byte>, t: seq<byte>)
    requires |s| == |t|
    ensures Lexicographic(t, s) == Flip(Lexicographic(s, t))
  {
    if |s| > 0 && s[0] == t[0] {
      LexicographicFlip(s[1..], t[1..]);
    }
  }

  /** The result is the ordering of the first pair at which the two differ. */
  lemma {:induction false} LexicographicFirstDifference(s: seq<byte>, t: seq<byte>, k: nat)
    requires |s| == |t| && k < |s|
    requires s[..k] == t[..k] && s[k] != t[k]
    ensures Lexicographic(s, t) == if s[k] < t[k] then Less else Greater
  {
    if k > 0 {
      assert s[0] == s[..k][0];
      assert s[1..][..k - 1] == s[1..k] && t[1..][..k - 1] == t[1..k];
      LexicographicFirstDifference(s[1..], t[1..], k - 1);
    }
  }

  /**
   * operator<=> on byte elements, the element-wise loop of the source; the
   * memcmp it takes at run time orders unsigned bytes the same way.  With
   * Size == 0 the source reaches the end of the function without a return.
   */
  method Compare(a: Array<byte>, b: Array<byte>) returns (r: Ordering)
    requires a.Size() == b.Size() && a.Size() > 0
    ensures r == Lexicographic(a.elements[..], b.elements[..])
  {
    var index := 0;
    while index < a.elements.Length
      invariant 0 <= index <= a.elements.Length
      invariant Lexicographic(a.elements[..], b.elements[..]) ==
        Lexicographic(a.elements[index..], b.elements[index..])
    {
      var x, y := a.elements[index], b.elements[index];
      if x != y {
        r := if x < y then Less else Greater;
        return;
      }
      assert a.elements[index..][1..] == a.elements[index + 1..];
      assert b.elements[index..][1..] == b.elements[index + 1..];
      index := index + 1;
    }
    r := Equivalent;
  }

  /**
   * toArray(c): a default-initialised array of the same Size receives c's
   * elements one index at a time.
   */
  method ToArray<T(0)>(c: array<T>) returns (r: Array<T>)
    ensures fresh(r) && fresh(r.elements)
    ensures r.Size() == c.Length && r.elements[..] == c[..]
  {
    var temp := new T[c.Length];
    var index := 0;
    while index < c.Length
      invariant 0 <= index <= c.Length
      invariant temp[..index] == c[..index]
    {
      temp[index] := c[index];
      index := index + 1;
    }
    assert temp[..] == temp[..c.Length];
    r := new Array.Adopt(temp);
  }
}
