/**
 * My_Vector (src/4_2/vector/include/myVector.h).
 *
 * The three iterators of the C++ class become one array and one index:
 * `storage` is the block handed out by the allocator, so `endOfStorage - start`
 * is `storage.Length`, and `finish` is the index one past the last element in
 * use.  The elements of the vector are `storage[..finish]`.  The slots of
 * `storage` past `finish` hold whatever was last written there; the C++ code
 * leaves them unconstructed, and nothing below reads them before writing.
 *
 * The standard algorithms the vector calls on its buffer (`std::copy`,
 * `std::copy_backward`, `std::fill`, `std::uninitialized_copy`,
 * `std::uninitialized_fill_n`) are the loops CopyForward, CopyBackward,
 * CopyInto and Fill.
 */
module MyVector {
  import opened Wrappers

  /** What `at` throws: `std::out_of_range` names the index and the size. */
  datatype VectorError = OutOfRange(index: nat, size: nat)

  /** n copies of x. */
  function Repeat<T>(x: T, n: nat): (r: seq<T>)
    ensures |r| == n
    ensures forall i :: 0 <= i < n ==> r[i] == x
  {
    if n == 0 then [] else Repeat(x, n - 1) + [x]
  }

  /** The contents after inserting n copies of x before position pos. */
  function Inserted<T>(s: seq<T>, pos: nat, n: nat, x: T): seq<T>
    requires pos <= |s|
  {
    s[..pos] + Repeat(x, n) + s[pos..]
  }

  /** The contents after removing the positions [first, last). */
  function Erased<T>(s: seq<T>, first: nat, last: nat): seq<T>
    requires first <= last <= |s|
  {
    s[..first] + s[last..]
  }

  /** d with src[from..to] written over its positions from `at` on. */
  function Spliced<T>(d: seq<T>, src: seq<T>, from: nat, to: nat, at: nat): (r: seq<T>)
    requires from <= to <= |src| && at + (to - from) <= |d|
    ensures |r| == |d|
    ensures forall k {:trigger r[k]} :: 0 <= k < |d| ==>
      r[k] == if at <= k < at + (to - from) then src[k - at + from] else d[k]
  {
    d[..at] + src[from..to] + d[at + (to - from)..]
  }

  /** s with the positions [from, to) set to x. */
  function Filled<T>(s: seq<T>, from: nat, to: nat, x: T): (r: seq<T>)
    requires from <= to <= |s|
    ensures |r| == |s|
    ensures forall k {:trigger r[k]} :: 0 <= k < |s| ==> r[k] == if from <= k < to then x else s[k]
  {
    s[..from] + Repeat(x, to - from) + s[to..]
  }

  /** The capacity insertAux chooses when the buffer is full. */
  function Grown(size: nat): nat
  {
    if size != 0 then 2 * size else 1
  }

  /** The capacity insert(pos, n, x) chooses when the spare room is short. */
  function GrownFor(size: nat, n: nat): nat
  {
    size + if size >= n then size else n
  }

  /** Element k of the contents after an insertion, position by position. */
  lemma InsertedAt<T>(s: seq<T>, pos: nat, n: nat, x: T, k: nat)
    requires pos <= |s| && k < |s| + n
    ensures |Inserted(s, pos, n, x)| == |s| + n
    ensures k < pos ==> Inserted(s, pos, n, x)[k] == s[k]
    ensures pos <= k < pos + n ==> Inserted(s, pos, n, x)[k] == x
    ensures pos + n <= k ==> Inserted(s, pos, n, x)[k] == s[k - n]
  {
  }

  /**
   * insertAux(pos, x) with spare room, on a buffer a whose first f slots are
   * in use: the last element is copied into the first free slot, [pos, f - 1)
   * moves up by one and x goes to pos.
   */
  lemma SpareInsertSteps<T>(a: seq<T>, a1: seq<T>, a2: seq<T>, a3: seq<T>, f: nat, pos: nat, x: T)
    requires pos < f < |a|
    requires a1 == a[f := a[f - 1]]
    requires a2 == Spliced(a1, a1, pos, f - 1, f - (f - 1 - pos))
    requires a3 == a2[pos := x]
    ensures a3[..f + 1] == Inserted(a[..f], pos, 1, x)
  {
    forall k | 0 <= k < f + 1 ensures a3[k] == Inserted(a[..f], pos, 1, x)[k] {
      InsertedAt(a[..f], pos, 1, x, k);
    }
  }

  /**
   * The three steps of insert(pos, n, x) with more than n elements after pos,
   * on a buffer a whose first f slots are in use: the last n elements are
   * copied past the end, the rest of the tail moves up by n, and
   * [pos, pos + n) is filled with x.
   */
  lemma ShiftedTail<T>(a: seq<T>, a1: seq<T>, a2: seq<T>, a3: seq<T>, f: nat, pos: nat, n: nat, x: T)
    requires pos + n < f && f + n <= |a|
    requires a1 == Spliced(a, a, f - n, f, f)
    requires a2 == Spliced(a1, a1, pos, f - n, f - (f - n - pos))
    requires a3 == Filled(a2, pos, pos + n, x)
    ensures a3[..f + n] == Inserted(a[..f], pos, n, x)
  {
    forall k | 0 <= k < f + n ensures a3[k] == Inserted(a[..f], pos, n, x)[k] {
      InsertedAt(a[..f], pos, n, x, k);
    }
  }

  /**
   * The steps of insert(pos, n, x) with at most n elements after pos: copies
   * of x from the old end up to mid == pos + n, the tail [pos, f) copied to
   * start at mid, and x over the tail's old place.
   */
  lemma FilledTail<T>(a: seq<T>, a1: seq<T>, a2: seq<T>, a3: seq<T>, f: nat, mid: nat, pos: nat, n: nat, x: T)
    requires pos <= f <= pos + n && f + n <= |a| && mid == pos + n
    requires a1 == Filled(a, f, mid, x)
    requires a2 == Spliced(a1, a1, pos, f, mid)
    requires a3 == Filled(a2, pos, f, x)
    ensures a3[..f + n] == Inserted(a[..f], pos, n, x)
  {
    forall k | 0 <= k < f + n ensures a3[k] == Inserted(a[..f], pos, n, x)[k] {
      InsertedAt(a[..f], pos, n, x, k);
    }
  }

  /**
   * A new block b receiving the first pos elements of a, then n copies of x,
   * then the elements [pos, f) of a.
   */
  lemma GrownSteps<T>(a: seq<T>, b: seq<T>, b1: seq<T>, b2: seq<T>, b3: seq<T>, f: nat, pos: nat, n: nat, x: T)
    requires pos <= f <= |a| && f + n <= |b|
    requires b1 == Spliced(b, a, 0, pos, 0)
    requires b2 == Filled(b1, pos, pos + n, x)
    requires b3 == Spliced(b2, a, pos, f, pos + n)
    ensures b3[..f + n] == Inserted(a[..f], pos, n, x)
  {
    forall k | 0 <= k < f + n ensures b3[k] == Inserted(a[..f], pos, n, x)[k] {
      InsertedAt(a[..f], pos, n, x, k);
    }
  }

  /** erase(first, last) on a buffer a whose first f slots are in use: the tail copied down to first. */
  lemma ErasedSteps<T>(a: seq<T>, a1: seq<T>, f: nat, first: nat, last: nat)
    requires first <= last <= f <= |a|
    requires a1 == Spliced(a, a, last, f, first)
    ensures a1[..f - (last - first)] == Erased(a[..f], first, last)
  {
    forall k | 0 <= k < f - (last - first) ensures a1[k] == Erased(a[..f], first, last)[k] {
      ErasedAt(a[..f], first, last, k);
    }
  }

  /** Filling the slots [f, k) past the elements appends k - f copies of x. */
  lemma FilledEnd<T>(a: seq<T>, a1: seq<T>, f: nat, k: nat, x: T)
    requires f <= k <= |a|
    requires a1 == Filled(a, f, k, x)
    ensures a1[..k] == a[..f] + Repeat(x, k - f)
  {
  }

  /** Erasing what was just inserted gives back the old contents. */
  lemma EraseUndoesInsert<T>(s: seq<T>, pos: nat, n: nat, x: T)
    requires pos <= |s|
    ensures pos + n <= |Inserted(s, pos, n, x)|
    ensures Erased(Inserted(s, pos, n, x), pos, pos + n) == s
  {
    var t := Inserted(s, pos, n, x);
    assert t[..pos] == s[..pos];
    assert t[pos + n..] == s[pos..];
    assert s[..pos] + s[pos..] == s;
  }

  /** Appending is inserting at the end, and one pop then removes it again. */
  lemma AppendIsInsertAtEnd<T>(s: seq<T>, x: T)
    ensures Inserted(s, |s|, 1, x) == s + [x]
    ensures Erased(s + [x], |s|, |s| + 1) == s
  {
    assert s[..|s|] == s;
    assert Repeat(x, 1) == [x];
  }

  /** Element k after an erase, position by position. */
  lemma ErasedAt<T>(s: seq<T>, first: nat, last: nat, k: nat)
    requires first <= last <= |s| && k < |s| - (last - first)
    ensures |Erased(s, first, last)| == |s| - (last - first)
    ensures k < first ==> Erased(s, first, last)[k] == s[k]
    ensures first <= k ==> Erased(s, first, last)[k] == s[k + (last - first)]
  {
  }

  /** Both growth rules leave room for what is being inserted. */
  lemma GrowthRoom(size: nat, n: nat)
    ensures Grown(size) >= size + 1
    ensures Grown(0) == 1 && (size != 0 ==> Grown(size) == 2 * size)
    ensures GrownFor(size, n) >= size + n
    ensures GrownFor(size, n) == size + (if size >= n then size else n)
  {
  }

  /**
   * The contents after insert(pos, n, x) in the branch with enough spare room
   * and more than n elements after pos, step by step as the source writes it:
   * the last n elements are copied into the spare room, [pos, finish - n) is
   * copied backward to end at the old finish, and then the whole range
   * [pos, old finish) is filled with x, where [pos, pos + n) was meant.
   */
  function SpareInsertAsWritten<T>(s: seq<T>, pos: nat, n: nat, x: T): (r: seq<T>)
    requires pos + n < |s|
    ensures |r| == |s| + n
    ensures r[..pos] == s[..pos] && r[|s|..] == s[|s| - n..]
    ensures forall i :: pos <= i < |s| ==> r[i] == x
  {
    var f := |s|;
    var grown := s + s[f - n..];
    var shifted := grown[..pos + n] + s[pos..f - n] + grown[f..];
    shifted[..pos] + Repeat(x, f - pos) + shifted[f..]
  }

  /**
   * As written, the spare-room insert overwrites the elements it has just
   * shifted: position pos + n ends up holding x instead of the old s[pos].
   */
  lemma SpareInsertOverwrites<T>(s: seq<T>, pos: nat, n: nat, x: T)
    requires pos + n < |s| && s[pos] != x
    ensures |SpareInsertAsWritten(s, pos, n, x)| == |s| + n
    ensures SpareInsertAsWritten(s, pos, n, x)[pos + n] == x
    ensures Inserted(s, pos, n, x)[pos + n] == s[pos]
    ensures SpareInsertAsWritten(s, pos, n, x) != Inserted(s, pos, n, x)
  {
    var r := SpareInsertAsWritten(s, pos, n, x);
    var f := |s|;
    var shifted := (s + s[f - n..])[..pos + n] + s[pos..f - n] + (s + s[f - n..])[f..];
    assert |shifted| == f + n;
    assert r[pos + n] == Repeat(x, f - pos)[n];
    InsertedAt(s, pos, n, x, pos + n);
  }

  /** The vector [1, 2, 3] with room for four: insert(begin(), 1, 9). */
  lemma SpareInsertExample()
    ensures SpareInsertAsWritten([1, 2, 3], 0, 1, 9) == [9, 9, 9, 3]
    ensures Inserted([1, 2, 3], 0, 1, 9) == [9, 1, 2, 3]
  {
    assert Repeat(9, 1) == [9];
    assert Repeat(9, 3) == [9, 9, 9];
  }

  /**
   * std::copy on one array, moving a[from..to] down to start at dst (or to a
   * place past `to`): each source element is read before it is overwritten.
   */
  method CopyForward<T>(a: array<T>, from: nat, to: nat, dst: nat) returns (end: nat)
    requires from <= to <= a.Length && dst + (to - from) <= a.Length
    requires dst <= from || to <= dst
    modifies a
    ensures end == dst + (to - from)
    ensures a[..] == Spliced(old(a[..]), old(a[..]), from, to, dst)
  {
    ghost var a0 := a[..];
    var i := 0;
    while i < to - from
      invariant 0 <= i <= to - from
      invariant forall k {:trigger a[k]} :: 0 <= k < a.Length ==>
        a[k] == if dst <= k < dst + i then a0[k - dst + from] else a0[k]
    {
      a[dst + i] := a[from + i];
      i := i + 1;
    }
    end := dst + (to - from);
    assert a[..] == Spliced(a0, a0, from, to, dst);
  }

  /** std::copy_backward on one array: a[first..last] moves up to end at dLast. */
  method CopyBackward<T>(a: array<T>, first: nat, last: nat, dLast: nat)
    requires first <= last <= dLast <= a.Length
    modifies a
    ensures a[..] == Spliced(old(a[..]), old(a[..]), first, last, dLast - (last - first))
  {
    ghost var a0 := a[..];
    var i := 0;
    while i < last - first
      invariant 0 <= i <= last - first
      invariant forall k {:trigger a[k]} :: 0 <= k < a.Length ==>
        a[k] == if dLast - i <= k < dLast then a0[k - (dLast - last)] else a0[k]
    {
      a[dLast - 1 - i] := a[last - 1 - i];
      i := i + 1;
    }
    assert a[..] == Spliced(a0, a0, first, last, dLast - (last - first));
  }

  /** std::uninitialized_copy from one buffer into another. */
  method CopyInto<T>(src: array<T>, from: nat, to: nat, dst: array<T>, at: nat) returns (end: nat)
    requires src != dst
    requires from <= to <= src.Length && at + (to - from) <= dst.Length
    modifies dst
    ensures end == at + (to - from)
    ensures dst[..] == Spliced(old(dst[..]), old(src[..]), from, to, at)
  {
    ghost var d0, s0 := dst[..], src[..];
    var i := 0;
    while i < to - from
      invariant 0 <= i <= to - from
      invariant forall k :: 0 <= k < dst.Length ==>
        dst[k] == if at <= k < at + i then s0[k - at + from] else d0[k]
    {
      dst[at + i] := src[from + i];
      i := i + 1;
    }
    end := at + (to - from);
    assert dst[..] == Spliced(d0, s0, from, to, at);
  }

  /** std::fill and std::uninitialized_fill_n: a[from..to] becomes x. */
  method Fill<T>(a: array<T>, from: nat, to: nat, x: T)
    requires from <= to <= a.Length
    modifies a
    ensures a[..] == Filled(old(a[..]), from, to, x)
  {
    ghost var a0 := a[..];
    var i := from;
    while i < to
      invariant from <= i <= to
      invariant forall k :: 0 <= k < a.Length ==> a[k] == if from <= k < i then x else a0[k]
    {
      a[i] := x;
      i := i + 1;
    }
    assert a[..] == Filled(a0, from, to, x);
  }

  class Vector<T> {
    /** The allocated block: [start, endOfStorage). */
    var storage: array<T>
    /** finish - start: the number of elements in use. */
    var finish: nat

    ghost predicate Valid()
      reads this
    {
      finish <= storage.Length
    }

    /** The elements [start, finish). */
    ghost function Elements(): seq<T>
      reads this, storage
      requires Valid()
    {
      storage[..finish]
    }

    /** The default constructor: all three iterators null, so no room at all. */
    constructor ()
      ensures Valid() && fresh(storage)
      ensures Elements() == [] && storage.Length == 0
    {
      storage := new T[0];
      finish := 0;
    }

    /** The fill constructor (fillInitialize): n copies of value, no spare room. */
    constructor FillInitialize(n: nat, value: T)
      ensures Valid() && fresh(storage)
      ensures Elements() == Repeat(value, n) && storage.Length == n
    {
      storage := new T[n](_ => value);
      finish := n;
      new;
      assert storage[..n] == Repeat(value, n);
    }

    function Size(): (r: nat)
      reads this, storage
      requires Valid()
      ensures r == |Elements()|
    {
      finish
    }

    function Capacity(): (r: nat)
      reads this, storage
      requires Valid()
      ensures r >= |Elements()|
    {
      storage.Length
    }

    function Empty(): (b: bool)
      reads this, storage
      requires Valid()
      ensures b <==> Elements() == []
    {
      finish == 0
    }

    function Front(): (x: T)
      reads this, storage
      requires Valid() && finish > 0
      ensures Elements() != [] && x == Elements()[0]
    {
      storage[0]
    }

    function Back(): (x: T)
      reads this, storage
      requires Valid() && finish > 0
      ensures Elements() != [] && x == Elements()[|Elements()| - 1]
    {
      storage[finish - 1]
    }

    /** at(n): the element at n, or out_of_range exactly when n is not below the size. */
    function At(n: nat): (r: Result<T, VectorError>)
      reads this, storage
      requires Valid()
      ensures r.Err? <==> n >= |Elements()|
      ensures r.Err? ==> r.error == OutOfRange(n, |Elements()|)
      ensures r.Ok? ==> r.value == Elements()[n]
    {
      if n >= finish then Err(OutOfRange(n, finish)) else Ok(storage[n])
    }

    /**
     * insertAux(pos, x).  With spare room the last element is copied into the
     * first free slot, [pos, finish - 1) moves up by one and x goes to pos;
     * the source reads finish - 1 and copies an inverted range when pos is
     * finish, so that case needs a full buffer.  A full buffer is replaced by
     * one of capacity 2 * size (1 when empty) holding the old prefix, x and the
     * old suffix.
     */
    method InsertAux(pos: nat, x: T)
      requires Valid() && pos <= finish
      requires pos < finish || finish == storage.Length
      modifies this, storage
      ensures Valid()
      ensures Elements() == Inserted(old(Elements()), pos, 1, x)
      ensures old(finish) < old(storage.Length) ==> storage == old(storage)
      ensures old(finish) == old(storage.Length) ==> fresh(storage) && storage.Length == Grown(old(finish))
    {
      var buf, f := storage, finish;
      ghost var a := buf[..];
      if f != buf.Length {
        buf[f] := buf[f - 1];
        ghost var a1 := buf[..];
        assert a1 == a[f := a[f - 1]];
        CopyBackward(buf, pos, f - 1, f);
        ghost var a2 := buf[..];
        assert a2 == Spliced(a1, a1, pos, f - 1, f - (f - 1 - pos));
        buf[pos] := x;
        assert buf[..] == a2[pos := x];
        SpareInsertSteps(a, a1, a2, buf[..], f, pos, x);
        finish := f + 1;
        assert storage[..finish] == buf[..][..f + 1];
      } else {
        var len := if f != 0 then 2 * f else 1;
        var block := new T[len](_ => x);
        ghost var b := block[..];
        var end := CopyInto(buf, 0, pos, block, 0);
        ghost var b1 := block[..];
        assert b1 == Spliced(b, a, 0, pos, 0);
        block[end] := x;
        ghost var b2 := block[..];
        assert b2 == Filled(b1, pos, pos + 1, x);
        assert buf[..] == a;
        end := CopyInto(buf, pos, f, block, end + 1);
        assert block[..] == Spliced(b2, a, pos, f, pos + 1);
        GrownSteps(a, b, b1, b2, block[..], f, pos, 1, x);
        storage := block;
        finish := end;
        assert storage[..finish] == block[..][..f + 1];
      }
    }

    /** push_back(x): in place when there is room, otherwise through insertAux. */
    method PushBack(x: T)
      requires Valid()
      modifies this, storage
      ensures Valid()
      ensures Elements() == old(Elements()) + [x]
      ensures old(finish) < old(storage.Length) ==> storage == old(storage)
      ensures old(finish) == old(storage.Length) ==> fresh(storage) && storage.Length == Grown(old(finish))
    {
      ghost var e := Elements();
      AppendIsInsertAtEnd(e, x);
      if finish != storage.Length {
        storage[finish] := x;
        finish := finish + 1;
        assert storage[..finish] == e + [x];
      } else {
        InsertAux(finish, x);
      }
    }

    /** pop_back(): the last element goes; the C++ code requires a non-empty vector. */
    method PopBack()
      requires Valid() && finish > 0
      modifies this
      ensures Valid() && storage == old(storage)
      ensures Elements() == old(Elements())[..|old(Elements())| - 1]
    {
      finish := finish - 1;
    }

    /** erase(first, last): the range goes, the tail moves down, and first comes back. */
    method EraseRange(first: nat, last: nat) returns (r: nat)
      requires Valid() && first <= last <= finish
      modifies this, storage
      ensures Valid() && storage == old(storage)
      ensures Elements() == Erased(old(Elements()), first, last)
      ensures r == first
    {
      var buf, f := storage, finish;
      ghost var a := buf[..];
      var newEnd := CopyForward(buf, last, f, first);
      ErasedSteps(a, buf[..], f, first, last);
      finish := f - (last - first);
      assert storage[..finish] == buf[..][..f - (last - first)];
      r := first;
    }

    /** erase(pos): one element goes; nothing is copied when it is the last one. */
    method Erase(pos: nat) returns (r: nat)
      requires Valid() && pos < finish
      modifies this, storage
      ensures Valid() && storage == old(storage)
      ensures Elements() == Erased(old(Elements()), pos, pos + 1)
      ensures r == pos
    {
      var buf, f := storage, finish;
      ghost var a := buf[..];
      if pos + 1 != f {
        var newEnd := CopyForward(buf, pos + 1, f, pos);
        ErasedSteps(a, buf[..], f, pos, pos + 1);
      } else {
        assert Erased(a[..f], pos, pos + 1) == a[..pos];
      }
      finish := f - 1;
      assert storage[..finish] == buf[..][..f - 1];
      r := pos;
    }

    /** clear(): erase(begin(), end()). */
    method Clear()
      requires Valid()
      modifies this, storage
      ensures Valid() && storage == old(storage)
      ensures Elements() == []
    {
      var r := EraseRange(0, finish);
    }

    /**
     * insert(pos, n, x).  With at least n free slots the elements move up by n
     * inside the buffer; otherwise a block of size + max(size, n) receives the
     * prefix, n copies of x and the suffix.  In the branch with more than n
     * elements after pos the fill covers [pos, pos + n); the source fills
     * [pos, old finish), see SpareInsertAsWritten.
     */
    method Insert(pos: nat, n: nat, x: T)
      requires Valid() && pos <= finish
      modifies this, storage
      ensures Valid()
      ensures Elements() == Inserted(old(Elements()), pos, n, x)
      ensures n == 0 ==> storage == old(storage) && finish == old(finish)
      ensures old(storage.Length) - old(finish) >= n ==> storage == old(storage)
      ensures old(storage.Length) - old(finish) < n ==>
        fresh(storage) && storage.Length == GrownFor(old(finish), n)
    {
      ghost var e := Elements();
      if n != 0 {
        if storage.Length - finish >= n {
          InsertSpare(pos, n, x);
        } else {
          var buf, f := storage, finish;
          var len := f + if f >= n then f else n;
          var block := new T[len](_ => x);
          ghost var a, b := buf[..], block[..];
          var end := CopyInto(buf, 0, pos, block, 0);
          ghost var b1 := block[..];
          assert b1 == Spliced(b, a, 0, pos, 0);
          Fill(block, end, end + n, x);
          ghost var b2 := block[..];
          assert b2 == Filled(b1, pos, pos + n, x);
          assert buf[..] == a;
          end := CopyInto(buf, pos, f, block, end + n);
          assert block[..] == Spliced(b2, a, pos, f, pos + n);
          GrownSteps(a, b, b1, b2, block[..], f, pos, n, x);
          storage := block;
          finish := end;
          assert storage[..finish] == block[..][..f + n];
        }
      } else {
        assert e == Inserted(e, pos, 0, x);
      }
    }

    /** The spare-room branches of insert(pos, n, x). */
    method InsertSpare(pos: nat, n: nat, x: T)
      requires Valid() && pos <= finish && n > 0
      requires storage.Length - finish >= n
      modifies this, storage
      ensures Valid() && storage == old(storage)
      ensures Elements() == Inserted(old(Elements()), pos, n, x)
    {
      var insertAfter := finish - pos;
      if insertAfter > n {
        ShiftAndFill(pos, n, x);
      } else {
        FillAndMove(pos, n, x);
      }
    }

    /** More than n elements after pos: the tail moves up by n inside the buffer. */
    method ShiftAndFill(pos: nat, n: nat, x: T)
      requires Valid() && pos + n < finish
      requires storage.Length - finish >= n
      modifies this, storage
      ensures Valid() && storage == old(storage)
      ensures Elements() == Inserted(old(Elements()), pos, n, x)
    {
      var buf, f := storage, finish;
      ghost var a0 := buf[..];
      var tailEnd := CopyForward(buf, f - n, f, f);
      ghost var a1 := buf[..];
      assert a1 == Spliced(a0, a0, f - n, f, f);
      CopyBackward(buf, pos, f - n, f);
      ghost var a2 := buf[..];
      assert a2 == Spliced(a1, a1, pos, f - n, f - (f - n - pos));
      Fill(buf, pos, pos + n, x);
      assert buf[..] == Filled(a2, pos, pos + n, x);
      ShiftedTail(a0, a1, a2, buf[..], f, pos, n, x);
      finish := f + n;
      assert storage[..finish] == buf[..][..f + n];
    }

    /** At most n elements after pos: the copies of x past the old end come first. */
    method FillAndMove(pos: nat, n: nat, x: T)
      requires Valid() && pos <= finish <= pos + n
      requires storage.Length - finish >= n
      modifies this, storage
      ensures Valid() && storage == old(storage)
      ensures Elements() == Inserted(old(Elements()), pos, n, x)
    {
      var buf, f := storage, finish;
      ghost var a := buf[..];
      var insertAfter := f - pos;
      var mid := f + n - insertAfter;
      Fill(buf, f, mid, x);
      ghost var a1 := buf[..];
      assert a1 == Filled(a, f, mid, x);
      var tailEnd := CopyForward(buf, pos, f, mid);
      ghost var a2 := buf[..];
      assert a2 == Spliced(a1, a1, pos, f, mid);
      Fill(buf, pos, f, x);
      assert buf[..] == Filled(a2, pos, f, x);
      FilledTail(a, a1, a2, buf[..], f, mid, pos, n, x);
      finish := mid + insertAfter;
      assert storage[..finish] == buf[..][..f + n];
    }

    /**
     * resize(k, x); resize(k) is resize(k, 0) for a numeric element type.
     * Growing below the capacity fills in place.  Growing to the capacity or
     * beyond fills the spare room and then calls insertAux(end()) once per
     * missing element; after the first of those calls the buffer has spare
     * room again and insertAux(end()) is undefined, so k is at most one past
     * the capacity.
     */
    method Resize(k: nat, x: T)
      requires Valid()
      requires k <= storage.Length + 1
      modifies this, storage
      ensures Valid()
      ensures k <= old(finish) ==> Elements() == old(Elements())[..k]
      ensures k > old(finish) ==> Elements() == old(Elements()) + Repeat(x, k - old(finish))
      ensures k <= old(storage.Length) ==> storage == old(storage)
      ensures k > old(storage.Length) ==> fresh(storage) && storage.Length == Grown(old(storage.Length))
    {
      ghost var e := Elements();
      if k == 0 {
        Clear();
      }
      if k > finish {
        var buf, f := storage, finish;
        ghost var a := buf[..];
        if f + (k - f) < buf.Length {
          Fill(buf, f, k, x);
          FilledEnd(a, buf[..], f, k, x);
          finish := k;
          assert storage[..finish] == buf[..][..k];
        } else {
          var appendSize := buf.Length - f;
          var allocateSize := k - buf.Length;
          Fill(buf, f, buf.Length, x);
          FilledEnd(a, buf[..], f, buf.Length, x);
          finish := buf.Length;
          assert storage[..finish] == buf[..][..buf.Length];
          ghost var full := storage;
          var index := 0;
          while index < allocateSize
            invariant 0 <= index <= allocateSize <= 1
            invariant Valid()
            invariant Elements() == e + Repeat(x, appendSize + index)
            invariant index == 0 ==> storage == full && finish == storage.Length
            invariant index == 1 ==> fresh(storage) && storage.Length == Grown(full.Length)
          {
            ghost var before := Elements();
            InsertAux(finish, x);
            AppendIsInsertAtEnd(before, x);
            assert Repeat(x, appendSize + index) + [x] == Repeat(x, appendSize + index + 1);
            index := index + 1;
          }
        }
      } else {
        var r := EraseRange(k, finish);
        assert Erased(e, k, |e|) == e[..k];
      }
    }

    /**
     * reserve(k) with k up to the capacity does nothing.  Beyond the capacity
     * the source appends zero by insertAux(end()) k - capacity times, which is
     * defined only for one call on a full buffer.
     */
    method Reserve(k: nat, zero: T)
      requires Valid()
      requires k <= storage.Length || (finish == storage.Length && k == storage.Length + 1)
      modifies this, storage
      ensures Valid()
      ensures k <= old(storage.Length) ==> storage == old(storage) && Elements() == old(Elements())
      ensures k > old(storage.Length) ==>
        Elements() == old(Elements()) + [zero] && fresh(storage) && storage.Length == Grown(old(finish))
    {
      if k <= storage.Length {
        return;
      }
      var allocateSize := k - storage.Length;
      var index := 0;
      ghost var e := Elements();
      AppendIsInsertAtEnd(e, zero);
      while index < allocateSize
        invariant 0 <= index <= allocateSize == 1
        invariant Valid()
        invariant index == 0 ==> storage == old(storage)
        invariant index == 0 ==> Elements() == e && finish == storage.Length && finish == |e|
        invariant index == 1 ==> Elements() == e + [zero] && fresh(storage) && storage.Length == Grown(|e|)
      {
        InsertAux(finish, zero);
        index := index + 1;
      }
    }
  }
}
