/**
 * Byte ranges and the bookkeeping the second-level allocator needs to show that
 * the memory it manages never overlaps: the pool, the blocks on its free lists
 * and the blocks its callers hold.
 */
module Regions {
  /** The half-open byte range [start, start + len). */
  datatype Region = Region(start: nat, len: nat)
  {
    function End(): nat { start + len }
  }

  predicate Disjoint(r: Region, s: Region)
  {
    r.End() <= s.start || s.End() <= r.start
  }

  /** No region is empty or listed twice, and any two regions are disjoint. */
  ghost predicate Separated(m: multiset<Region>)
  {
    (forall r :: r in m ==> m[r] == 1 && r.len > 0) &&
    (forall r, s {:trigger Disjoint(r, s)} :: r in m && s in m && r != s ==> Disjoint(r, s))
  }

  /** Every region of `a` is disjoint from every region of `b`. */
  ghost predicate Apart(a: multiset<Region>, b: multiset<Region>)
  {
    forall r, s {:trigger Disjoint(r, s)} :: r in a && s in b ==> Disjoint(r, s)
  }

  /** Every region of `m` lies in [lo, hi). */
  ghost predicate Within(m: multiset<Region>, lo: nat, hi: nat)
  {
    forall r :: r in m ==> lo <= r.start && r.End() <= hi
  }

  /** The consecutive blocks [a, a + size), [a + size, a + 2·size), … , `count` of them. */
  function Carve(a: nat, size: nat, count: nat): (s: seq<nat>)
    ensures |s| == count
    ensures forall i :: 0 <= i < count ==> s[i] == a + i * size
    decreases count
  {
    if count == 0 then [] else [a] + Carve(a + size, size, count - 1)
  }

  /** The regions of blocks of `size` bytes starting at the addresses of `s`. */
  function Blocks(s: seq<nat>, size: nat): multiset<Region>
  {
    if s == [] then multiset{} else multiset{Region(s[0], size)} + Blocks(s[1..], size)
  }

  lemma SeparatedUnion(a: multiset<Region>, b: multiset<Region>)
    requires Separated(a) && Separated(b) && Apart(a, b)
    ensures Separated(a + b)
  {
    forall r | r in a + b
      ensures (a + b)[r] == 1 && r.len > 0
    {
      assert (a + b)[r] == a[r] + b[r];
      if r in a {
        assert !Disjoint(r, r);
      }
    }
    forall r, s | r in a + b && s in a + b && r != s
      ensures Disjoint(r, s)
    {
      if r in b && s in a {
        assert Disjoint(s, r);
      }
    }
  }

  lemma SeparatedSplit(a: multiset<Region>, b: multiset<Region>)
    requires Separated(a + b)
    ensures Separated(a) && Separated(b) && Apart(a, b)
  {
    forall r, s | r in a && s in b
      ensures Disjoint(r, s)
    {
      assert (a + b)[r] == a[r] + b[r];
      assert r != s;
    }
  }

  /** Pieces of a region may replace it: whatever was apart from the whole is apart from them. */
  lemma SeparatedReplace(rest: multiset<Region>, whole: Region, pieces: multiset<Region>)
    requires Separated(rest + multiset{whole})
    requires Separated(pieces) && Within(pieces, whole.start, whole.End())
    ensures Separated(rest + pieces)
  {
    SeparatedSplit(rest, multiset{whole});
    assert whole in multiset{whole};
    forall r, s | r in rest && s in pieces
      ensures Disjoint(r, s)
    {
      assert Disjoint(r, whole);
    }
    SeparatedUnion(rest, pieces);
  }

  /** Replacing a region by pieces lying inside it keeps everything in [lo, hi). */
  lemma WithinReplace(rest: multiset<Region>, whole: Region, pieces: multiset<Region>, lo: nat, hi: nat)
    requires Within(rest + multiset{whole}, lo, hi)
    requires Within(pieces, whole.start, whole.End())
    ensures Within(rest + pieces, lo, hi)
  {
    assert whole in rest + multiset{whole};
    forall r | r in rest + pieces
      ensures lo <= r.start && r.End() <= hi
    {
      if r in rest {
        assert r in rest + multiset{whole};
      }
    }
  }

  /** A non-empty region above every region of `m` keeps `m` separated. */
  lemma SeparatedFresh(m: multiset<Region>, lo: nat, hi: nat, added: Region)
    requires Separated(m) && Within(m, lo, hi) && lo <= hi
    requires added.start >= hi && added.len > 0
    ensures Separated(m + multiset{added}) && Within(m + multiset{added}, lo, added.End())
  {
    var single := multiset{added};
    assert Separated(single);
    SeparatedUnion(m, single);
  }

  lemma WithinUnion(a: multiset<Region>, b: multiset<Region>, lo: nat, hi: nat)
    requires Within(a, lo, hi) && Within(b, lo, hi)
    ensures Within(a + b, lo, hi)
  {
  }

  lemma WithinWiden(m: multiset<Region>, lo: nat, hi: nat, hi2: nat)
    requires Within(m, lo, hi) && hi <= hi2
    ensures Within(m, lo, hi2)
  {
  }

  lemma CarveSnoc(a: nat, size: nat, count: nat)
    ensures Carve(a, size, count + 1) == Carve(a, size, count) + [a + count * size]
  {
  }

  lemma BlocksAppend(s: seq<nat>, t: seq<nat>, size: nat)
    ensures Blocks(s + t, size) == Blocks(s, size) + Blocks(t, size)
    decreases |s|
  {
    if s != [] {
      assert (s + t)[0] == s[0];
      assert (s + t)[1..] == s[1..] + t;
      BlocksAppend(s[1..], t, size);
      calc {
        Blocks(s + t, size);
        multiset{Region(s[0], size)} + Blocks(s[1..] + t, size);
        multiset{Region(s[0], size)} + (Blocks(s[1..], size) + Blocks(t, size));
        (multiset{Region(s[0], size)} + Blocks(s[1..], size)) + Blocks(t, size);
      }
    } else {
      assert s + t == t;
    }
  }

  /** `count` consecutive blocks carved from `a` are separated and fill exactly [a, a + count·size). */
  lemma {:induction false} CarveSeparated(a: nat, size: nat, count: nat)
    requires size > 0
    ensures Separated(Blocks(Carve(a, size, count), size))
    ensures Within(Blocks(Carve(a, size, count), size), a, a + count * size)
    decreases count
  {
    if count > 0 {
      var c := Carve(a, size, count);
      var head, tail := multiset{Region(a, size)}, Blocks(Carve(a + size, size, count - 1), size);
      CarveSeparated(a + size, size, count - 1);
      MulStep(count, size);
      assert c[1..] == Carve(a + size, size, count - 1);
      assert Blocks(c, size) == head + tail;
      assert Separated(head);
      assert Apart(head, tail) by {
        forall r, t | r in head && t in tail ensures Disjoint(r, t) {
          assert r == Region(a, size);
        }
      }
      SeparatedUnion(head, tail);
    }
  }

  /** The number of bytes the regions of `m` cover, counting each region once per occurrence. */
  ghost function Bytes(m: multiset<Region>): nat
    decreases |m|
  {
    if m == multiset{} then 0 else Pick(m).len + Bytes(m - multiset{Pick(m)})
  }

  /** Some region of a non-empty multiset. */
  ghost function Pick(m: multiset<Region>): (r: Region)
    requires m != multiset{}
    ensures r in m
  {
    var r :| r in m; r
  }

  /** Bytes may count any region of `m` first. */
  lemma {:induction false} BytesRemove(m: multiset<Region>, r: Region)
    requires r in m
    ensures Bytes(m) == r.len + Bytes(m - multiset{r})
    decreases |m|
  {
    var q := Pick(m);
    if q != r {
      var withoutQ, withoutR := m - multiset{q}, m - multiset{r};
      assert r in withoutQ && q in withoutR;
      BytesRemove(withoutQ, r);
      BytesRemove(withoutR, q);
      assert withoutQ - multiset{r} == withoutR - multiset{q};
    }
  }

  /** Bytes adds up over a union. */
  lemma {:induction false} BytesUnion(a: multiset<Region>, b: multiset<Region>)
    ensures Bytes(a + b) == Bytes(a) + Bytes(b)
    decreases |a|
  {
    if a == multiset{} {
      assert a + b == b;
    } else {
      var r :| r in a;
      BytesRemove(a, r);
      BytesRemove(a + b, r);
      assert (a + b) - multiset{r} == (a - multiset{r}) + b;
      BytesUnion(a - multiset{r}, b);
    }
  }

  lemma BytesSingle(r: Region)
    ensures Bytes(multiset{r}) == r.len
  {
    BytesRemove(multiset{r}, r);
    assert multiset{r} - multiset{r} == multiset{};
  }

  lemma BytesAdd(m: multiset<Region>, r: Region)
    ensures Bytes(m + multiset{r}) == Bytes(m) + r.len
  {
    BytesUnion(m, multiset{r});
    BytesSingle(r);
  }

  /** Pieces covering as many bytes as a region may replace it without changing the total. */
  lemma BytesReplace(rest: multiset<Region>, whole: Region, pieces: multiset<Region>)
    requires Bytes(pieces) == whole.len
    ensures Bytes(rest + pieces) == Bytes(rest + multiset{whole})
  {
    BytesUnion(rest, pieces);
    BytesUnion(rest, multiset{whole});
    BytesSingle(whole);
  }

  /** The bytes of `count` blocks of `size` bytes, counted one block at a time. */
  function Span(count: nat, size: nat): nat
  {
    if count == 0 then 0 else size + Span(count - 1, size)
  }

  lemma {:induction false} SpanProduct(count: nat, size: nat)
    ensures Span(count, size) == count * size
  {
    if count > 0 {
      SpanProduct(count - 1, size);
      MulStep(count, size);
    }
  }

  /** The blocks of `size` bytes at the addresses of `s` cover Span(|s|, size) bytes. */
  lemma {:induction false} BytesBlocks(s: seq<nat>, size: nat)
    ensures Bytes(Blocks(s, size)) == Span(|s|, size)
    decreases |s|
  {
    if s != [] {
      var head, tail := multiset{Region(s[0], size)}, Blocks(s[1..], size);
      BytesBlocks(s[1..], size);
      BytesUnion(head, tail);
      BytesSingle(Region(s[0], size));
    }
  }

  lemma MulStep(count: nat, size: nat)
    requires count > 0
    ensures count * size == size + (count - 1) * size
  {
  }
}
