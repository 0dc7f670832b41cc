/**
 * The second-level allocator `sgiAlloc` (__DefaultAllocTemplate). Requests of up to
 * 128 bytes are rounded up to a multiple of 8. Each is served from one of 16 free
 * lists, one list per size class 8, 16, …, 128. An empty list is refilled with a
 * batch of blocks carved from a memory pool [startFreeList, endFreeList). The pool
 * itself grows from malloc. Larger requests go straight to the first level.
 *
 * Each free list is modelled as a stack of block addresses, head first. The ghost
 * multiset `held` records the small blocks that callers currently hold. The class
 * invariant says that the pool, every listed block and every held block are
 * non-empty, pairwise disjoint byte ranges lying below the system break.
 */
module DefaultAlloc {
  import opened Wrappers
  import opened SystemHeap
  import opened Regions
  import opened MallocAlloc

  const Align: nat := 8        // __ALIGN
  const MaxBytes: nat := 128   // __MAX_BYTES
  const NFreeLists: nat := 16  // __NFPREELISTS == __MAX_BYTES / __ALIGN

  /** The number of nodes reFill asks chunkAlloc for. */
  const Batch: nat := 20

  /** roundUp: (bytes + 7) & ~7, i.e. bytes + 7 with its low three bits cleared. */
  function RoundUp(bytes: nat): (r: nat)
    ensures r % 8 == 0 && bytes <= r < bytes + 8
  {
    (bytes + 7) - (bytes + 7) % 8
  }

  /** freeListIndex: (bytes + 7) / 8 - 1, the list serving requests of `bytes` bytes. */
  function FreeListIndex(bytes: nat): (i: nat)
    requires bytes >= 1
    ensures i == RoundUp(bytes) / 8 - 1
    ensures bytes <= MaxBytes ==> i < NFreeLists
  {
    (bytes + 7) / 8 - 1
  }

  /** The size of every block on list `i`. */
  function ClassSize(i: nat): nat
  {
    8 * (i + 1)
  }

  /** A size that chunkAlloc and reFill work with: a rounded small request. */
  predicate ValidSize(size: nat)
  {
    8 <= size <= MaxBytes && size % 8 == 0
  }

  /** roundUp gives the least multiple of 8 that is at least `bytes`. */
  lemma RoundUpLeast(bytes: nat, m: nat)
    requires m % 8 == 0 && bytes <= m
    ensures RoundUp(bytes) <= m
  {
  }

  /** The block size of a request's list is exactly the request rounded up. */
  lemma ClassSizeOfIndex(bytes: nat)
    requires bytes >= 1
    ensures ClassSize(FreeListIndex(bytes)) == RoundUp(bytes)
  {
  }

  /** A rounded size is exactly the block size of its list. */
  lemma ClassSizeOfAligned(size: nat)
    requires ValidSize(size)
    ensures ClassSize(FreeListIndex(size)) == size
  {
  }

  /** Two requests share a free list exactly when they round up to the same size. */
  lemma SameList(a: nat, b: nat)
    requires a >= 1 && b >= 1
    ensures FreeListIndex(a) == FreeListIndex(b) <==> RoundUp(a) == RoundUp(b)
  {
  }

  lemma RoundUpExamples()
    ensures RoundUp(119) == 120 && RoundUp(98) == 104 && RoundUp(0) == 0
    ensures FreeListIndex(1) == 0 && FreeListIndex(40) == 4 && FreeListIndex(128) == 15
  {
  }

  lemma {:induction false} AlignedMultiple(size: nat, k: nat)
    requires size % 8 == 0
    ensures (size * k) % 8 == 0
    decreases k
  {
    if k > 0 {
      AlignedMultiple(size, k - 1);
      assert size * k == size * (k - 1) + size;
    }
  }

  // ----- What chunkAlloc carves ---------------------------------------------------

  /** How many bytes chunkAlloc asks for when the pool cannot supply one node. */
  function GrowthBytes(size: nat, nobjs: nat, heapSize: nat): nat
  {
    2 * (size * nobjs) + RoundUp(heapSize / 16)
  }

  lemma MulMonotone(size: nat, a: nat, b: nat)
    requires a <= b
    ensures size * a <= size * b
  {
    assert size * b == size * a + size * (b - a);
  }

  /** The bytes chunkAlloc carves from a pool holding at least one node: some, all inside the pool, in whole granules. */
  lemma CarveSize(left: nat, size: nat, nobjs: nat, count: nat, total: nat)
    requires size > 0 && size % 8 == 0 && nobjs >= 1 && left >= size
    requires count == (if left >= size * nobjs then nobjs else left / size) && total == size * count
    ensures 0 < total <= left && total % 8 == 0
  {
    if left >= size * nobjs {
      MulMonotone(size, 1, nobjs);
    } else {
      QuotientBounds(left, size);
      MulMonotone(size, 1, count);
    }
    AlignedMultiple(size, count);
  }

  /** The whole batch fits in `remaining` bytes. */
  lemma FullBatch(remaining: nat, size: nat, nobjs: nat)
    requires 1 <= nobjs && size * nobjs <= remaining
    requires size % 8 == 0 && remaining % 8 == 0
    ensures size <= size * nobjs && (remaining - size * nobjs) % 8 == 0
  {
    AlignedMultiple(size, nobjs);
    MulMonotone(size, 1, nobjs);
  }

  /** The whole nodes that fit in `remaining` bytes when the full batch does not. */
  lemma PartialBatch(remaining: nat, size: nat, nobjs: nat)
    requires size > 0 && size <= remaining < size * nobjs
    requires size % 8 == 0 && remaining % 8 == 0
    ensures var c := remaining / size;
      1 <= c < nobjs && size * c <= remaining < size * c + size &&
      (remaining - size * c) % 8 == 0
  {
    var c := remaining / size;
    QuotientBounds(remaining, size);
    if c >= nobjs {
      MulMonotone(size, nobjs, c);
    }
    AlignedMultiple(size, c);
    ShrinkAligned(remaining, size * c);
  }

  lemma QuotientBounds(remaining: nat, size: nat)
    requires 0 < size <= remaining
    ensures var c := remaining / size; c >= 1 && size * c <= remaining < size * c + size
  {
    var c := remaining / size;
    assert remaining == size * c + remaining % size;
  }

  /** The growth request is a multiple of 8 and covers the whole batch. */
  lemma GrowthFacts(size: nat, nobjs: nat, heapSize: nat)
    requires nobjs >= 1 && size % 8 == 0
    ensures GrowthBytes(size, nobjs, heapSize) >= size * nobjs >= size
    ensures GrowthBytes(size, nobjs, heapSize) % 8 == 0
  {
    MulMonotone(size, 1, nobjs);
    AlignedMultiple(size, nobjs);
    DoubledPlusAligned(size * nobjs, RoundUp(heapSize / 16));
  }

  lemma DoubledPlusAligned(batch: nat, slack: nat)
    requires batch % 8 == 0 && slack % 8 == 0
    ensures (2 * batch + slack) % 8 == 0 && 2 * batch + slack >= batch
  {
    SumAligned(batch, batch);
    SumAligned(2 * batch, slack);
  }

  lemma ShrinkAligned(d: nat, b: nat)
    requires d % 8 == 0 && b % 8 == 0 && b <= d
    ensures (d - b) % 8 == 0
  {
  }

  lemma SumAligned(a: nat, b: nat)
    requires a % 8 == 0 && b % 8 == 0
    ensures (a + b) % 8 == 0
  {
  }

  // ----- Free lists as regions ----------------------------------------------------

  /** The regions of the blocks on lists 0 .. n-1. */
  ghost function ListRegions(lists: seq<seq<Address>>, n: nat): multiset<Region>
    requires n <= |lists|
  {
    if n == 0 then multiset{} else ListRegions(lists, n - 1) + Blocks(lists[n - 1], ClassSize(n - 1))
  }

  /** The blocks on all the lists. */
  ghost function AllRegions(lists: seq<seq<Address>>): multiset<Region>
  {
    ListRegions(lists, |lists|)
  }

  /** Replacing list `i` by `x` swaps that list's blocks for the blocks of `x`. */
  lemma {:induction false} ListRegionsUpdate(lists: seq<seq<Address>>, i: nat, x: seq<Address>, n: nat)
    requires i < n <= |lists|
    ensures ListRegions(lists[i := x], n) + Blocks(lists[i], ClassSize(i)) ==
      ListRegions(lists, n) + Blocks(x, ClassSize(i))
    decreases n
  {
    var updated := lists[i := x];
    var added, removed := Blocks(x, ClassSize(i)), Blocks(lists[i], ClassSize(i));
    if i == n - 1 {
      ListRegionsUnaffected(lists, i, x, n - 1);
      assert ListRegions(updated, n) == ListRegions(lists, n - 1) + added;
    } else {
      ListRegionsUpdate(lists, i, x, n - 1);
      var before, after := ListRegions(lists, n - 1), ListRegions(updated, n - 1);
      var last := Blocks(lists[n - 1], ClassSize(n - 1));
      assert ListRegions(updated, n) == after + last;
      assert ListRegions(lists, n) == before + last;
      SwapCommon(after, before, removed, added, last);
    }
  }

  lemma SwapCommon(a: multiset<Region>, b: multiset<Region>, c: multiset<Region>, d: multiset<Region>, e: multiset<Region>)
    requires a + c == b + d
    ensures a + e + c == b + e + d
  {
    assert a + e + c == (a + c) + e;
    assert b + e + d == (b + d) + e;
  }

  /** Lists at or beyond `n` do not contribute to the first `n` lists' blocks. */
  lemma {:induction false} ListRegionsUnaffected(lists: seq<seq<Address>>, i: nat, x: seq<Address>, n: nat)
    requires n <= i < |lists|
    ensures ListRegions(lists[i := x], n) == ListRegions(lists, n)
    decreases n
  {
    if n > 0 {
      ListRegionsUnaffected(lists, i, x, n - 1);
    }
  }

  lemma {:induction false} ListRegionsEmpty(lists: seq<seq<Address>>, n: nat)
    requires n <= |lists| && forall i :: 0 <= i < |lists| ==> lists[i] == []
    ensures ListRegions(lists, n) == multiset{}
    decreases n
  {
    if n > 0 {
      ListRegionsEmpty(lists, n - 1);
    }
  }

  lemma Cancel(a: multiset<Region>, b: multiset<Region>, c: multiset<Region>)
    requires a + c == b + c
    ensures a == b
  {
    forall r
      ensures a[r] == b[r]
    {
      assert (a + c)[r] == a[r] + c[r] && (b + c)[r] == b[r] + c[r];
    }
  }

  /** Pushing `p` onto list `j` adds one block of that list's size. */
  lemma PushRegions(lists: seq<seq<Address>>, j: nat, p: Address)
    requires |lists| == NFreeLists && j < NFreeLists
    ensures AllRegions(lists[j := [p] + lists[j]]) ==
      AllRegions(lists) + multiset{Region(p, ClassSize(j))}
  {
    var pushed := [p] + lists[j];
    ListRegionsUpdate(lists, j, pushed, |lists|);
    assert pushed[0] == p && pushed[1..] == lists[j];
    var old_, new_, one := Blocks(lists[j], ClassSize(j)), Blocks(pushed, ClassSize(j)), multiset{Region(p, ClassSize(j))};
    assert new_ == one + old_;
    assert AllRegions(lists) + new_ == (AllRegions(lists) + one) + old_;
    Cancel(AllRegions(lists[j := pushed]), AllRegions(lists) + one, old_);
  }

  /** Popping the head of list `j` removes exactly that block. */
  lemma PopRegions(lists: seq<seq<Address>>, j: nat)
    requires |lists| == NFreeLists && j < NFreeLists && lists[j] != []
    ensures AllRegions(lists[j := lists[j][1..]]) + multiset{Region(lists[j][0], ClassSize(j))} ==
      AllRegions(lists)
  {
    var popped := lists[j][1..];
    ListRegionsUpdate(lists, j, popped, |lists|);
    var whole, rest, one := Blocks(lists[j], ClassSize(j)), Blocks(popped, ClassSize(j)), multiset{Region(lists[j][0], ClassSize(j))};
    assert whole == one + rest;
    assert AllRegions(lists[j := popped]) + whole == (AllRegions(lists[j := popped]) + one) + rest;
    Cancel(AllRegions(lists[j := popped]) + one, AllRegions(lists), rest);
  }

  /** Installing a run of blocks as an empty list `j` adds exactly those blocks. */
  lemma InstallRegions(lists: seq<seq<Address>>, j: nat, run: seq<Address>)
    requires |lists| == NFreeLists && j < NFreeLists && lists[j] == []
    ensures AllRegions(lists[j := run]) ==
      AllRegions(lists) + Blocks(run, ClassSize(j))
  {
    ListRegionsUpdate(lists, j, run, |lists|);
  }

  /** The pool [start, end) as a region, when it is non-empty. */
  ghost function PoolRegion(start: Address, end: Address): multiset<Region>
  {
    if start < end then multiset{Region(start, end - start)} else multiset{}
  }

  /** The blocks on the lists and the blocks handed out: everything owned but the pool. */
  ghost function Owned(lists: seq<seq<Address>>, held: multiset<Region>): multiset<Region>
  {
    AllRegions(lists) + held
  }

  /** The regions are non-empty, pairwise disjoint and lie in [1, brk). */
  ghost predicate Sound(m: multiset<Region>, brk: nat)
  {
    Separated(m) && Within(m, 1, brk)
  }

  /** Cutting `bytes` from the front of the pool keeps everything separated and in bounds. */
  lemma PoolCarve(rest: multiset<Region>, s: nat, e: nat, bytes: nat, lo: nat, hi: nat)
    requires s + bytes <= e && bytes > 0
    requires Separated(PoolRegion(s, e) + rest) && Within(PoolRegion(s, e) + rest, lo, hi)
    ensures Separated(PoolRegion(s + bytes, e) + rest + multiset{Region(s, bytes)})
    ensures Within(PoolRegion(s + bytes, e) + rest + multiset{Region(s, bytes)}, lo, hi)
  {
    var whole := Region(s, e - s);
    assert PoolRegion(s, e) == multiset{whole};
    assert whole in PoolRegion(s, e) + rest;
    var pieces := PoolRegion(s + bytes, e) + multiset{Region(s, bytes)};
    assert Separated(pieces) && Within(pieces, s, e);
    assert rest + multiset{whole} == PoolRegion(s, e) + rest;
    SeparatedReplace(rest, whole, pieces);
    assert PoolRegion(s + bytes, e) + rest + multiset{Region(s, bytes)} == rest + pieces;
  }

  /** The chunk cut from the front of a sound pool is owned by nobody else. */
  lemma PoolCut(lists: seq<seq<Address>>, held: multiset<Region>, s: nat, e: nat, bytes: nat, brk: nat)
    requires s + bytes <= e && bytes > 0
    requires Sound(PoolRegion(s, e) + Owned(lists, held), brk)
    ensures Sound(PoolRegion(s + bytes, e) + Owned(lists, held) + multiset{Region(s, bytes)}, brk)
  {
    PoolCarve(Owned(lists, held), s, e, bytes, 1, brk);
  }

  /** Filing the pool's leftover on the list of its size moves the region from the pool to the lists. */
  lemma SalvageSound(lists: seq<seq<Address>>, held: multiset<Region>, s: nat, e: nat, brk: nat)
    requires |lists| == NFreeLists && s <= e && e - s < MaxBytes && (e - s) % 8 == 0
    requires Sound(PoolRegion(s, e) + Owned(lists, held), brk)
    ensures Sound(Owned(Salvage(lists, s, e - s), held), brk)
  {
    if s == e {
      assert PoolRegion(s, e) + Owned(lists, held) == Owned(lists, held);
    } else {
      SalvageMoves(lists, held, s, e);
    }
  }

  /** A non-empty leftover is the region that the push adds to the lists. */
  lemma SalvageMoves(lists: seq<seq<Address>>, held: multiset<Region>, s: nat, e: nat)
    requires |lists| == NFreeLists && s < e && e - s < MaxBytes && (e - s) % 8 == 0
    ensures Owned(Salvage(lists, s, e - s), held) == PoolRegion(s, e) + Owned(lists, held)
  {
    var j := FreeListIndex(e - s);
    ClassSizeOfIndex(e - s);
    PushRegions(lists, j, s);
    assert PoolRegion(s, e) == multiset{Region(s, ClassSize(j))};
  }

  /** A fresh block above everything owned can become the pool. */
  lemma FreshPool(lists: seq<seq<Address>>, held: multiset<Region>, p: nat, bytes: nat, brk: nat)
    requires 1 <= p && p + bytes <= brk && bytes > 0
    requires Sound(Owned(lists, held), p)
    ensures Sound(PoolRegion(p, p + bytes) + Owned(lists, held), brk)
  {
    var m, block := Owned(lists, held), Region(p, bytes);
    SeparatedFresh(m, 1, p, block);
    WithinWiden(m + multiset{block}, 1, p + bytes, brk);
    assert PoolRegion(p, p + bytes) + m == m + multiset{block};
  }

  /** An empty pool adds nothing to what is owned. */
  lemma NoPool(lists: seq<seq<Address>>, held: multiset<Region>, brk: nat)
    requires Sound(Owned(lists, held), brk)
    ensures Sound(PoolRegion(NULL, NULL) + Owned(lists, held), brk)
  {
    assert PoolRegion(NULL, NULL) + Owned(lists, held) == Owned(lists, held);
  }

  /** The head block of list `j`, taken off the list, can become the pool. */
  lemma ListHeadPool(lists: seq<seq<Address>>, held: multiset<Region>, j: nat, head: Address, bytes: nat, brk: nat)
    requires |lists| == NFreeLists && j < NFreeLists && lists[j] != []
    requires head == lists[j][0] && bytes == ClassSize(j)
    requires Sound(Owned(lists, held), brk)
    ensures bytes % 8 == 0
    ensures Sound(PoolRegion(head, head + bytes) + Owned(lists[j := lists[j][1..]], held), brk)
  {
    PopRegions(lists, j);
    assert PoolRegion(head, head + bytes) == multiset{Region(head, ClassSize(j))};
    assert PoolRegion(head, head + bytes) + Owned(lists[j := lists[j][1..]], held) == Owned(lists, held);
  }

  /** The lists after chunkAlloc files the `remaining` bytes left at `start` as one block. */
  function Salvage(lists: seq<seq<Address>>, start: Address, remaining: nat): seq<seq<Address>>
    requires |lists| == NFreeLists && remaining <= MaxBytes
  {
    if remaining == 0 then lists
    else lists[FreeListIndex(remaining) := [start] + lists[FreeListIndex(remaining)]]
  }

  /** The first non-empty list at index `i` or above: where chunkAlloc cannibalises a block. */
  function FirstStocked(lists: seq<seq<Address>>, i: nat): (r: Option<nat>)
    requires |lists| == NFreeLists
    ensures r.Some? ==>
      i <= r.value < NFreeLists && lists[r.value] != [] &&
      forall j :: i <= j < r.value ==> lists[j] == []
    ensures r.None? ==> forall j :: i <= j < NFreeLists ==> lists[j] == []
    decreases NFreeLists - i
  {
    if i >= NFreeLists then None
    else if lists[i] != [] then Some(i)
    else FirstStocked(lists, i + 1)
  }

  lemma {:induction false} FirstStockedAt(lists: seq<seq<Address>>, i: nat, j: nat)
    requires |lists| == NFreeLists && i <= j < NFreeLists && lists[j] != []
    requires forall k :: i <= k < j ==> lists[k] == []
    ensures FirstStocked(lists, i) == Some(j)
    decreases j - i
  {
    if i < j {
      FirstStockedAt(lists, i + 1, j);
    }
  }

  lemma {:induction false} FirstStockedNone(lists: seq<seq<Address>>, i: nat)
    requires |lists| == NFreeLists
    requires forall k :: i <= k < NFreeLists ==> lists[k] == []
    ensures FirstStocked(lists, i) == None
    decreases NFreeLists - i
  {
    if i < NFreeLists {
      FirstStockedNone(lists, i + 1);
    }
  }

  /**
   * What the allocator's operations observably change: the free lists, the pool,
   * heapSize, the first level's handler slot, and the raw heap's script, break and
   * logs of frees and copies.
   */
  datatype Snapshot = Snapshot(lists: seq<seq<Address>>, start: Address, end: Address, heapSize: nat,
                               handler: Option<Handler>, script: seq<bool>, brk: Address,
                               freed: seq<Address>, copies: seq<Copy>)

  /** The state once chunkAlloc has filed the pool's leftover on its list. */
  function Salvaged(s: Snapshot): Snapshot
    requires |s.lists| == NFreeLists && s.start <= s.end < s.start + MaxBytes
  {
    s.(lists := Salvage(s.lists, s.start, s.end - s.start))
  }

  /**
   * Growing the pool by `bytes` from state `s`: malloc's block at the break, or
   * what scavenging finds when malloc fails. The flag says whether a pool was
   * obtained.
   */
  function Grown(size: nat, bytes: nat, s: Snapshot): (g: (Snapshot, bool))
    requires ValidSize(size) && |s.lists| == NFreeLists && bytes >= size
    ensures |g.0.lists| == NFreeLists
    ensures g.1 ==> g.0.start <= g.0.end && g.0.end - g.0.start >= size
  {
    if !Fails(s.script) then
      (s.(start := s.brk, end := s.brk + bytes, heapSize := s.heapSize + bytes,
          script := Consume(s.script), brk := s.brk + bytes), true)
    else
      Scavenged(size, bytes, s.(start := NULL, script := Consume(s.script)))
  }

  /**
   * After malloc has failed: the head of the first non-empty list of size at least
   * `size` becomes the pool; when there is none, the first level's allocate decides.
   */
  function Scavenged(size: nat, bytes: nat, s: Snapshot): (g: (Snapshot, bool))
    requires ValidSize(size) && |s.lists| == NFreeLists && bytes >= size
    ensures |g.0.lists| == NFreeLists
    ensures g.1 ==> g.0.start <= g.0.end && g.0.end - g.0.start >= size
  {
    match FirstStocked(s.lists, FreeListIndex(size))
    case Some(j) => (TakeHead(s, j), true)
    case None => Fallback(bytes, s)
  }

  /** The head block of list `j` leaves the list and becomes the pool. */
  function TakeHead(s: Snapshot, j: nat): (t: Snapshot)
    requires j < |s.lists| == NFreeLists && s.lists[j] != []
    ensures |t.lists| == NFreeLists && t.end - t.start == ClassSize(j)
  {
    var head := s.lists[j][0];
    s.(lists := s.lists[j := s.lists[j][1..]], start := head, end := head + ClassSize(j))
  }

  /** The first level's allocate(bytes) as the last resort; its block becomes the pool. */
  function Fallback(bytes: nat, s: Snapshot): (g: (Snapshot, bool))
    ensures g.0.lists == s.lists
    ensures g.1 ==> g.0.start <= g.0.end && g.0.end - g.0.start == bytes
  {
    var after := s.(handler := SlotAfter(s.handler, s.script), script := ScriptAfter(s.handler, s.script));
    if Served(s.handler, s.script) then
      (after.(start := s.brk, end := s.brk + bytes, heapSize := s.heapSize + bytes, brk := s.brk + bytes), true)
    else
      (after.(start := NULL, end := NULL), false)
  }

  /**
   * chunkAlloc's first two branches from state `s`, where the pool holds at least
   * one node: the chunk is cut from the front of the pool, the whole batch when
   * it fits and otherwise as many nodes as fit.
   */
  function FromPool(size: nat, nobjs: nat, s: Snapshot): (Snapshot, Outcome, nat)
    requires size > 0 && s.start <= s.end && s.end - s.start >= size
  {
    var remaining := s.end - s.start;
    var count := if remaining >= size * nobjs then nobjs else remaining / size;
    (s.(start := s.start + size * count), Block(s.start), count)
  }

  /** The first two branches as the method computes them: count nodes, totalBytes bytes. */
  lemma FromPoolIs(size: nat, nobjs: nat, s: Snapshot, count: nat, total: nat)
    requires size > 0 && size % 8 == 0 && nobjs >= 1 && s.start <= s.end && s.end - s.start >= size
    requires count == (if s.end - s.start >= size * nobjs then nobjs else (s.end - s.start) / size)
    requires total == size * count
    ensures 0 < total <= s.end - s.start && total % 8 == 0
    ensures FromPool(size, nobjs, s) == (s.(start := s.start + total), Block(s.start), count)
  {
    CarveSize(s.end - s.start, size, nobjs, count, total);
  }

  /**
   * What the first two branches promise: at least one node and at most nobjs, the
   * whole batch exactly when it fits, otherwise a leftover too small for another
   * node; the chunk is the front of the pool and the pool stays a multiple of 8.
   */
  lemma FromPoolFacts(size: nat, nobjs: nat, s: Snapshot)
    requires ValidSize(size) && nobjs >= 1 && s.start <= s.end && s.end - s.start >= size
    requires (s.end - s.start) % 8 == 0
    ensures var f := FromPool(size, nobjs, s);
      f.1 == Block(s.start) && 1 <= f.2 <= nobjs &&
      f.0 == s.(start := s.start + size * f.2) && f.0.start <= s.end &&
      (f.2 == nobjs <==> s.end - s.start >= size * nobjs) &&
      (f.2 < nobjs ==> s.end - f.0.start < size) &&
      (s.end - f.0.start) % 8 == 0
  {
    var remaining := s.end - s.start;
    if remaining < size * nobjs {
      PartialBatch(remaining, size, nobjs);
    } else {
      FullBatch(remaining, size, nobjs);
    }
  }

  /**
   * chunkAlloc's third branch from state `s`: the leftover is salvaged, the pool is
   * grown, and chunkAlloc runs again on the grown pool, which now holds at least
   * one node.
   */
  function Replenished(size: nat, nobjs: nat, s: Snapshot): (r: (Snapshot, Outcome, nat))
    requires ValidSize(size) && nobjs >= 1 && s.start <= s.end < s.start + size && |s.lists| == NFreeLists
    ensures |r.0.lists| == NFreeLists
    decreases 1, 0
  {
    GrowthFacts(size, nobjs, s.heapSize);
    var g := Grown(size, GrowthBytes(size, nobjs, s.heapSize), Salvaged(s));
    if g.1 then ChunkSpec(size, nobjs, g.0) else (g.0, OutOfMemory, 0)
  }

  /**
   * chunkAlloc(size, nobjs) from state `s`: the state it leaves, the chunk and the
   * number of nodes in it. The recursion stops after one growth, because the
   * grown pool serves the chunk from its front.
   */
  function ChunkSpec(size: nat, nobjs: nat, s: Snapshot): (r: (Snapshot, Outcome, nat))
    requires ValidSize(size) && nobjs >= 1 && s.start <= s.end && |s.lists| == NFreeLists
    ensures |r.0.lists| == NFreeLists
    decreases if s.end - s.start >= size then 0 else 1, 1
  {
    if s.end - s.start >= size then FromPool(size, nobjs, s) else Replenished(size, nobjs, s)
  }

  /** chunkAlloc hands back at least one node and never more than were asked for. */
  lemma ChunkCount(size: nat, nobjs: nat, s: Snapshot)
    requires ValidSize(size) && nobjs >= 1 && s.start <= s.end && |s.lists| == NFreeLists
    ensures var c := ChunkSpec(size, nobjs, s); c.1.Block? ==> 1 <= c.2 <= nobjs
  {
    if s.end - s.start >= size {
      FromPoolCount(size, nobjs, s);
    } else {
      assert ChunkSpec(size, nobjs, s) == Replenished(size, nobjs, s);
      ReplenishedCount(size, nobjs, s);
    }
  }

  lemma ReplenishedCount(size: nat, nobjs: nat, s: Snapshot)
    requires ValidSize(size) && nobjs >= 1 && s.start <= s.end < s.start + size && |s.lists| == NFreeLists
    ensures var c := Replenished(size, nobjs, s); c.1.Block? ==> 1 <= c.2 <= nobjs
  {
    GrowthFacts(size, nobjs, s.heapSize);
    var g := Grown(size, GrowthBytes(size, nobjs, s.heapSize), Salvaged(s));
    if g.1 {
      assert Replenished(size, nobjs, s) == ChunkSpec(size, nobjs, g.0) == FromPool(size, nobjs, g.0);
      FromPoolCount(size, nobjs, g.0);
    } else {
      assert Replenished(size, nobjs, s).1 == OutOfMemory;
    }
  }

  lemma FromPoolCount(size: nat, nobjs: nat, s: Snapshot)
    requires size > 0 && nobjs >= 1 && s.start <= s.end && s.end - s.start >= size
    ensures 1 <= FromPool(size, nobjs, s).2 <= nobjs
  {
    var left := s.end - s.start;
    if left < size * nobjs {
      QuotientBounds(left, size);
      if left / size >= nobjs {
        MulMonotone(size, nobjs, left / size);
      }
    }
  }

  /**
   * chunkAlloc files a leftover only on a list of smaller blocks and takes a
   * block only from a non-empty list, so an empty list for `size` stays empty.
   */
  lemma ChunkKeepsEmpty(size: nat, nobjs: nat, s: Snapshot)
    requires ValidSize(size) && nobjs >= 1 && s.start <= s.end && |s.lists| == NFreeLists
    requires (s.end - s.start) % 8 == 0 && s.lists[FreeListIndex(size)] == []
    ensures ChunkSpec(size, nobjs, s).0.lists[FreeListIndex(size)] == []
  {
    var j := FreeListIndex(size);
    if s.end - s.start < size {
      var t := Salvaged(s);
      assert t.lists[j] == [];
      var bytes := GrowthBytes(size, nobjs, s.heapSize);
      GrowthFacts(size, nobjs, s.heapSize);
      var g := Grown(size, bytes, t);
      if Fails(t.script) {
        var u := t.(start := NULL, script := Consume(t.script));
        match FirstStocked(u.lists, j)
        case Some(k) => assert k != j;
        case None =>
      }
      assert g.0.lists[j] == [];
      if g.1 {
        assert ChunkSpec(size, nobjs, s) == ChunkSpec(size, nobjs, g.0) == FromPool(size, nobjs, g.0);
      }
    }
  }

  /**
   * reFill(n) from state `s`: chunkAlloc(n, 20); the first node goes to the caller
   * and the others, in ascending address order, become list freeListIndex(n).
   */
  function Refilled(n: nat, s: Snapshot): (Snapshot, Outcome)
    requires ValidSize(n) && s.start <= s.end && |s.lists| == NFreeLists
  {
    var c := ChunkSpec(n, Batch, s);
    if c.1.OutOfMemory? || c.2 <= 1 then (c.0, c.1)
    else (c.0.(lists := c.0.lists[FreeListIndex(n) := Carve(c.1.addr + n, n, c.2 - 1)]), c.1)
  }

  /** What reFill does with the state, chunk and count that chunkAlloc(n, 20) gave. */
  lemma RefillStep(n: nat, j: nat, s: Snapshot, t: Snapshot, chunk: Outcome, count: nat)
    requires ValidSize(n) && j == FreeListIndex(n) && s.start <= s.end && |s.lists| == NFreeLists
    requires (s.end - s.start) % 8 == 0 && s.lists[j] == []
    requires (t, chunk, count) == ChunkSpec(n, Batch, s)
    ensures |t.lists| == NFreeLists && j < NFreeLists && t.lists[j] == []
    ensures chunk.Block? ==> 1 <= count
    ensures Refilled(n, s) ==
      if chunk.OutOfMemory? || count <= 1 then (t, chunk)
      else (t.(lists := t.lists[j := Carve(chunk.addr + n, n, count - 1)]), chunk)
  {
    ChunkCount(n, Batch, s);
    ChunkKeepsEmpty(n, Batch, s);
  }

  /** The first level's allocate(bytes) from state `s`. */
  function FirstAllocate(bytes: nat, s: Snapshot): (Snapshot, Outcome)
  {
    var after := s.(handler := SlotAfter(s.handler, s.script), script := ScriptAfter(s.handler, s.script));
    if Served(s.handler, s.script) then (after.(brk := s.brk + bytes), Block(s.brk)) else (after, OutOfMemory)
  }

  /** The first level's reallocate(p, _, bytes) from state `s`: the old block is released on success. */
  function FirstReallocate(p: Address, bytes: nat, s: Snapshot): (Snapshot, Outcome)
  {
    var after := s.(handler := SlotAfter(s.handler, s.script), script := ScriptAfter(s.handler, s.script));
    if Served(s.handler, s.script) then (after.(brk := s.brk + bytes, freed := s.freed + [p]), Block(s.brk))
    else (after, OutOfMemory)
  }

  /**
   * allocate(n) from state `s`: the first level above 128 bytes, otherwise the head
   * of list freeListIndex(n), or reFill(roundUp(n)) when that list is empty.
   */
  function Allocated(n: nat, s: Snapshot): (r: (Snapshot, Outcome))
    requires n >= 1 && s.start <= s.end && |s.lists| == NFreeLists
    ensures |r.0.lists| == NFreeLists
    ensures n > MaxBytes ==> r.0.lists == s.lists && r.0.start == s.start && r.0.end == s.end
    ensures n <= MaxBytes && s.lists[FreeListIndex(n)] != [] ==>
      r.1 == Block(s.lists[FreeListIndex(n)][0]) && r.0.brk == s.brk && r.0.heapSize == s.heapSize
  {
    if n > MaxBytes then FirstAllocate(n, s)
    else
      var j := FreeListIndex(n);
      if s.lists[j] == [] then Refilled(RoundUp(n), s)
      else (s.(lists := s.lists[j := s.lists[j][1..]]), Block(s.lists[j][0]))
  }

  /** deallocate(p, n) from state `s`: the first level frees large blocks; small ones go back on their list. */
  function Deallocated(p: Address, n: nat, s: Snapshot): (t: Snapshot)
    requires n >= 1 && |s.lists| == NFreeLists
    ensures |t.lists| == NFreeLists
    ensures n <= MaxBytes ==> t.lists[FreeListIndex(n)] != [] && t.lists[FreeListIndex(n)][0] == p
  {
    if n > MaxBytes then s.(freed := s.freed + [p])
    else s.(lists := s.lists[FreeListIndex(n) := [p] + s.lists[FreeListIndex(n)]])
  }

  /**
   * deallocate(p, n) as the source writes it: a block above 128 bytes is freed by
   * the first level and then pushed onto freeList[freeListIndex(n)] all the same.
   * None when that index lies outside the 16 lists.
   */
  function DeallocatedAsWritten(p: Address, n: nat, s: Snapshot): (r: Option<Snapshot>)
    requires n >= 1 && |s.lists| == NFreeLists
    ensures r.None? <==> n > MaxBytes
    ensures n <= MaxBytes ==> r == Some(Deallocated(p, n, s))
  {
    var t := if n > MaxBytes then s.(freed := s.freed + [p]) else s;
    var j := (n + 7) / 8 - 1;
    if j < NFreeLists then Some(t.(lists := t.lists[j := [p] + t.lists[j]])) else None
  }

  /** As written, every large deallocate indexes past the last free list; for small blocks it is the modelled one. */
  lemma DeallocateFallThrough(p: Address, n: nat, s: Snapshot)
    requires n >= 1 && |s.lists| == NFreeLists
    ensures n > MaxBytes ==> DeallocatedAsWritten(p, n, s) == None && (n + 7) / 8 - 1 >= NFreeLists
    ensures n <= MaxBytes ==> DeallocatedAsWritten(p, n, s) == Some(Deallocated(p, n, s))
    ensures DeallocatedAsWritten(p, 200, s) == None && (200 + 7) / 8 - 1 == 24
  {
  }

  /**
   * reallocate(p, oldSize, newSize) from state `s`: the first level's reallocate
   * above 128 bytes; otherwise allocate(newSize), memcpy of min(oldSize, newSize)
   * bytes, and deallocate(p, oldSize).
   */
  function Reallocated(p: Address, oldSize: nat, newSize: nat, s: Snapshot): (r: (Snapshot, Outcome))
    requires oldSize >= 1 && newSize >= 1 && s.start <= s.end && |s.lists| == NFreeLists
    ensures |r.0.lists| == NFreeLists
    ensures newSize > MaxBytes ==> r.0.lists == s.lists
    ensures newSize <= MaxBytes ==> r.1 == Allocated(newSize, s).1
    ensures newSize <= MaxBytes && oldSize <= MaxBytes && r.1.Block? ==>
      r.0.lists[FreeListIndex(oldSize)] != [] && r.0.lists[FreeListIndex(oldSize)][0] == p
  {
    if newSize > MaxBytes then FirstReallocate(p, newSize, s)
    else
      var a := Allocated(newSize, s);
      if a.1.OutOfMemory? then a
      else
        var copied := a.0.(copies := a.0.copies + [Copy(a.1.addr, p, if oldSize < newSize then oldSize else newSize)]);
        (Deallocated(p, oldSize, copied), a.1)
  }

  /** What reallocate does once allocate(newSize) has produced state `t` and block `q`. */
  lemma ReallocStep(p: Address, oldSize: nat, newSize: nat, s: Snapshot, t: Snapshot, q: Outcome)
    requires 1 <= oldSize && 1 <= newSize <= MaxBytes && s.start <= s.end && |s.lists| == NFreeLists
    requires (t, q) == Allocated(newSize, s) && |t.lists| == NFreeLists
    ensures Reallocated(p, oldSize, newSize, s) ==
      if q.OutOfMemory? then (t, q)
      else (Deallocated(p, oldSize, t.(copies := t.copies + [Copy(q.addr, p, if oldSize < newSize then oldSize else newSize)])), q)
  {
  }

  /** deallocate(p, n) followed by allocate(n) hands p straight back and restores the state: the lists are LIFO. */
  lemma DeallocateThenAllocate(p: Address, n: nat, s: Snapshot)
    requires 1 <= n <= MaxBytes && s.start <= s.end && |s.lists| == NFreeLists
    ensures Allocated(n, Deallocated(p, n, s)) == (s, Block(p))
  {
    var j := FreeListIndex(n);
    assert ([p] + s.lists[j])[1..] == s.lists[j];
    assert s.lists[j := [p] + s.lists[j]][j := s.lists[j]] == s.lists;
  }

  /** A small allocate from a non-empty list takes its head and touches nothing but that list. */
  lemma AllocateFromList(n: nat, s: Snapshot)
    requires 1 <= n <= MaxBytes && s.start <= s.end && |s.lists| == NFreeLists
    requires s.lists[FreeListIndex(n)] != []
    ensures var j := FreeListIndex(n); var a := Allocated(n, s);
      a.1 == Block(s.lists[j][0]) && a.0.lists[j] == s.lists[j][1..] &&
      (forall i :: 0 <= i < NFreeLists && i != j ==> a.0.lists[i] == s.lists[i]) &&
      a.0 == s.(lists := a.0.lists)
  {
  }

  /**
   * The first call on a fresh allocator, allocate(40) with malloc succeeding: the
   * pool grows by 2·40·20 = 1600 bytes, the first node is handed out, 19 nodes go
   * to list 4 and 800 bytes stay in the pool.
   */
  lemma FirstAllocate40(s: Snapshot)
    requires s.lists == seq(NFreeLists, _ => []) && s.start == NULL && s.end == NULL && s.heapSize == 0
    requires s.script == [] && s.brk == 1
    ensures var a := Allocated(40, s);
      a.1 == Block(1) && a.0.heapSize == 1600 && a.0.brk == 1601 &&
      a.0.end - a.0.start == 800 && a.0.start == 801 &&
      a.0.lists[4] == Carve(41, 40, 19) && |a.0.lists[4]| == 19 &&
      (forall i :: 0 <= i < NFreeLists && i != 4 ==> a.0.lists[i] == [])
  {
    FirstChunk40(s);
    var t := s.(start := 801, end := 1601, heapSize := 1600, script := [], brk := 1601);
    assert Allocated(40, s) == (t.(lists := t.lists[4 := Carve(41, 40, 19)]), Block(1));
  }

  /** The chunkAlloc(40, 20) inside that first allocate(40). */
  lemma FirstChunk40(s: Snapshot)
    requires |s.lists| == NFreeLists && s.start == NULL && s.end == NULL && s.heapSize == 0
    requires s.script == [] && s.brk == 1
    ensures ChunkSpec(40, Batch, s) == (s.(start := 801, end := 1601, heapSize := 1600, script := [], brk := 1601), Block(1), 20)
  {
    var g := s.(start := 1, end := 1601, heapSize := 1600, script := [], brk := 1601);
    FirstGrowth40(s);
  }

  /** An empty pool and a malloc that succeeds: the pool becomes [1, 1601). */
  lemma FirstGrowth40(s: Snapshot)
    requires |s.lists| == NFreeLists && s.start == NULL && s.end == NULL && s.heapSize == 0
    requires s.script == [] && s.brk == 1
    ensures ChunkSpec(40, Batch, s) == FromPool(40, Batch, s.(start := 1, end := 1601, heapSize := 1600, script := [], brk := 1601))
  {
    var g := s.(start := 1, end := 1601, heapSize := 1600, script := [], brk := 1601);
    assert RoundUp(0) == 0;
    assert GrowthBytes(40, Batch, 0) == 1600;
    assert Salvaged(s) == s;
    assert !Fails(s.script) && Consume(s.script) == [];
    assert Grown(40, 1600, s) == (g, true);
    assert Replenished(40, Batch, s) == FromPool(40, Batch, g);
  }

  // ----- Moving blocks between the pool, the lists and the callers -------------------

  /** A taller break keeps regions in bounds. */
  lemma SoundWiden(m: multiset<Region>, brk: nat, brk2: nat)
    requires Sound(m, brk) && brk <= brk2
    ensures Sound(m, brk2)
  {
    WithinWiden(m, 1, brk, brk2);
  }

  /** The head of list `j` passes to the caller. */
  lemma PopToHeld(pool: multiset<Region>, lists: seq<seq<Address>>, held: multiset<Region>, j: nat, brk: nat)
    requires |lists| == NFreeLists && j < NFreeLists && lists[j] != []
    requires Sound(pool + Owned(lists, held), brk)
    ensures Sound(pool + Owned(lists[j := lists[j][1..]], held + multiset{Region(lists[j][0], ClassSize(j))}), brk)
  {
    PopRegions(lists, j);
    assert pool + Owned(lists[j := lists[j][1..]], held + multiset{Region(lists[j][0], ClassSize(j))}) ==
      pool + Owned(lists, held);
  }

  /** A block the caller held goes back on list `j`. */
  lemma PushFromHeld(pool: multiset<Region>, lists: seq<seq<Address>>, held: multiset<Region>, j: nat, p: Address, brk: nat)
    requires |lists| == NFreeLists && j < NFreeLists && Region(p, ClassSize(j)) in held
    requires Sound(pool + Owned(lists, held), brk)
    ensures Sound(pool + Owned(lists[j := [p] + lists[j]], held - multiset{Region(p, ClassSize(j))}), brk)
  {
    PushRegions(lists, j, p);
    var r := Region(p, ClassSize(j));
    assert held == (held - multiset{r}) + multiset{r};
    assert pool + Owned(lists[j := [p] + lists[j]], held - multiset{r}) == pool + Owned(lists, held);
  }

  /** A one-node chunk passes to the caller whole. */
  lemma ChunkToHeld(pool: multiset<Region>, lists: seq<seq<Address>>, held: multiset<Region>, c: nat, n: nat, brk: nat)
    requires Sound(pool + Owned(lists, held) + multiset{Region(c, n * 1)}, brk)
    ensures Sound(pool + Owned(lists, held + multiset{Region(c, n)}), brk)
  {
    assert n * 1 == n;
    assert pool + Owned(lists, held + multiset{Region(c, n)}) == pool + Owned(lists, held) + multiset{Region(c, n)};
  }

  /** A chunk of k nodes: the first passes to the caller, the other k - 1 become list `j`. */
  lemma ChunkToList(pool: multiset<Region>, lists: seq<seq<Address>>, held: multiset<Region>, j: nat, c: nat, n: nat, k: nat, brk: nat)
    requires |lists| == NFreeLists && j < NFreeLists && lists[j] == [] && n == ClassSize(j) && k >= 2
    requires Sound(pool + Owned(lists, held) + multiset{Region(c, n * k)}, brk)
    ensures Sound(pool + Owned(lists[j := Carve(c + n, n, k - 1)], held + multiset{Region(c, n)}), brk)
  {
    var rest, run := pool + Owned(lists, held), Carve(c + n, n, k - 1);
    ChunkPieces(rest, c, n, k, brk);
    assert Carve(c, n, k)[1..] == run;
    assert Blocks(Carve(c, n, k), n) == multiset{Region(c, n)} + Blocks(run, n);
    InstallRegions(lists, j, run);
    assert pool + Owned(lists[j := run], held + multiset{Region(c, n)}) == rest + Blocks(Carve(c, n, k), n);
  }

  /** A chunk owned as one region may be owned as its k nodes instead. */
  lemma ChunkPieces(rest: multiset<Region>, c: nat, n: nat, k: nat, brk: nat)
    requires n > 0
    requires Sound(rest + multiset{Region(c, n * k)}, brk)
    ensures Sound(rest + Blocks(Carve(c, n, k), n), brk)
  {
    var whole, pieces := Region(c, n * k), Blocks(Carve(c, n, k), n);
    CarveSeparated(c, n, k);
    assert k * n == n * k;
    SeparatedReplace(rest, whole, pieces);
    WithinReplace(rest, whole, pieces, 1, brk);
  }

  // ----- Counting the bytes the allocator owns ----------------------------------------

  /** The bytes of the blocks on lists 0 .. n-1. */
  ghost function ListBytes(lists: seq<seq<Address>>, n: nat): nat
    requires n <= |lists|
  {
    if n == 0 then 0 else ListBytes(lists, n - 1) + Span(|lists[n - 1]|, ClassSize(n - 1))
  }

  /** The bytes owned outside the pool: the blocks on the lists and the blocks held by callers. */
  ghost function Stock(lists: seq<seq<Address>>, held: multiset<Region>): nat
  {
    ListBytes(lists, |lists|) + Bytes(held)
  }

  lemma {:induction false} ListBytesUnaffected(lists: seq<seq<Address>>, i: nat, x: seq<Address>, n: nat)
    requires n <= i < |lists|
    ensures ListBytes(lists[i := x], n) == ListBytes(lists, n)
    decreases n
  {
    if n > 0 {
      ListBytesUnaffected(lists, i, x, n - 1);
    }
  }

  /** Replacing list `i` by `x` trades that list's bytes for the bytes of `x`. */
  lemma {:induction false} ListBytesUpdate(lists: seq<seq<Address>>, i: nat, x: seq<Address>, n: nat)
    requires i < n <= |lists|
    ensures ListBytes(lists[i := x], n) + Span(|lists[i]|, ClassSize(i)) == ListBytes(lists, n) + Span(|x|, ClassSize(i))
    decreases n
  {
    if i == n - 1 {
      ListBytesUnaffected(lists, i, x, n - 1);
    } else {
      ListBytesUpdate(lists, i, x, n - 1);
    }
  }

  lemma {:induction false} ListBytesEmpty(lists: seq<seq<Address>>, n: nat)
    requires n <= |lists| && forall i :: 0 <= i < |lists| ==> lists[i] == []
    ensures ListBytes(lists, n) == 0
    decreases n
  {
    if n > 0 {
      ListBytesEmpty(lists, n - 1);
    }
  }

  /** The list byte count is the size of the listed regions. */
  lemma {:induction false} ListBytesRegions(lists: seq<seq<Address>>, n: nat)
    requires n <= |lists|
    ensures Bytes(ListRegions(lists, n)) == ListBytes(lists, n)
    decreases n
  {
    if n > 0 {
      var prev, blocks := ListRegions(lists, n - 1), Blocks(lists[n - 1], ClassSize(n - 1));
      assert ListRegions(lists, n) == prev + blocks;
      ListBytesRegions(lists, n - 1);
      BytesUnion(prev, blocks);
      BytesBlocks(lists[n - 1], ClassSize(n - 1));
    }
  }

  /**
   * The pool and the owned regions cover exactly (end - start) + Stock bytes, so the
   * count in Valid() says that together they are the heapSize bytes obtained so far.
   */
  lemma OwnedBytes(lists: seq<seq<Address>>, held: multiset<Region>, s: nat, e: nat)
    requires s <= e
    ensures Bytes(PoolRegion(s, e) + Owned(lists, held)) == (e - s) + Stock(lists, held)
  {
    ListBytesRegions(lists, |lists|);
    BytesUnion(AllRegions(lists), held);
    BytesUnion(PoolRegion(s, e), Owned(lists, held));
    if s < e {
      BytesSingle(Region(s, e - s));
    }
  }

  /**
   * The pool [start, end), the listed blocks and the held blocks are separated and
   * below brk, and together they are exactly heapSize bytes.
   */
  ghost predicate Accounted(lists: seq<seq<Address>>, held: multiset<Region>, start: Address, end: Address, brk: nat, heapSize: nat)
  {
    start <= end && Sound(PoolRegion(start, end) + Owned(lists, held), brk) && (end - start) + Stock(lists, held) == heapSize
  }

  /** Accounted, with `chunk` owned by nobody yet. */
  ghost predicate AccountedWith(lists: seq<seq<Address>>, held: multiset<Region>, start: Address, end: Address, brk: nat,
                                heapSize: nat, chunk: Region)
  {
    Sound(PoolRegion(start, end) + Owned(lists, held) + multiset{chunk}, brk) &&
    (end - start) + Stock(lists, held) + chunk.len == heapSize
  }

  /** The head of list `j` taken as the pool keeps the allocator accounted for. */
  lemma HeadPoolAccounted(lists: seq<seq<Address>>, held: multiset<Region>, j: nat, brk: nat, heapSize: nat)
    requires |lists| == NFreeLists && j < NFreeLists && lists[j] != []
    requires Sound(Owned(lists, held), brk) && Stock(lists, held) == heapSize
    ensures ClassSize(j) % 8 == 0
    ensures Accounted(lists[j := lists[j][1..]], held, lists[j][0], lists[j][0] + ClassSize(j), brk, heapSize)
  {
    ListHeadPool(lists, held, j, lists[j][0], ClassSize(j), brk);
    StockTakeHead(lists, held, j);
  }

  /** A held block pushed back on list `j` moves its bytes and keeps the stock. */
  lemma StockPush(lists: seq<seq<Address>>, held: multiset<Region>, j: nat, p: Address)
    requires |lists| == NFreeLists && j < NFreeLists && Region(p, ClassSize(j)) in held
    ensures Stock(lists[j := [p] + lists[j]], held - multiset{Region(p, ClassSize(j))}) == Stock(lists, held)
  {
    ListBytesUpdate(lists, j, [p] + lists[j], |lists|);
    BytesRemove(held, Region(p, ClassSize(j)));
  }

  /** The head of list `j` handed to a caller keeps the stock. */
  lemma StockPop(lists: seq<seq<Address>>, held: multiset<Region>, j: nat)
    requires |lists| == NFreeLists && j < NFreeLists && lists[j] != []
    ensures Stock(lists[j := lists[j][1..]], held + multiset{Region(lists[j][0], ClassSize(j))}) == Stock(lists, held)
  {
    ListBytesUpdate(lists, j, lists[j][1..], |lists|);
    BytesAdd(held, Region(lists[j][0], ClassSize(j)));
  }

  /** The head of list `j` taken as the new pool leaves the stock by ClassSize(j) bytes. */
  lemma StockTakeHead(lists: seq<seq<Address>>, held: multiset<Region>, j: nat)
    requires |lists| == NFreeLists && j < NFreeLists && lists[j] != []
    ensures ClassSize(j) + Stock(lists[j := lists[j][1..]], held) == Stock(lists, held)
  {
    ListBytesUpdate(lists, j, lists[j][1..], |lists|);
  }

  /** A salvaged leftover of the pool joins the stock. */
  lemma StockSalvage(lists: seq<seq<Address>>, held: multiset<Region>, s: nat, e: nat)
    requires |lists| == NFreeLists && s <= e && e - s < MaxBytes && (e - s) % 8 == 0
    ensures Stock(Salvage(lists, s, e - s), held) == (e - s) + Stock(lists, held)
  {
    if s < e {
      var j := FreeListIndex(e - s);
      ClassSizeOfIndex(e - s);
      ListBytesUpdate(lists, j, [s] + lists[j], |lists|);
      }
  }

  /** A k-node chunk of n-byte nodes, its first node held and the rest installed as list `j`, joins the stock. */
  lemma StockInstall(lists: seq<seq<Address>>, held: multiset<Region>, j: nat, c: nat, n: nat, k: nat)
    requires |lists| == NFreeLists && j < NFreeLists && lists[j] == [] && n == ClassSize(j) && k >= 2
    ensures Stock(lists[j := Carve(c + n, n, k - 1)], held + multiset{Region(c, n)}) == Stock(lists, held) + n * k
  {
    ListBytesUpdate(lists, j, Carve(c + n, n, k - 1), |lists|);
    BytesAdd(held, Region(c, n));
    SpanProduct(k - 1, n);
    MulStep(k, n);
    assert k * n == n * k;
  }

  class DefaultAllocator {
    const first: MallocAllocator
    const freeList: array<seq<Address>>  // freeList[__NFPREELISTS], each list head first
    var startFreeList: Address
    var endFreeList: Address
    var heapSize: nat
    ghost var held: multiset<Region>      // small blocks handed out and not yet returned

    ghost predicate Shape()
      reads this, freeList, first, first.heap
    {
      freeList.Length == NFreeLists && first.heap.Valid() &&
      startFreeList <= endFreeList && (endFreeList - startFreeList) % 8 == 0
    }

    /**
     * The pool, the listed blocks and the held blocks are separated and below the
     * break, and together they are exactly the heapSize bytes obtained so far: no
     * byte is lost or counted twice (OwnedBytes).
     */
    ghost predicate Valid()
      reads this, freeList, first, first.heap
    {
      Shape() && Accounted(freeList[..], held, startFreeList, endFreeList, first.heap.brk, heapSize)
    }

    /** Valid, with one more region owned by nobody yet: a chunk on its way from chunkAlloc to reFill. */
    ghost predicate ValidWith(chunk: Region)
      reads this, freeList, first, first.heap
    {
      Shape() && AccountedWith(freeList[..], held, startFreeList, endFreeList, first.heap.brk, heapSize, chunk)
    }

    /** ValidWith, read off the values the fields hold. */
    lemma ValidWithOf(lists: seq<seq<Address>>, h: multiset<Region>, start: Address, end: Address, brk: nat, size: nat,
                      chunk: Region)
      requires Shape() && freeList[..] == lists && held == h && startFreeList == start && endFreeList == end
      requires first.heap.brk == brk && heapSize == size && AccountedWith(lists, h, start, end, brk, size, chunk)
      ensures ValidWith(chunk)
    {
    }

    /** Valid, read off the values the fields hold. */
    lemma ValidOf(lists: seq<seq<Address>>, h: multiset<Region>, start: Address, end: Address, brk: nat, size: nat)
      requires freeList.Length == NFreeLists && first.heap.Valid() && (end - start) % 8 == 0
      requires freeList[..] == lists && held == h && startFreeList == start && endFreeList == end
      requires first.heap.brk == brk && heapSize == size && Accounted(lists, h, start, end, brk, size)
      ensures Valid()
    {
    }

    /** In a valid state the pool, the listed blocks and the held blocks cover exactly heapSize bytes. */
    lemma ConservesBytes()
      requires Valid()
      ensures Bytes(PoolRegion(startFreeList, endFreeList) + Owned(freeList[..], held)) == heapSize
    {
      OwnedBytes(freeList[..], held, startFreeList, endFreeList);
    }

    /** The lists and held blocks are in order and hold all heapSize bytes; the pool is about to be replaced. */
    ghost predicate StockValid()
      reads this, freeList, first, first.heap
    {
      freeList.Length == NFreeLists && first.heap.Valid() && Sound(Owned(freeList[..], held), first.heap.brk) &&
      Stock(freeList[..], held) == heapSize
    }

    /** The allocator's observable state. */
    ghost function Snap(): Snapshot
      reads this, freeList, first, first.heap
    {
      Snapshot(freeList[..], startFreeList, endFreeList, heapSize, first.handler, first.heap.script, first.heap.brk,
               first.heap.freed, first.heap.copies)
    }

    constructor (first: MallocAllocator)
      requires first.heap.Valid()
      ensures Valid() && this.first == first && fresh(freeList)
      ensures forall i :: 0 <= i < NFreeLists ==> freeList[i] == []
      ensures startFreeList == NULL && endFreeList == NULL && heapSize == 0 && held == multiset{}
    {
      this.first := first;
      freeList := new seq<Address>[NFreeLists](_ => []);
      startFreeList, endFreeList, heapSize := NULL, NULL, 0;
      held := multiset{};
      new;
      ListRegionsEmpty(freeList[..], freeList.Length);
      ListBytesEmpty(freeList[..], freeList.Length);
      assert PoolRegion(NULL, NULL) + Owned(freeList[..], held) == multiset{};
    }

    /**
     * The leftover of a pool too small for one node: when non-empty, it is filed as
     * one block on the list of its size.
     */
    method SalvageLeftover()
      requires Valid() && endFreeList - startFreeList < MaxBytes
      modifies freeList
      ensures StockValid()
      ensures freeList[..] == Salvage(old(freeList[..]), startFreeList, endFreeList - startFreeList)
    {
      ghost var lists := freeList[..];
      var remaining := endFreeList - startFreeList;
      if remaining > 0 {
        var j := FreeListIndex(remaining);
        freeList[j] := [startFreeList] + freeList[j];
        assert freeList[..] == lists[j := [startFreeList] + lists[j]];
      }
      SalvageSound(lists, held, startFreeList, endFreeList, first.heap.brk);
      StockSalvage(lists, held, startFreeList, endFreeList);
      assert Stock(freeList[..], held) == heapSize;
    }

    /**
     * The scan of chunkAlloc's failure path: the first non-empty list for sizes
     * size, size + 8, …, 128 gives up its head block as the new pool.
     */
    method Cannibalise(size: nat) returns (found: bool)
      requires StockValid() && ValidSize(size)
      modifies this, freeList
      ensures found <==> FirstStocked(old(freeList[..]), FreeListIndex(size)).Some?
      ensures found ==>
        Valid() && Snap() == TakeHead(old(Snap()), FirstStocked(old(freeList[..]), FreeListIndex(size)).value)
      ensures !found ==> StockValid() && Snap() == old(Snap())
      ensures held == old(held)
    {
      ghost var lists := freeList[..];
      ghost var from := FreeListIndex(size);
      var i := size;
      found := false;
      while i <= MaxBytes
        invariant size <= i <= MaxBytes + 8 && i % 8 == 0
        invariant forall k :: from <= k < i / 8 - 1 ==> lists[k] == []
        invariant freeList[..] == lists
        decreases MaxBytes - i
      {
        var j := FreeListIndex(i);
        if freeList[j] != [] {
          FirstStockedAt(lists, from, j);
          ClassSizeOfIndex(i);
          HeadToPool(j, i);
          found := true;
          return;
        }
        i := i + 8;
      }
      FirstStockedNone(lists, from);
    }

    /** The head block of list `j`, of `bytes` bytes, leaves the list and becomes the pool. */
    method HeadToPool(j: nat, bytes: nat)
      requires StockValid() && j < NFreeLists && freeList[j] != [] && bytes == ClassSize(j)
      modifies this, freeList
      ensures Valid() && Snap() == TakeHead(old(Snap()), j) && held == old(held)
    {
      ghost var lists := freeList[..];
      ghost var h, brk, size := held, first.heap.brk, heapSize;
      ghost var rest, start, end := lists[j := lists[j][1..]], lists[j][0], lists[j][0] + ClassSize(j);
      HeadPoolAccounted(lists, h, j, brk, size);
      assert (end - start) % 8 == 0;
      var ptr := freeList[j][0];
      startFreeList := ptr;
      endFreeList := ptr + bytes;
      freeList[j] := freeList[j][1..];
      assert freeList[..] == rest;
      ValidOf(rest, h, start, end, brk, size);
    }

    /**
     * chunkAlloc's first two branches: the pool holds at least one node, so the
     * chunk is cut from its front, as many nodes as asked for or as many as fit.
     */
    method CarveFromPool(size: nat, nobjs: nat) returns (r: Outcome, count: nat)
      requires Valid() && ValidSize(size) && nobjs >= 1 && endFreeList - startFreeList >= size
      modifies this
      ensures r.Block? && ValidWith(Region(r.addr, size * count)) && held == old(held)
      ensures (Snap(), r, count) == FromPool(size, nobjs, old(Snap()))
    {
      ghost var s0 := Snap();
      var bytesLeft := endFreeList - startFreeList;
      if bytesLeft >= size * nobjs {
        count := nobjs;
      } else {
        count := bytesLeft / size;
      }
      var totalBytes := size * count;
      FromPoolIs(size, nobjs, s0, count, totalBytes);
      var chunk := TakeFromPool(totalBytes);
      r := Block(chunk);
      assert Snap() == s0.(start := s0.start + totalBytes);
    }

    /** Cuts `bytes` from the front of the pool. */
    method TakeFromPool(bytes: nat) returns (chunk: Address)
      requires Valid() && bytes > 0 && bytes % 8 == 0 && endFreeList - startFreeList >= bytes
      modifies this
      ensures ValidWith(Region(chunk, bytes)) && chunk == old(startFreeList)
      ensures startFreeList == old(startFreeList) + bytes && endFreeList == old(endFreeList)
      ensures heapSize == old(heapSize) && held == old(held)
      ensures Snap() == old(Snap()).(start := old(startFreeList) + bytes)
    {
      ghost var s0 := Snap();
      ghost var h, brk, size := held, first.heap.brk, heapSize;
      var start, end := startFreeList, endFreeList;
      ShrinkAligned(end - start, bytes);
      PoolCut(s0.lists, h, start, end, bytes, brk);
      assert AccountedWith(s0.lists, h, start + bytes, end, brk, size, Region(start, bytes));
      chunk := start;
      startFreeList := start + bytes;
      ValidWithOf(s0.lists, h, start + bytes, end, brk, size, Region(start, bytes));
      assert Snap() == s0.(start := start + bytes);
    }

    /** Makes the fresh block [p, p + bytes) the pool; it lies above everything already owned. */
    method AdoptPool(p: Address, bytes: nat)
      requires freeList.Length == NFreeLists && first.heap.Valid()
      requires Sound(Owned(freeList[..], held), p) && Stock(freeList[..], held) == heapSize
      requires 1 <= p && p + bytes <= first.heap.brk && bytes > 0 && bytes % 8 == 0
      modifies this
      ensures Valid() && held == old(held)
      ensures startFreeList == p && endFreeList == p + bytes && heapSize == old(heapSize) + bytes
    {
      ghost var lists := freeList[..];
      FreshPool(lists, held, p, bytes, first.heap.brk);
      startFreeList := p;
      endFreeList := p + bytes;
      heapSize := heapSize + bytes;
      assert freeList[..] == lists;
    }

    /**
     * The pool-growing part of chunkAlloc's third branch, after the leftover has
     * been salvaged: malloc(bytes); failing that, the first non-empty list of size
     * at least `size` gives up a block; failing that, the first level's allocate.
     */
    method GrowPool(size: nat, bytes: nat) returns (ok: bool)
      requires StockValid() && ValidSize(size) && bytes >= size && bytes % 8 == 0
      modifies this, freeList, first, first.heap
      ensures Valid() && held == old(held)
      ensures Snap() == Grown(size, bytes, old(Snap())).0 && ok == Grown(size, bytes, old(Snap())).1
    {
      ghost var lists := freeList[..];
      var p := first.heap.Malloc(bytes);
      startFreeList := p;
      assert freeList[..] == lists;
      assert Stock(freeList[..], held) == heapSize;
      if p == NULL {
        ok := Scavenge(size, bytes);
      } else {
        AdoptPool(p, bytes);
        ok := true;
      }
    }

    /** The rest of the growth path once malloc has failed. */
    method Scavenge(size: nat, bytes: nat) returns (ok: bool)
      requires StockValid() && ValidSize(size) && bytes >= size && bytes % 8 == 0
      modifies this, freeList, first, first.heap
      ensures Valid() && held == old(held)
      ensures Snap() == Scavenged(size, bytes, old(Snap())).0 && ok == Scavenged(size, bytes, old(Snap())).1
    {
      var found := Cannibalise(size);
      if found {
        ok := true;
      } else {
        ok := FallBack(bytes);
      }
    }

    /** endFreeList := 0 and the first level's allocate(bytes); an out-of-memory stops here. */
    method FallBack(bytes: nat) returns (ok: bool)
      requires StockValid() && bytes > 0 && bytes % 8 == 0
      modifies this, first, first.heap
      ensures Valid() && held == old(held)
      ensures Snap() == Fallback(bytes, old(Snap())).0 && ok == Fallback(bytes, old(Snap())).1
    {
      ghost var s0 := Snap();
      ghost var lists := freeList[..];
      endFreeList := NULL;
      var q := first.Allocate(bytes);
      assert freeList[..] == lists;
      ghost var after := s0.(handler := first.handler, script := first.heap.script, brk := first.heap.brk, end := NULL);
      assert Snap() == after;
      if q.OutOfMemory? {
        // the first level reports "Out of Memory." and exits
        startFreeList := NULL;
        ok := false;
        NoPool(lists, held, first.heap.brk);
        assert Snap() == after.(start := NULL);
      } else {
        AdoptPool(q.addr, bytes);
        ok := true;
        assert Snap() == after.(start := s0.brk, end := s0.brk + bytes, heapSize := s0.heapSize + bytes);
      }
    }

    /** Files the pool's leftover on its list, then grows the pool by `bytes`. */
    method SalvageAndGrow(size: nat, bytes: nat) returns (ok: bool)
      requires Valid() && ValidSize(size) && endFreeList - startFreeList < size
      requires bytes >= size && bytes % 8 == 0
      modifies this, freeList, first, first.heap
      ensures Valid() && held == old(held)
      ensures Snap() == Grown(size, bytes, Salvaged(old(Snap()))).0 && ok == Grown(size, bytes, Salvaged(old(Snap()))).1
    {
      ghost var s0 := Snap();
      SalvageLeftover();
      assert Snap() == Salvaged(s0);
      ok := GrowPool(size, bytes);
    }

    /**
     * chunkAlloc's third branch: salvage the leftover, grow the pool, and carve
     * again. The re-entered chunkAlloc finds at least one node in the new pool, so
     * it takes its first or second branch, which CarveFromPool is.
     */
    method ReplenishPool(size: nat, nobjs: nat) returns (r: Outcome, count: nat)
      requires Valid() && ValidSize(size) && nobjs >= 1 && endFreeList - startFreeList < size
      modifies this, freeList, first, first.heap
      ensures Shape() && held == old(held)
      ensures r.Block? ==> ValidWith(Region(r.addr, size * count))
      ensures r.OutOfMemory? ==> Valid()
      ensures (Snap(), r, count) == Replenished(size, nobjs, old(Snap()))
    {
      ghost var s0 := Snap();
      var bytesToGet := GrowthBytes(size, nobjs, heapSize);
      GrowthFacts(size, nobjs, heapSize);
      var ok := SalvageAndGrow(size, bytesToGet);
      if !ok {
        r, count := OutOfMemory, 0;
        return;
      }
      r, count := CarveFromPool(size, nobjs);
    }

    /**
     * chunkAlloc(size, nobjs): a chunk of `count` consecutive nodes of `size`
     * bytes, which the allocator then owns as one region.
     */
    method ChunkAlloc(size: nat, nobjs: nat) returns (r: Outcome, count: nat)
      requires Valid() && ValidSize(size) && nobjs >= 1
      modifies this, freeList, first, first.heap
      ensures Shape() && held == old(held)
      ensures r.Block? ==> ValidWith(Region(r.addr, size * count))
      ensures r.OutOfMemory? ==> Valid()
      ensures (Snap(), r, count) == ChunkSpec(size, nobjs, old(Snap()))
    {
      if endFreeList - startFreeList >= size {
        r, count := CarveFromPool(size, nobjs);
      } else {
        r, count := ReplenishPool(size, nobjs);
      }
    }

    /**
     * The link-writing loop of reFill: starting at `a`, each of `k` nodes of `size`
     * bytes is linked to the next and the last link is null. The result is the
     * list those links spell, head first.
     */
    static method ThreadNodes(a: Address, size: nat, k: nat) returns (nodes: seq<Address>)
      requires k >= 1
      ensures nodes == Carve(a, size, k)
    {
      var next := a;
      nodes := [];
      var listIndex := 1;
      while true
        invariant 1 <= listIndex <= k
        invariant next == a + (listIndex - 1) * size
        invariant nodes == Carve(a, size, listIndex - 1)
        decreases k - listIndex
      {
        var current := next;
        next := next + size;
        CarveSnoc(a, size, listIndex - 1);
        nodes := nodes + [current];
        if k == listIndex {
          break;  // current->freeListLink = nullptr
        }
        // current->freeListLink = next
        assert next == a + listIndex * size;
        listIndex := listIndex + 1;
      }
    }

    /**
     * reFill(n): chunkAlloc(n, 20) and, when more than one node came back, the
     * others threaded into list freeListIndex(n); the first node goes to the caller.
     */
    method ReFill(n: nat) returns (r: Outcome)
      requires Valid() && ValidSize(n) && freeList[FreeListIndex(n)] == []
      modifies this, freeList, first, first.heap
      ensures Valid()
      ensures held == if r.Block? then old(held) + multiset{Region(r.addr, n)} else old(held)
      ensures (Snap(), r) == Refilled(n, old(Snap()))
    {
      ghost var s0 := Snap();
      var j := FreeListIndex(n);
      ClassSizeOfAligned(n);
      assert s0.lists[j] == [] && (s0.end - s0.start) % 8 == 0 && s0.start <= s0.end;
      var chunk, count := ChunkAlloc(n, Batch);
      RefillStep(n, j, s0, Snap(), chunk, count);
      r := Distribute(n, j, chunk, count);
    }

    /** The second half of reFill: chunkAlloc's chunk is split between the caller and list `j`. */
    method Distribute(n: nat, j: nat, chunk: Outcome, count: nat) returns (r: Outcome)
      requires j < NFreeLists && ClassSize(j) == n && Shape() && freeList[j] == []
      requires chunk.Block? ==> 1 <= count && ValidWith(Region(chunk.addr, n * count))
      requires chunk.OutOfMemory? ==> Valid()
      modifies this, freeList
      ensures Valid() && r == chunk
      ensures held == if r.Block? then old(held) + multiset{Region(r.addr, n)} else old(held)
      ensures chunk.OutOfMemory? || count <= 1 ==> Snap() == old(Snap())
      ensures chunk.Block? && count > 1 ==>
        Snap() == old(Snap()).(lists := old(freeList[..])[j := Carve(chunk.addr + n, n, count - 1)])
    {
      r := chunk;
      if chunk.OutOfMemory? {
        return;
      }
      if count == 1 {
        KeepChunk(chunk.addr, n);
        return;
      }
      ghost var s0 := Snap();
      var nodes := ThreadNodes(chunk.addr + n, n, count - 1);
      assert Snap() == s0 && s0.lists[j := nodes] == old(freeList[..])[j := Carve(chunk.addr + n, n, count - 1)];
      InstallChunk(j, chunk.addr, n, count, nodes);
    }

    /** A one-node chunk goes to the caller. */
    method KeepChunk(c: Address, n: nat)
      requires ValidWith(Region(c, n * 1))
      modifies this
      ensures Valid() && held == old(held) + multiset{Region(c, n)} && Snap() == old(Snap())
    {
      ChunkToHeld(PoolRegion(startFreeList, endFreeList), freeList[..], held, c, n, first.heap.brk);
      BytesAdd(held, Region(c, n));
      held := held + multiset{Region(c, n)};
    }

    /** The first node of a k-node chunk goes to the caller; the others, threaded, become list `j`. */
    method InstallChunk(j: nat, c: Address, n: nat, k: nat, nodes: seq<Address>)
      requires ValidWith(Region(c, n * k)) && j < NFreeLists && freeList[j] == [] && n == ClassSize(j) && k >= 2
      requires nodes == Carve(c + n, n, k - 1)
      modifies this, freeList
      ensures Valid() && held == old(held) + multiset{Region(c, n)}
      ensures Snap() == old(Snap()).(lists := old(freeList[..])[j := nodes])
    {
      ghost var lists := freeList[..];
      ChunkToList(PoolRegion(startFreeList, endFreeList), lists, held, j, c, n, k, first.heap.brk);
      StockInstall(lists, held, j, c, n, k);
      freeList[j] := nodes;
      held := held + multiset{Region(c, n)};
      assert freeList[..] == lists[j := nodes];
    }

    /**
     * allocate(n): above 128 bytes the first level serves the request; otherwise
     * the head of list freeListIndex(n) is handed out, or reFill(roundUp(n)) runs
     * when that list is empty.
     */
    method Allocate(n: nat) returns (r: Outcome)
      requires Valid() && n >= 1
      modifies this, freeList, first, first.heap
      ensures Valid()
      ensures (Snap(), r) == Allocated(n, old(Snap()))
      ensures held == if n <= MaxBytes && r.Block? then old(held) + multiset{Region(r.addr, RoundUp(n))} else old(held)
    {
      if n > MaxBytes {
        r := LargeAllocate(n);
        return;
      }
      var j := FreeListIndex(n);
      if freeList[j] == [] {
        SameList(n, RoundUp(n));
        ClassSizeOfIndex(n);
        r := ReFill(RoundUp(n));
        return;
      }
      ClassSizeOfIndex(n);
      r := PopHead(j);
    }

    /** A request above 128 bytes: mallocAlloc::allocate. */
    method LargeAllocate(n: nat) returns (r: Outcome)
      requires Valid()
      modifies first, first.heap
      ensures Valid() && (Snap(), r) == FirstAllocate(n, old(Snap()))
    {
      ghost var m := PoolRegion(startFreeList, endFreeList) + Owned(freeList[..], held);
      r := first.Allocate(n);
      SoundWiden(m, old(first.heap.brk), first.heap.brk);
    }

    /** The head of list `j` is handed out. */
    method PopHead(j: nat) returns (r: Outcome)
      requires Valid() && j < NFreeLists && freeList[j] != []
      modifies this, freeList
      ensures Valid() && r == Block(old(freeList[j][0]))
      ensures held == old(held) + multiset{Region(r.addr, ClassSize(j))}
      ensures Snap() == old(Snap()).(lists := old(freeList[..])[j := old(freeList[j][1..])])
    {
      ghost var lists := freeList[..];
      PopToHeld(PoolRegion(startFreeList, endFreeList), lists, held, j, first.heap.brk);
      StockPop(lists, held, j);
      r := Block(freeList[j][0]);
      held := held + multiset{Region(r.addr, ClassSize(j))};
      freeList[j] := freeList[j][1..];
      assert freeList[..] == lists[j := lists[j][1..]];
    }

    /**
     * deallocate(p, n): above 128 bytes the first level frees the block; otherwise
     * p is pushed onto the head of list freeListIndex(n).
     */
    method Deallocate(p: Address, n: nat)
      requires Valid() && n >= 1
      requires n <= MaxBytes ==> Region(p, RoundUp(n)) in held
      modifies this, freeList, first.heap
      ensures Valid() && Snap() == Deallocated(p, n, old(Snap()))
      ensures held == if n <= MaxBytes then old(held) - multiset{Region(p, RoundUp(n))} else old(held)
    {
      if n > MaxBytes {
        first.Deallocate(p, n);
        return;
      }
      var j := FreeListIndex(n);
      ClassSizeOfIndex(n);
      PushHead(j, p);
    }

    /** A held block goes back on the head of list `j`. */
    method PushHead(j: nat, p: Address)
      requires Valid() && j < NFreeLists && Region(p, ClassSize(j)) in held
      modifies this, freeList
      ensures Valid() && held == old(held) - multiset{Region(p, ClassSize(j))}
      ensures Snap() == old(Snap()).(lists := old(freeList[..])[j := [p] + old(freeList[j])])
    {
      ghost var lists := freeList[..];
      PushFromHeld(PoolRegion(startFreeList, endFreeList), lists, held, j, p, first.heap.brk);
      StockPush(lists, held, j, p);
      freeList[j] := [p] + freeList[j];
      held := held - multiset{Region(p, ClassSize(j))};
      assert freeList[..] == lists[j := [p] + lists[j]];
    }

    /**
     * reallocate(p, oldSize, newSize): the first level's reallocate above 128 bytes;
     * otherwise a new small block, a copy of min(oldSize, newSize) bytes, and
     * deallocate(p, oldSize).
     */
    method Reallocate(p: Address, oldSize: nat, newSize: nat) returns (r: Outcome)
      requires Valid() && oldSize >= 1 && newSize >= 1
      requires oldSize <= MaxBytes ==> newSize <= MaxBytes && Region(p, RoundUp(oldSize)) in held
      modifies this, freeList, first, first.heap
      ensures Valid() && (Snap(), r) == Reallocated(p, oldSize, newSize, old(Snap()))
      ensures newSize > MaxBytes || r.OutOfMemory? ==> held == old(held)
      ensures newSize <= MaxBytes && r.Block? ==>
        held == old(held) + multiset{Region(r.addr, RoundUp(newSize))} -
          (if oldSize <= MaxBytes then multiset{Region(p, RoundUp(oldSize))} else multiset{})
    {
      if newSize > MaxBytes {
        r := LargeReallocate(p, oldSize, newSize);
      } else {
        r := SmallReallocate(p, oldSize, newSize);
      }
    }

    /** A resize to at most 128 bytes: allocate, memcpy of min(oldSize, newSize) bytes, deallocate. */
    method SmallReallocate(p: Address, oldSize: nat, newSize: nat) returns (r: Outcome)
      requires Valid() && oldSize >= 1 && 1 <= newSize <= MaxBytes
      requires oldSize <= MaxBytes ==> Region(p, RoundUp(oldSize)) in held
      modifies this, freeList, first, first.heap
      ensures Valid() && (Snap(), r) == Reallocated(p, oldSize, newSize, old(Snap()))
      ensures r.OutOfMemory? ==> held == old(held)
      ensures r.Block? ==>
        held == old(held) + multiset{Region(r.addr, RoundUp(newSize))} -
          (if oldSize <= MaxBytes then multiset{Region(p, RoundUp(oldSize))} else multiset{})
    {
      ghost var s0 := Snap();
      r := Allocate(newSize);
      ReallocStep(p, oldSize, newSize, s0, Snap(), r);
      if r.OutOfMemory? {
        return;
      }
      var copySize := if oldSize < newSize then oldSize else newSize;
      CopyAndRelease(p, oldSize, r.addr, copySize);
    }

    /** The tail of a small reallocate: memcpy(dst, p, bytes), then deallocate(p, oldSize). */
    method CopyAndRelease(p: Address, oldSize: nat, dst: Address, bytes: nat)
      requires Valid() && oldSize >= 1
      requires oldSize <= MaxBytes ==> Region(p, RoundUp(oldSize)) in held
      modifies this, freeList, first.heap
      ensures Valid()
      ensures Snap() == Deallocated(p, oldSize, old(Snap()).(copies := old(first.heap.copies) + [Copy(dst, p, bytes)]))
      ensures held == if oldSize <= MaxBytes then old(held) - multiset{Region(p, RoundUp(oldSize))} else old(held)
    {
      first.heap.Memcpy(dst, p, bytes);
      Deallocate(p, oldSize);
    }

    /** A resize to more than 128 bytes of a block above 128 bytes: mallocAlloc::reallocate. */
    method LargeReallocate(p: Address, oldSize: nat, newSize: nat) returns (r: Outcome)
      requires Valid()
      modifies first, first.heap
      ensures Valid() && (Snap(), r) == FirstReallocate(p, newSize, old(Snap()))
    {
      ghost var m := PoolRegion(startFreeList, endFreeList) + Owned(freeList[..], held);
      r := first.Reallocate(p, oldSize, newSize);
      SoundWiden(m, old(first.heap.brk), first.heap.brk);
    }
  }
}
