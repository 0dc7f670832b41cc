/**
 * What the typed front ends pass on to the underlying allocator. A front end
 * either answers nullptr itself and calls nothing, or forwards a byte count.
 */
module AllocForward {
  import opened SystemHeap

  /** An allocation request after the front end: nullptr without a call, or allocate(bytes). */
  datatype Allocation = NullResult | Forward(bytes: nat)

  /** A release after the front end: nothing, or deallocate(p, bytes). */
  datatype Release = NoRelease | ForwardRelease(p: Address, bytes: nat)

  /** The bytes an allocation asks the underlying allocator for. */
  function Requested(a: Allocation): nat
  {
    match a
    case NullResult => 0
    case Forward(b) => b
  }

  /** The bytes a release hands back to the underlying allocator. */
  function Returned(r: Release): nat
  {
    match r
    case NoRelease => 0
    case ForwardRelease(_, b) => b
  }

  /**
   * allocate(): Alloc::allocate(sizeof(Type)). Both front ends declare this
   * single-object call the same way, so both use this one definition.
   */
  function AllocateOne(typeSize: nat): (a: Allocation)
    ensures a.Forward? && Requested(a) == typeSize
  {
    Forward(typeSize)
  }

  /** deallocate(p): Alloc::deallocate(p, sizeof(Type)), shared by both front ends as well. */
  function DeallocateOne(p: Address, typeSize: nat): (r: Release)
    ensures r.ForwardRelease? && r.p == p
  {
    ForwardRelease(p, typeSize)
  }
}

/**
 * SimpleAllocator<Type, Alloc> from the allocator chapter: the STL-style wrapper
 * over sgiAlloc or mallocAlloc. The counted allocate and deallocate pass the
 * element count on unchanged; the single-object versions pass sizeof(Type).
 */
module SimpleAllocate {
  import opened SystemHeap
  import opened AllocForward

  /** allocate(n): nullptr when n == 0, otherwise Alloc::allocate(n), with n not scaled by sizeof(Type). */
  function Allocate(n: nat): (a: Allocation)
    ensures a.NullResult? <==> n == 0
    ensures Requested(a) == n
  {
    if n == 0 then NullResult else Forward(n)
  }

  /** deallocate(p, n): nothing when n == 0, otherwise Alloc::deallocate(p, n). */
  function Deallocate(p: Address, n: nat): (r: Release)
    ensures r.NoRelease? <==> n == 0
    ensures r.ForwardRelease? ==> r.p == p
  {
    if n != 0 then ForwardRelease(p, n) else NoRelease
  }

  /** A matched allocate(n) / deallocate(p, n) pair asks for and returns the same bytes, as do allocate() / deallocate(p). */
  lemma Paired(p: Address, n: nat, typeSize: nat)
    ensures Requested(Allocate(n)) == Returned(Deallocate(p, n))
    ensures Requested(AllocateOne(typeSize)) == Returned(DeallocateOne(p, typeSize)) == typeSize
  {
  }

  /** The second level never sees a zero-byte request through the counted calls, which it cannot serve. */
  lemma NeverZero(n: nat, p: Address)
    ensures Allocate(n).Forward? ==> Allocate(n).bytes >= 1
    ensures Deallocate(p, n).ForwardRelease? ==> Deallocate(p, n).bytes >= 1
  {
  }

  /**
   * The counted allocate asks for n bytes, not n objects: five 4-byte ints get a
   * 5-byte request, less than the 20 bytes they occupy.
   */
  lemma UnscaledCount()
    ensures Allocate(5) == Forward(5) && Requested(Allocate(5)) < 5 * 4
  {
  }
}

/**
 * Simple_Alloc<Type, Alloc> from the sequence-container chapter: the same wrapper,
 * but the counted calls scale the element count by sizeof(Type).
 */
module SimpleAllocScaled {
  import opened SystemHeap
  import opened AllocForward

  /** allocate(n): nullptr when n == 0, otherwise allocate(n * sizeof(Type)). */
  function Allocate(n: nat, typeSize: nat): (a: Allocation)
    ensures a.NullResult? <==> n == 0
    ensures Requested(a) == n * typeSize
  {
    if n == 0 then NullResult else Forward(n * typeSize)
  }

  /** deallocate(p, n): nothing when n == 0, otherwise deallocate(p, n * sizeof(Type)). */
  function Deallocate(p: Address, n: nat, typeSize: nat): (r: Release)
    ensures r.NoRelease? <==> n == 0
    ensures r.ForwardRelease? ==> r.p == p
  {
    if n != 0 then ForwardRelease(p, n * typeSize) else NoRelease
  }

  /** Matched pairs agree on the byte count, counted and single. */
  lemma Paired(p: Address, n: nat, typeSize: nat)
    ensures Requested(Allocate(n, typeSize)) == Returned(Deallocate(p, n, typeSize))
    ensures Requested(AllocateOne(typeSize)) == Returned(DeallocateOne(p, typeSize)) == typeSize
  {
  }

  /** n objects get room for n objects: n * sizeof(Type) bytes, one object's worth per element. */
  lemma {:induction false} ScaledCount(n: nat, typeSize: nat)
    ensures Requested(Allocate(n, typeSize)) == Requested(AllocateOne(typeSize)) * n
    ensures Allocate(5, 4) == Forward(20)
  {
  }

  /** With a non-empty type the underlying allocator never sees a zero-byte request. */
  lemma NeverZero(n: nat, typeSize: nat, p: Address)
    requires typeSize >= 1
    ensures Allocate(n, typeSize).Forward? ==> Allocate(n, typeSize).bytes >= 1
    ensures Deallocate(p, n, typeSize).ForwardRelease? ==> Deallocate(p, n, typeSize).bytes >= 1
  {
    if n >= 1 {
      assert n * typeSize >= 1 * typeSize;
    }
  }
}
