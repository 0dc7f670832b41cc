/**
 * The single-owner smart pointer myAutoPointer
 * (src/3_2/simpleAutoPointer/include/simpleAutoPointer.h).
 *
 * Pointers are addresses, 0 being nullptr.  The free store that `delete`
 * returns memory to is the class Store: the set of live addresses and the
 * order in which pointees were deleted.  Deleting nullptr does nothing, and
 * deleting any other address is only defined while it is live.
 */
module AutoPointer {

  /** nullptr. */
  const Null: nat := 0

  class Store {
    var live: set<nat>
    var deleted: seq<nat>

    constructor (live: set<nat>)
      requires Null !in live
      ensures this.live == live && deleted == []
    {
      this.live := live;
      deleted := [];
    }

    /** `delete p`: nothing for nullptr, else p stops being live. */
    method Delete(p: nat)
      requires p == Null || p in live
      modifies this
      ensures p == Null ==> live == old(live) && deleted == old(deleted)
      ensures p != Null ==> live == old(live) - {p} && deleted == old(deleted) + [p]
    {
      if p != Null {
        live := live - {p};
        deleted := deleted + [p];
      }
    }
  }

  class MyAutoPointer {
    var pointer: nat

    /** myAutoPointer(p), p defaulting to nullptr: the holder adopts p. */
    constructor (p: nat)
      ensures pointer == p
    {
      pointer := p;
    }

    /**
     * The copy constructor and the templated one from myAutoPointer<U>: the
     * new holder takes other's pointer through other.release().  Without
     * class hierarchies the two are the same operation here.
     */
    constructor Transfer(other: MyAutoPointer)
      modifies other
      ensures pointer == old(other.pointer) && other.pointer == Null
    {
      var p := other.Release();
      pointer := p;
    }

    /** get() and operator->: the held pointer, the holder unchanged. */
    function Get(): (p: nat)
      reads this
      ensures p == pointer
    {
      pointer
    }

    /** release(): hands the pointer back and leaves the holder at nullptr. */
    method Release() returns (p: nat)
      modifies this
      ensures p == old(pointer) && pointer == Null
    {
      p := pointer;
      pointer := Null;
    }

    /**
     * reset(p), p defaulting to nullptr: when p is the held pointer nothing
     * happens; otherwise the old pointee is deleted and p is held.
     */
    method Reset(p: nat, store: Store)
      requires pointer == Null || pointer in store.live
      modifies this, store
      ensures p == old(pointer) ==> pointer == old(pointer) && store.live == old(store.live)
      ensures p == old(pointer) ==> store.deleted == old(store.deleted)
      ensures p != old(pointer) ==> pointer == p
      ensures p != old(pointer) && old(pointer) == Null ==>
        store.live == old(store.live) && store.deleted == old(store.deleted)
      ensures p != old(pointer) && old(pointer) != Null ==>
        store.live == old(store.live) - {old(pointer)} && store.deleted == old(store.deleted) + [old(pointer)]
    {
      if p != pointer {
        store.Delete(pointer);
        pointer := p;
      }
    }

    /**
     * operator=(rhs): assigning a holder to itself changes nothing; otherwise
     * reset(rhs.release()), so rhs ends at nullptr and the pointee this
     * holder had is deleted unless rhs held the same address.
     */
    method Assign(rhs: MyAutoPointer, store: Store)
      requires pointer == Null || pointer in store.live
      modifies this, rhs, store
      ensures this == rhs ==> pointer == old(pointer)
      ensures this == rhs ==> store.live == old(store.live) && store.deleted == old(store.deleted)
      ensures this != rhs ==> pointer == old(rhs.pointer) && rhs.pointer == Null
      ensures this != rhs && old(pointer) != Null && old(pointer) != old(rhs.pointer) ==>
        store.live == old(store.live) - {old(pointer)} && store.deleted == old(store.deleted) + [old(pointer)]
      ensures this != rhs && (old(pointer) == Null || old(pointer) == old(rhs.pointer)) ==>
        store.live == old(store.live) && store.deleted == old(store.deleted)
    {
      if this != rhs {
        var p := rhs.Release();
        Reset(p, store);
      }
    }

    /** ~myAutoPointer(): deletes the held pointer. */
    method Destroy(store: Store)
      requires pointer == Null || pointer in store.live
      modifies store
      ensures pointer == Null ==> store.live == old(store.live) && store.deleted == old(store.deleted)
      ensures pointer != Null ==>
        store.live == old(store.live) - {pointer} && store.deleted == old(store.deleted) + [pointer]
    {
      store.Delete(pointer);
    }
  }

  /**
   * The single-owner discipline over a set of holders: the holders are
   * distinct objects, every pointer held is nullptr or live, and no two
   * holders hold the same non-null pointer.
   */
  ghost predicate SingleOwners(holders: seq<MyAutoPointer>, store: Store)
    reads holders, store
  {
    (forall i, j :: 0 <= i < j < |holders| ==> holders[i] != holders[j]) &&
    (forall i :: 0 <= i < |holders| ==> Owns(holders[i], store)) &&
    (forall i, j :: 0 <= i < j < |holders| ==> Apart(holders[i], holders[j]))
  }

  ghost predicate Owns(h: MyAutoPointer, store: Store)
    reads h, store
  {
    h.pointer == Null || h.pointer in store.live
  }

  /** Two holders do not share a non-null pointer. */
  ghost predicate Apart(h: MyAutoPointer, g: MyAutoPointer)
    reads h, g
  {
    h.pointer == Null || h.pointer != g.pointer
  }

  /** An address that is live and held by nobody, as a fresh `new` returns. */
  ghost predicate Unowned(p: nat, holders: seq<MyAutoPointer>, store: Store)
    reads holders, store
  {
    p != Null && p in store.live && forall i :: 0 <= i < |holders| ==> holders[i].pointer != p
  }

  /**
   * Assignment between two of the holders keeps the single-owner
   * discipline: the pointer moves from holders[j] to holders[i] and the
   * pointee holders[i] had is deleted.
   */
  method AssignAmong(holders: seq<MyAutoPointer>, i: nat, j: nat, store: Store)
    requires i < |holders| && j < |holders| && SingleOwners(holders, store)
    modifies holders[i], holders[j], store
    ensures SingleOwners(holders, store)
    ensures i != j ==> holders[i].pointer == old(holders[j].pointer) && holders[j].pointer == Null
    ensures i != j && old(holders[i].pointer) != Null ==> old(holders[i].pointer) !in store.live
  {
    assert Owns(holders[i], store);
    if i != j {
      assert Apart(holders[if i < j then i else j], holders[if i < j then j else i]);
    }
    holders[i].Assign(holders[j], store);
    forall k | 0 <= k < |holders| ensures Owns(holders[k], store) {
      assert old(Owns(holders[k], store));
      if k != i && k != j {
        assert old(Apart(holders[if k < i then k else i], holders[if k < i then i else k]));
      }
    }
    forall k, l | 0 <= k < l < |holders| ensures Apart(holders[k], holders[l]) {
      assert old(Apart(holders[k], holders[l]));
      if k != i && k != j && l != i && l != j {
      } else if i != j && (k == i || l == i) && (k != j && l != j) {
        var o := if k == i then l else k;
        assert old(Apart(holders[if o < j then o else j], holders[if o < j then j else o]));
      }
    }
  }

  /**
   * reset(p) on one holder, p coming from `new` and held by nobody, keeps
   * the single-owner discipline.
   */
  method ResetAmong(holders: seq<MyAutoPointer>, i: nat, p: nat, store: Store)
    requires i < |holders| && SingleOwners(holders, store) && Unowned(p, holders, store)
    modifies holders[i], store
    ensures SingleOwners(holders, store) && holders[i].pointer == p
  {
    assert Owns(holders[i], store);
    holders[i].Reset(p, store);
    forall k | 0 <= k < |holders| ensures Owns(holders[k], store) {
      assert old(Owns(holders[k], store));
      if k != i {
        assert old(Apart(holders[if k < i then k else i], holders[if k < i then i else k]));
      }
    }
    forall k, l | 0 <= k < l < |holders| ensures Apart(holders[k], holders[l]) {
      assert old(Apart(holders[k], holders[l]));
      assert old(holders[k].pointer != p && holders[l].pointer != p);
    }
  }

  /** The non-null pointers the holders own, in order. */
  ghost function HeldPointers(holders: seq<MyAutoPointer>): (r: seq<nat>)
    reads holders
    ensures forall p :: p in r ==> p != Null
    decreases |holders|
  {
    if |holders| == 0 then []
    else if holders[0].pointer == Null then HeldPointers(holders[1..])
    else [holders[0].pointer] + HeldPointers(holders[1..])
  }

  /** A pointer none of the holders holds is not among HeldPointers. */
  lemma {:induction false} NotHeld(holders: seq<MyAutoPointer>, p: nat)
    requires forall k :: 0 <= k < |holders| ==> holders[k].pointer != p
    ensures p !in HeldPointers(holders)
    decreases |holders|
  {
    if |holders| > 0 {
      NotHeld(holders[1..], p);
    }
  }

  /** Under the single-owner discipline no pointer is held twice. */
  lemma {:induction false} HeldPointersDistinct(holders: seq<MyAutoPointer>, store: Store)
    requires SingleOwners(holders, store)
    ensures forall a, b :: 0 <= a < b < |HeldPointers(holders)| ==>
      HeldPointers(holders)[a] != HeldPointers(holders)[b]
    decreases |holders|
  {
    if |holders| > 0 {
      var rest := holders[1..];
      assert SingleOwners(rest, store) by {
        forall i, j | 0 <= i < j < |rest| ensures Apart(rest[i], rest[j]) {
          assert Apart(holders[i + 1], holders[j + 1]);
        }
      }
      HeldPointersDistinct(rest, store);
      if holders[0].pointer != Null {
        var p := holders[0].pointer;
        forall k | 0 <= k < |rest| ensures rest[k].pointer != p {
          assert Apart(holders[0], holders[k + 1]);
        }
        NotHeld(rest, p);
      }
    }
  }

  /**
   * Destroying every holder, first to last, under the single-owner
   * discipline: each delete is of a live pointee, so no pointee is deleted
   * twice, and what is deleted is exactly the non-null pointers held.
   */
  method DestroyAll(holders: seq<MyAutoPointer>, store: Store)
    requires SingleOwners(holders, store)
    modifies store
    ensures store.deleted == old(store.deleted) + HeldPointers(holders)
  {
    var i := 0;
    while i < |holders|
      invariant 0 <= i <= |holders|
      invariant forall k :: i <= k < |holders| ==> Owns(holders[k], store)
      invariant old(store.deleted) + HeldPointers(holders) ==
        store.deleted + HeldPointers(holders[i..])
    {
      assert holders[i..][1..] == holders[i + 1..];
      holders[i].Destroy(store);
      forall k | i < k < |holders| ensures Owns(holders[k], store) {
        assert old(Apart(holders[i], holders[k]));
      }
      i := i + 1;
    }
  }
}
