// Intrusive reference counting (src/common/ref.cpp).  Deleting the object is
// modelled by the ghost flag `destroyed`; the debug assertion of both
// operations is their precondition.

module RefCounting {

  const MaxRefCount: nat := 1000000

  /** The range the debug assertion of AddRef and Release accepts. */
  predicate CountInRange(count: nat)
  {
    0 < count < MaxRefCount
  }

  class Ref {
    var refCount: nat
    ghost var destroyed: bool

    /** Both the default and the copy constructor start at 1. */
    constructor ()
      ensures refCount == 1 && !destroyed
    {
      refCount := 1;
      destroyed := false;
    }

    constructor Copy(copy: Ref)
      ensures refCount == 1 && !destroyed
    {
      refCount := 1;
      destroyed := false;
    }

    method AddRef()
      requires !destroyed && CountInRange(refCount)
      modifies this
      ensures refCount == old(refCount) + 1 && !destroyed
    {
      refCount := refCount + 1;
    }

    /** Decrements the count and deletes the object when it reaches 0. */
    method Release()
      requires !destroyed && CountInRange(refCount)
      modifies this
      ensures refCount == old(refCount) - 1
      ensures destroyed <==> refCount == 0
    {
      refCount := refCount - 1;
      if refCount == 0 {
        destroyed := true;
      }
    }

    method GetRefCount() returns (count: nat)
      ensures count == refCount
    {
      count := refCount;
    }
  }

  /** One AddRef and one Release leave a shared object alive with its old count. */
  method AddRefThenRelease(r: Ref)
    requires !r.destroyed && r.refCount == 1
    modifies r
    ensures !r.destroyed && r.refCount == 1
  {
    r.AddRef();
    r.Release();
  }

  /**
   * `addRefs` AddRef calls followed by `releases` Release calls, never one
   * Release more than the references held: the count ends at the start plus
   * the difference, and the object is deleted exactly when every reference
   * has been released.
   */
  method AddRefsThenReleases(r: Ref, addRefs: nat, releases: nat)
    requires !r.destroyed && CountInRange(r.refCount)
    requires r.refCount + addRefs < MaxRefCount
    requires releases <= r.refCount + addRefs
    modifies r
    ensures r.refCount == old(r.refCount) + addRefs - releases
    ensures r.destroyed <==> releases == old(r.refCount) + addRefs
  {
    var i := 0;
    while i < addRefs
      invariant 0 <= i <= addRefs && !r.destroyed
      invariant r.refCount == old(r.refCount) + i
    {
      r.AddRef();
      i := i + 1;
    }
    var j := 0;
    while j < releases
      invariant 0 <= j <= releases
      invariant r.refCount == old(r.refCount) + addRefs - j
      invariant r.destroyed <==> r.refCount == 0
    {
      r.Release();
      j := j + 1;
    }
  }

  /** A new object given two more references dies with the third release, not before. */
  method ThreeOwners()
  {
    var r := new Ref();
    AddRefsThenReleases(r, 2, 2);
    assert !r.destroyed && r.refCount == 1;
    r.Release();
    assert r.destroyed;
  }
}
