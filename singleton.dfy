// The three singleton front-ends of include/scythe/singleton.h.  Each
// template's static members become the fields of one state object; the
// managed object is an `Instance`.  The counter is a 32-bit unsigned value
// and wraps like one.

module Singletons {

  class Instance {
    constructor ()
    {
    }
  }

  /** `Singleton<T>`: a function-local static, created on first use. */
  class Singleton {
    var instance: Instance?

    constructor ()
      ensures instance == null
    {
      instance := null;
    }

    method GetInstance() returns (r: Instance)
      modifies this
      ensures old(instance) != null ==> r == old(instance)
      ensures old(instance) == null ==> fresh(r)
      ensures instance == r
    {
      if instance == null {
        instance := new Instance();
      }
      r := instance;
    }
  }

  /** `ManagedSingleton<Base>`: created and destroyed explicitly. */
  class ManagedSingleton {
    var instance: Instance?

    constructor ()
      ensures instance == null
    {
      instance := null;
    }

    /** A second creation replaces (and leaks) the first instance. */
    method CreateInstance()
      modifies this
      ensures instance != null && fresh(instance)
    {
      instance := new Instance();
    }

    method DestroyInstance()
      modifies this
      ensures instance == null
    {
      instance := null;
    }

    method GetInstance() returns (r: Instance?)
      ensures r == instance
    {
      r := instance;
    }
  }

  /** `CountingSingleton<T>`: one instance shared by every holder of a count. */
  class CountingSingleton {
    var instance: Instance?
    var counter: bv32

    /** Counter and instance agree while the counter neither wraps nor is over-released. */
    ghost predicate Valid()
      reads this
    {
      counter == 0 <==> instance == null
    }

    constructor ()
      ensures Valid() && counter == 0 && instance == null
    {
      instance := null;
      counter := 0;
    }

    method GetInstance() returns (r: Instance?)
      modifies this
      ensures old(counter) == 0 ==> r != null && fresh(r)
      ensures old(counter) != 0 ==> r == old(instance)
      ensures instance == r && counter == old(counter) + 1
      ensures old(Valid()) && old(counter) < 0xFFFF_FFFF ==> Valid()
    {
      if counter == 0 {
        instance := new Instance();
      }
      counter := counter + 1;
      r := instance;
    }

    /** Releasing at count 0 wraps the unsigned counter and keeps the (null) instance. */
    method ReleaseInstance()
      modifies this
      ensures counter == old(counter) - 1
      ensures counter == 0 ==> instance == null
      ensures counter != 0 ==> instance == old(instance)
      ensures old(counter) != 0 && old(Valid()) ==> Valid()
    {
      counter := counter - 1;
      if counter == 0 {
        instance := null;
      }
    }
  }

  /** Every GetInstance between creation and the final release yields the same object. */
  method SharedUntilLastRelease(s: CountingSingleton)
    requires s.Valid() && s.counter == 0
    modifies s
  {
    var a := s.GetInstance();
    var b := s.GetInstance();
    assert a == b && a != null && s.counter == 2;
    s.ReleaseInstance();
    assert s.instance == a;
    s.ReleaseInstance();
    assert s.instance == null && s.counter == 0;
    var c := s.GetInstance();
    assert c != null && fresh(c) && c != a;
  }
}
