// The resource registry of src/resource_manager.cpp.
//
// RequestLoad and RequestUnload move an entry's request counter; Perform and
// PerformStep then bring each entry's loaded state in line with its counter.
// The unordered_map of entries is a map together with the sequence of its ids
// in iteration order, taken here to be the order of registration.  A loaded
// resource is an opaque handle.  The entries' loading functions are the one
// parameter `load`, the handle (or none, for nullptr) that loading the id
// yields; the unloading functions are not modelled beyond dropping the handle,
// nor are the user data pointers.

module ResourceManagers {

  datatype Option<T> = None | Some(value: T)

  /** `ResourceInfo` without its user data and callbacks. */
  datatype ResourceInfo = ResourceInfo(counter: int, stringId: nat, resource: Option<nat>)

  predicate NeedsUnload(info: ResourceInfo)
  {
    info.counter == 0 && info.resource.Some?
  }

  predicate NeedsLoad(info: ResourceInfo)
  {
    info.counter > 0 && info.resource.None?
  }

  /** The entries that Perform loads or unloads. */
  predicate NeedsWork(info: ResourceInfo)
  {
    NeedsUnload(info) || NeedsLoad(info)
  }

  /**
   * One entry after a Perform pass: an unrequested loaded resource is
   * unloaded, a requested unloaded one takes what loading gave, and anything
   * else (a negative counter in particular) is left alone.
   */
  function Processed(info: ResourceInfo, loaded: Option<nat>): (r: ResourceInfo)
    ensures r.counter == info.counter && r.stringId == info.stringId
    ensures info.counter == 0 ==> r.resource.None?
    ensures NeedsLoad(info) ==> r.resource == loaded
    ensures !NeedsWork(info) ==> r == info
    ensures loaded.Some? ==> !NeedsWork(r)
  {
    if NeedsUnload(info) then info.(resource := None)
    else if NeedsLoad(info) then info.(resource := loaded)
    else info
  }

  ghost predicate Distinct(s: seq<int>)
  {
    forall i, j :: 0 <= i < j < |s| ==> s[i] != s[j]
  }

  /** Every id in the list has an entry. */
  ghost predicate Listed(ids: seq<int>, c: map<int, ResourceInfo>)
  {
    forall j :: 0 <= j < |ids| ==> ids[j] in c
  }

  /** The ids with x taken out, in the same order. */
  function Without(s: seq<int>, x: int): (r: seq<int>)
    ensures forall y :: y in r <==> y in s && y != x
  {
    if s == [] then []
    else if s[0] == x then Without(s[1..], x)
    else [s[0]] + Without(s[1..], x)
  }

  lemma {:induction false} WithoutDistinct(s: seq<int>, x: int)
    requires Distinct(s)
    ensures Distinct(Without(s, x))
  {
    if s != [] {
      assert Distinct(s[1..]) by {
        forall i, j | 0 <= i < j < |s| - 1
          ensures s[1..][i] != s[1..][j]
        {
          assert s[1..][i] == s[i + 1] && s[1..][j] == s[j + 1];
        }
      }
      WithoutDistinct(s[1..], x);
      if s[0] != x {
        assert s[0] !in s[1..] by {
          forall j | 0 <= j < |s| - 1
            ensures s[1..][j] != s[0]
          {
            assert s[1..][j] == s[j + 1];
          }
        }
        var r := Without(s[1..], x);
        assert s[0] !in r;
        forall i, j | 0 <= i < j < |[s[0]] + r|
          ensures ([s[0]] + r)[i] != ([s[0]] + r)[j]
        {
          if i > 0 {
            assert ([s[0]] + r)[i] == r[i - 1];
          }
          assert ([s[0]] + r)[j] == r[j - 1];
        }
      }
    }
  }

  lemma AppendDistinct(s: seq<int>, x: int)
    requires Distinct(s) && x !in s
    ensures Distinct(s + [x])
  {
    forall i, j | 0 <= i < j < |s| + 1
      ensures (s + [x])[i] != (s + [x])[j]
    {
      assert (s + [x])[i] == s[i];
    }
  }

  /** Every id left after taking x out is an id other than x. */
  lemma WithoutListed(s: seq<int>, x: int)
    ensures forall j :: 0 <= j < |Without(s, x)| ==> Without(s, x)[j] in s && Without(s, x)[j] != x
  {
    var r := Without(s, x);
    forall j | 0 <= j < |r|
      ensures r[j] in s && r[j] != x
    {
      assert r[j] in r;
    }
  }

  /** The index in ids of the first entry that needs work, or |ids| when none does. */
  function FirstPending(ids: seq<int>, c: map<int, ResourceInfo>): (i: nat)
    requires Listed(ids, c)
    ensures i <= |ids|
    ensures forall j :: 0 <= j < i ==> !NeedsWork(c[ids[j]])
    ensures i < |ids| ==> NeedsWork(c[ids[i]])
  {
    if ids == [] then 0
    else if NeedsWork(c[ids[0]]) then 0
    else 1 + FirstPending(ids[1..], c)
  }

  /** How many of the entries listed in ids need work. */
  function CountPending(ids: seq<int>, c: map<int, ResourceInfo>): (n: nat)
    requires Listed(ids, c)
    ensures n <= |ids|
  {
    if ids == [] then 0
    else (if NeedsWork(c[ids[0]]) then 1 else 0) + CountPending(ids[1..], c)
  }

  /** Nothing is pending exactly when no listed entry needs work. */
  lemma {:induction false} CountPendingZero(ids: seq<int>, c: map<int, ResourceInfo>)
    requires Listed(ids, c)
    ensures CountPending(ids, c) == 0 <==> forall j :: 0 <= j < |ids| ==> !NeedsWork(c[ids[j]])
  {
    if ids != [] {
      assert Listed(ids[1..], c) by {
        forall j | 0 <= j < |ids| - 1
          ensures ids[1..][j] in c
        {
          assert ids[1..][j] == ids[j + 1];
        }
      }
      CountPendingZero(ids[1..], c);
      assert forall j :: 0 <= j < |ids| - 1 ==> ids[1..][j] == ids[j + 1];
    }
  }

  /** Replacing one listed entry changes the count by that entry's difference alone. */
  lemma {:induction false} CountPendingUpdate(ids: seq<int>, c: map<int, ResourceInfo>, k: int, v: ResourceInfo)
    requires Listed(ids, c)
    requires Distinct(ids) && k in ids
    ensures CountPending(ids, c[k := v]) + (if NeedsWork(c[k]) then 1 else 0)
         == CountPending(ids, c) + (if NeedsWork(v) then 1 else 0)
  {
    if ids[0] == k {
      assert k !in ids[1..] by {
        forall j | 0 <= j < |ids| - 1
          ensures ids[1..][j] != k
        {
          assert ids[1..][j] == ids[j + 1];
        }
      }
      CountPendingOther(ids[1..], c, k, v);
    } else {
      assert k in ids[1..] by {
        var j :| 0 <= j < |ids| && ids[j] == k;
        assert ids[1..][j - 1] == k;
      }
      assert Distinct(ids[1..]) by {
        forall i, j | 0 <= i < j < |ids| - 1
          ensures ids[1..][i] != ids[1..][j]
        {
          assert ids[1..][i] == ids[i + 1] && ids[1..][j] == ids[j + 1];
        }
      }
      CountPendingUpdate(ids[1..], c, k, v);
    }
  }

  /** The count over ids does not see an entry that ids does not list. */
  lemma {:induction false} CountPendingOther(ids: seq<int>, c: map<int, ResourceInfo>, k: int, v: ResourceInfo)
    requires Listed(ids, c)
    requires k !in ids
    ensures CountPending(ids, c[k := v]) == CountPending(ids, c)
  {
    if ids != [] {
      assert ids[0] != k;
      CountPendingOther(ids[1..], c, k, v);
    }
  }

  /** The entries after a whole Perform pass. */
  function PerformAll(c: map<int, ResourceInfo>, load: int -> Option<nat>): (r: map<int, ResourceInfo>)
    ensures r.Keys == c.Keys
    ensures forall k :: k in r ==> r[k] == Processed(c[k], load(k))
  {
    map k | k in c :: Processed(c[k], load(k))
  }

  /** The entries after CleanUp: every resource dropped. */
  function Unloaded(c: map<int, ResourceInfo>): (r: map<int, ResourceInfo>)
    ensures r.Keys == c.Keys
    ensures forall k :: k in r ==> r[k] == c[k].(resource := None)
  {
    map k | k in c :: c[k].(resource := None)
  }

  /** When every load succeeds, a Perform pass leaves nothing to process. */
  lemma PerformSettles(ids: seq<int>, c: map<int, ResourceInfo>, load: int -> Option<nat>)
    requires Listed(ids, c)
    requires forall id :: id in c ==> load(id).Some?
    ensures CountPending(ids, PerformAll(c, load)) == 0
  {
    var r := PerformAll(c, load);
    CountPendingZero(ids, r);
    forall j | 0 <= j < |ids|
      ensures !NeedsWork(r[ids[j]])
    {
      var k := ids[j];
      assert k in c && load(k).Some?;
      assert k in r;
      assert r[k] == Processed(c[k], load(k));
    }
  }

  class ResourceManager {
    var container: map<int, ResourceInfo>
    /** The ids of container in its iteration order. */
    var ids: seq<int>
    var uniqueResourceId: int

    ghost predicate Valid()
      reads this
    {
      Distinct(ids) && Listed(ids, container) && (forall id :: id in container ==> id in ids)
      && uniqueResourceId >= 0 && (forall id :: id in container ==> 0 <= id < uniqueResourceId)
    }

    constructor ()
      ensures Valid() && container == map[] && uniqueResourceId == 0
    {
      container, ids, uniqueResourceId := map[], [], 0;
    }

    /** A fresh id from the post-incremented counter, with counter 0 and nothing loaded. */
    method RegisterResource(stringId: nat) returns (id: int)
      requires Valid()
      modifies this
      ensures Valid() && id == old(uniqueResourceId) && id !in old(container)
      ensures uniqueResourceId == old(uniqueResourceId) + 1
      ensures container == old(container)[id := ResourceInfo(0, stringId, None)]
      ensures ids == old(ids) + [id]
    {
      id := uniqueResourceId;
      assert id !in ids by {
        forall j | 0 <= j < |ids|
          ensures ids[j] != id
        {
          assert ids[j] in container;
        }
      }
      uniqueResourceId := uniqueResourceId + 1;
      container := container[id := ResourceInfo(0, stringId, None)];
      AppendDistinct(ids, id);
      ids := ids + [id];
      assert ids[|ids| - 1] == id;
    }

    /**
     * `UnregisterResource` as written: the iterator that `find` returned is
     * erased whether or not the id was found, and erasing `end()` is
     * undefined.  erasesEnd records that case; the entries are then left alone.
     */
    method UnregisterResourceAsWritten(id: int) returns (erasesEnd: bool)
      requires Valid() && (id in container ==> container[id].resource.None?)
      modifies this
      ensures Valid() && uniqueResourceId == old(uniqueResourceId)
      ensures erasesEnd <==> id !in old(container)
      ensures container == old(container) - {id}
    {
      erasesEnd := id !in container;
      if !erasesEnd {
        container := container - {id};
        WithoutDistinct(ids, id);
        WithoutListed(ids, id);
        ids := Without(ids, id);
      }
    }

    /** `UnregisterResource` as intended: the entry is erased only when it exists. */
    method UnregisterResource(id: int)
      requires Valid() && (id in container ==> container[id].resource.None?)
      modifies this
      ensures Valid() && uniqueResourceId == old(uniqueResourceId)
      ensures container == old(container) - {id}
      ensures id !in old(container) ==> ids == old(ids)
    {
      if id in container {
        container := container - {id};
        WithoutDistinct(ids, id);
        WithoutListed(ids, id);
        ids := Without(ids, id);
      }
    }

    /** The id of the first entry, in iteration order, registered under the name; -1 when there is none. */
    method GetResourceIdByName(stringId: nat) returns (id: int)
      requires Valid()
      ensures id == -1 <==> forall k :: k in container ==> container[k].stringId != stringId
      ensures id != -1 ==> id in container && container[id].stringId == stringId
    {
      var i := 0;
      while i < |ids|
        invariant 0 <= i <= |ids|
        invariant forall j :: 0 <= j < i ==> container[ids[j]].stringId != stringId
      {
        if container[ids[i]].stringId == stringId {
          return ids[i];
        }
        i := i + 1;
      }
      id := -1;
    }

    /** The loaded resource of a registered id; none for an unknown one. */
    function GetResource(id: int): (r: Option<nat>)
      reads this
      ensures id in container ==> r == container[id].resource
      ensures id !in container ==> r.None?
    {
      if id in container then container[id].resource else None
    }

    /** One more request for the id; an unknown id changes nothing. */
    method RequestLoad(id: int)
      requires Valid()
      modifies this
      ensures Valid() && ids == old(ids) && uniqueResourceId == old(uniqueResourceId)
      ensures id in old(container) ==>
        container == old(container)[id := old(container)[id].(counter := old(container)[id].counter + 1)]
      ensures id !in old(container) ==> container == old(container)
    {
      if id in container {
        var info := container[id];
        container := container[id := info.(counter := info.counter + 1)];
      }
    }

    /** One request fewer for the id; an unknown id changes nothing. */
    method RequestUnload(id: int)
      requires Valid()
      modifies this
      ensures Valid() && ids == old(ids) && uniqueResourceId == old(uniqueResourceId)
      ensures id in old(container) ==>
        container == old(container)[id := old(container)[id].(counter := old(container)[id].counter - 1)]
      ensures id !in old(container) ==> container == old(container)
    {
      if id in container {
        var info := container[id];
        container := container[id := info.(counter := info.counter - 1)];
      }
    }

    /** Every entry is processed once, in iteration order. */
    method Perform(load: int -> Option<nat>)
      requires Valid()
      modifies this
      ensures Valid() && ids == old(ids) && uniqueResourceId == old(uniqueResourceId)
      ensures container == PerformAll(old(container), load)
    {
      var i := 0;
      while i < |ids|
        invariant 0 <= i <= |ids| && Valid()
        invariant ids == old(ids) && uniqueResourceId == old(uniqueResourceId)
        invariant container.Keys == old(container).Keys
        invariant forall j :: 0 <= j < |ids| ==>
          container[ids[j]] == if j < i then Processed(old(container)[ids[j]], load(ids[j])) else old(container)[ids[j]]
      {
        var k := ids[i];
        container := container[k := Processed(container[k], load(k))];
        i := i + 1;
      }
      forall k | k in container
        ensures container[k] == Processed(old(container)[k], load(k))
      {
        var j :| 0 <= j < |ids| && ids[j] == k;
      }
    }

    /**
     * Processes the first entry, in iteration order, that needs work and
     * reports false; reports true, changing nothing, when none does.
     */
    method PerformStep(load: int -> Option<nat>) returns (done: bool)
      requires Valid()
      modifies this
      ensures Valid() && ids == old(ids) && uniqueResourceId == old(uniqueResourceId)
      ensures done <==> forall k :: k in old(container) ==> !NeedsWork(old(container)[k])
      ensures done ==> container == old(container)
      ensures !done ==>
        var k := ids[FirstPending(ids, old(container))];
        container == old(container)[k := Processed(old(container)[k], load(k))]
    {
      var i := 0;
      while i < |ids|
        invariant 0 <= i <= |ids| && container == old(container)
        invariant forall j :: 0 <= j < i ==> !NeedsWork(container[ids[j]])
      {
        var k := ids[i];
        if NeedsWork(container[k]) {
          assert FirstPending(ids, container) == i;
          container := container[k := Processed(container[k], load(k))];
          return false;
        }
        i := i + 1;
      }
      return true;
    }

    /** The number of entries that a Perform pass would load or unload. */
    method GetResourcesCountToProcess() returns (count: nat)
      requires Valid()
      ensures count == CountPending(ids, container)
    {
      count := 0;
      var i := |ids|;
      while i > 0
        invariant 0 <= i <= |ids|
        invariant count == CountPending(ids[i..], container)
      {
        i := i - 1;
        assert ids[i..][1..] == ids[i + 1..];
        if NeedsWork(container[ids[i]]) {
          count := count + 1;
        }
      }
    }

    /** Every loaded resource is unloaded. */
    method CleanUp()
      requires Valid()
      modifies this
      ensures Valid() && ids == old(ids) && uniqueResourceId == old(uniqueResourceId)
      ensures container == Unloaded(old(container))
    {
      var i := 0;
      while i < |ids|
        invariant 0 <= i <= |ids| && Valid()
        invariant ids == old(ids) && uniqueResourceId == old(uniqueResourceId)
        invariant container.Keys == old(container).Keys
        invariant forall j :: 0 <= j < |ids| ==>
          container[ids[j]] == if j < i then old(container)[ids[j]].(resource := None) else old(container)[ids[j]]
      {
        var k := ids[i];
        if container[k].resource.Some? {
          container := container[k := container[k].(resource := None)];
        }
        i := i + 1;
      }
      forall k | k in container
        ensures container[k] == old(container)[k].(resource := None)
      {
        var j :| 0 <= j < |ids| && ids[j] == k;
      }
    }
  }

  /** A step that loads successfully leaves one entry fewer to process. */
  lemma StepReducesPending(ids: seq<int>, c: map<int, ResourceInfo>, k: int, loaded: Option<nat>)
    requires Distinct(ids) && (Listed(ids, c))
    requires k in ids && NeedsWork(c[k]) && loaded.Some?
    ensures CountPending(ids, c[k := Processed(c[k], loaded)]) == CountPending(ids, c) - 1
  {
    CountPendingUpdate(ids, c, k, Processed(c[k], loaded));
  }

  /** Unregistering an id that was never registered erases `end()`. */
  method UnregisterUnknownErasesEnd() returns (erasesEnd: bool)
    ensures erasesEnd
  {
    var rm := new ResourceManager();
    var id := rm.RegisterResource(7);
    erasesEnd := rm.UnregisterResourceAsWritten(id + 1);
  }

  /** Two requests and one release leave the resource loaded. */
  method ResourceScenario()
  {
    var rm := new ResourceManager();
    var id := rm.RegisterResource(7);
    var load := (k: int) => Some(100);
    rm.RequestLoad(id);
    rm.RequestLoad(id);
    rm.Perform(load);
    assert rm.GetResource(id) == Some(100);
    rm.RequestUnload(id);
    rm.Perform(load);
    assert rm.GetResource(id) == Some(100);
  }

  /** The release that brings the count to zero unloads the resource, one step at a time. */
  method LastReleaseScenario()
  {
    var rm := new ResourceManager();
    var id := rm.RegisterResource(7);
    var load := (k: int) => Some(100);
    rm.RequestLoad(id);
    rm.Perform(load);
    rm.RequestUnload(id);
    var done := rm.PerformStep(load);
    assert !done && rm.GetResource(id) == None;
    done := rm.PerformStep(load);
    assert done;
  }
}
