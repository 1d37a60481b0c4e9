// The least-recently-used caches of src/containers/lru_cache.h.
//
// The recency list is a sequence, most recent first.  The hash map of
// LruCache is the set of its keys (the iterator a key maps to is the list
// entry with that key); the hash set of LruCacheSet is the set of its values.

module LruCaches {

  /** `list_.splice(list_.begin(), list_, it)`: the entry at i moves to the front, the rest keep their order. */
  function Splice<T>(s: seq<T>, i: nat): (r: seq<T>)
    requires i < |s|
    ensures |r| == |s| && r[0] == s[i]
    ensures forall j :: 0 < j <= i ==> r[j] == s[j - 1]
    ensures forall j :: i < j < |s| ==> r[j] == s[j]
  {
    [s[i]] + s[..i] + s[i + 1..]
  }

  /** The eviction at the end of Put: beyond maxSize entries the last, least recently used one goes. */
  function Evicted<T>(s: seq<T>, maxSize: nat): (r: seq<T>)
    requires |s| <= maxSize + 1
    ensures |r| <= maxSize && |r| <= |s| && r == s[..|r|]
    ensures |s| <= maxSize ==> r == s
    ensures |s| > maxSize ==> |r| == |s| - 1
  {
    if |s| > maxSize then s[..|s| - 1] else s
  }

  function IndexOf<T(==)>(s: seq<T>, x: T): (i: nat)
    requires x in s
    ensures i < |s| && s[i] == x
    ensures forall j :: 0 <= j < i ==> s[j] != x
  {
    if s[0] == x then 0 else 1 + IndexOf(s[1..], x)
  }

  ghost function Elems<T>(s: seq<T>): set<T>
  {
    set x | x in s
  }

  ghost predicate Distinct<T>(s: seq<T>)
  {
    forall i, j :: 0 <= i < j < |s| ==> s[i] != s[j]
  }

  /** Distinct elements number as many as the entries. */
  lemma {:induction false} DistinctCount<T>(s: seq<T>)
    requires Distinct(s)
    ensures |Elems(s)| == |s|
  {
    if s != [] {
      var rest := s[1..];
      DistinctCount(rest);
      assert s == [s[0]] + rest;
      assert Elems(s) == {s[0]} + Elems(rest);
      forall j | 0 <= j < |rest|
        ensures rest[j] != s[0]
      {
        assert rest[j] == s[j + 1];
      }
    }
  }

  /** A splice keeps the elements and their distinctness. */
  lemma SpliceDistinct<T>(s: seq<T>, i: nat)
    requires i < |s| && Distinct(s)
    ensures Elems(Splice(s, i)) == Elems(s) && Distinct(Splice(s, i))
  {
    var r := Splice(s, i);
    forall x | x in s
      ensures x in r
    {
      var k :| 0 <= k < |s| && s[k] == x;
      if k < i {
        assert r[k + 1] == x;
      } else if k > i {
        assert r[k] == x;
      }
    }
  }

  /** Pushing a new element in front keeps the elements distinct. */
  lemma PushDistinct<T>(s: seq<T>, x: T)
    requires Distinct(s) && x !in s
    ensures Distinct([x] + s) && Elems([x] + s) == Elems(s) + {x}
  {
  }

  /** Dropping the last of distinct elements removes just that element. */
  lemma DropLastDistinct<T>(s: seq<T>)
    requires Distinct(s) && s != []
    ensures Distinct(s[..|s| - 1]) && Elems(s[..|s| - 1]) == Elems(s) - {s[|s| - 1]}
  {
    var t := s[..|s| - 1];
    assert s == t + [s[|s| - 1]];
    forall j | 0 <= j < |t|
      ensures t[j] != s[|s| - 1]
    {
    }
  }

  /** The recency list of LruCacheSet after `Put(value)`. */
  function SetPutResult<T(==)>(values: seq<T>, value: T, maxSize: nat): (r: seq<T>)
    requires |values| <= maxSize
    ensures |r| <= maxSize
    ensures maxSize > 0 ==> |r| > 0 && r[0] == value
  {
    var touched := if value in values then Splice(values, IndexOf(values, value)) else [value] + values;
    Evicted(touched, maxSize)
  }

  /** The set variant keeps its values distinct and adds no value but the one put. */
  lemma SetPutKeepsInvariant<T>(values: seq<T>, value: T, maxSize: nat)
    requires Distinct(values) && |values| <= maxSize
    ensures var r := SetPutResult(values, value, maxSize);
      Distinct(r) && Elems(r) <= Elems(values) + {value}
  {
    var t := if value in values then Splice(values, IndexOf(values, value)) else [value] + values;
    if value in values {
      SpliceDistinct(values, IndexOf(values, value));
    } else {
      PushDistinct(values, value);
    }
    if |t| > maxSize {
      DropLastDistinct(t);
    }
  }

  /** Putting a value that is present only moves it to the front. */
  lemma SetPutPresentMovesToFront<T>(values: seq<T>, value: T, maxSize: nat)
    requires |values| <= maxSize && value in values
    ensures SetPutResult(values, value, maxSize) == Splice(values, IndexOf(values, value))
  {
  }

  /** The keys of the entries, most recent first. */
  function Keys<K, V>(entries: seq<(K, V)>): (ks: seq<K>)
    ensures |ks| == |entries| && forall i :: 0 <= i < |entries| ==> ks[i] == entries[i].0
  {
    seq(|entries|, i requires 0 <= i < |entries| => entries[i].0)
  }

  /** The recency list of LruCache after `Put(key, value)`: a present key moves to the front with its old value. */
  function PutResult<K(==), V>(entries: seq<(K, V)>, key: K, value: V, maxSize: nat): (r: seq<(K, V)>)
    requires |entries| <= maxSize
    ensures |r| <= maxSize
    ensures maxSize > 0 ==> |r| > 0 && r[0].0 == key
  {
    Evicted(Touched(entries, key, value), maxSize)
  }

  /** The recency list before eviction: the key's entry moves to the front, or a new entry is pushed there. */
  function Touched<K(==), V>(entries: seq<(K, V)>, key: K, value: V): (r: seq<(K, V)>)
    ensures |r| <= |entries| + 1
  {
    var ks := Keys(entries);
    if key in ks then Splice(entries, IndexOf(ks, key)) else [(key, value)] + entries
  }

  /** Splicing, pushing and truncating the entries does the same to their keys. */
  lemma KeysCommute<K, V>(entries: seq<(K, V)>, key: K, value: V, i: nat, n: nat)
    ensures i < |entries| ==> Keys(Splice(entries, i)) == Splice(Keys(entries), i)
    ensures Keys([(key, value)] + entries) == [key] + Keys(entries)
    ensures n <= |entries| ==> Keys(entries[..n]) == Keys(entries)[..n]
  {
  }

  /** Dropping the last entry drops just its key. */
  lemma DropLastKeys<K, V>(entries: seq<(K, V)>)
    requires Distinct(Keys(entries)) && entries != []
    ensures var t := entries[..|entries| - 1];
      Distinct(Keys(t)) && Elems(Keys(t)) == Elems(Keys(entries)) - {entries[|entries| - 1].0}
  {
    var last := entries[|entries| - 1];
    KeysCommute(entries, last.0, last.1, 0, |entries| - 1);
    DropLastDistinct(Keys(entries));
  }

  /** The map keeps its keys distinct, and only the put key can be new. */
  lemma PutKeepsInvariant<K, V>(entries: seq<(K, V)>, key: K, value: V, maxSize: nat)
    requires Distinct(Keys(entries)) && |entries| <= maxSize
    ensures var r := PutResult(entries, key, value, maxSize);
      && Keys(r) == SetPutResult(Keys(entries), key, maxSize)
      && Distinct(Keys(r)) && Elems(Keys(r)) <= Elems(Keys(entries)) + {key}
  {
    var ks := Keys(entries);
    var r := PutResult(entries, key, value, maxSize);
    if key in ks {
      var t := Splice(entries, IndexOf(ks, key));
      KeysCommute(entries, key, value, IndexOf(ks, key), 0);
    } else {
      var t := [(key, value)] + entries;
      KeysCommute(entries, key, value, 0, 0);
      if |t| > maxSize {
        KeysCommute(t, key, value, 0, |t| - 1);
      }
    }
    SetPutKeepsInvariant(ks, key, maxSize);
  }

  /** Putting a key that is present keeps its stored value and the number of entries. */
  lemma PutPresentKeepsValue<K, V>(entries: seq<(K, V)>, key: K, value: V, maxSize: nat)
    requires |entries| <= maxSize && key in Keys(entries)
    ensures PutResult(entries, key, value, maxSize)[0] == entries[IndexOf(Keys(entries), key)]
    ensures |PutResult(entries, key, value, maxSize)| == |entries|
  {
  }

  /** Putting a new key into a full cache evicts exactly the least recently used entry. */
  lemma PutNewEvictsLeastRecent<K, V>(entries: seq<(K, V)>, key: K, value: V, maxSize: nat)
    requires |entries| == maxSize > 0 && key !in Keys(entries)
    ensures PutResult(entries, key, value, maxSize) == [(key, value)] + entries[..|entries| - 1]
  {
    var t := [(key, value)] + entries;
    assert t[..|t| - 1] == [(key, value)] + entries[..|entries| - 1];
  }

  class LruCache<K(==), V> {
    const maxSize: nat
    var list: seq<(K, V)>
    var keys: set<K>

    ghost predicate Valid()
      reads this
    {
      keys == Elems(Keys(list)) && Distinct(Keys(list)) && |list| <= maxSize
    }

    constructor (maxSize: nat)
      ensures Valid() && this.maxSize == maxSize && list == []
    {
      this.maxSize := maxSize;
      list, keys := [], {};
    }

    method Put(key: K, value: V)
      requires Valid()
      modifies this
      ensures Valid() && list == PutResult(old(list), key, value, maxSize)
    {
      Touch(key, value);
      EvictOverflow();
    }

    /** The first half of Put: the key's entry ends up in front, at most one entry over the bound. */
    method Touch(key: K, value: V)
      requires Valid()
      modifies this
      ensures keys == Elems(Keys(list)) && Distinct(Keys(list)) && |keys| == |list| <= maxSize + 1
      ensures list == Touched(old(list), key, value)
    {
      if key in keys {
        var i := IndexOf(Keys(list), key);
        KeysCommute(list, key, value, i, 0);
        SpliceDistinct(Keys(list), i);
        list := Splice(list, i);
      } else {
        KeysCommute(list, key, value, 0, 0);
        PushDistinct(Keys(list), key);
        list := [(key, value)] + list;
        keys := keys + {key};
      }
      DistinctCount(Keys(list));
    }

    /** The second half of Put: beyond maxSize entries the least recently used one is dropped. */
    method EvictOverflow()
      requires keys == Elems(Keys(list)) && Distinct(Keys(list)) && |keys| == |list| <= maxSize + 1
      modifies this
      ensures Valid() && list == Evicted(old(list), maxSize)
    {
      if |keys| > maxSize {
        var last := list[|list| - 1];
        DropLastKeys(list);
        keys := keys - {last.0};
        list := list[..|list| - 1];
      }
    }

    /**
     * A hit moves the entry to the front and yields its value; a miss returns
     * false and leaves the caller's value as it was.
     */
    method Get(key: K, value: V) returns (found: bool, result: V)
      requires Valid()
      modifies this
      ensures Valid()
      ensures found <==> key in Keys(old(list))
      ensures found ==>
        var i := IndexOf(Keys(old(list)), key);
        result == old(list)[i].1 && list == Splice(old(list), i)
      ensures !found ==> list == old(list) && result == value
    {
      if key !in keys {
        return false, value;
      }
      var i := IndexOf(Keys(list), key);
      KeysCommute(list, key, value, i, 0);
      SpliceDistinct(Keys(list), i);
      list := Splice(list, i);
      return true, list[0].1;
    }

    method Clear()
      modifies this
      ensures Valid() && list == []
    {
      list, keys := [], {};
    }

    function Exists(key: K): (b: bool)
      reads this
      requires Valid()
      ensures b <==> exists i :: 0 <= i < |list| && list[i].0 == key
    {
      key in keys
    }

    /** `size()` is the size of the map: the number of entries, never above maxSize. */
    function Size(): (n: nat)
      reads this
      requires Valid()
      ensures n == |list| && n <= maxSize
    {
      DistinctCount(Keys(list));
      |keys|
    }
  }

  class LruCacheSet<T(==)> {
    const maxSize: nat
    var list: seq<T>
    var members: set<T>

    ghost predicate Valid()
      reads this
    {
      members == Elems(list) && Distinct(list) && |list| <= maxSize
    }

    constructor (maxSize: nat)
      ensures Valid() && this.maxSize == maxSize && list == []
    {
      this.maxSize := maxSize;
      list, members := [], {};
    }

    method Put(value: T)
      requires Valid()
      modifies this
      ensures Valid() && list == SetPutResult(old(list), value, maxSize)
    {
      if value in members {
        SpliceDistinct(list, IndexOf(list, value));
        list := Splice(list, IndexOf(list, value));
      } else {
        PushDistinct(list, value);
        list := [value] + list;
        members := members + {value};
      }
      DistinctCount(list);
      if |members| > maxSize {
        var last := list[|list| - 1];
        DropLastDistinct(list);
        members := members - {last};
        list := list[..|list| - 1];
      }
    }

    method Clear()
      modifies this
      ensures Valid() && list == []
    {
      list, members := [], {};
    }

    /** `size()` is the size of the set: the number of values, never above maxSize. */
    function Size(): (n: nat)
      reads this
      requires Valid()
      ensures n == |list| && n <= maxSize
    {
      DistinctCount(list);
      |members|
    }
  }

  /** A cache of two: the older entry goes when a third key arrives, and putting a present key keeps its value. */
  method LruScenarios()
  {
    var cache := new LruCache<int, int>(2);
    cache.Put(1, 10);
    cache.Put(2, 20);
    assert cache.list == [(2, 20), (1, 10)];
    assert Keys(cache.list) == [2, 1] && IndexOf([2, 1], 1) == 1;
    cache.Put(1, 11);
    assert cache.list == [(1, 10), (2, 20)];
    cache.Put(3, 30);
    assert cache.list == [(3, 30), (1, 10)];
    assert cache.Size() == 2 && !cache.Exists(2);
  }
}
