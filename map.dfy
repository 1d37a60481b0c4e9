// The red-black-tree map of src/containers/map.h, with integer keys.
//
// The map holds its tree as a value together with the `size_` counter; the
// value-initialised `T()` that `operator[]` stores for a new key is the
// constant defaultValue.  Copying, moving, swapping and the allocator are not
// part of this model.

module Maps {
  import opened RedBlackTrees

  class Map<V> {
    const defaultValue: V
    var tree: Tree<V>
    var size: nat

    ghost predicate Valid()
      reads this
    {
      Bst(tree) && size == |Keys(tree)|
    }

    constructor (defaultValue: V)
      ensures Valid() && tree == Leaf && this.defaultValue == defaultValue
    {
      this.defaultValue := defaultValue;
      tree, size := Leaf, 0;
    }

    function Empty(): (b: bool)
      reads this
      requires Valid()
      ensures b <==> Keys(tree) == {}
    {
      size == 0
    }

    function Size(): (n: nat)
      reads this
      requires Valid()
      ensures n == |Keys(tree)|
    {
      size
    }

    /** Dereferencing an iterator: the value stored with its key. */
    function Get(it: Position): (v: V)
      reads this
      requires Valid() && it.At? && it.key in Keys(tree)
      ensures (it.key, v) in Elements(tree)
    {
      ValueAt(tree, it.key)
    }

    /** `find` by way of `_search`: walk down from the root until the key or a leaf. */
    method Find(key: int) returns (it: Position)
      requires Valid()
      ensures it == End <==> key !in Keys(tree)
      ensures it != End ==> it == At(key)
    {
      var x := tree;
      while x.Node? && x.key != key
        invariant Bst(x)
        invariant key in Keys(tree) <==> key in Keys(x)
        decreases x
      {
        SearchStep(x, key);
        x := if key < x.key then x.left else x.right;
      }
      it := if x.Leaf? then End else At(key);
    }

    /** `trusted_insert`: the caller guarantees that the key is absent. */
    method TrustedInsert(key: int, value: V) returns (it: Position)
      requires Valid() && key !in Keys(tree)
      modifies this
      ensures Valid() && it == At(key) && size == old(size) + 1
      ensures Keys(tree) == old(Keys(tree)) + {key}
      ensures Elements(tree) == old(Elements(tree)) + {(key, value)}
    {
      tree := RedBlackTrees.Insert(tree, key, value);
      size := size + 1;
      it := At(key);
    }

    /**
     * `insert`: a present key leaves the map as it is and yields its element
     * with false; a new key is inserted and yields true.
     */
    method Insert(key: int, value: V) returns (it: Position, inserted: bool)
      requires Valid()
      modifies this
      ensures Valid() && it == At(key)
      ensures inserted <==> key !in old(Keys(tree))
      ensures Keys(tree) == old(Keys(tree)) + {key}
      ensures !inserted ==> tree == old(tree) && size == old(size)
      ensures inserted ==> Elements(tree) == old(Elements(tree)) + {(key, value)} && size == old(size) + 1
    {
      var existing := Find(key);
      if existing != End {
        return existing, false;
      }
      it := TrustedInsert(key, value);
      inserted := true;
    }

    /**
     * `operator[]`: the value stored with the key; an absent key is first
     * inserted with the default value.
     */
    method Index(key: int) returns (value: V)
      requires Valid()
      modifies this
      ensures Valid() && Keys(tree) == old(Keys(tree)) + {key}
      ensures key in old(Keys(tree)) ==> tree == old(tree) && (key, value) in Elements(tree)
      ensures key !in old(Keys(tree)) ==>
        value == defaultValue && Elements(tree) == old(Elements(tree)) + {(key, defaultValue)}
    {
      var existing := Find(key);
      if existing != End {
        return Get(existing);
      }
      var _ := TrustedInsert(key, defaultValue);
      value := defaultValue;
    }

    /** `erase(pos)`: pos must point at an element, which alone is removed. */
    method Erase(pos: Position)
      requires Valid() && pos.At? && pos.key in Keys(tree)
      modifies this
      ensures Valid() && size == old(size) - 1
      ensures Keys(tree) == old(Keys(tree)) - {pos.key}
      ensures Elements(tree) == old(Elements(tree)) - {(pos.key, ValueAt(old(tree), pos.key))}
    {
      tree := Delete(tree, pos.key);
      size := size - 1;
    }

    /**
     * `erase(key)` as written: walk from `begin()`, delete the node with the
     * key and then step `++it` from that node, whose memory has just been
     * given back to the allocator.  The walk stops there, where the behaviour
     * is undefined; readsFreedNode records that it was reached.
     */
    method EraseKeyAsWritten(key: int) returns (count: nat, readsFreedNode: bool)
      requires Valid()
      modifies this
      ensures Valid()
      ensures readsFreedNode <==> key in old(Keys(tree))
      ensures Keys(tree) == old(Keys(tree)) - {key}
    {
      count, readsFreedNode := 0, false;
      var it := Begin(tree);
      while it != End
        invariant tree == old(tree)
        invariant it.At? ==> it.key in Keys(tree) && (key in Keys(tree) ==> it.key <= key)
        invariant it == End ==> key !in Keys(tree)
        decreases if it.At? && tree.Node? then MaxKey(tree) - it.key + 1 else 0
      {
        if it.key == key {
          Erase(it);
          count := count + 1;
          readsFreedNode := true;
          return;
        }
        it := Succ(tree, it.key);
      }
    }

    /** `erase(key)` as intended: remove the element with the key, if any, and report how many went. */
    method EraseKey(key: int) returns (count: nat)
      requires Valid()
      modifies this
      ensures Valid()
      ensures count == if key in old(Keys(tree)) then 1 else 0
      ensures size == old(size) - count
      ensures Keys(tree) == old(Keys(tree)) - {key}
      ensures key in old(Keys(tree)) ==> Elements(tree) == old(Elements(tree)) - {(key, ValueAt(old(tree), key))}
      ensures key !in old(Keys(tree)) ==> tree == old(tree)
    {
      var it := Find(key);
      if it == End {
        return 0;
      }
      Erase(it);
      count := 1;
    }

    /** `clear`: every node is destroyed. */
    method Clear()
      modifies this
      ensures Valid() && tree == Leaf && size == 0
    {
      tree, size := Leaf, 0;
    }
  }

  /** Erasing a present key by the source's loop steps from a freed node. */
  method EraseKeyReadsFreedNode() returns (readsFreedNode: bool)
    ensures readsFreedNode
  {
    var m := new Map<int>(0);
    var _, _ := m.Insert(1, 10);
    var _, freed := m.EraseKeyAsWritten(1);
    readsFreedNode := freed;
  }

  /** Inserting keys counts the new ones only; a repeated key yields its element and false. */
  method MapInsertScenario()
  {
    var m := new Map<int>(0);
    assert m.Empty();
    var it, inserted := m.Insert(1, 1);
    assert inserted && Keys(m.tree) == {1};
    it, inserted := m.Insert(2, 2);
    assert inserted && Keys(m.tree) == {1, 2};
    it, inserted := m.Insert(1, 1);
    assert !inserted && it == At(1) && m.Size() == 2;
  }

  /** Finding, erasing and clearing. */
  method MapEraseScenario()
  {
    var m := new Map<int>(0);
    var _, _ := m.Insert(1, 1);
    var _, _ := m.Insert(3, 3);
    assert Keys(m.tree) == {1, 3};
    var found := m.Find(3);
    assert found == At(3);
    var missing := m.Find(5);
    assert missing == End;
    m.Erase(found);
    assert Keys(m.tree) == {1} && m.Size() == 1;
    m.Clear();
    assert m.Empty() && Begin(m.tree) == End;
  }
}
