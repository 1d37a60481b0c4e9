// The red-black-tree set of src/containers/set.h, with integer elements.
//
// The set shares the tree of RedBlackTrees with the map, storing the unit
// value with each element.  Copying, moving, swapping and the allocator are
// not part of this model.

module Sets {
  import opened RedBlackTrees

  class Set {
    var tree: Tree<()>
    var size: nat

    ghost predicate Valid()
      reads this
    {
      Bst(tree) && size == |Keys(tree)|
    }

    /** The elements of the set. */
    ghost function Contents(): set<int>
      reads this
    {
      Keys(tree)
    }

    constructor ()
      ensures Valid() && Contents() == {}
    {
      tree, size := Leaf, 0;
    }

    function Empty(): (b: bool)
      reads this
      requires Valid()
      ensures b <==> Contents() == {}
    {
      size == 0
    }

    function Size(): (n: nat)
      reads this
      requires Valid()
      ensures n == |Contents()|
    {
      size
    }

    /** `find` by way of `_search`: walk down from the root until the value or a leaf. */
    method Find(value: int) returns (it: Position)
      requires Valid()
      ensures it == End <==> value !in Contents()
      ensures it != End ==> it == At(value)
    {
      var x := tree;
      while x.Node? && x.key != value
        invariant Bst(x)
        invariant value in Keys(tree) <==> value in Keys(x)
        decreases x
      {
        SearchStep(x, value);
        x := if value < x.key then x.left else x.right;
      }
      it := if x.Leaf? then End else At(value);
    }

    /** `trusted_insert`: the caller guarantees that the value is absent. */
    method TrustedInsert(value: int) returns (it: Position)
      requires Valid() && value !in Contents()
      modifies this
      ensures Valid() && it == At(value) && size == old(size) + 1
      ensures Contents() == old(Contents()) + {value}
    {
      tree := RedBlackTrees.Insert(tree, value, ());
      size := size + 1;
      it := At(value);
    }

    /**
     * `insert`: a present value leaves the set as it is and yields its
     * element with false; a new value is inserted and yields true.
     */
    method Insert(value: int) returns (it: Position, inserted: bool)
      requires Valid()
      modifies this
      ensures Valid() && it == At(value)
      ensures inserted <==> value !in old(Contents())
      ensures Contents() == old(Contents()) + {value}
      ensures size == old(size) + (if inserted then 1 else 0)
    {
      var existing := Find(value);
      if existing != End {
        return existing, false;
      }
      it := TrustedInsert(value);
      inserted := true;
    }

    /** `erase(pos)`: pos must point at an element, which alone is removed. */
    method Erase(pos: Position)
      requires Valid() && pos.At? && pos.key in Contents()
      modifies this
      ensures Valid() && size == old(size) - 1
      ensures Contents() == old(Contents()) - {pos.key}
    {
      tree := Delete(tree, pos.key);
      size := size - 1;
    }

    /**
     * `erase(value)` as written: walk from `begin()`, delete the node holding
     * the value and then step `++it` from that node, whose memory has just
     * been given back to the allocator.  The walk stops there, where the
     * behaviour is undefined; readsFreedNode records that it was reached.
     */
    method EraseValueAsWritten(value: int) returns (count: nat, readsFreedNode: bool)
      requires Valid()
      modifies this
      ensures Valid()
      ensures readsFreedNode <==> value in old(Contents())
      ensures Contents() == old(Contents()) - {value}
    {
      count, readsFreedNode := 0, false;
      var it := Begin(tree);
      while it != End
        invariant tree == old(tree)
        invariant it.At? ==> it.key in Keys(tree) && (value in Keys(tree) ==> it.key <= value)
        invariant it == End ==> value !in Keys(tree)
        decreases if it.At? && tree.Node? then MaxKey(tree) - it.key + 1 else 0
      {
        if it.key == value {
          Erase(it);
          count := count + 1;
          readsFreedNode := true;
          return;
        }
        it := Succ(tree, it.key);
      }
    }

    /** `erase(value)` as intended: remove the value, if present, and report how many went. */
    method EraseValue(value: int) returns (count: nat)
      requires Valid()
      modifies this
      ensures Valid()
      ensures count == if value in old(Contents()) then 1 else 0
      ensures size == old(size) - count
      ensures Contents() == old(Contents()) - {value}
    {
      var it := Find(value);
      if it == End {
        return 0;
      }
      Erase(it);
      count := 1;
    }

    /** `clear`: every node is destroyed. */
    method Clear()
      modifies this
      ensures Valid() && Contents() == {} && size == 0
    {
      tree, size := Leaf, 0;
    }
  }

  /** Erasing a present value by the source's loop steps from a freed node. */
  method EraseValueReadsFreedNode() returns (readsFreedNode: bool)
    ensures readsFreedNode
  {
    var s := new Set();
    var _, _ := s.Insert(4);
    var _, freed := s.EraseValueAsWritten(4);
    readsFreedNode := freed;
  }

  /** A repeated value is not inserted twice; erasing and clearing. */
  method SetScenarios()
  {
    var s := new Set();
    var it, inserted := s.Insert(1);
    assert inserted && s.Contents() == {1};
    it, inserted := s.Insert(2);
    assert inserted && s.Contents() == {1, 2};
    it, inserted := s.Insert(1);
    assert !inserted && it == At(1) && s.Size() == 2;
    var count := s.EraseValue(2);
    assert count == 1 && s.Contents() == {1};
    count := s.EraseValue(2);
    assert count == 0;
    s.Clear();
    assert s.Empty();
  }
}
