// The singly linked list of src/containers/forward_list.h.
//
// The list is modelled by the sequence of its elements from the head; the
// node objects and their next links are not modelled.  Which allocator a
// list uses is kept only as the ownsAllocator flag.

module ForwardLists {

  class ForwardList<T(0)> {
    var items: seq<T>
    var ownsAllocator: bool

    /** The default constructor creates and owns its allocator. */
    constructor ()
      ensures items == [] && ownsAllocator
    {
      items, ownsAllocator := [], true;
    }

    /** A list on a caller's allocator does not own it. */
    constructor WithAllocator()
      ensures items == [] && !ownsAllocator
    {
      items, ownsAllocator := [], false;
    }

    /** The copy constructor: a new list with the other's elements in the same order. */
    constructor Copy(other: ForwardList<T>)
      ensures items == other.items && ownsAllocator == other.ownsAllocator
    {
      items, ownsAllocator := [], false;
      new;
      SetByCopy(other);
    }

    /** `front()` asserts that the list is not empty. */
    function Front(): (x: T)
      reads this
      requires items != []
      ensures x == items[0]
    {
      items[0]
    }

    function Empty(): (b: bool)
      reads this
      ensures b <==> items == []
    {
      |items| == 0
    }

    /** `size()` and `length()` both return this. */
    function Size(): (n: nat)
      reads this
      ensures n == |items|
    {
      |items|
    }

    method PushFront(x: T)
      modifies this
      ensures items == [x] + old(items) && ownsAllocator == old(ownsAllocator)
    {
      items := [x] + items;
    }

    /** A no-op on an empty list. */
    method PopFront()
      modifies this
      ensures old(items) == [] ==> items == []
      ensures old(items) != [] ==> items == old(items)[1..]
      ensures ownsAllocator == old(ownsAllocator)
    {
      if items != [] {
        items := items[1..];
      }
    }

    /** Pops the front until the size is 0. */
    method Clear()
      modifies this
      ensures items == [] && ownsAllocator == old(ownsAllocator)
    {
      while |items| != 0
        invariant ownsAllocator == old(ownsAllocator)
        decreases |items|
      {
        PopFront();
      }
    }

    /** Exchanges the two lists' elements and allocators, field by field as std::swap does. */
    method Swap(other: ForwardList<T>)
      modifies this, other
      ensures items == old(other.items) && other.items == old(items)
      ensures ownsAllocator == old(other.ownsAllocator) && other.ownsAllocator == old(ownsAllocator)
    {
      var s := items;
      items := other.items;
      other.items := s;
      var owns := ownsAllocator;
      ownsAllocator := other.ownsAllocator;
      other.ownsAllocator := owns;
    }

    /**
     * `_set_by_copy`: forgets the current elements, collects the other list's
     * nodes into an array and pushes their data from the last to the first.
     * When other is this list, the elements are forgotten before they are
     * read, so the result is empty.
     */
    method SetByCopy(other: ForwardList<T>)
      modifies this
      ensures other != this ==> items == old(other.items) && ownsAllocator == old(other.ownsAllocator)
      ensures other == this ==> items == []
    {
      items := [];
      ownsAllocator := other.ownsAllocator;
      var otherSize := |other.items|;
      if otherSize > 0 {
        var nodes := new T[otherSize];
        var i := 0;
        while i < otherSize
          modifies nodes
          invariant 0 <= i <= otherSize
          invariant nodes[..i] == other.items[..i]
        {
          nodes[i] := other.items[i];
          i := i + 1;
        }
        assert nodes[..] == other.items;
        var j := otherSize - 1;
        while j >= 0
          invariant -1 <= j < otherSize
          invariant other != this && other.items == old(other.items) && nodes[..] == other.items
          invariant ownsAllocator == other.ownsAllocator
          invariant items == other.items[j + 1..]
        {
          assert other.items[j..] == [nodes[j]] + other.items[j + 1..];
          PushFront(nodes[j]);
          j := j - 1;
        }
      }
    }

    /** Copy assignment, which does not check for self-assignment. */
    method CopyAssignAsWritten(other: ForwardList<T>)
      modifies this
      ensures other != this ==> items == old(other.items)
      ensures other == this ==> items == []
    {
      SetByCopy(other);
    }

    /** Copy assignment that leaves a self-assignment alone. */
    method CopyAssign(other: ForwardList<T>)
      modifies this
      ensures items == old(other.items)
    {
      if other != this {
        SetByCopy(other);
      }
    }

    /** `_set_by_move`: takes over the other list's elements and allocator and leaves it empty, without an allocator. */
    method SetByMove(other: ForwardList<T>)
      modifies this, other
      ensures other != this ==> items == old(other.items) && ownsAllocator == old(other.ownsAllocator)
      ensures other.items == [] && !other.ownsAllocator
    {
      items, ownsAllocator := other.items, other.ownsAllocator;
      other.items, other.ownsAllocator := [], false;
    }
  }

  /** Assigning a one-element list to itself leaves it empty. */
  method SelfCopyAssignEmpties() returns (before: int, after: int)
    ensures before == 1 && after == 0
  {
    var list := new ForwardList<int>();
    list.PushFront(7);
    before := list.Size();
    list.CopyAssignAsWritten(list);
    after := list.Size();
  }

  /** Push and pop at the front; a copy keeps the order; swap exchanges the contents. */
  method ForwardListScenarios()
  {
    var list := new ForwardList<int>();
    assert list.Empty();
    list.PushFront(1);
    list.PushFront(2);
    assert list.Size() == 2 && list.Front() == 2;
    var copy := new ForwardList.Copy(list);
    assert copy.items == [2, 1];
    list.PopFront();
    assert list.Size() == 1 && list.Front() == 1;
    list.Swap(copy);
    assert list.items == [2, 1] && copy.items == [1];
    list.Clear();
    assert list.Empty();
  }
}
