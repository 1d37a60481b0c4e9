// The linked stack of src/containers/stack.h.
//
// The stack is modelled by the sequence of its elements from the top down;
// the node objects and their next links are not modelled.  Which allocator a
// stack uses is kept only as the ownsAllocator flag.

module LinkedStacks {

  class Stack<T(0)> {
    var items: seq<T>
    var ownsAllocator: bool

    /** The default constructor creates and owns its allocator. */
    constructor ()
      ensures items == [] && ownsAllocator
    {
      items, ownsAllocator := [], true;
    }

    /** A stack on a caller's allocator does not own it. */
    constructor WithAllocator()
      ensures items == [] && !ownsAllocator
    {
      items, ownsAllocator := [], false;
    }

    /** The copy constructor: a new stack with the other's elements in the same order. */
    constructor Copy(other: Stack<T>)
      ensures items == other.items && ownsAllocator == other.ownsAllocator
    {
      items, ownsAllocator := [], false;
      new;
      SetByCopy(other);
    }

    /** `top()` asserts that the stack is not empty. */
    function Top(): (x: T)
      reads this
      requires items != []
      ensures x == items[0]
    {
      items[0]
    }

    function Empty(): (b: bool)
      reads this
      ensures b <==> items == []
    {
      |items| == 0
    }

    function Size(): (n: nat)
      reads this
      ensures n == |items|
    {
      |items|
    }

    method Push(x: T)
      modifies this
      ensures items == [x] + old(items) && ownsAllocator == old(ownsAllocator)
    {
      items := [x] + items;
    }

    /** A no-op on an empty stack. */
    method Pop()
      modifies this
      ensures old(items) == [] ==> items == []
      ensures old(items) != [] ==> items == old(items)[1..]
      ensures ownsAllocator == old(ownsAllocator)
    {
      if items != [] {
        items := items[1..];
      }
    }

    /** Pops until the size is 0. */
    method Clear()
      modifies this
      ensures items == [] && ownsAllocator == old(ownsAllocator)
    {
      while |items| != 0
        invariant ownsAllocator == old(ownsAllocator)
        decreases |items|
      {
        Pop();
      }
    }

    /** Exchanges the two stacks' elements and allocators, field by field as std::swap does. */
    method Swap(other: Stack<T>)
      modifies this, other
      ensures items == old(other.items) && other.items == old(items)
      ensures ownsAllocator == old(other.ownsAllocator) && other.ownsAllocator == old(ownsAllocator)
    {
      var s := items;
      items := other.items;
      other.items := s;
      var owns := ownsAllocator;
      ownsAllocator := other.ownsAllocator;
      other.ownsAllocator := owns;
    }

    /**
     * `_set_by_copy`: clears this stack, collects the other stack's nodes into
     * an array and pushes their data from the bottom to the top, so that the
     * order is kept.  When other is this stack, it is cleared before it is
     * read, so the result is empty.
     */
    method SetByCopy(other: Stack<T>)
      modifies this
      ensures other != this ==> items == old(other.items) && ownsAllocator == old(other.ownsAllocator)
      ensures other == this ==> items == []
    {
      Clear();
      ownsAllocator := other.ownsAllocator;
      var otherSize := |other.items|;
      if otherSize > 0 {
        var nodes := CollectNodes(other.items);
        PushFromBottom(nodes);
      }
    }

    /** The second loop of `_set_by_copy`: the collected data pushed from the last to the first. */
    method PushFromBottom(nodes: array<T>)
      requires items == []
      modifies this
      ensures items == nodes[..] && ownsAllocator == old(ownsAllocator)
    {
      var j := nodes.Length - 1;
      while j >= 0
        invariant -1 <= j < nodes.Length
        invariant ownsAllocator == old(ownsAllocator)
        invariant items == nodes[j + 1..]
      {
        assert nodes[j..] == [nodes[j]] + nodes[j + 1..];
        Push(nodes[j]);
        j := j - 1;
      }
    }

    /** `_set_by_move`: clears this stack, takes over the other's elements and allocator and leaves it empty. */
    method SetByMove(other: Stack<T>)
      modifies this, other
      ensures other != this ==> items == old(other.items) && ownsAllocator == old(other.ownsAllocator)
      ensures other.items == [] && !other.ownsAllocator
    {
      Clear();
      items, ownsAllocator := other.items, other.ownsAllocator;
      other.items, other.ownsAllocator := [], false;
    }
  }

  /** Push then pop gives back the pushed element and restores the stack. */
  method PushThenPop(s: Stack<int>, x: int) returns (top: int)
    modifies s
    ensures top == x && s.items == old(s.items)
  {
    s.Push(x);
    top := s.Top();
    s.Pop();
  }

  /** Last in, first out; a copy keeps the order. */
  method StackScenarios()
  {
    var s := new Stack<int>();
    s.Push(1);
    s.Push(2);
    assert s.Top() == 2 && s.Size() == 2;
    var copy := new Stack.Copy(s);
    assert copy.Top() == 2 && copy.Size() == 2;
    s.Pop();
    assert s.Top() == 1;
    s.Clear();
    assert s.Empty();
  }

  /** The first loop of `_set_by_copy`: the stack's data collected top first into a new array. */
  method CollectNodes<T(0)>(items: seq<T>) returns (nodes: array<T>)
    ensures fresh(nodes) && nodes[..] == items
  {
    nodes := new T[|items|];
    var i := 0;
    while i < |items|
      modifies nodes
      invariant 0 <= i <= |items|
      invariant nodes[..i] == items[..i]
    {
      nodes[i] := items[i];
      i := i + 1;
    }
  }
}
