// The intrusive free list of the allocators (src/memory/stack_linked_list.h).
//
// Nodes are addresses (0 is nullptr).  The `next` pointer stored inside each
// node's memory is the map `next`; the ghost sequence Chain is the list of
// nodes reachable from head, in order.

module StackLinkedLists {

  /** `chain` is exactly the nodes reached from `head` by following `next` until nullptr. */
  ghost predicate IsChain(head: nat, next: map<nat, nat>, chain: seq<nat>)
  {
    && (chain == [] ==> head == 0)
    && (chain != [] ==> head == chain[0])
    && (forall i :: 0 <= i < |chain| ==> chain[i] != 0 && chain[i] in next)
    && (forall i :: 0 <= i < |chain| - 1 ==> next[chain[i]] == chain[i + 1])
    && (chain != [] ==> next[chain[|chain| - 1]] == 0)
    && (forall i, j :: 0 <= i < j < |chain| ==> chain[i] != chain[j])
  }

  class StackLinkedList {
    var head: nat
    var next: map<nat, nat>
    ghost var Chain: seq<nat>

    ghost predicate Valid()
      reads this
    {
      IsChain(head, next, Chain)
    }

    constructor ()
      ensures Valid() && Chain == [] && head == 0
    {
      head := 0;
      next := map[];
      Chain := [];
    }

    /** The move constructor takes over the other list and leaves it empty. */
    constructor Move(other: StackLinkedList)
      requires other.Valid()
      modifies other
      ensures Valid() && Chain == old(other.Chain)
      ensures other.Valid() && other.Chain == [] && other.head == 0
    {
      head := other.head;
      next := other.next;
      Chain := other.Chain;
      new;
      other.head := 0;
      other.Chain := [];
    }

    /** Links `node` in front of the old head; the node must not already be on the list. */
    method Push(node: nat)
      requires Valid()
      requires node != 0 && node !in Chain
      modifies this
      ensures Valid()
      ensures Chain == [node] + old(Chain)
      ensures head == node && next[node] == old(head)
    {
      next := next[node := head];
      head := node;
      Chain := [node] + Chain;
    }

    /** Returns the head (nullptr when empty) and advances past it. */
    method Pop() returns (top: nat)
      requires Valid()
      modifies this
      ensures Valid()
      ensures old(Chain) == [] ==> top == 0 && Chain == []
      ensures old(Chain) != [] ==> top == old(Chain)[0] && Chain == old(Chain)[1..]
      ensures next == old(next)
    {
      top := head;
      if head != 0 {
        head := next[head];
        Chain := Chain[1..];
      }
    }
  }

  /** Push then pop hands back the pushed node and restores the list. */
  method PushThenPop(list: StackLinkedList, node: nat) returns (popped: nat)
    requires list.Valid() && node != 0 && node !in list.Chain
    modifies list
    ensures list.Valid()
    ensures popped == node && list.Chain == old(list.Chain) && list.head == old(list.head)
  {
    list.Push(node);
    popped := list.Pop();
    if list.Chain == [] {
      assert list.head == 0;
    }
  }
}
