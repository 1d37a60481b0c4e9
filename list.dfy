// The doubly linked list of src/containers/list.h.
//
// The list is modelled by the sequence of its elements, front to back.  An
// iterator is a position in that sequence, the length of the sequence being
// end(); the node objects and their prev/next links are not modelled.

module DoublyLinkedList {

  /** The elements of s that do not satisfy the predicate, in their original order. */
  function RemovedIf<T>(s: seq<T>, p: T -> bool): (r: seq<T>)
    ensures |r| <= |s|
  {
    if s == [] then []
    else RemovedIf(s[..|s| - 1], p) + (if p(s[|s| - 1]) then [] else [s[|s| - 1]])
  }

  /** The kept elements are exactly the elements of s that fail the predicate. */
  lemma {:induction false} RemovedIfMembers<T>(s: seq<T>, p: T -> bool)
    ensures forall x :: x in RemovedIf(s, p) <==> x in s && !p(x)
    decreases |s|
  {
    if s != [] {
      var init := s[..|s| - 1];
      RemovedIfMembers(init, p);
      assert s == init + [s[|s| - 1]];
    }
  }

  /** Removing from a concatenation removes from each part. */
  lemma {:induction false} RemovedIfAppend<T>(a: seq<T>, b: seq<T>, p: T -> bool)
    ensures RemovedIf(a + b, p) == RemovedIf(a, p) + RemovedIf(b, p)
    decreases |b|
  {
    if b == [] {
      assert a + b == a;
    } else {
      var c := b[..|b| - 1];
      assert (a + b)[..|a + b| - 1] == a + c;
      RemovedIfAppend(a, c, p);
    }
  }

  /** The index of the first occurrence of x in s. */
  function FirstIndex<T(==)>(s: seq<T>, x: T): (i: nat)
    requires x in s
    ensures i < |s| && s[i] == x
    ensures forall j :: 0 <= j < i ==> s[j] != x
  {
    if s[0] == x then 0 else 1 + FirstIndex(s[1..], x)
  }

  /** The elements of s with x placed before position pos. */
  function Inserted<T>(s: seq<T>, pos: nat, x: T): (r: seq<T>)
    requires pos <= |s|
    ensures |r| == |s| + 1 && r[pos] == x
    ensures forall i :: 0 <= i < pos ==> r[i] == s[i]
    ensures forall i :: pos < i < |r| ==> r[i] == s[i - 1]
  {
    s[..pos] + [x] + s[pos..]
  }

  /** The elements of s without the one at position pos; end() removes nothing. */
  function Erased<T>(s: seq<T>, pos: nat): (r: seq<T>)
    requires pos <= |s|
    ensures pos == |s| ==> r == s
    ensures pos < |s| ==> |r| == |s| - 1
    ensures forall i :: 0 <= i < pos && i < |r| ==> r[i] == s[i]
    ensures forall i :: pos <= i < |r| ==> r[i] == s[i + 1]
  {
    if pos == |s| then s else s[..pos] + s[pos + 1..]
  }

  /** Erasing what was just inserted gives back the original list. */
  lemma EraseAfterInsert<T>(s: seq<T>, pos: nat, x: T)
    requires pos <= |s|
    ensures Erased(Inserted(s, pos, x), pos) == s
  {
    var r := Erased(Inserted(s, pos, x), pos);
    assert |r| == |s|;
    forall i | 0 <= i < |s|
      ensures r[i] == s[i]
    {
    }
  }

  /** Removing twice with the same predicate removes nothing more. */
  lemma {:induction false} RemovedIfIdempotent<T>(s: seq<T>, p: T -> bool)
    ensures RemovedIf(RemovedIf(s, p), p) == RemovedIf(s, p)
    decreases |s|
  {
    if s != [] {
      var init := s[..|s| - 1];
      RemovedIfIdempotent(init, p);
      RemovedIfAppend(RemovedIf(init, p), if p(s[|s| - 1]) then [] else [s[|s| - 1]], p);
      var last := if p(s[|s| - 1]) then [] else [s[|s| - 1]];
      if !p(s[|s| - 1]) {
        assert last[..0] == [];
        assert RemovedIf(last, p) == RemovedIf([], p) + last;
      }
    }
  }

  /** Extending the scanned prefix by one element extends the kept elements by it or by nothing. */
  lemma RemovedIfStep<T>(s: seq<T>, i: nat, p: T -> bool)
    requires i < |s|
    ensures RemovedIf(s[..i + 1], p) == RemovedIf(s[..i], p) + (if p(s[i]) then [] else [s[i]])
  {
    assert s[..i + 1][..i] == s[..i];
  }

  /** The list seen by one step of remove_if, with the scanned elements kept and the rest unscanned. */
  lemma ScanStep<T>(kept: seq<T>, original: seq<T>, done: nat)
    requires done < |original|
    ensures (kept + original[done..])[|kept|] == original[done]
    ensures Erased(kept + original[done..], |kept|) == kept + original[done + 1..]
    ensures kept + original[done..] == (kept + [original[done]]) + original[done + 1..]
  {
    assert original[done..] == [original[done]] + original[done + 1..];
  }

  class List<T(==)> {
    var items: seq<T>

    constructor ()
      ensures items == []
    {
      items := [];
    }

    function Begin(): (it: nat)
      reads this
      ensures it == 0 && (it == End() <==> items == [])
    {
      0
    }

    function End(): (it: nat)
      reads this
      ensures it == |items|
    {
      |items|
    }

    /** `front()` asserts that the list is not empty. */
    function Front(): (x: T)
      reads this
      requires items != []
      ensures x == items[0]
    {
      items[0]
    }

    /** `back()` asserts that the list is not empty. */
    function Back(): (x: T)
      reads this
      requires items != []
      ensures x == items[|items| - 1]
    {
      items[|items| - 1]
    }

    function Empty(): (b: bool)
      reads this
      ensures b <==> items == []
    {
      |items| == 0
    }

    function Size(): (n: nat)
      reads this
      ensures n == |items|
    {
      |items|
    }

    method PushFront(x: T)
      modifies this
      ensures items == [x] + old(items)
    {
      items := [x] + items;
    }

    method PushBack(x: T)
      modifies this
      ensures items == old(items) + [x]
    {
      items := items + [x];
    }

    /** A no-op on an empty list. */
    method PopFront()
      modifies this
      ensures old(items) == [] ==> items == []
      ensures old(items) != [] ==> items == old(items)[1..]
    {
      if items != [] {
        items := items[1..];
      }
    }

    /** A no-op on an empty list. */
    method PopBack()
      modifies this
      ensures old(items) == [] ==> items == []
      ensures old(items) != [] ==> items == old(items)[..|old(items)| - 1]
    {
      if items != [] {
        items := items[..|items| - 1];
      }
    }

    /** Places x immediately before pos; end() appends. */
    method Insert(pos: nat, x: T)
      requires pos <= |items|
      modifies this
      ensures items == Inserted(old(items), pos, x)
    {
      if pos == |items| {
        PushBack(x);
        return;
      }
      items := items[..pos] + [x] + items[pos..];
    }

    /**
     * Unlinks the element at pos and returns the position of the element that
     * followed it, which now sits at pos; end() changes nothing.
     */
    method Erase(pos: nat) returns (next: nat)
      requires pos <= |items|
      modifies this
      ensures items == Erased(old(items), pos)
      ensures next == pos
    {
      if pos == |items| {
        return pos;
      }
      items := items[..pos] + items[pos + 1..];
      next := pos;
    }

    /** Erases every element satisfying p; the others keep their order. */
    method RemoveIf(p: T -> bool)
      modifies this
      ensures items == RemovedIf(old(items), p)
    {
      ghost var original := items;
      ghost var done := 0;
      ghost var kept := [];
      var node := 0;
      while node < |items|
        invariant 0 <= done <= |original|
        invariant kept == RemovedIf(original[..done], p)
        invariant node == |kept| && items == kept + original[done..]
        decreases |original| - done
      {
        RemovedIfStep(original, done, p);
        ScanStep(kept, original, done);
        if p(items[node]) {
          node := Erase(node);
        } else {
          node := node + 1;
          kept := kept + [original[done]];
        }
        done := done + 1;
      }
      assert original[..done] == original;
    }

    /** Erases every element equal to x. */
    method Remove(x: T)
      modifies this
      ensures items == RemovedIf(old(items), y => y == x)
      ensures x !in items
    {
      RemoveIf(y => y == x);
      RemovedIfMembers(old(items), y => y == x);
    }

    /** The position of the first element equal to x, or end(). */
    method Find(x: T) returns (it: nat)
      ensures it <= |items|
      ensures it == |items| <==> x !in items
      ensures it < |items| ==> it == FirstIndex(items, x)
    {
      var node := 0;
      while node < |items|
        invariant node <= |items|
        invariant forall j :: 0 <= j < node ==> items[j] != x
      {
        if items[node] == x {
          return node;
        }
        node := node + 1;
      }
      return node;
    }

    /** Pops the front until the size is 0. */
    method Clear()
      modifies this
      ensures items == []
    {
      while |items| != 0
        decreases |items|
      {
        PopFront();
      }
    }
  }

  /** The scenarios of the list test. */
  method ListScenarios()
  {
    var list := new List<int>();
    assert list.Empty();
    list.PushFront(1);
    assert list.Size() == 1 && list.Front() == 1 && list.Back() == 1;
    list.PushFront(2);
    assert list.Size() == 2 && list.Front() == 2 && list.Back() == 1;
    list.PopFront();
    list.PushBack(3);
    assert list.Size() == 2 && list.Front() == 1 && list.Back() == 3;
    list.PopBack();
    list.PopBack();
    assert list.Size() == 0;
  }
}
