// The growable array of src/containers/array.h.
//
// `buffer_` is a Dafny array (null when nothing is allocated), `buffer_size_`
// the recorded capacity and `size_` the number of constructed elements.  The
// element a value-initialised `T()` produces is the constant `initial` given
// at construction.
//
// The source's `reserve` sets the recorded capacity to its argument even when
// that is below the current one, and frees the buffer for 0 while keeping
// the size.  Its `resize` sets the new size before reserving, so a growth
// moves as many elements as the new size out of the old buffer.
// ReserveAsWritten and ResizeAsWritten model that bookkeeping; the class
// uses the evidently intended reserve, which never shrinks, and reserves
// before it changes the size.

module DynamicArray {

  /** The bookkeeping of an array: the real buffer length, `buffer_size_` and `size_`. */
  datatype Layout = Layout(bufferLength: nat, capacity: nat, size: nat)

  /** What the source's `reserve(n)` does to the bookkeeping, and whether its
   *  element move writes past the buffer it just allocated. */
  function ReserveAsWritten(l: Layout, n: nat): (r: (Layout, bool))
    ensures r.0.capacity == n && r.0.size == l.size
    ensures r.1 <==> 0 < n && l.capacity < n && l.bufferLength > 0 && n < l.size
  {
    if n == 0 then (Layout(0, 0, l.size), false)
    else if l.capacity < n then
      (Layout(n, n, l.size), l.bufferLength > 0 && n < l.size)
    else (Layout(l.bufferLength, n, l.size), false)
  }

  /** The intended `reserve(n)`: grow to n when the capacity is smaller, otherwise nothing. */
  function ReserveIntended(l: Layout, n: nat): (r: Layout)
    ensures r.capacity == if l.capacity < n then n else l.capacity
    ensures r.size == l.size
    ensures l.size <= l.capacity ==> r.size <= r.capacity
  {
    if l.capacity < n then Layout(n, n, l.size) else l
  }

  /** Reserving less than the size records a capacity below the size. */
  lemma ReserveShrinksBelowSize()
    ensures var l := Layout(8, 8, 6);
      ReserveAsWritten(l, 2).0.capacity < ReserveAsWritten(l, 2).0.size
  {
  }

  /** Reserving 0 drops the buffer of a non-empty array and keeps its size. */
  lemma ReserveZeroDropsElements()
    ensures var r := ReserveAsWritten(Layout(8, 8, 6), 0).0;
      r.bufferLength == 0 && r.size == 6
  {
  }

  /** After the shrink, a later reserve moves six elements into a buffer of four. */
  lemma ReserveAfterShrinkOverflows()
    ensures var shrunk := ReserveAsWritten(Layout(8, 8, 6), 2).0;
      ReserveAsWritten(shrunk, 4).1 && ReserveAsWritten(shrunk, 4).0.bufferLength < shrunk.size
  {
  }

  /** The intended reserve never lowers the capacity, and reserving twice is reserving the larger amount. */
  lemma ReserveIntendedMonotone(l: Layout, m: nat, n: nat)
    ensures ReserveIntended(l, n).capacity >= l.capacity
    ensures ReserveIntended(ReserveIntended(l, m), n).capacity == ReserveIntended(l, if m < n then n else m).capacity
  {
  }

  /**
   * Whether the element move of the source's `reserve(n)` reads past the old
   * buffer: it moves `size_` elements out of a buffer of `bufferLength`.
   */
  function ReserveReadsPast(l: Layout, n: nat): (b: bool)
    ensures b ==> l.bufferLength < l.size
  {
    0 < n && l.capacity < n && l.bufferLength > 0 && l.bufferLength < l.size
  }

  /**
   * The source's `resize(newSize)` on the bookkeeping: `size_` takes the new
   * size first, and only then does a growth reserve a quarter more, so its
   * move reads `newSize` elements out of the old buffer.  The flag tells
   * whether that read passes the old buffer's end.
   */
  function ResizeAsWritten(l: Layout, newSize: nat): (r: (Layout, bool))
    ensures r.0.size == newSize
    ensures r.1 <==> l.size < newSize && 0 < l.bufferLength < newSize && l.capacity < newSize + newSize / 4
  {
    if newSize <= l.size then (Layout(l.bufferLength, l.capacity, newSize), false)
    else
      var grown := Layout(l.bufferLength, l.capacity, newSize);
      var n := newSize + newSize / 4;
      (ReserveAsWritten(grown, n).0, ReserveReadsPast(grown, n))
  }

  /** As written, a push onto a full, non-empty buffer reads one element past its end. */
  lemma PushBackOnFullReadsPast(k: nat)
    requires 0 < k
    ensures ResizeAsWritten(Layout(k, k, k), k + 1).1
  {
  }

  class Array<T(0)> {
    const initial: T
    var buffer: array?<T>
    var bufferSize: nat
    var size: nat
    ghost var Repr: set<object>

    ghost predicate Valid()
      reads this, Repr
    {
      && this in Repr
      && (buffer != null ==> buffer in Repr)
      && (buffer == null ==> bufferSize == 0)
      && (buffer != null ==> buffer.Length == bufferSize)
      && size <= bufferSize
    }

    /** The constructed elements, in order. */
    ghost function Elements(): seq<T>
      reads this, Repr
      requires Valid()
    {
      if buffer == null then [] else buffer[..size]
    }

    function GetLayout(): Layout
      reads this
    {
      Layout(bufferSize, bufferSize, size)
    }

    constructor (initial: T)
      ensures Valid() && fresh(Repr) && Elements() == [] && bufferSize == 0 && buffer == null
      ensures this.initial == initial
    {
      Repr := {this};
      this.initial := initial;
      buffer := null;
      bufferSize := 0;
      size := 0;
    }

    function Empty(): (b: bool)
      reads this, Repr
      requires Valid()
      ensures b <==> Elements() == []
    {
      size == 0
    }

    function Size(): (n: nat)
      reads this, Repr
      requires Valid()
      ensures n == |Elements()|
    {
      size
    }

    function Capacity(): (n: nat)
      reads this, Repr
      requires Valid()
      ensures n >= |Elements()|
    {
      bufferSize
    }

    /** `at(i)` asserts that the index is in range. */
    function At(i: nat): (x: T)
      reads this, Repr
      requires Valid() && i < size
      ensures x == Elements()[i]
    {
      buffer[i]
    }

    function Front(): (x: T)
      reads this, Repr
      requires Valid() && size > 0
      ensures x == Elements()[0]
    {
      buffer[0]
    }

    function Back(): (x: T)
      reads this, Repr
      requires Valid() && size > 0
      ensures x == Elements()[|Elements()| - 1]
    {
      buffer[size - 1]
    }

    /** Destroys the elements; the buffer is kept. */
    method Clear()
      requires Valid()
      modifies this
      ensures Valid() && Repr == old(Repr)
      ensures Elements() == [] && buffer == old(buffer) && bufferSize == old(bufferSize)
    {
      size := 0;
    }

    /** Grows the buffer to n elements, moving the old ones, when the capacity is smaller. */
    method Reserve(n: nat)
      requires Valid()
      modifies this
      ensures Valid() && fresh(Repr - old(Repr)) && Elements() == old(Elements())
      ensures GetLayout() == ReserveIntended(old(GetLayout()), n)
      ensures old(bufferSize) >= n ==> buffer == old(buffer)
      ensures old(bufferSize) < n ==> fresh(buffer)
    {
      if bufferSize < n {
        var newBuffer := new T[n];
        var oldBuffer := buffer;
        if oldBuffer != null {
          for i := 0 to size
            modifies newBuffer
            invariant newBuffer[..i] == oldBuffer[..i]
          {
            newBuffer[i] := oldBuffer[i];
          }
        }
        buffer := newBuffer;
        bufferSize := n;
        Repr := Repr + {newBuffer};
      }
    }

    /** Shrinking destroys the tail; growing reserves a quarter more and value-initialises the new slots. */
    method Resize(newSize: nat)
      requires Valid()
      modifies Repr
      ensures Valid() && fresh(Repr - old(Repr)) && size == newSize
      ensures newSize <= old(size) ==> Elements() == old(Elements())[..newSize] && buffer == old(buffer)
      ensures newSize > old(size) ==>
        Elements() == old(Elements()) + seq(newSize - old(size), _ => initial)
      ensures newSize > old(size) ==> bufferSize >= newSize + newSize / 4
    {
      var oldSize := size;
      if newSize <= oldSize {
        size := newSize;
        return;
      }
      Reserve(newSize + newSize / 4);
      var b := buffer;
      ghost var kept := b[..oldSize];
      size := newSize;
      for i := oldSize to newSize
        modifies b
        invariant b[..oldSize] == kept
        invariant forall k :: oldSize <= k < i ==> b[k] == initial
      {
        b[i] := initial;
      }
      assert b[..size] == kept + seq(newSize - oldSize, _ => initial);
    }

    method PushBack(x: T)
      requires Valid()
      modifies Repr
      ensures Valid() && fresh(Repr - old(Repr)) && Elements() == old(Elements()) + [x]
    {
      Resize(size + 1);
      buffer[size - 1] := x;
    }

    /** A no-op on an empty array. */
    method PopBack()
      requires Valid()
      modifies Repr
      ensures Valid() && fresh(Repr - old(Repr))
      ensures old(size) == 0 ==> Elements() == []
      ensures old(size) > 0 ==> Elements() == old(Elements())[..old(size) - 1]
    {
      if size != 0 {
        Resize(size - 1);
      }
    }
  }

  /** The scenarios of the array test. */
  method ArrayScenarios()
  {
    var a := new Array<int>(0);
    assert a.Empty();
    a.PushBack(1);
    assert a.Size() == 1 && a.Front() == 1 && a.Back() == 1;
    a.PushBack(2);
    assert a.Size() == 2 && a.Front() == 1 && a.Back() == 2;
    a.PopBack();
    assert a.Size() == 1 && a.Front() == 1 && a.Back() == 1;
    a.PopBack();
    assert a.Size() == 0;

    var b := new Array<int>(0);
    b.Reserve(4);
    assert b.Size() == 0 && b.Capacity() == 4;

    var c := new Array<int>(0);
    c.Resize(4);
    assert c.Size() == 4 && c.Capacity() >= 4;
  }
}
