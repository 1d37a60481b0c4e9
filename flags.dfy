// The bit-set wrapper of include/scythe/flags.h over a 32-bit inner type.
// An enumerator is passed as its own mask (`static_cast<InnerType>(value)`).

module FlagSet {

  /** `values_ | mask`: the bits of `mask` become set and no other bit changes. */
  function Added(values: bv32, mask: bv32): (r: bv32)
    ensures r & mask == mask
    ensures r & !mask == values & !mask
  {
    values | mask
  }

  /** `values_ & ~mask`: the bits of `mask` become clear and no other bit changes. */
  function Removed(values: bv32, mask: bv32): (r: bv32)
    ensures r & mask == 0
    ensures r & !mask == values & !mask
  {
    values & !mask
  }

  class Flags {
    var values: bv32

    /** `Flags()`: the default member initialiser is 0. */
    constructor ()
      ensures values == 0
    {
      values := 0;
    }

    constructor FromValues(values: bv32)
      ensures this.values == values
    {
      this.values := values;
    }

    constructor Copy(other: Flags)
      ensures values == other.values
    {
      values := other.values;
    }

    /** The move constructor takes the other's bits and zeroes it. */
    constructor Move(other: Flags)
      modifies other
      ensures values == old(other.values) && other.values == 0
    {
      values := other.values;
      new;
      other.values := 0;
    }

    method CopyAssign(other: Flags)
      modifies this
      ensures values == old(other.values)
    {
      values := other.values;
    }

    /** Move assignment; a self-move leaves the flags empty. */
    method MoveAssign(other: Flags)
      modifies this, other
      ensures other.values == 0
      ensures other != this ==> values == old(other.values)
    {
      values := other.values;
      other.values := 0;
    }

    /** `operator |=`, which is Add. */
    method OrAssign(mask: bv32)
      modifies this
      ensures values == Added(old(values), mask)
    {
      Add(mask);
    }

    /** `operator |` ORs the other operand into this one and returns this one. */
    method Or(other: Flags) returns (r: Flags)
      modifies this
      ensures r == this
      ensures values == old(values) | old(other.values)
    {
      values := values | other.values;
      r := this;
    }

    method Clear()
      modifies this
      ensures values == 0
    {
      values := 0;
    }

    method Add(mask: bv32)
      modifies this
      ensures values == Added(old(values), mask)
    {
      values := values | mask;
    }

    method Remove(mask: bv32)
      modifies this
      ensures values == Removed(old(values), mask)
    {
      values := values & !mask;
    }
  }
}
