// The sliding board of src/ui/board.cpp (ColoredBoard): a rectangle that,
// once told to move, slides along one axis at a fixed velocity until it
// passes the far end of its range, where it stops at that end and turns
// around for the next move.  Coordinates and times are reals; drawing is
// not modelled.

module Boards {

  datatype Vector2 = Vector2(x: real, y: real)

  /** The board's moving coordinate: y for a vertical board, x for a horizontal one. */
  function Axis(p: Vector2, vertical: bool): real
  {
    if vertical then p.y else p.x
  }

  /** The position with the moving coordinate replaced. */
  function WithAxis(p: Vector2, vertical: bool, v: real): (r: Vector2)
    ensures Axis(r, vertical) == v
    ensures vertical ==> r.x == p.x
    ensures !vertical ==> r.y == p.y
  {
    if vertical then p.(y := v) else p.(x := v)
  }

  class ColoredBoard {
    var position: Vector2
    const minValue: real
    const maxValue: real
    const velocity: real
    const isVertical: bool
    var movePositive: bool
    var moveActive: bool

    /**
     * The constructor places the board at the minimum of its range when
     * `minPosition` is set and at the maximum otherwise, on the moving axis,
     * with `otherCoord` on the other; from the minimum it next moves up.
     */
    constructor (otherCoord: real, valueMin: real, valueMax: real, velocity: real, minPosition: bool, isVertical: bool)
      ensures Axis(position, isVertical) == (if minPosition then valueMin else valueMax)
      ensures Axis(position, !isVertical) == otherCoord
      ensures minValue == valueMin && maxValue == valueMax && this.velocity == velocity && this.isVertical == isVertical
      ensures movePositive == minPosition && !moveActive
    {
      var end := if minPosition then valueMin else valueMax;
      position := Vector2(if isVertical then otherCoord else end, if !isVertical then otherCoord else end);
      minValue, maxValue, this.velocity, this.isVertical := valueMin, valueMax, velocity, isVertical;
      movePositive, moveActive := minPosition, false;
    }

    predicate IsMoving()
      reads this
    {
      moveActive
    }

    /** `IsPosMin`: at rest at the minimum end, ready to move up. */
    function IsPosMin(): (r: bool)
      reads this
      ensures r <==> !IsMoving() && movePositive
    {
      !moveActive && movePositive
    }

    /** `IsPosMax`: at rest at the maximum end, ready to move down. */
    function IsPosMax(): (r: bool)
      reads this
      ensures r <==> !IsMoving() && !movePositive
    {
      !moveActive && !movePositive
    }

    /** `Move` only starts the motion. */
    method Move()
      modifies this
      ensures moveActive && position == old(position) && movePositive == old(movePositive)
    {
      moveActive := true;
    }

    /**
     * `Update(sec)`: at rest nothing changes.  Moving up, the coordinate
     * grows by `velocity * sec`; once past the maximum it is clamped there,
     * the direction flips and the board stops.  Moving down mirrors this
     * against the minimum.  The other coordinate never changes.
     */
    method Update(sec: real)
      modifies this
      ensures !old(moveActive) ==> position == old(position) && !moveActive && movePositive == old(movePositive)
      ensures Axis(position, !isVertical) == Axis(old(position), !isVertical)
      ensures old(moveActive) ==> Axis(position, isVertical) == Slide(Axis(old(position), isVertical), old(movePositive), sec)
      ensures old(moveActive) && old(movePositive) ==>
        (moveActive <==> Axis(old(position), isVertical) + velocity * sec <= maxValue) &&
        (movePositive <==> moveActive)
      ensures old(moveActive) && !old(movePositive) ==>
        (moveActive <==> Axis(old(position), isVertical) - velocity * sec >= minValue) &&
        (movePositive <==> !moveActive)
    {
      if !moveActive {
        return;
      }
      if movePositive {
        if isVertical {
          position := position.(y := position.y + velocity * sec);
          if position.y > maxValue {
            position := position.(y := maxValue);
            movePositive := false;
            moveActive := false;
          }
        } else {
          position := position.(x := position.x + velocity * sec);
          if position.x > maxValue {
            position := position.(x := maxValue);
            movePositive := false;
            moveActive := false;
          }
        }
      } else {
        if isVertical {
          position := position.(y := position.y - velocity * sec);
          if position.y < minValue {
            position := position.(y := minValue);
            movePositive := true;
            moveActive := false;
          }
        } else {
          position := position.(x := position.x - velocity * sec);
          if position.x < minValue {
            position := position.(x := minValue);
            movePositive := true;
            moveActive := false;
          }
        }
      }
    }

    /** The moving coordinate after one step from `a` in the given direction, clamped at the far end. */
    function Slide(a: real, positive: bool, sec: real): (r: real)
      reads this
      ensures positive ==> r == Min(a + velocity * sec, maxValue)
      ensures !positive ==> r == Max(a - velocity * sec, minValue)
    {
      if positive then (if a + velocity * sec > maxValue then maxValue else a + velocity * sec)
      else (if a - velocity * sec < minValue then minValue else a - velocity * sec)
    }

    /** The board stays within its range: a step from inside the range ends inside it. */
    lemma SlideStaysInRange(a: real, positive: bool, sec: real)
      requires minValue <= a <= maxValue && velocity >= 0.0 && sec >= 0.0
      ensures minValue <= Slide(a, positive, sec) <= maxValue
    {
    }
  }

  function Min(a: real, b: real): real
  {
    if a <= b then a else b
  }

  function Max(a: real, b: real): real
  {
    if a >= b then a else b
  }

  /** A vertical board from the minimum slides up, stops at the maximum, and comes back down. */
  method BoardScenario()
  {
    var b := new ColoredBoard(0.0, 0.25, 1.0, 1.0, true, true);
    assert b.IsPosMin() && b.position == Vector2(0.0, 0.25);
    b.Move();
    b.Update(0.5);
    assert b.position.y == 0.75 && b.IsMoving();
    b.Update(0.5);
    assert b.position.y == 1.0 && b.IsPosMax();
    b.Update(0.5);
    assert b.position.y == 1.0;
    b.Move();
    b.Update(1.0);
    assert b.position.y == 0.25 && b.IsPosMin() && b.position.x == 0.0;
  }
}
