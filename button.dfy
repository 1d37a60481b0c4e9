// The touch state of src/ui/button.cpp.
//
// A Button is a Rect widget of a WidgetTree together with its `is_touched_`
// flag; whether a touch point lies inside it is `IsInsideGlobal` of that
// widget.  Drawing is reduced to the choice between the normal and the
// touch colour (or texture).

module Buttons {
  import Widgets

  /** The touch events a button reacts to; `inside` says whether the point lies inside the button. */
  datatype TouchEvent = Down(inside: bool) | Move(inside: bool) | Up

  /** `is_touched_` after one event. */
  function Step(touched: bool, e: TouchEvent): (r: bool)
    ensures e.Up? ==> !r
    ensures e.Down? ==> (r <==> touched || e.inside)
    ensures e.Move? ==> (r <==> touched && e.inside)
  {
    match e
    case Down(inside) => if inside then true else touched
    case Move(inside) => if touched && !inside then false else touched
    case Up => false
  }

  /** `is_touched_` after a sequence of events, starting from `touched`. */
  function AfterEvents(touched: bool, evs: seq<TouchEvent>): bool
  {
    if evs == [] then touched else Step(AfterEvents(touched, evs[..|evs| - 1]), evs[|evs| - 1])
  }

  /** An event that leaves a touched button touched. */
  predicate Keeps(e: TouchEvent)
  {
    e.Down? || (e.Move? && e.inside)
  }

  /**
   * A button is touched after a run of events exactly when some press
   * landed inside it and every later event kept the touch, or it was
   * touched to begin with and every event kept the touch.
   */
  lemma {:induction false} TouchedExactly(touched: bool, evs: seq<TouchEvent>)
    ensures AfterEvents(touched, evs) <==>
      (exists i :: 0 <= i < |evs| && evs[i] == Down(true) && forall j :: i < j < |evs| ==> Keeps(evs[j])) ||
      (touched && forall j :: 0 <= j < |evs| ==> Keeps(evs[j]))
  {
    if evs != [] {
      var n := |evs| - 1;
      var init := evs[..n];
      TouchedExactly(touched, init);
      assert forall j :: 0 <= j < n ==> init[j] == evs[j];
      if AfterEvents(touched, evs) {
        if evs[n] == Down(true) {
        } else {
          assert Keeps(evs[n]) && AfterEvents(touched, init);
          if exists i :: 0 <= i < n && init[i] == Down(true) && forall j :: i < j < n ==> Keeps(init[j]) {
            var i :| 0 <= i < n && init[i] == Down(true) && forall j :: i < j < n ==> Keeps(init[j]);
            assert evs[i] == Down(true) && forall j :: i < j < |evs| ==> Keeps(evs[j]);
          }
        }
      }
    }
  }

  /** A release always leaves the button untouched, whatever came before. */
  lemma ReleaseUntouches(touched: bool, evs: seq<TouchEvent>)
    ensures !AfterEvents(touched, evs + [Up])
  {
    assert (evs + [Up])[..|evs|] == evs;
  }

  /** The look `Render` picks. */
  datatype Look = Normal | Touched

  class Button {
    const tree: Widgets.WidgetTree
    /** The Rect widget the button is. */
    const id: nat
    var isTouched: bool

    ghost predicate Valid()
      reads this, tree
    {
      tree.Valid() && id in tree.widgets && tree.widgets[id].size.Some?
    }

    /** `Button(x, y, width, height, flags)`: a new Rect widget, not touched. */
    constructor (tree: Widgets.WidgetTree, x: real, y: real, width: real, height: real, flags: bv32)
      requires tree.Valid()
      modifies tree
      ensures this.tree == tree && Valid() && !isTouched
      ensures tree.widgets == old(tree.widgets)[id := Widgets.Widget(0, Widgets.None, Widgets.Vector2(x, y), flags, false, true,
                                                                     Widgets.Some(Widgets.RectSize(width, height)))]
    {
      this.tree := tree;
      var w := tree.Create(x, y, flags, Widgets.Some(Widgets.RectSize(width, height)));
      id := w;
      isTouched := false;
    }

    /** Whether the point lies strictly inside the button at its global position. */
    ghost predicate Inside(p: Widgets.Vector2, depth: map<nat, nat>)
      requires Valid() && Widgets.ParentRanked(tree.widgets, depth)
      reads this, tree
    {
      Widgets.InsideAt(Widgets.GlobalPosition(tree.widgets, depth, id), tree.widgets[id].size.value, p.x, p.y)
    }

    /** `is_touched`. */
    function IsTouched(): (r: bool)
      reads this
      ensures r == isTouched
    {
      isTouched
    }

    /** `OnTouchDown`: a press inside touches the button; a press outside leaves it as it was. */
    method OnTouchDown(p: Widgets.Vector2, ghost depth: map<nat, nat>)
      requires Valid() && Widgets.ParentRanked(tree.widgets, depth)
      modifies this
      ensures isTouched == Step(old(isTouched), Down(Inside(p, depth)))
    {
      var inside := tree.IsInsideGlobal(id, p.x, p.y, depth);
      if inside {
        isTouched := true;
      }
    }

    /** `OnTouchMove`: leaving the button untouches it; nothing else changes the state. */
    method OnTouchMove(p: Widgets.Vector2, ghost depth: map<nat, nat>)
      requires Valid() && Widgets.ParentRanked(tree.widgets, depth)
      modifies this
      ensures isTouched == Step(old(isTouched), Move(Inside(p, depth)))
    {
      if isTouched {
        var inside := tree.IsInsideGlobal(id, p.x, p.y, depth);
        if !inside {
          isTouched := false;
          return;
        }
      }
    }

    /** `OnTouchUp`: the button is untouched, wherever the release is. */
    method OnTouchUp(p: Widgets.Vector2)
      modifies this
      ensures isTouched == Step(old(isTouched), Up)
    {
      isTouched := false;
    }

    /** `Render` of ButtonColored and ButtonTextured: the touch colour or texture exactly while touched. */
    function Render(): (look: Look)
      reads this
      ensures look == Touched <==> isTouched
    {
      if isTouched then Touched else Normal
    }
  }

  /** A press inside, a move outside and a move back in leave the button untouched; a second press touches it. */
  method ButtonScenario()
  {
    var t := new Widgets.WidgetTree();
    var b := new Button(t, 0.0, 0.0, 1.0, 1.0, Widgets.Selectable);
    ghost var depth := map[b.id := 0];
    b.OnTouchDown(Widgets.Vector2(0.5, 0.5), depth);
    assert b.Render() == Touched;
    b.OnTouchMove(Widgets.Vector2(2.0, 0.5), depth);
    b.OnTouchMove(Widgets.Vector2(0.5, 0.5), depth);
    assert b.Render() == Normal;
    b.OnTouchDown(Widgets.Vector2(0.25, 0.75), depth);
    assert b.IsTouched();
    b.OnTouchUp(Widgets.Vector2(0.25, 0.75));
    assert !b.IsTouched();
  }
}
