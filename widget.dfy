// The UI widget tree of src/ui/widget.cpp.
//
// All widgets live in one WidgetTree, indexed by a positive number; 0 is
// nullptr.  A widget's own fields form a `Widget` record, and its child list
// `nodes_` is kept beside it.  A widget that is also a Rect
// (src/ui/rect.cpp) carries its size; `dynamic_cast` to Rect succeeds
// exactly for those.  Coordinates are reals.  The virtual `Update` and
// `Render` of the base class are calls the model records: `UpdateAll` and
// `RenderAll` return the widgets whose `Update` and `Render` they call, in
// call order.
//
// Nothing in the source keeps the child lists and parent pointers a tree:
// `AttachWidget` neither checks for a cycle nor leaves the old parent.
// The traversals only end on a tree, so each takes as a ghost parameter a
// ranking under which children (or parents) strictly descend (or ascend).

module Widgets {

  datatype Vector2 = Vector2(x: real, y: real)

  function Add(a: Vector2, b: Vector2): Vector2
  {
    Vector2(a.x + b.x, a.y + b.y)
  }

  const Zero := Vector2(0.0, 0.0)

  /** The `Flags` enumerators of src/ui/widget.h. */
  const RenderNever: bv32 := 0
  const RenderAlways: bv32 := 1
  const RenderIfActive: bv32 := 2
  const Selectable: bv32 := 4
  const Draggable: bv32 := 8
  const Droppable: bv32 := 16

  /** A Rect's width and height. */
  datatype RectSize = RectSize(width: real, height: real)

  datatype Option<T> = None | Some(value: T)

  /**
   * One widget's fields: `parent_` (0 for nullptr), `child_iterator_` as a
   * position in the child list (None until a search begins), `position_`,
   * `flags_`, `active_`, `enabled_`, and the size when it is a Rect.
   */
  datatype Widget = Widget(parent: nat, cursor: Option<nat>, position: Vector2, flags: bv32,
                           active: bool, enabled: bool, size: Option<RectSize>)

  /** `HasFlag`: some bit of the flag is set. */
  predicate HasFlag(flags: bv32, flag: bv32)
  {
    flags & flag != 0
  }

  /** A widget renders itself when it always renders, or renders while active and is active. */
  predicate RendersSelf(flags: bv32, active: bool)
  {
    HasFlag(flags, RenderAlways) || (HasFlag(flags, RenderIfActive) && active)
  }

  lemma RenderNeverNeverRenders(active: bool)
    ensures !HasFlag(RenderNever, RenderNever) && !RendersSelf(RenderNever, active)
    ensures RendersSelf(RenderAlways, active) && (RendersSelf(RenderIfActive, active) <==> active)
    ensures !RendersSelf(Selectable | Draggable | Droppable, active)
  {
  }

  /** Every child list holds known widgets, each ranked strictly below its parent. */
  ghost predicate ChildRanked(nodes: map<nat, seq<nat>>, rank: map<nat, nat>)
  {
    forall p :: p in nodes ==> p in rank && forall i :: 0 <= i < |nodes[p]| ==>
      nodes[p][i] in nodes && nodes[p][i] in rank && rank[nodes[p][i]] < rank[p]
  }

  /** Every parent pointer leads to a known widget of strictly smaller depth. */
  ghost predicate ParentRanked(ws: map<nat, Widget>, depth: map<nat, nat>)
  {
    forall x {:trigger ws[x]} :: x in ws ==>
      x in depth && (ws[x].parent != 0 ==> ws[x].parent in ws && ws[x].parent in depth && depth[ws[x].parent] < depth[x])
  }

  /** The children listed are all ranked below `bound`. */
  ghost predicate Below(cs: seq<nat>, nodes: map<nat, seq<nat>>, rank: map<nat, nat>, bound: nat)
  {
    forall i :: 0 <= i < |cs| ==> cs[i] in nodes && cs[i] in rank && rank[cs[i]] < bound
  }

  /** The subtree of `w` in pre-order: `w`, then each child's subtree in list order. */
  ghost function Preorder(nodes: map<nat, seq<nat>>, rank: map<nat, nat>, w: nat): seq<nat>
    requires ChildRanked(nodes, rank) && w in nodes
    decreases rank[w], 1
  {
    [w] + PreorderAll(nodes, rank, nodes[w], rank[w])
  }

  ghost function PreorderAll(nodes: map<nat, seq<nat>>, rank: map<nat, nat>, cs: seq<nat>, bound: nat): seq<nat>
    requires ChildRanked(nodes, rank) && Below(cs, nodes, rank, bound)
    decreases bound, 0, |cs|
  {
    if cs == [] then [] else Preorder(nodes, rank, cs[0]) + PreorderAll(nodes, rank, cs[1..], bound)
  }

  /**
   * The widgets `RenderAll(w)` renders, in order: nothing below a disabled
   * widget; otherwise the widget itself when its flags ask for it, then
   * each child's share in list order.
   */
  ghost function Rendered(nodes: map<nat, seq<nat>>, rank: map<nat, nat>, ws: map<nat, Widget>, w: nat): seq<nat>
    requires ChildRanked(nodes, rank) && w in nodes && nodes.Keys <= ws.Keys
    decreases rank[w], 1
  {
    if !ws[w].enabled then []
    else (if RendersSelf(ws[w].flags, ws[w].active) then [w] else []) + RenderedAll(nodes, rank, ws, nodes[w], rank[w])
  }

  ghost function RenderedAll(nodes: map<nat, seq<nat>>, rank: map<nat, nat>, ws: map<nat, Widget>, cs: seq<nat>, bound: nat): seq<nat>
    requires ChildRanked(nodes, rank) && Below(cs, nodes, rank, bound) && nodes.Keys <= ws.Keys
    decreases bound, 0, |cs|
  {
    if cs == [] then []
    else Rendered(nodes, rank, ws, cs[0]) + RenderedAll(nodes, rank, ws, cs[1..], bound)
  }

  /** Taking one more child of a list adds that child's subtree at the end. */
  lemma {:induction false} PreorderAllSnoc(nodes: map<nat, seq<nat>>, rank: map<nat, nat>, cs: seq<nat>, bound: nat, i: nat)
    requires ChildRanked(nodes, rank) && Below(cs, nodes, rank, bound) && i < |cs|
    ensures PreorderAll(nodes, rank, cs[..i + 1], bound) == PreorderAll(nodes, rank, cs[..i], bound) + Preorder(nodes, rank, cs[i])
    decreases i
  {
    if i == 0 {
      assert cs[..1][1..] == [];
    } else {
      assert cs[..i + 1][1..] == cs[1..][..i];
      assert cs[..i][1..] == cs[1..][..i - 1];
      PreorderAllSnoc(nodes, rank, cs[1..], bound, i - 1);
    }
  }

  lemma {:induction false} RenderedAllSnoc(nodes: map<nat, seq<nat>>, rank: map<nat, nat>, ws: map<nat, Widget>,
                                           cs: seq<nat>, bound: nat, i: nat)
    requires ChildRanked(nodes, rank) && Below(cs, nodes, rank, bound) && i < |cs| && nodes.Keys <= ws.Keys
    ensures RenderedAll(nodes, rank, ws, cs[..i + 1], bound) == RenderedAll(nodes, rank, ws, cs[..i], bound) + Rendered(nodes, rank, ws, cs[i])
    decreases i
  {
    if i == 0 {
      assert cs[..1][1..] == [];
    } else {
      assert cs[..i + 1][1..] == cs[1..][..i];
      assert cs[..i][1..] == cs[1..][..i - 1];
      RenderedAllSnoc(nodes, rank, ws, cs[1..], bound, i - 1);
    }
  }

  /**
   * Whatever `RenderAll(w)` renders lies in the subtree of `w`, is enabled,
   * and has flags that ask for it to be rendered.
   */
  lemma {:induction false} RenderedAreShown(nodes: map<nat, seq<nat>>, rank: map<nat, nat>, ws: map<nat, Widget>, w: nat)
    requires ChildRanked(nodes, rank) && w in nodes && nodes.Keys <= ws.Keys
    ensures forall x :: x in Rendered(nodes, rank, ws, w) ==>
      x in Preorder(nodes, rank, w) && x in ws && ws[x].enabled && RendersSelf(ws[x].flags, ws[x].active)
    decreases rank[w], 1
  {
    if ws[w].enabled {
      RenderedAllAreShown(nodes, rank, ws, nodes[w], rank[w]);
    }
  }

  lemma {:induction false} RenderedAllAreShown(nodes: map<nat, seq<nat>>, rank: map<nat, nat>, ws: map<nat, Widget>, cs: seq<nat>, bound: nat)
    requires ChildRanked(nodes, rank) && Below(cs, nodes, rank, bound) && nodes.Keys <= ws.Keys
    ensures forall x :: x in RenderedAll(nodes, rank, ws, cs, bound) ==>
      x in PreorderAll(nodes, rank, cs, bound) && x in ws && ws[x].enabled && RendersSelf(ws[x].flags, ws[x].active)
    decreases bound, 0, |cs|
  {
    if cs != [] {
      RenderedAreShown(nodes, rank, ws, cs[0]);
      RenderedAllAreShown(nodes, rank, ws, cs[1..], bound);
    }
  }

  /** Every widget of a subtree is known and ranked no higher than its root. */
  lemma {:induction false} PreorderRanked(nodes: map<nat, seq<nat>>, rank: map<nat, nat>, w: nat)
    requires ChildRanked(nodes, rank) && w in nodes
    ensures forall x :: x in Preorder(nodes, rank, w) ==> x in nodes && x in rank && rank[x] <= rank[w]
    decreases rank[w], 1
  {
    PreorderAllRanked(nodes, rank, nodes[w], rank[w]);
  }

  lemma {:induction false} PreorderAllRanked(nodes: map<nat, seq<nat>>, rank: map<nat, nat>, cs: seq<nat>, bound: nat)
    requires ChildRanked(nodes, rank) && Below(cs, nodes, rank, bound)
    ensures forall x :: x in PreorderAll(nodes, rank, cs, bound) ==> x in nodes && x in rank && rank[x] < bound
    decreases bound, 0, |cs|
  {
    if cs != [] {
      PreorderRanked(nodes, rank, cs[0]);
      PreorderAllRanked(nodes, rank, cs[1..], bound);
    }
  }

  /**
   * On an enabled widget `RenderAll` renders the widget itself exactly when
   * it always renders, or renders while active and is active; on a disabled
   * one it renders nothing at all.
   */
  lemma RenderSelfExactly(nodes: map<nat, seq<nat>>, rank: map<nat, nat>, ws: map<nat, Widget>, w: nat)
    requires ChildRanked(nodes, rank) && w in nodes && nodes.Keys <= ws.Keys
    ensures !ws[w].enabled ==> Rendered(nodes, rank, ws, w) == []
    ensures w in Rendered(nodes, rank, ws, w) <==> ws[w].enabled && RendersSelf(ws[w].flags, ws[w].active)
  {
    if ws[w].enabled {
      RenderedAllAreShown(nodes, rank, ws, nodes[w], rank[w]);
      PreorderAllRanked(nodes, rank, nodes[w], rank[w]);
    }
  }

  /** The sum of the positions of `w` and all its ancestors. */
  ghost function GlobalPosition(ws: map<nat, Widget>, depth: map<nat, nat>, w: nat): Vector2
    requires ParentRanked(ws, depth) && w in ws
    decreases depth[w]
  {
    var up := if ws[w].parent == 0 then Zero else GlobalPosition(ws, depth, ws[w].parent);
    Add(ws[w].position, up)
  }

  /** Whether `a` is `w` or one of its ancestors. */
  ghost predicate IsAncestor(ws: map<nat, Widget>, depth: map<nat, nat>, a: nat, w: nat)
    requires ParentRanked(ws, depth) && w in ws
    decreases depth[w]
  {
    a == w || (ws[w].parent != 0 && IsAncestor(ws, depth, a, ws[w].parent))
  }

  /** An ancestor is known and no deeper than the widget. */
  lemma {:induction false} AncestorShallower(ws: map<nat, Widget>, depth: map<nat, nat>, a: nat, w: nat)
    requires ParentRanked(ws, depth) && w in ws && IsAncestor(ws, depth, a, w)
    ensures a in depth && depth[a] <= depth[w]
    decreases depth[w]
  {
    if a != w {
      AncestorShallower(ws, depth, a, ws[w].parent);
    }
  }

  /** The same widgets with the same parents and positions. */
  ghost predicate SamePlacement(ws: map<nat, Widget>, vs: map<nat, Widget>)
  {
    ws.Keys == vs.Keys && forall x :: x in ws ==> vs[x].parent == ws[x].parent && vs[x].position == ws[x].position
  }

  /** Global positions depend only on parents and positions. */
  lemma {:induction false} SamePlacementSamePosition(ws: map<nat, Widget>, vs: map<nat, Widget>, depth: map<nat, nat>, w: nat)
    requires ParentRanked(ws, depth) && SamePlacement(ws, vs) && w in ws
    ensures ParentRanked(vs, depth) && GlobalPosition(vs, depth, w) == GlobalPosition(ws, depth, w)
    decreases depth[w]
  {
    if ws[w].parent != 0 {
      SamePlacementSamePosition(ws, vs, depth, ws[w].parent);
    }
  }

  /**
   * Moving a widget by `d` moves the global position of every widget below
   * it by `d` and leaves every other widget where it was.
   */
  lemma {:induction false} MovingAncestorMovesSubtree(ws: map<nat, Widget>, depth: map<nat, nat>, a: nat, d: Vector2, w: nat)
    requires ParentRanked(ws, depth) && w in ws && a in ws
    ensures ParentRanked(ws[a := ws[a].(position := Add(ws[a].position, d))], depth)
    ensures GlobalPosition(ws[a := ws[a].(position := Add(ws[a].position, d))], depth, w) ==
      if IsAncestor(ws, depth, a, w) then Add(GlobalPosition(ws, depth, w), d)
      else GlobalPosition(ws, depth, w)
    decreases depth[w]
  {
    if ws[w].parent != 0 {
      MovingAncestorMovesSubtree(ws, depth, a, d, ws[w].parent);
      if a == w && IsAncestor(ws, depth, a, ws[w].parent) {
        AncestorShallower(ws, depth, a, ws[w].parent);
      }
    }
  }

  /** Strictly inside the rectangle of the given size whose corner is at `p`. */
  predicate InsideAt(p: Vector2, size: RectSize, px: real, py: real)
  {
    p.x < px && p.y < py && px < p.x + size.width && py < p.y + size.height
  }

  /**
   * The activity `Select(px, py)` gives `x`: a selectable Rect is active
   * exactly when the point lies strictly inside it at its global position;
   * any other widget keeps its activity.
   */
  ghost function Chosen(ws: map<nat, Widget>, depth: map<nat, nat>, px: real, py: real, x: nat): bool
    requires ParentRanked(ws, depth) && x in ws
  {
    if HasFlag(ws[x].flags, Selectable) && ws[x].size.Some? then InsideAt(GlobalPosition(ws, depth, x), ws[x].size.value, px, py)
    else ws[x].active
  }

  /** `now` is `before` with every widget of `s` given the activity a selection at the point chooses. */
  ghost predicate SelectedIn(before: map<nat, Widget>, depth: map<nat, nat>, px: real, py: real, s: seq<nat>, now: map<nat, Widget>)
    requires ParentRanked(before, depth)
  {
    now.Keys == before.Keys &&
    forall x :: x in now ==> now[x] == if x in s then before[x].(active := Chosen(before, depth, px, py, x)) else before[x]
  }

  /** Selecting a single widget is a selection over `[w]` and keeps every placement. */
  lemma SelectedFirst(a: map<nat, Widget>, b: map<nat, Widget>, depth: map<nat, nat>, px: real, py: real, w: nat)
    requires ParentRanked(a, depth) && w in a && b == a[w := a[w].(active := Chosen(a, depth, px, py, w))]
    ensures SelectedIn(a, depth, px, py, [w], b) && ParentRanked(b, depth)
  {
    assert SamePlacement(a, b);
    SamePlacementSamePosition(a, b, depth, w);
  }

  /**
   * Selecting again changes nothing a first selection settled: a selection
   * over `s` followed by one over `t` is one selection over both.
   */
  lemma SelectedInThen(a: map<nat, Widget>, b: map<nat, Widget>, c: map<nat, Widget>, depth: map<nat, nat>,
                       px: real, py: real, w: nat, s: seq<nat>, t: seq<nat>)
    requires ParentRanked(a, depth) && SelectedIn(a, depth, px, py, [w] + s, b)
    requires ParentRanked(b, depth) && SelectedIn(b, depth, px, py, t, c)
    ensures SelectedIn(a, depth, px, py, [w] + (s + t), c)
  {
    assert SamePlacement(a, b);
    forall x | x in c
      ensures c[x] == if x in [w] + (s + t) then a[x].(active := Chosen(a, depth, px, py, x)) else a[x]
    {
      assert x in [w] + (s + t) <==> x in [w] + s || x in t;
      SamePlacementSamePosition(a, b, depth, x);
    }
  }

  /** `now` is `before` with every widget of `s` made active (`v`) or inactive. */
  ghost predicate ActiveSet(before: map<nat, Widget>, s: seq<nat>, v: bool, now: map<nat, Widget>)
  {
    now.Keys == before.Keys && forall x :: x in now ==> now[x] == if x in s then before[x].(active := v) else before[x]
  }

  /** Widget 0 stands for nullptr; known widgets are below `next`; parents and children are known. */
  ghost predicate Coherent(ws: map<nat, Widget>, nodes: map<nat, seq<nat>>, next: nat)
  {
    && 0 !in ws && 0 < next && nodes.Keys == ws.Keys
    && (forall x :: x in ws ==> x < next)
    && (forall x :: x in ws ==> ws[x].parent == 0 || ws[x].parent in ws)
    && (forall p, c :: p in nodes && c in nodes[p] ==> c in ws)
  }

  /** Changing anything but parents keeps the widgets coherent. */
  lemma SameParentsCoherent(ws: map<nat, Widget>, vs: map<nat, Widget>, nodes: map<nat, seq<nat>>, next: nat)
    requires Coherent(ws, nodes, next) && vs.Keys == ws.Keys
    requires forall x :: x in ws ==> vs[x].parent == ws[x].parent
    ensures Coherent(vs, nodes, next)
  {
  }

  class WidgetTree {
    var widgets: map<nat, Widget>
    var nodes: map<nat, seq<nat>>
    var nextWidget: nat

    ghost predicate Valid()
      reads this
    {
      Coherent(widgets, nodes, nextWidget)
    }

    constructor ()
      ensures Valid() && widgets == map[] && nodes == map[]
    {
      widgets, nodes := map[], map[];
      nextWidget := 1;
    }

    /**
     * `Widget(x, y, flags)`, or `Rect(x, y, width, height, flags)` when a
     * size is given: a new root without children, inactive and enabled.
     */
    method Create(x: real, y: real, f: bv32, size: Option<RectSize>) returns (w: nat)
      requires Valid()
      modifies this
      ensures w != 0 && w !in old(widgets)
      ensures widgets == old(widgets)[w := Widget(0, None, Vector2(x, y), f, false, true, size)]
      ensures nodes == old(nodes)[w := []]
      ensures Valid()
    {
      w := nextWidget;
      widgets, nodes, nextWidget := widgets[w := Widget(0, None, Vector2(x, y), f, false, true, size)], nodes[w := []], nextWidget + 1;
    }

    /** `set_position`. */
    method SetPosition(w: nat, p: Vector2)
      requires Valid() && w in widgets
      modifies this
      ensures widgets == old(widgets)[w := old(widgets)[w].(position := p)] && nodes == old(nodes)
      ensures Valid()
    {
      SameParentsCoherent(widgets, widgets[w := widgets[w].(position := p)], nodes, nextWidget);
      widgets := widgets[w := widgets[w].(position := p)];
    }

    /** `set_active`. */
    method SetActive(w: nat, a: bool)
      requires Valid() && w in widgets
      modifies this
      ensures widgets == old(widgets)[w := old(widgets)[w].(active := a)] && nodes == old(nodes)
      ensures Valid()
    {
      SameParentsCoherent(widgets, widgets[w := widgets[w].(active := a)], nodes, nextWidget);
      widgets := widgets[w := widgets[w].(active := a)];
    }

    /** `set_enabled`. */
    method SetEnabled(w: nat, e: bool)
      requires Valid() && w in widgets
      modifies this
      ensures widgets == old(widgets)[w := old(widgets)[w].(enabled := e)] && nodes == old(nodes)
      ensures Valid()
    {
      SameParentsCoherent(widgets, widgets[w := widgets[w].(enabled := e)], nodes, nextWidget);
      widgets := widgets[w := widgets[w].(enabled := e)];
    }

    /** `AttachWidget`: the widget goes to the end of the child list and points back; nothing is checked. */
    method AttachWidget(w: nat, child: nat)
      requires Valid() && w in widgets && child in widgets
      modifies this
      ensures nodes == old(nodes)[w := old(nodes)[w] + [child]]
      ensures widgets == old(widgets)[child := old(widgets)[child].(parent := w)]
      ensures Valid()
    {
      nodes := nodes[w := nodes[w] + [child]];
      widgets := widgets[child := widgets[child].(parent := w)];
    }

    /**
     * `DetachWidget`: every occurrence of the widget leaves the child list,
     * and its parent pointer is cleared even when `w` was not its parent.
     */
    method DetachWidget(w: nat, child: nat)
      requires Valid() && w in widgets && child in widgets
      modifies this
      ensures nodes == old(nodes)[w := RemovedAll(old(nodes)[w], child)]
      ensures widgets == old(widgets)[child := old(widgets)[child].(parent := 0)]
      ensures Valid()
    {
      nodes := nodes[w := RemovedAll(nodes[w], child)];
      widgets := widgets[child := widgets[child].(parent := 0)];
    }

    /** `HasFlag`. */
    function WidgetHasFlag(w: nat, flag: bv32): (r: bool)
      requires Valid() && w in widgets
      reads this
      ensures r <==> widgets[w].flags & flag != 0
    {
      HasFlag(widgets[w].flags, flag)
    }

    /** `UpdateAll`: `Update` is called on the whole subtree, in pre-order. */
    method UpdateAll(w: nat, ghost rank: map<nat, nat>) returns (updated: seq<nat>)
      requires Valid() && w in widgets && ChildRanked(nodes, rank)
      ensures updated == Preorder(nodes, rank, w)
      decreases rank[w]
    {
      var below := [];
      var cs := nodes[w];
      var i := 0;
      while i < |cs|
        invariant i <= |cs|
        invariant below == PreorderAll(nodes, rank, cs[..i], rank[w])
      {
        var sub := UpdateAll(cs[i], rank);
        PreorderAllSnoc(nodes, rank, cs, rank[w], i);
        below := below + sub;
        i := i + 1;
      }
      assert cs[..i] == cs;
      updated := [w] + below;
    }

    /**
     * `RenderAll`: nothing below a disabled widget; otherwise the widget's
     * own `Render` when its flags ask for it, then each child's `RenderAll`.
     */
    method RenderAll(w: nat, ghost rank: map<nat, nat>) returns (rendered: seq<nat>)
      requires Valid() && w in widgets && ChildRanked(nodes, rank)
      ensures rendered == Rendered(nodes, rank, widgets, w)
      decreases rank[w]
    {
      if !widgets[w].enabled {
        return [];
      }
      var own := if WidgetHasFlag(w, RenderAlways) || (WidgetHasFlag(w, RenderIfActive) && widgets[w].active) then [w] else [];
      var below := [];
      var cs := nodes[w];
      var i := 0;
      while i < |cs|
        invariant i <= |cs|
        invariant below == RenderedAll(nodes, rank, widgets, cs[..i], rank[w])
      {
        var sub := RenderAll(cs[i], rank);
        RenderedAllSnoc(nodes, rank, widgets, cs, rank[w], i);
        below := below + sub;
        i := i + 1;
      }
      assert cs[..i] == cs;
      rendered := own + below;
    }

    /** `ActivateAll`: every widget of the subtree becomes active, and nothing else changes. */
    method ActivateAll(w: nat, ghost rank: map<nat, nat>)
      requires Valid() && w in widgets && ChildRanked(nodes, rank)
      modifies this
      ensures nodes == old(nodes) && ActiveSet(old(widgets), Preorder(nodes, rank, w), true, widgets)
      ensures Valid()
    {
      SetSubtreeActive(w, true, rank);
    }

    /** `DeactivateAll`: every widget of the subtree becomes inactive, and nothing else changes. */
    method DeactivateAll(w: nat, ghost rank: map<nat, nat>)
      requires Valid() && w in widgets && ChildRanked(nodes, rank)
      modifies this
      ensures nodes == old(nodes) && ActiveSet(old(widgets), Preorder(nodes, rank, w), false, widgets)
      ensures Valid()
    {
      SetSubtreeActive(w, false, rank);
    }

    /** The walk `ActivateAll` and `DeactivateAll` share: `active_ = v` on the widget, then each child's subtree. */
    method SetSubtreeActive(w: nat, v: bool, ghost rank: map<nat, nat>)
      requires Valid() && w in widgets && ChildRanked(nodes, rank)
      modifies this
      ensures nodes == old(nodes) && ActiveSet(old(widgets), Preorder(nodes, rank, w), v, widgets)
      ensures Valid()
      decreases rank[w]
    {
      SetActive(w, v);
      var cs := nodes[w];
      ghost var below: seq<nat> := [];
      assert ActiveSet(old(widgets), [w] + below, v, widgets);
      var i := 0;
      while i < |cs|
        invariant i <= |cs| && nodes == old(nodes)
        invariant below == PreorderAll(nodes, rank, cs[..i], rank[w])
        invariant ActiveSet(old(widgets), [w] + below, v, widgets)
        invariant Valid()
      {
        ghost var mid := widgets;
        SetSubtreeActive(cs[i], v, rank);
        PreorderAllSnoc(nodes, rank, cs, rank[w], i);
        ActiveSetThen(old(widgets), mid, widgets, w, below, Preorder(nodes, rank, cs[i]), v);
        below := below + Preorder(nodes, rank, cs[i]);
        i := i + 1;
      }
      assert cs[..i] == cs;
    }

    /**
     * `Select(x, y)`: a selectable Rect becomes active exactly when the
     * point lies strictly inside its rectangle at its global position; any
     * other widget is left as it is.
     */
    method Select(w: nat, px: real, py: real, ghost depth: map<nat, nat>)
      requires Valid() && w in widgets && ParentRanked(widgets, depth)
      modifies this
      ensures nodes == old(nodes)
      ensures widgets == old(widgets)[w := old(widgets)[w].(active := Chosen(old(widgets), depth, px, py, w))]
      ensures Valid()
    {
      if WidgetHasFlag(w, Selectable) && widgets[w].size.Some? {
        var inside := IsInsideGlobal(w, px, py, depth);
        SetActive(w, inside);
      } else {
        assert widgets[w := widgets[w].(active := widgets[w].active)] == widgets;
      }
    }

    /** `SelectAll(x, y)`: `Select` on the widget, then on each child's subtree. */
    method SelectAll(w: nat, px: real, py: real, ghost height: map<nat, nat>, ghost depth: map<nat, nat>)
      requires Valid() && w in widgets && ChildRanked(nodes, height) && ParentRanked(widgets, depth)
      modifies this
      ensures nodes == old(nodes) && ParentRanked(widgets, depth)
      ensures SelectedIn(old(widgets), depth, px, py, Preorder(nodes, height, w), widgets)
      ensures Valid()
      decreases height[w]
    {
      Select(w, px, py, depth);
      SelectedFirst(old(widgets), widgets, depth, px, py, w);
      var cs := nodes[w];
      ghost var below: seq<nat> := [];
      assert [w] + below == [w];
      var i := 0;
      while i < |cs|
        invariant i <= |cs| && nodes == old(nodes) && ParentRanked(widgets, depth)
        invariant below == PreorderAll(nodes, height, cs[..i], height[w])
        invariant SelectedIn(old(widgets), depth, px, py, [w] + below, widgets)
        invariant Valid()
      {
        ghost var mid := widgets;
        SelectAll(cs[i], px, py, height, depth);
        PreorderAllSnoc(nodes, height, cs, height[w], i);
        SelectedInThen(old(widgets), mid, widgets, depth, px, py, w, below, Preorder(nodes, height, cs[i]));
        below := below + Preorder(nodes, height, cs[i]);
        i := i + 1;
      }
      assert cs[..i] == cs;
    }

    /** `IsInsideGlobal` (src/ui/rect.cpp): strictly inside the rectangle at the widget's global position. */
    method IsInsideGlobal(w: nat, px: real, py: real, ghost depth: map<nat, nat>) returns (inside: bool)
      requires Valid() && w in widgets && widgets[w].size.Some? && ParentRanked(widgets, depth)
      ensures inside == InsideAt(GlobalPosition(widgets, depth, w), widgets[w].size.value, px, py)
    {
      var p := ObtainGlobalPosition(w, depth);
      var size := widgets[w].size.value;
      inside := p.x < px && p.y < py && px < p.x + size.width && py < p.y + size.height;
    }

    /** `ObtainGlobalPosition`: the widget's position plus those of all its ancestors. */
    method ObtainGlobalPosition(w: nat, ghost depth: map<nat, nat>) returns (p: Vector2)
      requires Valid() && w in widgets && ParentRanked(widgets, depth)
      ensures p == GlobalPosition(widgets, depth, w)
    {
      p := Zero;
      var widget := w;
      while widget != 0
        invariant widget == 0 || widget in widgets
        invariant GlobalPosition(widgets, depth, w) ==
          Add(p, if widget == 0 then Zero else GlobalPosition(widgets, depth, widget))
        decreases if widget == 0 then 0 else depth[widget] + 1
      {
        p := Add(p, widgets[widget].position);
        widget := widgets[widget].parent;
      }
    }

    /** `BeginChildSearch`: with children the cursor moves to the first one; without, nothing changes. */
    method BeginChildSearch(w: nat) returns (found: bool)
      requires Valid() && w in widgets
      modifies this
      ensures nodes == old(nodes)
      ensures found <==> nodes[w] != []
      ensures widgets == if found then old(widgets)[w := old(widgets)[w].(cursor := Some(0))] else old(widgets)
      ensures Valid()
    {
      if nodes[w] != [] {
        SameParentsCoherent(widgets, widgets[w := widgets[w].(cursor := Some(0))], nodes, nextWidget);
        widgets := widgets[w := widgets[w].(cursor := Some(0))];
        return true;
      }
      return false;
    }

    /**
     * `GetNextChild`: while the cursor is before the end, the child under it
     * and a step forward; at the end, nullptr and false.  The cursor must
     * come from `BeginChildSearch`.
     */
    method GetNextChild(w: nat) returns (found: bool, child: nat)
      requires Valid() && w in widgets && widgets[w].cursor.Some? && widgets[w].cursor.value <= |nodes[w]|
      modifies this
      ensures nodes == old(nodes)
      ensures found <==> old(widgets[w].cursor.value) < |nodes[w]|
      ensures found ==> child == nodes[w][old(widgets[w].cursor.value)] &&
                        widgets == old(widgets)[w := old(widgets)[w].(cursor := Some(old(widgets[w].cursor.value) + 1))]
      ensures !found ==> child == 0 && widgets == old(widgets)
      ensures Valid()
    {
      var k := widgets[w].cursor.value;
      if k != |nodes[w]| {
        child := nodes[w][k];
        SameParentsCoherent(widgets, widgets[w := widgets[w].(cursor := Some(k + 1))], nodes, nextWidget);
        widgets := widgets[w := widgets[w].(cursor := Some(k + 1))];
        return true, child;
      }
      return false, 0;
    }
  }

  /** Setting the activity over a widget and the subtrees `s` and then over `t` sets it over all of them. */
  lemma ActiveSetThen(a: map<nat, Widget>, b: map<nat, Widget>, c: map<nat, Widget>, w: nat, s: seq<nat>, t: seq<nat>, v: bool)
    requires ActiveSet(a, [w] + s, v, b) && ActiveSet(b, t, v, c)
    ensures ActiveSet(a, [w] + (s + t), v, c)
  {
    forall x | x in c
      ensures c[x] == if x in [w] + (s + t) then a[x].(active := v) else a[x]
    {
      assert x in [w] + (s + t) <==> x in [w] + s || x in t;
    }
  }

  /** Detaching a widget that was attached to a list it was not in gives back the list. */
  lemma {:induction false} DetachUndoesAttach(s: seq<nat>, x: nat)
    requires x !in s
    ensures RemovedAll(s + [x], x) == s
  {
    if s != [] {
      assert (s + [x])[1..] == s[1..] + [x];
      DetachUndoesAttach(s[1..], x);
    }
  }

  /** `std::list::remove`: every occurrence goes, the rest keep their order. */
  function RemovedAll(s: seq<nat>, x: nat): (r: seq<nat>)
    ensures forall y :: y in r <==> y in s && y != x
    ensures |r| <= |s|
  {
    if s == [] then [] else (if s[0] == x then [] else [s[0]]) + RemovedAll(s[1..], x)
  }

  /** A root with one child: the child search yields it and then nullptr. */
  method WidgetScenario()
  {
    var t := new WidgetTree();
    var root := t.Create(1.0, 1.0, RenderAlways, None);
    var a := t.Create(0.0, 0.0, Selectable, Some(RectSize(2.0, 2.0)));
    t.AttachWidget(root, a);
    var found := t.BeginChildSearch(root);
    var child;
    found, child := t.GetNextChild(root);
    assert found && child == a;
    found, child := t.GetNextChild(root);
    assert !found && child == 0;
  }
}
