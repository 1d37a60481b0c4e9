// The red-black tree shared by src/containers/map.h and src/containers/set.h.
//
// The tree is a value: the parent pointers, the nil and root sentinels and
// the node allocator are not modelled.  Keys are integers ordered by `<`.
// An iterator is the key of the node it points at, or End.

module RedBlackTrees {

  datatype Color = Red | Black

  datatype Tree<V> = Leaf | Node(color: Color, left: Tree<V>, key: int, value: V, right: Tree<V>)

  /** An iterator: the key of its node, or end(). */
  datatype Position = End | At(key: int)

  ghost function Keys<V>(t: Tree<V>): set<int>
  {
    match t
    case Leaf => {}
    case Node(_, l, k, _, r) => Keys(l) + {k} + Keys(r)
  }

  /** The key/value pairs stored in the tree. */
  ghost function Elements<V>(t: Tree<V>): set<(int, V)>
  {
    match t
    case Leaf => {}
    case Node(_, l, k, v, r) => Elements(l) + {(k, v)} + Elements(r)
  }

  /** Binary-search-tree order: smaller keys to the left, larger to the right, no key twice. */
  ghost predicate Bst<V>(t: Tree<V>)
  {
    match t
    case Leaf => true
    case Node(_, l, k, _, r) =>
      && Bst(l) && Bst(r)
      && (forall y :: y in Keys(l) ==> y < k)
      && (forall y :: y in Keys(r) ==> k < y)
  }

  /** Every element's key is a key of the tree. */
  lemma {:induction false} ElementKeys<V>(t: Tree<V>)
    ensures forall e :: e in Elements(t) ==> e.0 in Keys(t)
  {
    match t
    case Leaf =>
    case Node(_, l, _, _, r) =>
      ElementKeys(l);
      ElementKeys(r);
  }

  /** In a search tree each key carries a single value. */
  lemma {:induction false} UniqueValues<V>(t: Tree<V>, k: int, v1: V, v2: V)
    requires Bst(t) && (k, v1) in Elements(t) && (k, v2) in Elements(t)
    ensures v1 == v2
  {
    match t
    case Leaf =>
    case Node(_, l, x, _, r) =>
      ElementKeys(l);
      ElementKeys(r);
      if k < x {
        UniqueValues(l, k, v1, v2);
      } else if x < k {
        UniqueValues(r, k, v1, v2);
      }
  }

  // ----- Searching and iterating -----

  /** The value stored under key k (what an iterator to k dereferences to). */
  function ValueAt<V>(t: Tree<V>, k: int): (v: V)
    requires Bst(t) && k in Keys(t)
    ensures (k, v) in Elements(t)
  {
    match t
    case Node(_, l, x, xv, r) =>
      if k < x then assert k !in Keys(r); ValueAt(l, k)
      else if x < k then assert k !in Keys(l); ValueAt(r, k)
      else xv
  }

  /** One step of `_search`: below a node, k can only be in the subtree on its side. */
  lemma SearchStep<V>(t: Tree<V>, k: int)
    requires Bst(t) && t.Node? && k != t.key
    ensures k < t.key ==> (k in Keys(t) <==> k in Keys(t.left))
    ensures t.key < k ==> (k in Keys(t) <==> k in Keys(t.right))
    ensures k < t.key && k in Keys(t) ==> ValueAt(t, k) == ValueAt(t.left, k)
    ensures t.key < k && k in Keys(t) ==> ValueAt(t, k) == ValueAt(t.right, k)
  {
  }

  /** The smallest key: the leftmost node, where `begin()` and the successor walk stop. */
  function Min<V>(t: Tree<V>): (m: int)
    requires t.Node? && Bst(t)
    ensures m in Keys(t) && forall y :: y in Keys(t) ==> m <= y
  {
    if t.left.Leaf? then t.key else Min(t.left)
  }

  /** The largest key, the last one an iteration visits. */
  ghost function MaxKey<V>(t: Tree<V>): (m: int)
    requires t.Node? && Bst(t)
    ensures m in Keys(t) && forall y :: y in Keys(t) ==> y <= m
  {
    if t.right.Leaf? then t.key else MaxKey(t.right)
  }

  /**
   * The iterator step `_next`: the smallest key above k.  From a node this is
   * the minimum of its right subtree, or else the first ancestor it lies to the
   * left of; past the largest key it is end().
   */
  function Succ<V>(t: Tree<V>, k: int): (p: Position)
    requires Bst(t)
    ensures p == End ==> forall y :: y in Keys(t) ==> y <= k
    ensures p.At? ==> p.key in Keys(t) && k < p.key
    ensures p.At? ==> forall y :: y in Keys(t) && k < y ==> p.key <= y
  {
    match t
    case Leaf => End
    case Node(_, l, x, _, r) =>
      if k < x then
        (match Succ(l, k)
         case End => assert x in Keys(t); At(x)
         case At(y) => At(y))
      else Succ(r, k)
  }

  /** `begin()`: the smallest key, or end() for an empty tree. */
  function Begin<V>(t: Tree<V>): (p: Position)
    requires Bst(t)
    ensures p == End <==> t == Leaf
    ensures p.At? ==> p.key in Keys(t) && forall y :: y in Keys(t) ==> p.key <= y
  {
    if t.Leaf? then End else At(Min(t))
  }

  /** The keys in the order of an in-order walk. */
  function InOrder<V>(t: Tree<V>): seq<int>
  {
    match t
    case Leaf => []
    case Node(_, l, k, _, r) => InOrder(l) + [k] + InOrder(r)
  }

  ghost predicate StrictlyIncreasing(s: seq<int>)
  {
    forall i, j :: 0 <= i < j < |s| ==> s[i] < s[j]
  }

  /** The in-order walk of a search tree lists every key once, in ascending order. */
  lemma {:induction false} InOrderSorted<V>(t: Tree<V>)
    requires Bst(t)
    ensures forall y :: y in InOrder(t) <==> y in Keys(t)
    ensures StrictlyIncreasing(InOrder(t))
  {
    match t
    case Leaf =>
    case Node(_, l, k, _, r) =>
      InOrderSorted(l);
      InOrderSorted(r);
      var a, b := InOrder(l), InOrder(r);
      forall i | 0 <= i < |a|
        ensures a[i] < k
      {
        assert a[i] in a;
      }
      forall j | 0 <= j < |b|
        ensures k < b[j]
      {
        assert b[j] in b;
      }
      SortedJoin(a, k, b);
  }

  lemma SortedJoin(a: seq<int>, k: int, b: seq<int>)
    requires StrictlyIncreasing(a) && StrictlyIncreasing(b)
    requires forall i :: 0 <= i < |a| ==> a[i] < k
    requires forall j :: 0 <= j < |b| ==> k < b[j]
    ensures StrictlyIncreasing(a + [k] + b)
  {
    var s := a + [k] + b;
    forall i, j | 0 <= i < j < |s|
      ensures s[i] < s[j]
    {
      if j < |a| {
        assert s[i] == a[i] && s[j] == a[j];
      } else if j == |a| {
        assert s[i] == a[i];
      } else if i < |a| {
        assert s[i] == a[i] && s[j] == b[j - |a| - 1];
      } else if i == |a| {
        assert s[j] == b[j - |a| - 1];
      } else {
        assert s[i] == b[i - |a| - 1] && s[j] == b[j - |a| - 1];
      }
    }
  }

  /** `begin()` is the first key of the in-order walk, or end() when there is none. */
  lemma BeginIsFirst<V>(t: Tree<V>)
    requires Bst(t)
    ensures var s := InOrder(t); Begin(t) == if s == [] then End else At(s[0])
  {
    var s := InOrder(t);
    InOrderSorted(t);
    if s != [] {
      var b := Begin(t);
      assert s[0] in Keys(t);
      forall y | y in Keys(t)
        ensures s[0] <= y
      {
        var j :| 0 <= j < |s| && s[j] == y;
      }
      assert b.At? && b.key in s;
    }
  }

  /**
   * The iterator step `_next` from the i-th key of the in-order walk reaches
   * the next one, and end() after the last: iterating from `begin()` visits
   * the keys in ascending order.
   */
  lemma {:induction false} NextIsInOrder<V>(t: Tree<V>, i: nat)
    requires Bst(t) && i < |InOrder(t)|
    ensures var s := InOrder(t); Succ(t, s[i]) == if i + 1 < |s| then At(s[i + 1]) else End
  {
    var s := InOrder(t);
    InOrderSorted(t);
    var p := Succ(t, s[i]);
    if i + 1 < |s| {
      assert s[i + 1] in Keys(t);
      assert p.At?;
      var j :| 0 <= j < |s| && s[j] == p.key;
      assert j > i;
    } else {
      forall y | y in Keys(t)
        ensures y <= s[i]
      {
        var j :| 0 <= j < |s| && s[j] == y;
      }
    }
  }

  // ----- Rotations -----

  /** `_left_rotate` at the root: the right child becomes the root. */
  function RotateLeft<V>(t: Tree<V>): (r: Tree<V>)
    requires t.Node? && t.right.Node?
    ensures r.Node? && r.right == t.right.right
    ensures InOrder(r) == InOrder(t) && Elements(r) == Elements(t) && Keys(r) == Keys(t)
  {
    var y := t.right;
    Node(y.color, Node(t.color, t.left, t.key, t.value, y.left), y.key, y.value, y.right)
  }

  /** `_right_rotate` at the root: the left child becomes the root. */
  function RotateRight<V>(t: Tree<V>): (r: Tree<V>)
    requires t.Node? && t.left.Node?
    ensures r.Node? && r.left == t.left.left
    ensures InOrder(r) == InOrder(t) && Elements(r) == Elements(t) && Keys(r) == Keys(t)
  {
    var x := t.left;
    Node(x.color, x.left, x.key, x.value, Node(t.color, x.right, t.key, t.value, t.right))
  }

  lemma RotateLeftBst<V>(t: Tree<V>)
    requires t.Node? && t.right.Node? && Bst(t)
    ensures Bst(RotateLeft(t))
  {
    var y := t.right;
    assert Bst(y);
    assert y.key in Keys(y);
    var inner := Node(t.color, t.left, t.key, t.value, y.left);
    assert forall z :: z in Keys(y.left) ==> z in Keys(y);
    assert Bst(inner);
  }

  lemma RotateRightBst<V>(t: Tree<V>)
    requires t.Node? && t.left.Node? && Bst(t)
    ensures Bst(RotateRight(t))
  {
    var x := t.left;
    assert Bst(x);
    assert x.key in Keys(x);
    var inner := Node(t.color, x.right, t.key, t.value, t.right);
    assert forall z :: z in Keys(x.right) ==> z in Keys(x);
    assert Bst(inner);
  }

  /** Rotating right undoes rotating left. */
  lemma RotationsInverse<V>(t: Tree<V>)
    requires t.Node? && t.right.Node?
    ensures RotateRight(RotateLeft(t)) == t
  {
  }

  // ----- Insertion -----

  predicate IsBlack<V>(t: Tree<V>)
  {
    t.Leaf? || t.color == Black
  }

  /** A red node with a red child: the violation the fix-up loop climbs with. */
  predicate RedRed<V>(t: Tree<V>)
  {
    t.Node? && t.color == Red && (!IsBlack(t.left) || !IsBlack(t.right))
  }

  function Paint<V>(t: Tree<V>, c: Color): (r: Tree<V>)
    requires t.Node?
    ensures r.Node? && r.color == c && r.left == t.left && r.right == t.right
    ensures InOrder(r) == InOrder(t) && Elements(r) == Elements(t) && Keys(r) == Keys(t)
    ensures Bst(t) ==> Bst(r)
  {
    Node(c, t.left, t.key, t.value, t.right)
  }

  /**
   * One pass of the `_insert` fix-up loop at a black grandparent whose child
   * l or r is red with a red child.  With a red uncle both children turn
   * black and the grandparent red; with a black uncle an inner violation is
   * first rotated outward, then the grandparent is rotated down, the new top
   * painted black and the old grandparent red.
   */
  function FixUp<V>(l: Tree<V>, x: int, v: V, r: Tree<V>): (t: Tree<V>)
    ensures Keys(t) == Keys(l) + {x} + Keys(r)
    ensures Elements(t) == Elements(l) + {(x, v)} + Elements(r)
    ensures InOrder(t) == InOrder(l) + [x] + InOrder(r)
  {
    if !RedRed(l) && !RedRed(r) then Node(Black, l, x, v, r)
    else if !IsBlack(l) && !IsBlack(r) then Node(Red, Paint(l, Black), x, v, Paint(r, Black))
    else if RedRed(l) then
      var p := if !IsBlack(l.right) then RotateLeft(l) else l;
      var q := RotateRight(Node(Black, p, x, v, r));
      Node(Black, q.left, q.key, q.value, Paint(q.right, Red))
    else
      var p := if !IsBlack(r.left) then RotateRight(r) else r;
      var q := RotateLeft(Node(Black, l, x, v, p));
      Node(Black, Paint(q.left, Red), q.key, q.value, q.right)
  }

  /** The fix-up keeps the search order. */
  lemma FixUpBst<V>(l: Tree<V>, x: int, v: V, r: Tree<V>)
    requires Bst(Node(Black, l, x, v, r))
    ensures Bst(FixUp(l, x, v, r))
  {
    if !RedRed(l) && !RedRed(r) {
    } else if !IsBlack(l) && !IsBlack(r) {
      assert Bst(l) && Bst(r);
    } else if RedRed(l) {
      var p := if !IsBlack(l.right) then RotateLeft(l) else l;
      assert Bst(l);
      if !IsBlack(l.right) {
        RotateLeftBst(l);
      }
      var n := Node(Black, p, x, v, r);
      assert Bst(n);
      RotateRightBst(n);
      var q := RotateRight(n);
      assert Bst(q.right);
    } else {
      var p := if !IsBlack(r.left) then RotateRight(r) else r;
      assert Bst(r);
      if !IsBlack(r.left) {
        RotateRightBst(r);
      }
      var n := Node(Black, l, x, v, p);
      assert Bst(n);
      RotateLeftBst(n);
      var q := RotateLeft(n);
      assert Bst(q.left);
    }
  }

  /**
   * `_insert_help` and the fix-up below the root: descend by `<` to a leaf,
   * place a red node there, and repair at every black node on the way back.
   */
  function Ins<V>(t: Tree<V>, k: int, v: V): (r: Tree<V>)
    requires k !in Keys(t)
    ensures Keys(r) == Keys(t) + {k}
    ensures Elements(r) == Elements(t) + {(k, v)}
    ensures r.Node?
  {
    match t
    case Leaf => Node(Red, Leaf, k, v, Leaf)
    case Node(c, l, x, xv, rt) =>
      if k < x then
        (if c == Black then FixUp(Ins(l, k, v), x, xv, rt) else Node(Red, Ins(l, k, v), x, xv, rt))
      else
        (if c == Black then FixUp(l, x, xv, Ins(rt, k, v)) else Node(Red, l, x, xv, Ins(rt, k, v)))
  }

  lemma {:induction false} InsBst<V>(t: Tree<V>, k: int, v: V)
    requires Bst(t) && k !in Keys(t)
    ensures Bst(Ins(t, k, v))
  {
    match t
    case Leaf =>
    case Node(c, l, x, xv, rt) =>
      if k < x {
        InsBst(l, k, v);
        var n := Ins(l, k, v);
        assert Bst(Node(c, n, x, xv, rt));
        if c == Black {
          FixUpBst(n, x, xv, rt);
        }
      } else {
        assert x < k by { assert x in Keys(t); }
        InsBst(rt, k, v);
        var n := Ins(rt, k, v);
        assert Bst(Node(c, l, x, xv, n));
        if c == Black {
          FixUpBst(l, x, xv, n);
        }
      }
  }

  /** `_insert`: insert below the root, then paint the root black. */
  function Insert<V>(t: Tree<V>, k: int, v: V): (r: Tree<V>)
    requires Bst(t) && k !in Keys(t)
    ensures Bst(r) && r.Node? && r.color == Black
    ensures Keys(r) == Keys(t) + {k}
    ensures Elements(r) == Elements(t) + {(k, v)}
  {
    InsBst(t, k, v);
    Paint(Ins(t, k, v), Black)
  }

  // ----- Red-black invariants -----

  /** No red node has a red child. */
  ghost predicate RedOk<V>(t: Tree<V>)
  {
    match t
    case Leaf => true
    case Node(c, l, _, _, r) => RedOk(l) && RedOk(r) && (c == Red ==> IsBlack(l) && IsBlack(r))
  }

  /** The number of black nodes on the leftmost path. */
  ghost function BlackHeight<V>(t: Tree<V>): nat
  {
    match t
    case Leaf => 0
    case Node(c, l, _, _, _) => BlackHeight(l) + (if c == Black then 1 else 0)
  }

  /** Every path from a node down to a leaf meets the same number of black nodes. */
  ghost predicate BlackBalanced<V>(t: Tree<V>)
  {
    match t
    case Leaf => true
    case Node(_, l, _, _, r) => BlackBalanced(l) && BlackBalanced(r) && BlackHeight(l) == BlackHeight(r)
  }

  ghost predicate RedBlack<V>(t: Tree<V>)
  {
    RedOk(t) && BlackBalanced(t)
  }

  /** Sound, or a red root with exactly one red child and sound subtrees: what an insertion hands upward. */
  ghost predicate AlmostRedOk<V>(t: Tree<V>)
  {
    RedOk(t) || (RedRed(t) && RedOk(t.left) && RedOk(t.right) && (IsBlack(t.left) || IsBlack(t.right)))
  }

  /** A fix-up at a black node with at most one violating child yields a sound tree one black level higher. */
  lemma FixUpRedBlack<V>(l: Tree<V>, x: int, v: V, r: Tree<V>)
    requires BlackBalanced(l) && BlackBalanced(r) && BlackHeight(l) == BlackHeight(r)
    requires (RedOk(l) && AlmostRedOk(r)) || (AlmostRedOk(l) && RedOk(r))
    ensures RedOk(FixUp(l, x, v, r)) && BlackBalanced(FixUp(l, x, v, r))
    ensures BlackHeight(FixUp(l, x, v, r)) == BlackHeight(l) + 1
  {
    if !RedRed(l) && !RedRed(r) {
    } else if !IsBlack(l) && !IsBlack(r) {
    } else if RedRed(l) {
      assert IsBlack(r);
      if !IsBlack(l.right) {
        var b := l.right;
        assert IsBlack(l.left) && RedOk(b) && IsBlack(b.left) && IsBlack(b.right);
        assert BlackBalanced(b);
      } else {
        var a := l.left;
        assert RedOk(a) && IsBlack(a.left) && IsBlack(a.right);
        assert BlackBalanced(a);
      }
    } else {
      assert IsBlack(l);
      if !IsBlack(r.left) {
        var b := r.left;
        assert IsBlack(r.right) && RedOk(b) && IsBlack(b.left) && IsBlack(b.right);
        assert BlackBalanced(b);
      } else {
        var d := r.right;
        assert RedOk(d) && IsBlack(d.left) && IsBlack(d.right);
        assert BlackBalanced(d);
      }
    }
  }

  lemma {:induction false} InsRedBlack<V>(t: Tree<V>, k: int, v: V)
    requires RedBlack(t) && k !in Keys(t)
    ensures BlackBalanced(Ins(t, k, v)) && BlackHeight(Ins(t, k, v)) == BlackHeight(t)
    ensures IsBlack(t) ==> RedOk(Ins(t, k, v))
    ensures AlmostRedOk(Ins(t, k, v))
  {
    match t
    case Leaf =>
    case Node(c, l, x, xv, rt) =>
      if k < x {
        InsRedBlack(l, k, v);
        if c == Black {
          FixUpRedBlack(Ins(l, k, v), x, xv, rt);
        }
      } else {
        InsRedBlack(rt, k, v);
        if c == Black {
          FixUpRedBlack(l, x, xv, Ins(rt, k, v));
        }
      }
  }

  /** After every insertion the tree is a red-black tree again, with a black root. */
  lemma InsertRedBlack<V>(t: Tree<V>, k: int, v: V)
    requires Bst(t) && RedBlack(t) && k !in Keys(t)
    ensures RedBlack(Insert(t, k, v)) && IsBlack(Insert(t, k, v))
  {
    InsRedBlack(t, k, v);
  }

  // ----- Deletion -----

  /** The tree without its smallest key (the successor spliced out by `_delete`). */
  function DeleteMin<V>(t: Tree<V>): (r: Tree<V>)
    requires t.Node? && Bst(t)
    ensures Bst(r)
    ensures Keys(r) == Keys(t) - {Min(t)}
    ensures Elements(r) == Elements(t) - {(Min(t), ValueAt(t, Min(t)))}
  {
    ElementKeys(t.right);
    if t.left.Leaf? then t.right
    else Node(t.color, DeleteMin(t.left), t.key, t.value, t.right)
  }

  /**
   * Unlinking the node at the root of t: with at most one child it is replaced
   * by that child; with two it takes over its successor, the minimum of its
   * right subtree.
   */
  function RemoveRoot<V>(t: Tree<V>): (r: Tree<V>)
    requires t.Node? && Bst(t)
    ensures Bst(r)
    ensures Keys(r) == Keys(t) - {t.key}
    ensures Elements(r) == Elements(t) - {(t.key, t.value)}
  {
    ElementKeys(t.left);
    ElementKeys(t.right);
    if t.left.Leaf? then t.right
    else if t.right.Leaf? then t.left
    else
      var m := Min(t.right);
      Node(t.color, t.left, m, ValueAt(t.right, m), DeleteMin(t.right))
  }

  /** `_delete` of the node holding k, found by the search order; an absent key changes nothing. */
  function Delete<V>(t: Tree<V>, k: int): (r: Tree<V>)
    requires Bst(t)
    ensures Bst(r)
    ensures Keys(r) == Keys(t) - {k}
    ensures k in Keys(t) ==> Elements(r) == Elements(t) - {(k, ValueAt(t, k))}
    ensures k !in Keys(t) ==> Elements(r) == Elements(t)
  {
    match t
    case Leaf => Leaf
    case Node(c, l, x, xv, rt) =>
      ElementKeys(l);
      ElementKeys(rt);
      if k < x then Node(c, Delete(l, k), x, xv, rt)
      else if x < k then Node(c, l, x, xv, Delete(rt, k))
      else RemoveRoot(t)
  }
}
