// The scene-graph hierarchy of src/node.cc.
//
// Each Node keeps a parent pointer, a first-child pointer, prev/next sibling
// pointers, a child counter, an enabled flag and dirty bits.  The model keeps
// those fields for all nodes at once in the class NodeGraph, indexed by node:
// a node is a positive number and 0 is nullptr.  The sibling chain that
// starts at `first_child_` is the sequence `children[n]`; `childCount[n]` is
// the separate `child_count_` counter, and the invariant ties the two.  Of the
// dirty bits the bounds bit (`boundsDirty`, the nodes that have it set) and
// the hierarchy bit (`hierarchyDirty`) are modelled: they decide how far a
// change of the hierarchy marks bounds, and a bounding-sphere query clears the
// bounds bits it walks over.  The ghost `rank` strictly grows from parent to
// child, which is what makes every walk up and down the hierarchy finite.

module Nodes {

  /** No node appears twice in a sibling chain. */
  ghost predicate Distinct(s: seq<nat>)
  {
    forall i, j :: 0 <= i < j < |s| ==> s[i] != s[j]
  }

  /** A sibling chain with the node unlinked. */
  function Unlinked(s: seq<nat>, x: nat): (r: seq<nat>)
    ensures forall y :: y in r <==> y in s && y != x
    ensures |r| <= |s|
  {
    if s == [] then []
    else if s[0] == x then Unlinked(s[1..], x)
    else [s[0]] + Unlinked(s[1..], x)
  }

  /** Unlinking the node at position i of a chain without duplicates keeps the others, in order. */
  lemma {:induction false} UnlinkedAt(s: seq<nat>, x: nat, i: nat)
    requires Distinct(s) && i < |s| && s[i] == x
    ensures Unlinked(s, x) == s[..i] + s[i + 1..]
    ensures Distinct(Unlinked(s, x))
  {
    if i == 0 {
      assert forall k :: 0 < k < |s| ==> s[k] != x;
      UnlinkedAbsent(s[1..], x);
    } else {
      assert s[0] != x by { assert s[0] != s[i]; }
      UnlinkedAt(s[1..], x, i - 1);
      assert s[1..][..i - 1] + s[1..][i..] == s[1..i] + s[i + 1..];
      assert [s[0]] + (s[1..i] + s[i + 1..]) == s[..i] + s[i + 1..];
    }
    DistinctWithout(s, i);
  }

  /** Dropping one position of a chain without duplicates leaves one without duplicates. */
  lemma DistinctWithout(s: seq<nat>, i: nat)
    requires Distinct(s) && i < |s|
    ensures Distinct(s[..i] + s[i + 1..])
  {
    var r := s[..i] + s[i + 1..];
    forall a, b | 0 <= a < b < |r|
      ensures r[a] != r[b]
    {
      var a' := if a < i then a else a + 1;
      var b' := if b < i then b else b + 1;
      assert r[a] == s[a'] && r[b] == s[b'] && a' < b';
    }
  }

  lemma {:induction false} UnlinkedAbsent(s: seq<nat>, x: nat)
    requires x !in s
    ensures Unlinked(s, x) == s
  {
    if s != [] {
      UnlinkedAbsent(s[1..], x);
    }
  }

  /** Every parent pointer leads to a known node of strictly smaller rank. */
  ghost predicate Ranked(parent: map<nat, nat>, rank: map<nat, nat>)
  {
    forall x {:trigger parent[x]} :: x in parent ==>
      x in rank && (parent[x] != 0 ==> parent[x] in parent && parent[x] in rank && rank[parent[x]] < rank[x])
  }

  /** The node and all its ancestors, up to the root. */
  ghost function Ancestry(parent: map<nat, nat>, rank: map<nat, nat>, x: nat): set<nat>
    requires Ranked(parent, rank) && x in parent
    decreases rank[x]
  {
    {x} + (if parent[x] == 0 then {} else Ancestry(parent, rank, parent[x]))
  }

  /** Every ancestry is made of known nodes. */
  lemma {:induction false} AncestryKnown(parent: map<nat, nat>, rank: map<nat, nat>, x: nat)
    requires Ranked(parent, rank) && x in parent
    ensures x in Ancestry(parent, rank, x)
    ensures forall a :: a in Ancestry(parent, rank, x) ==> a in parent && rank[a] <= rank[x]
    decreases rank[x]
  {
    if parent[x] != 0 {
      AncestryKnown(parent, rank, parent[x]);
    }
  }

  /** An ancestor's own ancestry lies within the node's. */
  lemma {:induction false} AncestryTransitive(parent: map<nat, nat>, rank: map<nat, nat>, x: nat, a: nat)
    requires Ranked(parent, rank) && x in parent && a in Ancestry(parent, rank, x)
    ensures a in parent && Ancestry(parent, rank, a) <= Ancestry(parent, rank, x)
    decreases rank[x]
  {
    if a != x {
      AncestryTransitive(parent, rank, parent[x], a);
    }
  }

  /**
   * Cutting one node loose from its parent only removes ancestors: whatever is
   * an ancestor afterwards already was one before.
   */
  lemma {:induction false} DetachShrinksAncestry(parent: map<nat, nat>, rank: map<nat, nat>, n: nat, x: nat)
    requires Ranked(parent, rank) && n in parent && x in parent
    ensures Ranked(parent[n := 0], rank)
    ensures Ancestry(parent[n := 0], rank, x) <= Ancestry(parent, rank, x)
    decreases rank[x]
  {
    var cut := parent[n := 0];
    if x != n && parent[x] != 0 {
      DetachShrinksAncestry(parent, rank, n, parent[x]);
    }
  }

  /**
   * Hanging a root `c` below `t`, where `c` is not an ancestor of `t`, keeps a
   * ranking once every node below `c` (those having `c` in their ancestry) is
   * lifted above `t`.
   */
  lemma AttachKeepsRanked(parent: map<nat, nat>, rank: map<nat, nat>, c: nat, t: nat)
    requires Ranked(parent, rank) && c in parent && t in parent && parent[c] == 0
    requires c !in Ancestry(parent, rank, t)
    ensures Ranked(parent[c := t], Lifted(parent, rank, c, rank[t] + 1))
  {
    var rank' := Lifted(parent, rank, c, rank[t] + 1);
    forall x | x in parent
      ensures x in rank'
      ensures parent[c := t][x] != 0 ==> parent[c := t][x] in rank' && rank'[parent[c := t][x]] < rank'[x]
    {
      if x != c && parent[x] != 0 {
        assert c in Ancestry(parent, rank, x) <==> c in Ancestry(parent, rank, parent[x]);
      }
    }
  }

  /** The ranking with every node below `c` raised by `k`. */
  ghost function Lifted(parent: map<nat, nat>, rank: map<nat, nat>, c: nat, k: nat): (r: map<nat, nat>)
    requires Ranked(parent, rank)
    ensures r.Keys == rank.Keys
  {
    map x | x in rank :: if x in parent && c in Ancestry(parent, rank, x) then rank[x] + k else rank[x]
  }

  /** Every node on a chain points back at the chain's owner. */
  ghost predicate PointBack(parent: map<nat, nat>, children: map<nat, seq<nat>>)
  {
    forall p, i :: p in children && 0 <= i < |children[p]| ==>
      children[p][i] in parent && parent[children[p][i]] == p
  }

  /** Every node with a parent is on its parent's chain. */
  ghost predicate OnChain(parent: map<nat, nat>, children: map<nat, seq<nat>>)
  {
    forall c {:trigger parent[c]} :: c in parent && parent[c] != 0 ==> parent[c] in children && c in children[parent[c]]
  }

  ghost predicate ChainsDistinct(children: map<nat, seq<nat>>)
  {
    forall p :: p in children ==> Distinct(children[p])
  }

  /** Parent pointers and sibling chains describe the same hierarchy. */
  ghost predicate Wired(parent: map<nat, nat>, children: map<nat, seq<nat>>)
  {
    && 0 !in parent
    && parent.Keys == children.Keys
    && PointBack(parent, children)
    && OnChain(parent, children)
    && ChainsDistinct(children)
  }

  /** Unlinking a node from its parent's chain and clearing its parent pointer keeps the wiring. */
  lemma DetachWired(parent: map<nat, nat>, children: map<nat, seq<nat>>, n: nat)
    requires Wired(parent, children) && n in parent && parent[n] != 0
    ensures parent[n] in children
    ensures Wired(parent[n := 0], children[parent[n] := Unlinked(children[parent[n]], n)])
    ensures |Unlinked(children[parent[n]], n)| == |children[parent[n]]| - 1
  {
    var p := parent[n];
    var i :| 0 <= i < |children[p]| && children[p][i] == n;
    UnlinkedAt(children[p], n, i);
    var parent', children' := parent[n := 0], children[p := Unlinked(children[p], n)];
    forall q, j | q in children' && 0 <= j < |children'[q]|
      ensures children'[q][j] in parent' && parent'[children'[q][j]] == q
    {
      var c := children'[q][j];
      if q == p {
        assert c in children[p] && c != n;
        var k :| 0 <= k < |children[p]| && children[p][k] == c;
      } else {
        assert c == children[q][j];
      }
    }
    assert PointBack(parent', children');
    forall c | c in parent' && parent'[c] != 0
      ensures parent'[c] in children' && c in children'[parent'[c]]
    {
      assert c in children[parent[c]];
    }
    assert OnChain(parent', children');
    forall q | q in children'
      ensures Distinct(children'[q])
    {
    }
    assert ChainsDistinct(children');
  }

  /** Appending a parentless node to the chain of `t` and pointing it at `t` keeps the wiring. */
  lemma AttachWired(parent: map<nat, nat>, children: map<nat, seq<nat>>, c: nat, t: nat)
    requires Wired(parent, children) && c in parent && t in parent && parent[c] == 0
    ensures Wired(parent[c := t], children[t := children[t] + [c]])
  {
    var parent', children' := parent[c := t], children[t := children[t] + [c]];
    assert c !in children[t] by {
      forall j | 0 <= j < |children[t]|
        ensures children[t][j] != c
      {
      }
    }
    forall q, j | q in children' && 0 <= j < |children'[q]|
      ensures children'[q][j] in parent' && parent'[children'[q][j]] == q
    {
      var d := children'[q][j];
      if q == t && j < |children[t]| {
        assert d == children[t][j];
      } else if q != t {
        assert d == children[q][j];
        assert d != c;
      }
    }
    assert PointBack(parent', children');
    forall d | d in parent' && parent'[d] != 0
      ensures parent'[d] in children' && d in children'[parent'[d]]
    {
      if d != c {
        assert d in children[parent[d]];
      }
    }
    assert OnChain(parent', children');
    assert Distinct(children[t] + [c]);
    assert ChainsDistinct(children');
  }

  /** A new parentless, childless node keeps the wiring. */
  lemma AddNodeWired(parent: map<nat, nat>, children: map<nat, seq<nat>>, n: nat)
    requires Wired(parent, children) && n !in parent && n != 0
    ensures Wired(parent[n := 0], children[n := []])
  {
    var parent', children' := parent[n := 0], children[n := []];
    forall q, j | q in children' && 0 <= j < |children'[q]|
      ensures children'[q][j] in parent' && parent'[children'[q][j]] == q
    {
      assert children'[q][j] == children[q][j];
    }
    assert PointBack(parent', children');
    assert OnChain(parent', children');
    assert ChainsDistinct(children');
  }

  /** A new root keeps the ranking. */
  lemma AddNodeRanked(parent: map<nat, nat>, rank: map<nat, nat>, n: nat)
    requires Ranked(parent, rank) && n !in parent
    ensures Ranked(parent[n := 0], rank[n := 0])
  {
    var parent', rank' := parent[n := 0], rank[n := 0];
    forall x | x in parent'
      ensures x in rank' && (parent'[x] != 0 ==> parent'[x] in parent' && parent'[x] in rank' && rank'[parent'[x]] < rank'[x])
    {
      if x != n {
        assert parent'[x] == parent[x];
        if parent[x] != 0 {
          assert parent[x] in parent;
        }
      }
    }
  }

  /** Each chain's counter holds the chain's length. */
  ghost predicate Counted(children: map<nat, seq<nat>>, childCount: map<nat, nat>)
  {
    children.Keys == childCount.Keys && forall p :: p in children ==> childCount[p] == |children[p]|
  }

  /** The nodes handed out so far are all below the next one. */
  ghost predicate Bounded(parent: map<nat, nat>, nextNode: nat)
  {
    0 < nextNode && forall x :: x in parent ==> x < nextNode
  }

  /** The link fields of every node: `parent_`, the sibling chain from `first_child_`, and `child_count_`. */
  datatype Links = Links(parent: map<nat, nat>, children: map<nat, seq<nat>>, childCount: map<nat, nat>)

  /** The fields of all nodes together describe a well-formed hierarchy. */
  ghost predicate Coherent(l: Links, enabled: map<nat, bool>, rank: map<nat, nat>, nextNode: nat)
  {
    && Wired(l.parent, l.children)
    && Ranked(l.parent, rank)
    && Counted(l.children, l.childCount)
    && l.parent.Keys == enabled.Keys
    && Bounded(l.parent, nextNode)
  }

  /** The links once `n` has left its parent's chain (`Remove`); a root is left as it is. */
  function Detach(l: Links, n: nat): Links
    requires n in l.parent
    requires l.parent[n] != 0 ==> l.parent[n] in l.children && l.parent[n] in l.childCount && l.childCount[l.parent[n]] > 0
  {
    var p := l.parent[n];
    if p == 0 then l
    else Links(l.parent[n := 0], l.children[p := Unlinked(l.children[p], n)], l.childCount[p := l.childCount[p] - 1])
  }

  /** The links once the root `c` is appended at the end of the chain of `t` (`AddChild`). */
  function Attach(l: Links, c: nat, t: nat): Links
    requires t in l.children && t in l.childCount
  {
    Links(l.parent[c := t], l.children[t := l.children[t] + [c]], l.childCount[t := l.childCount[t] + 1])
  }

  lemma CreateCoherent(l: Links, enabled: map<nat, bool>, rank: map<nat, nat>, nextNode: nat)
    requires Coherent(l, enabled, rank, nextNode)
    ensures Coherent(Links(l.parent[nextNode := 0], l.children[nextNode := []], l.childCount[nextNode := 0]),
                     enabled[nextNode := true], rank[nextNode := 0], nextNode + 1)
  {
    AddNodeWired(l.parent, l.children, nextNode);
    AddNodeRanked(l.parent, rank, nextNode);
  }

  /**
   * Removing a node keeps the hierarchy coherent: afterwards it has no parent
   * and is on no chain, every other node keeps its parent, and its old
   * parent's chain loses exactly that node, the others keeping their order.
   */
  lemma DetachCoherent(l: Links, enabled: map<nat, bool>, rank: map<nat, nat>, nextNode: nat, n: nat)
    requires Coherent(l, enabled, rank, nextNode) && n in l.parent
    ensures l.parent[n] != 0 ==>
      l.parent[n] in l.parent && l.parent[n] in l.children && l.parent[n] in l.childCount && l.childCount[l.parent[n]] > 0
    ensures Coherent(Detach(l, n), enabled, rank, nextNode)
    ensures Detach(l, n).parent == l.parent[n := 0]
    ensures forall q :: q in Detach(l, n).children ==> n !in Detach(l, n).children[q]
    ensures l.parent[n] != 0 ==> forall i :: 0 <= i < |l.children[l.parent[n]]| && l.children[l.parent[n]][i] == n ==>
      Detach(l, n).children[l.parent[n]] == l.children[l.parent[n]][..i] + l.children[l.parent[n]][i + 1..]
  {
    var p := l.parent[n];
    if p != 0 {
      DetachShrinksAncestry(l.parent, rank, n, n);
      DetachWired(l.parent, l.children, n);
      forall i | 0 <= i < |l.children[p]| && l.children[p][i] == n
        ensures Detach(l, n).children[p] == l.children[p][..i] + l.children[p][i + 1..]
      {
        UnlinkedAt(l.children[p], n, i);
      }
      DetachRest(l, n);
    } else {
      forall q | q in l.children
        ensures n !in l.children[q]
      {
        forall j | 0 <= j < |l.children[q]|
          ensures l.children[q][j] != n
        {
        }
      }
      assert l.parent[n := 0] == l.parent;
    }
  }

  lemma DetachRest(l: Links, n: nat)
    requires Wired(l.parent, l.children) && Counted(l.children, l.childCount) && n in l.parent && l.parent[n] != 0
    requires Wired(l.parent[n := 0], l.children[l.parent[n] := Unlinked(l.children[l.parent[n]], n)])
    requires |Unlinked(l.children[l.parent[n]], n)| == |l.children[l.parent[n]]| - 1
    ensures Counted(Detach(l, n).children, Detach(l, n).childCount)
    ensures forall q :: q in Detach(l, n).children ==> n !in Detach(l, n).children[q]
  {
    var r := Detach(l, n);
    forall q | q in r.children
      ensures n !in r.children[q]
    {
      forall j | 0 <= j < |r.children[q]|
        ensures r.children[q][j] != n
      {
      }
    }
  }

  /**
   * Appending a root below `t`, where it is not `t` or an ancestor of `t`,
   * keeps the hierarchy coherent once the ranks below it are lifted.
   */
  lemma AttachCoherent(l: Links, enabled: map<nat, bool>, rank: map<nat, nat>, nextNode: nat, c: nat, t: nat)
    requires Coherent(l, enabled, rank, nextNode)
    requires c in l.parent && t in l.parent && l.parent[c] == 0 && c !in Ancestry(l.parent, rank, t)
    ensures t in l.children && t in l.childCount && t in rank
    ensures Coherent(Attach(l, c, t), enabled, Lifted(l.parent, rank, c, rank[t] + 1), nextNode)
  {
    var r := Attach(l, c, t);
    AttachKeepsRanked(l.parent, rank, c, t);
    AttachWired(l.parent, l.children, c, t);
    AttachCounted(l.children, l.childCount, c, t);
    assert r.parent.Keys == l.parent.Keys;
    assert Bounded(r.parent, nextNode);
  }

  lemma AttachCounted(children: map<nat, seq<nat>>, childCount: map<nat, nat>, c: nat, t: nat)
    requires Counted(children, childCount) && t in children
    ensures Counted(children[t := children[t] + [c]], childCount[t := childCount[t] + 1])
  {
  }

  /** The parent pointers once every node of `s` has been cut loose. */
  function Orphaned(parent: map<nat, nat>, s: seq<nat>): (r: map<nat, nat>)
    ensures r.Keys == parent.Keys
    ensures forall x :: x in r ==> r[x] == if x in s then 0 else parent[x]
  {
    map x | x in parent :: if x in s then 0 else parent[x]
  }

  lemma OrphanedNone(parent: map<nat, nat>)
    ensures Orphaned(parent, []) == parent
  {
  }

  /** Cutting one more node loose. */
  lemma OrphanedStep(parent: map<nat, nat>, s: seq<nat>, k: nat)
    requires k < |s| && s[k] in parent
    ensures Orphaned(parent, s[..k])[s[k] := 0] == Orphaned(parent, s[..k + 1])
  {
    var r, r' := Orphaned(parent, s[..k])[s[k] := 0], Orphaned(parent, s[..k + 1]);
    assert s[..k + 1] == s[..k] + [s[k]];
    forall x | x in r
      ensures r[x] == r'[x]
    {
      assert x in s[..k + 1] <==> x in s[..k] || x == s[k];
    }
  }

  /**
   * One round of `RemoveAllChildren`: when the first `k` children of `n` have
   * been removed, removing the next one leaves `k + 1` removed.
   */
  lemma ClearFirstChild(l0: Links, l: Links, n: nat, k: nat)
    requires n != 0 && n in l0.children && n in l0.childCount && k < |l0.children[n]| && l0.children[n][k] in l0.parent
    requires l == Links(Orphaned(l0.parent, l0.children[n][..k]),
                        l0.children[n := l0.children[n][k..]], l0.childCount[n := |l0.children[n]| - k])
    requires Distinct(l.children[n]) && l.parent[l0.children[n][k]] == n
    ensures Detach(l, l0.children[n][k]) == Links(Orphaned(l0.parent, l0.children[n][..k + 1]),
      l0.children[n := l0.children[n][k + 1..]], l0.childCount[n := |l0.children[n]| - (k + 1)])
  {
    var chain := l0.children[n];
    UnlinkedAt(chain[k..], chain[k], 0);
    assert chain[k..][..0] + chain[k..][k + 1 - k..] == chain[k + 1..];
    assert Unlinked(l.children[n], chain[k]) == chain[k + 1..];
    OrphanedStep(l0.parent, chain, k);
    assert l0.children[n := chain[k..]][n := chain[k + 1..]] == l0.children[n := chain[k + 1..]];
    assert l0.childCount[n := |chain| - k][n := |chain| - k - 1] == l0.childCount[n := |chain| - (k + 1)];
  }

  /** An ancestor other than the node itself sits above its parent, at a strictly smaller rank. */
  lemma AncestryBelow(parent: map<nat, nat>, rank: map<nat, nat>, x: nat, a: nat)
    requires Ranked(parent, rank) && x in parent && a in Ancestry(parent, rank, x) && a != x
    ensures parent[x] != 0 && a in Ancestry(parent, rank, parent[x]) && a in rank && rank[a] < rank[x]
  {
    AncestryKnown(parent, rank, parent[x]);
  }

  /** The ancestry of a node is a chain: of two of its members one is an ancestor of the other. */
  lemma {:induction false} AncestryLinear(parent: map<nat, nat>, rank: map<nat, nat>, x: nat, a: nat, b: nat)
    requires Ranked(parent, rank) && x in parent
    requires a in Ancestry(parent, rank, x) && b in Ancestry(parent, rank, x)
    ensures a in parent && b in parent
    ensures a in Ancestry(parent, rank, b) || b in Ancestry(parent, rank, a)
    decreases rank[x]
  {
    AncestryKnown(parent, rank, x);
    if a == x {
      assert b in Ancestry(parent, rank, a);
    } else if b == x {
      assert a in Ancestry(parent, rank, b);
    } else {
      AncestryLinear(parent, rank, parent[x], a, b);
    }
  }

  /** Below `n` and other than `n`, a node lies below one of the nodes whose parent is `n`. */
  lemma {:induction false} BelowChild(parent: map<nat, nat>, rank: map<nat, nat>, n: nat, x: nat) returns (c: nat)
    requires Ranked(parent, rank) && x in parent && n in Ancestry(parent, rank, x) && x != n
    ensures c in parent && parent[c] == n && c in Ancestry(parent, rank, x)
    decreases rank[x]
  {
    var p := parent[x];
    if p == n {
      c := x;
    } else {
      c := BelowChild(parent, rank, n, p);
    }
  }

  /** The node and everything below it: the known nodes that have it in their ancestry. */
  ghost function Subtree(parent: map<nat, nat>, rank: map<nat, nat>, n: nat): (r: set<nat>)
    requires Ranked(parent, rank)
    ensures r <= parent.Keys
  {
    set x | x in parent && n in Ancestry(parent, rank, x)
  }

  /** The subtrees of a run of siblings together. */
  ghost function Subtrees(parent: map<nat, nat>, rank: map<nat, nat>, s: seq<nat>): set<nat>
    requires Ranked(parent, rank)
  {
    if s == [] then {} else Subtrees(parent, rank, s[..|s| - 1]) + Subtree(parent, rank, s[|s| - 1])
  }

  lemma {:induction false} SubtreesMembers(parent: map<nat, nat>, rank: map<nat, nat>, s: seq<nat>, x: nat)
    requires Ranked(parent, rank)
    ensures x in Subtrees(parent, rank, s) <==> exists i :: 0 <= i < |s| && x in Subtree(parent, rank, s[i])
  {
    if s != [] {
      var t := s[..|s| - 1];
      SubtreesMembers(parent, rank, t, x);
      if x in Subtrees(parent, rank, t) {
        var i :| 0 <= i < |t| && x in Subtree(parent, rank, t[i]);
        assert s[i] == t[i];
      }
      if exists i :: 0 <= i < |s| && x in Subtree(parent, rank, s[i]) {
        var i :| 0 <= i < |s| && x in Subtree(parent, rank, s[i]);
        if i < |t| {
          assert t[i] == s[i];
        }
      }
    }
  }

  /** A child's subtree lies strictly inside its parent's. */
  lemma ChildSubtree(parent: map<nat, nat>, rank: map<nat, nat>, c: nat)
    requires Ranked(parent, rank) && c in parent && parent[c] != 0
    ensures Subtree(parent, rank, c) < Subtree(parent, rank, parent[c])
    ensures parent[c] !in Subtree(parent, rank, c)
  {
    var n := parent[c];
    forall x | x in Subtree(parent, rank, c)
      ensures x in Subtree(parent, rank, n)
    {
      AncestryTransitive(parent, rank, x, c);
    }
    AncestryKnown(parent, rank, n);
    assert n in Subtree(parent, rank, n);
  }

  /** Two different children of one node have no node below them in common. */
  lemma SiblingsApart(parent: map<nat, nat>, rank: map<nat, nat>, c1: nat, c2: nat)
    requires Ranked(parent, rank) && c1 in parent && c2 in parent
    requires parent[c1] == parent[c2] != 0 && c1 != c2
    ensures Subtree(parent, rank, c1) !! Subtree(parent, rank, c2)
  {
    var n := parent[c1];
    AncestryKnown(parent, rank, n);
    forall x | x in Subtree(parent, rank, c1) && x in Subtree(parent, rank, c2)
      ensures false
    {
      AncestryLinear(parent, rank, x, c1, c2);
      if c1 in Ancestry(parent, rank, c2) {
        AncestryBelow(parent, rank, c2, c1);
      } else {
        AncestryBelow(parent, rank, c1, c2);
      }
    }
  }

  /** A subtree is its root together with the subtrees of the root's chain of children. */
  lemma SubtreeSplit(parent: map<nat, nat>, children: map<nat, seq<nat>>, rank: map<nat, nat>, n: nat)
    requires Wired(parent, children) && Ranked(parent, rank) && n in parent
    ensures Subtree(parent, rank, n) == {n} + Subtrees(parent, rank, children[n])
  {
    var chain := children[n];
    AncestryKnown(parent, rank, n);
    forall x | x in Subtree(parent, rank, n) && x != n
      ensures x in Subtrees(parent, rank, chain)
    {
      var c := BelowChild(parent, rank, n, x);
      var i :| 0 <= i < |chain| && chain[i] == c;
      SubtreesMembers(parent, rank, chain, x);
    }
    forall x | x in Subtrees(parent, rank, chain)
      ensures x in Subtree(parent, rank, n)
    {
      SubtreesMembers(parent, rank, chain, x);
      var i :| 0 <= i < |chain| && x in Subtree(parent, rank, chain[i]);
      ChildSubtree(parent, rank, chain[i]);
    }
  }

  /** A node without children is its whole subtree. */
  lemma LeafSubtree(parent: map<nat, nat>, children: map<nat, seq<nat>>, rank: map<nat, nat>, n: nat)
    requires Wired(parent, children) && Ranked(parent, rank) && n in parent && children[n] == []
    ensures Subtree(parent, rank, n) == {n}
  {
    SubtreeSplit(parent, children, rank, n);
  }

  /**
   * The nodes whose bounds bit a bounding-sphere query at `n` clears: those
   * below `n` whose whole path up to `n` has the bit set.
   */
  ghost function Refreshed(parent: map<nat, nat>, rank: map<nat, nat>, dirty: set<nat>, n: nat): set<nat>
    requires Ranked(parent, rank)
  {
    set x | x in parent && n in Ancestry(parent, rank, x) && PathDirty(parent, rank, dirty, n, x)
  }

  /** Every node from `x` up to `n` has the bit set. */
  ghost predicate PathDirty(parent: map<nat, nat>, rank: map<nat, nat>, dirty: set<nat>, n: nat, x: nat)
    requires Ranked(parent, rank) && x in parent
  {
    forall a :: a in Ancestry(parent, rank, x) && a in parent && n in Ancestry(parent, rank, a) ==> a in dirty
  }

  /** The nodes a query clears below a run of siblings. */
  ghost function RefreshedAll(parent: map<nat, nat>, rank: map<nat, nat>, dirty: set<nat>, s: seq<nat>): set<nat>
    requires Ranked(parent, rank)
  {
    if s == [] then {} else RefreshedAll(parent, rank, dirty, s[..|s| - 1]) + Refreshed(parent, rank, dirty, s[|s| - 1])
  }

  /** A query clears only set bits, only below `n`; with the bit of `n` clear it clears nothing. */
  lemma RefreshedBits(parent: map<nat, nat>, rank: map<nat, nat>, dirty: set<nat>, n: nat)
    requires Ranked(parent, rank) && n in parent
    ensures Refreshed(parent, rank, dirty, n) <= Subtree(parent, rank, n) * dirty
    ensures n !in dirty ==> Refreshed(parent, rank, dirty, n) == {}
    ensures n in dirty ==> n in Refreshed(parent, rank, dirty, n)
  {
    AncestryKnown(parent, rank, n);
    forall x | x in Refreshed(parent, rank, dirty, n)
      ensures x in dirty
    {
      AncestryKnown(parent, rank, x);
    }
    if n in dirty {
      forall a | a in Ancestry(parent, rank, n) && a in parent && n in Ancestry(parent, rank, a)
        ensures a == n
      {
        if a != n {
          AncestryBelow(parent, rank, n, a);
          AncestryKnown(parent, rank, a);
        }
      }
    }
  }

  /** Once the whole subtree is dirty, a query clears all of it. */
  lemma RefreshedWhole(parent: map<nat, nat>, rank: map<nat, nat>, dirty: set<nat>, n: nat)
    requires Ranked(parent, rank) && n in parent && Subtree(parent, rank, n) <= dirty
    ensures Refreshed(parent, rank, dirty, n) == Subtree(parent, rank, n)
  {
  }

  /** What a query clears below `n` depends only on the bits of the subtree of `n`. */
  lemma RefreshedLocal(parent: map<nat, nat>, rank: map<nat, nat>, d1: set<nat>, d2: set<nat>, n: nat)
    requires Ranked(parent, rank) && d1 * Subtree(parent, rank, n) == d2 * Subtree(parent, rank, n)
    ensures Refreshed(parent, rank, d1, n) == Refreshed(parent, rank, d2, n)
  {
    var sub := Subtree(parent, rank, n);
    forall a | a in sub
      ensures a in d1 <==> a in d2
    {
      assert a in d1 * sub <==> a in d2 * sub;
    }
    forall x | x in parent
      ensures PathDirty(parent, rank, d1, n, x) == PathDirty(parent, rank, d2, n, x)
    {
    }
  }

  lemma {:induction false} RefreshedAllMembers(parent: map<nat, nat>, rank: map<nat, nat>, dirty: set<nat>, s: seq<nat>, x: nat)
    requires Ranked(parent, rank)
    ensures x in RefreshedAll(parent, rank, dirty, s) <==> exists i :: 0 <= i < |s| && x in Refreshed(parent, rank, dirty, s[i])
  {
    if s != [] {
      var t := s[..|s| - 1];
      RefreshedAllMembers(parent, rank, dirty, t, x);
      if x in RefreshedAll(parent, rank, dirty, t) {
        var i :| 0 <= i < |t| && x in Refreshed(parent, rank, dirty, t[i]);
        assert s[i] == t[i];
      }
      if exists i :: 0 <= i < |s| && x in Refreshed(parent, rank, dirty, s[i]) {
        var i :| 0 <= i < |s| && x in Refreshed(parent, rank, dirty, s[i]);
        if i < |t| {
          assert t[i] == s[i];
        }
      }
    }
  }

  lemma {:induction false} RefreshedAllInside(parent: map<nat, nat>, rank: map<nat, nat>, dirty: set<nat>, s: seq<nat>)
    requires Ranked(parent, rank)
    ensures RefreshedAll(parent, rank, dirty, s) <= Subtrees(parent, rank, s)
  {
    if s != [] {
      RefreshedAllInside(parent, rank, dirty, s[..|s| - 1]);
    }
  }

  /**
   * A query at a dirty node clears the node and, child by child, what a
   * query at each child clears.
   */
  lemma RefreshedSplit(parent: map<nat, nat>, children: map<nat, seq<nat>>, rank: map<nat, nat>, dirty: set<nat>, n: nat)
    requires Wired(parent, children) && Ranked(parent, rank) && n in parent && n in dirty
    ensures Refreshed(parent, rank, dirty, n) == {n} + RefreshedAll(parent, rank, dirty, children[n])
  {
    var chain := children[n];
    RefreshedBits(parent, rank, dirty, n);
    AncestryKnown(parent, rank, n);
    forall x | x in Refreshed(parent, rank, dirty, n) && x != n
      ensures x in RefreshedAll(parent, rank, dirty, chain)
    {
      var c := BelowChild(parent, rank, n, x);
      forall a | a in Ancestry(parent, rank, x) && a in parent && c in Ancestry(parent, rank, a)
        ensures a in dirty
      {
        AncestryTransitive(parent, rank, a, c);
      }
      var i :| 0 <= i < |chain| && chain[i] == c;
      RefreshedAllMembers(parent, rank, dirty, chain, x);
    }
    forall x | x in RefreshedAll(parent, rank, dirty, chain)
      ensures x in Refreshed(parent, rank, dirty, n)
    {
      RefreshedAllMembers(parent, rank, dirty, chain, x);
      var i :| 0 <= i < |chain| && x in Refreshed(parent, rank, dirty, chain[i]);
      var c := chain[i];
      AncestryTransitive(parent, rank, x, c);
      forall a | a in Ancestry(parent, rank, x) && a in parent && n in Ancestry(parent, rank, a)
        ensures a in dirty
      {
        AncestryLinear(parent, rank, x, a, c);
        if c !in Ancestry(parent, rank, a) {
          AncestryKnown(parent, rank, c);
          AncestryBelow(parent, rank, c, a);
          if a != n {
            AncestryBelow(parent, rank, n, a);
            AncestryKnown(parent, rank, a);
          }
        }
      }
    }
  }

  /**
   * One round of the query's walk over the chain of `n`: the next child sees
   * the bits as they were, and afterwards one more child is done.
   */
  lemma RefreshRound(parent: map<nat, nat>, children: map<nat, seq<nat>>, rank: map<nat, nat>, d0: set<nat>, n: nat, i: nat)
    requires Wired(parent, children) && Ranked(parent, rank) && n in parent && i < |children[n]|
    ensures var chain := children[n]; var cur := d0 - {n} - RefreshedAll(parent, rank, d0, chain[..i]);
      && chain[i] in parent && parent[chain[i]] == n
      && Refreshed(parent, rank, cur, chain[i]) == Refreshed(parent, rank, d0, chain[i])
      && cur - Refreshed(parent, rank, d0, chain[i]) == d0 - {n} - RefreshedAll(parent, rank, d0, chain[..i + 1])
  {
    var chain := children[n];
    var c := chain[i];
    var cur := d0 - {n} - RefreshedAll(parent, rank, d0, chain[..i]);
    ChildSubtree(parent, rank, c);
    RefreshedAllInside(parent, rank, d0, chain[..i]);
    forall x | x in Subtrees(parent, rank, chain[..i]) && x in Subtree(parent, rank, c)
      ensures false
    {
      SubtreesMembers(parent, rank, chain[..i], x);
      var j :| 0 <= j < i && x in Subtree(parent, rank, chain[..i][j]);
      assert chain[..i][j] == chain[j] && chain[j] != c;
      SiblingsApart(parent, rank, chain[j], c);
    }
    assert cur * Subtree(parent, rank, c) == d0 * Subtree(parent, rank, c);
    RefreshedLocal(parent, rank, cur, d0, c);
    assert chain[..i + 1][..i] == chain[..i];
  }

  /**
   * What `Remove` marks: when the old parent has its hierarchy bit set, the
   * bounds of that parent's remaining subtree become dirty.
   */
  ghost function Vacated(l: Links, rank: map<nat, nat>, hierarchyDirty: set<nat>, n: nat): set<nat>
    requires Ranked(l.parent, rank) && n in l.parent
  {
    var p := l.parent[n];
    if p == 0 || p !in hierarchyDirty then {}
    else
      DetachShrinksAncestry(l.parent, rank, n, n);
      Subtree(l.parent[n := 0], rank, p)
  }

  class NodeGraph {
    var links: Links
    var enabled: map<nat, bool>
    /** The nodes whose bounds-dirty bit is set. */
    var boundsDirty: set<nat>
    /** The nodes whose hierarchy-dirty bit is set. */
    var hierarchyDirty: set<nat>
    /** The next node Create hands out. */
    var nextNode: nat
    ghost var rank: map<nat, nat>

    ghost predicate Valid()
      reads this
    {
      Coherent(links, enabled, rank, nextNode)
    }

    constructor ()
      ensures Valid() && links == Links(map[], map[], map[]) && enabled == map[]
      ensures boundsDirty == {} && hierarchyDirty == {}
    {
      links := Links(map[], map[], map[]);
      enabled, boundsDirty, hierarchyDirty, nextNode := map[], {}, {}, 1;
      rank := map[];
    }

    /** `Node::Create`: a new enabled node with no parent and no children, all its dirty bits set. */
    method Create() returns (n: nat)
      requires Valid()
      modifies this
      ensures n != 0 && n !in old(links.parent)
      ensures links == Links(old(links).parent[n := 0], old(links).children[n := []], old(links).childCount[n := 0])
      ensures enabled == old(enabled)[n := true]
      ensures boundsDirty == old(boundsDirty) + {n} && hierarchyDirty == old(hierarchyDirty) + {n}
      ensures Valid()
    {
      n := nextNode;
      assert n != 0 && n !in links.parent;
      var created := Links(links.parent[n := 0], links.children[n := []], links.childCount[n := 0]);
      assert Coherent(created, enabled[n := true], rank[n := 0], n + 1) by {
        CreateCoherent(links, enabled, rank, n);
      }
      links, enabled := created, enabled[n := true];
      boundsDirty, hierarchyDirty := boundsDirty + {n}, hierarchyDirty + {n};
      rank, nextNode := rank[n := 0], n + 1;
    }

    /**
     * `TransformChanged` without suspended transform changes: the world and
     * bounds bits are set on the node and, through the walk over each chain
     * of children, on everything below it.  Of the two bits the model keeps
     * the bounds bit.
     */
    method TransformChanged(n: nat)
      requires Valid() && n in links.parent
      modifies this
      ensures links == old(links) && enabled == old(enabled) && rank == old(rank) && nextNode == old(nextNode)
      ensures hierarchyDirty == old(hierarchyDirty)
      ensures boundsDirty == old(boundsDirty) + Subtree(links.parent, rank, n)
      ensures Valid()
      decreases Subtree(links.parent, rank, n)
    {
      boundsDirty := boundsDirty + {n};
      var chain := links.children[n];
      var i := 0;
      while i < |chain|
        invariant i <= |chain|
        invariant links == old(links) && enabled == old(enabled) && rank == old(rank) && nextNode == old(nextNode)
        invariant hierarchyDirty == old(hierarchyDirty)
        invariant boundsDirty == old(boundsDirty) + {n} + Subtrees(links.parent, rank, chain[..i])
        invariant Valid()
      {
        var child := chain[i];
        ChildSubtree(links.parent, rank, child);
        TransformChanged(child);
        assert chain[..i + 1][..i] == chain[..i];
        i := i + 1;
      }
      assert chain[..i] == chain;
      SubtreeSplit(links.parent, links.children, rank, n);
    }

    /** `HierarchyChanged`: the hierarchy bit is set and the transform change runs from the node. */
    method HierarchyChanged(n: nat)
      requires Valid() && n in links.parent
      modifies this
      ensures links == old(links) && enabled == old(enabled) && rank == old(rank) && nextNode == old(nextNode)
      ensures hierarchyDirty == old(hierarchyDirty) + {n}
      ensures boundsDirty == old(boundsDirty) + Subtree(links.parent, rank, n)
      ensures Valid()
    {
      hierarchyDirty := hierarchyDirty + {n};
      TransformChanged(n);
    }

    /**
     * `Remove`: the node leaves its parent's sibling chain, the parent's
     * counter drops by one, and the node's own links are cleared.  A node
     * without a parent stays as it is.  A parent with its hierarchy bit set
     * then runs `HierarchyChanged`, which dirties the bounds of its remaining
     * subtree.
     */
    method Remove(n: nat)
      requires Valid() && n in links.parent
      modifies this
      ensures links == Detach(old(links), n)
      ensures enabled == old(enabled) && rank == old(rank) && hierarchyDirty == old(hierarchyDirty)
      ensures boundsDirty == old(boundsDirty) + Vacated(old(links), old(rank), old(hierarchyDirty), n)
      ensures Valid()
    {
      var p := links.parent[n];
      DetachCoherent(links, enabled, rank, nextNode, n);
      links := Detach(links, n);
      if p != 0 && p in hierarchyDirty {
        HierarchyChanged(p);
      }
    }

    /**
     * `RemoveChild`: nullptr and nodes that are not children of `n` are ignored.
     * The reference the parent held is not counted: the child stays a known node.
     */
    method RemoveChild(n: nat, child: nat)
      requires Valid() && n in links.parent && (child == 0 || child in links.parent)
      modifies this
      ensures rank == old(rank) && hierarchyDirty == old(hierarchyDirty)
      ensures child == 0 || old(links.parent[child]) != n ==> unchanged(this)
      ensures child != 0 && old(links.parent[child]) == n ==>
        && links == Detach(old(links), child) && enabled == old(enabled)
        && boundsDirty == old(boundsDirty) + Vacated(old(links), old(rank), old(hierarchyDirty), child)
      ensures Valid()
    {
      if child == 0 || links.parent[child] != n {
        return;
      }
      Remove(child);
    }

    /** `SetBoundsDirty`: the bounds bit is set on the node and on every ancestor. */
    method SetBoundsDirty(n: nat)
      requires Valid() && n in links.parent
      modifies this
      ensures links == old(links) && enabled == old(enabled) && rank == old(rank) && nextNode == old(nextNode)
      ensures hierarchyDirty == old(hierarchyDirty)
      ensures boundsDirty == old(boundsDirty) + Ancestry(links.parent, rank, n)
      ensures Valid()
      decreases rank[n]
    {
      boundsDirty := boundsDirty + {n};
      if links.parent[n] != 0 {
        SetBoundsDirty(links.parent[n]);
      }
    }

    /**
     * `AddChild`: a child of `n` already stays where it is.  Any other node is
     * first removed from its old parent, then appended at the end of the
     * chain of `n`; the bounds of `n` and its ancestors become dirty, and when
     * the hierarchy bit of `n` is set, `HierarchyChanged` dirties the bounds
     * of the whole subtree of `n`, the new child's included.  The node must
     * not be `n` itself or one of its ancestors.
     */
    method AddChild(n: nat, child: nat)
      requires Valid() && n in links.parent && child in links.parent
      requires child !in Ancestry(links.parent, rank, n)
      modifies this
      ensures old(links.parent[child]) == n ==> unchanged(this)
      ensures old(links.parent[child]) != n ==>
        && n in Detach(old(links), child).children && n in Detach(old(links), child).childCount
        && links == Attach(Detach(old(links), child), child, n)
        && enabled == old(enabled) && hierarchyDirty == old(hierarchyDirty)
      ensures Valid()
      ensures old(links.parent[child]) != n ==>
        boundsDirty == old(boundsDirty) + Vacated(old(links), old(rank), old(hierarchyDirty), child)
          + Ancestry(links.parent, rank, n)
          + (if n in old(hierarchyDirty) then Subtree(links.parent, rank, n) else {})
    {
      if links.parent[child] == n {
        return;
      }
      Move(n, child);
      SetBoundsDirty(n);
      if n in hierarchyDirty {
        HierarchyChanged(n);
      }
    }

    /** The part of `AddChild` that takes the node from its old parent and appends it to the chain of `n`. */
    method Move(n: nat, child: nat)
      requires Valid() && n in links.parent && child in links.parent && links.parent[child] != n
      requires child !in Ancestry(links.parent, rank, n)
      modifies this
      ensures n in Detach(old(links), child).children && n in Detach(old(links), child).childCount
      ensures links == Attach(Detach(old(links), child), child, n)
      ensures enabled == old(enabled) && hierarchyDirty == old(hierarchyDirty)
      ensures boundsDirty == old(boundsDirty) + Vacated(old(links), old(rank), old(hierarchyDirty), child)
      ensures Valid()
    {
      DetachCoherent(links, enabled, rank, nextNode, child);
      DetachShrinksAncestry(links.parent, rank, child, n);
      if links.parent[child] != 0 {
        RemoveChild(links.parent[child], child);
      }
      Append(n, child);
    }

    /** The part of `AddChild` that links a parentless node in at the end of the chain of `n`. */
    method Append(n: nat, child: nat)
      requires Valid() && n in links.parent && child in links.parent && links.parent[child] == 0
      requires child !in Ancestry(links.parent, rank, n)
      modifies this
      ensures n in old(links).children && n in old(links).childCount
      ensures links == Attach(old(links), child, n)
      ensures enabled == old(enabled) && boundsDirty == old(boundsDirty) && hierarchyDirty == old(hierarchyDirty)
      ensures Valid()
    {
      assert n in links.children && n in links.childCount && n in rank;
      var attached := Attach(links, child, n);
      assert exists r :: Coherent(attached, enabled, r, nextNode) by {
        AttachCoherent(links, enabled, rank, nextNode, child, n);
      }
      ghost var lifted :| Coherent(attached, enabled, lifted, nextNode);
      links, rank := attached, lifted;
    }

    /**
     * `RemoveAllChildren`: with its own hierarchy bit cleared, so that no
     * removal runs `HierarchyChanged`, every child is removed, first to last;
     * then the bit is set again and `HierarchyChanged` runs once, leaving only
     * the node's own bounds newly dirty.
     */
    method RemoveAllChildren(n: nat)
      requires Valid() && n in links.parent
      modifies this
      ensures n in old(links).children && n in old(links).childCount
      ensures links == Links(Orphaned(old(links).parent, old(links).children[n]),
                             old(links).children[n := []], old(links).childCount[n := 0])
      ensures enabled == old(enabled)
      ensures boundsDirty == old(boundsDirty) + {n} && hierarchyDirty == old(hierarchyDirty) + {n}
      ensures Valid()
    {
      hierarchyDirty := hierarchyDirty - {n};
      RemoveEach(n);
      hierarchyDirty := hierarchyDirty + {n};
      LeafSubtree(links.parent, links.children, rank, n);
      HierarchyChanged(n);
    }

    /** The loop of `RemoveAllChildren`, run while the node's hierarchy bit is clear. */
    method RemoveEach(n: nat)
      requires Valid() && n in links.parent && n !in hierarchyDirty
      modifies this
      ensures n in old(links).children && n in old(links).childCount
      ensures links == Links(Orphaned(old(links).parent, old(links).children[n]),
                             old(links).children[n := []], old(links).childCount[n := 0])
      ensures enabled == old(enabled) && boundsDirty == old(boundsDirty) && hierarchyDirty == old(hierarchyDirty)
      ensures Valid()
    {
      ghost var l0 := links;
      ghost var k := 0;
      OrphanedNone(l0.parent);
      assert l0.children[n := l0.children[n][0..]] == l0.children;
      assert l0.childCount[n := |l0.children[n]|] == l0.childCount;
      while links.children[n] != []
        invariant k <= |l0.children[n]|
        invariant links == Links(Orphaned(l0.parent, l0.children[n][..k]),
                                 l0.children[n := l0.children[n][k..]], l0.childCount[n := |l0.children[n]| - k])
        invariant enabled == old(enabled) && boundsDirty == old(boundsDirty) && hierarchyDirty == old(hierarchyDirty)
        invariant Valid()
        decreases |l0.children[n]| - k
      {
        RemoveFirstChild(n, l0, k);
        k := k + 1;
      }
      assert l0.children[n][..k] == l0.children[n];
    }

    /** One round of `RemoveAllChildren`: `RemoveChild(first_child_)` after `k` children have gone. */
    method RemoveFirstChild(n: nat, ghost l0: Links, ghost k: nat)
      requires Valid() && n in links.parent && n !in hierarchyDirty && n in l0.children && n in l0.childCount
      requires k < |l0.children[n]|
      requires links == Links(Orphaned(l0.parent, l0.children[n][..k]),
                              l0.children[n := l0.children[n][k..]], l0.childCount[n := |l0.children[n]| - k])
      modifies this
      ensures links == Links(Orphaned(l0.parent, l0.children[n][..k + 1]),
                             l0.children[n := l0.children[n][k + 1..]], l0.childCount[n := |l0.children[n]| - (k + 1)])
      ensures enabled == old(enabled) && boundsDirty == old(boundsDirty) && hierarchyDirty == old(hierarchyDirty)
      ensures Valid()
    {
      var first := links.children[n][0];
      assert first in links.parent && links.parent[first] == n;
      ClearFirstChild(l0, links, n, k);
      assert Vacated(links, rank, hierarchyDirty, first) == {};
      RemoveChild(n, first);
    }

    /**
     * The bounds bits of `GetBoundingSphere`: a node with the bit set clears
     * it and queries each of its children in turn; a clean node returns its
     * cached sphere at once.  The spheres themselves are not modelled.
     */
    method GetBoundingSphere(n: nat)
      requires Valid() && n in links.parent
      modifies this
      ensures links == old(links) && enabled == old(enabled) && rank == old(rank) && nextNode == old(nextNode)
      ensures hierarchyDirty == old(hierarchyDirty)
      ensures boundsDirty == old(boundsDirty) - Refreshed(links.parent, rank, old(boundsDirty), n)
      ensures Valid()
      decreases Subtree(links.parent, rank, n)
    {
      RefreshedBits(links.parent, rank, boundsDirty, n);
      if n !in boundsDirty {
        return;
      }
      ghost var d0 := boundsDirty;
      boundsDirty := boundsDirty - {n};
      var chain := links.children[n];
      var i := 0;
      while i < |chain|
        invariant i <= |chain|
        invariant links == old(links) && enabled == old(enabled) && rank == old(rank) && nextNode == old(nextNode)
        invariant hierarchyDirty == old(hierarchyDirty)
        invariant boundsDirty == d0 - {n} - RefreshedAll(links.parent, rank, d0, chain[..i])
        invariant Valid()
      {
        var child := chain[i];
        RefreshRound(links.parent, links.children, rank, d0, n, i);
        ChildSubtree(links.parent, rank, child);
        GetBoundingSphere(child);
        i := i + 1;
      }
      assert chain[..i] == chain;
      RefreshedSplit(links.parent, links.children, rank, d0, n);
    }

    /** `GetRootNode`: the ancestor that has no parent. */
    method GetRootNode(n: nat) returns (root: nat)
      requires Valid() && n in links.parent
      ensures root in Ancestry(links.parent, rank, n) && root in links.parent && links.parent[root] == 0
    {
      root := n;
      AncestryKnown(links.parent, rank, n);
      while links.parent[root] != 0
        invariant root in links.parent && root in Ancestry(links.parent, rank, n)
        decreases rank[root]
      {
        AncestryTransitive(links.parent, rank, n, root);
        AncestryKnown(links.parent, rank, links.parent[root]);
        root := links.parent[root];
      }
    }

    /** `IsEnabledInHierarchy`: the node and every one of its ancestors are enabled. */
    method IsEnabledInHierarchy(n: nat) returns (b: bool)
      requires Valid() && n in links.parent
      ensures b <==> forall a :: a in Ancestry(links.parent, rank, n) ==> a in enabled && enabled[a]
    {
      var node := n;
      ghost var visited: set<nat> := {};
      while node != 0
        invariant node != 0 ==> node in links.parent
        invariant forall a :: a in visited ==> a in enabled && enabled[a]
        invariant Ancestry(links.parent, rank, n) == visited + (if node == 0 then {} else Ancestry(links.parent, rank, node))
        decreases if node == 0 then 0 else rank[node] + 1
      {
        if !enabled[node] {
          AncestryKnown(links.parent, rank, node);
          return false;
        }
        visited := visited + {node};
        node := links.parent[node];
      }
      b := true;
    }
  }

  /** Two new nodes, both roots without children, all their bits set. */
  method TwoRoots() returns (g: NodeGraph, a: nat, b: nat)
    ensures fresh(g) && g.Valid() && a != b
    ensures g.links.parent == map[a := 0, b := 0]
    ensures g.links.children == map[a := [], b := []] && g.links.childCount == map[a := 0, b := 0]
    ensures Ancestry(g.links.parent, g.rank, a) == {a}
    ensures g.boundsDirty == {a, b} && g.hierarchyDirty == {a, b}
  {
    g := new NodeGraph();
    a := g.Create();
    b := g.Create();
    AncestryKnown(g.links.parent, g.rank, a);
  }

  /** Two new nodes, the second added to the first: it becomes the first's only child. */
  method TwoNodeHierarchy() returns (g: NodeGraph, a: nat, b: nat)
    ensures fresh(g) && g.Valid()
    ensures a in g.links.parent && b in g.links.parent && a in g.links.children && a in g.links.childCount
    ensures g.links.children[a] == [b] && g.links.childCount[a] == 1
    ensures g.links.parent[b] == a && g.links.parent[a] == 0
    ensures b in g.links.children && g.links.children[b] == []
    ensures g.boundsDirty == {a, b} && g.hierarchyDirty == {a, b}
  {
    g, a, b := TwoRoots();
    assert Vacated(g.links, g.rank, g.hierarchyDirty, b) == {};
    g.AddChild(a, b);
    assert Subtree(g.links.parent, g.rank, a) <= g.links.parent.Keys == {a, b};
  }

  /**
   * Bounds bits over a two-node hierarchy: a query at the root clears both
   * nodes, and removing the child dirties only the root again.
   */
  method BoundsScenario()
  {
    var g, a, b := TwoNodeHierarchy();
    assert Subtree(g.links.parent, g.rank, a) == {a, b} by {
      SubtreeSplit(g.links.parent, g.links.children, g.rank, a);
      LeafSubtree(g.links.parent, g.links.children, g.rank, b);
      assert g.links.children[a][..0] == [];
    }
    RefreshedWhole(g.links.parent, g.rank, g.boundsDirty, a);
    g.GetBoundingSphere(a);
    assert g.boundsDirty == {};
    g.RemoveAllChildren(a);
    assert g.boundsDirty == {a};
  }

  /** The node added finds the other as its root. */
  method HierarchyScenario()
  {
    var g, a, b := TwoNodeHierarchy();
    assert Ancestry(g.links.parent, g.rank, a) == {a};
    assert Ancestry(g.links.parent, g.rank, b) == {b, a};
    var root := g.GetRootNode(b);
    assert root == a;
  }

  /** Removing all children of a node frees its only child again. */
  method RemoveChildrenScenario()
  {
    var g, a, b := TwoNodeHierarchy();
    g.RemoveAllChildren(a);
    assert g.links.children[a] == [] && g.links.parent[b] == 0;
  }
}
