/** The positioned hierarchy produced by the cluster layout, as an arena of
    nodes addressed by id, and the recursive traversals over it: descendant
    leaves, the minimum and maximum angular position of a subtree, the arc
    span drawn for an interior node, and the lookup of a link's endpoint leaf. */
module Hierarchy {
  import opened Wrappers

  /** Node `n` has depth `depth[n]`, child ids `children[n]` (empty for a leaf),
      parent `parent[n]` (meaningless for the root, node 0), sibling order
      `index[n]`, angular position `x[n]` in degrees and, for a leaf, the
      position `item[n]` of its record in the original node list. */
  datatype Tree = Tree(
    depth: seq<nat>,
    children: seq<seq<nat>>,
    parent: seq<nat>,
    index: seq<nat>,
    x: seq<real>,
    item: seq<int>,
    maxDepth: nat)
  {
    function Size(): nat { |depth| }

    predicate IsLeaf(n: nat)
      requires n < |children|
    {
      children[n] == []
    }
  }

  /** The shape the layout guarantees: node 0 is the root, every other node is
      listed among its parent's children, a child is one level deeper than its
      parent, `maxDepth` is the largest depth present, and a node is a leaf
      exactly when it sits at that depth (the nester puts every record at the
      same depth; the colour pass reads `children.length` on every node above
      it). */
  ghost predicate WellFormed(t: Tree)
  {
    && 0 < |t.depth|
    && |t.children| == |t.depth| && |t.parent| == |t.depth| && |t.index| == |t.depth|
    && |t.x| == |t.depth| && |t.item| == |t.depth|
    && t.depth[0] == 0
    && (forall n :: 0 <= n < |t.depth| ==> t.depth[n] <= t.maxDepth)
    && (forall n :: 0 <= n < |t.depth| && t.depth[n] == t.maxDepth ==> t.children[n] == [])
    && (forall n :: 0 <= n < |t.depth| && t.children[n] == [] ==> t.depth[n] == t.maxDepth)
    && (exists n :: 0 <= n < |t.depth| && t.depth[n] == t.maxDepth)
    && (forall n, k :: 0 <= n < |t.depth| && 0 <= k < |t.children[n]| ==>
          && t.children[n][k] < |t.depth|
          && t.depth[t.children[n][k]] == t.depth[n] + 1
          && t.parent[t.children[n][k]] == n)
    && (forall n :: 0 < n < |t.depth| ==>
          && t.depth[n] > 0
          && t.parent[n] < |t.depth|
          && t.depth[t.parent[n]] + 1 == t.depth[n]
          && n in t.children[t.parent[n]])
  }

  /** Levels below `n`; it bounds every recursion down the tree. */
  function Height(t: Tree, n: nat): nat
    requires WellFormed(t) && n < t.Size()
  {
    t.maxDepth - t.depth[n]
  }

  /** getChildren followed by `_.flatten`: the leaves below `n`, in tree order
      (a leaf's own list is itself). */
  function Leaves(t: Tree, n: nat): (r: seq<nat>)
    requires WellFormed(t) && n < t.Size()
    ensures t.IsLeaf(n) ==> r == [n]
    ensures 0 < |r|
    ensures forall l :: l in r ==> l < t.Size() && t.IsLeaf(l) && t.depth[n] <= t.depth[l]
    decreases Height(t, n), 1
  {
    if t.IsLeaf(n) then [n] else LeavesUpTo(t, n, |t.children[n]|)
  }

  /** The leaves below the first `k` children of `n`, concatenated. */
  function LeavesUpTo(t: Tree, n: nat, k: nat): (r: seq<nat>)
    requires WellFormed(t) && n < t.Size() && k <= |t.children[n]|
    ensures 0 < k ==> 0 < |r|
    ensures forall l :: l in r ==> l < t.Size() && t.IsLeaf(l) && t.depth[n] < t.depth[l]
    decreases Height(t, n), 0, k
  {
    if k == 0 then []
    else LeavesUpTo(t, n, k - 1) + Leaves(t, t.children[n][k - 1])
  }

  /** The only call site of getChildren is an arc one level above the leaves;
      there the flattened result is exactly the arc's own children, so the
      shallow `_.flatten` of lodash 3 and the deep `Leaves` agree. */
  lemma {:induction false} ArcLeavesAreChildren(t: Tree, n: nat)
    requires WellFormed(t) && n < t.Size() && !t.IsLeaf(n)
    ensures t.depth[n] + 1 == t.maxDepth ==> Leaves(t, n) == t.children[n]
  {
    if t.depth[n] + 1 == t.maxDepth {
      ChildrenPrefixAreLeaves(t, n, |t.children[n]|);
    }
  }

  /** `_.flatten(getChildren(d))` for an arc: its leaves, or nothing when the
      arc's node is itself a leaf (lodash flattens a non-array to `[]`). One
      level above the leaves, these are the node's own children. */
  function ArcLeaves(t: Tree, n: nat): (r: seq<nat>)
    requires WellFormed(t) && n < t.Size()
    ensures t.depth[n] + 1 == t.maxDepth ==> r == t.children[n]
    ensures forall l :: l in r ==> l < t.Size() && t.IsLeaf(l)
  {
    if t.IsLeaf(n) then []
    else
      ArcLeavesAreChildren(t, n);
      Leaves(t, n)
  }

  lemma {:induction false} ChildrenPrefixAreLeaves(t: Tree, n: nat, k: nat)
    requires WellFormed(t) && n < t.Size()
    requires t.depth[n] + 1 == t.maxDepth
    requires k <= |t.children[n]|
    ensures LeavesUpTo(t, n, k) == t.children[n][..k]
  {
    if k > 0 {
      ChildrenPrefixAreLeaves(t, n, k - 1);
      var c := t.children[n][k - 1];
      assert t.children[n][..k] == t.children[n][..k - 1] + [c];
    }
  }

  /** The ancestor `k` levels above `n` (the node itself for `k == 0`). */
  function Ancestor(t: Tree, n: nat, k: nat): (r: nat)
    requires WellFormed(t) && n < t.Size() && k <= t.depth[n]
    ensures r < t.Size() && t.depth[r] + k == t.depth[n]
    decreases k
  {
    if k == 0 then n else Ancestor(t, t.parent[n], k - 1)
  }

  /** One more step up is the parent of the last ancestor. */
  lemma {:induction false} AncestorOfAncestor(t: Tree, n: nat, k: nat)
    requires WellFormed(t) && n < t.Size() && 0 < k <= t.depth[n]
    ensures Ancestor(t, n, k) == t.parent[Ancestor(t, n, k - 1)]
    decreases k
  {
    if k > 1 {
      AncestorOfAncestor(t, t.parent[n], k - 1);
    }
  }

  /** `Leaves(t, n)` holds exactly the leaves that lie below `n` (or `n`
      itself when it is a leaf): a node is in it if and only if it is a leaf
      whose ancestor at the depth of `n` is `n`. */
  lemma {:induction false} LeavesAreLeavesBelow(t: Tree, n: nat, l: nat)
    requires WellFormed(t) && n < t.Size() && l < t.Size()
    ensures l in Leaves(t, n) <==>
              t.IsLeaf(l) && t.depth[n] <= t.depth[l] && Ancestor(t, l, t.depth[l] - t.depth[n]) == n
    decreases Height(t, n)
  {
    if t.IsLeaf(n) {
      if t.IsLeaf(l) && t.depth[n] <= t.depth[l] && Ancestor(t, l, t.depth[l] - t.depth[n]) == n {
        // both are leaves, hence both at the deepest level
        assert t.depth[l] == t.depth[n];
      }
    } else {
      var cs := t.children[n];
      if t.IsLeaf(l) && t.depth[n] < t.depth[l] {
        var k := t.depth[l] - t.depth[n];
        var a := Ancestor(t, l, k - 1);
        AncestorOfAncestor(t, l, k);
        if t.parent[a] == n {
          var j :| 0 <= j < |cs| && cs[j] == a;
          LeavesAreLeavesBelow(t, a, l);
          ChildLeavesCollected(t, n, |cs|, j, l);
        }
        if l in Leaves(t, n) {
          var j := CollectedLeafChild(t, n, |cs|, l);
          LeavesAreLeavesBelow(t, cs[j], l);
        }
      }
    }
  }

  /** Every leaf below one of the first `k` children of `n` is collected. */
  lemma {:induction false} ChildLeavesCollected(t: Tree, n: nat, k: nat, j: nat, l: nat)
    requires WellFormed(t) && n < t.Size() && j < k <= |t.children[n]|
    requires l in Leaves(t, t.children[n][j])
    ensures l in LeavesUpTo(t, n, k)
  {
    if j < k - 1 {
      ChildLeavesCollected(t, n, k - 1, j, l);
    }
  }

  /** Every leaf collected from the first `k` children of `n` lies below one of them. */
  lemma {:induction false} CollectedLeafChild(t: Tree, n: nat, k: nat, l: nat) returns (j: nat)
    requires WellFormed(t) && n < t.Size() && k <= |t.children[n]|
    requires l in LeavesUpTo(t, n, k)
    ensures j < k && l in Leaves(t, t.children[n][j])
  {
    if l in Leaves(t, t.children[n][k - 1]) {
      j := k - 1;
    } else {
      j := CollectedLeafChild(t, n, k - 1, l);
    }
  }

  /** treeMaxPos: a leaf yields its own position; an interior node yields the
      largest position among its leaves, but never less than 0, because the
      accumulator starts at 0. */
  method TreeMaxPos(t: Tree, n: nat) returns (m: real)
    requires WellFormed(t) && n < t.Size()
    ensures forall l :: l in Leaves(t, n) ==> t.x[l] <= m
    ensures t.IsLeaf(n) ==> m == t.x[n]
    ensures !t.IsLeaf(n) ==> 0.0 <= m
    ensures m == 0.0 || exists l :: l in Leaves(t, n) && t.x[l] == m
    decreases Height(t, n)
  {
    if t.IsLeaf(n) {
      return t.x[n];
    }
    var cs := t.children[n];
    var max := 0.0;
    for k := 0 to |cs|
      invariant 0.0 <= max
      invariant forall l :: l in LeavesUpTo(t, n, k) ==> t.x[l] <= max
      invariant max == 0.0 || exists l :: l in LeavesUpTo(t, n, k) && t.x[l] == max
    {
      var tmpMax := TreeMaxPos(t, cs[k]);
      if tmpMax > max {
        max := tmpMax;
      }
    }
    m := max;
  }

  /** An accumulator that may still hold its starting value of +infinity. */
  datatype Extended = Finite(r: real) | PositiveInfinity

  /** treeMinPos: the smallest position among the leaves below `n`. The
      accumulator starts at +infinity, but every interior node has a child, so
      the result is always some leaf's position. */
  method TreeMinPos(t: Tree, n: nat) returns (m: real)
    requires WellFormed(t) && n < t.Size()
    ensures forall l :: l in Leaves(t, n) ==> m <= t.x[l]
    ensures exists l :: l in Leaves(t, n) && t.x[l] == m
    decreases Height(t, n)
  {
    if t.IsLeaf(n) {
      return t.x[n];
    }
    var cs := t.children[n];
    var min := PositiveInfinity;
    for k := 0 to |cs|
      invariant k == 0 <==> min == PositiveInfinity
      invariant min.Finite? ==> forall l :: l in LeavesUpTo(t, n, k) ==> min.r <= t.x[l]
      invariant min.Finite? ==> exists l :: l in LeavesUpTo(t, n, k) && t.x[l] == min.r
    {
      var tmpMin := TreeMinPos(t, cs[k]);
      if min == PositiveInfinity || tmpMin < min.r {
        min := Finite(tmpMin);
      }
    }
    m := min.r;
  }

  /** findStartAngle / findEndAngle before the conversion to radians: the arc
      of an interior node spans its leaves with one degree to spare on each
      side, so every leaf below it lies strictly inside the arc. */
  method ArcSpan(t: Tree, n: nat) returns (start: real, end: real)
    requires WellFormed(t) && n < t.Size()
    ensures forall l :: l in Leaves(t, n) ==> start + 1.0 <= t.x[l] <= end - 1.0
    ensures exists l :: l in Leaves(t, n) && t.x[l] == start + 1.0
    ensures t.IsLeaf(n) ==> end == t.x[n] + 1.0
    ensures !t.IsLeaf(n) ==> 1.0 <= end
    ensures end == 1.0 || exists l :: l in Leaves(t, n) && t.x[l] == end - 1.0
    ensures start < end
  {
    var min := TreeMinPos(t, n);
    var max := TreeMaxPos(t, n);
    start := min - 1.0;
    end := max + 1.0;
  }

  /** Entry `k` of the leaves sorted by `i`: the first leaf, from node `from`
      on, whose record sits at position `k` of the node list; `None` when no
      such leaf exists (the JavaScript lookup then yields undefined). */
  function FindLeaf(t: Tree, k: int, from: nat): (r: Option<nat>)
    requires WellFormed(t) && from <= t.Size()
    ensures r.Some? ==> from <= r.value < t.Size() && t.IsLeaf(r.value) && t.item[r.value] == k
    ensures r.None? ==> forall l :: from <= l < t.Size() && t.IsLeaf(l) ==> t.item[l] != k
    decreases t.Size() - from
  {
    if from == t.Size() then None
    else if t.IsLeaf(from) && t.item[from] == k then Some(from)
    else FindLeaf(t, k, from + 1)
  }

  /** The record positions carried by the leaves. */
  ghost function CarriedItems(t: Tree): set<int>
    requires WellFormed(t)
  {
    set l | 0 <= l < t.Size() && t.IsLeaf(l) :: t.item[l]
  }

  /** The leaves carry the records 0 .. count-1, each exactly once: the tree
      nested from the items of formatData has this shape. */
  ghost predicate LeavesNumbered(t: Tree, count: nat)
    requires WellFormed(t)
  {
    && (forall l :: 0 <= l < t.Size() && t.IsLeaf(l) ==> 0 <= t.item[l] < count)
    && (forall l, l' ::
          0 <= l < t.Size() && 0 <= l' < t.Size() && t.IsLeaf(l) && t.IsLeaf(l') && t.item[l] == t.item[l']
          ==> l == l')
    && (forall k :: 0 <= k < count ==> k in CarriedItems(t))
  }

  /** A link `[a, b]` becomes `{source: points[a], target: points[b]}`. */
  datatype Ends = Ends(source: Option<nat>, target: Option<nat>)

  function ResolveLink(t: Tree, a: int, b: int): (e: Ends)
    requires WellFormed(t)
  {
    Ends(FindLeaf(t, a, 0), FindLeaf(t, b, 0))
  }

  /** On a tree whose leaves are numbered 0 .. count-1, a link between two
      node positions resolves to exactly the two leaves carrying those
      positions, and a position outside the range resolves to undefined. */
  lemma ResolvedEndsCarryIndices(t: Tree, count: nat, a: int, b: int)
    requires WellFormed(t) && LeavesNumbered(t, count)
    ensures ResolveLink(t, a, b).source.Some? <==> 0 <= a < count
    ensures ResolveLink(t, a, b).target.Some? <==> 0 <= b < count
    ensures forall l :: 0 <= l < t.Size() && t.IsLeaf(l) && t.item[l] == a ==>
              ResolveLink(t, a, b).source == Some(l)
    ensures forall l :: 0 <= l < t.Size() && t.IsLeaf(l) && t.item[l] == b ==>
              ResolveLink(t, a, b).target == Some(l)
  {
    FoundIffNumbered(t, count, a);
    FoundIffNumbered(t, count, b);
  }

  lemma FoundIffNumbered(t: Tree, count: nat, k: int)
    requires WellFormed(t) && LeavesNumbered(t, count)
    ensures FindLeaf(t, k, 0).Some? <==> 0 <= k < count
  {
    var r := FindLeaf(t, k, 0);
    if r.None? {
      assert k !in CarriedItems(t);
    }
  }
}
