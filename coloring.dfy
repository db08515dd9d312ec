/** The colour pass of the render: depth-1 nodes take their palette colour,
    then, depth by depth, every node hands a colour to each of its children. */
module Coloring {
  import opened Wrappers
  import opened Hierarchy

  /** `groupColors[k]`, or undefined when `k` is past the palette. */
  function PaletteAt<C>(groupColors: seq<C>, k: nat): (r: Option<C>)
    ensures r.Some? <==> k < |groupColors|
    ensures r.Some? ==> r.value == groupColors[k]
  {
    if k < |groupColors| then Some(groupColors[k]) else None
  }

  /** The colour a parent with colour `base` and `siblings` children gives to
      the child whose sibling order is `index`. */
  function Shade<C>(base: Option<C>, siblings: nat, index: nat,
                    darker: Option<C> -> C, brighter: Option<C> -> C): Option<C>
  {
    if siblings > 1 then Some(if index % 2 == 0 then darker(base) else brighter(base))
    else base
  }

  /** The colour every non-root node ends with: depth-1 nodes read the palette
      at their sibling order, deeper nodes take the shade their parent gives. */
  function Painted<C>(t: Tree, groupColors: seq<C>, darker: Option<C> -> C,
                      brighter: Option<C> -> C, n: nat): Option<C>
    requires WellFormed(t) && n < t.Size() && 1 <= t.depth[n]
    decreases t.depth[n]
  {
    if t.depth[n] == 1 then PaletteAt(groupColors, t.index[n])
    else
      var p := t.parent[n];
      Shade(Painted(t, groupColors, darker, brighter, p), |t.children[p]|, t.index[n], darker, brighter)
  }

  /** The render's colour pass, writing `color[n]` (the `c` field of node `n`)
      in place. The root keeps whatever colour it had; every other node ends
      with `Painted`. */
  method ColorByDepth<C>(t: Tree, groupColors: seq<C>, darker: Option<C> -> C,
                         brighter: Option<C> -> C, color: array<Option<C>>)
    requires WellFormed(t) && color.Length == t.Size()
    modifies color
    ensures color[0] == old(color[0])
    ensures forall n :: 0 < n < t.Size() ==> color[n] == Painted(t, groupColors, darker, brighter, n)
  {
    PaintFirstLevel(t, groupColors, darker, brighter, color);
    var i := 1;
    while i < t.maxDepth
      invariant 1 <= i && (i <= t.maxDepth || t.maxDepth == 0)
      invariant forall n :: 0 <= n < t.Size() && (t.depth[n] == 0 || t.depth[n] > i) ==> color[n] == old(color[n])
      invariant forall n :: 0 <= n < t.Size() && 1 <= t.depth[n] <= i ==>
                  color[n] == Painted(t, groupColors, darker, brighter, n)
    {
      PaintLevel(t, groupColors, darker, brighter, color, i);
      i := i + 1;
    }
  }

  /** Lines coloring the first level: every depth-1 node reads the palette. */
  method PaintFirstLevel<C>(t: Tree, groupColors: seq<C>, darker: Option<C> -> C,
                            brighter: Option<C> -> C, color: array<Option<C>>)
    requires WellFormed(t) && color.Length == t.Size()
    modifies color
    ensures forall n :: 0 <= n < t.Size() && t.depth[n] != 1 ==> color[n] == old(color[n])
    ensures forall n :: 0 <= n < t.Size() && t.depth[n] == 1 ==>
              color[n] == Painted(t, groupColors, darker, brighter, n)
  {
    for m := 0 to t.Size()
      invariant forall n :: 0 <= n < t.Size() && (t.depth[n] != 1 || m <= n) ==> color[n] == old(color[n])
      invariant forall n :: 0 <= n < m && t.depth[n] == 1 ==>
                  color[n] == Painted(t, groupColors, darker, brighter, n)
    {
      if t.depth[m] == 1 {
        color[m] := PaletteAt(groupColors, t.index[m]);
      }
    }
  }

  /** One round of the loop over depths: every node at depth `i` paints its
      children, so depth `i + 1` gets its final colour and nothing else changes. */
  method PaintLevel<C>(t: Tree, groupColors: seq<C>, darker: Option<C> -> C,
                       brighter: Option<C> -> C, color: array<Option<C>>, i: nat)
    requires WellFormed(t) && color.Length == t.Size() && 1 <= i
    requires forall n :: 0 <= n < t.Size() && 1 <= t.depth[n] <= i ==>
               color[n] == Painted(t, groupColors, darker, brighter, n)
    modifies color
    ensures forall n :: 0 <= n < t.Size() && t.depth[n] != i + 1 ==> color[n] == old(color[n])
    ensures forall n :: 0 <= n < t.Size() && t.depth[n] == i + 1 ==>
              color[n] == Painted(t, groupColors, darker, brighter, n)
  {
    for m := 0 to t.Size()
      invariant forall n :: 0 <= n < t.Size() && (t.depth[n] != i + 1 || m <= t.parent[n]) ==>
                  color[n] == old(color[n])
      invariant forall n :: 0 <= n < t.Size() && t.depth[n] == i + 1 && t.parent[n] < m ==>
                  color[n] == Painted(t, groupColors, darker, brighter, n)
    {
      if t.depth[m] == i {
        PaintChildren(t, groupColors, darker, brighter, color, m);
      }
    }
  }

  /** One `d.children.map(...)` of the pass: node `d`, already painted, hands
      its shade to each of its children. */
  method PaintChildren<C>(t: Tree, groupColors: seq<C>, darker: Option<C> -> C,
                          brighter: Option<C> -> C, color: array<Option<C>>, d: nat)
    requires WellFormed(t) && color.Length == t.Size() && d < t.Size() && 1 <= t.depth[d]
    requires color[d] == Painted(t, groupColors, darker, brighter, d)
    modifies color
    ensures forall n :: 0 <= n < t.Size() && (t.depth[n] != t.depth[d] + 1 || t.parent[n] != d) ==>
              color[n] == old(color[n])
    ensures forall n :: 0 <= n < t.Size() && t.depth[n] == t.depth[d] + 1 && t.parent[n] == d ==>
              color[n] == Painted(t, groupColors, darker, brighter, n)
  {
    var cs := t.children[d];
    var nchildren := |cs|;
    var baseColor := color[d];
    for k := 0 to nchildren
      invariant forall n :: 0 <= n < t.Size() && (n !in cs[..k]) ==> color[n] == old(color[n])
      invariant forall n :: n in cs[..k] ==> color[n] == Painted(t, groupColors, darker, brighter, n)
    {
      var e := cs[k];
      ChildTakesShade(t, groupColors, darker, brighter, d, k);
      color[e] := Shade(baseColor, nchildren, t.index[e], darker, brighter);
      assert cs[..k + 1] == cs[..k] + [e];
    }
    assert cs[..nchildren] == cs;
  }

  /** The `k`-th child of `d` is one level deeper and is painted with the
      shade `d` hands it. */
  lemma ChildTakesShade<C>(t: Tree, groupColors: seq<C>, darker: Option<C> -> C,
                           brighter: Option<C> -> C, d: nat, k: nat)
    requires WellFormed(t) && d < t.Size() && 1 <= t.depth[d] && k < |t.children[d]|
    ensures t.children[d][k] < t.Size()
    ensures Painted(t, groupColors, darker, brighter, t.children[d][k])
         == Shade(Painted(t, groupColors, darker, brighter, d), |t.children[d]|,
                  t.index[t.children[d][k]], darker, brighter)
  {
  }

  /** An only child inherits its parent's colour unchanged. */
  lemma OnlyChildInherits<C>(t: Tree, groupColors: seq<C>, darker: Option<C> -> C,
                             brighter: Option<C> -> C, p: nat)
    requires WellFormed(t) && p < t.Size() && 1 <= t.depth[p] && |t.children[p]| == 1
    ensures Painted(t, groupColors, darker, brighter, t.children[p][0])
         == Painted(t, groupColors, darker, brighter, p)
  {
  }

  /** Below a parent with several children, even-ordered children are painted
      darker and odd-ordered ones brighter than the parent; so two siblings of
      different parity differ whenever the two shades of the parent do. */
  lemma SiblingsAlternate<C>(t: Tree, groupColors: seq<C>, darker: Option<C> -> C,
                             brighter: Option<C> -> C, p: nat, j: nat, k: nat)
    requires WellFormed(t) && p < t.Size() && 1 <= t.depth[p]
    requires j < |t.children[p]| && k < |t.children[p]| && 1 < |t.children[p]|
    requires t.index[t.children[p][j]] % 2 == 0 && t.index[t.children[p][k]] % 2 == 1
    ensures var base := Painted(t, groupColors, darker, brighter, p);
            && Painted(t, groupColors, darker, brighter, t.children[p][j]) == Some(darker(base))
            && Painted(t, groupColors, darker, brighter, t.children[p][k]) == Some(brighter(base))
            && (darker(base) != brighter(base) ==>
                  Painted(t, groupColors, darker, brighter, t.children[p][j])
                  != Painted(t, groupColors, darker, brighter, t.children[p][k]))
  {
  }

  /** A chain of only children all carry the colour of the top of the chain:
      `n` lies `steps` levels below its ancestor `a`, and every node on the way
      down has exactly one child. */
  lemma {:induction false} OnlyChildChainKeepsColour<C>(t: Tree, groupColors: seq<C>, darker: Option<C> -> C,
                                                       brighter: Option<C> -> C, a: nat, n: nat, steps: nat)
    requires WellFormed(t) && a < t.Size() && n < t.Size() && 1 <= t.depth[a]
    requires t.depth[n] == t.depth[a] + steps
    requires Ancestor(t, n, steps) == a
    requires forall k :: 0 < k <= steps ==> |t.children[Ancestor(t, n, k)]| == 1
    ensures Painted(t, groupColors, darker, brighter, n) == Painted(t, groupColors, darker, brighter, a)
    decreases steps
  {
    if steps > 0 {
      var p := t.parent[n];
      assert Ancestor(t, n, 1) == p;
      forall k | 0 < k <= steps - 1 ensures |t.children[Ancestor(t, p, k)]| == 1 {
        AncestorStep(t, n, k);
        assert Ancestor(t, n, k + 1) == Ancestor(t, p, k);
      }
      AncestorStep(t, n, steps - 1);
      OnlyChildChainKeepsColour(t, groupColors, darker, brighter, a, p, steps - 1);
    }
  }

  lemma AncestorStep(t: Tree, n: nat, k: nat)
    requires WellFormed(t) && n < t.Size() && k < t.depth[n]
    ensures Ancestor(t, n, k + 1) == Ancestor(t, t.parent[n], k)
  {
  }
}
