/** The click handlers. Every link carries three flags (the classes
    `link--fade--out`, `link--fade--stick` and `link--highlight`); every arc and
    every label carries one stick flag (`arc--highlight--stick`,
    `node--highlight--stick`). A click on an arc one level above the leaves
    fades the links away from that arc's leaves; a click on a label toggles
    the highlight of the links at that leaf. */
module Interaction {
  import opened Wrappers
  import opened Hierarchy

  datatype LinkFlags = LinkFlags(fadeOut: bool, fadeStick: bool, highlight: bool)

  /** The flags of a freshly drawn link. */
  const Rest := LinkFlags(false, false, false)

  /** The link has an endpoint among `leaves` (`_.indexOf(children, l.target) > -1 |
      _.indexOf(children, l.source) > -1`; an undefined endpoint is never found). */
  predicate Touches(e: Ends, leaves: seq<nat>)
  {
    (e.target.Some? && e.target.value in leaves) || (e.source.Some? && e.source.value in leaves)
  }

  /** `l.target === d | l.source === d`. */
  predicate Incident(e: Ends, d: nat)
  {
    e.target == Some(d) || e.source == Some(d)
  }

  /** The first rewrite of an arc click, on one link: fade-out is recomputed
      from the fade-stick flag as it was before the click. */
  function FadeRewrite(f: LinkFlags, touching: bool): LinkFlags
  {
    f.(fadeOut := if touching then f.fadeStick else !f.fadeStick)
  }

  /** The second rewrite of an arc click, on one link: fade-stick flips on the
      links touching the arc. */
  function StickRewrite(f: LinkFlags, touching: bool): LinkFlags
  {
    f.(fadeStick := if touching then !f.fadeStick else f.fadeStick)
  }

  /** Both rewrites of an arc click, over all links. */
  function ArcRewrite(flags: seq<LinkFlags>, ends: seq<Ends>, leaves: seq<nat>): (r: seq<LinkFlags>)
    requires |flags| == |ends|
    ensures |r| == |flags|
  {
    seq(|flags|, k requires 0 <= k < |flags| =>
      StickRewrite(FadeRewrite(flags[k], Touches(ends[k], leaves)), Touches(ends[k], leaves)))
  }

  ghost predicate AllFaded(flags: seq<LinkFlags>)
  {
    forall k :: 0 <= k < |flags| ==> flags[k].fadeOut
  }

  /** `link.classed("link--fade--out", false)`. */
  function Unfaded(flags: seq<LinkFlags>): (r: seq<LinkFlags>)
    ensures |r| == |flags|
  {
    seq(|flags|, k requires 0 <= k < |flags| => flags[k].(fadeOut := false))
  }

  /** The number of faded links, as the third pass counts them. */
  function CountFaded(flags: seq<LinkFlags>): nat
  {
    if flags == [] then 0 else CountFaded(flags[..|flags| - 1]) + (if flags[|flags| - 1].fadeOut then 1 else 0)
  }

  /** The count reaches the number of links exactly when every link is faded. */
  lemma {:induction false} CountFadedFull(flags: seq<LinkFlags>)
    ensures CountFaded(flags) <= |flags|
    ensures CountFaded(flags) == |flags| <==> AllFaded(flags)
  {
    if flags != [] {
      var init := flags[..|flags| - 1];
      CountFadedFull(init);
      assert AllFaded(flags) <==> AllFaded(init) && flags[|flags| - 1].fadeOut;
    }
  }

  /** A click on an arc one level above the leaves, over the flags of all
      links: both rewrites, then the reset when every link ended up faded. */
  function ArcClick(flags: seq<LinkFlags>, ends: seq<Ends>, leaves: seq<nat>): seq<LinkFlags>
    requires |flags| == |ends|
  {
    var r := ArcRewrite(flags, ends, leaves);
    if CountFaded(r) == |r| then Unfaded(r) else r
  }

  /** A click on the label of leaf `d`, over the flags of all links. */
  function LinkClick(flags: seq<LinkFlags>, ends: seq<Ends>, d: nat): (r: seq<LinkFlags>)
    requires |flags| == |ends|
    ensures |r| == |flags|
  {
    seq(|flags|, k requires 0 <= k < |flags| =>
      if Incident(ends[k], d) then flags[k].(highlight := !flags[k].highlight) else flags[k])
  }

  /** An arc click leaves no link faded when there is one: the reset forbids
      the all-faded picture. It never touches a link's highlight. */
  lemma ArcClickNeverFadesAll(flags: seq<LinkFlags>, ends: seq<Ends>, leaves: seq<nat>)
    requires |flags| == |ends| && |flags| > 0
    ensures |ArcClick(flags, ends, leaves)| == |flags|
    ensures !AllFaded(ArcClick(flags, ends, leaves))
    ensures forall k :: 0 <= k < |flags| ==> ArcClick(flags, ends, leaves)[k].highlight == flags[k].highlight
  {
    var r := ArcRewrite(flags, ends, leaves);
    CountFadedFull(r);
    if CountFaded(r) != |r| {
      var k :| 0 <= k < |r| && !r[k].fadeOut;
    } else {
      assert !Unfaded(r)[0].fadeOut;
    }
  }

  /** Two clicks on the same arc: every fade-stick and highlight flag is back,
      and fade-out ends as the negation of the original fade-stick, except
      that it is cleared everywhere when no link was stuck before. */
  lemma ArcClickTwice(flags: seq<LinkFlags>, ends: seq<Ends>, leaves: seq<nat>)
    requires |flags| == |ends|
    ensures var twice := ArcClick(ArcClick(flags, ends, leaves), ends, leaves);
            && |twice| == |flags|
            && forall k :: 0 <= k < |flags| ==>
                 && twice[k].fadeStick == flags[k].fadeStick
                 && twice[k].highlight == flags[k].highlight
                 && twice[k].fadeOut == (!flags[k].fadeStick && exists s :: 0 <= s < |flags| && flags[s].fadeStick)
  {
    var once := ArcClick(flags, ends, leaves);
    var r1 := ArcRewrite(flags, ends, leaves);
    assert |once| == |flags| by { CountFadedFull(r1); }
    var r2 := ArcRewrite(once, ends, leaves);
    assert forall k :: 0 <= k < |flags| ==> once[k].fadeStick == r1[k].fadeStick && once[k].highlight == flags[k].highlight;
    assert forall k :: 0 <= k < |flags| ==> r2[k] == flags[k].(fadeOut := !flags[k].fadeStick);
    CountFadedFull(r2);
  }

  /** From the initial state, two clicks on the same arc put every link back
      to the initial state. */
  lemma ArcClickTwiceFromRest(n: nat, ends: seq<Ends>, leaves: seq<nat>)
    requires |ends| == n
    ensures ArcClick(ArcClick(seq(n, _ => Rest), ends, leaves), ends, leaves) == seq(n, _ => Rest)
  {
    var flags := seq(n, _ => Rest);
    ArcClickTwice(flags, ends, leaves);
  }

  /** A second click on the same label undoes the first. */
  lemma LinkClickTwice(flags: seq<LinkFlags>, ends: seq<Ends>, d: nat)
    requires |flags| == |ends|
    ensures LinkClick(LinkClick(flags, ends, d), ends, d) == flags
  {
  }

  /** Arc clicks and label clicks act on disjoint flags, so their order does
      not matter. */
  lemma ArcAndLinkClicksCommute(flags: seq<LinkFlags>, ends: seq<Ends>, leaves: seq<nat>, d: nat)
    requires |flags| == |ends|
    ensures |ArcClick(flags, ends, leaves)| == |flags|
    ensures LinkClick(ArcClick(flags, ends, leaves), ends, d) == ArcClick(LinkClick(flags, ends, d), ends, leaves)
  {
    var r := ArcRewrite(flags, ends, leaves);
    var l := LinkClick(flags, ends, d);
    var rl := ArcRewrite(l, ends, leaves);
    CountFadedFull(r);
    CountFadedFull(rl);
    assert forall k :: 0 <= k < |flags| ==> rl[k].fadeOut == r[k].fadeOut;
    assert AllFaded(r) <==> AllFaded(rl);
  }

  /** The drawn chart's interaction state. */
  class Controller {
    const tree: Tree
    /** The endpoints of each link, resolved once when the chart is drawn. */
    const ends: seq<Ends>
    /** Per link. */
    const links: array<LinkFlags>
    /** Per node id; only arcs (nodes strictly between the root and the leaves) are clicked. */
    const arcStick: array<bool>
    /** Per node id; only labels (leaves) are clicked. */
    const labelStick: array<bool>

    ghost predicate Valid()
      reads this
    {
      && WellFormed(tree)
      && links.Length == |ends|
      && arcStick.Length == tree.Size()
      && labelStick.Length == tree.Size()
      && arcStick != labelStick
    }

    /** A freshly drawn chart: no link faded, stuck or highlighted, no arc or
        label stuck. */
    constructor (tree: Tree, ends: seq<Ends>)
      requires WellFormed(tree)
      ensures Valid() && this.tree == tree && this.ends == ends
      ensures fresh(links) && fresh(arcStick) && fresh(labelStick)
      ensures forall k :: 0 <= k < links.Length ==> links[k] == Rest
      ensures forall n :: 0 <= n < tree.Size() ==> !arcStick[n] && !labelStick[n]
    {
      this.tree := tree;
      this.ends := ends;
      links := new LinkFlags[|ends|](_ => Rest);
      arcStick := new bool[tree.Size()](_ => false);
      labelStick := new bool[tree.Size()](_ => false);
    }

    /** clickarc on the arc of node `d`. Only arcs one level above the leaves
        react: they toggle their stick flag and run `ArcClick` over the links. */
    method ClickArc(d: nat)
      requires Valid() && d < tree.Size() && 0 < tree.depth[d] < tree.maxDepth
      modifies links, arcStick
      ensures tree.depth[d] + 1 == tree.maxDepth ==>
                && links[..] == ArcClick(old(links[..]), ends, tree.children[d])
                && arcStick[..] == old(arcStick[..])[d := !old(arcStick[d])]
      ensures tree.depth[d] + 1 != tree.maxDepth ==>
                links[..] == old(links[..]) && arcStick[..] == old(arcStick[..])
    {
      if tree.depth[d] == tree.maxDepth - 1 {
        arcStick[d] := !arcStick[d];
        var children := ArcLeaves(tree, d);
        ghost var before := links[..];
        FadeOutPass(children);
        StickPass(children);
        assert links[..] == ArcRewrite(before, ends, children);
        var total := CountFadedLinks();
        if total == links.Length {
          ClearFadeOut();
        }
        assert links[..] == ArcClick(old(links[..]), ends, children);
      }
    }

    /** First pass: fade-out becomes the fade-stick flag on the links touching
        `leaves`, and its negation on the others. */
    method FadeOutPass(leaves: seq<nat>)
      requires Valid()
      modifies links
      ensures forall k :: 0 <= k < links.Length ==>
                links[k] == old(links[k]).(fadeOut := old(links[k].fadeStick) == Touches(ends[k], leaves))
    {
      for k := 0 to links.Length
        invariant forall j :: 0 <= j < k ==>
                    links[j] == old(links[j]).(fadeOut := old(links[j].fadeStick) == Touches(ends[j], leaves))
        invariant forall j :: k <= j < links.Length ==> links[j] == old(links[j])
      {
        links[k] := FadeRewrite(links[k], Touches(ends[k], leaves));
      }
    }

    /** Second pass: fade-stick flips exactly on the links touching `leaves`. */
    method StickPass(leaves: seq<nat>)
      requires Valid()
      modifies links
      ensures forall k :: 0 <= k < links.Length ==>
                links[k] == old(links[k]).(fadeStick := old(links[k].fadeStick) != Touches(ends[k], leaves))
    {
      for k := 0 to links.Length
        invariant forall j :: 0 <= j < k ==>
                    links[j] == old(links[j]).(fadeStick := old(links[j].fadeStick) != Touches(ends[j], leaves))
        invariant forall j :: k <= j < links.Length ==> links[j] == old(links[j])
      {
        links[k] := StickRewrite(links[k], Touches(ends[k], leaves));
      }
    }

    /** Third pass: count the faded links. The total equals the number of links
        exactly when all of them are faded. */
    method CountFadedLinks() returns (total: nat)
      requires Valid()
      ensures total == CountFaded(links[..])
      ensures total == links.Length <==> AllFaded(links[..])
    {
      total := 0;
      for k := 0 to links.Length
        invariant total == CountFaded(links[..k])
      {
        assert links[..k + 1][..k] == links[..k];
        if links[k].fadeOut {
          total := total + 1;
        }
      }
      assert links[..links.Length] == links[..];
      CountFadedFull(links[..]);
    }

    /** The reset: no link is faded any more; nothing else changes. */
    method ClearFadeOut()
      requires Valid()
      modifies links
      ensures links[..] == Unfaded(old(links[..]))
    {
      for k := 0 to links.Length
        invariant forall j :: 0 <= j < k ==> links[j] == old(links[j]).(fadeOut := false)
        invariant forall j :: k <= j < links.Length ==> links[j] == old(links[j])
      {
        links[k] := links[k].(fadeOut := false);
      }
    }

    /** clicklink on the label of leaf `d`: the highlight of the links at `d`
        flips, every other flag stays, and the label's stick flag toggles. */
    method ClickLink(d: nat)
      requires Valid() && d < tree.Size() && tree.IsLeaf(d)
      modifies links, labelStick
      ensures links[..] == LinkClick(old(links[..]), ends, d)
      ensures labelStick[..] == old(labelStick[..])[d := !old(labelStick[d])]
    {
      for k := 0 to links.Length
        modifies links
        invariant forall j :: 0 <= j < k ==> links[j] == LinkClick(old(links[..]), ends, d)[j]
        invariant forall j :: k <= j < links.Length ==> links[j] == old(links[j])
      {
        if Incident(ends[k], d) {
          links[k] := links[k].(highlight := !links[k].highlight);
        }
      }
      labelStick[d] := !labelStick[d];
    }
  }
}
