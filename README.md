# lightning-circle, modelled in Dafny

lightning-circle draws a radial "hierarchical edge bundling" chart. Nodes sit on a circle, grouped and coloured by hierarchical category. Bundled curves join linked nodes. A ring of arcs stands for the inner levels of the hierarchy.

This project models the logic of `src/index.js` that does not depend on drawing:

- `Shaping` (`shaping.dfy`) covers `formatData`. It picks the default group level, builds the palette and the per-level ranges, and builds one record per node: `{i, c, l}` plus one key per level.
- `Hierarchy` (`hierarchy.dfy`) covers the positioned tree. The tree is an arena of nodes addressed by id; node 0 is the root. It holds:
  - `getChildren` and its flattening;
  - `treeMinPos` and `treeMaxPos`;
  - the arc span;
  - the resolution of a link's endpoints to leaves.
- `Coloring` (`coloring.dfy`) covers the colour pass, depth by depth. It writes in place into an array of node colours.
- `Interaction` (`interaction.dfy`) covers the click handlers. A `Controller` class holds:
  - one array of link flags (fade-out, fade-stick, highlight);
  - one stick flag per arc and one per label.

  `ClickArc` and `ClickLink` are proved against the specification functions `ArcClick` and `LinkClick`.
- `Tension` (`tension.dfy`) covers the keyboard handler. Tension is kept in hundredths: 70 at the start, steps of 5, clamped to 0..100.
- `Wrappers` (`wrappers.dfy`) holds `Option`, where `None` is a JavaScript `undefined`, and `Result`.

Colours are a type parameter. Four foreign operations are function parameters with no behaviour assumed:

- the palette generator (`getColors`);
- the conversion of an `[r, g, b]` triple (`d3.rgb`);
- `darker(0.3)`;
- `brighter(0.3)`.

The lodash in use is version 3, which is what `_.unique` implies. So `_.range(m)` is empty for `m <= 0`, `_.max([])` is `-Infinity`, and `_.flatten` is shallow.

Two behaviours of the code are modelled as written:

- Each level's range is `_.range(_.max(l))`. It excludes the maximum id, so a node in the highest group of a level gets an undefined key there (`HighestGroupUnkeyed`). Without a `group` input, every key is undefined and all nodes share one bucket (`DefaultGrouping`).
- When colours are supplied, the palette is those colours in input order, and a record's colour is the palette entry at its first-level group id.

## Model

| member | source | states |
|---|---|---|
| Shaping.FormatData | src/index.js:24-68 | The result is `Shape(...)`: an error exactly when `group` is given with no level. Otherwise it holds the palette, the palette request, one range per level, one record per node and the nester's key list `0..levels-1`. |
| Shaping.Groups | src/index.js:29 | Without `group`, there is a single level holding one 0 per node. |
| Shaping.SeqMax | src/index.js:48 | `_.max` of a non-empty list is an element of the list, and no element exceeds it. |
| Shaping.LevelRange | src/index.js:48 | `_.range(_.max(l))` is `0, 1, ..., max-1`. It is empty for an empty list or a maximum of 0 or less. |
| Shaping.KeyIsGroupIdBelowMax | src/index.js:47-60 | A record's key at level `j` is defined exactly when the node's id `g` at that level satisfies `0 <= g < max(level)`. Then the key is `g`. |
| Shaping.HighestGroupUnkeyed | src/index.js:48-59 | A node whose id equals its level's maximum gets an undefined key at that level. |
| Shaping.ItemsFollowNodes | src/index.js:41-62 | There is one record per node, and the record at position `i` has field `i` equal to `i`. Its colour is `groupColors[group[0][i]]`, undefined when out of range. Its label is `labels[i]`, undefined when absent. It has one key per level. |
| Shaping.FailsOnlyWithoutFirstLevel | src/index.js:29-41 | formatData fails exactly when `group` is the empty array, because `group[0].map` throws. |
| Shaping.PaletteFromColorsOrGenerator | src/index.js:34-40 | Without colours, the generator is asked for (distinct first-level ids) + 1 colours, and that is the palette. With colours, the palette is `rgb` of each triple in order, and nothing is asked. |
| Shaping.DefaultGrouping | src/index.js:29-62 | Without `group` and colours, 2 colours are asked for. Every record's only key is undefined, and its colour is palette entry 0. |
| Hierarchy.Leaves | src/index.js:293-306 | getChildren followed by flattening: a non-empty list of leaves, each at least as deep as the node. A leaf's list is itself. |
| Hierarchy.LeavesAreLeavesBelow | src/index.js:293-306 | A node is in getChildren's flattened list exactly when it is a leaf, at least as deep as the node, and the node is its ancestor that many levels up. |
| Hierarchy.ArcLeavesAreChildren | src/index.js:149-153 | At depth `maxDepth-1`, the leaves of an interior node are exactly its children. There, the shallow flatten and the full leaf collection agree. |
| Hierarchy.ArcLeaves | src/index.js:153 | `_.flatten(getChildren(d))` for an arc: only leaves, and, one level above the leaves, exactly the node's children. |
| Hierarchy.TreeMaxPos | src/index.js:262-275 | For a leaf, the result is its `x`. For an interior node, it is the largest `x` among its leaves but never below 0, because the accumulator starts at 0. The result bounds every leaf and is 0 or some leaf's `x`. |
| Hierarchy.TreeMinPos | src/index.js:277-290 | The smallest `x` among the node's leaves. The accumulator starts at +infinity, and the result is attained by some leaf. |
| Hierarchy.ArcSpan | src/index.js:252-260 | The arc spans `[min-1, max+1]` degrees. Every leaf below the node lies at least one degree inside it. The start touches the leftmost leaf's margin. A leaf's end is its own position plus one. An inner node's end is at least 1 and is either exactly 1 or one degree past some leaf below it. |
| Hierarchy.FindLeaf | src/index.js:116-119 | Entry `k` of the leaves sorted by `i`: a leaf carrying record `k`, or undefined exactly when no leaf carries it. |
| Hierarchy.ResolvedEndsCarryIndices | src/index.js:116-120 | When the leaves carry records `0..L-1` once each, link `[a, b]` resolves to the leaves carrying `a` and `b`. An endpoint is undefined exactly when its index is outside `0..L-1`. |
| Hierarchy.FoundIffNumbered | src/index.js:116-119 | On such a tree, `points[k]` is defined exactly when `0 <= k < L`. |
| Coloring.ColorByDepth | src/index.js:208-234 | The root keeps its colour. Every other node ends with `Painted`: depth-1 nodes take `groupColors[index]`, and deeper nodes take the shade their parent gives them. |
| Coloring.PaintFirstLevel | src/index.js:208-212 | Depth-1 nodes get `groupColors[index]`, undefined past the palette. Nothing else changes. |
| Coloring.PaintLevel | src/index.js:216-233 | One round of the depth loop gives depth `i+1` its final colour and changes nothing else. |
| Coloring.PaintChildren | src/index.js:217-231 | A painted node gives each of its children its shade. No other node changes. |
| Coloring.OnlyChildInherits | src/index.js:226-230 | An only child gets its parent's colour unchanged. |
| Coloring.SiblingsAlternate | src/index.js:219-225 | Under a parent with several children, an even-index child gets `darker(parent)` and an odd-index child gets `brighter(parent)`. They differ whenever the two shades differ. |
| Coloring.OnlyChildChainKeepsColour | src/index.js:226-230 | Down a chain of only children, every node carries the colour of the chain's top. |
| Interaction.CountFadedFull | src/index.js:179-187 | The faded count never exceeds the number of links, and it equals that number exactly when every link is faded. |
| Interaction.ArcClickNeverFadesAll | src/index.js:179-189 | With at least one link, an arc click never leaves every link faded, and it never touches a highlight. |
| Interaction.ArcClickTwice | src/index.js:147-191 | Two clicks on one arc restore every fade-stick and highlight flag. Fade-out ends as the negation of the original fade-stick, or false everywhere when no link was stuck. |
| Interaction.ArcClickTwiceFromRest | src/index.js:144-191 | From the initial all-false state, two clicks on one arc return every link to all-false. |
| Interaction.LinkClickTwice | src/index.js:197-203 | A second click on the same label undoes the first. |
| Interaction.ArcAndLinkClicksCommute | src/index.js:147-206 | An arc click and a label click act on disjoint flags, so their order does not matter. |
| Interaction.Controller.constructor | src/index.js:144-145 | A fresh chart has no link faded, stuck or highlighted, and no arc or label stuck. |
| Interaction.Controller.ClickArc | src/index.js:147-193 | At depth `maxDepth-1`, the link flags become `ArcClick(old flags, ends, children of d)` and the arc's stick flag toggles. At any other depth nothing changes. |
| Interaction.Controller.FadeOutPass | src/index.js:155-169 | On touching links, fade-out becomes the old fade-stick; on the others, its negation. No other flag changes. |
| Interaction.Controller.StickPass | src/index.js:171-177 | Fade-stick flips exactly on the links touching the arc's leaves. No other flag changes. |
| Interaction.Controller.CountFadedLinks | src/index.js:179-185 | The total is the number of faded links, and it equals the link count exactly when all links are faded. |
| Interaction.Controller.ClearFadeOut | src/index.js:187-189 | Every fade-out becomes false, and nothing else changes. |
| Interaction.Controller.ClickLink | src/index.js:195-206 | Highlight flips exactly on the links whose source or target is `d`, and every other flag stays. The label's stick flag toggles. |
| Tension.Next | src/index.js:312-329 | A key keeps the tension within 0..100. Down lowers it by 5 or floors it at 0, Up raises it by 5 or caps it at 100, and every other key leaves it unchanged. |
| Tension.ReplayStaysInRange | src/index.js:311-329 | Over any run of keydowns from a tension in range, the tension stays within 0..100. |
| Tension.DownUndoesUp | src/index.js:318-328 | Below the ceiling, Down after Up restores the tension. |
| Tension.UpUndoesDown | src/index.js:318-328 | Above the floor, Up after Down restores the tension. |
| Tension.ClampedAtBounds | src/index.js:319-328 | Up at 100 stays at 100, and Down at 0 stays at 0. |
| Tension.DownFromInitial | src/index.js:311-323 | Fourteen Down presses take 70 to 0, and a fifteenth leaves it at 0. |
| Tension.TensionControl.constructor | src/index.js:99 | Tension and the line generator's tension both start at 70. |
| Tension.TensionControl.Update | src/index.js:312-334 | Tension becomes `Next(old, key)` and stays in range. Default handling is suppressed exactly for keys 37-40. The line generator receives the new tension exactly on Up and Down. |

## Left out

- SVG construction, attributes, styles and transforms (src/index.js:97-142, 238-250) are drawing code. So are the `defaultColor` fallbacks for strokes, fills and labels.
- `d3.layout.cluster`, `partition`, `bundle` and the radial spline `line` are foreign floating-point layout algorithms. The tree they produce is an input: depths, children, parents, sibling `index` and leaf `x` in degrees.
- `nester.nest` is not modelled. `FormatData` returns the records and the key list it would receive. The nested tree's `index` fields and each leaf's record position are given per node.
- `utils.getColors`, `d3.rgb(...)`, `.darker(0.3)` and `.brighter(0.3)` are foreign colour maths. They are function parameters with no behaviour assumed.
- The conversion of degrees to radians (src/index.js:254, 259) is left out. `ArcSpan` is stated in degrees.
- Floating-point tension is kept in integer hundredths. In JavaScript, 0.7 - 0.05 accumulates rounding error before the clamp.
- DOM and event plumbing is left out: `fs.readFileSync` of the CSS, `MultiAxisZoom`, `tabindex`, the keydown binding, `preventDefault` (reported as a result instead) and `console.log`.
- data/example.js and data/example.py only build sample input. They contain no logic.
- Hierarchy.Leaves: getChildren returns nested arrays, which lodash 3's shallow `_.flatten` flattens by one level. The model returns the leaves fully flattened. The only call site is an arc one level above the leaves, where `ArcLeaves` proves the two agree.
- Hierarchy.FindLeaf: `_.sortBy(leaves, i)[k]` is modelled as a lookup of the leaf carrying record `k`. The two agree when the leaves carry records `0..L-1` once each, which is what formatData's records give. Other numberings are not modelled.
- Hierarchy.WellFormed: a node is a leaf exactly when it has no children, and every leaf sits at the deepest level. d3 removes `children` from leaves, and every inner node of a nested tree has a child. The nester puts every record at the same depth. A leaf above the deepest level would make the colour pass read `children.length` of an undefined value (line 218) and throw; trees like that are not modelled.
- Interaction.Controller.CountFadedLinks: the third pass of clickarc also re-assigns every fade-out to its own value. That changes nothing, so only the count is modelled.
- Interaction.Controller.ClickLink: requires `d` to be a leaf, because labels are drawn only for leaves.
- Shaping.FormatData: `data.level` (line 28) is read and then shadowed, and the node ids themselves are never read; both are left out. Group ids are integers: non-integer JavaScript values and ragged `color` triples are not modelled.
- JavaScript's bitwise `|` on booleans (lines 156, 172, 198, 313, 316) is modelled as `||`, which gives the same truth value.
