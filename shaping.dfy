/** formatData: turns the flat input (node ids, optional group levels, labels
    and colours) into one record per node carrying its index, colour, label
    and one grouping key per level, plus the palette and the per-level ranges. */
module Shaping {
  import opened Wrappers

  /** An `[r, g, b]` triple of the optional `color` input. */
  datatype Rgb = Rgb(r: int, g: int, b: int)

  /** The input object; `None` is a field that is absent. */
  datatype Input = Input(
    nodes: seq<int>,
    group: Option<seq<seq<int>>>,
    labels: Option<seq<string>>,
    color: Option<seq<Rgb>>)

  /** One record `{i, c, l, 0: key, 1: key, ...}`; `keys[j]` is the key at level `j`. */
  datatype Item<C> = Item(i: nat, c: Option<C>, l: Option<string>, keys: seq<Option<int>>)

  /** What formatData leaves behind: the palette, how many colours were asked
      of the palette generator (none when colours were supplied), the
      per-level ranges, the records, and the key list handed to the nester. */
  datatype Shaped<C> = Shaped(
    groupColors: seq<C>,
    paletteRequest: Option<nat>,
    level: seq<seq<int>>,
    items: seq<Item<C>>,
    nestKeys: seq<nat>)

  /** `group[0]` is read unconditionally; an empty `group` array makes
      `group[0].map` throw. */
  datatype ShapeError = NoFirstLevel

  /** The group levels used: the input's, or one level of zeros, one per node. */
  function Groups(data: Input): (g: seq<seq<int>>)
    ensures data.group.None? ==> |g| == 1 && |g[0]| == |data.nodes| && forall v :: v in g[0] ==> v == 0
  {
    if data.group.Some? then data.group.value else [seq(|data.nodes|, _ => 0)]
  }

  /** `_.max`: the largest entry of a non-empty list. */
  function SeqMax(s: seq<int>): (m: int)
    requires |s| > 0
    ensures m in s
    ensures forall v :: v in s ==> v <= m
  {
    if |s| == 1 then s[0]
    else
      var rest := SeqMax(s[1..]);
      assert forall v :: v in s ==> v == s[0] || v in s[1..];
      if s[0] < rest then rest else s[0]
  }

  /** `_.range(_.max(l))` under lodash 3: `0, 1, ..., max - 1`, empty when the
      maximum is not positive or the list is empty (`_.max([])` is -Infinity). */
  function LevelRange(l: seq<int>): (r: seq<int>)
    ensures |l| == 0 ==> r == []
    ensures |l| > 0 ==> |r| == if SeqMax(l) <= 0 then 0 else SeqMax(l)
    ensures forall k :: 0 <= k < |r| ==> r[k] == k
  {
    if |l| == 0 || SeqMax(l) <= 0 then [] else seq(SeqMax(l), k => k)
  }

  /** `list[k]` for a JavaScript array, with undefined out of range. */
  function At<T>(list: seq<T>, k: int): (r: Option<T>)
    ensures r.Some? <==> 0 <= k < |list|
    ensures r.Some? ==> r.value == list[k]
  {
    if 0 <= k < |list| then Some(list[k]) else None
  }

  /** `entry[j] = l[group[j][i]]`: the level-`j` range read at node `i`'s group id. */
  function Key(range: seq<int>, groupLevel: seq<int>, i: nat): Option<int>
  {
    if i < |groupLevel| then At(range, groupLevel[i]) else None
  }

  /** The record built for node `i`. */
  function ItemAt<C>(groupColors: seq<C>, group: seq<seq<int>>, labels: seq<string>,
                     level: seq<seq<int>>, i: nat): Item<C>
    requires |group| > 0 && |level| == |group|
  {
    Item(i,
         if i < |group[0]| then At(groupColors, group[0][i]) else None,
         At(labels, i),
         seq(|level|, j requires 0 <= j < |level| => Key(level[j], group[j], i)))
  }

  /** The number of distinct first-level ids, `_.unique(group[0]).length`. */
  function DistinctCount(firstLevel: seq<int>): nat
  {
    |set v | v in firstLevel|
  }

  /** How many colours are asked of the palette generator: one more than the
      distinct first-level ids, and none when colours are supplied. */
  function PaletteRequest(data: Input, firstLevel: seq<int>): Option<nat>
  {
    if data.color.Some? then None else Some(DistinctCount(firstLevel) + 1)
  }

  /** The palette: the supplied colours converted by `rgb`, or what
      `getColors` returns for the request. */
  function Palette<C>(data: Input, firstLevel: seq<int>, rgb: Rgb -> C, getColors: nat -> seq<C>): seq<C>
  {
    if data.color.Some? then
      seq(|data.color.value|, k requires 0 <= k < |data.color.value| => rgb(data.color.value[k]))
    else getColors(DistinctCount(firstLevel) + 1)
  }

  /** The labels read by the records; an absent `labels` reads as `[]`. */
  function Labels(data: Input): seq<string>
  {
    if data.labels.Some? then data.labels.value else []
  }

  /** One range per group level. */
  function Levels(group: seq<seq<int>>): (level: seq<seq<int>>)
    ensures |level| == |group|
    ensures forall j :: 0 <= j < |group| ==> level[j] == LevelRange(group[j])
  {
    seq(|group|, j requires 0 <= j < |group| => LevelRange(group[j]))
  }

  /** The records of the first `count` nodes. */
  function Items<C>(groupColors: seq<C>, group: seq<seq<int>>, labels: seq<string>,
                    level: seq<seq<int>>, count: nat): (items: seq<Item<C>>)
    requires |group| > 0 && |level| == |group|
    ensures |items| == count
    ensures forall i :: 0 <= i < count ==> items[i] == ItemAt(groupColors, group, labels, level, i)
  {
    seq(count, i requires 0 <= i < count => ItemAt(groupColors, group, labels, level, i))
  }

  /** `_.range(0, n)`. */
  function Indices(n: nat): (r: seq<nat>)
    ensures |r| == n && forall k :: 0 <= k < n ==> r[k] == k
  {
    seq(n, k => k)
  }

  /** The value formatData computes, as a specification. */
  function Shape<C>(data: Input, rgb: Rgb -> C, getColors: nat -> seq<C>): Result<Shaped<C>, ShapeError>
  {
    var group := Groups(data);
    if |group| == 0 then Failure(NoFirstLevel)
    else
      var groupColors := Palette(data, group[0], rgb, getColors);
      var level := Levels(group);
      Success(Shaped(groupColors, PaletteRequest(data, group[0]), level,
                     Items(groupColors, group, Labels(data), level, |data.nodes|),
                     Indices(|group|)))
  }

  /** formatData, with the palette generator and the `d3.rgb` conversion as
      parameters; the nesting of the records by `nestKeys` is not modelled. */
  method FormatData<C>(data: Input, rgb: Rgb -> C, getColors: nat -> seq<C>)
    returns (r: Result<Shaped<C>, ShapeError>)
    ensures r == Shape(data, rgb, getColors)
  {
    var group := Groups(data);
    var labels := Labels(data);
    if |group| == 0 {
      return Failure(NoFirstLevel);
    }
    var groupColors := Palette(data, group[0], rgb, getColors);

    // infer level
    var level: seq<seq<int>> := [];
    for j := 0 to |group|
      invariant |level| == j
      invariant forall j' :: 0 <= j' < j ==> level[j'] == LevelRange(group[j'])
    {
      level := level + [LevelRange(group[j])];
    }

    // build array of items with their grouping attributes
    var items: seq<Item<C>> := [];
    for i := 0 to |data.nodes|
      invariant |items| == i
      invariant forall i' :: 0 <= i' < i ==> items[i'] == ItemAt(groupColors, group, labels, level, i')
    {
      var keys: seq<Option<int>> := [];
      for j := 0 to |level|
        invariant |keys| == j
        invariant forall j' :: 0 <= j' < j ==> keys[j'] == Key(level[j'], group[j'], i)
      {
        keys := keys + [Key(level[j], group[j], i)];
      }
      assert keys == ItemAt(groupColors, group, labels, level, i).keys;
      var c := if i < |group[0]| then At(groupColors, group[0][i]) else None;
      items := items + [Item(i, c, At(labels, i), keys)];
    }

    assert level == Levels(group);
    assert items == Items(groupColors, group, labels, level, |data.nodes|);
    r := Success(Shaped(groupColors, PaletteRequest(data, group[0]), level, items, Indices(|group|)));
  }

  /** The level-`j` key of node `i` is its group id exactly when that id is
      at least 0 and strictly below the level's maximum; otherwise it is
      undefined. */
  lemma KeyIsGroupIdBelowMax<C>(data: Input, rgb: Rgb -> C, getColors: nat -> seq<C>, i: nat, j: nat)
    requires Shape(data, rgb, getColors).Success?
    requires i < |data.nodes| && j < |Groups(data)|
    ensures var s := Shape(data, rgb, getColors).value;
            var gl := Groups(data)[j];
            && i < |s.items| && j < |s.items[i].keys|
            && (s.items[i].keys[j].Some? <==> i < |gl| && 0 <= gl[i] < SeqMax(gl))
            && (s.items[i].keys[j].Some? ==> s.items[i].keys[j].value == gl[i])
  {
  }

  /** The range excludes the maximum: a node in the highest group of a level
      gets an undefined key there. */
  lemma HighestGroupUnkeyed<C>(data: Input, rgb: Rgb -> C, getColors: nat -> seq<C>, i: nat, j: nat)
    requires Shape(data, rgb, getColors).Success?
    requires j < |Groups(data)| && i < |data.nodes| && i < |Groups(data)[j]|
    requires Groups(data)[j][i] == SeqMax(Groups(data)[j])
    ensures Shape(data, rgb, getColors).value.items[i].keys[j] == None
  {
    KeyIsGroupIdBelowMax(data, rgb, getColors, i, j);
  }

  /** One record per node, record `i` at position `i`, coloured with the
      palette entry of its first-level group id, one key per level. */
  lemma ItemsFollowNodes<C>(data: Input, rgb: Rgb -> C, getColors: nat -> seq<C>, i: nat)
    requires Shape(data, rgb, getColors).Success? && i < |data.nodes|
    ensures var s := Shape(data, rgb, getColors).value;
            var g0 := Groups(data)[0];
            && |s.items| == |data.nodes|
            && s.items[i].i == i
            && |s.items[i].keys| == |Groups(data)|
            && (s.items[i].c.Some? <==> i < |g0| && 0 <= g0[i] < |s.groupColors|)
            && (s.items[i].c.Some? ==> s.items[i].c.value == s.groupColors[g0[i]])
            && (data.labels.Some? && i < |data.labels.value| ==> s.items[i].l == Some(data.labels.value[i]))
            && (data.labels.None? ==> s.items[i].l == None)
  {
  }

  /** formatData fails exactly when a `group` array is given with no level in it. */
  lemma FailsOnlyWithoutFirstLevel<C>(data: Input, rgb: Rgb -> C, getColors: nat -> seq<C>)
    ensures Shape(data, rgb, getColors).Failure? <==> data.group == Some([])
  {
  }

  /** Without colours, the palette generator is asked for one colour more than
      there are distinct first-level ids; with colours, the palette is those
      colours, in order, and nothing is asked. */
  lemma PaletteFromColorsOrGenerator<C>(data: Input, rgb: Rgb -> C, getColors: nat -> seq<C>)
    requires Shape(data, rgb, getColors).Success?
    ensures var s := Shape(data, rgb, getColors).value;
            && (data.color.None? ==>
                  && s.paletteRequest == Some(|set v | v in Groups(data)[0]| + 1)
                  && s.groupColors == getColors(|set v | v in Groups(data)[0]| + 1))
            && (data.color.Some? ==>
                  && s.paletteRequest == None
                  && |s.groupColors| == |data.color.value|
                  && forall k :: 0 <= k < |data.color.value| ==> s.groupColors[k] == rgb(data.color.value[k]))
  {
  }

  /** Without a `group` input every node sits in the single level of zeros:
      its key there is undefined (the range of a maximum of 0 is empty), so
      all nodes share one bucket; its colour is the palette's first entry, and
      the palette generator is asked for two colours (one when there are no
      nodes). */
  lemma {:induction false} DefaultGrouping<C>(data: Input, rgb: Rgb -> C, getColors: nat -> seq<C>, i: nat)
    requires data.group.None? && data.color.None? && i < |data.nodes|
    ensures Shape(data, rgb, getColors).Success?
    ensures var s := Shape(data, rgb, getColors).value;
            && s.paletteRequest == Some(2)
            && s.items[i].keys == [None]
            && s.items[i].c == At(getColors(2), 0)
  {
    var g0 := Groups(data)[0];
    assert g0[i] == 0;
    assert (set v | v in g0) == {0} by {
      assert g0[0] in g0;
    }
    assert SeqMax(g0) == 0 by {
      assert SeqMax(g0) in g0;
    }
  }
}
