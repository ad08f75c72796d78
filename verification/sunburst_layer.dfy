/**
  The sunburst layer: building the region list from a partitioned tree, and
  the drilldown flag that switches region animation off.
 */
module SunburstLayer {
  import opened Wrappers
  import opened Hierarchy
  import opened Regions
  import opened Flatten
  import opened DepthSort

  /** `maxLevel: Infinity` in the layer's default options. */
  const DefaultMaxLevel: Cutoff := Unbounded

  /** The root as the layer uses it: the partitioned root with its depth set to 0. */
  function Root<C, F>(data: Node<C, F>): (root: Node<C, F>)
    ensures root.depth == 0
    ensures root.(depth := data.depth) == data
    ensures RootChildren(root) == RootChildren(data) && NodeSize(root) == NodeSize(data)
  {
    data.(depth := 0)
  }

  /** The synthetic region for the root, appended after the walk. */
  function RootRegion<C, F>(data: Node<C, F>): Region<C, F>
    requires data.coords.Some?
  {
    ToRegion(Root(data))
  }

  /**
    The region list before sorting: the walk over the root's children, then
    the root's own region, which is the last region and appears only there.
   */
  function Unsorted<C, F>(data: Node<C, F>, level: Option<Cutoff>, maxLevel: Cutoff): (rs: seq<Region<C, F>>)
    requires data.coords.Some?
    ensures |rs| >= 1 && rs[|rs| - 1] == RootRegion(data)
    ensures RootRegion(data) !in rs[..|rs| - 1]
  {
    RootNotWalked(data, level, maxLevel);
    assert (GetAllNodes(RootChildren(data), level, maxLevel) + [RootRegion(data)])[..|GetAllNodes(RootChildren(data), level, maxLevel)|]
        == GetAllNodes(RootChildren(data), level, maxLevel);
    GetAllNodes(RootChildren(data), level, maxLevel) + [RootRegion(data)]
  }

  /**
    Before sorting, the regions are the pre-order enumeration of the root's
    descendants (a parent before its descendants, siblings in input order),
    filtered by the cutoff of each step, followed by the root's region.
   */
  lemma UnsortedIsPreOrderThenRoot<C, F>(data: Node<C, F>, level: Option<Cutoff>, maxLevel: Cutoff)
    requires data.coords.Some?
    ensures Unsorted(data, level, maxLevel) == Emitted(Visits(RootChildren(data), true), level, maxLevel) + [RootRegion(data)]
  {
    WalkIsFilteredPreOrder(RootChildren(data), true, level, maxLevel);
  }

  lemma UnsortedOwnRegions<C, F>(data: Node<C, F>, level: Option<Cutoff>, maxLevel: Cutoff)
    requires data.coords.Some?
    ensures OwnRegions(Unsorted(data, level, maxLevel))
  {
    var walk := GetAllNodes(RootChildren(data), level, maxLevel);
    var rs := walk + [RootRegion(data)];
    forall i | 0 <= i < |rs|
      ensures rs[i].node.coords.Some? && rs[i] == ToRegion(rs[i].node)
    {
      if i < |walk| {
        assert rs[i] == walk[i];
      } else {
        assert rs[i] == RootRegion(data);
      }
    }
  }

  /**
    `getSunburstData(data, level)` with the layer's `maxLevel` option. The
    result is a permutation of the unsorted list, ascending in depth, with
    regions of equal depth kept in walk order; every region is the region of
    its own node, with the polygon's angle and radius roles swapped.
   */
  function GetSunburstData<C, F>(data: Node<C, F>, level: Option<Cutoff>, maxLevel: Cutoff): (out: seq<Region<C, F>>)
    requires data.coords.Some?
    ensures SortedByDepth(out)
    ensures multiset(out) == multiset(Unsorted(data, level, maxLevel))
    ensures forall d :: AtDepth(out, d) == AtDepth(Unsorted(data, level, maxLevel), d)
    ensures OwnRegions(out)
  {
    var rs := Unsorted(data, level, maxLevel);
    var out := SortByDepth(rs);
    UnsortedOwnRegions(data, level, maxLevel);
    PermutationKeepsOwnRegions(rs, out);
    out
  }

  /** Every region is its own node's region. */
  ghost predicate OwnRegions<C, F>(s: seq<Region<C, F>>)
  {
    forall i :: 0 <= i < |s| ==> s[i].node.coords.Some? && s[i] == ToRegion(s[i].node)
  }

  lemma PermutationKeepsOwnRegions<C, F>(rs: seq<Region<C, F>>, out: seq<Region<C, F>>)
    requires OwnRegions(rs)
    requires multiset(out) == multiset(rs)
    ensures OwnRegions(out)
  {
    forall i | 0 <= i < |out|
      ensures out[i].node.coords.Some? && out[i] == ToRegion(out[i].node)
    {
      assert out[i] in multiset(rs);
      var j :| 0 <= j < |rs| && rs[j] == out[i];
    }
  }

  /** The regions in the output are exactly the root's region and the regions the walk emitted. */
  lemma OutputMembers<C, F>(data: Node<C, F>, level: Option<Cutoff>, maxLevel: Cutoff)
    requires data.coords.Some?
    ensures forall r :: r in GetSunburstData(data, level, maxLevel) <==>
      r == RootRegion(data)
      || exists v :: v in Visits(RootChildren(data), true) && Admits(v, level, maxLevel) && r == ToRegion(v.node)
  {
    var out := GetSunburstData(data, level, maxLevel);
    var walk := GetAllNodes(RootChildren(data), level, maxLevel);
    assert Unsorted(data, level, maxLevel) == walk + [RootRegion(data)];
    forall r
      ensures r in out <==> (r == RootRegion(data)
        || exists v :: v in Visits(RootChildren(data), true) && Admits(v, level, maxLevel) && r == ToRegion(v.node))
    {
      SameMember(out, walk + [RootRegion(data)], r);
      RegionEmittedAt(RootChildren(data), level, maxLevel, r);
    }
  }

  /** Two lists with the same multiset have the same members. */
  lemma SameMember<T>(a: seq<T>, b: seq<T>, x: T)
    requires multiset(a) == multiset(b)
    ensures x in a <==> x in b
  {
    assert x in a <==> x in multiset(a);
    assert x in b <==> x in multiset(b);
  }

  /** No region the walk emits is the root's own region: nodes below the root are smaller than it. */
  lemma RootNotWalked<C, F>(data: Node<C, F>, level: Option<Cutoff>, maxLevel: Cutoff)
    requires data.coords.Some?
    ensures RootRegion(data) !in GetAllNodes(RootChildren(data), level, maxLevel)
  {
    var ns := RootChildren(data);
    RegionEmittedIff(ns, level, maxLevel);
    VisitedNoLarger(ns, true);
    assert NodeSize(Root(data)) == NodeSize(data) > Size(ns);
    forall v | v in Visits(ns, true) && Admits(v, level, maxLevel)
      ensures RootRegion(data) != ToRegion(v.node)
    {
      assert v.node != Root(data);
    }
  }

  /** The root's region occurs exactly once in the output, whatever `level` and `maxLevel` are. */
  lemma RootRegionOnce<C, F>(data: Node<C, F>, level: Option<Cutoff>, maxLevel: Cutoff)
    requires data.coords.Some?
    ensures multiset(GetSunburstData(data, level, maxLevel))[RootRegion(data)] == 1
  {
    var walk := GetAllNodes(RootChildren(data), level, maxLevel);
    RootNotWalked(data, level, maxLevel);
    assert multiset(walk)[RootRegion(data)] == 0;
    assert Unsorted(data, level, maxLevel) == walk + [RootRegion(data)];
  }

  /** A root without children yields exactly its own region. */
  lemma ChildlessRootYieldsOneRegion<C, F>(data: Node<C, F>, level: Option<Cutoff>, maxLevel: Cutoff)
    requires data.coords.Some?
    requires RootChildren(data) == []
    ensures GetSunburstData(data, level, maxLevel) == [RootRegion(data)]
  {
    var out := GetSunburstData(data, level, maxLevel);
    assert Unsorted(data, level, maxLevel) == [RootRegion(data)];
    assert |out| == |multiset(out)| == 1;
    assert out[0] in multiset(out);
  }

  /**
    With the default `maxLevel` of `Infinity`, no truthy finite level and
    every node positioned, the output has one region per node below the root
    plus the root's own.
   */
  lemma CountWithDefaultMaxLevel<C, F>(data: Node<C, F>, level: Option<Cutoff>)
    requires data.coords.Some?
    requires EffectiveCutoff(level, DefaultMaxLevel) == Unbounded
    requires AllPositioned(RootChildren(data))
    ensures |GetSunburstData(data, level, DefaultMaxLevel)| == Size(RootChildren(data)) + 1
  {
    CountUnbounded(RootChildren(data), level);
    var out := GetSunburstData(data, level, DefaultMaxLevel);
    assert |out| == |multiset(out)| == |multiset(Unsorted(data, level, DefaultMaxLevel))|;
  }

  /**
    When every node below the root has depth at least 1, the root's region is
    the only region of depth 0 and comes first in the output.
   */
  lemma RootRegionFirst<C, F>(data: Node<C, F>, level: Option<Cutoff>, maxLevel: Cutoff)
    requires data.coords.Some?
    requires BelowRoot(RootChildren(data))
    ensures AtDepth(GetSunburstData(data, level, maxLevel), 0) == [RootRegion(data)]
    ensures |GetSunburstData(data, level, maxLevel)| > 0
    ensures GetSunburstData(data, level, maxLevel)[0] == RootRegion(data)
  {
    var out := GetSunburstData(data, level, maxLevel);
    var walk := GetAllNodes(RootChildren(data), level, maxLevel);
    WalkBelowRoot(RootChildren(data), level, maxLevel);
    WalkAtDepthZero(walk);
    AtDepthAppend(walk, [RootRegion(data)], 0);
    assert AtDepth([RootRegion(data)], 0) == [RootRegion(data)] by {
      assert [RootRegion(data)][1..] == [];
    }
    assert Unsorted(data, level, maxLevel) == walk + [RootRegion(data)];
    AtDepthZeroFirst(out);
  }

  /** When every node below the root has depth at least 1, so does every region the walk emits. */
  lemma WalkBelowRoot<C, F>(ns: seq<Node<C, F>>, level: Option<Cutoff>, maxLevel: Cutoff)
    requires BelowRoot(ns)
    ensures forall r :: r in GetAllNodes(ns, level, maxLevel) ==> DepthOf(r) >= 1
  {
    forall r | r in GetAllNodes(ns, level, maxLevel)
      ensures DepthOf(r) >= 1
    {
      EmittedWasVisited(ns, level, maxLevel, r);
    }
  }

  /**
    A `maxLevel` below 1 with no truthy level keeps only the root's region, when
    every node below the root has depth at least 1.
   */
  lemma MaxLevelBelowOneKeepsOnlyRoot<C, F>(data: Node<C, F>, level: Option<Cutoff>, bound: int)
    requires data.coords.Some?
    requires !Truthy(level)
    requires BelowRoot(RootChildren(data))
    requires bound < 1
    ensures GetSunburstData(data, level, Finite(bound)) == [RootRegion(data)]
  {
    CutoffBelowOneEmitsNothing(RootChildren(data), level, bound);
    var out := GetSunburstData(data, level, Finite(bound));
    assert Unsorted(data, level, Finite(bound)) == [RootRegion(data)];
    assert |out| == |multiset(out)| == 1;
    assert out[0] in multiset(out);
  }

  /** One entry of the `interactions` option; `kind` is its `type`, absent when unset. */
  datatype Interaction = Interaction(kind: Option<string>)

  predicate IsDrilldown(i: Interaction)
  {
    i.kind == Some("drilldown")
  }

  /** The loop over the configured interactions: it sets the flag on each drilldown entry and never clears it. */
  function EachInteraction(flag: bool, s: seq<Interaction>): (r: bool)
    decreases s  // the inferred default, `flag, s`, does not decrease when `flag` flips to true
    ensures r <==> flag || exists i :: 0 <= i < |s| && IsDrilldown(s[i])
  {
    if s == [] then flag
    else
      assert forall i :: 0 < i < |s| ==> s[i] == s[1..][i - 1];
      EachInteraction(if IsDrilldown(s[0]) then true else flag, s[1..])
  }

  /**
    `beforeInit`: the layer's `isDrilldown` flag afterwards is set exactly when
    it was set before or some configured interaction has type `drilldown`.
   */
  function BeforeInit(isDrilldown: bool, interactions: Option<seq<Interaction>>): (flag: bool)
    ensures flag <==> (isDrilldown
      || (interactions.Some? && exists i :: 0 <= i < |interactions.value| && IsDrilldown(interactions.value[i])))
  {
    if interactions.Some? then EachInteraction(isDrilldown, interactions.value) else isDrilldown
  }

  /** The element configuration; `animate` is absent until set, `rest` is everything else in it. */
  datatype ElementConfig<E> = ElementConfig(animate: Option<bool>, rest: E)

  /** `animation`: in drilldown mode region animation is turned off; otherwise nothing changes. */
  function Animation<E>(isDrilldown: bool, rect: ElementConfig<E>): (r: ElementConfig<E>)
    ensures r.rest == rect.rest
    ensures isDrilldown ==> r.animate == Some(false)
    ensures !isDrilldown ==> r == rect
  {
    if isDrilldown then rect.(animate := Some(false)) else rect
  }

  /**
    Starting from an unset flag, region animation ends up off exactly when a
    drilldown interaction is configured; otherwise the element configuration
    is left as it was.
   */
  lemma DrilldownDisablesAnimation<E>(interactions: Option<seq<Interaction>>, rect: ElementConfig<E>)
    ensures var configured := interactions.Some? && exists i :: 0 <= i < |interactions.value| && IsDrilldown(interactions.value[i]);
      (configured ==> Animation(BeforeInit(false, interactions), rect).animate == Some(false))
      && (!configured ==> Animation(BeforeInit(false, interactions), rect) == rect)
  {
  }

  /**
    A root with two positioned children A and B of depth 1 and no
    grandchildren, flattened with the default `maxLevel`: three regions, the
    root's first, then A and B in input order.
   */
  lemma TwoChildScenario<C, F>(root: Node<C, F>, a: Node<C, F>, b: Node<C, F>)
    requires root.Parent? && root.children == [a, b] && root.coords.Some?
    requires a.Plain? && b.Plain? && a.coords.Some? && b.coords.Some?
    requires a.depth == 1 && b.depth == 1
    ensures GetSunburstData(root, None, DefaultMaxLevel) == [RootRegion(root), ToRegion(a), ToRegion(b)]
  {
    ScenarioWalk(a, b);
    assert RootChildren(root) == [a, b];
    assert GetAllNodes(RootChildren(root), None, DefaultMaxLevel) == [ToRegion(a), ToRegion(b)];
    assert Unsorted(root, None, DefaultMaxLevel) == [ToRegion(a), ToRegion(b), RootRegion(root)];
    ScenarioSort(ToRegion(a), ToRegion(b), RootRegion(root));
  }

  lemma ScenarioWalk<C, F>(a: Node<C, F>, b: Node<C, F>)
    requires a.Plain? && b.Plain? && a.coords.Some? && b.coords.Some?
    ensures GetAllNodes([a, b], None, Unbounded) == [ToRegion(a), ToRegion(b)]
  {
    assert [a, b][1..] == [b] && [b][1..] == [];
    assert GetAllNodes([b], None, Unbounded) == [ToRegion(b)];
  }

  lemma ScenarioSort<C, F>(ra: Region<C, F>, rb: Region<C, F>, rr: Region<C, F>)
    requires DepthOf(ra) == 1 && DepthOf(rb) == 1 && DepthOf(rr) == 0
    ensures SortByDepth([ra, rb, rr]) == [rr, ra, rb]
  {
    ScenarioSortTail(rb, rr);
    assert [ra, rb, rr][1..] == [rb, rr];
    assert [rr, rb][1..] == [rb] && [rb][1..] == [];
    assert Insert(ra, [rb]) == [ra, rb];
    assert Insert(ra, [rr, rb]) == [rr, ra, rb];
  }

  lemma ScenarioSortTail<C, F>(rb: Region<C, F>, rr: Region<C, F>)
    requires DepthOf(rb) == 1 && DepthOf(rr) == 0
    ensures SortByDepth([rb, rr]) == [rr, rb]
  {
    assert [rb, rr][1..] == [rr] && [rr][1..] == [];
    assert SortByDepth([rr]) == Insert(rr, []) == [rr];
    assert Insert(rb, [rr]) == [rr, rb];
  }
}
