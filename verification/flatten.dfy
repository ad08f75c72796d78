/**
  The flattener of the sunburst layer: the pre-order walk over the root's
  children that emits one region per positioned node within the depth cutoff,
  modelled as the code computes the cutoff.
 */
module Flatten {
  import opened Wrappers
  import opened Hierarchy
  import opened Regions
  import opened Seqs

  /** A depth cutoff: a number, or `Infinity`. */
  datatype Cutoff = Finite(bound: int) | Unbounded

  /** `depth <= max`, with every depth below `Infinity`. */
  predicate Within(depth: nat, max: Cutoff)
  {
    max.Unbounded? || depth <= max.bound
  }

  /** A `level` argument is truthy when it is supplied and not 0. */
  predicate Truthy(level: Option<Cutoff>)
  {
    level.Some? && level.value != Finite(0)
  }

  /** `level ? level : maxLevel`: the cutoff one call of the walk tests its siblings against. */
  function EffectiveCutoff(level: Option<Cutoff>, maxLevel: Cutoff): (max: Cutoff)
    ensures max == maxLevel || Some(max) == level
    ensures Truthy(level) ==> max == level.value
    ensures level.None? || level == Some(Finite(0)) ==> max == maxLevel
  {
    if Truthy(level) then level.value else maxLevel
  }

  /** A node is emitted when it has an `x0` key and its depth is within the cutoff. */
  predicate Emits<C, F>(n: Node<C, F>, max: Cutoff)
  {
    n.coords.Some? && Within(n.depth, max)
  }

  /**
    The walk over one sibling list. Each node is emitted (or not) against the
    cutoff of this call; then, whenever it has a `children` key, the walk
    recurses into them with no level, so that every deeper node is judged
    against `maxLevel` alone. Every region is its node's own region, and there
    are never more regions than nodes.
   */
  function GetAllNodes<C, F>(ns: seq<Node<C, F>>, level: Option<Cutoff>, maxLevel: Cutoff): (rs: seq<Region<C, F>>)
    ensures |rs| <= Size(ns)
    ensures forall i :: 0 <= i < |rs| ==> rs[i].node.coords.Some? && rs[i] == ToRegion(rs[i].node)
  {
    if ns == [] then []
    else
      var d := ns[0];
      var max := EffectiveCutoff(level, maxLevel);
      (if Emits(d, max) then [ToRegion(d)] else [])
      + (if d.Parent? then GetAllNodes(d.children, None, maxLevel) else [])
      + GetAllNodes(ns[1..], level, maxLevel)
  }

  /**
    The cutoff a visit is judged against: the top-level cutoff for the root's
    direct children, `maxLevel` for everything deeper.
   */
  predicate Admits<C, F>(v: Visit<C, F>, level: Option<Cutoff>, maxLevel: Cutoff)
  {
    Emits(v.node, if v.top then EffectiveCutoff(level, maxLevel) else maxLevel)
  }

  /** What the reference keeps of one visit: its node's region when admitted, nothing otherwise. */
  function Keep<C, F>(v: Visit<C, F>, level: Option<Cutoff>, maxLevel: Cutoff): seq<Region<C, F>>
  {
    if Admits(v, level, maxLevel) then [ToRegion(v.node)] else []
  }

  /** Reference filter-and-map: the regions of the admitted visits, in walk order. */
  function Emitted<C, F>(vs: seq<Visit<C, F>>, level: Option<Cutoff>, maxLevel: Cutoff): seq<Region<C, F>>
  {
    FlatMap((v: Visit<C, F>) => Keep(v, level, maxLevel), vs)
  }

  lemma EmittedAppend<C, F>(a: seq<Visit<C, F>>, b: seq<Visit<C, F>>, level: Option<Cutoff>, maxLevel: Cutoff)
    ensures Emitted(a + b, level, maxLevel) == Emitted(a, level, maxLevel) + Emitted(b, level, maxLevel)
  {
    FlatMapAppend((v: Visit<C, F>) => Keep(v, level, maxLevel), a, b);
  }

  /** A region is in the reference list exactly when it is the region of some admitted visit. */
  lemma EmittedMembers<C, F>(vs: seq<Visit<C, F>>, level: Option<Cutoff>, maxLevel: Cutoff, r: Region<C, F>)
    ensures r in Emitted(vs, level, maxLevel) <==>
      exists v :: v in vs && Admits(v, level, maxLevel) && r == ToRegion(v.node)
  {
    var f := (v: Visit<C, F>) => Keep(v, level, maxLevel);
    FlatMapMembers(f, vs, r);
    if exists v :: v in vs && Admits(v, level, maxLevel) && r == ToRegion(v.node) {
      var v :| v in vs && Admits(v, level, maxLevel) && r == ToRegion(v.node);
      assert r in f(v);
    }
  }

  /** When every visit is admitted, the reference keeps them all. */
  lemma EmittedAll<C, F>(vs: seq<Visit<C, F>>, level: Option<Cutoff>, maxLevel: Cutoff)
    requires forall v :: v in vs ==> Admits(v, level, maxLevel)
    ensures |Emitted(vs, level, maxLevel)| == |vs|
  {
    FlatMapSingletons((v: Visit<C, F>) => Keep(v, level, maxLevel), vs);
  }

  /** When no visit is admitted, the reference keeps nothing. */
  lemma EmittedNone<C, F>(vs: seq<Visit<C, F>>, level: Option<Cutoff>, maxLevel: Cutoff)
    requires forall v :: v in vs ==> !Admits(v, level, maxLevel)
    ensures Emitted(vs, level, maxLevel) == []
  {
    FlatMapEmpty((v: Visit<C, F>) => Keep(v, level, maxLevel), vs);
  }

  /**
    The walk is the reference pre-order enumeration, filtered by the cutoff in
    force for each visit, mapped to regions. A walk over `ns` called with
    `level` corresponds to visits tagged top-level; one called without a level
    (a recursive call) to visits tagged deeper.
   */
  lemma {:induction false} WalkIsFilteredPreOrder<C, F>(ns: seq<Node<C, F>>, top: bool, level: Option<Cutoff>, maxLevel: Cutoff)
    ensures GetAllNodes(ns, if top then level else None, maxLevel)
         == Emitted(Visits(ns, top), level, maxLevel)
  {
    if ns != [] {
      var d := ns[0];
      var lv := if top then level else None;
      var max := EffectiveCutoff(lv, maxLevel);
      var head := [Visit(d, top)];
      var inner := if d.Parent? then Visits(d.children, false) else [];
      var rest := Visits(ns[1..], top);
      var e := if Emits(d, max) then [ToRegion(d)] else [];
      var c := if d.Parent? then GetAllNodes(d.children, None, maxLevel) else [];
      var t := GetAllNodes(ns[1..], lv, maxLevel);
      assert GetAllNodes(ns, lv, maxLevel) == e + c + t;
      assert Visits(ns, top) == head + inner + rest;
      EmittedAppend(head + inner, rest, level, maxLevel);
      EmittedAppend(head, inner, level, maxLevel);
      assert Emitted(head, level, maxLevel) == e by {
        assert head[1..] == [];
        assert Emitted(head, level, maxLevel) == Keep(Visit(d, top), level, maxLevel) + Emitted([], level, maxLevel);
        assert max == (if top then EffectiveCutoff(level, maxLevel) else maxLevel);
      }
      if d.Parent? {
        WalkIsFilteredPreOrder(d.children, false, level, maxLevel);
      }
      assert c == Emitted(inner, level, maxLevel);
      WalkIsFilteredPreOrder(ns[1..], top, level, maxLevel);
    }
  }

  /**
    A region is emitted exactly when some step of the pre-order walk reached a
    node that has an `x0` key and is within the cutoff of that step: the
    root's direct children are judged against `level ? level : maxLevel`,
    every deeper node against `maxLevel`.
   */
  lemma RegionEmittedIff<C, F>(ns: seq<Node<C, F>>, level: Option<Cutoff>, maxLevel: Cutoff)
    ensures forall r :: r in GetAllNodes(ns, level, maxLevel) <==>
      exists v :: v in Visits(ns, true) && Admits(v, level, maxLevel) && r == ToRegion(v.node)
  {
    forall r
      ensures r in GetAllNodes(ns, level, maxLevel) <==>
        exists v :: v in Visits(ns, true) && Admits(v, level, maxLevel) && r == ToRegion(v.node)
    {
      RegionEmittedAt(ns, level, maxLevel, r);
    }
  }

  /** `RegionEmittedIff` for one region. */
  lemma RegionEmittedAt<C, F>(ns: seq<Node<C, F>>, level: Option<Cutoff>, maxLevel: Cutoff, r: Region<C, F>)
    ensures r in GetAllNodes(ns, level, maxLevel) <==>
      exists v :: v in Visits(ns, true) && Admits(v, level, maxLevel) && r == ToRegion(v.node)
  {
    WalkIsFilteredPreOrder(ns, true, level, maxLevel);
    EmittedMembers(Visits(ns, true), level, maxLevel, r);
  }

  /** An emitted region is the region of some node the walk reached. */
  lemma EmittedWasVisited<C, F>(ns: seq<Node<C, F>>, level: Option<Cutoff>, maxLevel: Cutoff, r: Region<C, F>)
    requires r in GetAllNodes(ns, level, maxLevel)
    ensures r.node.coords.Some? && r == ToRegion(r.node)
    ensures exists v :: v in Visits(ns, true) && Admits(v, level, maxLevel) && v.node == r.node
  {
    WalkIsFilteredPreOrder(ns, true, level, maxLevel);
    EmittedMembers(Visits(ns, true), level, maxLevel, r);
    var v :| v in Visits(ns, true) && Admits(v, level, maxLevel) && r == ToRegion(v.node);
  }

  /**
    With no truthy level, the cutoff does not prune the walk: a positioned
    node's region is emitted iff the node occurs anywhere in the forest and
    its own depth is within `maxLevel`, whatever its ancestors' depths or
    positions.
   */
  lemma EmittedIffWithinMaxLevel<C, F>(ns: seq<Node<C, F>>, level: Option<Cutoff>, maxLevel: Cutoff)
    requires !Truthy(level)
    ensures forall n: Node<C, F> :: n.coords.Some? ==>
      (ToRegion(n) in GetAllNodes(ns, level, maxLevel) <==> InForest(n, ns) && Within(n.depth, maxLevel))
  {
    forall n: Node<C, F> | n.coords.Some?
      ensures ToRegion(n) in GetAllNodes(ns, level, maxLevel) <==> InForest(n, ns) && Within(n.depth, maxLevel)
    {
      RegionEmittedAt(ns, level, maxLevel, ToRegion(n));
      if ToRegion(n) in GetAllNodes(ns, level, maxLevel) {
        var v :| v in Visits(ns, true) && Admits(v, level, maxLevel) && ToRegion(n) == ToRegion(v.node);
        assert v.node == n;
      }
      if InForest(n, ns) && Within(n.depth, maxLevel) {
        var v :| v in Visits(ns, true) && v.node == n;
        assert Admits(v, level, maxLevel);
      }
    }
  }

  /**
    A truthy level filters only the root's direct children: the visits the
    walk judges against `level` are exactly the nodes of `ns`; a positioned
    node the walk reaches below the top level is emitted whenever its depth
    is within `maxLevel`, whatever `level` is; and a positioned direct child
    is emitted whenever its depth is within `level ? level : maxLevel`.
   */
  lemma DeeperNodesIgnoreLevel<C, F>(ns: seq<Node<C, F>>, level: Option<Cutoff>, maxLevel: Cutoff)
    ensures forall v :: v in Visits(ns, true) && v.top ==> v.node in ns
    ensures forall n: Node<C, F> :: n.coords.Some? && Visit(n, false) in Visits(ns, true) && Within(n.depth, maxLevel) ==>
      ToRegion(n) in GetAllNodes(ns, level, maxLevel)
    ensures forall i :: 0 <= i < |ns| && ns[i].coords.Some? && Within(ns[i].depth, EffectiveCutoff(level, maxLevel)) ==>
      ToRegion(ns[i]) in GetAllNodes(ns, level, maxLevel)
  {
    TopVisitsAreSiblings(ns);
    forall n: Node<C, F> | n.coords.Some? && Visit(n, false) in Visits(ns, true) && Within(n.depth, maxLevel)
      ensures ToRegion(n) in GetAllNodes(ns, level, maxLevel)
    {
      RegionEmittedAt(ns, level, maxLevel, ToRegion(n));
      assert Admits(Visit(n, false), level, maxLevel);
    }
    forall i | 0 <= i < |ns| && ns[i].coords.Some? && Within(ns[i].depth, EffectiveCutoff(level, maxLevel))
      ensures ToRegion(ns[i]) in GetAllNodes(ns, level, maxLevel)
    {
      RegionEmittedAt(ns, level, maxLevel, ToRegion(ns[i]));
      assert Visit(ns[i], true) in Visits(ns, true);
      assert Admits(Visit(ns[i], true), level, maxLevel);
    }
  }

  /**
    A truthy `level` is the cutoff of the top-level call, in place of
    `maxLevel`: every positioned direct child within `level` is emitted, even
    when `maxLevel` would exclude it.
   */
  lemma TruthyLevelBoundsDirectChildren<C, F>(ns: seq<Node<C, F>>, level: Option<Cutoff>, maxLevel: Cutoff)
    requires Truthy(level)
    ensures forall i :: 0 <= i < |ns| && ns[i].coords.Some? && Within(ns[i].depth, level.value) ==>
      ToRegion(ns[i]) in GetAllNodes(ns, level, maxLevel)
  {
    DeeperNodesIgnoreLevel(ns, level, maxLevel);
  }

  /**
    With the cutoff unbounded for every step and every node positioned, the
    walk emits exactly one region per node.
   */
  lemma CountUnbounded<C, F>(ns: seq<Node<C, F>>, level: Option<Cutoff>)
    requires EffectiveCutoff(level, Unbounded) == Unbounded
    requires AllPositioned(ns)
    ensures |GetAllNodes(ns, level, Unbounded)| == Size(ns)
  {
    WalkIsFilteredPreOrder(ns, true, level, Unbounded);
    EmittedAll(Visits(ns, true), level, Unbounded);
    VisitsCount(ns, true);
  }

  /** With depths all below the root and a falsy level, a cutoff below 1 (0 or negative) emits nothing. */
  lemma CutoffBelowOneEmitsNothing<C, F>(ns: seq<Node<C, F>>, level: Option<Cutoff>, bound: int)
    requires !Truthy(level)
    requires BelowRoot(ns)
    requires bound < 1
    ensures GetAllNodes(ns, level, Finite(bound)) == []
  {
    var vs := Visits(ns, true);
    WalkIsFilteredPreOrder(ns, true, level, Finite(bound));
    forall v | v in vs
      ensures !Admits(v, level, Finite(bound))
    {
      assert v.node.depth >= 1;
    }
    EmittedNone(vs, level, Finite(bound));
  }

  /** A `level` of 0 is falsy, so the walk behaves exactly as with no level. */
  lemma {:induction false} ZeroLevelMeansNoLevel<C, F>(ns: seq<Node<C, F>>, maxLevel: Cutoff)
    ensures GetAllNodes(ns, Some(Finite(0)), maxLevel) == GetAllNodes(ns, None, maxLevel)
  {
    if ns != [] {
      ZeroLevelMeansNoLevel(ns[1..], maxLevel);
    }
  }

  /**
    The recursive call passes no level: with `level` 1 and the default
    unbounded `maxLevel`, a depth-2 grandchild of the root is still emitted.
   */
  lemma LevelDoesNotBoundGrandchildren()
    ensures var g := Plain(2, Some(Coords(0, 1, 2, 3)), "grandchild");
      var c := Parent(1, Some(Coords(0, 1, 1, 2)), "child", [g]);
      GetAllNodes([c], Some(Finite(1)), Unbounded) == [ToRegion(c), ToRegion(g)]
  {
    var g := Plain(2, Some(Coords(0, 1, 2, 3)), "grandchild");
    var c := Parent(1, Some(Coords(0, 1, 1, 2)), "child", [g]);
    assert [c][1..] == [] && [g][1..] == [];
    assert GetAllNodes([g], None, Unbounded) == [ToRegion(g)];
  }
}
