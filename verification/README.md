# Sunburst flattener

A Dafny model of the region builder of G2Plot's sunburst layer
(`src/plots/sunburst/layer.ts`). The layer takes a tree that its partition
layout has already positioned. It walks the root's children in pre-order and
emits one renderable region per node that has an `x0` key and whose depth is
within a cutoff. It recurses into every node that has a `children` key,
whether or not that node was emitted. It appends one synthetic region for the
root, then sorts the list ascending by depth. Each region keeps all of its
node's fields and adds a 4-point polygon with the angle and radius roles
swapped: `y = [x0, x1, x1, x0]` and `x = [y1, y1, y0, y0]`. The model also
covers the drilldown flag. `beforeInit` sets it when a configured interaction
has type `drilldown`, and `animation` then switches region animation off.

Modules, one per concept:

- `Wrappers` (`wrappers.dfy`): `Option`, for keys a record may lack.
- `Seqs` (`seqs.dfy`): `FlatMap` and its append and membership lemmas.
- `Hierarchy` (`hierarchy.dfy`): the partitioned `Node`. A node has a depth,
  optional opaque coordinates (`x0, x1, y0, y1`) and the caller's descriptive
  fields. It is `Plain` without a `children` key and `Parent` with one. The
  module also holds `Visits`, the reference pre-order enumeration that tags
  the root's direct children as top-level, and `Size`, the node count.
- `Regions` (`regions.dfy`): `Region` and `ToRegion`, the polygon with the
  roles swapped.
- `Flatten` (`flatten.dfy`): `Cutoff` (`Finite(n)` or `Unbounded` for
  `Infinity`), `EffectiveCutoff` (`level ? level : maxLevel`), and
  `GetAllNodes` exactly as written. Around them sit `Emitted`, the reference
  filter-and-map over `Visits`, and the lemmas that tie the two together.
- `DepthSort` (`depth_sort.dfy`): the ascending depth sort, modelled as a
  stable insertion sort. ECMAScript requires `Array.prototype.sort` to be
  stable since its 2019 edition.
- `SunburstLayer` (`sunburst_layer.dfy`): `GetSunburstData` and the lemmas
  about its output, plus `BeforeInit`, `Animation` and the default `maxLevel`.

Where the code and its evident intent differ, the model follows the code:

- The recursive call at `layer.ts:176` passes no `level`. A supplied `level`
  therefore filters only the root's direct children, and every deeper node is
  judged against `options.maxLevel` (`Flatten.DeeperNodesIgnoreLevel`,
  `Flatten.LevelDoesNotBoundGrandchildren`). The evident intent is a cutoff
  that applies at every depth, but `level` is simply not passed on at line
  176.
- `level ? level : maxLevel` treats a `level` of 0 like no level
  (`Flatten.ZeroLevelMeansNoLevel`). With no truthy level, a `maxLevel`
  below 1 (0 or negative) keeps just the root
  (`SunburstLayer.MaxLevelBelowOneKeepsOnlyRoot`); a truthy `level` replaces
  `maxLevel` for the root's direct children, so `maxLevel` 0 with `level` 2
  still keeps the depth-1 children.
- A node is emitted only when it has an `x0` key, not for every visited node.

## Model

| member | source | states |
|---|---|---|
| `Regions.ToRegion` | src/plots/sunburst/layer.ts:169-173 | The region keeps its node whole, so every field is carried over. Its polygon reads back as the node's own `(x0, x1, y0, y1)`. Its vertices, in (radius, angle) order, run outer-start, outer-end, inner-end, inner-start, so the angle and radius roles are swapped. |
| `Flatten.GetAllNodes` | src/plots/sunburst/layer.ts:165-179 | Every emitted region is the region of its own node, and the walk never emits more regions than there are nodes in the forest. |
| `Flatten.WalkIsFilteredPreOrder` | src/plots/sunburst/layer.ts:165-179 | The walk equals the pre-order enumeration of the forest (each node, then its descendants, then its later siblings), filtered by the cutoff in force at each step and mapped to regions. A call with `level` matches the top-level visits. A recursive call, made without a level, matches the deeper ones. |
| `Flatten.RegionEmittedIff` | src/plots/sunburst/layer.ts:166-168 | A region is emitted iff some step of the walk reached a node that has an `x0` key and lies within that step's cutoff. That cutoff is `level ? level : maxLevel` for the root's direct children and `maxLevel` below them. |
| `Flatten.EmittedIffWithinMaxLevel` | src/plots/sunburst/layer.ts:166-177 | With no truthy level, a positioned node's region is emitted iff the node occurs anywhere in the tree and its own depth is at most `maxLevel`. An excluded ancestor does not hide its descendants. |
| `Flatten.DeeperNodesIgnoreLevel` | src/plots/sunburst/layer.ts:166-176 | The only visits judged against `level` are the root's direct children. A positioned node reached below the top level is emitted whenever its depth is within `maxLevel`, whatever `level` is. A positioned direct child is emitted whenever its depth is within `level ? level : maxLevel`. |
| `Flatten.EffectiveCutoff` | src/plots/sunburst/layer.ts:166 | A truthy level is the cutoff. With no level or a level of 0, `maxLevel` is the cutoff. The walk-level consequences are `Flatten.TruthyLevelBoundsDirectChildren` and `Flatten.ZeroLevelMeansNoLevel`. |
| `Flatten.TruthyLevelBoundsDirectChildren` | src/plots/sunburst/layer.ts:166-168 | With a truthy `level`, every positioned direct child of the root whose depth is within `level` is emitted, whatever `maxLevel` is. |
| `Flatten.ZeroLevelMeansNoLevel` | src/plots/sunburst/layer.ts:166 | A `level` of 0 gives the same walk as no level. |
| `Flatten.LevelDoesNotBoundGrandchildren` | src/plots/sunburst/layer.ts:176 | With `level` 1 and an unbounded `maxLevel`, a depth-2 grandchild is still emitted after its parent. |
| `Flatten.CountUnbounded` | src/plots/sunburst/layer.ts:165-179 | With the cutoff unbounded at every step and every node positioned, the walk emits exactly one region per node. |
| `Flatten.CutoffBelowOneEmitsNothing` | src/plots/sunburst/layer.ts:166-168 | With no truthy level, a `maxLevel` below 1 (0 or negative) and every node at depth 1 or more, the walk emits nothing. |
| `DepthSort.SortByDepth` | src/plots/sunburst/layer.ts:82-84 | The sorted list is a permutation of its input and is non-decreasing in depth. Regions of equal depth keep their input order. |
| `SunburstLayer.Root` | src/plots/sunburst/layer.ts:73 | The root gets depth 0 and nothing else about it changes: same coordinates, fields and children. |
| `SunburstLayer.Unsorted` | src/plots/sunburst/layer.ts:76-81 | Before sorting, the root's region is last and occurs nowhere before it. The full shape of the list is `SunburstLayer.UnsortedIsPreOrderThenRoot`. |
| `SunburstLayer.UnsortedIsPreOrderThenRoot` | src/plots/sunburst/layer.ts:76-81 | Before sorting, the list is the filtered pre-order of the root's descendants followed by the root's region. |
| `SunburstLayer.GetSunburstData` | src/plots/sunburst/layer.ts:72-88 | The output is a permutation of the unsorted list and is ascending in depth. Within each depth the walk order is kept. Every region is its own node's region. |
| `SunburstLayer.OutputMembers` | src/plots/sunburst/layer.ts:76-84 | A region is in the output iff it is the root's region or the walk emitted it. |
| `SunburstLayer.RootRegionOnce` | src/plots/sunburst/layer.ts:76-81 | The root's region occurs exactly once in the output, whatever `level` and `maxLevel` are. |
| `SunburstLayer.ChildlessRootYieldsOneRegion` | src/plots/sunburst/layer.ts:76-81 | A root without children yields exactly one region, its own. |
| `SunburstLayer.CountWithDefaultMaxLevel` | src/plots/sunburst/layer.ts:24 | With the default `maxLevel` of `Infinity`, no finite truthy level and every node positioned, the output length is the number of non-root nodes plus 1. |
| `SunburstLayer.RootRegionFirst` | src/plots/sunburst/layer.ts:73-84 | The root gets depth 0. When every other node has depth 1 or more, the root's region is the only region of depth 0 and comes first. |
| `SunburstLayer.MaxLevelBelowOneKeepsOnlyRoot` | src/plots/sunburst/layer.ts:72-84 | With no truthy level, a `maxLevel` below 1 (0 or negative) and every other node at depth 1 or more, the output is the root's region alone. |
| `SunburstLayer.TwoChildScenario` | src/plots/sunburst/layer.ts:72-88 | A root with two childless positioned children A and B at depth 1, under the default `maxLevel`, yields three regions: the root's, then A's, then B's. |
| `SunburstLayer.EachInteraction` | src/plots/sunburst/layer.ts:60-64 | The loop over the interactions ends with the flag set iff it was set before or some entry has type `drilldown`. |
| `SunburstLayer.BeforeInit` | src/plots/sunburst/layer.ts:57-66 | `isDrilldown` ends up set iff it was already set, or interactions are configured and one of them has type `drilldown`. |
| `SunburstLayer.Animation` | src/plots/sunburst/layer.ts:136-141 | In drilldown mode `animate` becomes `false`. Otherwise the element configuration is unchanged. The rest of the configuration is never touched. |
| `SunburstLayer.DrilldownDisablesAnimation` | src/plots/sunburst/layer.ts:136-141 | Starting from an unset flag, region animation ends up off exactly when a drilldown interaction is configured. Otherwise the element configuration is left as it was. |

## Left out

- The partition layout (`./layout/partition`) is not part of this model. Its output is the given input tree, so the model makes no claim about proportional subdivision or radial bands.
- Coordinate arithmetic: none happens here. `x0, x1, y0, y1` are opaque values of a type parameter, and the model uses no floating point.
- The record is all-or-nothing: a record with `x0` but without `x1`, `y0` or `y1` is not represented.
- `data.depth = 0` (line 73) is modelled as `Root(data)`, a copy of the partitioned root with depth 0. This assumes the partition keeps the root's depth.
- The model requires the root to have coordinates, because the partition always positions the root. A root without `x0` would give a polygon of `undefined` values, which is not modelled.
- The assignments to `options.xField` and `options.yField` (lines 85-86) are framework state and are not modelled.
- Depths are natural numbers and cutoffs are integers or `Infinity`. `NaN` and fractional cutoffs are not modelled. A fractional `maxLevel` gives the same result as its floor, and so does a fractional `level` of 1 or more. A `level` strictly between 0 and 1 is truthy while its floor 0 is falsy, so it is not modelled: `Some(Finite(0))` stands only for a literal 0.
- Region spreading: a node that already has `x` or `y` fields would have them overwritten by the spread. The model keeps the node whole beside the two polygon arrays.
- `interactions` is modelled as an array. `_.each` over a plain object is not modelled.
- `super.beforeInit()` and `super.animation()` are framework code that is not part of this model. So is the case where `animation` runs before `addGeometry` has set `rect`.
- The lifecycle and configuration plumbing is not modelled: `getDefaultOptions` beyond `maxLevel`, `geometryParser`, `processData`, `beforInit`, `coord`, `addGeometry`'s element configuration, `applyInteractions` (it builds objects from an interaction map that is not part of this model) and `registerPlotType`.
- `src/plots/bubble/layer.ts` and `src/plots/line/index.ts` are context only: option defaulting, geometry and label factories, and delegation to a base plot.
- The within-depth order clause of `DepthSort.SortByDepth` and `SunburstLayer.GetSunburstData` assumes an engine that follows ECMAScript 2019 or later. Older engines (V8 before 7.0, for arrays longer than 10) used an unstable sort and may reorder regions of equal depth; that behaviour is not modelled.
- Idempotence holds by construction: every member is a pure function of its inputs.
- Flatten.DeeperNodesIgnoreLevel: proves only that a node within the cutoff is emitted, not the converse. The same node value can be reached both at the top level and deeper, so the exact iff is `Flatten.RegionEmittedIff`.
