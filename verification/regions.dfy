/**
  A renderable region: a node of the hierarchy with every one of its fields
  kept, plus a closed 4-point polygon in which the angle and radius roles are
  swapped, so that the polar coordinate stage downstream reads the radial band
  from `x` and the angular interval from `y`.
 */
module Regions {
  import opened Wrappers
  import opened Hierarchy

  /** `node` is the record the region was spread from; `y` and `x` are the added polygon arrays. */
  datatype Region<C, F> = Region(node: Node<C, F>, y: seq<C>, x: seq<C>)

  /** The interval and band read back from a region's polygon. */
  function Bounds<C, F>(r: Region<C, F>): Coords<C>
    requires |r.y| == 4 && |r.x| == 4
  {
    Coords(r.y[0], r.y[1], r.x[2], r.x[0])
  }

  /** The polygon's vertices as (x, y) points, in drawing order. */
  function Vertices<C, F>(r: Region<C, F>): seq<(C, C)>
    requires |r.y| == 4 && |r.x| == 4
  {
    [(r.x[0], r.y[0]), (r.x[1], r.y[1]), (r.x[2], r.y[2]), (r.x[3], r.y[3])]
  }

  /**
    The region for a positioned node: all of the node's fields are kept, the
    polygon's bounds read back as the node's own coordinates, and its vertices
    run outer-start, outer-end, inner-end, inner-start in (radius, angle) order.
   */
  function ToRegion<C, F>(n: Node<C, F>): (r: Region<C, F>)
    requires n.coords.Some?
    ensures r.node == n
    ensures |r.y| == 4 && |r.x| == 4
    ensures Bounds(r) == n.coords.value
    ensures var c := n.coords.value;
      Vertices(r) == [(c.y1, c.x0), (c.y1, c.x1), (c.y0, c.x1), (c.y0, c.x0)]
  {
    var c := n.coords.value;
    Region(n, [c.x0, c.x1, c.x1, c.x0], [c.y1, c.y1, c.y0, c.y0])
  }
}
