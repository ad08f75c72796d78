/**
  The partitioned hierarchy the sunburst layer receives from its partition
  layout. The layout itself is not part of this model: its output is taken as
  given, and the coordinates it assigns are opaque values of type `C` that are
  only copied and permuted, never computed with.
 */
module Hierarchy {
  import opened Wrappers

  /** The angular interval `[x0, x1]` and radial band `[y0, y1]` of one node. */
  datatype Coords<C> = Coords(x0: C, x1: C, y0: C, y1: C)

  /**
    A node of the partitioned tree. `coords` is `None` when the record has no
    `x0` key; `fields` stands for every descriptive field the caller attached
    (name, colour key, value, ...). A `Parent` is a record that has a
    `children` key, a `Plain` node one that has not.
   */
  datatype Node<C, F> =
    | Plain(depth: nat, coords: Option<Coords<C>>, fields: F)
    | Parent(depth: nat, coords: Option<Coords<C>>, fields: F, children: seq<Node<C, F>>)

  /** One step of the pre-order walk: the node, and whether it is a direct child of the root. */
  datatype Visit<C, F> = Visit(node: Node<C, F>, top: bool)

  /**
    Reference enumeration of a forest in pre-order: each node, then all of its
    descendants, then its later siblings. `top` tags the visits of `ns` itself;
    every deeper visit is tagged `false`.
   */
  function Visits<C, F>(ns: seq<Node<C, F>>, top: bool): seq<Visit<C, F>>
  {
    if ns == [] then []
    else
      var n := ns[0];
      [Visit(n, top)] + (if n.Parent? then Visits(n.children, false) else []) + Visits(ns[1..], top)
  }

  /** Number of nodes in a forest, counted independently of the walk. */
  function Size<C, F>(ns: seq<Node<C, F>>): nat
  {
    if ns == [] then 0
    else
      var n := ns[0];
      1 + (if n.Parent? then Size(n.children) else 0) + Size(ns[1..])
  }

  /** Number of nodes in the tree rooted at `n`, `n` included. */
  function NodeSize<C, F>(n: Node<C, F>): nat
  {
    1 + (if n.Parent? then Size(n.children) else 0)
  }

  /** The forest the walk starts from: the children of `root`, or nothing when it has no `children` key. */
  function RootChildren<C, F>(root: Node<C, F>): seq<Node<C, F>>
  {
    if root.Parent? then root.children else []
  }

  /** `n` occurs somewhere in the forest `ns`, at any depth. */
  ghost predicate InForest<C, F>(n: Node<C, F>, ns: seq<Node<C, F>>)
  {
    exists v :: v in Visits(ns, true) && v.node == n
  }

  /** Every node of the forest carries an `x0` key (the partition layout positioned it). */
  ghost predicate AllPositioned<C, F>(ns: seq<Node<C, F>>)
  {
    forall v :: v in Visits(ns, true) ==> v.node.coords.Some?
  }

  /** Every node of the forest sits below the root (depth at least 1), as the partition layout assigns. */
  ghost predicate BelowRoot<C, F>(ns: seq<Node<C, F>>)
  {
    forall v :: v in Visits(ns, true) ==> v.node.depth >= 1
  }

  /** Visiting a concatenation of sibling lists visits the first list, then the second. */
  lemma {:induction false} VisitsAppend<C, F>(a: seq<Node<C, F>>, b: seq<Node<C, F>>, top: bool)
    ensures Visits(a + b, top) == Visits(a, top) + Visits(b, top)
  {
    if a == [] {
      assert a + b == b;
    } else {
      assert (a + b)[0] == a[0];
      assert (a + b)[1..] == a[1..] + b;
      VisitsAppend(a[1..], b, top);
    }
  }

  /** The walk visits every node exactly once: its length is the node count. */
  lemma {:induction false} VisitsCount<C, F>(ns: seq<Node<C, F>>, top: bool)
    ensures |Visits(ns, top)| == Size(ns)
  {
    if ns != [] {
      if ns[0].Parent? {
        VisitsCount(ns[0].children, false);
      }
      VisitsCount(ns[1..], top);
    }
  }

  /**
    Every node the walk reaches is no larger than the whole forest, so no node
    strictly below a root can be equal to that root.
   */
  lemma {:induction false} VisitedNoLarger<C, F>(ns: seq<Node<C, F>>, top: bool)
    ensures forall v :: v in Visits(ns, top) ==> NodeSize(v.node) <= Size(ns)
  {
    if ns != [] {
      var n := ns[0];
      var inner := if n.Parent? then Visits(n.children, false) else [];
      if n.Parent? {
        VisitedNoLarger(n.children, false);
      }
      VisitedNoLarger(ns[1..], top);
      forall v | v in Visits(ns, top)
        ensures NodeSize(v.node) <= Size(ns)
      {
        assert Visits(ns, top) == [Visit(n, top)] + inner + Visits(ns[1..], top);
        if v == Visit(n, top) {
        } else if v in inner {
        } else {
          assert v in Visits(ns[1..], top);
        }
      }
    }
  }

  /**
    The visits tagged `top` are exactly the given siblings: each of them is
    visited as a top-level node, and nothing deeper is tagged top-level.
   */
  lemma {:induction false} TopVisitsAreSiblings<C, F>(ns: seq<Node<C, F>>)
    ensures forall i :: 0 <= i < |ns| ==> Visit(ns[i], true) in Visits(ns, true)
    ensures forall v :: v in Visits(ns, true) && v.top ==> v.node in ns
  {
    if ns != [] {
      var n := ns[0];
      var inner := if n.Parent? then Visits(n.children, false) else [];
      TopVisitsAreSiblings(ns[1..]);
      if n.Parent? {
        NoTopBelow(n.children);
      }
      assert Visits(ns, true) == [Visit(n, true)] + inner + Visits(ns[1..], true);
      forall i | 0 <= i < |ns|
        ensures Visit(ns[i], true) in Visits(ns, true)
      {
        if i > 0 {
          assert ns[i] == ns[1..][i - 1];
        }
      }
      forall v | v in Visits(ns, true) && v.top
        ensures v.node in ns
      {
        if v in Visits(ns[1..], true) {
          assert v.node in ns[1..];
        }
      }
    }
  }

  /** A walk started with `top == false` tags nothing as top-level. */
  lemma {:induction false} NoTopBelow<C, F>(ns: seq<Node<C, F>>)
    ensures forall v :: v in Visits(ns, false) ==> !v.top
  {
    if ns != [] {
      if ns[0].Parent? {
        NoTopBelow(ns[0].children);
      }
      NoTopBelow(ns[1..]);
    }
  }
}
