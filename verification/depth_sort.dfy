/**
  `sunBurstData.sort((a, b) => a.depth - b.depth)`: an ascending sort by
  depth. Since ECMAScript 2019 the standard requires `Array.prototype.sort`
  to be stable, so regions of equal depth keep their relative order; it is
  modelled as a functional insertion sort.
 */
module DepthSort {
  import opened Hierarchy
  import opened Regions

  function DepthOf<C, F>(r: Region<C, F>): nat
  {
    r.node.depth
  }

  ghost predicate SortedByDepth<C, F>(s: seq<Region<C, F>>)
  {
    forall i, j :: 0 <= i < j < |s| ==> DepthOf(s[i]) <= DepthOf(s[j])
  }

  /** The regions of depth `d`, in order. */
  function AtDepth<C, F>(s: seq<Region<C, F>>, d: nat): seq<Region<C, F>>
  {
    if s == [] then []
    else (if DepthOf(s[0]) == d then [s[0]] else []) + AtDepth(s[1..], d)
  }

  /** Inserts `r` into a depth-sorted list before the first region that is not shallower than it. */
  function Insert<C, F>(r: Region<C, F>, s: seq<Region<C, F>>): seq<Region<C, F>>
  {
    if s == [] || DepthOf(r) <= DepthOf(s[0]) then [r] + s
    else [s[0]] + Insert(r, s[1..])
  }

  /** Insertion adds `r` and nothing else. */
  lemma {:induction false} InsertPermutes<C, F>(r: Region<C, F>, s: seq<Region<C, F>>)
    ensures multiset(Insert(r, s)) == multiset(s) + multiset{r}
  {
    if s != [] && DepthOf(r) > DepthOf(s[0]) {
      InsertPermutes(r, s[1..]);
      assert s == [s[0]] + s[1..];
    }
  }

  /** Every region of the insertion result is `r` or came from the list. */
  lemma {:induction false} InsertMembers<C, F>(r: Region<C, F>, s: seq<Region<C, F>>)
    ensures forall x :: x in Insert(r, s) ==> x == r || x in s
  {
    if s != [] && DepthOf(r) > DepthOf(s[0]) {
      InsertMembers(r, s[1..]);
    }
  }

  /** Inserting into a sorted list keeps it sorted. */
  lemma {:induction false} InsertSorted<C, F>(r: Region<C, F>, s: seq<Region<C, F>>)
    requires SortedByDepth(s)
    ensures SortedByDepth(Insert(r, s))
  {
    if s != [] && DepthOf(r) > DepthOf(s[0]) {
      var h := s[0];
      var u := Insert(r, s[1..]);
      InsertSorted(r, s[1..]);
      InsertMembers(r, s[1..]);
      assert forall k :: 0 <= k < |u| ==> DepthOf(h) <= DepthOf(u[k]) by {
        forall k | 0 <= k < |u|
          ensures DepthOf(h) <= DepthOf(u[k])
        {
          assert u[k] in u;
          if u[k] != r {
            var j :| 0 <= j < |s[1..]| && s[1..][j] == u[k];
            assert s[j + 1] == u[k];
          }
        }
      }
      SortedCons(h, u);
    }
  }

  /** A sorted list stays sorted under a head no deeper than any of its regions. */
  lemma SortedCons<C, F>(h: Region<C, F>, u: seq<Region<C, F>>)
    requires SortedByDepth(u)
    requires forall k :: 0 <= k < |u| ==> DepthOf(h) <= DepthOf(u[k])
    ensures SortedByDepth([h] + u)
  {
    var t := [h] + u;
    forall i, j | 0 <= i < j < |t|
      ensures DepthOf(t[i]) <= DepthOf(t[j])
    {
      assert t[j] == u[j - 1];
      if i > 0 {
        assert t[i] == u[i - 1];
      }
    }
  }

  /** Insertion places `r` ahead of every region of its own depth and leaves the other depths alone. */
  lemma {:induction false} InsertStable<C, F>(r: Region<C, F>, s: seq<Region<C, F>>, d: nat)
    ensures AtDepth(Insert(r, s), d) == (if DepthOf(r) == d then [r] else []) + AtDepth(s, d)
  {
    var hr := if DepthOf(r) == d then [r] else [];
    if s == [] || DepthOf(r) <= DepthOf(s[0]) {
      var t := [r] + s;
      assert t[0] == r && t[1..] == s;
      assert AtDepth(t, d) == hr + AtDepth(s, d);
    } else {
      var u := Insert(r, s[1..]);
      var t := [s[0]] + u;
      var hs := if DepthOf(s[0]) == d then [s[0]] else [];
      assert t[0] == s[0] && t[1..] == u;
      InsertStable(r, s[1..], d);
      assert AtDepth(t, d) == hs + (hr + AtDepth(s[1..], d));
      assert hs == [] || hr == [];
      assert AtDepth(s, d) == hs + AtDepth(s[1..], d);
      assert hs + (hr + AtDepth(s[1..], d)) == hr + (hs + AtDepth(s[1..], d));
    }
  }

  /**
    The regions sorted ascending by depth: a permutation of the input that is
    non-decreasing in depth and keeps regions of equal depth in their input
    order.
   */
  function SortByDepth<C, F>(s: seq<Region<C, F>>): (t: seq<Region<C, F>>)
    ensures SortedByDepth(t)
    ensures multiset(t) == multiset(s)
    ensures |t| == |s|
    ensures forall d :: AtDepth(t, d) == AtDepth(s, d)
  {
    if s == [] then []
    else
      var u := SortByDepth(s[1..]);
      InsertSorted(s[0], u);
      InsertPermutes(s[0], u);
      assert s == [s[0]] + s[1..];
      assert forall d :: AtDepth(Insert(s[0], u), d) == AtDepth(s, d) by {
        forall d: nat
          ensures AtDepth(Insert(s[0], u), d) == AtDepth(s, d)
        {
          InsertStable(s[0], u, d);
        }
      }
      Insert(s[0], u)
  }

  /** Regions all of depth at least 1 have none of depth 0. */
  lemma {:induction false} WalkAtDepthZero<C, F>(s: seq<Region<C, F>>)
    requires forall r :: r in s ==> DepthOf(r) >= 1
    ensures AtDepth(s, 0) == []
  {
    if s != [] {
      assert s[0] in s;
      WalkAtDepthZero(s[1..]);
    }
  }

  lemma {:induction false} AtDepthAppend<C, F>(a: seq<Region<C, F>>, b: seq<Region<C, F>>, d: nat)
    ensures AtDepth(a + b, d) == AtDepth(a, d) + AtDepth(b, d)
  {
    if a == [] {
      assert a + b == b;
    } else {
      assert (a + b)[0] == a[0];
      assert (a + b)[1..] == a[1..] + b;
      AtDepthAppend(a[1..], b, d);
    }
  }

  /** In a depth-sorted list holding some region of depth 0, the first region is the first of depth 0. */
  lemma AtDepthZeroFirst<C, F>(s: seq<Region<C, F>>)
    requires SortedByDepth(s)
    requires AtDepth(s, 0) != []
    ensures |s| > 0 && s[0] == AtDepth(s, 0)[0]
  {
    assert s != [];
    if DepthOf(s[0]) != 0 {
      SortedAtDepthEmpty(s[1..], DepthOf(s[0]), 0);
      assert false;
    }
  }

  /** A depth-sorted list whose regions are all at least `lo` deep has none of a smaller depth. */
  lemma {:induction false} SortedAtDepthEmpty<C, F>(s: seq<Region<C, F>>, lo: nat, d: nat)
    requires forall i :: 0 <= i < |s| ==> DepthOf(s[i]) >= lo
    requires d < lo
    ensures AtDepth(s, d) == []
  {
    if s != [] {
      SortedAtDepthEmpty(s[1..], lo, d);
    }
  }
}
