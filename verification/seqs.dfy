/** Mapping each element of a sequence to a sequence and concatenating the results, in order. */
module Seqs {

  function FlatMap<T, U>(f: T -> seq<U>, s: seq<T>): seq<U>
  {
    if s == [] then [] else f(s[0]) + FlatMap(f, s[1..])
  }

  lemma {:induction false} FlatMapAppend<T, U>(f: T -> seq<U>, a: seq<T>, b: seq<T>)
    ensures FlatMap(f, a + b) == FlatMap(f, a) + FlatMap(f, b)
  {
    if a == [] {
      assert a + b == b;
    } else {
      assert (a + b)[0] == a[0];
      assert (a + b)[1..] == a[1..] + b;
      FlatMapAppend(f, a[1..], b);
    }
  }

  lemma {:induction false} FlatMapMembers<T, U>(f: T -> seq<U>, s: seq<T>, x: U)
    ensures x in FlatMap(f, s) <==> exists t :: t in s && x in f(t)
  {
    if s != [] {
      FlatMapMembers(f, s[1..], x);
      if exists t :: t in s && x in f(t) {
        var t :| t in s && x in f(t);
        if t != s[0] {
          assert t in s[1..];
        }
      }
    }
  }

  lemma {:induction false} FlatMapSingletons<T, U>(f: T -> seq<U>, s: seq<T>)
    requires forall t :: t in s ==> |f(t)| == 1
    ensures |FlatMap(f, s)| == |s|
  {
    if s != [] {
      assert s[0] in s;
      FlatMapSingletons(f, s[1..]);
    }
  }

  lemma {:induction false} FlatMapEmpty<T, U>(f: T -> seq<U>, s: seq<T>)
    requires forall t :: t in s ==> f(t) == []
    ensures FlatMap(f, s) == []
  {
    if s != [] {
      assert s[0] in s;
      FlatMapEmpty(f, s[1..]);
    }
  }
}
