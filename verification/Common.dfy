/** What several components share. */
module Common {

  datatype Option<+T> = None | Some(value: T)

  ghost predicate Distinct<T>(s: seq<T>) {
    forall i, j :: 0 <= i < j < |s| ==> s[i] != s[j]
  }

  /** What `f` makes of each element, one after the other. */
  function FlatMap<A, B>(f: A -> seq<B>, xs: seq<A>): seq<B> {
    if xs == [] then [] else FlatMap(f, xs[..|xs| - 1]) + f(xs[|xs| - 1])
  }

  lemma FlatMapNothing<A, B>(f: A -> seq<B>, xs: seq<A>)
    ensures FlatMap(f, xs[..0]) == []
  {}

  lemma FlatMapNext<A, B>(f: A -> seq<B>, xs: seq<A>, n: nat)
    requires n < |xs|
    ensures FlatMap(f, xs[..n + 1]) == FlatMap(f, xs[..n]) + f(xs[n])
  {
    assert xs[..n + 1][..n] == xs[..n];
  }

  /** What is in the whole comes from an element. */
  lemma {:induction false} FlatMapComesFrom<A, B>(f: A -> seq<B>, xs: seq<A>, y: B) returns (n: nat)
    requires y in FlatMap(f, xs)
    ensures n < |xs| && y in f(xs[n])
  {
    var last := |xs| - 1;
    if y in f(xs[last]) {
      n := last;
    } else {
      n := FlatMapComesFrom(f, xs[..last], y);
    }
  }

  /** What an element is mapped to is in the whole. */
  lemma {:induction false} FlatMapHolds<A, B>(f: A -> seq<B>, xs: seq<A>, n: nat)
    requires n < |xs|
    ensures forall y :: y in f(xs[n]) ==> y in FlatMap(f, xs)
  {
    if n < |xs| - 1 {
      FlatMapHolds(f, xs[..|xs| - 1], n);
    }
  }
}
