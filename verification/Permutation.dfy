/** The greedy matcher behind assert-permutation: two item sequences are compared
    as unordered collections under a caller-supplied item equality. */
module Permutation {

  /** `p` pairs every item of `got` with a different, equal item of `want`. */
  ghost predicate IsPairing<T>(eq: (T, T) -> bool, got: seq<T>, want: seq<T>, p: seq<nat>) {
    && |p| == |got| == |want|
    && (forall i :: 0 <= i < |p| ==> p[i] < |want| && eq(got[i], want[p[i]]))
    && (forall i, j :: 0 <= i < j < |p| ==> p[i] != p[j])
  }

  ghost predicate HasPairing<T>(eq: (T, T) -> bool, got: seq<T>, want: seq<T>) {
    exists p :: IsPairing(eq, got, want, p)
  }

  predicate Zigzag<T>(eq: (T, T) -> bool, a: T, b: T, c: T, d: T) {
    eq(a, b) && eq(c, b) && eq(c, d)
  }

  /** Items with a partner in common have all their partners in common. Every
      symmetric and transitive relation has this property. */
  ghost predicate Difunctional<T(!new)>(eq: (T, T) -> bool) {
    forall a, b, c, d :: Zigzag(eq, a, b, c, d) ==> eq(a, d)
  }

  ghost predicate PartialEquivalence<T(!new)>(eq: (T, T) -> bool) {
    && (forall a, b :: eq(a, b) ==> eq(b, a))
    && (forall a, b, c :: eq(a, b) && eq(b, c) ==> eq(a, c))
  }

  // ----- the matcher as a function -----

  /** The first unused index of `want`, from `j` on, whose item equals `x`; |want| if none. */
  function FirstFree<T>(eq: (T, T) -> bool, x: T, want: seq<T>, used: set<nat>, j: nat): (r: nat)
    requires j <= |want|
    ensures j <= r <= |want|
    ensures r < |want| ==> r !in used && eq(x, want[r])
    ensures forall k :: j <= k < r && k !in used ==> !eq(x, want[k])
    decreases |want| - j
  {
    if j == |want| then j
    else if j !in used && eq(x, want[j]) then j
    else FirstFree(eq, x, want, used, j + 1)
  }

  function MatchFrom<T>(eq: (T, T) -> bool, got: seq<T>, want: seq<T>, i: nat, used: set<nat>): bool
    requires i <= |got|
    decreases |got| - i
  {
    i == |got| ||
    var j := FirstFree(eq, got[i], want, used, 0);
    j < |want| && MatchFrom(eq, got, want, i + 1, used + {j})
  }

  function IsPermutation<T>(eq: (T, T) -> bool, got: seq<T>, want: seq<T>): bool {
    |got| == |want| && MatchFrom(eq, got, want, 0, {})
  }

  lemma DifferentLengths<T>(eq: (T, T) -> bool, got: seq<T>, want: seq<T>)
    requires |got| != |want|
    ensures !IsPermutation(eq, got, want)
  {}

  lemma MatchStarts<T>(eq: (T, T) -> bool, got: seq<T>, want: seq<T>)
    requires |got| == |want|
    ensures IsPermutation(eq, got, want) == MatchFrom(eq, got, want, 0, {})
  {}

  lemma FreeNext<T>(eq: (T, T) -> bool, x: T, want: seq<T>, taken: set<nat>, j: nat)
    requires j < |want|
    ensures FirstFree(eq, x, want, taken, j) ==
            if j !in taken && eq(x, want[j]) then j else FirstFree(eq, x, want, taken, j + 1)
  {}

  lemma MatchNext<T>(eq: (T, T) -> bool, got: seq<T>, want: seq<T>, i: nat, taken: set<nat>)
    requires i < |got|
    ensures MatchFrom(eq, got, want, i, taken) ==
            var j := FirstFree(eq, got[i], want, taken, 0);
            j < |want| && MatchFrom(eq, got, want, i + 1, taken + {j})
  {}

  lemma MatchEnds<T>(eq: (T, T) -> bool, got: seq<T>, want: seq<T>, taken: set<nat>)
    ensures MatchFrom(eq, got, want, |got|, taken)
  {}

  /** The matcher as it runs: nested loops over a slice of used flags. */
  method Qt3IsPermutation<T>(eq: (T, T) -> bool, got: seq<T>, want: seq<T>) returns (r: bool)
    ensures r == IsPermutation(eq, got, want)
  {
    hide IsPermutation, MatchFrom, FirstFree;
    if |got| != |want| {
      DifferentLengths(eq, got, want);
      return false;
    }
    MatchStarts(eq, got, want);
    var n := |got|;
    var used := new bool[n](_ => false);
    ghost var taken: set<nat> := {};
    var i := 0;
    while i < n
      invariant 0 <= i <= n
      invariant forall k: nat :: k < n ==> (used[k] <==> k in taken)
      invariant IsPermutation(eq, got, want) == MatchFrom(eq, got, want, i, taken)
    {
      var gi := got[i];
      var matched := false;
      ghost var first := FirstFree(eq, gi, want, taken, 0);
      MatchNext(eq, got, want, i, taken);
      var j := 0;
      while j < n
        invariant 0 <= j <= n
        invariant !matched && first == FirstFree(eq, gi, want, taken, j)
        invariant forall k: nat :: k < n ==> (used[k] <==> k in taken)
      {
        FreeNext(eq, gi, want, taken, j);
        if used[j] {
          j := j + 1;
          continue;
        }
        if eq(gi, want[j]) {
          used[j] := true;
          matched := true;
          break;
        }
        j := j + 1;
      }
      if !matched {
        return false;
      }
      taken := taken + {first};
      i := i + 1;
    }
    MatchEnds(eq, got, want, taken);
    return true;
  }

  // ----- soundness, for any relation -----

  function Chosen(p: seq<nat>): set<nat> {
    set x | x in p
  }

  lemma {:induction false} MatchFromPairs<T>(eq: (T, T) -> bool, got: seq<T>, want: seq<T>, p: seq<nat>)
    requires |got| == |want| && |p| <= |got|
    requires forall i :: 0 <= i < |p| ==> p[i] < |want| && eq(got[i], want[p[i]])
    requires forall i, j :: 0 <= i < j < |p| ==> p[i] != p[j]
    requires MatchFrom(eq, got, want, |p|, Chosen(p))
    ensures HasPairing(eq, got, want)
    decreases |got| - |p|
  {
    if |p| == |got| {
      assert IsPairing(eq, got, want, p);
    } else {
      var j := FirstFree(eq, got[|p|], want, Chosen(p), 0);
      assert Chosen(p + [j]) == Chosen(p) + {j};
      assert forall i :: 0 <= i < |p| ==> p[i] in Chosen(p);
      MatchFromPairs(eq, got, want, p + [j]);
    }
  }

  /** Whatever the item relation, a positive answer exhibits a pairing. */
  lemma PermutationIsSound<T>(eq: (T, T) -> bool, got: seq<T>, want: seq<T>)
    requires IsPermutation(eq, got, want)
    ensures HasPairing(eq, got, want)
  {
    assert Chosen([]) == {};
    MatchFromPairs(eq, got, want, []);
  }

  // ----- completeness, for difunctional relations -----

  /** A pairing that agrees with the greedy choices so far can be rerouted through
      the next greedy choice. */
  lemma {:induction false} MatchFromFinds<T(!new)>(
      eq: (T, T) -> bool, got: seq<T>, want: seq<T>, p: seq<nat>, q: seq<nat>)
    requires Difunctional(eq) && IsPairing(eq, got, want, q) && p <= q
    ensures MatchFrom(eq, got, want, |p|, Chosen(p))
    decreases |got| - |p|
  {
    if |p| < |got| {
      var i := |p|;
      var j := FirstFree(eq, got[i], want, Chosen(p), 0);
      assert q[i] !in Chosen(p) by {
        assert forall k :: 0 <= k < i ==> p[k] == q[k];
      }
      assert j < |want|;
      var q' := Reroute(eq, got, want, p, j, q);
      ChosenOneMore(p, j);
      MatchFromFinds(eq, got, want, p + [j], q');
    }
  }

  lemma ChosenOneMore(p: seq<nat>, j: nat)
    ensures Chosen(p + [j]) == Chosen(p) + {j}
  {}

  lemma Reroute<T(!new)>(eq: (T, T) -> bool, got: seq<T>, want: seq<T>, p: seq<nat>, j: nat, q: seq<nat>)
    returns (q': seq<nat>)
    requires Difunctional(eq) && IsPairing(eq, got, want, q) && p < q
    requires j < |want| && j !in Chosen(p) && eq(got[|p|], want[j])
    ensures IsPairing(eq, got, want, q') && p + [j] <= q'
  {
    var i := |p|;
    assert forall k :: 0 <= k < i ==> q[k] == p[k] && p[k] in Chosen(p);
    if k :| 0 <= k < |q| && q[k] == j {
      q' := q[k := q[i]][i := j];
      assert Zigzag(eq, got[k], want[j], got[i], want[q[i]]);
    } else {
      q' := q[i := j];
    }
  }

  lemma PermutationIsComplete<T(!new)>(eq: (T, T) -> bool, got: seq<T>, want: seq<T>)
    requires Difunctional(eq) && HasPairing(eq, got, want)
    ensures IsPermutation(eq, got, want)
  {
    var q :| IsPairing(eq, got, want, q);
    assert Chosen([]) == {};
    MatchFromFinds(eq, got, want, [], q);
  }

  /** When equal items can have different partners, two items are enough to make
      the greedy choice a wrong one. */
  lemma GreedyMisses<T>(eq: (T, T) -> bool, a: T, b: T, c: T, d: T)
    requires Zigzag(eq, a, b, c, d) && !eq(a, d)
    ensures HasPairing(eq, [c, a], [b, d]) && !IsPermutation(eq, [c, a], [b, d])
  {
    var got, want := [c, a], [b, d];
    assert IsPairing(eq, got, want, [1, 0]);
    assert FirstFree(eq, got[0], want, {}, 0) == 0;
    var j := FirstFree(eq, got[1], want, {0}, 0);
    assert j == 2 by {
      assert j == 0 || j == 1 || j == 2;
      assert want[1] == d && got[1] == a;
    }
    assert {} + {0} == {0};
    assert !MatchFrom(eq, got, want, 1, {0});
  }

  /** The greedy matcher decides the existence of a pairing on all inputs exactly
      when the item relation is difunctional. */
  lemma GreedyDecidesExactlyWhenDifunctional<T(!new)>(eq: (T, T) -> bool)
    ensures Difunctional(eq) <==>
            forall got, want :: IsPermutation(eq, got, want) <==> HasPairing(eq, got, want)
  {
    forall got, want | Difunctional(eq)
      ensures IsPermutation(eq, got, want) <==> HasPairing(eq, got, want)
    {
      if HasPairing(eq, got, want) {
        PermutationIsComplete(eq, got, want);
      }
      if IsPermutation(eq, got, want) {
        PermutationIsSound(eq, got, want);
      }
    }
    if !Difunctional(eq) {
      var a, b, c, d :| Zigzag(eq, a, b, c, d) && !eq(a, d);
      GreedyMisses(eq, a, b, c, d);
    }
  }

  // ----- multiset equality, for partial equivalences -----

  /** Where in `s`, from index `i` on and outside `used`, an item equals `x`. */
  ghost function Places<T>(eq: (T, T) -> bool, x: T, s: seq<T>, i: nat, used: set<nat>): set<nat> {
    set k: nat | i <= k < |s| && k !in used && eq(x, s[k])
  }

  ghost function Occurrences<T>(eq: (T, T) -> bool, x: T, s: seq<T>, i: nat, used: set<nat>): nat {
    |Places(eq, x, s, i, used)|
  }

  ghost predicate SameMultiset<T(!new)>(eq: (T, T) -> bool, got: seq<T>, want: seq<T>, i: nat, used: set<nat>) {
    forall x :: Occurrences(eq, x, got, i, {}) == Occurrences(eq, x, want, 0, used)
  }

  lemma PassOne<T>(eq: (T, T) -> bool, x: T, s: seq<T>, i: nat)
    requires i < |s|
    ensures Occurrences(eq, x, s, i, {}) == Occurrences(eq, x, s, i + 1, {}) + (if eq(x, s[i]) then 1 else 0)
  {
    var rest := Places(eq, x, s, i + 1, {});
    assert Places(eq, x, s, i, {}) == if eq(x, s[i]) then rest + {i} else rest;
  }

  lemma UseOne<T>(eq: (T, T) -> bool, x: T, s: seq<T>, j: nat, used: set<nat>)
    requires j < |s| && j !in used
    ensures Occurrences(eq, x, s, 0, used) == Occurrences(eq, x, s, 0, used + {j}) + (if eq(x, s[j]) then 1 else 0)
  {
    var rest := Places(eq, x, s, 0, used + {j});
    assert Places(eq, x, s, 0, used) == if eq(x, s[j]) then rest + {j} else rest;
  }

  lemma SameMultisetStep<T(!new)>(eq: (T, T) -> bool, got: seq<T>, want: seq<T>, i: nat, j: nat, used: set<nat>)
    requires PartialEquivalence(eq)
    requires i < |got| && j < |want| && j !in used && eq(got[i], want[j])
    ensures SameMultiset(eq, got, want, i, used) <==> SameMultiset(eq, got, want, i + 1, used + {j})
  {
    forall x
      ensures Occurrences(eq, x, got, i, {}) - Occurrences(eq, x, want, 0, used)
           == Occurrences(eq, x, got, i + 1, {}) - Occurrences(eq, x, want, 0, used + {j})
    {
      assert eq(x, got[i]) == eq(x, want[j]);
      PassOne(eq, x, got, i);
      UseOne(eq, x, want, j, used);
    }
  }

  lemma NoPartnerLeft<T(!new)>(eq: (T, T) -> bool, got: seq<T>, want: seq<T>, i: nat, used: set<nat>)
    requires i < |got| && eq(got[i], got[i])
    requires forall j: nat :: j < |want| && j !in used ==> !eq(got[i], want[j])
    ensures !SameMultiset(eq, got, want, i, used)
  {
    assert i in Places(eq, got[i], got, i, {});
    assert Places(eq, got[i], want, 0, used) == {};
    assert Occurrences(eq, got[i], got, i, {}) != Occurrences(eq, got[i], want, 0, used);
  }

  lemma NothingLeft<T(!new)>(eq: (T, T) -> bool, got: seq<T>, want: seq<T>, used: set<nat>)
    requires |used| == |want| && forall j :: j in used ==> j < |want|
    ensures SameMultiset(eq, got, want, |got|, used)
  {
    AllUsed(want, used);
    forall x ensures Occurrences(eq, x, got, |got|, {}) == Occurrences(eq, x, want, 0, used) {
      assert Places(eq, x, got, |got|, {}) == {} == Places(eq, x, want, 0, used);
    }
  }

  lemma {:induction false} MatchFromCounts<T(!new)>(eq: (T, T) -> bool, got: seq<T>, want: seq<T>, i: nat, used: set<nat>)
    requires PartialEquivalence(eq)
    requires i <= |got| && |got| - i + |used| == |want| && forall j :: j in used ==> j < |want|
    ensures MatchFrom(eq, got, want, i, used) <==>
            (forall k :: i <= k < |got| ==> eq(got[k], got[k])) && SameMultiset(eq, got, want, i, used)
    decreases |got| - i
  {
    if i == |got| {
      NothingLeft(eq, got, want, used);
    } else {
      var j := FirstFree(eq, got[i], want, used, 0);
      if j < |want| {
        assert eq(got[i], got[i]);
        SameMultisetStep(eq, got, want, i, j, used);
        MatchFromCounts(eq, got, want, i + 1, used + {j});
      } else if eq(got[i], got[i]) {
        NoPartnerLeft(eq, got, want, i, used);
      }
    }
  }

  function Indices(n: nat): (r: set<nat>)
    ensures |r| == n && forall j: nat :: j in r <==> j < n
  {
    if n == 0 then {} else Indices(n - 1) + {n - 1}
  }

  lemma AllUsed<T>(want: seq<T>, used: set<nat>)
    requires |used| == |want| && forall j :: j in used ==> j < |want|
    ensures used == Indices(|want|)
  {
    if j :| j in Indices(|want|) && j !in used {
      SubsetSize(used, Indices(|want|) - {j});
    }
  }

  lemma {:induction false} SubsetSize<T>(a: set<T>, b: set<T>)
    requires a <= b
    ensures |a| <= |b|
  {
    if x :| x in a {
      SubsetSize(a - {x}, b - {x});
    }
  }

  /** For a partial equivalence, in particular an equivalence, the matcher decides
      multiset equality: each class occurs equally often on both sides. An item that
      does not equal itself occurs in no class and makes the answer false. */
  lemma PermutationIsMultisetEquality<T(!new)>(eq: (T, T) -> bool, got: seq<T>, want: seq<T>)
    requires PartialEquivalence(eq)
    ensures IsPermutation(eq, got, want) <==>
            && |got| == |want|
            && (forall k :: 0 <= k < |got| ==> eq(got[k], got[k]))
            && SameMultiset(eq, got, want, 0, {})
    ensures IsPermutation(eq, got, want) <==> HasPairing(eq, got, want)
  {
    if |got| == |want| {
      MatchFromCounts(eq, got, want, 0, {});
    }
    GreedyDecidesExactlyWhenDifunctional(eq);
    assert Difunctional(eq);
  }
}
