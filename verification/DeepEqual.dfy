/** Structural equality of XDM items and sequences, as the QT3 harness compares
    arrays, maps, atomic values and nodes. */
module DeepEqual {
  import Permutation

  /** An XDM item. Atomic values, nodes and map keys are left open; a map's keys are
      identified up to the library's same-key relation. `Function` stands for every
      item kind the comparison has no case for. */
  datatype Item<A, N, K> =
    | Atomic(atom: A)
    | Array(members: seq<Sequence<A, N, K>>)
    | Map(entries: map<K, Sequence<A, N, K>>)
    | Node(node: N)
    | Function

  datatype Sequence<A, N, K> = Sequence(items: seq<Item<A, N, K>>)

  datatype Equalities<!A, !N> = Equalities(atomic: (A, A) -> bool, node: (N, N) -> bool)

  predicate EqualSeq<A, N, K>(q: Equalities<A, N>, a: Sequence<A, N, K>, b: Sequence<A, N, K>)
    decreases a
  {
    && |a.items| == |b.items|
    && forall i :: 0 <= i < |a.items| ==> EqualItem(q, a.items[i], b.items[i])
  }

  predicate EqualItem<A, N, K>(q: Equalities<A, N>, a: Item<A, N, K>, b: Item<A, N, K>)
    decreases a
  {
    match a
    case Atomic(av) => b.Atomic? && q.atomic(av, b.atom)
    case Array(av) =>
      && b.Array?
      && |av| == |b.members|
      && forall i :: 0 <= i < |av| ==> EqualSeq(q, av[i], b.members[i])
    case Map(av) =>
      && b.Map?
      && |av| == |b.entries|
      && forall k :: k in av.Keys ==> k in b.entries.Keys && EqualSeq(q, av[k], b.entries[k])
    case Node(av) => b.Node? && q.node(av, b.node)
    case Function => false
  }

  // ----- symmetry -----

  lemma {:induction false} EqualSeqSymmetric<A(!new), N(!new), K>(
      q: Equalities<A, N>, a: Sequence<A, N, K>, b: Sequence<A, N, K>)
    requires Symmetric(q.atomic) && Symmetric(q.node)
    requires EqualSeq(q, a, b)
    ensures EqualSeq(q, b, a)
    decreases a
  {
    forall i | 0 <= i < |a.items|
      ensures EqualItem(q, b.items[i], a.items[i])
    {
      EqualItemSymmetric(q, a.items[i], b.items[i]);
    }
  }

  lemma {:induction false} EqualItemSymmetric<A(!new), N(!new), K>(
      q: Equalities<A, N>, a: Item<A, N, K>, b: Item<A, N, K>)
    requires Symmetric(q.atomic) && Symmetric(q.node)
    requires EqualItem(q, a, b)
    ensures EqualItem(q, b, a)
    decreases a
  {
    match a
    case Atomic(_) =>
    case Array(av) =>
      forall i | 0 <= i < |av|
        ensures EqualSeq(q, b.members[i], av[i])
      {
        EqualSeqSymmetric(q, av[i], b.members[i]);
      }
    case Map(av) =>
      SameKeys(av, b.entries);
      forall k | k in b.entries.Keys
        ensures k in av.Keys && EqualSeq(q, b.entries[k], av[k])
      {
        EqualSeqSymmetric(q, av[k], b.entries[k]);
      }
    case Node(_) =>
  }

  /** Equal sizes turn the one-sided key scan into equality of the key sets. */
  lemma SameKeys<K, V>(a: map<K, V>, b: map<K, V>)
    requires |a| == |b| && a.Keys <= b.Keys
    ensures a.Keys == b.Keys
  {
    if k :| k in b.Keys && k !in a.Keys {
      Permutation.SubsetSize(a.Keys, b.Keys - {k});
    }
  }

  // ----- transitivity -----

  lemma {:induction false} EqualSeqTransitive<A(!new), N(!new), K>(
      q: Equalities<A, N>, a: Sequence<A, N, K>, b: Sequence<A, N, K>, c: Sequence<A, N, K>)
    requires Transitive(q.atomic) && Transitive(q.node)
    requires EqualSeq(q, a, b) && EqualSeq(q, b, c)
    ensures EqualSeq(q, a, c)
    decreases a
  {
    forall i | 0 <= i < |a.items|
      ensures EqualItem(q, a.items[i], c.items[i])
    {
      EqualItemTransitive(q, a.items[i], b.items[i], c.items[i]);
    }
  }

  lemma {:induction false} EqualItemTransitive<A(!new), N(!new), K>(
      q: Equalities<A, N>, a: Item<A, N, K>, b: Item<A, N, K>, c: Item<A, N, K>)
    requires Transitive(q.atomic) && Transitive(q.node)
    requires EqualItem(q, a, b) && EqualItem(q, b, c)
    ensures EqualItem(q, a, c)
    decreases a
  {
    match a
    case Atomic(_) =>
    case Array(av) =>
      forall i | 0 <= i < |av|
        ensures EqualSeq(q, av[i], c.members[i])
      {
        EqualSeqTransitive(q, av[i], b.members[i], c.members[i]);
      }
    case Map(av) =>
      forall k | k in av.Keys
        ensures k in c.entries.Keys && EqualSeq(q, av[k], c.entries[k])
      {
        EqualSeqTransitive(q, av[k], b.entries[k], c.entries[k]);
      }
    case Node(_) =>
  }

  // ----- reflexivity -----

  /** No item outside the comparison's cases occurs at any depth. */
  predicate FunctionFreeSeq<A, N, K>(a: Sequence<A, N, K>) {
    forall i :: 0 <= i < |a.items| ==> FunctionFree(a.items[i])
  }

  predicate FunctionFree<A, N, K>(a: Item<A, N, K>) {
    match a
    case Atomic(_) => true
    case Array(av) => forall i :: 0 <= i < |av| ==> FunctionFreeSeq(av[i])
    case Map(av) => forall k :: k in av.Keys ==> FunctionFreeSeq(av[k])
    case Node(_) => true
    case Function => false
  }

  lemma {:induction false} EqualSeqReflexive<A(!new), N(!new), K>(q: Equalities<A, N>, a: Sequence<A, N, K>)
    requires Reflexive(q.atomic) && Reflexive(q.node)
    ensures EqualSeq(q, a, a) <==> FunctionFreeSeq(a)
  {
    forall i | 0 <= i < |a.items|
      ensures EqualItem(q, a.items[i], a.items[i]) <==> FunctionFree(a.items[i])
    {
      EqualItemReflexive(q, a.items[i]);
    }
  }

  /** An item equals itself exactly when no function item is nested in it. */
  lemma {:induction false} EqualItemReflexive<A(!new), N(!new), K>(q: Equalities<A, N>, a: Item<A, N, K>)
    requires Reflexive(q.atomic) && Reflexive(q.node)
    ensures EqualItem(q, a, a) <==> FunctionFree(a)
  {
    match a
    case Atomic(_) =>
    case Array(av) =>
      forall i | 0 <= i < |av|
        ensures EqualSeq(q, av[i], av[i]) <==> FunctionFreeSeq(av[i])
      {
        EqualSeqReflexive(q, av[i]);
      }
    case Map(av) =>
      forall k | k in av.Keys
        ensures EqualSeq(q, av[k], av[k]) <==> FunctionFreeSeq(av[k])
      {
        EqualSeqReflexive(q, av[k]);
      }
    case Node(_) =>
    case Function =>
  }

  // ----- structure is compared exactly -----

  ghost predicate IsIdentity<T(!new)>(eq: (T, T) -> bool) {
    forall x, y :: eq(x, y) <==> x == y
  }

  lemma {:induction false} EqualSeqIsIdentity<A(!new), N(!new), K>(
      q: Equalities<A, N>, a: Sequence<A, N, K>, b: Sequence<A, N, K>)
    requires IsIdentity(q.atomic) && IsIdentity(q.node)
    ensures EqualSeq(q, a, b) <==> a == b && FunctionFreeSeq(a)
    decreases a
  {
    EqualSeqReflexive(q, a);
    if EqualSeq(q, a, b) {
      forall i | 0 <= i < |a.items| ensures a.items[i] == b.items[i] {
        EqualItemIsIdentity(q, a.items[i], b.items[i]);
      }
      assert a.items == b.items;
    }
  }

  /** Beyond what the two parameters identify nothing is: when they are identities,
      equal items are the same item, with the same members in the same order and the
      same entries. */
  lemma {:induction false} EqualItemIsIdentity<A(!new), N(!new), K>(
      q: Equalities<A, N>, a: Item<A, N, K>, b: Item<A, N, K>)
    requires IsIdentity(q.atomic) && IsIdentity(q.node)
    ensures EqualItem(q, a, b) <==> a == b && FunctionFree(a)
    decreases a
  {
    EqualItemReflexive(q, a);
    if EqualItem(q, a, b) {
      match a
      case Atomic(_) =>
      case Array(av) =>
        forall i | 0 <= i < |av| ensures av[i] == b.members[i] {
          EqualSeqIsIdentity(q, av[i], b.members[i]);
        }
        assert av == b.members;
      case Map(av) =>
        SameKeys(av, b.entries);
        forall k | k in av.Keys ensures av[k] == b.entries[k] {
          EqualSeqIsIdentity(q, av[k], b.entries[k]);
        }
        assert av == b.entries;
      case Node(_) =>
    }
  }

  // ----- the item relation, and what assert-permutation decides with it -----

  ghost predicate Reflexive<T(!new)>(eq: (T, T) -> bool) {
    forall x :: eq(x, x)
  }

  ghost predicate Symmetric<T(!new)>(eq: (T, T) -> bool) {
    forall x, y :: eq(x, y) ==> eq(y, x)
  }

  ghost predicate Transitive<T(!new)>(eq: (T, T) -> bool) {
    forall x, y, z :: eq(x, y) && eq(y, z) ==> eq(x, z)
  }

  function ItemRelation<A, N, K>(q: Equalities<A, N>): (Item<A, N, K>, Item<A, N, K>) -> bool {
    (x, y) => EqualItem(q, x, y)
  }

  lemma {:induction false} EqualSeqDifunctional<A(!new), N(!new), K>(
      q: Equalities<A, N>, a: Sequence<A, N, K>, b: Sequence<A, N, K>, c: Sequence<A, N, K>, d: Sequence<A, N, K>)
    requires Permutation.Difunctional(q.atomic) && Permutation.Difunctional(q.node)
    requires EqualSeq(q, a, b) && EqualSeq(q, c, b) && EqualSeq(q, c, d)
    ensures EqualSeq(q, a, d)
    decreases a
  {
    forall i | 0 <= i < |a.items|
      ensures EqualItem(q, a.items[i], d.items[i])
    {
      EqualItemDifunctional(q, a.items[i], b.items[i], c.items[i], d.items[i]);
    }
  }

  lemma {:induction false} EqualItemDifunctional<A(!new), N(!new), K>(
      q: Equalities<A, N>, a: Item<A, N, K>, b: Item<A, N, K>, c: Item<A, N, K>, d: Item<A, N, K>)
    requires Permutation.Difunctional(q.atomic) && Permutation.Difunctional(q.node)
    requires EqualItem(q, a, b) && EqualItem(q, c, b) && EqualItem(q, c, d)
    ensures EqualItem(q, a, d)
    decreases a
  {
    match a
    case Atomic(av) =>
      assert Permutation.Zigzag(q.atomic, av, b.atom, c.atom, d.atom);
    case Array(av) =>
      forall i | 0 <= i < |av|
        ensures EqualSeq(q, av[i], d.members[i])
      {
        EqualSeqDifunctional(q, av[i], b.members[i], c.members[i], d.members[i]);
      }
    case Map(av) =>
      SameKeys(c.entries, b.entries);
      forall k | k in av.Keys
        ensures k in d.entries.Keys && EqualSeq(q, av[k], d.entries[k])
      {
        EqualSeqDifunctional(q, av[k], b.entries[k], c.entries[k], d.entries[k]);
      }
    case Node(av) =>
      assert Permutation.Zigzag(q.node, av, b.node, c.node, d.node);
  }

  /** Structural equality is difunctional exactly when atomic and node equality are. */
  lemma ItemRelationIsDifunctional<A(!new), N(!new), K(!new)>(q: Equalities<A, N>)
    ensures Permutation.Difunctional(q.atomic) && Permutation.Difunctional(q.node) <==>
            Permutation.Difunctional(ItemRelation<A, N, K>(q))
  {
    var eq := ItemRelation<A, N, K>(q);
    if Permutation.Difunctional(q.atomic) && Permutation.Difunctional(q.node) {
      forall a, b, c, d | Permutation.Zigzag(eq, a, b, c, d) ensures eq(a, d) {
        EqualItemDifunctional(q, a, b, c, d);
      }
    }
    if Permutation.Difunctional(eq) {
      forall a, b, c, d | Permutation.Zigzag(q.atomic, a, b, c, d) ensures q.atomic(a, d) {
        assert Permutation.Zigzag(eq, Atomic(a), Atomic(b), Atomic(c), Atomic(d));
      }
      forall a, b, c, d | Permutation.Zigzag(q.node, a, b, c, d) ensures q.node(a, d) {
        assert Permutation.Zigzag(eq, Node(a), Node(b), Node(c), Node(d));
      }
    }
  }

  /** Assert-permutation decides, on all inputs, whether the items can be paired exactly
      when atomic and node equality are difunctional. */
  lemma AssertPermutationDecidesPairingExactly<A(!new), N(!new), K(!new)>(q: Equalities<A, N>)
    ensures Permutation.Difunctional(q.atomic) && Permutation.Difunctional(q.node) <==>
            forall got, want ::
              Permutation.IsPermutation(ItemRelation<A, N, K>(q), got, want)
              <==> Permutation.HasPairing(ItemRelation<A, N, K>(q), got, want)
  {
    ItemRelationIsDifunctional<A, N, K>(q);
    Permutation.GreedyDecidesExactlyWhenDifunctional(ItemRelation<A, N, K>(q));
  }

  /** Otherwise, on the atomic side, two values are enough for a wrong answer. */
  lemma AtomsMislead<A(!new), N(!new), K(!new)>(q: Equalities<A, N>, a: A, b: A, c: A, d: A)
    requires Permutation.Zigzag(q.atomic, a, b, c, d) && !q.atomic(a, d)
    ensures var got: seq<Item<A, N, K>> := [Atomic(c), Atomic(a)];
            var want: seq<Item<A, N, K>> := [Atomic(b), Atomic(d)];
            Permutation.HasPairing(ItemRelation(q), got, want) && !Permutation.IsPermutation(ItemRelation(q), got, want)
  {
    Permutation.GreedyMisses(ItemRelation<A, N, K>(q), Atomic(a), Atomic(b), Atomic(c), Atomic(d));
  }

  /** Structural equality is a partial equivalence exactly when atomic and node
      equality both are. */
  lemma ItemRelationIsPartialEquivalence<A(!new), N(!new), K(!new)>(q: Equalities<A, N>)
    ensures Permutation.PartialEquivalence(q.atomic) && Permutation.PartialEquivalence(q.node) <==>
            Permutation.PartialEquivalence(ItemRelation<A, N, K>(q))
  {
    var eq := ItemRelation<A, N, K>(q);
    if Permutation.PartialEquivalence(q.atomic) && Permutation.PartialEquivalence(q.node) {
      forall x, y | eq(x, y) ensures eq(y, x) {
        EqualItemSymmetric(q, x, y);
      }
      forall x, y, z | eq(x, y) && eq(y, z) ensures eq(x, z) {
        EqualItemTransitive(q, x, y, z);
      }
    }
    if Permutation.PartialEquivalence(eq) {
      forall x, y | q.atomic(x, y) ensures q.atomic(y, x) {
        assert eq(Atomic(x), Atomic(y));
      }
      forall x, y | q.node(x, y) ensures q.node(y, x) {
        assert eq(Node(x), Node(y));
      }
      forall x, y, z | q.atomic(x, y) && q.atomic(y, z) ensures q.atomic(x, z) {
        assert eq(Atomic(x), Atomic(y)) && eq(Atomic(y), Atomic(z));
      }
      forall x, y, z | q.node(x, y) && q.node(y, z) ensures q.node(x, z) {
        assert eq(Node(x), Node(y)) && eq(Node(y), Node(z));
      }
    }
  }

  /** With equivalences for atomic values and nodes, assert-permutation accepts
      exactly the rearrangements: same length, no function item at any depth, every
      class of equal items equally often. */
  lemma AssertPermutationDecidesMultisetEquality<A(!new), N(!new), K(!new)>(
      q: Equalities<A, N>, got: seq<Item<A, N, K>>, want: seq<Item<A, N, K>>)
    requires Reflexive(q.atomic) && Symmetric(q.atomic) && Transitive(q.atomic)
    requires Reflexive(q.node) && Symmetric(q.node) && Transitive(q.node)
    ensures Permutation.IsPermutation(ItemRelation(q), got, want) <==>
            && |got| == |want|
            && FunctionFreeSeq(Sequence(got))
            && Permutation.SameMultiset(ItemRelation(q), got, want, 0, {})
    ensures EqualSeq(q, Sequence(got), Sequence(want)) ==>
            Permutation.IsPermutation(ItemRelation(q), got, want)
  {
    var eq := ItemRelation<A, N, K>(q);
    ItemRelationIsPartialEquivalence<A, N, K>(q);
    Permutation.PermutationIsMultisetEquality(eq, got, want);
    forall k | 0 <= k < |got| ensures eq(got[k], got[k]) <==> FunctionFree(got[k]) {
      EqualItemReflexive(q, got[k]);
    }
    if EqualSeq(q, Sequence(got), Sequence(want)) {
      var identity := seq(|got|, i requires 0 <= i < |got| => i as nat);
      assert Permutation.IsPairing(eq, got, want, identity);
    }
  }
}
