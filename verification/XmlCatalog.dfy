/** Reading the XML conformance catalogs: every TEST of every collection, at any
    nesting, becomes one case unless an earlier test has its ID. */
module XmlCatalog {
  import opened Common
  import opened ReferenceGraph
  import opened Text
  import opened XmlFixtures

  datatype CatTest = CatTest(
    id: string, typ: string, uri: string, output: string, entities: string,
    recommendation: string, version: string, edition: string, namespace: string)

  datatype CatTestcases = CatTestcases(xmlBase: string, tests: seq<CatTest>, nested: seq<CatTestcases>)

  /** A start element at the top of a collection catalog; others are passed over. */
  datatype TopElement = Block(cases: CatTestcases) | Single(test: CatTest) | Other

  datatype CatalogFile = Unreadable | Malformed | Parsed(items: seq<TopElement>)

  datatype CollectionRef = CollectionRef(base: string, catalogFile: string, file: CatalogFile)

  datatype GenCase = GenCase(test: CatTest, uri: string, output: string, fixtureRels: set<string>)

  function CollectionKey(catalogFile: string): string {
    var seg := Before(catalogFile, '/');
    if seg == "" then "misc" else seg
  }

  // ----- the reference: flatten, then keep the first test of each ID -----

  /** A test with the xml:base in force and the directory of its catalog. */
  datatype Located = Located(base: string, catalogDir: string, key: string, test: CatTest)

  function LocateAll(base: string, dir: string, key: string, tests: seq<CatTest>): seq<Located> {
    seq(|tests|, i requires 0 <= i < |tests| => Located(base, dir, key, tests[i]))
  }

  function InForce(r: Root, base: string, tc: CatTestcases): string {
    if tc.xmlBase != "" then JoinBase(r, base, tc.xmlBase) else base
  }

  function Flatten(r: Root, base: string, dir: string, key: string, tc: CatTestcases): seq<Located>
    decreases tc
  {
    LocateAll(InForce(r, base, tc), dir, key, tc.tests)
    + FlattenNested(r, InForce(r, base, tc), dir, key, tc.nested)
  }

  function FlattenNested(r: Root, base: string, dir: string, key: string, nested: seq<CatTestcases>): seq<Located>
    decreases nested
  {
    if nested == [] then []
    else Flatten(r, base, dir, key, nested[0]) + FlattenNested(r, base, dir, key, nested[1..])
  }

  function FlattenItem(r: Root, base: string, dir: string, key: string, item: TopElement): seq<Located> {
    match item
    case Block(cases) => Flatten(r, base, dir, key, cases)
    case Single(test) => [Located(base, dir, key, test)]
    case Other => []
  }

  function FlattenItems(r: Root, base: string, dir: string, key: string, items: seq<TopElement>): seq<Located> {
    if items == [] then []
    else FlattenItem(r, base, dir, key, items[0]) + FlattenItems(r, base, dir, key, items[1..])
  }

  function FlattenRef(r: Root, ref: CollectionRef): seq<Located> {
    if !ref.file.Parsed? then []
    else FlattenItems(r, ref.base, r.dir(ref.catalogFile), CollectionKey(ref.catalogFile), ref.file.items)
  }

  function FlattenRefs(r: Root, refs: seq<CollectionRef>): seq<Located> {
    if refs == [] then [] else FlattenRefs(r, refs[..|refs| - 1]) + FlattenRef(r, refs[|refs| - 1])
  }

  predicate Eligible(l: Located) {
    l.test.uri != "" && l.test.id != ""
  }

  function Ids(ls: seq<Located>): set<string> {
    set l | l in ls :: l.test.id
  }

  /** The eligible tests whose ID is neither in `seen` nor on an earlier one. */
  function KeepFirst(seen: set<string>, ls: seq<Located>): seq<Located> {
    if ls == [] then []
    else
      var kept := KeepFirst(seen, ls[..|ls| - 1]);
      var l := ls[|ls| - 1];
      if Eligible(l) && l.test.id !in seen + Ids(kept) then kept + [l] else kept
  }

  lemma KeepFirstNext(seen: set<string>, ls: seq<Located>, l: Located)
    ensures KeepFirst(seen, ls + [l]) ==
            if Eligible(l) && l.test.id !in seen + Ids(KeepFirst(seen, ls))
            then KeepFirst(seen, ls) + [l] else KeepFirst(seen, ls)
  {
    assert (ls + [l])[..|ls|] == ls;
  }

  lemma {:induction false} KeepFirstAppend(seen: set<string>, a: seq<Located>, b: seq<Located>)
    ensures KeepFirst(seen, a + b) == KeepFirst(seen, a) + KeepFirst(seen + Ids(KeepFirst(seen, a)), b)
  {
    if b == [] {
      assert a + b == a;
    } else {
      var front, l := b[..|b| - 1], b[|b| - 1];
      assert front + [l] == b;
      KeepFirstAppend(seen, a, front);
      KeepFirstAppendNext(seen, a, front, l);
    }
  }

  lemma KeepFirstAppendNext(seen: set<string>, a: seq<Located>, b: seq<Located>, l: Located)
    requires KeepFirst(seen, a + b) == KeepFirst(seen, a) + KeepFirst(seen + Ids(KeepFirst(seen, a)), b)
    ensures KeepFirst(seen, a + (b + [l]))
         == KeepFirst(seen, a) + KeepFirst(seen + Ids(KeepFirst(seen, a)), b + [l])
  {
    hide KeepFirst, Ids, Eligible;
    var seen' := seen + Ids(KeepFirst(seen, a));
    assert (a + b) + [l] == a + (b + [l]);
    KeepFirstNext(seen, a + b, l);
    KeepFirstNext(seen', b, l);
    IdsAppend(KeepFirst(seen, a), KeepFirst(seen', b));
  }

  lemma IdsAppend(a: seq<Located>, b: seq<Located>)
    ensures Ids(a + b) == Ids(a) + Ids(b)
  {}

  predicate Builds(r: Root, l: Located) {
    && ResolveFixture(r, l.base, l.catalogDir, l.test.uri).Some?
    && (l.test.output == "" || ResolveFixture(r, l.base, l.catalogDir, l.test.output).Some?)
  }

  predicate AllBuild(r: Root, ls: seq<Located>) {
    forall i :: 0 <= i < |ls| ==> Builds(r, ls[i])
  }

  ghost function CaseOf(r: Root, l: Located): GenCase
    requires Builds(r, l)
  {
    var uri := ResolveFixture(r, l.base, l.catalogDir, l.test.uri).value;
    var output := if l.test.output == "" then "" else ResolveFixture(r, l.base, l.catalogDir, l.test.output).value;
    GenCase(l.test, uri, output, (if output == "" then {} else {output}) + Closure(GraphOf(r), {uri}))
  }

  ghost predicate AreCases(r: Root, ls: seq<Located>, out: seq<GenCase>) {
    |ls| == |out| && forall i :: 0 <= i < |ls| ==> Builds(r, ls[i]) && out[i] == CaseOf(r, ls[i])
  }

  /** What the reader's state holds after reading `ls` when it started with `seen0`. */
  ghost predicate AfterReading(
      r: Root, seen0: set<string>, ls: seq<Located>, seen: set<string>, out: seq<GenCase>) {
    seen == seen0 + Ids(KeepFirst(seen0, ls)) && AreCases(r, KeepFirst(seen0, ls), out)
  }

  lemma ReadingBuilds(r: Root, seen0: set<string>, ls: seq<Located>, seen: set<string>, out: seq<GenCase>)
    requires AfterReading(r, seen0, ls, seen, out)
    ensures AllBuild(r, KeepFirst(seen0, ls))
  {}

  lemma ReadingSkips(
      r: Root, seen0: set<string>, ls: seq<Located>, seen: set<string>, out: seq<GenCase>, l: Located)
    requires AfterReading(r, seen0, ls, seen, out) && (!Eligible(l) || l.test.id in seen)
    ensures AfterReading(r, seen0, ls + [l], seen, out)
  {
    KeepFirstNext(seen0, ls, l);
  }

  lemma ReadingKeeps(
      r: Root, seen0: set<string>, ls: seq<Located>, seen: set<string>, out: seq<GenCase>, l: Located)
    requires AfterReading(r, seen0, ls, seen, out) && Eligible(l) && l.test.id !in seen
    ensures !Builds(r, l) ==> !AllBuild(r, KeepFirst(seen0, ls + [l]))
    ensures Builds(r, l) ==> AfterReading(r, seen0, ls + [l], seen + {l.test.id}, out + [CaseOf(r, l)])
  {
    hide CaseOf, Builds, KeepFirst;
    var kept := KeepFirst(seen0, ls);
    KeepFirstNext(seen0, ls, l);
    IdsAppend(kept, [l]);
    assert Ids([l]) == {l.test.id};
    assert (kept + [l])[|kept|] == l;
  }

  /** `done` is read, `rest` is still to come of `whole`. */
  ghost predicate Ahead(done: seq<Located>, rest: seq<Located>, whole: seq<Located>) {
    done + rest == whole
  }

  lemma AheadNext(done: seq<Located>, part: seq<Located>, later: seq<Located>, rest: seq<Located>, whole: seq<Located>)
    requires Ahead(done, rest, whole) && rest == part + later
    ensures Ahead(done + part, later, whole)
  {
    assert (done + part) + later == done + (part + later);
  }

  lemma AheadFails(r: Root, seen: set<string>, done: seq<Located>, rest: seq<Located>, whole: seq<Located>)
    requires Ahead(done, rest, whole) && !AllBuild(r, KeepFirst(seen, done))
    ensures !AllBuild(r, KeepFirst(seen, whole))
  {
    FailureStays(r, seen, done, rest);
  }

  lemma AheadEnds(done: seq<Located>, whole: seq<Located>)
    requires Ahead(done, [], whole)
    ensures done == whole
  {}

  lemma TestsNext(
      base: string, dir: string, key: string, tests: seq<CatTest>, k: nat, nested: seq<Located>)
    requires k < |tests|
    ensures LocateAll(base, dir, key, tests[k..]) + nested
         == [Located(base, dir, key, tests[k])] + (LocateAll(base, dir, key, tests[k + 1..]) + nested)
  {}

  lemma BlockAhead(r: Root, base: string, dir: string, key: string, tc: CatTestcases, done: seq<Located>)
    ensures Ahead(done,
                  LocateAll(InForce(r, base, tc), dir, key, tc.tests[0..])
                  + FlattenNested(r, InForce(r, base, tc), dir, key, tc.nested),
                  done + Flatten(r, base, dir, key, tc))
  {
    assert tc.tests[0..] == tc.tests;
  }

  lemma NestedAhead(
      r: Root, base: string, dir: string, key: string, tc: CatTestcases, done: seq<Located>, whole: seq<Located>)
    requires Ahead(done,
                   LocateAll(base, dir, key, tc.tests[|tc.tests|..]) + FlattenNested(r, base, dir, key, tc.nested), whole)
    ensures Ahead(done, FlattenNested(r, base, dir, key, tc.nested[0..]), whole)
  {
    assert tc.nested[0..] == tc.nested;
    assert LocateAll(base, dir, key, tc.tests[|tc.tests|..]) == [];
  }

  lemma FlattenNestedNext(r: Root, base: string, dir: string, key: string, nested: seq<CatTestcases>, k: nat)
    requires k < |nested|
    ensures FlattenNested(r, base, dir, key, nested[k..])
         == Flatten(r, base, dir, key, nested[k]) + FlattenNested(r, base, dir, key, nested[k + 1..])
  {
    assert nested[k..][1..] == nested[k + 1..];
  }

  lemma NothingNested(r: Root, base: string, dir: string, key: string, nested: seq<CatTestcases>)
    ensures FlattenNested(r, base, dir, key, nested[|nested|..]) == []
  {}

  lemma ItemsAhead(r: Root, base: string, dir: string, key: string, items: seq<TopElement>)
    ensures Ahead([], FlattenItems(r, base, dir, key, items[0..]), FlattenItems(r, base, dir, key, items))
    ensures FlattenItems(r, base, dir, key, items[|items|..]) == []
  {
    assert items[0..] == items;
  }

  lemma FlattenItemsNext(r: Root, base: string, dir: string, key: string, items: seq<TopElement>, k: nat)
    requires k < |items|
    ensures FlattenItems(r, base, dir, key, items[k..])
         == FlattenItem(r, base, dir, key, items[k]) + FlattenItems(r, base, dir, key, items[k + 1..])
  {
    assert items[k..][1..] == items[k + 1..];
  }

  lemma FailureStays(r: Root, seen: set<string>, a: seq<Located>, b: seq<Located>)
    requires !AllBuild(r, KeepFirst(seen, a))
    ensures !AllBuild(r, KeepFirst(seen, a + b))
  {
    KeepFirstAppend(seen, a, b);
    var i :| 0 <= i < |KeepFirst(seen, a)| && !Builds(r, KeepFirst(seen, a)[i]);
    assert KeepFirst(seen, a + b)[i] == KeepFirst(seen, a)[i];
  }

  // ----- the reader -----

  /** The IDs seen so far, over all collections, and the cases of this collection. */
  class Reader {
    var seen: set<string>
    var out: seq<GenCase>

    constructor ()
      ensures seen == {} && out == []
    {
      seen := {};
      out := [];
    }

    method AppendTest(
        r: Root, base: string, dir: string, ghost key: string, t: CatTest,
        ghost seen0: set<string>, ghost done: seq<Located>)
      returns (ok: bool)
      requires AfterReading(r, seen0, done, seen, out)
      modifies this
      ensures ok <==> AllBuild(r, KeepFirst(seen0, done + [Located(base, dir, key, t)]))
      ensures ok ==> AfterReading(r, seen0, done + [Located(base, dir, key, t)], seen, out)
    {
      hide AfterReading, AllBuild, KeepFirst;
      ghost var l := Located(base, dir, key, t);
      if t.uri == "" || t.id == "" {
        ReadingSkips(r, seen0, done, seen, out, l);
        ReadingBuilds(r, seen0, done + [l], seen, out);
        return true;
      }
      if t.id in seen {
        ReadingSkips(r, seen0, done, seen, out, l);
        ReadingBuilds(r, seen0, done + [l], seen, out);
        return true;
      }
      ReadingKeeps(r, seen0, done, seen, out, l);
      var uriRel := ResolveFixture(r, base, dir, t.uri);
      if uriRel.None? {
        return false;
      }
      seen := seen + {t.id};
      var gc := BuildCase(r, uriRel.value, base, dir, key, t);
      if gc.None? {
        return false;
      }
      out := out + [gc.value];
      ReadingBuilds(r, seen0, done + [l], seen, out);
      return true;
    }

    method CollectCases(
        r: Root, base0: string, dir: string, ghost key: string, tc: CatTestcases,
        ghost seen0: set<string>, ghost done0: seq<Located>)
      returns (ok: bool)
      requires AfterReading(r, seen0, done0, seen, out)
      modifies this
      ensures ok <==> AllBuild(r, KeepFirst(seen0, done0 + Flatten(r, base0, dir, key, tc)))
      ensures ok ==> AfterReading(r, seen0, done0 + Flatten(r, base0, dir, key, tc), seen, out)
      decreases tc
    {
      hide AfterReading, AllBuild, KeepFirst, JoinBase, Flatten, FlattenNested, LocateAll, Ahead;
      var base := base0;
      if tc.xmlBase != "" {
        base := JoinBase(r, base, tc.xmlBase);
      }
      ghost var whole := done0 + Flatten(r, base0, dir, key, tc);
      ghost var nested := FlattenNested(r, base, dir, key, tc.nested);
      ghost var done := done0;
      BlockAhead(r, base0, dir, key, tc, done0);
      for k := 0 to |tc.tests|
        invariant AfterReading(r, seen0, done, seen, out)
        invariant Ahead(done, LocateAll(base, dir, key, tc.tests[k..]) + nested, whole)
      {
        ghost var t := Located(base, dir, key, tc.tests[k]);
        ghost var later := LocateAll(base, dir, key, tc.tests[k + 1..]) + nested;
        TestsNext(base, dir, key, tc.tests, k, nested);
        AheadNext(done, [t], later, LocateAll(base, dir, key, tc.tests[k..]) + nested, whole);
        ok := AppendTest(r, base, dir, key, tc.tests[k], seen0, done);
        done := done + [t];
        if !ok {
          AheadFails(r, seen0, done, later, whole);
          return false;
        }
      }
      NestedAhead(r, base, dir, key, tc, done, whole);
      for k := 0 to |tc.nested|
        invariant AfterReading(r, seen0, done, seen, out)
        invariant Ahead(done, FlattenNested(r, base, dir, key, tc.nested[k..]), whole)
      {
        ghost var part := Flatten(r, base, dir, key, tc.nested[k]);
        ghost var later := FlattenNested(r, base, dir, key, tc.nested[k + 1..]);
        FlattenNestedNext(r, base, dir, key, tc.nested, k);
        AheadNext(done, part, later, FlattenNested(r, base, dir, key, tc.nested[k..]), whole);
        ok := CollectCases(r, base, dir, key, tc.nested[k], seen0, done);
        done := done + part;
        if !ok {
          AheadFails(r, seen0, done, later, whole);
          return false;
        }
      }
      NothingNested(r, base, dir, key, tc.nested);
      AheadEnds(done, whole);
      ReadingBuilds(r, seen0, done, seen, out);
      return true;
    }

    method ReadItem(
        r: Root, base: string, dir: string, ghost key: string, item: TopElement,
        ghost seen0: set<string>, ghost done: seq<Located>)
      returns (ok: bool)
      requires AfterReading(r, seen0, done, seen, out)
      modifies this
      ensures ok <==> AllBuild(r, KeepFirst(seen0, done + FlattenItem(r, base, dir, key, item)))
      ensures ok ==> AfterReading(r, seen0, done + FlattenItem(r, base, dir, key, item), seen, out)
    {
      hide AfterReading, AllBuild, KeepFirst;
      match item
      case Block(cases) =>
        ok := CollectCases(r, base, dir, key, cases, seen0, done);
      case Single(test) =>
        ok := AppendTest(r, base, dir, key, test, seen0, done);
      case Other =>
        assert done + [] == done;
        ReadingBuilds(r, seen0, done, seen, out);
        ok := true;
    }

    method ParseCollection(r: Root, base: string, dir: string, ghost key: string, items: seq<TopElement>)
      returns (ok: bool)
      modifies this
      ensures ok <==> AllBuild(r, KeepFirst(old(seen), FlattenItems(r, base, dir, key, items)))
      ensures ok ==> AfterReading(r, old(seen), FlattenItems(r, base, dir, key, items), seen, out)
    {
      out := [];
      ghost var seen0 := seen;
      assert AfterReading(r, seen0, [], seen, out);
      hide AfterReading, AllBuild, KeepFirst, Ahead, FlattenItem, FlattenItems;
      ghost var done: seq<Located> := [];
      ghost var whole := FlattenItems(r, base, dir, key, items);
      ItemsAhead(r, base, dir, key, items);
      for k := 0 to |items|
        invariant AfterReading(r, seen0, done, seen, out)
        invariant Ahead(done, FlattenItems(r, base, dir, key, items[k..]), whole)
      {
        ghost var part := FlattenItem(r, base, dir, key, items[k]);
        ghost var later := FlattenItems(r, base, dir, key, items[k + 1..]);
        FlattenItemsNext(r, base, dir, key, items, k);
        AheadNext(done, part, later, FlattenItems(r, base, dir, key, items[k..]), whole);
        ok := ReadItem(r, base, dir, key, items[k], seen0, done);
        done := done + part;
        if !ok {
          AheadFails(r, seen0, done, later, whole);
          return false;
        }
      }
      AheadEnds(done, whole);
      ReadingBuilds(r, seen0, done, seen, out);
      return true;
    }
  }

  /** Assembles the case of a resolved test. */
  method BuildCase(r: Root, uriRel: string, base: string, dir: string, ghost key: string, t: CatTest)
    returns (gc: Option<GenCase>)
    requires ResolveFixture(r, base, dir, t.uri) == Some(uriRel)
    ensures gc.Some? <==> Builds(r, Located(base, dir, key, t))
    ensures gc.Some? ==> gc.value == CaseOf(r, Located(base, dir, key, t))
    ensures gc.Some? ==>
              && gc.value.test == t && gc.value.uri == uriRel
              && (if t.output == "" then gc.value.output == ""
                  else ResolveFixture(r, base, dir, t.output) == Some(gc.value.output))
              && gc.value.fixtureRels ==
                 Closure(GraphOf(r), {uriRel}) + (if gc.value.output == "" then {} else {gc.value.output})
  {
    var output := "";
    if t.output != "" {
      var found := ResolveFixture(r, base, dir, t.output);
      if found.None? {
        return None;
      }
      output := found.value;
    }
    var fixtures := new FixtureMap();
    if output != "" {
      fixtures.rels := fixtures.rels + {output};
    }
    CollectClosure(r, uriRel, fixtures);
    return Some(GenCase(t, uriRel, output, fixtures.rels));
  }

  // ----- all collections -----

  function ByKey(ls: seq<Located>, key: string): seq<Located> {
    if ls == [] then []
    else ByKey(ls[..|ls| - 1], key) + if ls[|ls| - 1].key == key then [ls[|ls| - 1]] else []
  }

  lemma {:induction false} ByKeyAppend(a: seq<Located>, b: seq<Located>, key: string)
    ensures ByKey(a + b, key) == ByKey(a, key) + ByKey(b, key)
  {
    if b == [] {
      assert a + b == a;
    } else {
      ByKeyAppend(a, b[..|b| - 1], key);
      assert (a + b)[..|a + b| - 1] == a + b[..|b| - 1];
    }
  }

  ghost predicate AllKeyed(ls: seq<Located>, key: string) {
    forall l :: l in ls ==> l.key == key
  }

  lemma {:induction false} ByOwnKey(ls: seq<Located>, own: string, key: string)
    requires AllKeyed(ls, own)
    ensures ByKey(ls, key) == if key == own then ls else []
  {
    if ls != [] {
      ByOwnKey(ls[..|ls| - 1], own, key);
      assert ls[..|ls| - 1] + [ls[|ls| - 1]] == ls;
    }
  }

  lemma {:induction false} KeyedElsewhere(ls: seq<Located>, key: string)
    requires forall l :: l in ls ==> l.key != key
    ensures ByKey(ls, key) == []
  {
    if ls != [] {
      KeyedElsewhere(ls[..|ls| - 1], key);
    }
  }

  lemma {:induction false} KeptAreRead(seen: set<string>, ls: seq<Located>)
    ensures forall l :: l in KeepFirst(seen, ls) ==> l in ls && Eligible(l)
  {
    if ls != [] {
      KeptAreRead(seen, ls[..|ls| - 1]);
    }
  }

  lemma {:induction false} FlattenIsKeyed(r: Root, base: string, dir: string, key: string, tc: CatTestcases)
    ensures AllKeyed(Flatten(r, base, dir, key, tc), key)
    decreases tc
  {
    FlattenNestedIsKeyed(r, InForce(r, base, tc), dir, key, tc.nested);
  }

  lemma {:induction false} FlattenNestedIsKeyed(r: Root, base: string, dir: string, key: string, nested: seq<CatTestcases>)
    ensures AllKeyed(FlattenNested(r, base, dir, key, nested), key)
    decreases nested
  {
    if nested != [] {
      FlattenIsKeyed(r, base, dir, key, nested[0]);
      FlattenNestedIsKeyed(r, base, dir, key, nested[1..]);
    }
  }

  lemma {:induction false} FlattenItemsIsKeyed(r: Root, base: string, dir: string, key: string, items: seq<TopElement>)
    ensures AllKeyed(FlattenItems(r, base, dir, key, items), key)
  {
    if items != [] {
      if items[0].Block? {
        FlattenIsKeyed(r, base, dir, key, items[0].cases);
      }
      FlattenItemsIsKeyed(r, base, dir, key, items[1..]);
    }
  }

  predicate Acceptable(r: Root, ref: CollectionRef) {
    r.contained(ref.catalogFile) && ref.file.Parsed?
  }

  predicate AllAcceptable(r: Root, refs: seq<CollectionRef>) {
    forall k :: 0 <= k < |refs| ==> Acceptable(r, refs[k])
  }

  function KeysOf(refs: seq<CollectionRef>): set<string> {
    set ref | ref in refs :: CollectionKey(ref.catalogFile)
  }

  function Kept(r: Root, refs: seq<CollectionRef>): seq<Located> {
    KeepFirst({}, FlattenRefs(r, refs))
  }

  datatype CaseTable = CaseTable(byCollection: map<string, seq<GenCase>>, total: nat)

  /** The table holds the cases of `kept`, grouped by collection and in order. */
  ghost predicate Tabulates(r: Root, kept: seq<Located>, keys: set<string>, t: CaseTable) {
    && t.total == |kept|
    && t.byCollection.Keys == keys
    && (forall l :: l in kept ==> l.key in keys)
    && (forall key :: key in keys ==> AreCases(r, ByKey(kept, key), t.byCollection[key]))
  }

  lemma TabulatesOn(
      r: Root, kept: seq<Located>, keys: set<string>, t: CaseTable, key: string, more: seq<Located>, cases: seq<GenCase>)
    requires Tabulates(r, kept, keys, t) && AllKeyed(more, key) && AreCases(r, more, cases)
    ensures Tabulates(r, kept + more, keys + {key}, Extended(t, key, cases))
  {
    hide CaseOf, Builds, ByKey;
    if key !in keys {
      KeyedElsewhere(kept, key);
    }
    forall k | k in keys + {key}
      ensures ByKey(kept + more, k) == ByKey(kept, k) + if k == key then more else []
    {
      ByKeyAppend(kept, more, k);
      ByOwnKey(more, key, k);
    }
  }

  /** The reader has finished the first `k` collections. */
  ghost predicate Progress(r: Root, refs: seq<CollectionRef>, k: nat, seen: set<string>, t: CaseTable)
    requires k <= |refs|
  {
    && (forall i :: 0 <= i < k ==> Acceptable(r, refs[i]))
    && seen == Ids(Kept(r, refs[..k]))
    && AllBuild(r, Kept(r, refs[..k]))
    && Tabulates(r, Kept(r, refs[..k]), KeysOf(refs[..k]), t)
  }

  function Extended(t: CaseTable, key: string, cases: seq<GenCase>): CaseTable {
    var old' := if key in t.byCollection then t.byCollection[key] else [];
    CaseTable(t.byCollection[key := old' + cases], t.total + |cases|)
  }

  lemma CollectionAdds(
      r: Root, done: seq<Located>, ref: CollectionRef, seen0: set<string>, seen: set<string>, out: seq<GenCase>,
      keys: set<string>, t: CaseTable)
    requires seen0 == Ids(KeepFirst({}, done)) && AllBuild(r, KeepFirst({}, done))
    requires AfterReading(r, seen0, FlattenRef(r, ref), seen, out) && ref.file.Parsed?
    requires Tabulates(r, KeepFirst({}, done), keys, t)
    ensures seen == Ids(KeepFirst({}, done + FlattenRef(r, ref)))
    ensures AllBuild(r, KeepFirst({}, done + FlattenRef(r, ref)))
    ensures var key := CollectionKey(ref.catalogFile);
            Tabulates(r, KeepFirst({}, done + FlattenRef(r, ref)), keys + {key}, Extended(t, key, out))
  {
    hide KeepFirst, CaseOf, Builds, Ids, FlattenItems, Tabulates;
    var key, part := CollectionKey(ref.catalogFile), FlattenRef(r, ref);
    var front, back := KeepFirst({}, done), KeepFirst(seen0, part);
    assert {} + seen0 == seen0;
    KeepFirstAppend({}, done, part);
    IdsAppend(front, back);
    FlattenItemsIsKeyed(r, ref.base, r.dir(ref.catalogFile), key, ref.file.items);
    KeptAreRead(seen0, part);
    TabulatesOn(r, front, keys, t, key, back, out);
  }

  lemma ProgressStart(r: Root, refs: seq<CollectionRef>)
    ensures Progress(r, refs, 0, {}, CaseTable(map[], 0))
  {}

  lemma ProgressEnd(r: Root, refs: seq<CollectionRef>, seen: set<string>, t: CaseTable)
    requires Progress(r, refs, |refs|, seen, t)
    ensures AllAcceptable(r, refs) && AllBuild(r, Kept(r, refs))
    ensures Tabulates(r, Kept(r, refs), KeysOf(refs), t)
  {
    assert refs[..|refs|] == refs;
  }

  lemma NotAcceptable(r: Root, refs: seq<CollectionRef>, k: nat)
    requires k < |refs| && !Acceptable(r, refs[k])
    ensures !AllAcceptable(r, refs)
  {}

  lemma ProgressNext(
      r: Root, refs: seq<CollectionRef>, k: nat, seen0: set<string>, t: CaseTable, seen: set<string>, out: seq<GenCase>)
    requires k < |refs| && Progress(r, refs, k, seen0, t)
    requires Acceptable(r, refs[k]) && AfterReading(r, seen0, FlattenRef(r, refs[k]), seen, out)
    ensures Progress(r, refs, k + 1, seen, Extended(t, CollectionKey(refs[k].catalogFile), out))
  {
    hide Tabulates, AllBuild, KeepFirst, AfterReading, Ids, FlattenRef, CollectionKey, Extended;
    assert refs[..k + 1][..k] == refs[..k];
    CollectionAdds(r, FlattenRefs(r, refs[..k]), refs[k], seen0, seen, out, KeysOf(refs[..k]), t);
    assert refs[..k + 1] == refs[..k] + [refs[k]];
    assert KeysOf(refs[..k + 1]) == KeysOf(refs[..k]) + {CollectionKey(refs[k].catalogFile)};
  }

  lemma {:induction false} FlattenRefsPrefix(r: Root, refs: seq<CollectionRef>, k: nat)
    requires k <= |refs|
    ensures FlattenRefs(r, refs[..k]) <= FlattenRefs(r, refs)
  {
    if k < |refs| {
      FlattenRefsPrefix(r, refs[..|refs| - 1], k);
      assert refs[..|refs| - 1][..k] == refs[..k];
    } else {
      assert refs[..k] == refs;
    }
  }

  lemma ProgressFails(r: Root, refs: seq<CollectionRef>, k: nat, seen: set<string>, t: CaseTable)
    requires k < |refs| && Progress(r, refs, k, seen, t)
    requires !AllBuild(r, KeepFirst(seen, FlattenRef(r, refs[k])))
    ensures !AllBuild(r, Kept(r, refs))
  {
    hide KeepFirst, Builds, Ids, FlattenRef;
    var done, part := FlattenRefs(r, refs[..k]), FlattenRef(r, refs[k]);
    var front, back := KeepFirst({}, done), KeepFirst(seen, part);
    assert {} + seen == seen;
    KeepFirstAppend({}, done, part);
    assert !AllBuild(r, front + back) by {
      var i :| 0 <= i < |back| && !Builds(r, back[i]);
      assert (front + back)[|front| + i] == back[i];
    }
    assert refs[..k + 1][..k] == refs[..k];
    FlattenRefsPrefix(r, refs, k + 1);
    var all := FlattenRefs(r, refs);
    assert all == (done + part) + all[|done + part|..];
    FailureStays(r, {}, done + part, all[|done + part|..]);
  }

  /** The catalogs are acceptable if each is inside the root, can be read and parses. */
  lemma AcceptableExactly(r: Root, refs: seq<CollectionRef>)
    ensures AllAcceptable(r, refs) <==> forall k :: 0 <= k < |refs| ==> r.contained(refs[k].catalogFile) && refs[k].file.Parsed?
  {}

  /** Reads every collection in catalog order. It succeeds exactly when every catalog
      can be read and every test that is first with its ID resolves, and then the
      table holds exactly those tests. */
  method ReadCases(r: Root, refs: seq<CollectionRef>) returns (result: Option<CaseTable>)
    ensures result.Some? <==> AllAcceptable(r, refs) && AllBuild(r, Kept(r, refs))
    ensures result.Some? ==> Tabulates(r, Kept(r, refs), KeysOf(refs), result.value)
    ensures result.Some? ==> forall k :: 0 <= k < |refs| ==> r.contained(refs[k].catalogFile) && refs[k].file.Parsed?
  {
    AcceptableExactly(r, refs);
    var reader := new Reader();
    var table := CaseTable(map[], 0);
    ProgressStart(r, refs);
    hide AllAcceptable, Progress, AllBuild, KeepFirst, AfterReading, Kept, Tabulates, KeysOf, CollectionKey, Extended, FlattenItems;
    for k := 0 to |refs|
      invariant Progress(r, refs, k, reader.seen, table)
      invariant fresh(reader)
    {
      var ref := refs[k];
      if !r.contained(ref.catalogFile) {
        NotAcceptable(r, refs, k);
        return None;
      }
      if !ref.file.Parsed? {
        NotAcceptable(r, refs, k);
        return None;
      }
      ghost var seen0 := reader.seen;
      var ok := reader.ParseCollection(r, ref.base, r.dir(ref.catalogFile), CollectionKey(ref.catalogFile), ref.file.items);
      if !ok {
        ProgressFails(r, refs, k, seen0, table);
        return None;
      }
      ProgressNext(r, refs, k, seen0, table, reader.seen, reader.out);
      table := Extended(table, CollectionKey(ref.catalogFile), reader.out);
    }
    ProgressEnd(r, refs, reader.seen, table);
    return Some(table);
  }

  // ----- what keeping the first test of each ID means -----

  /** No ID is kept twice, over all collections together. */
  lemma {:induction false} KeptIdsDistinct(seen: set<string>, ls: seq<Located>)
    ensures var kept := KeepFirst(seen, ls);
            && (forall i, j :: 0 <= i < j < |kept| ==> kept[i].test.id != kept[j].test.id)
            && (forall l :: l in kept ==> l.test.id !in seen)
  {
    if ls != [] {
      var front, l := ls[..|ls| - 1], ls[|ls| - 1];
      KeptIdsDistinct(seen, front);
      KeepFirstNext(seen, front, l);
      assert front + [l] == ls;
      hide KeepFirst, Eligible;
      var before := KeepFirst(seen, front);
      assert forall i :: 0 <= i < |before| ==> before[i] in before && before[i].test.id in Ids(before);
    }
  }

  /** No ID is lost: every eligible test has its ID kept, if it was not seen before. */
  lemma {:induction false} NoIdLost(seen: set<string>, ls: seq<Located>)
    ensures forall l :: l in ls && l.test.uri != "" && l.test.id != "" ==> l.test.id in seen + Ids(KeepFirst(seen, ls))
  {
    if ls != [] {
      var front, last := ls[..|ls| - 1], ls[|ls| - 1];
      NoIdLost(seen, front);
      KeepFirstNext(seen, front, last);
      IdsAppend(KeepFirst(seen, front), [last]);
      assert last.test.id in Ids([last]);
      hide KeepFirst, Eligible, Ids;
      assert front + [last] == ls;
    }
  }

  /** Each kept test is the first eligible one with its ID. */
  lemma {:induction false} KeptIsFirst(seen: set<string>, ls: seq<Located>, l: Located) returns (j: nat)
    requires l in KeepFirst(seen, ls)
    ensures j < |ls| && ls[j] == l && l.test.uri != "" && l.test.id != ""
    ensures forall m :: 0 <= m < j && ls[m].test.uri != "" ==> ls[m].test.id != l.test.id
  {
    hide Ids;
    var n := |ls| - 1;
    assert ls[..n] + [ls[n]] == ls;
    KeepFirstNext(seen, ls[..n], ls[n]);
    if l in KeepFirst(seen, ls[..n]) {
      j := KeptIsFirst(seen, ls[..n], l);
      assert forall m :: 0 <= m <= j ==> ls[m] == ls[..n][m];
    } else {
      j := n;
      NoIdLost(seen, ls[..n]);
      forall m | 0 <= m < j && Eligible(ls[m])
        ensures ls[m].test.id != l.test.id
      {
        assert ls[..n][m] == ls[m] && ls[m] in ls[..n];
      }
    }
  }

  // ----- the xml:base chain -----

  /** A way down from the block `tc` to a block nested in it. */
  predicate IsDescent(tc: CatTestcases, chain: seq<CatTestcases>) {
    && |chain| > 0 && chain[0] == tc
    && (forall i :: 0 < i < |chain| ==> chain[i] in chain[i - 1].nested)
  }

  /** The xml:base attributes on the way, from outside in. */
  function XmlBases(chain: seq<CatTestcases>): seq<string> {
    if chain == [] then []
    else (if chain[0].xmlBase == "" then [] else [chain[0].xmlBase]) + XmlBases(chain[1..])
  }

  /** Each base is joined below the one outside it, which counts as a directory with or
      without a slash at its end; the first one stands as it is if there is none
      outside. */
  function FoldBases(r: Root, base: string, bases: seq<string>): string
    decreases |bases|
  {
    if bases == [] then base
    else if base == "" then FoldBases(r, bases[0], bases[1..])
    else if base[|base| - 1] == '/' then FoldBases(r, r.join(base, bases[0]), bases[1..])
    else FoldBases(r, r.join(base + "/", bases[0]), bases[1..])
  }

  function BaseAlong(r: Root, base: string, chain: seq<CatTestcases>): string {
    FoldBases(r, base, XmlBases(chain))
  }

  lemma BaseAlongNext(r: Root, base: string, chain: seq<CatTestcases>)
    requires chain != []
    ensures BaseAlong(r, base, chain) == BaseAlong(r, InForce(r, base, chain[0]), chain[1..])
  {
    var later := XmlBases(chain[1..]);
    assert [] + later == later;
    assert ([chain[0].xmlBase] + later)[1..] == later;
  }

  ghost predicate EndsAt(
      r: Root, base: string, dir: string, key: string, tc: CatTestcases, l: Located, chain: seq<CatTestcases>) {
    && IsDescent(tc, chain)
    && l.test in chain[|chain| - 1].tests
    && l == Located(BaseAlong(r, base, chain), dir, key, l.test)
  }

  ghost predicate LiesUnder(r: Root, base: string, dir: string, key: string, tc: CatTestcases, l: Located) {
    exists chain :: EndsAt(r, base, dir, key, tc, l, chain)
  }

  /** Flattening finds every test of every nested block, with the xml:base attributes
      on the way down to it folded into its base, and nothing else. */
  lemma {:induction false} FlattenFollowsChains(r: Root, base: string, dir: string, key: string, tc: CatTestcases, l: Located)
    ensures l in Flatten(r, base, dir, key, tc) <==> LiesUnder(r, base, dir, key, tc, l)
    decreases tc
  {
    var base' := InForce(r, base, tc);
    forall k | 0 <= k < |tc.nested|
      ensures l in Flatten(r, base', dir, key, tc.nested[k]) <==> LiesUnder(r, base', dir, key, tc.nested[k], l)
    {
      FlattenFollowsChains(r, base', dir, key, tc.nested[k], l);
    }
    InFlattenNested(r, base', dir, key, tc.nested, l);
    if l in LocateAll(base', dir, key, tc.tests) {
      assert [tc][1..] == [];
      BaseAlongNext(r, base, [tc]);
      assert EndsAt(r, base, dir, key, tc, l, [tc]);
    } else if k :| 0 <= k < |tc.nested| && LiesUnder(r, base', dir, key, tc.nested[k], l) {
      ChainGrows(r, base, dir, key, tc, k, l);
    }
    if LiesUnder(r, base, dir, key, tc, l) {
      ChainShrinks(r, base, dir, key, tc, l);
    }
  }

  lemma ChainGrows(r: Root, base: string, dir: string, key: string, tc: CatTestcases, k: nat, l: Located)
    requires k < |tc.nested| && LiesUnder(r, InForce(r, base, tc), dir, key, tc.nested[k], l)
    ensures LiesUnder(r, base, dir, key, tc, l)
  {
    var chain :| EndsAt(r, InForce(r, base, tc), dir, key, tc.nested[k], l, chain);
    assert ([tc] + chain)[1..] == chain;
    BaseAlongNext(r, base, [tc] + chain);
    assert EndsAt(r, base, dir, key, tc, l, [tc] + chain);
  }

  lemma ChainShrinks(r: Root, base: string, dir: string, key: string, tc: CatTestcases, l: Located)
    requires LiesUnder(r, base, dir, key, tc, l)
    ensures l in LocateAll(InForce(r, base, tc), dir, key, tc.tests)
         || exists k :: 0 <= k < |tc.nested| && LiesUnder(r, InForce(r, base, tc), dir, key, tc.nested[k], l)
  {
    var chain :| EndsAt(r, base, dir, key, tc, l, chain);
    BaseAlongNext(r, base, chain);
    if |chain| == 1 {
      var i :| 0 <= i < |tc.tests| && tc.tests[i] == l.test;
      assert chain[1..] == [] && BaseAlong(r, InForce(r, base, tc), []) == InForce(r, base, tc);
      assert LocateAll(InForce(r, base, tc), dir, key, tc.tests)[i] == l;
    } else {
      var k :| 0 <= k < |tc.nested| && tc.nested[k] == chain[1];
      assert EndsAt(r, InForce(r, base, tc), dir, key, tc.nested[k], l, chain[1..]);
    }
  }

  lemma {:induction false} InFlattenNested(
      r: Root, base: string, dir: string, key: string, nested: seq<CatTestcases>, l: Located)
    ensures l in FlattenNested(r, base, dir, key, nested) <==>
            exists k :: 0 <= k < |nested| && l in Flatten(r, base, dir, key, nested[k])
  {
    if nested != [] {
      InFlattenNested(r, base, dir, key, nested[1..], l);
      forall k | 0 < k < |nested|
        ensures nested[k] == nested[1..][k - 1]
      {}
    }
  }

  /** Nested bases are joined, whether or not the outer one ends in a slash. */
  lemma NestedBasesJoin(r: Root, dir: string, key: string, outer: string, t: CatTest)
    requires outer == "ibm/" || outer == "ibm"
    ensures var inner := CatTestcases("valid/", [t], []);
            Flatten(r, "", dir, key, CatTestcases(outer, [], [inner]))
            == [Located(r.join("ibm/", "valid/"), dir, key, t)]
  {
    var inner := CatTestcases("valid/", [t], []);
    var tc := CatTestcases(outer, [], [inner]);
    var base := r.join("ibm/", "valid/");
    assert "ibm" + "/" == "ibm/";
    assert InForce(r, "", tc) == outer && InForce(r, outer, inner) == base;
    hide InForce, JoinBase;
    assert FlattenNested(r, base, dir, key, []) == [];
    assert Flatten(r, outer, dir, key, inner) == [Located(base, dir, key, t)];
    BlocksInOrder(r, outer, dir, key, [], []);
    assert FlattenNested(r, outer, dir, key, [inner]) == Flatten(r, outer, dir, key, inner);
    assert LocateAll(outer, dir, key, []) == [];
  }

  // ----- document order -----

  /** The tests of a block stand in front of those of the blocks in it, and these in
      their order, each block as a whole. */
  lemma {:induction false} BlocksInOrder(
      r: Root, base: string, dir: string, key: string, a: seq<CatTestcases>, b: seq<CatTestcases>)
    ensures FlattenNested(r, base, dir, key, a + b)
         == FlattenNested(r, base, dir, key, a) + FlattenNested(r, base, dir, key, b)
    ensures forall tc :: FlattenNested(r, base, dir, key, [tc]) == Flatten(r, base, dir, key, tc)
  {
    forall tc: CatTestcases ensures FlattenNested(r, base, dir, key, [tc]) == Flatten(r, base, dir, key, tc) {
      assert [tc][1..] == [] && FlattenNested(r, base, dir, key, []) == [];
    }
    if a == [] {
      assert a + b == b;
    } else {
      BlocksInOrder(r, base, dir, key, a[1..], b);
      assert (a + b)[1..] == a[1..] + b;
    }
  }

  lemma TestsInFront(r: Root, base: string, dir: string, key: string, tc: CatTestcases, i: nat)
    requires i < |tc.tests|
    ensures i < |Flatten(r, base, dir, key, tc)|
    ensures Flatten(r, base, dir, key, tc)[i] == Located(BaseAlong(r, base, [tc]), dir, key, tc.tests[i])
    ensures Flatten(r, base, dir, key, tc)[|tc.tests|..]
         == FlattenNested(r, BaseAlong(r, base, [tc]), dir, key, tc.nested)
  {
    BaseAlongNext(r, base, [tc]);
    assert [tc][1..] == [];
  }

  lemma {:induction false} ItemsInOrder(
      r: Root, base: string, dir: string, key: string, a: seq<TopElement>, b: seq<TopElement>)
    ensures FlattenItems(r, base, dir, key, a + b)
         == FlattenItems(r, base, dir, key, a) + FlattenItems(r, base, dir, key, b)
  {
    hide FlattenItem;
    if a == [] {
      assert a + b == b;
    } else {
      ItemsInOrder(r, base, dir, key, a[1..], b);
      assert (a + b)[1..] == a[1..] + b && (a + b)[0] == a[0];
      hide FlattenItems;
      Regroup(FlattenItem(r, base, dir, key, a[0]), FlattenItems(r, base, dir, key, a[1..]),
              FlattenItems(r, base, dir, key, b));
    }
  }

  lemma Regroup<T>(a: seq<T>, b: seq<T>, c: seq<T>)
    ensures (a + b) + c == a + (b + c)
  {}

  lemma RefsNext(r: Root, refs: seq<CollectionRef>, ref: CollectionRef)
    ensures FlattenRefs(r, refs + [ref]) == FlattenRefs(r, refs) + FlattenRef(r, ref)
  {
    assert (refs + [ref])[..|refs|] == refs;
  }

  lemma {:induction false} CollectionsInOrder(r: Root, a: seq<CollectionRef>, b: seq<CollectionRef>)
    ensures FlattenRefs(r, a + b) == FlattenRefs(r, a) + FlattenRefs(r, b)
  {
    hide FlattenRefs, FlattenRef;
    if b == [] {
      NoRefs(r);
      assert a + b == a;
      assert FlattenRefs(r, a) + [] == FlattenRefs(r, a);
    } else {
      var front, last := b[..|b| - 1], b[|b| - 1];
      assert front + [last] == b;
      CollectionsInOrder(r, a, front);
      RefsNext(r, a + front, last);
      RefsNext(r, front, last);
      Regroup(a, front, [last]);
      Regroup(FlattenRefs(r, a), FlattenRefs(r, front), FlattenRef(r, last));
    }
  }

  lemma NoRefs(r: Root)
    ensures FlattenRefs(r, []) == []
  {}

  /** Item `j` of the catalog of `ref` is the test of `l` or a block it lies under. */
  ghost predicate Holds(r: Root, ref: CollectionRef, j: int, l: Located) {
    && ref.file.Parsed? && 0 <= j < |ref.file.items|
    && var dir, item := r.dir(ref.catalogFile), ref.file.items[j];
       && l.catalogDir == dir
       && l.key == CollectionKey(ref.catalogFile)
       && ((item.Single? && l == Located(ref.base, dir, l.key, item.test))
           || (item.Block? && LiesUnder(r, ref.base, dir, l.key, item.cases, l)))
  }

  lemma {:induction false} InItems(r: Root, ref: CollectionRef, n: nat, l: Located)
    requires ref.file.Parsed? && n <= |ref.file.items|
    ensures l in FlattenItems(r, ref.base, r.dir(ref.catalogFile), CollectionKey(ref.catalogFile), ref.file.items[..n]) <==>
            exists j :: 0 <= j < n && Holds(r, ref, j, l)
  {
    var dir, key, items := r.dir(ref.catalogFile), CollectionKey(ref.catalogFile), ref.file.items;
    if n > 0 {
      InItems(r, ref, n - 1, l);
      ItemsInOrder(r, ref.base, dir, key, items[..n - 1], [items[n - 1]]);
      assert items[..n - 1] + [items[n - 1]] == items[..n];
      ItemHolds(r, ref, n - 1, l);
      OneItem(r, ref.base, dir, key, items[n - 1]);
      hide Holds, FlattenItems, FlattenItem, CollectionKey;
    }
  }

  lemma OneItem(r: Root, base: string, dir: string, key: string, item: TopElement)
    ensures FlattenItems(r, base, dir, key, [item]) == FlattenItem(r, base, dir, key, item)
  {
    assert [item][1..] == [] && FlattenItems(r, base, dir, key, []) == [];
  }

  lemma ItemHolds(r: Root, ref: CollectionRef, j: nat, l: Located)
    requires ref.file.Parsed? && j < |ref.file.items|
    ensures l in FlattenItem(r, ref.base, r.dir(ref.catalogFile), CollectionKey(ref.catalogFile), ref.file.items[j]) <==>
            Holds(r, ref, j, l)
  {
    hide Flatten, CollectionKey;
    var dir, key := r.dir(ref.catalogFile), CollectionKey(ref.catalogFile);
    if ref.file.items[j].Block? {
      var tc := ref.file.items[j].cases;
      FlattenFollowsChains(r, ref.base, dir, key, tc, l);
      FlattenIsKeyed(r, ref.base, dir, key, tc);
    }
  }

  /** Flattening all collections finds exactly the tests their catalogs hold. */
  lemma {:induction false} FlattenedExactly(r: Root, refs: seq<CollectionRef>, l: Located)
    ensures l in FlattenRefs(r, refs) <==> exists i, j :: 0 <= i < |refs| && Holds(r, refs[i], j, l)
  {
    hide Holds, FlattenItems, CollectionKey;
    if refs != [] {
      var front, ref := refs[..|refs| - 1], refs[|refs| - 1];
      FlattenedExactly(r, front, l);
      assert refs == front + [ref];
      if ref.file.Parsed? {
        InItems(r, ref, |ref.file.items|, l);
        assert ref.file.items[..|ref.file.items|] == ref.file.items;
      }
      HoldsParsed(r, ref, l);
      assert l in FlattenRef(r, ref) <==> exists j :: Holds(r, ref, j, l);
    }
  }

  lemma HoldsParsed(r: Root, ref: CollectionRef, l: Located)
    ensures forall j :: Holds(r, ref, j, l) ==> ref.file.Parsed? && 0 <= j < |ref.file.items|
  {}

  /** The key of a collection is the first segment of its catalog's path. */
  lemma KeyIsFirstSegment(a: string, b: string)
    requires '/' !in a
    ensures CollectionKey(a + "/" + b) == if a == "" then "misc" else a
    ensures CollectionKey(a) == if a == "" then "misc" else a
  {
    BeforeAppends(a, "/" + b, '/');
    assert a + "/" + b == a + ("/" + b) && a + "" == a;
    BeforeAppends(a, "", '/');
  }
}
