/** The XSD suite's two catalog readers: the XSD 1.1 generator, which lists the
    fixtures of one test group at a time, and the XSD 1.0 list of everything the
    run-time reader opens. */
module XsdCatalog {
  import opened Common
  import opened ReferenceGraph
  import SchemaClosure

  type Suite = SchemaClosure.Suite

  datatype Expected = Expected(validity: string, version: string)
  datatype SchemaTest = SchemaTest(documents: seq<string>, expected: seq<Expected>)
  datatype InstanceTest = InstanceTest(name: string, document: string, expected: seq<Expected>)
  datatype TestGroup = TestGroup(
    name: string, version: string, schemaTest: Option<SchemaTest>, instanceTests: seq<InstanceTest>)

  datatype GenInstance = GenInstance(name: string, rel: string, valid: bool)
  datatype GenCase = GenCase(
    id: string, schemaRel: string, schemaValid: bool, schemaDocs: seq<string>,
    instances: seq<GenInstance>, fixtureRels: set<string>)

  function GraphOf(s: Suite): Graph {
    SchemaClosure.GraphOf(s)
  }

  // ----- version-aware expectations -----

  function FirstWithVersion(exps: seq<Expected>, version: string): Option<Expected> {
    if exps == [] then None
    else if exps[0].version == version then Some(exps[0])
    else FirstWithVersion(exps[1..], version)
  }

  function PickValidity(exps: seq<Expected>): Option<bool> {
    if exps == [] then None
    else
      var for11 := FirstWithVersion(exps, "1.1");
      var forAny := FirstWithVersion(exps, "");
      var chosen := if for11.Some? then for11.value else if forAny.Some? then forAny.value else exps[0];
      if chosen.validity == "valid" then Some(true)
      else if chosen.validity == "invalid" then Some(false)
      else None
  }

  /** The expectation for XSD 1.1 counts, else the one for no version, else the first;
      of several that qualify the earliest. */
  ghost predicate Counts(exps: seq<Expected>, k: int) {
    0 <= k < |exps| &&
    if exists i :: 0 <= i < |exps| && exps[i].version == "1.1"
    then exps[k].version == "1.1" && forall j :: 0 <= j < k ==> exps[j].version != "1.1"
    else if exists i :: 0 <= i < |exps| && exps[i].version == ""
    then exps[k].version == "" && forall j :: 0 <= j < k ==> exps[j].version != ""
    else k == 0
  }

  lemma {:induction false} FirstWithVersionAt(exps: seq<Expected>, version: string) returns (k: nat)
    ensures k <= |exps| && forall j :: 0 <= j < k ==> exps[j].version != version
    ensures if k < |exps| then exps[k].version == version && FirstWithVersion(exps, version) == Some(exps[k])
            else FirstWithVersion(exps, version) == None
  {
    if exps == [] || exps[0].version == version {
      return 0;
    }
    k := FirstWithVersionAt(exps[1..], version);
    k := k + 1;
  }

  /** The validity picked is that of the expectation that counts, and there is one
      unless there are no expectations. */
  lemma PickedIsWhatCounts(exps: seq<Expected>) returns (k: int)
    ensures exps == [] ==> PickValidity(exps) == None
    ensures exps != [] ==> Counts(exps, k)
    ensures exps != [] ==>
              && (exps[k].validity == "valid" ==> PickValidity(exps) == Some(true))
              && (exps[k].validity == "invalid" ==> PickValidity(exps) == Some(false))
              && (exps[k].validity != "valid" && exps[k].validity != "invalid" ==> PickValidity(exps) == None)
  {
    k := 0;
    if exps != [] {
      var for11 := FirstWithVersionAt(exps, "1.1");
      var forAny := FirstWithVersionAt(exps, "");
      hide FirstWithVersion;
      k := if for11 < |exps| then for11 else if forAny < |exps| then forAny else 0;
      assert for11 < |exps| ==> exps[for11].version == "1.1";
      assert forAny < |exps| ==> exps[forAny].version == "";
    }
  }

  // ----- one XSD 1.1 case -----

  function Resolved(s: Suite, href: string, documents: seq<string>): seq<string> {
    seq(|documents|, i requires 0 <= i < |documents| => s.resolve(href, documents[i]))
  }

  predicate Keeps(s: Suite, href: string, it: InstanceTest) {
    && PickValidity(it.expected).Some?
    && s.contained(s.resolve(href, it.document))
    && s.onDisk(s.resolve(href, it.document))
  }

  /** The instance tests a case keeps, in catalog order. */
  function KeptInstances(s: Suite, href: string, tests: seq<InstanceTest>): seq<GenInstance> {
    if tests == [] then []
    else
      var it := tests[|tests| - 1];
      KeptInstances(s, href, tests[..|tests| - 1]) +
      if Keeps(s, href, it)
      then [GenInstance(it.name, s.resolve(href, it.document), PickValidity(it.expected).value)]
      else []
  }

  function InstanceRels(instances: seq<GenInstance>): set<string> {
    set it | it in instances :: it.rel
  }

  /** `it` is what a case keeps of the instance test `test`: its validity is picked, its
      document is contained and on disk. */
  predicate KeptOf(s: Suite, href: string, test: InstanceTest, it: GenInstance) {
    && PickValidity(test.expected) == Some(it.valid)
    && it.name == test.name
    && it.rel == s.resolve(href, test.document)
    && s.contained(it.rel) && s.onDisk(it.rel)
  }

  lemma {:induction false} KeptExactly(s: Suite, href: string, tests: seq<InstanceTest>, it: GenInstance)
    ensures it in KeptInstances(s, href, tests) <==> exists k :: 0 <= k < |tests| && KeptOf(s, href, tests[k], it)
  {
    hide PickValidity;
    if tests != [] {
      var front, last := tests[..|tests| - 1], tests[|tests| - 1];
      KeptExactly(s, href, front, it);
      assert tests == front + [last];
      assert it in KeptInstances(s, href, tests) <==>
             it in KeptInstances(s, href, front) || KeptOf(s, href, last, it);
      hide KeptInstances, KeptOf;
      assert forall k :: 0 <= k < |front| ==> tests[k] == front[k];
    }
  }

  /** Assembles the case of a test group found in the test set `href`. Its fixtures
      come from one closure of the schema documents and one per kept instance; they
      are the single closure of all those documents together. */
  method BuildCase(s: Suite, href: string, g: TestGroup) returns (r: Option<GenCase>)
    ensures r.Some? <==>
            && g.schemaTest.Some? && |g.schemaTest.value.documents| > 0
            && PickValidity(g.schemaTest.value.expected).Some?
            && s.resolve(href, g.schemaTest.value.documents[0]) in GraphOf(s)
    ensures r.Some? ==>
            && r.value.id == href + "/" + g.name
            && Some(r.value.schemaValid) == PickValidity(g.schemaTest.value.expected)
            && r.value.schemaDocs == Resolved(s, href, g.schemaTest.value.documents)
            && r.value.schemaRel == r.value.schemaDocs[0]
            && r.value.instances == KeptInstances(s, href, g.instanceTests)
            && r.value.fixtureRels ==
               Closure(GraphOf(s), Elements(r.value.schemaDocs) + InstanceRels(r.value.instances))
  {
    hide SchemaClosure.GraphOf, Distinct, PickValidity;
    if g.schemaTest.None? || |g.schemaTest.value.documents| == 0 {
      return None;
    }
    var schemaTest := g.schemaTest.value;
    var schemaValid := PickValidity(schemaTest.expected);
    if schemaValid.None? {
      return None;
    }
    var primaryRel := s.resolve(href, schemaTest.documents[0]);
    var schemaRels := Resolved(s, href, schemaTest.documents);
    var fixtures, _ := SchemaClosure.Collect(s, schemaRels);
    assert primaryRel in fixtures <==> primaryRel in GraphOf(s) by {
      assert primaryRel == schemaRels[0];
      if primaryRel in GraphOf(s) {
        ClosureHasSeeds(GraphOf(s), Elements(schemaRels), primaryRel);
      }
    }
    if primaryRel !in fixtures {
      return None;
    }
    var instances: seq<GenInstance> := [];
    ghost var tests := g.instanceTests;
    assert Elements(schemaRels) + InstanceRels([]) == Elements(schemaRels);
    for k := 0 to |g.instanceTests|
      invariant instances == KeptInstances(s, href, tests[..k])
      invariant fixtures == Closure(GraphOf(s), Elements(schemaRels) + InstanceRels(instances))
    {
      var it := g.instanceTests[k];
      assert tests[..k + 1][..k] == tests[..k];
      var valid := PickValidity(it.expected);
      if valid.None? {
        continue;
      }
      var rel := s.resolve(href, it.document);
      if !s.contained(rel) {
        continue;
      }
      if !s.onDisk(rel) {
        continue;
      }
      var more, _ := SchemaClosure.Collect(s, [rel]);
      OneMoreInstance(GraphOf(s), Elements(schemaRels), instances, GenInstance(it.name, rel, valid.value));
      fixtures := fixtures + more;
      instances := instances + [GenInstance(it.name, rel, valid.value)];
    }
    assert tests[..|tests|] == tests;
    return Some(GenCase(href + "/" + g.name, primaryRel, schemaValid.value, schemaRels, instances, fixtures));
  }

  lemma OneMoreInstance(g: Graph, docs: set<string>, instances: seq<GenInstance>, it: GenInstance)
    ensures Closure(g, docs + InstanceRels(instances + [it]))
         == Closure(g, docs + InstanceRels(instances)) + Closure(g, Elements([it.rel]))
  {
    assert docs + InstanceRels(instances + [it])
        == (docs + InstanceRels(instances)) + Elements([it.rel]);
    ClosureDistributes(g, docs + InstanceRels(instances), Elements([it.rel]));
  }

  // ----- the XSD 1.0 list -----

  datatype TestSetFile = Unreadable | Malformed | Parsed(version: string, groups: seq<TestGroup>)
  datatype TestSetRef = TestSetRef(href: string, file: TestSetFile)

  predicate Is11(groupVersion: string, setVersion: string) {
    groupVersion == "1.1" || setVersion == "1.1"
  }

  /** A named test set that escapes the root or does not parse stops the reader. */
  predicate Acceptable(s: Suite, ref: TestSetRef) {
    ref.href == "" || (s.contained(ref.href) && !ref.file.Malformed?)
  }

  predicate Read(ref: TestSetRef) {
    ref.href != "" && ref.file.Parsed?
  }

  function GroupDocs(s: Suite, href: string, g: TestGroup): seq<string> {
    if g.schemaTest.None? || |g.schemaTest.value.documents| == 0 then []
    else
      Resolved(s, href, g.schemaTest.value.documents)
      + seq(|g.instanceTests|, i requires 0 <= i < |g.instanceTests| => s.resolve(href, g.instanceTests[i].document))
  }

  /** The documents of the groups not tagged 1.1, group by group. */
  function GroupsDocs(s: Suite, href: string, version: string, groups: seq<TestGroup>): seq<string> {
    if groups == [] then []
    else
      var g := groups[|groups| - 1];
      GroupsDocs(s, href, version, groups[..|groups| - 1])
      + if Is11(g.version, version) then [] else GroupDocs(s, href, g)
  }

  function ListedDocs(s: Suite, refs: seq<TestSetRef>): seq<string> {
    if refs == [] then []
    else
      var ref := refs[|refs| - 1];
      ListedDocs(s, refs[..|refs| - 1])
      + if Read(ref) then GroupsDocs(s, ref.href, ref.file.version, ref.file.groups) else []
  }

  function ListedSets(s: Suite, refs: seq<TestSetRef>): set<string> {
    set ref | ref in refs && Read(ref) :: s.clean(ref.href)
  }

  lemma AddDocs(s: Suite, docs: seq<string>, more: seq<string>)
    ensures Closure(GraphOf(s), Elements(docs + more))
         == Closure(GraphOf(s), Elements(docs)) + Closure(GraphOf(s), Elements(more))
  {
    assert Elements(docs + more) == Elements(docs) + Elements(more);
    ClosureDistributes(GraphOf(s), Elements(docs), Elements(more));
  }

  lemma NoDocs(s: Suite)
    ensures Closure(GraphOf(s), Elements([])) == {}
  {}

  /** The fixtures of one parsed test set, added to `rels0`. */
  method AddTestSet(s: Suite, href: string, version: string, groups: seq<TestGroup>, rels0: set<string>)
    returns (rels: set<string>)
    ensures rels == rels0 + Closure(GraphOf(s), Elements(GroupsDocs(s, href, version, groups)))
  {
    hide SchemaClosure.GraphOf, Distinct;
    rels := rels0;
    NoDocs(s);
    for k := 0 to |groups|
      invariant rels == rels0 + Closure(GraphOf(s), Elements(GroupsDocs(s, href, version, groups[..k])))
    {
      var g := groups[k];
      assert groups[..k + 1][..k] == groups[..k];
      if Is11(g.version, version) {
        continue;
      }
      AddDocs(s, GroupsDocs(s, href, version, groups[..k]), GroupDocs(s, href, g));
      if g.schemaTest.None? || |g.schemaTest.value.documents| == 0 {
        NoDocs(s);
        continue;
      }
      var docRels := GroupDocs(s, href, g);
      var found, _ := SchemaClosure.Collect(s, docRels);
      rels := rels + found;
    }
    assert groups[..|groups|] == groups;
  }

  /** Everything the XSD 1.0 reader opens: the catalog, every readable test set, and
      the single closure of all documents of the groups not tagged 1.1. */
  ghost function Listing(s: Suite, refs: seq<TestSetRef>): set<string> {
    {"suite.xml"} + ListedSets(s, refs) + Closure(GraphOf(s), Elements(ListedDocs(s, refs)))
  }

  lemma ListingNext(s: Suite, refs: seq<TestSetRef>, k: nat)
    requires k < |refs|
    ensures Listing(s, refs[..k + 1]) ==
            if Read(refs[k])
            then Listing(s, refs[..k]) + {s.clean(refs[k].href)}
                 + Closure(GraphOf(s), Elements(GroupsDocs(s, refs[k].href, refs[k].file.version, refs[k].file.groups)))
            else Listing(s, refs[..k])
  {
    hide SchemaClosure.GraphOf;
    assert refs[..k + 1] == refs[..k] + [refs[k]];
    assert ListedSets(s, refs[..k + 1])
        == ListedSets(s, refs[..k]) + if Read(refs[k]) then {s.clean(refs[k].href)} else {};
    if Read(refs[k]) {
      AddDocs(s, ListedDocs(s, refs[..k]),
              GroupsDocs(s, refs[k].href, refs[k].file.version, refs[k].file.groups));
    }
  }

  lemma ListedSetsAreListed(s: Suite, refs: seq<TestSetRef>)
    ensures "suite.xml" in Listing(s, refs)
    ensures forall k :: 0 <= k < |refs| && refs[k].href != "" && refs[k].file.Parsed? ==>
              s.clean(refs[k].href) in Listing(s, refs)
  {
    hide Closure, ListedDocs;
    forall k | 0 <= k < |refs| && refs[k].href != "" && refs[k].file.Parsed?
      ensures s.clean(refs[k].href) in ListedSets(s, refs)
    {
      assert refs[k] in refs && Read(refs[k]);
    }
  }

  lemma NothingListed(s: Suite, refs: seq<TestSetRef>)
    ensures Listing(s, refs[..0]) == {"suite.xml"}
  {
    NoDocs(s);
  }

  method ReadXsd10FixtureRels(s: Suite, refs: seq<TestSetRef>) returns (r: Option<set<string>>)
    ensures r.Some? <==>
            forall k :: 0 <= k < |refs| ==> refs[k].href == "" || (s.contained(refs[k].href) && refs[k].file != Malformed)
    ensures r.Some? ==> r.value == Listing(s, refs)
    ensures r.Some? ==> "suite.xml" in r.value
    ensures r.Some? ==> forall k :: 0 <= k < |refs| && refs[k].href != "" && refs[k].file.Parsed? ==>
                          s.clean(refs[k].href) in r.value
  {
    hide Listing, Closure, GroupsDocs, SchemaClosure.GraphOf, Elements;
    ListedSetsAreListed(s, refs);
    var rels := {"suite.xml"};
    NothingListed(s, refs);
    for k := 0 to |refs|
      invariant forall i :: 0 <= i < k ==> Acceptable(s, refs[i])
      invariant rels == Listing(s, refs[..k])
    {
      var ref := refs[k];
      ListingNext(s, refs, k);
      if ref.href == "" {
        continue;
      }
      if !s.contained(ref.href) {
        return None;
      }
      if ref.file.Unreadable? {
        continue;
      }
      if ref.file.Malformed? {
        return None;
      }
      rels := AddTestSet(s, ref.href, ref.file.version, ref.file.groups, rels + {s.clean(ref.href)});
    }
    assert refs[..|refs|] == refs;
    return Some(rels);
  }

  // ----- the two readers together -----

  function CaseDocs(s: Suite, href: string, g: TestGroup): set<string>
    requires g.schemaTest.Some?
  {
    Elements(Resolved(s, href, g.schemaTest.value.documents)) + InstanceRels(KeptInstances(s, href, g.instanceTests))
  }

  lemma {:induction false} KeptAreDeclared(s: Suite, href: string, tests: seq<InstanceTest>, it: GenInstance)
    requires it in KeptInstances(s, href, tests)
    ensures exists k :: 0 <= k < |tests| && it.rel == s.resolve(href, tests[k].document)
  {
    var n := |tests| - 1;
    if it in KeptInstances(s, href, tests[..n]) {
      KeptAreDeclared(s, href, tests[..n], it);
      var k :| 0 <= k < n && it.rel == s.resolve(href, tests[..n][k].document);
      assert tests[..n][k] == tests[k];
    } else {
      assert it.rel == s.resolve(href, tests[n].document);
    }
  }

  lemma {:induction false} GroupIsListed(s: Suite, href: string, version: string, groups: seq<TestGroup>, k: nat, p: string)
    requires k < |groups| && !Is11(groups[k].version, version) && p in GroupDocs(s, href, groups[k])
    ensures p in GroupsDocs(s, href, version, groups)
  {
    hide GroupDocs, Is11;
    var n := |groups| - 1;
    if k < n {
      assert groups[..n][k] == groups[k];
      GroupIsListed(s, href, version, groups[..n], k, p);
    }
  }

  lemma {:induction false} SetIsListed(s: Suite, refs: seq<TestSetRef>, i: nat, p: string)
    requires i < |refs| && Read(refs[i])
    requires p in GroupsDocs(s, refs[i].href, refs[i].file.version, refs[i].file.groups)
    ensures p in ListedDocs(s, refs)
  {
    hide GroupsDocs;
    var n := |refs| - 1;
    if i < n {
      assert refs[..n][i] == refs[i];
      SetIsListed(s, refs[..n], i, p);
    }
  }

  /** Group `k` of the set is not for XSD 1.1 and has a schema test with documents, and
      `p` is one of them or the document of one of its instance tests. */
  ghost predicate Declares(s: Suite, ref: TestSetRef, k: int, p: string) {
    && ref.file.Parsed? && 0 <= k < |ref.file.groups|
    && var g := ref.file.groups[k];
       && g.version != "1.1" && ref.file.version != "1.1"
       && g.schemaTest.Some? && |g.schemaTest.value.documents| > 0
       && ((exists d :: d in g.schemaTest.value.documents && p == s.resolve(ref.href, d))
           || exists it :: it in g.instanceTests && p == s.resolve(ref.href, it.document))
  }

  lemma GroupDeclares(s: Suite, ref: TestSetRef, k: int, p: string)
    requires ref.file.Parsed? && 0 <= k < |ref.file.groups|
    ensures Declares(s, ref, k, p) <==>
            !Is11(ref.file.groups[k].version, ref.file.version) && p in GroupDocs(s, ref.href, ref.file.groups[k])
  {
    var g := ref.file.groups[k];
    if g.schemaTest.Some? && |g.schemaTest.value.documents| > 0 {
      var docs, tests := g.schemaTest.value.documents, g.instanceTests;
      var resolved := Resolved(s, ref.href, docs);
      var declared := seq(|tests|, i requires 0 <= i < |tests| => s.resolve(ref.href, tests[i].document));
      assert GroupDocs(s, ref.href, g) == resolved + declared;
      assert forall i :: 0 <= i < |docs| ==> resolved[i] == s.resolve(ref.href, docs[i]);
      assert forall i :: 0 <= i < |tests| ==> declared[i] == s.resolve(ref.href, tests[i].document);
    }
  }

  lemma {:induction false} GroupsComeFrom(s: Suite, href: string, version: string, groups: seq<TestGroup>, p: string)
    returns (k: nat)
    requires p in GroupsDocs(s, href, version, groups)
    ensures k < |groups| && !Is11(groups[k].version, version) && p in GroupDocs(s, href, groups[k])
  {
    hide GroupDocs, Is11;
    var n := |groups| - 1;
    if p in GroupsDocs(s, href, version, groups[..n]) {
      k := GroupsComeFrom(s, href, version, groups[..n], p);
    } else {
      k := n;
    }
  }

  lemma {:induction false} SetsComeFrom(s: Suite, refs: seq<TestSetRef>, p: string) returns (i: nat)
    requires p in ListedDocs(s, refs)
    ensures i < |refs| && Read(refs[i])
    ensures p in GroupsDocs(s, refs[i].href, refs[i].file.version, refs[i].file.groups)
  {
    hide GroupsDocs;
    var n := |refs| - 1;
    if p in ListedDocs(s, refs[..n]) {
      i := SetsComeFrom(s, refs[..n], p);
    } else {
      i := n;
    }
  }

  /** The documents behind the XSD 1.0 list are those that a group of a named, readable
      test set declares, and no others. */
  lemma ListedExactly(s: Suite, refs: seq<TestSetRef>, p: string)
    ensures p in ListedDocs(s, refs) <==>
            exists i, k :: 0 <= i < |refs| && refs[i].href != "" && Declares(s, refs[i], k, p)
  {
    hide ListedDocs, GroupsDocs, GroupDocs, Declares, Is11;
    if p in ListedDocs(s, refs) {
      var i := SetsComeFrom(s, refs, p);
      var k := GroupsComeFrom(s, refs[i].href, refs[i].file.version, refs[i].file.groups, p);
      GroupDeclares(s, refs[i], k, p);
    }
    if i, k :| 0 <= i < |refs| && refs[i].href != "" && Declares(s, refs[i], k, p) {
      DeclaringSetIsParsed(s, refs[i], k, p);
      GroupDeclares(s, refs[i], k, p);
      GroupIsListed(s, refs[i].href, refs[i].file.version, refs[i].file.groups, k, p);
      SetIsListed(s, refs, i, p);
    }
  }

  lemma DeclaringSetIsParsed(s: Suite, ref: TestSetRef, k: int, p: string)
    requires Declares(s, ref, k, p)
    ensures ref.file.Parsed? && 0 <= k < |ref.file.groups|
  {}

  /** A dual-version group (a 1.1 expectation but no 1.1 tag) is run by both readers;
      every fixture of its XSD 1.1 case is on the XSD 1.0 list too. */
  lemma DualVersionFixturesAreListed(s: Suite, refs: seq<TestSetRef>, i: nat, k: nat)
    requires i < |refs| && Read(refs[i]) && k < |refs[i].file.groups|
    requires !Is11(refs[i].file.groups[k].version, refs[i].file.version)
    requires refs[i].file.groups[k].schemaTest.Some? && |refs[i].file.groups[k].schemaTest.value.documents| > 0
    ensures Closure(GraphOf(s), CaseDocs(s, refs[i].href, refs[i].file.groups[k]))
         <= Closure(GraphOf(s), Elements(ListedDocs(s, refs)))
  {
    var href, g := refs[i].href, refs[i].file.groups[k];
    forall p | p in CaseDocs(s, href, g)
      ensures p in ListedDocs(s, refs)
    {
      if p in InstanceRels(KeptInstances(s, href, g.instanceTests)) {
        var it :| it in KeptInstances(s, href, g.instanceTests) && it.rel == p;
        KeptAreDeclared(s, href, g.instanceTests, it);
        var j :| 0 <= j < |g.instanceTests| && p == s.resolve(href, g.instanceTests[j].document);
        assert GroupDocs(s, href, g)[|g.schemaTest.value.documents| + j] == p;
      }
      GroupIsListed(s, href, refs[i].file.version, refs[i].file.groups, k, p);
      SetIsListed(s, refs, i, p);
    }
    ClosureIsMonotone(GraphOf(s), CaseDocs(s, href, g), Elements(ListedDocs(s, refs)));
  }
}
