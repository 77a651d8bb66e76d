# Dafny model of the W3C conformance-suite generator and harness

The generator reads W3C test catalogs and writes Go test tables; the harness runs them
and rolls the results up. This project models the algorithmic parts of both and proves
what they are for.

- **Dependency closures.** The disk is a finite map from paths to references.
  `ReferenceGraph` defines the closure of a set of documents as the paths at the end of a
  chain of readable files and proves its laws. `SchemaClosure` and `XmlFixtures` are the
  two worklist loops; `XsdCatalog` builds the XSD fixture lists from them. `StylesheetDeps`
  is the mutually recursive walk over stylesheets and schemas, a class with one shared
  `visited` set and one result list, proved equal to a stack machine about which the
  properties are then proved, of its scans and of the result list its caller gets.
- **Comparing results.** `Permutation` is the greedy matcher, `DeepEqual` the recursive
  item equality, `CanonicalXml` the normal form of XML trees.
- **Compiling assertions.** `Qt3Assertions` gives assertion trees a meaning (which
  outcomes, a result or a raised error, they accept) and relates it to the emitted checks
  and flags. `XsltAssertions` is the XSLT emitter with its in-place skip filter.
- **Scanners.** `ExtendedRegex`, `XmlText` and `DistinguishedName` are index loops, each
  proved equal to a step function whose inverse or token form is then related to it.
- **Reading catalogs and event streams.** `XmlCatalog` is the XML suite's reader,
  `Qt3Plan` the two passes over the QT3 catalog, `TestSummary` and `JUnitReport` the two
  readers of a `go test -json` stream described by `GoTestEvents`.

`Common` and `Text` hold what the modules share. A method carries its loops and branches as the
source has them; the function or predicate in its contract is what the lemmas speak about. What
such a function means is stated apart from it, in literals, indices and whole inputs: which
attribute is a reference, which character a numeral names, which event decides a status.

## What the proofs found

- The greedy matcher decides whether a pairing exists, on all inputs, exactly for
  difunctional item relations (`GreedyDecidesExactlyWhenDifunctional`); equivalences are
  difunctional, a tolerance that is no equivalence is not (`GreedyMisses`). Carried to
  the items it compares, assert-permutation is exact if and only if atomic and node
  equality both are difunctional (`AssertPermutationDecidesPairingExactly`,
  `AtomsMislead`); the atomic one promotes numbers, so that is a condition on the library.
- A distinguished name whose last RDN is the CN and whose written value ends in white
  space is misread, even if that space is escaped as RFC 4514 section 2.4 prescribes,
  because trimming comes before unescaping. In every other case the CN comes back
  (`DecodingInvertsEncoding`, `EscapedLastSpaceIsLost`).
- The stylesheet walk marks a file visited whatever mode it is scanned in, so a file
  reached both as a stylesheet and as a schema is scanned in one mode only
  (`EverythingScannedExactlyWhenModesAgree`). Nothing is lost by that if such files refer
  to the same files in both modes (`ResultIsWhatIsNeeded`). But a target that only one
  mode of one file refers to is listed only if that mode is scanned: of a file with one
  in each mode at least one is lost, and the root stylesheet always loses those it has as
  a schema (`SecondModeIsLost`, with a directory in `SchemaReferenceIsLost`).
  Being reached in both modes need not lose anything (`BothModesCanBeComplete`).
- Some cases count as having a real assertion and yet accept every result: an all-of
  inside an any-of, an error inside an all-of (`UnflaggedWithoutChecks`). Without such
  shapes the false-pass flag is exact (`FlagIsExactOnPlainTrees`).
- The skip reason names a posture assertion that occurs exactly unless an all-of ends
  before the first one: an all-of without a posture of its own in front hides every
  later one (`PostureIsNamedExactly`, `PostureIsHidden`).
- A run of text without a single character is visible in the canonical form although it
  says nothing: `<e><![CDATA[]]></e>` and `<e/>` differ (`BlankRunShows`). With such runs
  marked, equal normal forms are exactly equal content (`CanonicalDecidesContent`).
- The JUnit report depends on the interleaving only when the package failed, no case
  began, and the last event naming a package differs (`ReportIgnoresInterleavingExactly`).
- A logged expected-failure reason is read back exactly if its first line is all of it
  but white space, does not hold `): ` and, before a line break, does not end in `)`; a
  reason of two lines is cut, because only
  the output event of the first line is looked at (`LoggedReasonIsRead`,
  `ReadableReasons`).
- The QT3 catalog excludes a whole test set by the set's own spec dependency, although a
  case's spec is documented to take precedence; exactly the cases naming their own
  applicable spec inside a set for something else are lost (`SetTestShutsOutExactly`,
  `OwnSpecIsShutOut`).
- A QT3 case whose first unmet requirement is waived runs even if a later one matters,
  such as an unsupported environment; in all other cases those that run are exactly
  those with nothing against them (`SkippedUnlessHidden`, `WaiverHidesEnvironment`).

## Model

| member | source | states |
|---|---|---|
| `Permutation.Qt3IsPermutation` | xpath3/qt3_helpers_test.go:1454-1478 | the nested loops over the used flags answer as the greedy matching does |
| `Permutation.PermutationIsSound` | xpath3/qt3_helpers_test.go:1454-1478 | for any item relation, true means a bijection pairs equal items |
| `Permutation.PermutationIsComplete` | xpath3/qt3_helpers_test.go:1454-1478 | for a difunctional relation, true whenever such a bijection exists |
| `Permutation.GreedyMisses` | xpath3/qt3_helpers_test.go:1463-1476 | two items on which any non-difunctional relation misleads the matcher |
| `Permutation.GreedyDecidesExactlyWhenDifunctional` | xpath3/qt3_helpers_test.go:1451-1478 | the matcher decides pairing on all inputs if and only if the relation is difunctional |
| `Permutation.PermutationIsMultisetEquality` | xpath3/qt3_helpers_test.go:1451-1478 | for a partial equivalence it decides multiset equality: equally many of every class, no item unequal to itself |
| `DeepEqual.EqualItemSymmetric` | xpath3/qt3_helpers_test.go:1616-1673 | structural item equality is symmetric if atomic and node equality are, at any nesting |
| `DeepEqual.EqualSeqSymmetric` | xpath3/qt3_helpers_test.go:1604-1614 | so is sequence equality |
| `DeepEqual.SameKeys` | xpath3/qt3_helpers_test.go:1646-1671 | equal sizes and a one-sided key scan give equal key sets |
| `DeepEqual.EqualItemTransitive` | xpath3/qt3_helpers_test.go:1616-1673 | item equality is transitive if atomic and node equality are |
| `DeepEqual.EqualSeqTransitive` | xpath3/qt3_helpers_test.go:1604-1614 | so is sequence equality |
| `DeepEqual.EqualItemReflexive` | xpath3/qt3_helpers_test.go:1616-1673 | an item equals itself exactly when no function item is nested in it |
| `DeepEqual.EqualSeqReflexive` | xpath3/qt3_helpers_test.go:1604-1614 | the same for sequences |
| `DeepEqual.EqualItemIsIdentity` | xpath3/qt3_helpers_test.go:1616-1673 | with identities for atomic values and nodes, equal items are the same item: arrays member by member, maps entry by entry |
| `DeepEqual.EqualSeqIsIdentity` | xpath3/qt3_helpers_test.go:1604-1614 | the same for sequences |
| `DeepEqual.EqualItemDifunctional` | xpath3/qt3_helpers_test.go:1616-1673 | items with a partner in common have all partners in common, at any nesting, if that holds of atomic values and nodes |
| `DeepEqual.EqualSeqDifunctional` | xpath3/qt3_helpers_test.go:1604-1614 | the same for sequences |
| `DeepEqual.ItemRelationIsDifunctional` | xpath3/qt3_helpers_test.go:1594-1673 | item equality is difunctional exactly when atomic and node equality are |
| `DeepEqual.AssertPermutationDecidesPairingExactly` | xpath3/qt3_helpers_test.go:1430-1478 | assert-permutation decides pairing on all inputs if and only if atomic and node equality are difunctional |
| `DeepEqual.AtomsMislead` | xpath3/qt3_helpers_test.go:1430-1478 | if atomic equality is not, two values on each side get a wrong answer |
| `DeepEqual.ItemRelationIsPartialEquivalence` | xpath3/qt3_helpers_test.go:1594-1673 | item equality is a partial equivalence exactly when atomic and node equality are |
| `DeepEqual.AssertPermutationDecidesMultisetEquality` | xpath3/qt3_helpers_test.go:1430-1478 | assert-permutation over deep equality accepts exactly the rearrangements free of function items |
| `ReferenceGraph.ClosureIsLeast` | internal/suites/xsd11/catalog.go:383-435 | the closure is contained in every closed set with the readable seeds |
| `ReferenceGraph.ClosureIsClosed` | internal/suites/xsd11/catalog.go:383-435 | the readable targets of its members are members |
| `ReferenceGraph.ClosureDistributes` | internal/suites/xsd11/catalog.go:209-218 | the closure of a union is the union of the closures |
| `ReferenceGraph.ClosureIsIdempotent` | internal/suites/xsd11/catalog.go:209-218 | closing a closure adds nothing |
| `ReferenceGraph.WalkFinished` | internal/suites/xsd11/catalog.go:388-435 | a worklist that has emptied has found exactly the closure and taken each path once |
| `SchemaClosure.LocationUris` | internal/suites/xsd11/catalog.go:441-451 | a lone field is a URI, otherwise every second one |
| `SchemaClosure.UrisOfPairs` | internal/suites/xsd11/catalog.go:437-451 | of a list of namespace and location pairs exactly the locations are taken, in order |
| `SchemaClosure.UrisAre` | internal/suites/xsd11/catalog.go:437-451 | the URIs of a location value are its only field, or the fields at odd indices, and nothing else |
| `SchemaClosure.EdgesExactly` | internal/suites/xsd11/catalog.go:405-432 | a contained, readable file leads to exactly what the URIs of its location values, unless absolute, resolve to |
| `SchemaClosure.ClosureFollowsLocations` | internal/suites/xsd11/catalog.go:405-432 | whatever a found file leads to is found, if contained and readable |
| `SchemaClosure.IncludeIsFound` | internal/suites/xsd11/catalog.go:443-445 | the file an include names by its lone location is found |
| `SchemaClosure.EnqueueTargets` | internal/suites/xsd11/catalog.go:410-432 | every target of a found file is enqueued, none twice, and the walk stays inside the closure |
| `SchemaClosure.Collect` | internal/suites/xsd11/catalog.go:388-435 | the loop ends, on cyclic graphs too, with exactly the contained, readable files reachable from the seeds; each path is dequeued at most once; what a location of a found file names is found |
| `XsdCatalog.PickedIsWhatCounts` | internal/suites/xsd11/catalog.go:281-311 | the validity is that of the first 1.1 expectation, else the first without version, else the first |
| `XsdCatalog.KeptExactly` | internal/suites/xsd11/catalog.go:348-372 | an instance is kept exactly if its validity is picked and its document is contained and on disk |
| `XsdCatalog.BuildCase` | internal/suites/xsd11/catalog.go:323-381 | when a case is built, and that its fixtures, gathered from several closures, are the single closure of schema and kept instance documents |
| `XsdCatalog.AddTestSet` | internal/suites/xsd11/catalog.go:194-219 | a test set adds the closure of the documents of its groups not tagged 1.1 |
| `XsdCatalog.ReadXsd10FixtureRels` | internal/suites/xsd11/catalog.go:170-228 | fails exactly on a named test set outside the root or malformed, else lists the catalog, the read test-set files and one closure of all their 1.0 documents |
| `XsdCatalog.ListedExactly` | internal/suites/xsd11/catalog.go:194-219 | those documents are the schema and instance documents of the groups with a schema test, tagged 1.1 neither themselves nor by their set |
| `XsdCatalog.DualVersionFixturesAreListed` | internal/suites/xsd11/catalog.go:172-228 | every fixture of a case both readers run is on the XSD 1.0 list |
| `XmlFixtures.ResolvesToExistingFile` | internal/suites/xml/catalog.go:459-483 | a relative reference means the first of base and catalog candidate that is an existing, contained file; refused exactly when there is none or it is absolute |
| `XmlFixtures.JoinsBelow` | internal/suites/xml/catalog.go:485-496 | a reference is joined below its base, with or without a slash at the end of that, and stands alone if there is none |
| `XmlFixtures.EdgesExactly` | internal/suites/xml/catalog.go:303-333 | a file that is looked into leads to exactly what its references, unless empty or with a scheme, name below its directory; other files lead nowhere |
| `XmlFixtures.EnqueueTargets` | internal/suites/xml/catalog.go:317-331 | every reference of a scannable file that may be followed is enqueued |
| `XmlFixtures.CollectClosure` | internal/suites/xml/catalog.go:303-333 | the caller's fixture map grows by exactly the closure of the start file |
| `XmlCatalog.Reader.AppendTest` | internal/suites/xml/catalog.go:234-252 | one test: skipped, kept as the first with its ID, or the failure of the whole reading |
| `XmlCatalog.Reader.CollectCases` | internal/suites/xml/catalog.go:212-227 | a nested block reads as its flattened tests with the folded base would |
| `XmlCatalog.Reader.ParseCollection` | internal/suites/xml/catalog.go:168-208 | a collection reads as its flattened tests would, and fails exactly when a kept one cannot be built |
| `XmlCatalog.BuildCase` | internal/suites/xml/catalog.go:256-287 | the case of a test exists exactly if its output reference resolves, with the stated content |
| `XmlCatalog.ReadCases` | internal/suites/xml/catalog.go:110-147 | success exactly when all catalogs are readable and all kept tests build; then the table holds, collection by collection, exactly flatten-then-keep-first, with the total |
| `XmlCatalog.KeptIdsDistinct` | internal/suites/xml/catalog.go:234-252 | no ID is kept twice over all collections |
| `XmlCatalog.NoIdLost` | internal/suites/xml/catalog.go:234-252 | every eligible test's ID is kept |
| `XmlCatalog.KeptIsFirst` | internal/suites/xml/catalog.go:234-252 | what is kept is the first eligible test with its ID |
| `XmlCatalog.FlattenFollowsChains` | internal/suites/xml/catalog.go:212-227 | flattening finds exactly the tests at the end of a chain of nested blocks, the non-empty bases on the chain joined from outside in |
| `XmlCatalog.NestedBasesJoin` | internal/suites/xml/catalog.go:212-215 | a test under "valid/" under "ibm/" has the join of both as its base |
| `XmlCatalog.TestsInFront` | internal/suites/xml/catalog.go:216-225 | the tests of a block come in order before the blocks in it |
| `XmlCatalog.BlocksInOrder` | internal/suites/xml/catalog.go:221-225 | blocks come one after the other |
| `XmlCatalog.ItemsInOrder` | internal/suites/xml/catalog.go:178-206 | so do the elements of a catalog |
| `XmlCatalog.CollectionsInOrder` | internal/suites/xml/catalog.go:118-139 | so do the collections |
| `XmlCatalog.FlattenedExactly` | internal/suites/xml/catalog.go:118-206 | over all collections, exactly the bare tests and the tests under the blocks of the parsed catalogs, with their base, directory and key |
| `XmlCatalog.KeyIsFirstSegment` | internal/suites/xml/catalog.go:149-160 | the key is the first path segment, or "misc" if that is empty |
| `XmlCatalog.AcceptableExactly` | internal/suites/xml/catalog.go:118-131 | a catalog must lie inside the root, be readable and parse |
| `StylesheetDeps.Walk.CollectDepsRecursive` | internal/suites/xslt30/gen.go:1080-1171 | ends on cyclic graphs and changes the shared state as a visit by the stack machine does |
| `StylesheetDeps.Walk.CollectSchemaDeps` | internal/suites/xslt30/gen.go:1175-1218 | the same for a schema file |
| `StylesheetDeps.RunAppend` | internal/suites/xslt30/gen.go:1080-1218 | doing pending work in two parts is doing it at once, so recursion and stack agree |
| `StylesheetDeps.RunKeeps` | internal/suites/xslt30/gen.go:1080-1218 | the walk's invariant at every step |
| `StylesheetDeps.CollectTransitiveDeps` | internal/suites/xslt30/gen.go:1036-1041 | returns the result list of the walk from the stylesheet |
| `StylesheetDeps.AddTransitiveDeps` | internal/suites/xslt30/gen.go:1047-1055 | adds exactly the listed paths that lie under the suite, relative to it |
| `StylesheetDeps.ReferencesExactly` | internal/suites/xslt30/gen.go:1096-1217 | by namespace, element, attribute and mode, what a reference is, whether it is followed and how, and that nothing else is one |
| `StylesheetDeps.MadeReferencesAreListed` | internal/suites/xslt30/gen.go:1112-1217 | every reference made by a scanned file is listed, and visited and reached in its mode if it is to be followed |
| `StylesheetDeps.ImportsAreFollowed` | internal/suites/xslt30/gen.go:1112-1124 | an imported or included stylesheet is listed, visited and reached as a stylesheet |
| `StylesheetDeps.ListedIsMade` | internal/suites/xslt30/gen.go:1096-1217 | everything listed was made by an element of a scanned file |
| `StylesheetDeps.IncludesBehindImportsAreListed` | internal/suites/xslt30/gen.go:1112-1124 | what an imported stylesheet includes is listed too |
| `StylesheetDeps.DepsAreTheReferencesOfScannedFiles` | internal/suites/xslt30/gen.go:1036-1218 | no file is scanned twice; the result is, as a multiset, the references of the scanned files; every followed one is visited; every scanned file is reachable in its mode |
| `StylesheetDeps.EverythingScannedExactlyWhenModesAgree` | internal/suites/xslt30/gen.go:1080-1218 | every reachable file is scanned in every mode it is reachable in, if and only if no file is reachable in both modes |
| `StylesheetDeps.OnlyNeededIsListed` | internal/suites/xslt30/gen.go:1036-1041 | for every graph, the returned list holds only what some reachable file refers to |
| `StylesheetDeps.ResultIsWhatIsNeeded` | internal/suites/xslt30/gen.go:1036-1041 | the returned list is exactly that, if every file reachable in both modes refers to the same files in both, in particular if there is none |
| `StylesheetDeps.SecondModeIsLost` | internal/suites/xslt30/gen.go:1080-1218 | a target only one mode of one file refers to is listed if and only if that mode is scanned; which targets are therefore lost, read off the graph |
| `StylesheetDeps.CompleteExactlyWhenTargetsAgree` | internal/suites/xslt30/gen.go:1036-1218 | where files that differ between modes have targets of their own in both, the list is complete if and only if no file differs |
| `StylesheetDeps.SchemaReferenceIsLost` | internal/suites/xslt30/gen.go:1080-1218 | a directory with one file in which a reference is lost |
| `StylesheetDeps.BothModesCanBeComplete` | internal/suites/xslt30/gen.go:1080-1218 | a directory with a file reached in both modes in which none is |
| `CanonicalXml.Qt3CanonList` | xpath3/qt3_helpers_test.go:1374-1403 | the buffered pass yields the normal form defined by folding from the right |
| `CanonicalXml.Qt3CanonElement` | xpath3/qt3_helpers_test.go:1405-1421 | the same for one element with its attribute map |
| `CanonicalXml.CanonicalIsNormal` | xpath3/qt3_helpers_test.go:1371-1403 | no two adjacent texts at any depth |
| `CanonicalXml.CanonicalConserves` | xpath3/qt3_helpers_test.go:1371-1421 | every character and piece of markup is kept, in order and at its depth |
| `CanonicalXml.MarkedIsStream` | xpath3/qt3_helpers_test.go:1371-1421 | marking blank runs of text adds marks to the stream of characters and markup and nothing else |
| `CanonicalXml.CanonicalMarks` | xpath3/qt3_helpers_test.go:1374-1403 | the normal form holds an empty text exactly where the list has a blank run, at every depth |
| `CanonicalXml.StreamDetermines` | xpath3/qt3_helpers_test.go:1319-1329 | lists in normal form with the same marked stream are equal |
| `CanonicalXml.CanonicalDecidesContent` | xpath3/qt3_helpers_test.go:1319-1421 | for all node lists, equal normal forms if and only if equal content with blank runs marked |
| `CanonicalXml.ContentDecidesWithoutBlankRuns` | xpath3/qt3_helpers_test.go:1319-1421 | for lists without blank runs, if and only if equal characters and markup |
| `CanonicalXml.BlankRunShows` | xpath3/qt3_helpers_test.go:1374-1403 | an element with an empty CDATA section and one without differ |
| `CanonicalXml.SplittingTextIsInvisible` | xpath3/qt3_helpers_test.go:1374-1403 | text may be split or merged, and be CDATA or an entity reference, in any context |
| `CanonicalXml.RearrangingElementIsInvisible` | xpath3/qt3_helpers_test.go:1405-1421 | attributes may be reordered and children replaced by equivalent ones, in any context |
| `Qt3Assertions.EmittedMeaning` | internal/suites/qt3/gen.go:1472-1563 | when the checks emitted for each kind of node hold |
| `Qt3Assertions.KindsAreChecked` | internal/suites/qt3/gen.go:1472-1563 | which kinds are checked, alone and in an any-of, against what, and count as real; which are not |
| `Qt3Assertions.CompiledNeverRejectsAcceptedResult` | internal/suites/qt3/gen.go:1415-1563 | on every list of trees, the compiled case accepts every result the trees accept |
| `Qt3Assertions.CompilationPreservesMeaning` | internal/suites/qt3/gen.go:1391-1563 | a tree of the stated shape and its compiled case accept the same outcomes, results and raised errors |
| `Qt3Assertions.CompilationPreservesMeaningExactly` | internal/suites/qt3/gen.go:1391-1563 | for trees without repeated leaves the shape is also necessary |
| `Qt3Assertions.RegularIsPreserved` | xpath3/qt3_helpers_test.go:464-487 | the documented tree shape is one on which meaning is preserved |
| `Qt3Assertions.UnfailingExactly` | internal/suites/qt3/gen.go:1591-1626 | what a tree counted as real, or not, implies for its emitted checks |
| `Qt3Assertions.AcceptsEverythingExactly` | internal/suites/qt3/gen.go:443-451 | exactly which cases accept every result; every flagged one does |
| `Qt3Assertions.FlagIsExactOnPlainTrees` | internal/suites/qt3/gen.go:1591-1639 | without composites in any-of and errors in all-of the flag is exact |
| `Qt3Assertions.UnflaggedWithoutChecks` | internal/suites/qt3/gen.go:1591-1639 | the two shapes that slip past the flag |
| `XsltAssertions.FilterInPlace` | internal/suites/xslt30/gen.go:1733-1749 | compacting inside the array leaves the real checks, in order, or the array as it was |
| `XsltAssertions.FilterOnceSuffices` | internal/suites/xslt30/gen.go:1725-1824 | filtering at every nested all-of equals flattening and filtering once |
| `XsltAssertions.NeverMixed` | internal/suites/xslt30/gen.go:1725-1751 | skip calls never stand beside real checks |
| `XsltAssertions.KindsAreEmitted` | internal/suites/xslt30/gen.go:1753-1824 | what each kind of assertion is compiled to |
| `XsltAssertions.ChildrenAreChecked` | internal/suites/xslt30/gen.go:1761-1820 | the kinds with children become one check of exactly those children, without errors in an any-of |
| `XsltAssertions.SkippedKinds` | internal/suites/xslt30/gen.go:1448-1462 | which single assertions make a case skipped |
| `XsltAssertions.SkippedExactly` | internal/suites/xslt30/gen.go:1448-1462 | a case becomes skipped exactly when its flat list is non-empty and all skips; nothing else of it changes |
| `XsltAssertions.PostureReasonExactly` | internal/suites/xslt30/gen.go:1464-1476 | the posture reason is given exactly if, in document order over all all-of depths, a posture assertion comes before the end of any all-of |
| `XsltAssertions.OutlineShowsPostures` | internal/suites/xslt30/gen.go:1464-1476 | that order holds a posture exactly if one occurs at some all-of depth |
| `XsltAssertions.PostureIsNamedExactly` | internal/suites/xslt30/gen.go:1464-1476 | the reason tells whether a posture occurs, exactly unless an all-of ends before the first |
| `XsltAssertions.PostureIsHidden` | internal/suites/xslt30/gen.go:1464-1476 | any all-of that does not begin with a posture hides all behind it |
| `XsltAssertions.PostureIsHiddenInSkip` | internal/suites/xslt30/gen.go:1448-1476 | a skipped case whose reason depends on the order of its assertions |
| `ExtendedRegex.StripExtendedWhitespace` | internal/suites/xslt30/gen.go:1865-1907 | the index loop computes the token-wise strip |
| `ExtendedRegex.RenderTokens` | internal/suites/xslt30/gen.go:1865-1907 | the tokens of a pattern, written out, are the pattern |
| `ExtendedRegex.TokensOfStripped` | internal/suites/xslt30/gen.go:1865-1907 | the stripped pattern reads as exactly the kept tokens: escapes and class content in order, nothing fused or moved across a class border |
| `ExtendedRegex.StrippingIsIdempotent` | internal/suites/xslt30/gen.go:1865-1907 | stripping twice is stripping once |
| `ExtendedRegex.StrippedIsClean` | internal/suites/xslt30/gen.go:1865-1907 | no unescaped white space or comment is left outside a class |
| `ExtendedRegex.StrippingForgetsOnlyLayout` | internal/suites/xslt30/gen.go:1865-1907 | two patterns strip alike exactly when they differ in layout only |
| `ExtendedRegex.PlainIsPlain` | internal/suites/xslt30/gen.go:1885-1900 | a plain token outside a class is neither white space nor the comment sign |
| `ExtendedRegex.OutsideStrips` | internal/suites/xslt30/gen.go:1878-1905 | outside a class white space goes, a bracket opens a class, other characters stay |
| `ExtendedRegex.InsideStrips` | internal/suites/xslt30/gen.go:1884-1905 | inside a class everything stays up to the closing bracket |
| `ExtendedRegex.PairStrips` | internal/suites/xslt30/gen.go:1871-1877 | a backslash stays with the character behind it |
| `ExtendedRegex.CommentStrips` | internal/suites/xslt30/gen.go:1890-1897 | a comment goes up to the end of its line or of the pattern |
| `ExtendedRegex.ClassStays` | internal/suites/xslt30/gen.go:1878-1905 | a class without escapes stays as it is |
| `XmlText.DecodeXmlText` | internal/suites/qt3/genutil.go:60-126 | the loop over the shrinking rest computes the decoding, on every input |
| `XmlText.WriteRef` | internal/suites/qt3/genutil.go:86-122 | what one reference appends |
| `XmlText.DecodingInvertsEncoding` | internal/suites/qt3/genutil.go:60-126 | every piecewise spelling of a text by literals, named, decimal and hexadecimal references and CDATA sections decodes to it; numerals are written by division, with any zeros and letter cases |
| `XmlText.CharacterReferences` | internal/suites/qt3/genutil.go:98-105 | the decimal or hexadecimal numeral of every scalar value decodes to that character |
| `XmlText.NumberReferences` | internal/suites/qt3/genutil.go:98-105 | so does every signed numeral; values that are no character give U+FFFD, beyond 32 bits nothing |
| `XmlText.DigitsAreNumeral` | internal/suites/qt3/genutil.go:98-105 | every string of digits is such a numeral |
| `XmlText.UnterminatedSection` | internal/suites/qt3/genutil.go:64-72 | a CDATA section without end mark reaches to the end |
| `XmlText.OtherReferences` | internal/suites/qt3/genutil.go:86-122 | anything behind a number sign that is no numeral vanishes; unknown names stay |
| `XmlText.UnterminatedReference` | internal/suites/qt3/genutil.go:88-94 | after an ampersand without a semicolon everything stays as written |
| `DistinguishedName.SplitUnescaped` | xmldsig/harness_test.go:265-279 | the loop computes the split that `SplitExactly` characterises |
| `DistinguishedName.SplitExactly` | xmldsig/harness_test.go:263-279 | for all byte strings, the parts are the one list that joins to the string, has no free separator in a part and no escaped one between parts |
| `DistinguishedName.IndexUnescaped` | xmldsig/harness_test.go:282-293 | where the scan stops, or -1 |
| `DistinguishedName.NextSepIsFirstFree` | xmldsig/harness_test.go:281-293 | it stops at the first separator behind an even number of backslashes |
| `DistinguishedName.UnescapeDNameValue` | xmldsig/harness_test.go:298-314 | the loop computes the unescaping |
| `DistinguishedName.UnescapesTo` | xmldsig/harness_test.go:295-314 | what a backslash with the bytes behind it gives; other bytes stay |
| `DistinguishedName.HexDigitsAre` | xmldsig/harness_test.go:316-329 | which bytes are hexadecimal digits, and their values |
| `DistinguishedName.DecodeDNameCN` | xmldsig/harness_test.go:249-261 | trims, splits and returns the first CN, empty if there is none |
| `DistinguishedName.ValueReads` | xmldsig/harness_test.go:298-314 | any per-byte mix of the three spellings unescapes to the value and hides its commas |
| `DistinguishedName.SplitRecoversRdns` | xmldsig/harness_test.go:265-279 | splitting a written name gives back its RDNs as written, all and in order, whatever the spelling of each byte |
| `DistinguishedName.TrimmedSplitRecoversRdnsExactly` | xmldsig/harness_test.go:250-251 | after trimming the whole string that holds if and only if the last value as written does not end in white space |
| `DistinguishedName.NameReads` | xmldsig/harness_test.go:249-261 | the first CN of a name whose last value is replaced by bytes without a free comma: that of the name, or those bytes unescaped |
| `DistinguishedName.PaddedNameReads` | xmldsig/harness_test.go:249-261 | white space around attribute types makes no difference |
| `DistinguishedName.SpaceBehindComma` | xmldsig/harness_test.go:249-261 | "O=x, CN=y" gives "y" |
| `DistinguishedName.CnIsFolded` | xmldsig/harness_test.go:255 | the type is CN in any mix of cases |
| `DistinguishedName.TrailingSpaceExactly` | xmldsig/harness_test.go:250 | what is trimmed at the end is the UTF-8 encoding of a white-space character |
| `DistinguishedName.TrimCuts` | xmldsig/harness_test.go:250 | what trimming can take off a written value |
| `DistinguishedName.DecodingInvertsEncoding` | xmldsig/harness_test.go:249-329 | the CN comes back if and only if it is not a last value whose written form ends in white space |
| `DistinguishedName.EscapedLastSpaceIsLost` | xmldsig/harness_test.go:249-261 | a name written by the RFC's rules that is misread |
| `DistinguishedName.SpellingsDecodeAlike` | xmldsig/harness_test.go:249-329 | all spellings of one name decode alike, unless the CN stands last and one of them ends in white space |
| `Text.TrimSpaceIs` | internal/junit/junit.go:200 | trimming takes white space off both ends and stops at anything else |
| `Text.LinesMakeUp` | internal/junit/junit.go:199 | lines hold no line end and make up the text |
| `Text.ConcatAppends` | internal/junit/junit.go:160 | joining outputs keeps their order |
| `GoTestEvents.NamesAreCases` | internal/junit/junit.go:118-126 | a test is listed, once, exactly when it is a subtest of the root and has an event |
| `GoTestEvents.CasesAreSubtests` | internal/junit/summary.go:64 | a case is a name below the root test |
| `GoTestEvents.RecordMeans` | internal/junit/junit.go:121-133 | a test's record: the package of its first event, its output texts in order, status and time of the last verdict on it |
| `GoTestEvents.StatusExactly` | internal/junit/summary.go:73-78 | passed, failed, skipped or none, if and only if the last pass, fail or skip event says so |
| `GoTestEvents.PackageFailedExactly` | internal/junit/summary.go:56-61 | the package failed exactly if an event outside all tests is a failure or failed build |
| `GoTestEvents.PackageOutputIs` | internal/junit/junit.go:110-117 | its output are the texts of the output events outside all tests |
| `GoTestEvents.PackageNameIs` | internal/junit/junit.go:105-109 | its name is from the last event that names one |
| `GoTestEvents.FirstMeaningfulIs` | internal/junit/junit.go:198-207 | the diagnostic is the first trimmed line that is neither empty nor a banner |
| `GoTestEvents.XFailExactly` | internal/junit/summary.go:226-242 | a passing case is an expected failure exactly if a line of it has the mark |
| `GoTestEvents.LoggedReasonIsRead` | internal/junit/summary.go:221-242 | a reason logged with any details, split into one event per line, is read back if and only if it is readable |
| `GoTestEvents.ReadableReasons` | internal/junit/summary.go:233-238 | a reason of one line is readable exactly if it does not hold the closing mark, one of two lines never |
| `GoTestEvents.BareReasonIsRead` | internal/junit/summary.go:239 | a reason logged without details is read from its first line, without the parentheses at its end |
| `TestSummary.Summarize` | internal/junit/summary.go:34-115 | fails exactly without a root test; every counter and reason count is the number of cases with that outcome, judged from each case's own events |
| `TestSummary.CountersAreVerdicts` | internal/junit/summary.go:81-113 | over the stream itself, failed and skipped count the cases whose last verdict is that, passed and expected failures those ending in a pass without and with the mark, or the one synthetic failure |
| `TestSummary.OneVerdictCounts` | internal/junit/summary.go:93-101 | one passing test is one passed case, one failing test one failure |
| `TestSummary.SummaryAddsUp` | internal/junit/summary.go:84-113 | total is passed, expected failures, failed and skipped together; the reason maps sum to skipped and expected failures |
| `TestSummary.SummaryIgnoresInterleaving` | internal/junit/summary.go:47-114 | streams with the same events per test and per package have the same summary |
| `JUnitReport.WriteSuite` | internal/junit/junit.go:147-178 | entries of the finished tests, with counters and time that match them |
| `JUnitReport.ConvertGoTestJSON` | internal/junit/junit.go:83-186 | fails exactly without a root test; reports the finished tests in name order, each from its own events, or one setup failure |
| `JUnitReport.EntriesAreVerdicts` | internal/junit/junit.go:150-176 | over the stream itself, the entries are the cases with a verdict; failure, skip, time, package, message and output of each |
| `JUnitReport.SetupEntryIs` | internal/junit/junit.go:135-143 | the entry of a package that failed before any case began |
| `JUnitReport.LessIsLexicographic` | internal/junit/junit.go:145 | names are ordered at the first character in which they differ |
| `JUnitReport.SortSorts` | internal/junit/junit.go:145 | sorting distinct names puts the same names in ascending order |
| `JUnitReport.AggregatorsAgree` | internal/junit/junit.go:135-186 | tests, failures and skips of the report are total, failed and skipped of the summary, with the synthetic failure too |
| `JUnitReport.SkipReasonsAgree` | internal/junit/junit.go:165-168 | the summary's count for a reason is the number of skipped entries with that message |
| `JUnitReport.ReportIgnoresInterleavingExactly` | internal/junit/junit.go:97-177 | two interleavings give the same report if and only if a case began, the package did not fail, or both end on the same package name |
| `JUnitReport.SetupEntryDependsOnOrder` | internal/junit/junit.go:105-143 | two streams for which it differs |
| `Qt3Plan.CaseSpecTakesPrecedence` | internal/suites/qt3/gen.go:506-563 | a case's spec replaces its set's, all other dependencies apply together |
| `Qt3Plan.ApplicableExactly` | internal/suites/qt3/gen.go:529-600 | by kind, value and white-space separated token, which dependencies apply to XPath 3.1 |
| `Qt3Plan.FieldsExactly` | internal/suites/qt3/gen.go:547 | the tokens of a value are its words |
| `Qt3Plan.MergedInOrder` | internal/suites/qt3/gen.go:509-527 | the case's dependencies stand behind the set's |
| `Qt3Plan.SetTestShutsOutExactly` | internal/suites/qt3/gen.go:208-222 | which applicable cases judging the set first excludes |
| `Qt3Plan.OwnSpecIsShutOut` | internal/suites/qt3/gen.go:208-222 | an XPath case in an XQuery set is one |
| `Qt3Plan.ByNameIsLast` | internal/suites/qt3/gen.go:203-206 | of several environments with one name the last is used |
| `Qt3Plan.EnvironmentExactly` | internal/suites/qt3/gen.go:731-745 | the environment of a case: its own, else the last of that name in its set, else in the catalog |
| `Qt3Plan.SkipReasonIsFirst` | internal/suites/qt3/gen.go:602-639 | the reason is that of the first dependency not met |
| `Qt3Plan.SourcesSkipIsFirst` | internal/suites/qt3/gen.go:747-758 | an environment is refused for its first source in a role that is not supported |
| `Qt3Plan.SchemaSkipExactly` | internal/suites/qt3/gen.go:776-844 | when a case is skipped for want of a schema |
| `Qt3Plan.ExcludedExactly` | internal/suites/qt3/gen.go:208-222 | when a case is excluded |
| `Qt3Plan.Precedence` | internal/suites/qt3/gen.go:224-243 | which of several reasons is given |
| `Qt3Plan.WaivedExactly` | internal/suites/qt3/gen.go:244-257 | which reasons are waived for which cases |
| `Qt3Plan.NoFileSkipExactly` | internal/suites/qt3/gen.go:1144-1171 | no file skip reason exactly if every expected fragment at any depth is safe and readable |
| `Qt3Plan.SkippedUnlessHidden` | internal/suites/qt3/gen.go:224-257 | a case runs if no unmet requirement matters for it; conversely it is skipped, with the first one as the reason, exactly unless a waived requirement stands in front of one that matters |
| `Qt3Plan.WaiverHidesEnvironment` | internal/suites/qt3/gen.go:234-250 | a case that runs although its environment is not supported |
| `Qt3Plan.ReadCatalogPlan` | internal/suites/qt3/plan.go:36-105 | fails exactly on an unreadable contained set; the counters are the numbers of cases with each verdict |
| `Qt3Plan.PlanSet` | internal/suites/qt3/plan.go:52-102 | one test set's part of the counting |
| `Qt3Plan.CollectTests` | internal/suites/qt3/gen.go:185-388 | fails under the same condition; emits the cases that are not excluded, in order, each with its skip reason |
| `Qt3Plan.CasesExactly` | internal/suites/qt3/gen.go:194-215 | the catalog fails exactly on a safely named set that cannot be read; its cases are those of the safely named sets |
| `Qt3Plan.EmittedInOrder` | internal/suites/qt3/gen.go:359 | cases are emitted in catalog order |
| `Qt3Plan.CollectSet` | internal/suites/qt3/gen.go:200-384 | one test set's part of the emission |
| `Qt3Plan.PlanMatchesEmission` | internal/suites/qt3/plan.go:41-103 | every case is counted once; runnable plus skipped is what is emitted; the generator skips as many exactly if no otherwise runnable case lacks a fragment, never fewer |
| `Qt3Plan.PlanSkippedIsEmitted` | internal/suites/qt3/gen.go:224-297 | every case the plan skips is emitted with that very reason, every one it runs is emitted and skipped only for a missing fragment |

## Left out

- File, zip and git access, copying, HTTP serving and command lines: the disk is a map from paths to references or parsed files.
- XML and JSON decoding: trees, events and reference lists are taken as parsed, so decoding errors appear only as unreadable files.
- Regular expressions: the one that strips a source position from a log line is a function parameter.
- `ContainedPath`, `path.Clean`, `filepath.Join` and the relative resolvers: abstract functions and predicates of the modelled source tree.
- The helium library: leaf assertions are uninterpreted predicates, shared by the assert and check forms; atomic and node equality are parameters whose laws are hypotheses.
- Error codes of expected errors: an outcome is a result or a raised error.
- The XSLT runtime meaning of the emitted expressions: each is an opaque token that is the skip call or not.
- Printing of Go source, Markdown and JUnit XML, including the rounding of seconds: times are real numbers added exactly.
- Fixed lookup tables of skipped or waived case names: parameters of the model.
- The fixture-file sets that `collectTests` gathers for QT3, and every field of an emitted QT3 case except its names and skip reason.
- The sorting of path lists for output: sets of paths stand for them.
- The concatenated content of `assert-xml` files, read for inlining: only whether each can be read.
- The suite name of a summary, a copy of an option.
- `internal/suites/xslt30/genutil.go`, whose text decoder repeats the QT3 one.
- How the testing package indents the further lines of a log message: a parameter; that it writes one output event per line is assumed.
- StylesheetDeps.ResultIsWhatIsNeeded: the condition is sufficient, not necessary: where another file refers to the same target, or the mode scanned first has all targets of the other, the list stays complete, and which mode that is depends on the document order of the walk.
- The XSD 1.1 reader's outer loop over test sets: its case builder is modelled.
- DistinguishedName.DecodingInvertsEncoding: names with multi-valued RDNs and `#`-hexadecimal values are not among the written names.
- XmlText.DecodeXmlText: strings are sequences of characters, so input that is not valid UTF-8 is not modelled; the same holds for the regex scanner and the log lines.
- Loop bodies that the source nests inside other loops are methods of their own where they carry a proof of their own (`EnqueueTargets`, `AddTestSet`, `PlanSet`, `CollectSet`, `WriteSuite`, `SkipLine`, `WriteRef`).
