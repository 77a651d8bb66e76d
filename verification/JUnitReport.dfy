/** The JUnit report of a go test stream, and its agreement with the summary. */
module JUnitReport {
  import opened Common
  import opened GoTestEvents
  import opened Text
  import opened TestSummary

  datatype Options = Options(suiteName: string, root: string, omitSystemOut: bool)

  datatype Diagnostic = Diagnostic(message: string, output: string)

  datatype TestCase = TestCase(
    className: string, name: string, time: real,
    failure: Option<Diagnostic>, skipped: Option<Diagnostic>, systemOut: Option<string>)

  datatype Suite = Suite(name: string, tests: nat, failures: nat, skipped: nat, time: real, cases: seq<TestCase>)

  datatype Report = Report(tests: nat, failures: nat, skipped: nat, time: real, suites: seq<Suite>)

  function SuiteNameOf(opt: Options): string {
    if opt.suiteName == "" then "go-test" else opt.suiteName
  }

  function SetupName(root: string): string {
    root + "/setup"
  }

  /** The report's entry for a finished test. */
  function CaseFrom(name: string, rec: Record, omitSystemOut: bool, stripPosition: string -> string): TestCase {
    var output := Concat(rec.output);
    var diagnostic := Some(Diagnostic(FirstMeaningfulLine(output, stripPosition), output));
    TestCase(
      rec.pkg, name, rec.elapsed,
      if rec.status.Failed? then diagnostic else None,
      if rec.status.Skipped? then diagnostic else None,
      if !omitSystemOut && TrimSpace(output) != "" then Some(output) else None)
  }

  // ----- sort.Strings -----

  function Less(a: string, b: string): bool {
    b != "" && (a == "" || a[0] < b[0] || (a[0] == b[0] && Less(a[1..], b[1..])))
  }

  lemma {:induction false} LessIsTotal(a: string, b: string)
    ensures Less(a, b) || a == b || Less(b, a)
    ensures !(Less(a, b) && Less(b, a)) && (a == b ==> !Less(a, b))
  {
    if a != "" && b != "" {
      LessIsTotal(a[1..], b[1..]);
      assert a == [a[0]] + a[1..] && b == [b[0]] + b[1..];
    }
  }

  /** The strings agree up to index `k`, where the first ends or has the smaller
      character. */
  ghost predicate DiffersAt(a: string, b: string, k: int) {
    0 <= k <= |a| && k < |b| && a[..k] == b[..k] && (k == |a| || a[k] < b[k])
  }

  lemma {:induction false} LessIsLexicographic(a: string, b: string)
    ensures Less(a, b) <==> exists k :: DiffersAt(a, b, k)
  {
    if a == "" || b == "" || a[0] != b[0] {
      assert Less(a, b) ==> DiffersAt(a, b, 0);
      forall k ensures DiffersAt(a, b, k) ==> k == 0 {
        assert 0 < k <= |a| && k < |b| ==> a[..k][0] == a[0] && b[..k][0] == b[0];
      }
    } else {
      LessIsLexicographic(a[1..], b[1..]);
      if k :| DiffersAt(a[1..], b[1..], k) {
        assert a[..k + 1] == [a[0]] + a[1..][..k] && b[..k + 1] == [b[0]] + b[1..][..k];
        assert DiffersAt(a, b, k + 1);
      }
      if k :| DiffersAt(a, b, k) {
        assert k > 0 && a[1..][..k - 1] == a[..k][1..] && b[1..][..k - 1] == b[..k][1..];
        assert DiffersAt(a[1..], b[1..], k - 1);
      }
    }
  }

  lemma {:induction false} LessIsTransitive(a: string, b: string, c: string)
    requires Less(a, b) && Less(b, c)
    ensures Less(a, c)
  {
    if a != "" && a[0] == b[0] == c[0] {
      LessIsTransitive(a[1..], b[1..], c[1..]);
    }
  }

  function Insert(x: string, s: seq<string>): seq<string> {
    if s == [] || Less(x, s[0]) then [x] + s else [s[0]] + Insert(x, s[1..])
  }

  function Sort(s: seq<string>): seq<string> {
    if s == [] then [] else Insert(s[0], Sort(s[1..]))
  }

  predicate Ascending(s: seq<string>) {
    forall i, j :: 0 <= i < j < |s| ==> Less(s[i], s[j])
  }

  lemma AscendingCons(x: string, s: seq<string>)
    ensures Ascending([x] + s) <==> Ascending(s) && forall y :: y in s ==> Less(x, y)
  {
    var t := [x] + s;
    if Ascending(t) {
      forall i, j | 0 <= i < j < |s| ensures Less(s[i], s[j]) {
        assert Less(t[i + 1], t[j + 1]);
      }
      forall y | y in s ensures Less(x, y) {
        var i :| 0 <= i < |s| && s[i] == y;
        assert Less(t[0], t[i + 1]);
      }
    }
    if Ascending(s) && forall y :: y in s ==> Less(x, y) {
      forall i, j | 0 <= i < j < |t| ensures Less(t[i], t[j]) {
        assert t[j] == s[j - 1];
        if i > 0 {
          assert Less(s[i - 1], s[j - 1]);
        }
      }
    }
  }

  lemma AscendingSnoc(s: seq<string>, x: string)
    ensures Ascending(s + [x]) <==> Ascending(s) && forall y :: y in s ==> Less(y, x)
  {
    var t := s + [x];
    if Ascending(t) {
      forall i, j | 0 <= i < j < |s| ensures Less(s[i], s[j]) {
        assert Less(t[i], t[j]);
      }
      forall y | y in s ensures Less(y, x) {
        var i :| 0 <= i < |s| && s[i] == y;
        assert Less(t[i], t[|s|]);
      }
    }
    if Ascending(s) && forall y :: y in s ==> Less(y, x) {
      forall i, j | 0 <= i < j < |t| ensures Less(t[i], t[j]) {
        assert t[i] == s[i];
        if j < |s| {
          assert Less(s[i], s[j]);
        }
      }
    }
  }

  lemma {:induction false} InsertKeeps(x: string, s: seq<string>)
    requires Ascending(s) && x !in s
    ensures Ascending(Insert(x, s)) && forall y :: y in Insert(x, s) <==> y == x || y in s
  {
    if s == [] {
      AscendingCons(x, s);
    } else {
      assert s == [s[0]] + s[1..];
      AscendingCons(s[0], s[1..]);
      if Less(x, s[0]) {
        forall y | y in s[1..] ensures Less(x, y) { LessIsTransitive(x, s[0], y); }
        AscendingCons(x, s);
      } else {
        LessIsTotal(x, s[0]);
        InsertKeeps(x, s[1..]);
        AscendingCons(s[0], Insert(x, s[1..]));
      }
    }
  }

  lemma {:induction false} SortSorts(s: seq<string>)
    requires Distinct(s)
    ensures Ascending(Sort(s)) && forall y :: y in Sort(s) <==> y in s
  {
    if s != [] {
      SortSorts(s[1..]);
      assert s == [s[0]] + s[1..];
      InsertKeeps(s[0], Sort(s[1..]));
    }
  }

  /** Ascending lists with the same elements are equal. */
  lemma {:induction false} AscendingIsUnique(a: seq<string>, b: seq<string>)
    requires Ascending(a) && Ascending(b) && forall x :: x in a <==> x in b
    ensures a == b
  {
    if a == [] || b == [] {
      EmptyTogether(a, b);
    } else {
      assert a == [a[0]] + a[1..] && b == [b[0]] + b[1..];
      AscendingCons(a[0], a[1..]);
      AscendingCons(b[0], b[1..]);
      LessIsTotal(a[0], b[0]);
      assert a[0] in b && b[0] in a;
      SameTails(a, b);
      AscendingIsUnique(a[1..], b[1..]);
    }
  }

  lemma SameTails(a: seq<string>, b: seq<string>)
    requires a != [] && b != [] && a[0] == b[0] && Ascending(a) && Ascending(b) && forall x :: x in a <==> x in b
    ensures forall x :: x in a[1..] <==> x in b[1..]
  {
    assert a == [a[0]] + a[1..] && b == [b[0]] + b[1..];
    AscendingCons(a[0], a[1..]);
    AscendingCons(b[0], b[1..]);
    LessIsTotal(a[0], a[0]);
    assert forall x :: x in a <==> x == a[0] || x in a[1..];
    assert forall x :: x in b <==> x == b[0] || x in b[1..];
  }

  // ----- what a report says -----

  predicate IsFailure(c: TestCase) { c.failure.Some? }
  predicate IsSkipped(c: TestCase) { c.skipped.Some? }

  function Count(cases: seq<TestCase>, p: TestCase -> bool): nat {
    if cases == [] then 0
    else Count(cases[..|cases| - 1], p) + if p(cases[|cases| - 1]) then 1 else 0
  }

  function TotalTime(cases: seq<TestCase>): real {
    if cases == [] then 0.0 else TotalTime(cases[..|cases| - 1]) + cases[|cases| - 1].time
  }

  function NamesIn(cases: seq<TestCase>): seq<string> {
    seq(|cases|, i requires 0 <= i < |cases| => cases[i].name)
  }

  /** The test was a case and reached a verdict. */
  predicate Finished(events: seq<Event>, root: string, t: string) {
    IsCase(root, t) && Of(events, t) != [] && !RecordOf(Of(events, t)).status.NoStatus?
  }

  /** The finished tests, each described from its own events, in name order. */
  ghost predicate Tabulates(events: seq<Event>, opt: Options, stripPosition: string -> string, cases: seq<TestCase>) {
    && Ascending(NamesIn(cases))
    && (forall t :: t in NamesIn(cases) <==> Finished(events, opt.root, t))
    && (forall i :: 0 <= i < |cases| ==>
          Of(events, cases[i].name) != [] &&
          cases[i] == CaseFrom(cases[i].name, RecordOf(Of(events, cases[i].name)), opt.omitSystemOut, stripPosition))
  }

  /** The one entry of a package that failed before any case began. */
  function SetupFailure(events: seq<Event>, opt: Options, stripPosition: string -> string): TestCase {
    var rec := Record(PackageName(events), Failed, 0.0, PackageOutput(Of(events, "")));
    CaseFrom(SetupName(opt.root), rec, opt.omitSystemOut, stripPosition)
  }

  predicate NothingRan(events: seq<Event>, root: string) {
    Names(events, root) == [] && PackageFailed(events)
  }

  predicate Tallied(opt: Options, r: Report) {
    && |r.suites| == 1
    && var s := r.suites[0];
       && s.name == SuiteNameOf(opt)
       && s.tests == r.tests == |s.cases|
       && s.failures == r.failures == Count(s.cases, IsFailure)
       && s.skipped == r.skipped == Count(s.cases, IsSkipped)
       && s.time == r.time == TotalTime(s.cases)
  }

  ghost predicate Reports(events: seq<Event>, opt: Options, stripPosition: string -> string, r: Report) {
    && Tallied(opt, r)
    && if NothingRan(events, opt.root)
       then r.suites[0].cases == [SetupFailure(events, opt, stripPosition)]
       else Tabulates(events, opt, stripPosition, r.suites[0].cases)
  }

  // ----- the conversion as it runs -----

  /** What the first loop knows after reading `events`. */
  ghost predicate Scanned(
      events: seq<Event>, root: string, records: map<string, Record>, order: seq<string>,
      packageName: string, packageFailed: bool, packageOutput: seq<string>)
  {
    && order == Names(events, root)
    && (forall t :: t in records <==> t in order)
    && (forall t :: t in order ==> Of(events, t) != [] && records[t] == RecordOf(Of(events, t)))
    && packageName == PackageName(events)
    && packageFailed == PackageFailed(events)
    && packageOutput == PackageOutput(Of(events, ""))
  }

  function NextName(name: string, e: Event): string {
    if e.pkg != "" then e.pkg else if e.importPath != "" then e.importPath else name
  }

  function NextOutput(output: seq<string>, e: Event): seq<string> {
    if e.test == "" && (e.action.BuildOutput? || e.action.Output?) then output + [e.output] else output
  }

  predicate NextFailed(failed: bool, e: Event) {
    failed || (e.test == "" && (e.action.BuildFail? || e.action.Fail?))
  }

  lemma PackageNext(events: seq<Event>, e: Event)
    ensures PackageName(events + [e]) == NextName(PackageName(events), e)
    ensures PackageFailed(events + [e]) == NextFailed(PackageFailed(events), e)
    ensures PackageOutput(Of(events + [e], "")) == NextOutput(PackageOutput(Of(events, "")), e)
  {
    hide PackageFailed, Of;
    assert (events + [e])[..|events|] == events;
    PackageFailedNext(events, e);
    OfNext(events, e, "");
    var own := Of(events, "");
    assert (own + [e])[..|own|] == own;
  }

  lemma ScanOther(
      events: seq<Event>, e: Event, root: string, records: map<string, Record>, order: seq<string>,
      packageName: string, packageFailed: bool, packageOutput: seq<string>)
    requires Scanned(events, root, records, order, packageName, packageFailed, packageOutput) && !IsCase(root, e.test)
    ensures Scanned(events + [e], root, records, order,
                    NextName(packageName, e), NextFailed(packageFailed, e), NextOutput(packageOutput, e))
  {
    hide RecordOf, Names, IsCase, PackageName, PackageFailed, PackageOutput, Of, NextName, NextFailed, NextOutput;
    PackageNext(events, e);
    NamesNext(events, e, root);
    forall t | t in order ensures Of(events + [e], t) == Of(events, t) {
      NamesAreCases(events, root, t);
      OfNext(events, e, t);
    }
  }

  lemma ScanCase(
      events: seq<Event>, e: Event, root: string, records: map<string, Record>, order: seq<string>,
      packageName: string, packageFailed: bool, packageOutput: seq<string>)
    requires Scanned(events, root, records, order, packageName, packageFailed, packageOutput) && IsCase(root, e.test)
    ensures Scanned(events + [e], root,
                    records[e.test := Updated(if e.test in records then records[e.test] else Fresh(e), e)],
                    if e.test in records then order else order + [e.test],
                    NextName(packageName, e), NextFailed(packageFailed, e), NextOutput(packageOutput, e))
  {
    hide RecordOf, Updated, Fresh, Names, IsCase, PackageName, PackageFailed, PackageOutput, Of,
      NextName, NextFailed, NextOutput;
    PackageNext(events, e);
    NamesNext(events, e, root);
    NamesAreCases(events, root, e.test);
    var seen := e.test in records;
    var order' := if seen then order else order + [e.test];
    var records' := records[e.test := Updated(if seen then records[e.test] else Fresh(e), e)];
    assert forall t :: t in order' <==> t in order || t == e.test;
    forall t | t in order'
      ensures Of(events + [e], t) != [] && records'[t] == RecordOf(Of(events + [e], t))
    {
      OfNext(events, e, t);
      RecordNext(Of(events, e.test), e);
    }
  }

  lemma ScanNothing(root: string)
    ensures Scanned([], root, map[], [], "", false, [])
  {}

  /** The entries for `names`, leaving out tests without a verdict. */
  function CasesFrom(
      records: map<string, Record>, names: seq<string>, omit: bool, stripPosition: string -> string): seq<TestCase>
    requires forall t :: t in names ==> t in records
  {
    if names == [] then []
    else
      var front, t := names[..|names| - 1], names[|names| - 1];
      CasesFrom(records, front, omit, stripPosition) +
      if records[t].status.NoStatus? then [] else [CaseFrom(t, records[t], omit, stripPosition)]
  }

  lemma CasesNext(
      records: map<string, Record>, names: seq<string>, k: nat, omit: bool, stripPosition: string -> string)
    requires k < |names| && forall t :: t in names ==> t in records
    ensures CasesFrom(records, names[..k + 1], omit, stripPosition) ==
            CasesFrom(records, names[..k], omit, stripPosition) +
            if records[names[k]].status.NoStatus? then []
            else [CaseFrom(names[k], records[names[k]], omit, stripPosition)]
  {
    assert names[..k + 1][..k] == names[..k];
  }

  lemma CountNext(cases: seq<TestCase>, c: TestCase, p: TestCase -> bool)
    ensures Count(cases + [c], p) == Count(cases, p) + if p(c) then 1 else 0
  {
    assert (cases + [c])[..|cases|] == cases;
  }

  lemma TimeNext(cases: seq<TestCase>, c: TestCase)
    ensures TotalTime(cases + [c]) == TotalTime(cases) + c.time
  {
    assert (cases + [c])[..|cases|] == cases;
  }

  /** The suite's counters match its entries. */
  predicate Consistent(s: Suite) {
    && s.tests == |s.cases|
    && s.failures == Count(s.cases, IsFailure)
    && s.skipped == Count(s.cases, IsSkipped)
    && s.time == TotalTime(s.cases)
  }

  lemma ConsistentNext(s: Suite, c: TestCase)
    requires Consistent(s)
    ensures Consistent(s.(
      tests := s.tests + 1, time := s.time + c.time, cases := s.cases + [c],
      failures := s.failures + (if c.failure.Some? then 1 else 0),
      skipped := s.skipped + (if c.skipped.Some? then 1 else 0)))
  {
    hide Count, TotalTime;
    CountNext(s.cases, c, IsFailure);
    CountNext(s.cases, c, IsSkipped);
    TimeNext(s.cases, c);
  }

  lemma {:induction false} CasesAreInOrder(
      records: map<string, Record>, names: seq<string>, omit: bool, stripPosition: string -> string)
    requires Ascending(names) && forall t :: t in names ==> t in records
    ensures var cases := CasesFrom(records, names, omit, stripPosition);
            && Ascending(NamesIn(cases))
            && (forall t :: t in NamesIn(cases) <==> t in names && !records[t].status.NoStatus?)
            && (forall i :: 0 <= i < |cases| ==>
                  cases[i].name in records &&
                  cases[i] == CaseFrom(cases[i].name, records[cases[i].name], omit, stripPosition))
  {
    if names != [] {
      var k := |names| - 1;
      var front, t := names[..k], names[k];
      assert names == front + [t];
      CasesAreInOrder(records, front, omit, stripPosition);
      var before := CasesFrom(records, front, omit, stripPosition);
      var c := CaseFrom(t, records[t], omit, stripPosition);
      assert NamesIn(before + [c]) == NamesIn(before) + [t];
      AscendingSnoc(NamesIn(before), t);
      AscendingSnoc(front, t);
      assert before + [] == before;
    }
  }

  lemma ScannedTabulates(
      events: seq<Event>, opt: Options, records: map<string, Record>, order: seq<string>,
      packageName: string, packageFailed: bool, packageOutput: seq<string>, stripPosition: string -> string)
    requires Scanned(events, opt.root, records, order, packageName, packageFailed, packageOutput)
    ensures forall t :: t in Sort(order) <==> t in records
    ensures Tabulates(events, opt, stripPosition, CasesFrom(records, Sort(order), opt.omitSystemOut, stripPosition))
  {
    hide RecordOf, Names, IsCase, PackageName, PackageFailed, PackageOutput, Of, CasesFrom, Sort, CaseFrom, Ascending;
    NamesAreCases(events, opt.root, "");
    SortSorts(order);
    CasesAreInOrder(records, Sort(order), opt.omitSystemOut, stripPosition);
    forall t ensures t in order && !records[t].status.NoStatus? <==> Finished(events, opt.root, t) {
      NamesAreCases(events, opt.root, t);
    }
  }

  lemma SetupStandsAlone(
      events: seq<Event>, opt: Options, records: map<string, Record>, packageName: string, packageOutput: seq<string>,
      stripPosition: string -> string)
    requires Scanned(events, opt.root, records, [], packageName, true, packageOutput)
    ensures var name := SetupName(opt.root);
            var rec := Record(packageName, Failed, 0.0, packageOutput);
            && Sort([name]) == [name]
            && NothingRan(events, opt.root)
            && CasesFrom(records[name := rec], [name], opt.omitSystemOut, stripPosition)
               == [SetupFailure(events, opt, stripPosition)]
  {
    hide CaseFrom, SetupName, PackageName, PackageFailed, PackageOutput, Of;
    var name := SetupName(opt.root);
    assert Sort([name]) == Insert(name, []);
    assert [name][..0] == [];
  }

  /** What the second loop knows after the first `k` names. */
  ghost predicate Written(
      records: map<string, Record>, names: seq<string>, k: nat, opt: Options, stripPosition: string -> string, s: Suite)
    requires k <= |names| && forall t :: t in names ==> t in records
  {
    && Consistent(s)
    && s.name == SuiteNameOf(opt)
    && s.cases == CasesFrom(records, names[..k], opt.omitSystemOut, stripPosition)
  }

  lemma WriteNothing(records: map<string, Record>, names: seq<string>, opt: Options, stripPosition: string -> string)
    requires forall t :: t in names ==> t in records
    ensures Written(records, names, 0, opt, stripPosition, Suite(SuiteNameOf(opt), 0, 0, 0, 0.0, []))
  {}

  lemma WriteNone(
      records: map<string, Record>, names: seq<string>, k: nat, opt: Options, stripPosition: string -> string, s: Suite)
    requires k < |names| && forall t :: t in names ==> t in records
    requires Written(records, names, k, opt, stripPosition, s) && records[names[k]].status.NoStatus?
    ensures Written(records, names, k + 1, opt, stripPosition, s)
  {
    hide Consistent, CasesFrom;
    CasesNext(records, names, k, opt.omitSystemOut, stripPosition);
  }

  lemma WriteOne(
      records: map<string, Record>, names: seq<string>, k: nat, opt: Options, stripPosition: string -> string, s: Suite)
    requires k < |names| && forall t :: t in names ==> t in records
    requires Written(records, names, k, opt, stripPosition, s) && !records[names[k]].status.NoStatus?
    ensures var c := CaseFrom(names[k], records[names[k]], opt.omitSystemOut, stripPosition);
            Written(records, names, k + 1, opt, stripPosition, s.(
              tests := s.tests + 1, time := s.time + c.time, cases := s.cases + [c],
              failures := s.failures + (if c.failure.Some? then 1 else 0),
              skipped := s.skipped + (if c.skipped.Some? then 1 else 0)))
  {
    hide Consistent, CasesFrom, CaseFrom;
    CasesNext(records, names, k, opt.omitSystemOut, stripPosition);
    ConsistentNext(s, CaseFrom(names[k], records[names[k]], opt.omitSystemOut, stripPosition));
  }

  method WriteSuite(
      records: map<string, Record>, names: seq<string>, opt: Options, stripPosition: string -> string)
    returns (suite: Suite)
    requires forall t :: t in names ==> t in records
    ensures suite.name == SuiteNameOf(opt) && Consistent(suite)
    ensures suite.cases == CasesFrom(records, names, opt.omitSystemOut, stripPosition)
  {
    hide CasesFrom, Consistent, FirstMeaningfulLine, TrimSpace, Concat;
    suite := Suite(SuiteNameOf(opt), 0, 0, 0, 0.0, []);
    WriteNothing(records, names, opt, stripPosition);
    for k := 0 to |names|
      invariant Written(records, names, k, opt, stripPosition, suite)
    {
      var rec := records[names[k]];
      if rec.status.NoStatus? {
        WriteNone(records, names, k, opt, stripPosition, suite);
        continue;
      }
      WriteOne(records, names, k, opt, stripPosition, suite);
      var tc := TestCase(rec.pkg, names[k], rec.elapsed, None, None, None);
      var output := Concat(rec.output);
      if rec.status.Failed? {
        suite := suite.(failures := suite.failures + 1);
        tc := tc.(failure := Some(Diagnostic(FirstMeaningfulLine(output, stripPosition), output)));
      } else if rec.status.Skipped? {
        suite := suite.(skipped := suite.skipped + 1);
        var message := FirstMeaningfulLine(output, stripPosition);
        tc := tc.(skipped := Some(Diagnostic(message, output)));
      }
      if !opt.omitSystemOut && TrimSpace(output) != "" {
        tc := tc.(systemOut := Some(output));
      }
      suite := suite.(tests := suite.tests + 1, time := suite.time + rec.elapsed, cases := suite.cases + [tc]);
    }
    assert names[..|names|] == names;
  }

  method ConvertGoTestJSON(events: seq<Event>, opt: Options, stripPosition: string -> string)
    returns (r: Option<Report>)
    ensures r.None? <==> opt.root == ""
    ensures r.Some? ==> Reports(events, opt, stripPosition, r.value)
    ensures r.Some? ==>
              |r.value.suites| == 1 && r.value.suites[0].name == if opt.suiteName == "" then "go-test" else opt.suiteName
  {
    hide Scanned, Tabulates, NothingRan, Updated, Fresh, IsCase, CasesFrom, Sort, Count, TotalTime;
    if opt.root == "" {
      return None;
    }
    var records: map<string, Record> := map[];
    var order: seq<string> := [];
    var packageName, packageFailed, packageOutput := "", false, [];
    ScanNothing(opt.root);
    for k := 0 to |events|
      invariant Scanned(events[..k], opt.root, records, order, packageName, packageFailed, packageOutput)
    {
      var ev := events[k];
      assert events[..k + 1] == events[..k] + [ev];
      ghost var name, failed, output := packageName, packageFailed, packageOutput;
      if ev.pkg != "" {
        packageName := ev.pkg;
      } else if ev.importPath != "" {
        packageName := ev.importPath;
      }
      if ev.test == "" {
        if ev.action.BuildOutput? || ev.action.Output? {
          packageOutput := packageOutput + [ev.output];
        } else if ev.action.BuildFail? || ev.action.Fail? {
          packageFailed := true;
        }
      }
      if !IsCase(opt.root, ev.test) {
        ScanOther(events[..k], ev, opt.root, records, order, name, failed, output);
        continue;
      }
      ScanCase(events[..k], ev, opt.root, records, order, name, failed, output);
      var rec := Fresh(ev);
      if ev.test in records {
        rec := records[ev.test];
      } else {
        order := order + [ev.test];
      }
      records := records[ev.test := Updated(rec, ev)];
    }
    assert events[..|events|] == events;
    ScannedTabulates(events, opt, records, order, packageName, packageFailed, packageOutput, stripPosition);
    if |order| == 0 && packageFailed {
      assert order == [];
      SetupStandsAlone(events, opt, records, packageName, packageOutput, stripPosition);
      var name := SetupName(opt.root);
      records := records[name := Record(packageName, Failed, 0.0, packageOutput)];
      order := order + [name];
      assert order == [name];
    } else {
      SomethingRan(events, opt.root, records, order, packageName, packageFailed, packageOutput);
    }
    order := Sort(order);
    var suite := WriteSuite(records, order, opt, stripPosition);
    return Some(Report(suite.tests, suite.failures, suite.skipped, suite.time, [suite]));
  }

  lemma SomethingRan(
      events: seq<Event>, root: string, records: map<string, Record>, order: seq<string>,
      packageName: string, packageFailed: bool, packageOutput: seq<string>)
    requires Scanned(events, root, records, order, packageName, packageFailed, packageOutput)
    requires !(order == [] && packageFailed)
    ensures !NothingRan(events, root)
  {}

  // ----- agreement with the summary -----

  /** The names of the entries that satisfy `p`. */
  ghost function Chosen(cases: seq<TestCase>, p: TestCase -> bool): set<string> {
    set i | 0 <= i < |cases| && p(cases[i]) :: cases[i].name
  }

  lemma {:induction false} CountIsChosen(cases: seq<TestCase>, p: TestCase -> bool)
    requires Ascending(NamesIn(cases))
    ensures Count(cases, p) == |Chosen(cases, p)|
  {
    if cases == [] {
      assert Chosen(cases, p) == {};
    } else {
      var front, c := cases[..|cases| - 1], cases[|cases| - 1];
      assert cases == front + [c];
      assert NamesIn(cases) == NamesIn(front) + [c.name];
      AscendingSnoc(NamesIn(front), c.name);
      CountIsChosen(front, p);
      ChosenNext(front, c, p);
      LessIsTotal(c.name, c.name);
      forall i | 0 <= i < |front| ensures front[i].name != c.name {
        assert NamesIn(front)[i] in NamesIn(front);
      }
    }
  }

  lemma ChosenNext(front: seq<TestCase>, c: TestCase, p: TestCase -> bool)
    ensures Chosen(front + [c], p) == Chosen(front, p) + if p(c) then {c.name} else {}
  {
    var cases := front + [c];
    forall t | t in Chosen(front, p) ensures t in Chosen(cases, p) {
      var i :| 0 <= i < |front| && p(front[i]) && front[i].name == t;
      assert cases[i] == front[i];
    }
    if p(c) {
      assert cases[|front|] == c;
    }
  }

  /** `p` on entries says what `q` says on outcomes. */
  ghost predicate Corresponds(omit: bool, stripPosition: string -> string, p: TestCase -> bool, q: Outcome -> bool) {
    && !q(Uncounted)
    && forall t: string, rec: Record :: !rec.status.NoStatus? ==>
         p(CaseFrom(t, rec, omit, stripPosition)) == q(OutcomeOf(rec.status, rec.output, stripPosition))
  }

  lemma ChosenAreThose(
      events: seq<Event>, opt: Options, stripPosition: string -> string, cases: seq<TestCase>,
      p: TestCase -> bool, q: Outcome -> bool)
    requires Tabulates(events, opt, stripPosition, cases) && Corresponds(opt.omitSystemOut, stripPosition, p, q)
    ensures Chosen(cases, p) == Those(Outcomes(events, opt.root, stripPosition), q)
  {
    hide Of, RecordOf, IsCase, CaseFrom, Ascending, Names, OutcomeOf;
    var m := Outcomes(events, opt.root, stripPosition);
    forall t | t in Chosen(cases, p) ensures t in Those(m, q) {
      var i :| 0 <= i < |cases| && p(cases[i]) && cases[i].name == t;
      assert NamesIn(cases)[i] == t;
      NamesAreCases(events, opt.root, t);
      assert Finished(events, opt.root, t);
      assert q(CaseOutcome(events, t, stripPosition));
    }
    forall t | t in Those(m, q) ensures t in Chosen(cases, p) {
      NamesAreCases(events, opt.root, t);
      var rec := RecordOf(Of(events, t));
      UncountedExactly(rec, stripPosition);
      assert t in NamesIn(cases);
      var i :| 0 <= i < |cases| && NamesIn(cases)[i] == t;
      assert cases[i].name == t;
    }
  }

  lemma UncountedExactly(rec: Record, stripPosition: string -> string)
    ensures rec.status.NoStatus? <==> OutcomeOf(rec.status, rec.output, stripPosition) == Uncounted
  {}

  lemma CountsAgree(
      events: seq<Event>, opt: Options, stripPosition: string -> string, cases: seq<TestCase>,
      p: TestCase -> bool, q: Outcome -> bool)
    requires Tabulates(events, opt, stripPosition, cases) && Corresponds(opt.omitSystemOut, stripPosition, p, q)
    ensures Count(cases, p) == |Those(Outcomes(events, opt.root, stripPosition), q)|
  {
    CountIsChosen(cases, p);
    ChosenAreThose(events, opt, stripPosition, cases, p, q);
  }

  predicate Anything(c: TestCase) { true }

  lemma {:induction false} CountAll(cases: seq<TestCase>)
    ensures Count(cases, Anything) == |cases|
  {
    if cases != [] {
      CountAll(cases[..|cases| - 1]);
    }
  }

  lemma SetupAgrees(events: seq<Event>, opt: Options, stripPosition: string -> string)
    ensures var cases := [SetupFailure(events, opt, stripPosition)];
            Count(cases, IsFailure) == 1 && Count(cases, IsSkipped) == 0
  {
    hide SetupFailure;
    var c := SetupFailure(events, opt, stripPosition);
    SetupIsFailure(events, opt, stripPosition);
    assert [c][..0] == [];
  }

  lemma EntriesAgree(
      events: seq<Event>, opt: Options, stripPosition: string -> string, cases: seq<TestCase>, s: Summary)
    requires Tabulates(events, opt, stripPosition, cases)
    requires Counters(Outcomes(events, opt.root, stripPosition), s)
    ensures |cases| == s.total && Count(cases, IsFailure) == s.failed && Count(cases, IsSkipped) == s.skipped
  {
    hide Tabulates, Those, Outcomes, Count, Corresponds;
    CountAll(cases);
    EntriesCorrespond(opt.omitSystemOut, stripPosition);
    CountsAgree(events, opt, stripPosition, cases, Anything, IsCounted);
    CountsAgree(events, opt, stripPosition, cases, IsFailure, IsFail);
    CountsAgree(events, opt, stripPosition, cases, IsSkipped, IsSkip);
  }

  /** Both readers of one stream report the same numbers, also when the package failed
      before any case began. */
  lemma AggregatorsAgree(events: seq<Event>, opt: Options, stripPosition: string -> string, r: Report, s: Summary)
    requires Reports(events, opt, stripPosition, r) && Summarizes(events, opt.root, stripPosition, s)
    ensures r.tests == s.total && r.failures == s.failed && r.skipped == s.skipped
    ensures r.tests - r.failures - r.skipped == s.passed + s.xfailed
  {
    hide Tabulates, Names, Counters, Reasons, Outcomes, PackageFailed, Count, SetupFailure;
    SummaryAddsUp(events, opt.root, stripPosition, s);
    if NothingRan(events, opt.root) {
      SetupAgrees(events, opt, stripPosition);
    } else {
      EntriesAgree(events, opt, stripPosition, r.suites[0].cases, s);
    }
  }

  lemma EntriesCorrespond(omit: bool, stripPosition: string -> string)
    ensures Corresponds(omit, stripPosition, Anything, IsCounted)
    ensures Corresponds(omit, stripPosition, IsFailure, IsFail)
    ensures Corresponds(omit, stripPosition, IsSkipped, IsSkip)
  {
    hide FirstMeaningfulLine, Concat, TrimSpace, XFailReason;
  }

  /** The entry is a skip that the summary files under `reason`. */
  predicate SkippedFor(c: TestCase, reason: string) {
    && c.skipped.Some?
    && reason == if c.skipped.value.message == "" then "(no reason given)" else c.skipped.value.message
  }

  /** The summary's reasons are the messages of the report's skipped entries. */
  lemma SkipReasonsAgree(
      events: seq<Event>, opt: Options, stripPosition: string -> string, r: Report, s: Summary, reason: string)
    requires Reports(events, opt, stripPosition, r) && Summarizes(events, opt.root, stripPosition, s)
    ensures Count(r.suites[0].cases, c => SkippedFor(c, reason)) ==
            if reason in s.skipReasons then s.skipReasons[reason] else 0
  {
    hide Tabulates, Outcomes, PackageFailed, Corresponds, SetupFailure;
    var cases := r.suites[0].cases;
    var p := (c: TestCase) => SkippedFor(c, reason);
    if NothingRan(events, opt.root) {
      assert cases[..0] == [];
      SetupIsFailure(events, opt, stripPosition);
    } else {
      var q := (o: Outcome) => o == Skipping(reason);
      SkipsCorrespond(opt.omitSystemOut, stripPosition, reason, p, q);
      CountsAgree(events, opt, stripPosition, cases, p, q);
      var m := Outcomes(events, opt.root, stripPosition);
      assert Those(m, q) == With(m, Skipping(reason));
    }
  }

  lemma SetupIsFailure(events: seq<Event>, opt: Options, stripPosition: string -> string)
    ensures var c := SetupFailure(events, opt, stripPosition); IsFailure(c) && !IsSkipped(c)
  {}

  lemma SkipsCorrespond(
      omit: bool, stripPosition: string -> string, reason: string, p: TestCase -> bool, q: Outcome -> bool)
    requires forall c :: p(c) == SkippedFor(c, reason)
    requires forall o :: q(o) == (o == Skipping(reason))
    ensures Corresponds(omit, stripPosition, p, q)
  {
    hide FirstMeaningfulLine, Concat, TrimSpace, XFailReason;
  }

  // ----- interleavings -----

  lemma SameStreamsSameCases(
      a: seq<Event>, b: seq<Event>, opt: Options, stripPosition: string -> string, x: seq<TestCase>, y: seq<TestCase>)
    requires SameStreams(a, b) && Tabulates(a, opt, stripPosition, x) && Tabulates(b, opt, stripPosition, y)
    ensures x == y
  {
    hide CaseFrom, IsCase, Ascending, Of, RecordOf;
    forall t ensures Finished(a, opt.root, t) <==> Finished(b, opt.root, t) {}
    AscendingIsUnique(NamesIn(x), NamesIn(y));
    assert |x| == |NamesIn(x)| == |NamesIn(y)| == |y|;
    forall i | 0 <= i < |x| ensures x[i] == y[i] {
      assert NamesIn(x)[i] == NamesIn(y)[i];
    }
  }

  /** The order in which tests take turns shows in the report only when the package
      failed before any case began and its name is then read off different events. */
  lemma ReportIgnoresInterleavingExactly(
      a: seq<Event>, b: seq<Event>, opt: Options, stripPosition: string -> string, x: Report, y: Report)
    requires SameStreams(a, b)
    requires Reports(a, opt, stripPosition, x) && Reports(b, opt, stripPosition, y)
    ensures x == y <==> Names(a, opt.root) != [] || !PackageFailed(a) || PackageName(a) == PackageName(b)
  {
    hide CaseFrom, Tabulates, Names, PackageName, Of, Count, TotalTime;
    SameStreamsSameNames(a, b, opt.root);
    EmptyTogether(Names(a, opt.root), Names(b, opt.root));
    var k, l := x.suites[0].cases, y.suites[0].cases;
    assert x.suites == [x.suites[0]] && y.suites == [y.suites[0]];
    assert k == l ==> x == y;
    if NothingRan(a, opt.root) {
      SetupShowsPackage(a, b, opt, stripPosition);
      assert k == l <==> k[0] == l[0];
    } else {
      SameStreamsSameCases(a, b, opt, stripPosition, k, l);
    }
  }

  lemma SetupShowsPackage(a: seq<Event>, b: seq<Event>, opt: Options, stripPosition: string -> string)
    requires SameStreams(a, b)
    ensures SetupFailure(a, opt, stripPosition) == SetupFailure(b, opt, stripPosition) <==> PackageName(a) == PackageName(b)
  {
    hide PackageName, Of, FirstMeaningfulLine, TrimSpace, Concat;
  }

  /** It does happen: a test outside the suite from another package, before or after
      the failure of this one. */
  lemma SetupEntryDependsOnOrder(opt: Options, other: string)
    requires !IsCase(opt.root, other) && other != ""
    ensures var failed := Event(Fail, "", "p", "", "", 0.0);
            var foreign := Event(Pass, "", "q", other, "", 0.0);
            var a, b := [failed, foreign], [foreign, failed];
            && SameStreams(a, b) && NothingRan(a, opt.root)
            && PackageName(a) == "q" && PackageName(b) == "p"
  {
    var failed := Event(Fail, "", "p", "", "", 0.0);
    var foreign := Event(Pass, "", "q", other, "", 0.0);
    RootIsNoCase(opt.root);
    hide IsCase;
    assert [failed] == [] + [failed] && [foreign] == [] + [foreign];
    assert [failed, foreign] == [failed] + [foreign] && [foreign, failed] == [foreign] + [failed];
    forall t ensures Of([failed, foreign], t) == Of([foreign, failed], t) {
      OfNext([], failed, t);
      OfNext([], foreign, t);
      OfNext([failed], foreign, t);
      OfNext([foreign], failed, t);
    }
    PackageFailedNext([], failed);
    PackageFailedNext([failed], foreign);
    NamesNext([], failed, opt.root);
    NamesNext([failed], foreign, opt.root);
    PackageNext([], failed);
    PackageNext([], foreign);
    PackageNext([failed], foreign);
    PackageNext([foreign], failed);
  }

  // ----- the entries, read off the stream -----

  /** The test is a case and has a verdict. */
  ghost predicate HasVerdict(events: seq<Event>, root: string, t: string) {
    IsCase(root, t) && exists k :: 0 <= k < |events| && IsVerdict(events[k], t)
  }

  lemma FinishedExactly(events: seq<Event>, root: string, t: string)
    ensures Finished(events, root, t) <==> HasVerdict(events, root, t)
  {
    hide Of, RecordOf, IsCase;
    OccursExactly(events, t);
    if Of(events, t) != [] {
      StatusExactly(events, t);
    }
  }

  /** The entries are the cases with a verdict; each is a failure or a skip exactly if
      the last verdict on it is that, takes the time of that verdict, the package of its
      first event, and its output texts in order. */
  lemma EntriesAreVerdicts(
      events: seq<Event>, opt: Options, stripPosition: string -> string, cases: seq<TestCase>, i: nat)
    requires Tabulates(events, opt, stripPosition, cases)
    ensures forall t :: t in NamesIn(cases) <==> HasVerdict(events, opt.root, t)
    ensures i < |cases| ==>
              var c, output := cases[i], Concat(Texts(events, cases[i].name));
              && (c.failure.Some? <==> EndsIn(events, c.name, Fail))
              && (c.skipped.Some? <==> EndsIn(events, c.name, Skip))
              && (c.failure.Some? ==> c.failure.value.output == output)
              && (c.skipped.Some? ==> c.skipped.value.output == output)
              && (c.failure.Some? ==> c.failure.value.message == FirstMeaningfulLine(output, stripPosition))
              && (c.skipped.Some? ==> c.skipped.value.message == FirstMeaningfulLine(output, stripPosition))
              && c.systemOut == (if !opt.omitSystemOut && !Blank(output) then Some(output) else None)
              && (forall k :: LastVerdict(events, c.name, k) ==> c.time == events[k].elapsed)
              && (exists k :: 0 <= k < |events| && FirstEvent(events, c.name, k) && c.className == events[k].pkg)
  {
    hide Of, RecordOf, IsCase, Texts, Ascending, LastVerdict, FirstEvent, EndsIn, HasVerdict, Finished,
      FirstMeaningfulLine, TrimSpace, Concat, Blank;
    forall t ensures Finished(events, opt.root, t) <==> HasVerdict(events, opt.root, t) {
      FinishedExactly(events, opt.root, t);
    }
    if i < |cases| {
      StatusExactly(events, cases[i].name);
      RecordMeans(events, cases[i].name);
      NothingLeft(Concat(Texts(events, cases[i].name)));
    }
  }

  lemma NothingLeft(s: string)
    ensures TrimSpace(s) == "" <==> Blank(s)
  {
    hide TrimSpace;
    var a, b := TrimSpaceIs(s);
    if TrimSpace(s) == "" {
      assert s == a + b;
    } else {
      assert s[|a|] == TrimSpace(s)[0];
    }
  }

  /** The entry of a package that failed before any case began is a failure under the
      root's setup, with the output of the package. */
  lemma SetupEntryIs(events: seq<Event>, opt: Options, stripPosition: string -> string)
    ensures var c, output := SetupFailure(events, opt, stripPosition), Concat(FlatMap(PackageTextOf, events));
            && c.name == opt.root + "/setup"
            && c.className == PackageName(events)
            && c.failure == Some(Diagnostic(FirstMeaningfulLine(output, stripPosition), output))
            && c.skipped.None? && c.time == 0.0
  {
    hide Of, PackageName, FirstMeaningfulLine, TrimSpace, Concat, FlatMap;
    PackageOutputIs(events);
  }
}
