/** The event stream of `go test -json`, seen test by test. */
module GoTestEvents {
  import opened Common
  import opened Text

  datatype Action = Pass | Fail | Skip | Output | BuildOutput | BuildFail | OtherAction

  datatype Event = Event(
    action: Action, importPath: string, pkg: string, test: string, output: string, elapsed: real)

  datatype Status = NoStatus | Passed | Failed | Skipped

  /** What is kept of one test: the package of its first event, its last terminal
      status with the time taken, and its output. */
  datatype Record = Record(pkg: string, status: Status, elapsed: real, output: seq<string>)

  function Updated(rec: Record, e: Event): Record {
    match e.action
    case Pass => rec.(status := Passed, elapsed := e.elapsed)
    case Fail => rec.(status := Failed, elapsed := e.elapsed)
    case Skip => rec.(status := Skipped, elapsed := e.elapsed)
    case Output => rec.(output := rec.output + [e.output])
    case _ => rec
  }

  function Fresh(e: Event): Record {
    Record(e.pkg, NoStatus, 0.0, [])
  }

  // ----- the stream of one test -----

  /** The events of one test, in order; those of no test for the empty name. */
  function Of(events: seq<Event>, test: string): seq<Event> {
    if events == [] then []
    else
      var e := events[|events| - 1];
      Of(events[..|events| - 1], test) + if e.test == test then [e] else []
  }

  function RecordOf(own: seq<Event>): Record
    requires own != []
  {
    if |own| == 1 then Updated(Fresh(own[0]), own[0])
    else Updated(RecordOf(own[..|own| - 1]), own[|own| - 1])
  }

  predicate IsCase(root: string, test: string) {
    HasPrefix(test, root + "/")
  }

  /** A case is a subtest of the root, directly or further down. */
  lemma CasesAreSubtests(root: string, test: string)
    ensures IsCase(root, test) <==> exists name :: test == root + "/" + name
  {
    if IsCase(root, test) {
      assert test == root + "/" + test[|root| + 1..];
    }
  }

  /** The cases seen, in the order of their first events. */
  function Names(events: seq<Event>, root: string): seq<string> {
    if events == [] then []
    else
      var before, t := Names(events[..|events| - 1], root), events[|events| - 1].test;
      if IsCase(root, t) && t !in before then before + [t] else before
  }

  function PackageFailed(events: seq<Event>): bool {
    exists e :: e in Of(events, "") && (e.action.BuildFail? || e.action.Fail?)
  }

  /** All output not belonging to a test. */
  function PackageOutput(own: seq<Event>): seq<string> {
    if own == [] then []
    else
      var e := own[|own| - 1];
      PackageOutput(own[..|own| - 1]) + if e.action.BuildOutput? || e.action.Output? then [e.output] else []
  }

  /** The last package named by any event. */
  function PackageName(events: seq<Event>): string {
    if events == [] then ""
    else
      var e := events[|events| - 1];
      if e.pkg != "" then e.pkg
      else if e.importPath != "" then e.importPath
      else PackageName(events[..|events| - 1])
  }

  lemma OfNext(events: seq<Event>, e: Event, test: string)
    ensures Of(events + [e], test) == if e.test == test then Of(events, test) + [e] else Of(events, test)
  {
    assert (events + [e])[..|events|] == events;
  }

  lemma RecordNext(own: seq<Event>, e: Event)
    ensures RecordOf(own + [e]) == Updated(if own == [] then Fresh(e) else RecordOf(own), e)
  {
    assert (own + [e])[..|own|] == own;
  }

  lemma NamesNext(events: seq<Event>, e: Event, root: string)
    ensures Names(events + [e], root) ==
            if IsCase(root, e.test) && e.test !in Names(events, root)
            then Names(events, root) + [e.test] else Names(events, root)
  {
    assert (events + [e])[..|events|] == events;
  }

  lemma PackageFailedNext(events: seq<Event>, e: Event)
    ensures PackageFailed(events + [e]) <==>
            PackageFailed(events) || (e.test == "" && (e.action.BuildFail? || e.action.Fail?))
  {
    OfNext(events, e, "");
    assert forall x :: x in Of(events, "") + [e] <==> x in Of(events, "") || x == e;
  }

  /** A name is listed, once, exactly when it is a case and has an event. */
  lemma {:induction false} NamesAreCases(events: seq<Event>, root: string, t: string)
    ensures t in Names(events, root) <==> IsCase(root, t) && Of(events, t) != []
    ensures Distinct(Names(events, root))
  {
    if events != [] {
      var front, e := events[..|events| - 1], events[|events| - 1];
      NamesAreCases(front, root, t);
      OfNext(front, e, t);
      NamesNext(front, e, root);
      assert front + [e] == events;
    }
  }

  lemma RootIsNoCase(root: string)
    ensures !IsCase(root, "")
  {}

  // ----- what the record of a test says, read off the whole stream -----

  predicate IsVerdict(e: Event, test: string) {
    e.test == test && (e.action == Pass || e.action == Fail || e.action == Skip)
  }

  /** Event `k` is the last verdict on the test. */
  ghost predicate LastVerdict(events: seq<Event>, test: string, k: int) {
    0 <= k < |events| && IsVerdict(events[k], test) && forall j :: k < j < |events| ==> !IsVerdict(events[j], test)
  }

  /** The last verdict on the test is this action. */
  ghost predicate EndsIn(events: seq<Event>, test: string, action: Action) {
    exists k :: LastVerdict(events, test, k) && events[k].action == action
  }

  ghost predicate FirstEvent(events: seq<Event>, test: string, k: int) {
    0 <= k < |events| && events[k].test == test && forall j :: 0 <= j < k ==> events[j].test != test
  }

  function TextOf(test: string): Event -> seq<string> {
    (e: Event) => if e.test == test && e.action == Output then [e.output] else []
  }

  /** The texts of the test's output events, in order. */
  function Texts(events: seq<Event>, test: string): seq<string> {
    FlatMap(TextOf(test), events)
  }

  ghost predicate Describes(events: seq<Event>, test: string, rec: Record) {
    && (exists k :: 0 <= k < |events| && FirstEvent(events, test, k) && rec.pkg == events[k].pkg)
    && rec.output == Texts(events, test)
    && (forall k :: LastVerdict(events, test, k) ==>
          && rec.elapsed == events[k].elapsed
          && (events[k].action == Pass ==> rec.status == Passed)
          && (events[k].action == Fail ==> rec.status == Failed)
          && (events[k].action == Skip ==> rec.status == Skipped))
    && ((forall k :: 0 <= k < |events| ==> !IsVerdict(events[k], test)) ==> rec.status == NoStatus && rec.elapsed == 0.0)
  }

  lemma TextsNext(events: seq<Event>, e: Event, test: string)
    ensures Texts(events + [e], test) ==
            Texts(events, test) + if e.test == test && e.action == Output then [e.output] else []
  {
    assert (events + [e])[..|events|] == events;
  }

  lemma {:induction false} OccursExactly(events: seq<Event>, test: string)
    ensures Of(events, test) != [] <==> exists k :: 0 <= k < |events| && events[k].test == test
  {
    if events != [] {
      var n := |events| - 1;
      OccursExactly(events[..n], test);
      assert forall k :: 0 <= k < n ==> events[..n][k] == events[k];
    }
  }

  lemma {:induction false} TextsNeedEvents(events: seq<Event>, test: string)
    requires Of(events, test) == []
    ensures Texts(events, test) == [] && forall k :: 0 <= k < |events| ==> events[k].test != test
  {
    OccursExactly(events, test);
    if events != [] {
      var n := |events| - 1;
      assert events[..n] + [events[n]] == events;
      OfNext(events[..n], events[n], test);
      TextsNeedEvents(events[..n], test);
      TextsNext(events[..n], events[n], test);
    }
  }

  lemma VerdictsNext(events: seq<Event>, e: Event, test: string)
    ensures forall k :: 0 <= k < |events| ==>
              (LastVerdict(events + [e], test, k) <==> LastVerdict(events, test, k) && !IsVerdict(e, test))
    ensures LastVerdict(events + [e], test, |events|) <==> IsVerdict(e, test)
    ensures (forall k :: 0 <= k <= |events| ==> !IsVerdict((events + [e])[k], test)) <==>
            !IsVerdict(e, test) && forall k :: 0 <= k < |events| ==> !IsVerdict(events[k], test)
  {
    hide IsVerdict;
    var all := events + [e];
    assert all[|events|] == e && forall k :: 0 <= k < |events| ==> all[k] == events[k];
  }

  lemma FirstStays(events: seq<Event>, e: Event, test: string, k: int)
    requires FirstEvent(events, test, k)
    ensures FirstEvent(events + [e], test, k) && (events + [e])[k] == events[k]
  {}

  lemma DescribedNext(events: seq<Event>, e: Event, test: string, rec: Record)
    requires Describes(events, test, rec)
    ensures Describes(events + [e], test, if e.test == test then Updated(rec, e) else rec)
  {
    hide FirstEvent, LastVerdict, Texts;
    var all := events + [e];
    var k :| 0 <= k < |events| && FirstEvent(events, test, k) && rec.pkg == events[k].pkg;
    FirstStays(events, e, test, k);
    TextsNext(events, e, test);
    VerdictsNext(events, e, test);
    VerdictInside(all, test);
    assert all[|events|] == e && forall j :: 0 <= j < |events| ==> all[j] == events[j];
    assert Texts(events, test) + [] == Texts(events, test);
  }

  lemma VerdictInside(events: seq<Event>, test: string)
    ensures forall k :: LastVerdict(events, test, k) ==> 0 <= k < |events|
  {}

  lemma DescribedFirst(events: seq<Event>, e: Event)
    requires Of(events, e.test) == []
    ensures Describes(events + [e], e.test, Updated(Fresh(e), e))
  {
    hide LastVerdict, Texts;
    var all := events + [e];
    TextsNeedEvents(events, e.test);
    assert all[|events|] == e && forall j :: 0 <= j < |events| ==> all[j] == events[j];
    assert FirstEvent(all, e.test, |events|);
    TextsNext(events, e, e.test);
    VerdictsNext(events, e, e.test);
    VerdictInside(all, e.test);
    NoVerdictYet(events, e.test);
  }

  lemma NoVerdictYet(events: seq<Event>, test: string)
    requires forall k :: 0 <= k < |events| ==> events[k].test != test
    ensures forall k :: !LastVerdict(events, test, k)
    ensures forall k :: 0 <= k < |events| ==> !IsVerdict(events[k], test)
  {}

  /** The record of a test that occurs: the package of its first event, its output texts
      in order, and status and time of the last verdict on it, none if there is none. */
  lemma {:induction false} RecordMeans(events: seq<Event>, test: string)
    requires Of(events, test) != []
    ensures Describes(events, test, RecordOf(Of(events, test)))
  {
    hide RecordOf, Describes, Updated, Fresh;
    var front, e := events[..|events| - 1], events[|events| - 1];
    assert front + [e] == events;
    OfNext(front, e, test);
    var own := Of(front, test);
    RecordNext(own, e);
    hide Of;
    if own == [] {
      DescribedFirst(front, e);
    } else {
      RecordMeans(front, test);
      DescribedNext(front, e, test, RecordOf(own));
    }
  }

  lemma {:induction false} LastVerdictIfAny(events: seq<Event>, test: string, k: nat) returns (last: nat)
    requires k < |events| && IsVerdict(events[k], test)
    ensures LastVerdict(events, test, last)
    decreases |events| - k
  {
    last := k;
    if j :| k < j < |events| && IsVerdict(events[j], test) {
      last := LastVerdictIfAny(events, test, j);
    }
  }

  /** So the status is read off the last verdict, in both directions. */
  lemma StatusExactly(events: seq<Event>, test: string)
    requires Of(events, test) != []
    ensures var status := RecordOf(Of(events, test)).status;
            && (status == Passed <==> EndsIn(events, test, Pass))
            && (status == Failed <==> EndsIn(events, test, Fail))
            && (status == Skipped <==> EndsIn(events, test, Skip))
            && (status == NoStatus <==> forall k :: 0 <= k < |events| ==> !IsVerdict(events[k], test))
  {
    hide RecordOf, Of, Texts;
    RecordMeans(events, test);
    if k :| 0 <= k < |events| && IsVerdict(events[k], test) {
      var last := LastVerdictIfAny(events, test, k);
    }
  }

  // ----- what is known of the package, read off the whole stream -----

  lemma {:induction false} OfHolds(events: seq<Event>, test: string, e: Event)
    ensures e in Of(events, test) <==> e in events && e.test == test
  {
    if events != [] {
      var front, last := events[..|events| - 1], events[|events| - 1];
      OfHolds(front, test, e);
      assert front + [last] == events;
    }
  }

  /** The package failed if an event outside all tests says so. */
  lemma PackageFailedExactly(events: seq<Event>)
    ensures PackageFailed(events) <==>
            exists k :: 0 <= k < |events| && events[k].test == ""
              && (events[k].action == BuildFail || events[k].action == Fail)
  {
    hide Of;
    if e :| e in Of(events, "") && (e.action.BuildFail? || e.action.Fail?) {
      OfHolds(events, "", e);
    }
    if k :| 0 <= k < |events| && events[k].test == "" && (events[k].action == BuildFail || events[k].action == Fail) {
      OfHolds(events, "", events[k]);
    }
  }

  function PackageTextOf(e: Event): seq<string> {
    if e.test == "" && (e.action == BuildOutput || e.action == Output) then [e.output] else []
  }

  /** Its output are the texts of build and plain output outside all tests, in order. */
  lemma {:induction false} PackageOutputIs(events: seq<Event>)
    ensures PackageOutput(Of(events, "")) == FlatMap(PackageTextOf, events)
  {
    if events != [] {
      var front, e := events[..|events| - 1], events[|events| - 1];
      PackageOutputIs(front);
      var own := Of(front, "");
      assert front + [e] == events;
      OfNext(front, e, "");
      hide Of;
      if e.test == "" {
        assert (own + [e])[..|own|] == own;
      }
      assert FlatMap(PackageTextOf, front) + [] == FlatMap(PackageTextOf, front);
    }
  }

  predicate NamesNoPackage(e: Event) {
    e.pkg == "" && e.importPath == ""
  }

  /** Its name is the one in the last event that names a package, by itself or else by
      its import path. */
  lemma {:induction false} PackageNameIs(events: seq<Event>) returns (k: int)
    ensures -1 <= k < |events| && forall j :: k < j < |events| ==> NamesNoPackage(events[j])
    ensures k >= 0 ==> PackageName(events) == if events[k].pkg != "" then events[k].pkg else events[k].importPath
    ensures if k < 0 then PackageName(events) == "" else !NamesNoPackage(events[k])
  {
    k := |events| - 1;
    if events != [] && NamesNoPackage(events[k]) {
      var front := events[..k];
      assert PackageName(events) == PackageName(front);
      hide NamesNoPackage, PackageName;
      k := PackageNameIs(front);
      assert forall j :: 0 <= j < |front| ==> front[j] == events[j];
    }
  }

  // ----- interleavings -----

  /** The same events for every single test and for the package, in whatever order the
      tests take turns. */
  ghost predicate SameStreams(a: seq<Event>, b: seq<Event>) {
    forall t :: Of(a, t) == Of(b, t)
  }

  lemma SameStreamsSameNames(a: seq<Event>, b: seq<Event>, root: string)
    requires SameStreams(a, b)
    ensures forall t :: t in Names(a, root) <==> t in Names(b, root)
  {
    forall t ensures t in Names(a, root) <==> t in Names(b, root) {
      NamesAreCases(a, root, t);
      NamesAreCases(b, root, t);
    }
  }

  // ----- reading diagnostics -----

  /** The first line that is neither empty nor a go test banner, trimmed and without
      its source position (`stripPosition`). */
  function FirstMeaningful(lines: seq<string>, stripPosition: string -> string): string {
    if lines == [] then ""
    else
      var line := TrimSpace(lines[0]);
      if line == "" || HasPrefix(line, "===") || HasPrefix(line, "---")
      then FirstMeaningful(lines[1..], stripPosition)
      else stripPosition(line)
  }

  function FirstMeaningfulLine(output: string, stripPosition: string -> string): string {
    FirstMeaningful(Lines(output), stripPosition)
  }

  predicate IsBanner(line: string) {
    HasPrefix(line, "===") || HasPrefix(line, "---")
  }

  /** The diagnostic is the first trimmed line with something in it that is no banner. */
  lemma {:induction false} FirstMeaningfulIs(lines: seq<string>, stripPosition: string -> string) returns (k: nat)
    ensures k <= |lines| && forall j :: 0 <= j < k ==> TrimSpace(lines[j]) == "" || IsBanner(TrimSpace(lines[j]))
    ensures k < |lines| ==> TrimSpace(lines[k]) != "" && !IsBanner(TrimSpace(lines[k]))
    ensures FirstMeaningful(lines, stripPosition) == if k < |lines| then stripPosition(TrimSpace(lines[k])) else ""
  {
    hide TrimSpace, HasPrefix;
    k := 0;
    if lines != [] && (TrimSpace(lines[0]) == "" || IsBanner(TrimSpace(lines[0]))) {
      k := FirstMeaningfulIs(lines[1..], stripPosition);
      assert lines == [lines[0]] + lines[1..];
      k := k + 1;
    }
  }

  const MARKER := "xfail ("
  const MARKER_END := "): "

  function TrimEnd(s: string): string {
    if s != "" && (s[|s| - 1] == ')' || s[|s| - 1] == '\n') then TrimEnd(s[..|s| - 1]) else s
  }

  function XFailReason(output: seq<string>): Option<string> {
    if output == [] then None
    else
      var line := output[0];
      var i := Index(line, MARKER);
      if i < 0 then XFailReason(output[1..])
      else Some(ReasonIn(line[i + |MARKER|..]))
  }

  function ReasonIn(rest: string): string {
    var j := Index(rest, MARKER_END);
    TrimSpace(if j >= 0 then rest[..j] else TrimEnd(rest))
  }

  predicate Marked(line: string) {
    Index(line, MARKER) >= 0
  }

  /** The output events of one logged text: the first line after the source position,
      every further line, except an empty one at the end, after an indent. */
  function LogEvents(position: string, indent: string, text: string): seq<string> {
    var lines := Lines(text);
    var n := if |lines| > 1 && lines[|lines| - 1] == "" then |lines| - 1 else |lines|;
    [position + (lines[0] + "\n")] + seq(n - 1, i requires 0 <= i < n - 1 => indent + lines[i + 1] + "\n")
  }

  /** A passing case counts as an expected failure exactly if a line of it has the mark. */
  lemma {:induction false} XFailExactly(output: seq<string>)
    ensures XFailReason(output).Some? <==> exists l :: l in output && Contains(l, "xfail (")
  {
    if output != [] {
      XFailExactly(output[1..]);
      ContainsIsIndex(output[0], "xfail (");
      assert output == [output[0]] + output[1..];
    }
  }

  /** What the harness logs on an expected failure. */
  function XFailText(reason: string, details: string): string {
    MARKER + (reason + (MARKER_END + details))
  }

  lemma {:induction false} UnmarkedSkipped(before: seq<string>, output: seq<string>)
    requires forall l :: l in before ==> !Marked(l)
    ensures XFailReason(before + output) == XFailReason(output)
  {
    if before == [] {
      assert before + output == output;
    } else {
      UnmarkedSkipped(before[1..], output);
      assert (before + output)[0] == before[0] && !Marked(before[0]);
      assert (before + output)[1..] == before[1..] + output;
    }
  }

  lemma ReasonWithin(reason: string, details: string)
    ensures var j := Index(reason + (MARKER_END + details), MARKER_END);
            if Index(reason, MARKER_END) < 0 then j == |reason| else j == Index(reason, MARKER_END) < |reason|
  {
    var s := MARKER_END + details;
    assert HasPrefix(s, MARKER_END);
    if Index(reason, MARKER_END) < 0 {
      IndexAfter(reason, s, MARKER_END);
    } else {
      IndexExtends(reason, s, MARKER_END);
      assert HasPrefix(reason[Index(reason, MARKER_END)..], MARKER_END);
    }
  }

  lemma ReasonCut(reason: string)
    requires Index(reason, MARKER_END) >= 0
    ensures |TrimSpace(reason[..Index(reason, MARKER_END)])| < |TrimSpace(reason)|
  {
    hide TrimSpace;
    var j := Index(reason, MARKER_END);
    PrefixByChars(reason[j..], MARKER_END);
    assert reason[j] == ')';
    CutShows(reason, j);
  }

  lemma AfterBoth(a: string, b: string, rest: string)
    ensures (a + (b + rest))[|a| + |b|..] == rest
  {
    assert a + (b + rest) == (a + b) + rest;
  }

  lemma StartsWithIt(pat: string, rest: string)
    ensures HasPrefix(pat + rest, pat)
  {}

  lemma MarkerFound(position: string, rest: string)
    requires !Marked(position)
    ensures Index(position + (MARKER + rest), MARKER) == |position|
  {
    hide Index, HasPrefix;
    StartsWithIt(MARKER, rest);
    assert 'x' !in MARKER[1..];
    IndexAfter(position, MARKER + rest, MARKER);
  }

  lemma FirstLineDecides(line: string, after: seq<string>)
    requires Marked(line)
    ensures XFailReason([line] + after) == Some(ReasonIn(line[Index(line, MARKER) + |MARKER|..]))
  {
    assert ([line] + after)[0] == line;
  }

  /** Only the first line of a logged text is looked at. */
  lemma FirstEventDecides(before: seq<string>, position: string, indent: string, rest: string, after: seq<string>)
    requires (forall l :: l in before ==> !Marked(l)) && !Marked(position)
    ensures XFailReason(before + (LogEvents(position, indent, MARKER + rest) + after))
         == Some(ReasonIn(Before(rest, '\n') + "\n"))
  {
    hide XFailReason, Index, ReasonIn, Before, Lines;
    var events := LogEvents(position, indent, MARKER + rest);
    var line, later := events[0], events[1..] + after;
    var read := Before(rest, '\n') + "\n";
    assert [line] + later == events + after;
    UnmarkedSkipped(before, [line] + later);
    FirstLine(MARKER + rest);
    BeforeAppends(MARKER, rest, '\n');
    assert line == position + (MARKER + read) by {
      assert (MARKER + Before(rest, '\n')) + "\n" == MARKER + read;
    }
    MarkerFound(position, read);
    AfterBoth(position, MARKER, read);
    FirstLineDecides(line, later);
  }

  lemma {:induction false} NoMarkAcross(a: string, s: string)
    requires Index(a, MARKER_END) < 0 && Index(s, MARKER_END) < 0
    requires s != "" && s[0] != ':' && s[0] != ' '
    ensures Index(a + s, MARKER_END) < 0
  {
    if a == "" {
      assert a + s == s;
    } else {
      NoMarkAcross(a[1..], s);
      assert (a + s)[1..] == a[1..] + s;
      PrefixByChars(a, MARKER_END);
      PrefixByChars(a + s, MARKER_END);
      assert (a + s)[|a|] == s[0];
      assert forall k :: 0 <= k < |a| ==> (a + s)[k] == a[k];
    }
  }

  lemma TrimEndOnce(s: string, c: char)
    requires c == ')' || c == '\n'
    ensures TrimEnd(s + [c]) == TrimEnd(s)
  {
    assert (s + [c])[..|s|] == s;
  }

  lemma LineIn(line: string)
    requires Index(line, MARKER_END) < 0
    ensures ReasonIn(line + "\n") == TrimSpace(TrimEnd(line))
  {
    hide TrimSpace;
    PrefixByChars("\n", MARKER_END);
    assert "\n"[1..] == "";
    NoMarkAcross(line, "\n");
    TrimEndOnce(line, '\n');
  }

  lemma {:induction false} TrimEndCuts(s: string)
    requires '\n' !in s
    ensures TrimEnd(s) <= s
    ensures if s == "" || s[|s| - 1] != ')' then TrimEnd(s) == s else |TrimEnd(s)| < |s| && s[|TrimEnd(s)|] == ')'
  {
    if s != "" && s[|s| - 1] == ')' {
      TrimEndCuts(s[..|s| - 1]);
    }
  }

  /** The reason can be told from what is logged after it: the closing mark is not in
      its first line, and nothing that counts is lost at the end of that line. */
  predicate Readable(reason: string) {
    var first := Before(reason, '\n');
    && Index(first, MARKER_END) < 0
    && (first == reason || (Blank(reason[|first|..]) && (first == "" || first[|first| - 1] != ')')))
  }

  lemma OneLineIsRead(reason: string, details: string)
    ensures ReasonIn(reason + (MARKER_END + details)) == TrimSpace(reason) <==> Index(reason, MARKER_END) < 0
  {
    hide TrimSpace, Index;
    var rest := reason + (MARKER_END + details);
    ReasonWithin(reason, details);
    var j := Index(rest, MARKER_END);
    assert rest[..j] == reason[..j];
    if Index(reason, MARKER_END) < 0 {
      assert reason[..j] == reason;
    } else {
      ReasonCut(reason);
    }
  }

  lemma BrokenReasonIsRead(reason: string)
    requires '\n' in reason
    ensures ReasonIn(Before(reason, '\n') + "\n") == TrimSpace(reason) <==> Readable(reason)
  {
    hide TrimSpace, Index, Before, TrimEnd, ReasonIn, Blank;
    var first := Before(reason, '\n');
    BeforeIsPrefix(reason, '\n');
    var tail := reason[|first|..];
    assert reason == first + tail;
    if Index(first, MARKER_END) >= 0 {
      MarkInLine(reason, first);
    } else {
      LineIn(first);
      TrimEndCuts(first);
      var m := |TrimEnd(first)|;
      assert TrimEnd(first) == reason[..m];
      if m < |first| {
        NoSpaceBracket();
        CutShows(reason, m);
      } else if Blank(tail) {
        BlankTailIsTrimmed(first, tail);
      } else {
        TailShows(reason, m);
      }
    }
  }

  lemma NoSpaceBracket()
    ensures !IsSpace(')')
  {}

  lemma TailShows(reason: string, m: nat)
    requires m <= |reason| && !Blank(reason[m..])
    ensures |TrimSpace(reason[..m])| < |TrimSpace(reason)|
  {
    hide TrimSpace, IsSpace;
    var tail := reason[m..];
    var i :| 0 <= i < |tail| && !IsSpace(tail[i]);
    CutShows(reason, m + i);
    assert reason[..m + i][..m] == reason[..m];
    CutIsNoLonger(reason[..m + i], m);
  }

  lemma MarkInLine(reason: string, first: string)
    requires first <= reason && Index(first, MARKER_END) >= 0
    ensures ReasonIn(first + "\n") != TrimSpace(reason)
  {
    hide TrimSpace, Index, HasPrefix, TrimEnd;
    var j := Index(first, MARKER_END);
    IndexExtends(first, "\n", MARKER_END);
    PrefixByChars(first[j..], MARKER_END);
    assert reason[j] == first[j] == ')';
    assert (first + "\n")[..j] == reason[..j];
    CutShows(reason, j);
  }

  /** Reading inverts logging: after events without the marker, whatever follows, a
      logged reason is found exactly if it is readable. It may contain parentheses and
      end in line breaks, but hold neither the closing mark nor a second line. */
  lemma LoggedReasonIsRead(
      before: seq<string>, position: string, indent: string, reason: string, details: string, after: seq<string>)
    requires (forall l :: l in before ==> !Marked(l)) && !Marked(position)
    ensures var output := before + (LogEvents(position, indent, XFailText(reason, details)) + after);
            XFailReason(output) == Some(TrimSpace(reason)) <==> Readable(reason)
  {
    hide TrimSpace, Index, Before, ReasonIn, LogEvents, XFailReason;
    var rest := reason + (MARKER_END + details);
    FirstEventDecides(before, position, indent, rest, after);
    BeforeAppends(reason, MARKER_END + details, '\n');
    BeforeIsPrefix(reason, '\n');
    if '\n' in reason {
      BrokenReasonIsRead(reason);
    } else {
      BeforeAppends(MARKER_END, details, '\n');
      var shown := Before(details, '\n') + "\n";
      assert (reason + (MARKER_END + Before(details, '\n'))) + "\n" == reason + (MARKER_END + shown);
      OneLineIsRead(reason, shown);
    }
  }

  /** So a reason of one line is read back exactly if the closing mark is not in it, and
      a reason of two lines is not. */
  lemma ReadableReasons(line: string, more: string)
    requires '\n' !in line && !Blank(more)
    ensures Readable(line) <==> Index(line, MARKER_END) < 0
    ensures !Readable(line + ("\n" + more))
  {
    hide Index, IsSpace;
    BeforeIsPrefix(line, '\n');
    BeforeAppends(line, "\n" + more, '\n');
    var reason, tail := line + ("\n" + more), "\n" + more;
    assert reason[|line|..] == tail;
    var i :| 0 <= i < |more| && !IsSpace(more[i]);
    assert tail[i + 1] == more[i];
  }

  /** A reason logged without details is read from its first line, without the
      parentheses at the end of it. */
  lemma BareReasonIsRead(before: seq<string>, position: string, indent: string, reason: string, after: seq<string>)
    requires (forall l :: l in before ==> !Marked(l)) && !Marked(position)
    requires Index(Before(reason, '\n'), MARKER_END) < 0
    ensures XFailReason(before + (LogEvents(position, indent, MARKER + (reason + ")")) + after))
         == Some(TrimSpace(TrimEnd(Before(reason, '\n'))))
  {
    hide TrimSpace, Index, Before, ReasonIn, LogEvents, XFailReason, TrimEnd;
    FirstEventDecides(before, position, indent, reason + ")", after);
    BeforeAppends(reason, ")", '\n');
    BeforeIsPrefix(reason, '\n');
    BeforeIsPrefix(")", '\n');
    if '\n' in reason {
      LineIn(Before(reason, '\n'));
    } else {
      BracketIn(reason);
    }
  }

  lemma BracketIn(reason: string)
    requires Index(reason, MARKER_END) < 0
    ensures ReasonIn(reason + ")" + "\n") == TrimSpace(TrimEnd(reason))
  {
    hide TrimSpace;
    PrefixByChars(")", MARKER_END);
    assert ")"[1..] == "";
    NoMarkAcross(reason, ")");
    LineIn(reason + ")");
    TrimEndOnce(reason, ')');
  }
}
