/** The per-suite roll-up of a go test stream. */
module TestSummary {
  import opened Common
  import opened GoTestEvents
  import opened Text

  datatype Summary = Summary(
    total: nat, passed: nat, skipped: nat, failed: nat, xfailed: nat,
    skipReasons: map<string, nat>, xfailReasons: map<string, nat>)

  const EMPTY := Summary(0, 0, 0, 0, 0, map[], map[])

  /** How one case counts. */
  datatype Outcome = Uncounted | PassedCase | XFailedCase(reason: string) | FailedCase | SkippedCase(reason: string)

  function SkipReason(output: seq<string>, stripPosition: string -> string): string {
    var reason := FirstMeaningfulLine(Concat(output), stripPosition);
    if reason == "" then "(no reason given)" else reason
  }

  function OutcomeOf(status: Status, output: seq<string>, stripPosition: string -> string): Outcome {
    match status
    case NoStatus => Uncounted
    case Passed => if XFailReason(output).Some? then XFailedCase(XFailReason(output).value) else PassedCase
    case Failed => FailedCase
    case Skipped => SkippedCase(SkipReason(output, stripPosition))
  }

  // ----- the declarative summary: sizes of sets of cases -----

  predicate IsPass(o: Outcome) { o.PassedCase? }
  predicate IsFail(o: Outcome) { o.FailedCase? }
  predicate IsSkip(o: Outcome) { o.SkippedCase? }
  predicate IsXFail(o: Outcome) { o.XFailedCase? }
  predicate IsCounted(o: Outcome) { !o.Uncounted? }

  /** The cases whose outcome satisfies `p`. */
  function Those(m: map<string, Outcome>, p: Outcome -> bool): set<string> {
    set t | t in m && p(m[t])
  }

  /** The cases with exactly this outcome. */
  function With(m: map<string, Outcome>, o: Outcome): set<string> {
    set t | t in m && m[t] == o
  }

  function Skipping(reason: string): Outcome {
    SkippedCase(reason)
  }

  function XFailing(reason: string): Outcome {
    XFailedCase(reason)
  }

  /** A reason is listed exactly if it occurs, with the number of cases that have it. */
  ghost predicate Reasons(m: map<string, Outcome>, table: map<string, nat>, made: string -> Outcome) {
    && (forall r :: r in table <==> With(m, made(r)) != {})
    && (forall r :: r in table ==> table[r] == |With(m, made(r))|)
  }

  /** Each counter is the number of cases with that outcome. */
  predicate Counters(m: map<string, Outcome>, s: Summary) {
    && s.total == |Those(m, IsCounted)|
    && s.passed == |Those(m, IsPass)|
    && s.failed == |Those(m, IsFail)|
    && s.skipped == |Those(m, IsSkip)|
    && s.xfailed == |Those(m, IsXFail)|
  }

  ghost predicate Tallies(m: map<string, Outcome>, s: Summary) {
    Counters(m, s) && Reasons(m, s.skipReasons, Skipping) && Reasons(m, s.xfailReasons, XFailing)
  }

  function CaseOutcome(events: seq<Event>, t: string, stripPosition: string -> string): Outcome
    requires Of(events, t) != []
  {
    var rec := RecordOf(Of(events, t));
    OutcomeOf(rec.status, rec.output, stripPosition)
  }

  function Outcomes(events: seq<Event>, root: string, stripPosition: string -> string): map<string, Outcome> {
    map t | t in Names(events, root) && Of(events, t) != [] :: CaseOutcome(events, t, stripPosition)
  }

  /** What a stream's summary has to be. */
  ghost predicate Summarizes(events: seq<Event>, root: string, stripPosition: string -> string, s: Summary) {
    if Names(events, root) == [] && PackageFailed(events)
    then s == EMPTY.(failed := 1, total := 1)
    else Tallies(Outcomes(events, root, stripPosition), s)
  }

  // ----- counting one case -----

  function Bumped(m: map<string, nat>, reason: string): map<string, nat> {
    m[reason := (if reason in m then m[reason] else 0) + 1]
  }

  function Counted(s: Summary, o: Outcome): Summary {
    match o
    case Uncounted => s
    case PassedCase => s.(passed := s.passed + 1, total := s.total + 1)
    case XFailedCase(r) => s.(xfailed := s.xfailed + 1, xfailReasons := Bumped(s.xfailReasons, r), total := s.total + 1)
    case FailedCase => s.(failed := s.failed + 1, total := s.total + 1)
    case SkippedCase(r) => s.(skipped := s.skipped + 1, skipReasons := Bumped(s.skipReasons, r), total := s.total + 1)
  }

  lemma OneMoreOf(m: map<string, Outcome>, t: string, o: Outcome, p: Outcome -> bool)
    requires t !in m
    ensures |Those(m[t := o], p)| == |Those(m, p)| + if p(o) then 1 else 0
  {
    assert Those(m[t := o], p) == Those(m, p) + if p(o) then {t} else {};
  }

  lemma CountersNext(m: map<string, Outcome>, s: Summary, t: string, o: Outcome)
    requires t !in m && Counters(m, s)
    ensures Counters(m[t := o], Counted(s, o))
  {
    hide Those;
    OneMoreOf(m, t, o, IsCounted);
    OneMoreOf(m, t, o, IsPass);
    OneMoreOf(m, t, o, IsFail);
    OneMoreOf(m, t, o, IsSkip);
    OneMoreOf(m, t, o, IsXFail);
  }

  lemma WithNext(m: map<string, Outcome>, t: string, o: Outcome, x: Outcome)
    requires t !in m
    ensures With(m[t := o], x) == With(m, x) + (if o == x then {t} else {}) && t !in With(m, x)
  {}

  lemma ReasonsKept(m: map<string, Outcome>, table: map<string, nat>, made: string -> Outcome, t: string, o: Outcome)
    requires t !in m && Reasons(m, table, made) && forall r :: made(r) != o
    ensures Reasons(m[t := o], table, made)
  {
    hide With;
    forall r ensures With(m[t := o], made(r)) == With(m, made(r)) {
      WithNext(m, t, o, made(r));
      assert With(m, made(r)) + {} == With(m, made(r));
    }
  }

  lemma ReasonsBumped(m: map<string, Outcome>, table: map<string, nat>, made: string -> Outcome, t: string, r: string)
    requires t !in m && Reasons(m, table, made) && forall q :: q != r ==> made(q) != made(r)
    ensures Reasons(m[t := made(r)], Bumped(table, r), made)
  {
    hide With;
    forall q ensures q != r ==> With(m[t := made(r)], made(q)) == With(m, made(q)) {
      WithNext(m, t, made(r), made(q));
      assert With(m, made(q)) + {} == With(m, made(q));
    }
    WithNext(m, t, made(r), made(r));
    assert t in With(m[t := made(r)], made(r));
  }

  lemma CountedTallies(m: map<string, Outcome>, s: Summary, t: string, o: Outcome)
    requires t !in m && Tallies(m, s)
    ensures Tallies(m[t := o], Counted(s, o))
  {
    hide Counters, Reasons, Bumped;
    CountersNext(m, s, t, o);
    match o
    case SkippedCase(r) =>
      ReasonsBumped(m, s.skipReasons, Skipping, t, r);
      ReasonsKept(m, s.xfailReasons, XFailing, t, o);
    case XFailedCase(r) =>
      ReasonsKept(m, s.skipReasons, Skipping, t, o);
      ReasonsBumped(m, s.xfailReasons, XFailing, t, r);
    case _ =>
      ReasonsKept(m, s.skipReasons, Skipping, t, o);
      ReasonsKept(m, s.xfailReasons, XFailing, t, o);
  }

  // ----- the roll-up as it runs -----

  datatype Tally = Tally(status: Status, output: seq<string>)

  function TallyOf(rec: Record): Tally {
    Tally(rec.status, rec.output)
  }

  function Noted(t: Tally, e: Event): Tally {
    match e.action
    case Pass => t.(status := Passed)
    case Fail => t.(status := Failed)
    case Skip => t.(status := Skipped)
    case Output => t.(output := t.output + [e.output])
    case _ => t
  }

  /** What the first loop knows after reading `events`. */
  ghost predicate Scanned(
      events: seq<Event>, root: string, records: map<string, Tally>, order: seq<string>, packageFailed: bool) {
    && order == Names(events, root)
    && (forall t :: t in records <==> t in order)
    && (forall t :: t in order ==> Of(events, t) != [] && records[t] == TallyOf(RecordOf(Of(events, t))))
    && packageFailed == PackageFailed(events)
  }

  lemma ScanPackage(
      events: seq<Event>, e: Event, root: string, records: map<string, Tally>, order: seq<string>, packageFailed: bool)
    requires Scanned(events, root, records, order, packageFailed) && e.test == ""
    ensures Scanned(events + [e], root, records, order, packageFailed || e.action.BuildFail? || e.action.Fail?)
  {
    hide RecordOf, Names, PackageFailed, Of;
    PackageFailedNext(events, e);
    NamesNext(events, e, root);
    RootIsNoCase(root);
    forall t ensures Of(events + [e], t) == if e.test == t then Of(events, t) + [e] else Of(events, t) {
      OfNext(events, e, t);
    }
    forall t | t in order ensures t != "" {
      NamesAreCases(events, root, t);
    }
  }

  lemma ScanOther(
      events: seq<Event>, e: Event, root: string, records: map<string, Tally>, order: seq<string>, packageFailed: bool)
    requires Scanned(events, root, records, order, packageFailed) && e.test != "" && !IsCase(root, e.test)
    ensures Scanned(events + [e], root, records, order, packageFailed)
  {
    hide RecordOf, Names, PackageFailed, Of;
    PackageFailedNext(events, e);
    NamesNext(events, e, root);
    forall t ensures Of(events + [e], t) == if e.test == t then Of(events, t) + [e] else Of(events, t) {
      OfNext(events, e, t);
    }
    forall t | t in order ensures t != e.test {
      NamesAreCases(events, root, t);
    }
  }

  lemma TallyNext(own: seq<Event>, e: Event)
    ensures TallyOf(RecordOf(own + [e])) ==
            Noted(if own == [] then Tally(NoStatus, []) else TallyOf(RecordOf(own)), e)
  {
    RecordNext(own, e);
  }

  lemma ScanCase(
      events: seq<Event>, e: Event, root: string, records: map<string, Tally>, order: seq<string>, packageFailed: bool)
    requires Scanned(events, root, records, order, packageFailed) && e.test != "" && IsCase(root, e.test)
    ensures var old' := if e.test in records then records[e.test] else Tally(NoStatus, []);
            Scanned(events + [e], root, records[e.test := Noted(old', e)],
                    if e.test in records then order else order + [e.test], packageFailed)
  {
    hide RecordOf, TallyOf, Noted, Names, IsCase, PackageFailed, Of;
    PackageFailedNext(events, e);
    NamesNext(events, e, root);
    NamesAreCases(events, root, e.test);
    var seen := e.test in records;
    var order' := if seen then order else order + [e.test];
    var records' := records[e.test := Noted(if seen then records[e.test] else Tally(NoStatus, []), e)];
    assert forall t :: t in order' <==> t in order || t == e.test;
    forall t | t in order'
      ensures Of(events + [e], t) != [] && records'[t] == TallyOf(RecordOf(Of(events + [e], t)))
    {
      OfNext(events, e, t);
      TallyNext(Of(events, e.test), e);
    }
  }

  lemma ScanNothing(root: string)
    ensures Scanned([], root, map[], [], false)
  {}

  /** What the second loop knows after counting the first `k` cases. */
  ghost predicate Rolled(
      events: seq<Event>, stripPosition: string -> string, order: seq<string>, k: nat,
      m: map<string, Outcome>, s: Summary)
    requires k <= |order|
  {
    && Tallies(m, s)
    && (forall t :: t in m <==> t in order[..k])
    && (forall t :: t in m ==> Of(events, t) != [] && m[t] == CaseOutcome(events, t, stripPosition))
  }

  lemma RollNothing(events: seq<Event>, stripPosition: string -> string, order: seq<string>)
    ensures Rolled(events, stripPosition, order, 0, map[], EMPTY)
  {
    assert Those(map[], IsCounted) == Those(map[], IsPass) == Those(map[], IsFail) == {};
    assert Those(map[], IsSkip) == Those(map[], IsXFail) == {};
  }

  lemma RollNext(
      events: seq<Event>, root: string, stripPosition: string -> string, records: map<string, Tally>, order: seq<string>,
      packageFailed: bool, k: nat, m: map<string, Outcome>, s: Summary)
    requires Scanned(events, root, records, order, packageFailed)
    requires k < |order| && Rolled(events, stripPosition, order, k, m, s)
    ensures order[k] in records
    ensures var rc := records[order[k]];
            var o := OutcomeOf(rc.status, rc.output, stripPosition);
            Rolled(events, stripPosition, order, k + 1, m[order[k] := o], Counted(s, o))
  {
    hide Tallies, OutcomeOf, Counted, RecordOf, Names, Of;
    NamesAreCases(events, root, "");
    var t := order[k];
    assert order[..k + 1] == order[..k] + [t];
    assert t !in m;
    CountedTallies(m, s, t, OutcomeOf(records[t].status, records[t].output, stripPosition));
  }

  lemma RollEnds(
      events: seq<Event>, root: string, stripPosition: string -> string, records: map<string, Tally>, order: seq<string>,
      packageFailed: bool, m: map<string, Outcome>, s: Summary)
    requires Scanned(events, root, records, order, packageFailed)
    requires Rolled(events, stripPosition, order, |order|, m, s) && !(order == [] && packageFailed)
    ensures Summarizes(events, root, stripPosition, s)
  {
    hide Tallies, CaseOutcome, Names, Of, PackageFailed;
    assert order[..|order|] == order;
    assert m == Outcomes(events, root, stripPosition);
  }

  lemma NothingRan(
      events: seq<Event>, root: string, stripPosition: string -> string, records: map<string, Tally>, order: seq<string>)
    requires Scanned(events, root, records, order, true) && order == []
    ensures Summarizes(events, root, stripPosition, EMPTY.(failed := 1, total := 1))
  {}

  method Summarize(events: seq<Event>, root: string, stripPosition: string -> string) returns (r: Option<Summary>)
    ensures r.None? <==> root == ""
    ensures r.Some? ==> Summarizes(events, root, stripPosition, r.value)
  {
    hide Scanned, Rolled, Summarizes, Noted, Counted, OutcomeOf, IsCase;
    if root == "" {
      return None;
    }
    var records: map<string, Tally> := map[];
    var order: seq<string> := [];
    var packageFailed := false;
    ScanNothing(root);
    for k := 0 to |events|
      invariant Scanned(events[..k], root, records, order, packageFailed)
      invariant forall t :: t in order <==> t in records
    {
      var ev := events[k];
      assert events[..k + 1] == events[..k] + [ev];
      if ev.test == "" {
        ScanPackage(events[..k], ev, root, records, order, packageFailed);
        if ev.action.BuildFail? || ev.action.Fail? {
          packageFailed := true;
        }
        continue;
      }
      if !IsCase(root, ev.test) {
        ScanOther(events[..k], ev, root, records, order, packageFailed);
        continue;
      }
      ScanCase(events[..k], ev, root, records, order, packageFailed);
      var rc := Tally(NoStatus, []);
      if ev.test in records {
        rc := records[ev.test];
      } else {
        order := order + [ev.test];
      }
      records := records[ev.test := Noted(rc, ev)];
    }
    assert events[..|events|] == events;
    if |order| == 0 && packageFailed {
      NothingRan(events, root, stripPosition, records, order);
      return Some(EMPTY.(failed := 1, total := 1));
    }
    var s := EMPTY;
    ghost var m: map<string, Outcome> := map[];
    RollNothing(events, stripPosition, order);
    for k := 0 to |order|
      invariant Rolled(events, stripPosition, order, k, m, s)
    {
      RollNext(events, root, stripPosition, records, order, packageFailed, k, m, s);
      var rc := records[order[k]];
      var o := OutcomeOf(rc.status, rc.output, stripPosition);
      m := m[order[k] := o];
      s := Counted(s, o);
    }
    RollEnds(events, root, stripPosition, records, order, packageFailed, m, s);
    return Some(s);
  }

  // ----- conservation -----

  ghost function Any(keys: set<string>): string
    requires keys != {}
  {
    var r :| r in keys; r
  }

  ghost function SumOver(keys: set<string>, table: map<string, nat>): nat
    requires keys <= table.Keys
  {
    if keys == {} then 0
    else
      var r := Any(keys);
      table[r] + SumOver(keys - {r}, table)
  }

  ghost function Total(table: map<string, nat>): nat {
    SumOver(table.Keys, table)
  }

  /** The cases with one of these reasons. */
  ghost function Among(m: map<string, Outcome>, keys: set<string>, made: string -> Outcome): set<string> {
    set t | t in m && exists r :: r in keys && made(r) == m[t]
  }

  lemma AmongSplits(m: map<string, Outcome>, keys: set<string>, r: string, made: string -> Outcome)
    requires r in keys && forall q :: q != r ==> made(q) != made(r)
    ensures |Among(m, keys, made)| == |With(m, made(r))| + |Among(m, keys - {r}, made)|
  {
    assert Among(m, keys, made) == With(m, made(r)) + Among(m, keys - {r}, made);
    assert With(m, made(r)) !! Among(m, keys - {r}, made);
  }

  lemma {:induction false} SumIsCases(
      m: map<string, Outcome>, keys: set<string>, table: map<string, nat>, made: string -> Outcome)
    requires Reasons(m, table, made) && keys <= table.Keys && forall q, r :: q != r ==> made(q) != made(r)
    ensures SumOver(keys, table) == |Among(m, keys, made)|
  {
    if keys == {} {
      assert Among(m, keys, made) == {};
    } else {
      AmongSplits(m, keys, Any(keys), made);
      SumIsCases(m, keys - {Any(keys)}, table, made);
    }
  }

  lemma AllSkipped(m: map<string, Outcome>, table: map<string, nat>)
    requires Reasons(m, table, Skipping)
    ensures Among(m, table.Keys, Skipping) == Those(m, IsSkip)
  {
    forall t | t in m && IsSkip(m[t]) ensures t in Among(m, table.Keys, Skipping) {
      assert t in With(m, Skipping(m[t].reason));
    }
  }

  lemma AllXFailed(m: map<string, Outcome>, table: map<string, nat>)
    requires Reasons(m, table, XFailing)
    ensures Among(m, table.Keys, XFailing) == Those(m, IsXFail)
  {
    forall t | t in m && IsXFail(m[t]) ensures t in Among(m, table.Keys, XFailing) {
      assert t in With(m, XFailing(m[t].reason));
    }
  }

  lemma AllReasonsCounted(m: map<string, Outcome>, s: Summary)
    requires Tallies(m, s)
    ensures Total(s.skipReasons) == s.skipped && Total(s.xfailReasons) == s.xfailed
  {
    hide Reasons, Among, Those;
    AllSkipped(m, s.skipReasons);
    AllXFailed(m, s.xfailReasons);
    SumIsCases(m, s.skipReasons.Keys, s.skipReasons, Skipping);
    SumIsCases(m, s.xfailReasons.Keys, s.xfailReasons, XFailing);
  }

  lemma EveryOutcomeCounted(m: map<string, Outcome>)
    ensures |Those(m, IsCounted)| ==
            |Those(m, IsPass)| + |Those(m, IsXFail)| + |Those(m, IsFail)| + |Those(m, IsSkip)|
  {
    var passed, xfailed, failed, skipped := Those(m, IsPass), Those(m, IsXFail), Those(m, IsFail), Those(m, IsSkip);
    assert Those(m, IsCounted) == passed + xfailed + failed + skipped;
    assert passed !! xfailed && passed + xfailed !! failed && passed + xfailed + failed !! skipped;
  }

  /** Nothing is lost: every counted case is in exactly one of four counters, every
      skip and expected failure under exactly one reason. */
  lemma SummaryAddsUp(events: seq<Event>, root: string, stripPosition: string -> string, s: Summary)
    requires Summarizes(events, root, stripPosition, s)
    ensures s.total == s.passed + s.xfailed + s.failed + s.skipped
    ensures Total(s.skipReasons) == s.skipped && Total(s.xfailReasons) == s.xfailed
  {
    hide Those, Reasons, Outcomes, PackageFailed;
    if !(Names(events, root) == [] && PackageFailed(events)) {
      var m := Outcomes(events, root, stripPosition);
      EveryOutcomeCounted(m);
      AllReasonsCounted(m, s);
    }
  }

  // ----- interleavings -----

  lemma SameTable(m: map<string, Outcome>, a: map<string, nat>, b: map<string, nat>, made: string -> Outcome)
    requires Reasons(m, a, made) && Reasons(m, b, made)
    ensures a == b
  {
    hide With;
    assert forall r :: r in a <==> With(m, made(r)) != {};
    assert forall r :: r in a <==> r in b;
    assert a.Keys == b.Keys;
  }

  /** A stream has one summary, and it does not depend on how the tests take turns. */
  lemma SummaryIgnoresInterleaving(
      a: seq<Event>, b: seq<Event>, root: string, stripPosition: string -> string, s: Summary, s': Summary)
    requires SameStreams(a, b)
    requires Summarizes(a, root, stripPosition, s) && Summarizes(b, root, stripPosition, s')
    ensures s == s'
  {
    hide Reasons, CaseOutcome, Names, Of;
    SameStreamsSameNames(a, b, root);
    forall t | Of(a, t) != [] ensures CaseOutcome(a, t, stripPosition) == CaseOutcome(b, t, stripPosition) {
      SameStreamsSameOutcome(a, b, t, stripPosition);
    }
    var m := Outcomes(a, root, stripPosition);
    assert m == Outcomes(b, root, stripPosition);
    assert Names(a, root) == [] <==> Names(b, root) == [] by { EmptyTogether(Names(a, root), Names(b, root)); }
    if !(Names(a, root) == [] && PackageFailed(a)) {
      SameTable(m, s.skipReasons, s'.skipReasons, Skipping);
      SameTable(m, s.xfailReasons, s'.xfailReasons, XFailing);
    }
  }

  lemma SameStreamsSameOutcome(a: seq<Event>, b: seq<Event>, t: string, stripPosition: string -> string)
    requires SameStreams(a, b) && Of(a, t) != []
    ensures CaseOutcome(a, t, stripPosition) == CaseOutcome(b, t, stripPosition)
  {}

  lemma EmptyTogether(a: seq<string>, b: seq<string>)
    requires forall t :: t in a <==> t in b
    ensures a == [] <==> b == []
  {
    assert a != [] ==> a[0] in b;
    assert b != [] ==> b[0] in a;
  }

  // ----- the counters, read off the stream -----

  /** The cases whose last verdict is this action. */
  ghost function Ending(events: seq<Event>, root: string, action: Action): set<string> {
    set e | e in events && IsCase(root, e.test) && EndsIn(events, e.test, action) :: e.test
  }

  ghost predicate LogsXFail(events: seq<Event>, test: string) {
    exists l :: l in Texts(events, test) && Contains(l, "xfail (")
  }

  lemma OutcomeExactly(events: seq<Event>, t: string, stripPosition: string -> string)
    requires Of(events, t) != []
    ensures var o := CaseOutcome(events, t, stripPosition);
            && (IsFail(o) <==> EndsIn(events, t, Fail))
            && (IsSkip(o) <==> EndsIn(events, t, Skip))
            && (IsPass(o) <==> EndsIn(events, t, Pass) && !LogsXFail(events, t))
            && (IsXFail(o) <==> EndsIn(events, t, Pass) && LogsXFail(events, t))
  {
    hide Of, RecordOf, Texts, EndsIn, XFailReason, Contains, SkipReason;
    StatusExactly(events, t);
    RecordMeans(events, t);
    XFailExactly(Texts(events, t));
    assert RecordOf(Of(events, t)).output == Texts(events, t);
  }

  lemma CaseOccurs(events: seq<Event>, root: string, t: string)
    ensures t in Names(events, root) && Of(events, t) != [] <==> IsCase(root, t) && exists e :: e in events && e.test == t
  {
    hide Of, Names, IsCase;
    NamesAreCases(events, root, t);
    OccursExactly(events, t);
  }

  lemma EndingThose(events: seq<Event>, root: string, stripPosition: string -> string, action: Action, p: Outcome -> bool)
    requires forall t :: t in Outcomes(events, root, stripPosition) ==>
               (p(Outcomes(events, root, stripPosition)[t]) <==> EndsIn(events, t, action))
    ensures Those(Outcomes(events, root, stripPosition), p) == Ending(events, root, action)
  {
    hide CaseOutcome, EndsIn, IsCase, Of, Names;
    forall t ensures t in Outcomes(events, root, stripPosition) <==> IsCase(root, t) && exists e :: e in events && e.test == t {
      CaseOccurs(events, root, t);
      NamesAreCases(events, root, t);
    }
  }

  /** A case counts as failed or skipped exactly if its last verdict is that; the passing
      ones that log an expected failure count as such, the others as passed; cases
      without a verdict do not count. If no case began and the package failed, that is
      the one failure. */
  lemma CountersAreVerdicts(events: seq<Event>, root: string, stripPosition: string -> string, s: Summary)
    requires Summarizes(events, root, stripPosition, s)
    ensures (exists e :: e in events && IsCase(root, e.test))
              || !(exists e :: e in events && e.test == "" && (e.action == BuildFail || e.action == Fail)) ==>
              && s.failed == |Ending(events, root, Fail)|
              && s.skipped == |Ending(events, root, Skip)|
              && s.passed + s.xfailed == |Ending(events, root, Pass)|
              && s.xfailed == |set t | t in Ending(events, root, Pass) && LogsXFail(events, t)|
    ensures !(exists e :: e in events && IsCase(root, e.test))
              && (exists e :: e in events && e.test == "" && (e.action == BuildFail || e.action == Fail)) ==>
              s.total == s.failed == 1 && s.passed == s.skipped == s.xfailed == 0
  {
    hide Of, Names, Those, Ending, Outcomes, Reasons, PackageFailed, HasPrefix, EndsIn, LogsXFail;
    NothingRanExactly(events, root);
    if !(Names(events, root) == [] && PackageFailed(events)) {
      CountsOfVerdicts(events, root, stripPosition);
    }
  }

  lemma NothingRanExactly(events: seq<Event>, root: string)
    ensures Names(events, root) == [] <==> !(exists e :: e in events && IsCase(root, e.test))
    ensures PackageFailed(events) <==> exists e :: e in events && e.test == "" && (e.action == BuildFail || e.action == Fail)
  {
    hide Of, Names, HasPrefix;
    PackageFailedExactly(events);
    if Names(events, root) != [] {
      var t := Names(events, root)[0];
      NamesAreCases(events, root, t);
      OccursExactly(events, t);
    }
    if e :| e in events && IsCase(root, e.test) {
      NamesAreCases(events, root, e.test);
      OccursExactly(events, e.test);
    }
  }

  lemma CountsOfVerdicts(events: seq<Event>, root: string, stripPosition: string -> string)
    ensures var m := Outcomes(events, root, stripPosition);
            && |Those(m, IsFail)| == |Ending(events, root, Fail)|
            && |Those(m, IsSkip)| == |Ending(events, root, Skip)|
            && |Those(m, IsPass)| + |Those(m, IsXFail)| == |Ending(events, root, Pass)|
            && |Those(m, IsXFail)| == |set t | t in Ending(events, root, Pass) && LogsXFail(events, t)|
  {
    hide CaseOutcome, EndsIn, Ending, LogsXFail, Of, Names, IsPass, IsXFail, IsFail, IsSkip;
    var m := Outcomes(events, root, stripPosition);
    forall t | t in m
      ensures IsFail(m[t]) <==> EndsIn(events, t, Fail)
      ensures IsSkip(m[t]) <==> EndsIn(events, t, Skip)
      ensures IsPass(m[t]) <==> EndsIn(events, t, Pass) && !LogsXFail(events, t)
      ensures IsXFail(m[t]) <==> EndsIn(events, t, Pass) && LogsXFail(events, t)
    {
      OutcomeExactly(events, t, stripPosition);
    }
    var green := (o: Outcome) => IsPass(o) || IsXFail(o);
    EndingThose(events, root, stripPosition, Fail, IsFail);
    EndingThose(events, root, stripPosition, Skip, IsSkip);
    EndingThose(events, root, stripPosition, Pass, green);
    GreenSplits(m, green);
    assert Those(m, IsXFail) == set t | t in Those(m, green) && LogsXFail(events, t);
  }

  lemma GreenSplits(m: map<string, Outcome>, green: Outcome -> bool)
    requires forall o :: green(o) <==> IsPass(o) || IsXFail(o)
    ensures |Those(m, green)| == |Those(m, IsPass)| + |Those(m, IsXFail)|
  {
    assert Those(m, green) == Those(m, IsPass) + Those(m, IsXFail);
    assert Those(m, IsPass) !! Those(m, IsXFail);
  }

  /** One passing test is one passed case, one failing test one failure. */
  lemma OneVerdictCounts(root: string, name: string, passing: bool, stripPosition: string -> string, s: Summary)
    requires name != ""
    requires var e := Event(if passing then Pass else Fail, "", "p", root + "/" + name, "", 1.0);
             Summarizes([e], root, stripPosition, s)
    ensures s.passed == (if passing then 1 else 0) && s.failed == if passing then 0 else 1
  {
    var e := Event(if passing then Pass else Fail, "", "p", root + "/" + name, "", 1.0);
    hide Summarizes;
    CountersAreVerdicts([e], root, stripPosition, s);
    assert e in [e] && root + "/" + name == (root + "/") + name && IsCase(root, e.test);
    assert LastVerdict([e], e.test, 0);
    assert Texts([e], e.test) == [] by {
      TextsNext([], e, e.test);
      assert [] + [e] == [e] && Texts([], e.test) == [];
    }
    assert Ending([e], root, Fail) == if passing then {} else {e.test};
    assert Ending([e], root, Pass) == if passing then {e.test} else {};
  }
}
