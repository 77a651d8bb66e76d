/** The manifest counts of the QT3 suite and the cases its generator emits: two passes
    over the same catalog that must agree. */
module Qt3Plan {
  import opened Common
  import opened Text
  import Qt3Assertions

  type Assertion = Qt3Assertions.Assertion

  datatype Dependency = Dependency(kind: string, value: string, satisfied: string)

  datatype Source = Source(role: string, validation: string)

  datatype Schema = Schema(role: string, file: string, uri: string)

  datatype Environment = Environment(name: string, ref: string, sources: seq<Source>, schemas: seq<Schema>)

  datatype TestCase = TestCase(
    name: string, environment: Option<Environment>, dependencies: seq<Dependency>, assertions: seq<Assertion>)

  datatype TestSet = TestSet(dependencies: seq<Dependency>, environments: seq<Environment>, cases: seq<TestCase>)

  datatype TestSetRef = TestSetRef(name: string, file: string)

  datatype Catalog = Catalog(environments: seq<Environment>, testSets: seq<TestSetRef>)

  /** What lies outside the two passes: the source tree and the suite's fixed tables. */
  datatype World = World(
    contained: string -> bool,
    testSets: map<string, TestSet>,
    readable: string -> bool,
    join: (string, string) -> string,
    dir: string -> string,
    quote: string -> string,
    unicodeVersion: string,
    caseSkip: string -> string,
    setSkip: string -> string,
    raisesDynamically: string -> bool,
    versionNeutral: string -> bool)

  const STATIC_TYPING := "requires static typing"
  const XSD_10 := "requires XSD 1.0"

  // ----- applicability -----

  predicate IsSpec(d: Dependency) {
    d.kind == "spec"
  }

  predicate HasSpec(deps: seq<Dependency>) {
    exists d :: d in deps && IsSpec(d)
  }

  predicate IsSupportedFeature(d: Dependency) {
    match d.kind
    case "unicode-normalization-form" => d.value in ["NFC", "NFD", "NFKC", "NFKD", "FULLY-NORMALIZED"]
    case "xsd-version" => d.value == "1.1"
    case "feature" => d.value in ["fn-transform-XSLT", "fn-transform-XSLT30"]
    case _ => false
  }

  /** The case wants a processor without something this one has. */
  predicate Forbids(deps: seq<Dependency>) {
    exists d :: d in deps && d.satisfied == "false" && IsSupportedFeature(d)
  }

  function Word(s: string): (w: string)
    ensures |w| <= |s|
  {
    if s == "" || IsSpace(s[0]) then "" else [s[0]] + Word(s[1..])
  }

  function Fields(s: string): seq<string>
    decreases |s|
  {
    if s == "" then []
    else if IsSpace(s[0]) then Fields(s[1..])
    else [Word(s)] + Fields(s[|Word(s)|..])
  }

  predicate Includes31(v: string) {
    (v != "" && v[|v| - 1] == '+') || v == "XP31"
  }

  predicate Accepts(d: Dependency) {
    IsSpec(d) && d.satisfied != "false" && exists v :: v in Fields(d.value) && HasPrefix(v, "XP") && Includes31(v)
  }

  /** As the two scans do it: forbidden features first, then the spec tokens. */
  predicate IsXPathApplicable(deps: seq<Dependency>) {
    !Forbids(deps) && ((exists d :: d in deps && Accepts(d)) || !HasSpec(deps))
  }

  function WithoutSpecs(deps: seq<Dependency>): seq<Dependency> {
    if deps == [] then []
    else if IsSpec(deps[0]) then WithoutSpecs(deps[1..])
    else [deps[0]] + WithoutSpecs(deps[1..])
  }

  function MergeDeps(setDeps: seq<Dependency>, caseDeps: seq<Dependency>): seq<Dependency> {
    (if HasSpec(caseDeps) then WithoutSpecs(setDeps) else setDeps) + caseDeps
  }

  lemma {:induction false} WithoutSpecsKeeps(deps: seq<Dependency>, d: Dependency)
    ensures d in WithoutSpecs(deps) <==> d in deps && !IsSpec(d)
  {
    if deps != [] {
      WithoutSpecsKeeps(deps[1..], d);
      assert deps == [deps[0]] + deps[1..];
    }
  }

  lemma SpecsNeverForbid(d: Dependency)
    requires IsSpec(d)
    ensures !IsSupportedFeature(d)
  {}

  /** A case's own spec dependency takes precedence over its set's, everything else
      applies together. */
  lemma CaseSpecTakesPrecedence(setDeps: seq<Dependency>, caseDeps: seq<Dependency>)
    ensures IsXPathApplicable(MergeDeps(setDeps, caseDeps)) <==>
            && !Forbids(setDeps)
            && if HasSpec(caseDeps) then IsXPathApplicable(caseDeps)
               else !Forbids(caseDeps) && ((exists d :: d in setDeps && Accepts(d)) || !HasSpec(setDeps))
  {
    hide IsSupportedFeature, Fields;
    var merged := MergeDeps(setDeps, caseDeps);
    forall d
      ensures d in merged <==> d in caseDeps || (d in setDeps && !(HasSpec(caseDeps) && IsSpec(d)))
    {
      WithoutSpecsKeeps(setDeps, d);
    }
    forall d | IsSpec(d) ensures !IsSupportedFeature(d) {
      SpecsNeverForbid(d);
    }
    assert Forbids(merged) <==> Forbids(setDeps) || Forbids(caseDeps);
  }

  // ----- applicability, token by token -----

  /** The characters from `i` up to `j` are a word of `s`. */
  predicate IsWord(s: string, i: int, j: int) {
    0 <= i < j <= |s| && (forall k :: i <= k < j ==> !IsSpace(s[k]))
    && (i == 0 || IsSpace(s[i - 1])) && (j == |s| || IsSpace(s[j]))
  }

  ghost predicate HasWord(s: string, w: string) {
    exists i, j :: IsWord(s, i, j) && s[i..j] == w
  }

  lemma {:induction false} WordIs(s: string)
    ensures var n := |Word(s)|;
            s[..n] == Word(s) && (forall k :: 0 <= k < n ==> !IsSpace(s[k])) && (n == |s| || IsSpace(s[n]))
  {
    if s != "" && !IsSpace(s[0]) {
      WordIs(s[1..]);
      assert s == [s[0]] + s[1..];
    }
  }

  lemma WordShifts(s: string, n: nat, w: string)
    requires n <= |s| && (n == |s| || IsSpace(s[n]) || n == 0 || IsSpace(s[n - 1]))
    ensures HasWord(s[n..], w) <==> exists i, j :: n <= i && IsWord(s, i, j) && s[i..j] == w
  {
    hide IsSpace;
    if i, j :| IsWord(s[n..], i, j) && s[n..][i..j] == w {
      WordMoves(s, n, i, j);
      assert n <= n + i && IsWord(s, n + i, n + j);
    }
    if i, j :| n <= i && IsWord(s, i, j) && s[i..j] == w {
      WordIsInside(s, i, j);
      WordMoves(s, n, i - n, j - n);
    }
  }

  lemma WordIsInside(s: string, i: int, j: int)
    requires IsWord(s, i, j)
    ensures 0 <= i < j <= |s|
  {}

  lemma WordMoves(s: string, n: nat, i: int, j: int)
    requires n <= |s| && (n == |s| || IsSpace(s[n]) || n == 0 || IsSpace(s[n - 1]))
    ensures i >= 0 ==> (IsWord(s[n..], i, j) <==> IsWord(s, n + i, n + j))
    ensures IsWord(s[n..], i, j) ==> 0 <= i < j <= |s| - n && s[n..][i..j] == s[n + i..n + j]
  {
    hide IsSpace;
    assert forall k :: 0 <= k < |s| - n ==> s[n..][k] == s[n + k];
  }

  lemma WordsOf(s: string, w: string)
    requires s != "" && !IsSpace(s[0])
    ensures HasWord(s, w) <==> w == Word(s) || HasWord(s[|Word(s)|..], w)
  {
    var n := |Word(s)|;
    WordIs(s);
    hide IsSpace, Word;
    WordShifts(s, n, w);
    assert IsWord(s, 0, n) && s[0..n] == s[..n];
    forall i, j | IsWord(s, i, j) && i < n ensures i == 0 && j == n {}
  }

  lemma BlankHasNoWord(s: string, w: string)
    requires s != "" && IsSpace(s[0])
    ensures HasWord(s, w) <==> HasWord(s[1..], w)
  {
    WordShifts(s, 1, w);
  }

  lemma {:induction false} FieldsExactly(s: string, w: string)
    ensures w in Fields(s) <==> HasWord(s, w)
    decreases |s|
  {
    hide IsSpace, Word, HasWord;
    if s == "" {
      NothingHasNoWord(w);
    } else if IsSpace(s[0]) {
      BlankHasNoWord(s, w);
      FieldsExactly(s[1..], w);
    } else {
      WordIsShorter(s);
      WordsOf(s, w);
      FieldsExactly(s[|Word(s)|..], w);
    }
  }

  lemma NothingHasNoWord(w: string)
    ensures !HasWord("", w)
  {}

  lemma WordIsShorter(s: string)
    requires s != "" && !IsSpace(s[0])
    ensures |Word(s)| > 0
  {}

  /** A spec token for a version of XPath that includes 3.1. */
  predicate ForXPath31(token: string) {
    token == "XP31" || (HasPrefix(token, "XP") && token[|token| - 1] == '+')
  }

  /** A dependency on the absence of something the processor has. */
  predicate WantsLess(d: Dependency) {
    d.satisfied == "false" &&
    ((d.kind == "xsd-version" && d.value == "1.1")
     || (d.kind == "feature" && (d.value == "fn-transform-XSLT" || d.value == "fn-transform-XSLT30"))
     || (d.kind == "unicode-normalization-form"
         && (d.value == "NFC" || d.value == "NFD" || d.value == "NFKC" || d.value == "NFKD"
             || d.value == "FULLY-NORMALIZED")))
  }

  lemma ForbidsExactly(deps: seq<Dependency>)
    ensures Forbids(deps) <==> exists d :: d in deps && WantsLess(d)
  {
    assert forall d :: WantsLess(d) <==> d.satisfied == "false" && IsSupportedFeature(d);
  }

  ghost predicate AsksForXPath31(d: Dependency) {
    d.kind == "spec" && d.satisfied != "false" && exists t :: HasWord(d.value, t) && ForXPath31(t)
  }

  lemma TokenIsAccepted(v: string)
    ensures HasPrefix(v, "XP") && Includes31(v) <==> ForXPath31(v)
  {
    PrefixByChars("XP31", "XP");
  }

  lemma AcceptsExactly(d: Dependency)
    ensures Accepts(d) <==> AsksForXPath31(d)
  {
    hide Fields, HasPrefix, Includes31, ForXPath31, HasWord;
    forall v ensures v in Fields(d.value) <==> HasWord(d.value, v) {
      FieldsExactly(d.value, v);
    }
    forall v ensures HasPrefix(v, "XP") && Includes31(v) <==> ForXPath31(v) {
      TokenIsAccepted(v);
    }
  }

  /** Dependencies apply exactly if none wants the processor to have less than it has and,
      if there are spec dependencies, one of them asks for a version including 3.1. */
  lemma ApplicableExactly(deps: seq<Dependency>)
    ensures IsXPathApplicable(deps) <==>
            && !(exists d :: d in deps && WantsLess(d))
            && ((forall d :: d in deps ==> d.kind != "spec") || exists d :: d in deps && AsksForXPath31(d))
  {
    hide Forbids, Accepts, WantsLess, AsksForXPath31;
    ForbidsExactly(deps);
    forall d ensures Accepts(d) <==> AsksForXPath31(d) {
      AcceptsExactly(d);
    }
  }

  /** The dependencies of the case stand behind those of the set. */
  lemma {:induction false} MergedInOrder(setDeps: seq<Dependency>, caseDeps: seq<Dependency>)
    ensures |MergeDeps(setDeps, caseDeps)| >= |caseDeps|
    ensures var n := |MergeDeps(setDeps, caseDeps)| - |caseDeps|;
            && MergeDeps(setDeps, caseDeps)[n..] == caseDeps
            && (if exists d :: d in caseDeps && d.kind == "spec"
                then forall d :: d in MergeDeps(setDeps, caseDeps)[..n] <==> d in setDeps && d.kind != "spec"
                else MergeDeps(setDeps, caseDeps)[..n] == setDeps)
  {
    forall d ensures d in WithoutSpecs(setDeps) <==> d in setDeps && d.kind != "spec" {
      WithoutSpecsKeeps(setDeps, d);
    }
  }

  /** Testing a set before its cases shuts out exactly these: cases that name their own,
      applicable spec inside a set whose spec is for something else. */
  lemma SetTestShutsOutExactly(setDeps: seq<Dependency>, caseDeps: seq<Dependency>)
    ensures !IsXPathApplicable(setDeps) && IsXPathApplicable(MergeDeps(setDeps, caseDeps)) <==>
            && !Forbids(setDeps) && HasSpec(setDeps) && !(exists d :: d in setDeps && Accepts(d))
            && HasSpec(caseDeps) && IsXPathApplicable(caseDeps)
  {
    CaseSpecTakesPrecedence(setDeps, caseDeps);
  }

  lemma {:induction false} WordIsAll(s: string)
    requires forall i :: 0 <= i < |s| ==> !IsSpace(s[i])
    ensures Word(s) == s
  {
    if s != "" {
      WordIsAll(s[1..]);
    }
  }

  lemma OneField(s: string)
    requires s != "" && forall i :: 0 <= i < |s| ==> !IsSpace(s[i])
    ensures Fields(s) == [s]
  {
    WordIsAll(s);
    assert s[|s|..] == "";
  }

  /** It does happen: an XPath case in an XQuery set. */
  lemma OwnSpecIsShutOut(setSpec: Dependency, caseSpec: Dependency)
    requires setSpec == Dependency("spec", "XQ31", "") && caseSpec == Dependency("spec", "XP31", "")
    ensures IsXPathApplicable([caseSpec]) && IsXPathApplicable(MergeDeps([setSpec], [caseSpec]))
    ensures !IsXPathApplicable([setSpec])
  {
    hide Fields, IsSupportedFeature, MergeDeps;
    OneField("XQ31");
    OneField("XP31");
    PrefixByChars("XQ31", "XP");
    PrefixByChars("XP31", "XP");
    assert "XQ31"[1] != "XP"[1];
    assert "XP31" in Fields(caseSpec.value) && Accepts(caseSpec) && !Accepts(setSpec);
    assert setSpec in [setSpec] && caseSpec in [caseSpec];
    SetTestShutsOutExactly([setSpec], [caseSpec]);
  }

  predicate HasFeature(deps: seq<Dependency>, value: string) {
    exists d :: d in deps && d.kind == "feature" && d.satisfied != "false" && d.value == value
  }

  // ----- reasons to skip -----

  function FeatureSkip(value: string): string {
    match value
    case "moduleImport" => "requires XQuery module import"
    case "collection-stability" => "requires collection stability"
    case "directory-as-collection-uri" => "requires directory as collection URI"
    case "fn-load-xquery-module" => "requires XQuery load-xquery-module"
    case "remote_http" => "requires remote HTTP access"
    case "staticTyping" => STATIC_TYPING
    case _ => ""
  }

  function DependencySkip(w: World, d: Dependency): string {
    if d.satisfied == "false" then ""
    else if d.kind == "feature" then FeatureSkip(d.value)
    else if d.kind == "unicode-version" && d.value != w.unicodeVersion then "requires Unicode " + d.value
    else if d.kind == "xsd-version" && d.value == "1.0" then XSD_10
    else ""
  }

  function GetSkipReason(w: World, deps: seq<Dependency>): string {
    if deps == [] then ""
    else if DependencySkip(w, deps[0]) != "" then DependencySkip(w, deps[0])
    else GetSkipReason(w, deps[1..])
  }

  /** The dependency is not met, for this reason. */
  predicate Gives(w: World, d: Dependency, reason: string) {
    d.satisfied != "false" &&
    ((d.kind == "feature" &&
      ((d.value == "moduleImport" && reason == "requires XQuery module import")
       || (d.value == "collection-stability" && reason == "requires collection stability")
       || (d.value == "directory-as-collection-uri" && reason == "requires directory as collection URI")
       || (d.value == "fn-load-xquery-module" && reason == "requires XQuery load-xquery-module")
       || (d.value == "remote_http" && reason == "requires remote HTTP access")
       || (d.value == "staticTyping" && reason == "requires static typing")))
     || (d.kind == "unicode-version" && d.value != w.unicodeVersion && reason == "requires Unicode " + d.value)
     || (d.kind == "xsd-version" && d.value == "1.0" && reason == "requires XSD 1.0"))
  }

  lemma FeatureGives(value: string, reason: string)
    requires reason != ""
    ensures FeatureSkip(value) == reason <==>
            || (value == "moduleImport" && reason == "requires XQuery module import")
            || (value == "collection-stability" && reason == "requires collection stability")
            || (value == "directory-as-collection-uri" && reason == "requires directory as collection URI")
            || (value == "fn-load-xquery-module" && reason == "requires XQuery load-xquery-module")
            || (value == "remote_http" && reason == "requires remote HTTP access")
            || (value == "staticTyping" && reason == "requires static typing")
  {}

  lemma DependencyGives(w: World, d: Dependency, reason: string)
    requires reason != ""
    ensures DependencySkip(w, d) == reason <==> Gives(w, d, reason)
  {
    assert "requires Unicode " + d.value != "";
    if d.kind == "feature" {
      FeatureGives(d.value, reason);
    }
    hide FeatureSkip;
  }

  /** The reason is that of the first dependency not met, and there is none if all are. */
  lemma {:induction false} SkipReasonIsFirst(w: World, deps: seq<Dependency>) returns (k: nat)
    ensures k <= |deps| && forall j, reason :: 0 <= j < k && reason != "" ==> !Gives(w, deps[j], reason)
    ensures if k < |deps| then GetSkipReason(w, deps) != "" && Gives(w, deps[k], GetSkipReason(w, deps))
            else GetSkipReason(w, deps) == ""
  {
    hide DependencySkip, Gives;
    k := 0;
    if deps != [] {
      forall reason | reason != "" ensures DependencySkip(w, deps[0]) == reason <==> Gives(w, deps[0], reason) {
        DependencyGives(w, deps[0], reason);
      }
      if DependencySkip(w, deps[0]) == "" {
        k := SkipReasonIsFirst(w, deps[1..]);
        assert deps == [deps[0]] + deps[1..];
        k := k + 1;
      }
    }
  }

  /** The last environment of each name. */
  function ByName(environments: seq<Environment>): map<string, Environment> {
    if environments == [] then map[]
    else
      var e := environments[|environments| - 1];
      ByName(environments[..|environments| - 1])[e.name := e]
  }

  /** A name stands for the last environment that has it. */
  lemma {:induction false} ByNameIsLast(environments: seq<Environment>, name: string)
    ensures name in ByName(environments) <==> exists i :: 0 <= i < |environments| && environments[i].name == name
    ensures name in ByName(environments) ==>
              exists i :: 0 <= i < |environments| && environments[i] == ByName(environments)[name]
                && environments[i].name == name
                && forall j :: i < j < |environments| ==> environments[j].name != name
  {
    if environments != [] {
      var n := |environments| - 1;
      var front := environments[..n];
      ByNameIsLast(front, name);
      assert ByName(environments) == ByName(front)[environments[n].name := environments[n]];
      hide ByName;
      assert environments == front + [environments[n]];
      if environments[n].name != name && name in ByName(front) {
        var i :| 0 <= i < n && front[i] == ByName(front)[name]
          && front[i].name == name && forall j :: i < j < n ==> front[j].name != name;
        assert environments[i] == ByName(environments)[name];
      }
    }
  }

  function ResolveEnvironment(
      own: Option<Environment>, local: map<string, Environment>, global: map<string, Environment>): Option<Environment>
  {
    if own.None? then None
    else if own.value.ref == "" then own
    else if own.value.ref in local then Some(local[own.value.ref])
    else if own.value.ref in global then Some(global[own.value.ref])
    else None
  }

  function SourcesSkip(w: World, sources: seq<Source>): string {
    if sources == [] then ""
    else
      var role := sources[0].role;
      if role != "." && role != "" && !HasPrefix(role, "$") then "requires source role " + w.quote(role)
      else SourcesSkip(w, sources[1..])
  }

  /** A source in a role the harness cannot play. */
  predicate OddRole(s: Source) {
    s.role != "." && s.role != "" && s.role[0] != '$'
  }

  /** The environment is refused for its first source in an odd role. */
  lemma {:induction false} SourcesSkipIsFirst(w: World, sources: seq<Source>) returns (k: nat)
    ensures k <= |sources| && forall j :: 0 <= j < k ==> !OddRole(sources[j])
    ensures if k < |sources|
            then OddRole(sources[k]) && SourcesSkip(w, sources) == "requires source role " + w.quote(sources[k].role)
            else SourcesSkip(w, sources) == ""
  {
    k := 0;
    if sources != [] {
      PrefixByChars(sources[0].role, "$");
      hide HasPrefix;
      if !OddRole(sources[0]) {
        k := SourcesSkipIsFirst(w, sources[1..]);
        assert sources == [sources[0]] + sources[1..];
        k := k + 1;
      }
    }
  }

  predicate Binds(s: Schema) {
    s.file != "" || (s.role == "import" && s.uri == "http://www.w3.org/2005/xpath-functions")
  }

  predicate HasSchema(env: Option<Environment>) {
    env.Some? && exists s :: s in env.value.schemas && Binds(s)
  }

  function SchemaAwareSkip(env: Option<Environment>, hasSchema: bool): string {
    if !hasSchema && env.Some? && exists s :: s in env.value.sources && s.validation in ["strict", "lax"]
    then "requires XML Schema support" else ""
  }

  /** A case is skipped for want of a schema exactly if a source is to be validated and
      no schema is bound, from a file or as the well-known one. */
  lemma SchemaSkipExactly(env: Environment)
    ensures SchemaAwareSkip(Some(env), HasSchema(Some(env))) == (
              if (exists s :: s in env.sources && (s.validation == "strict" || s.validation == "lax"))
                 && forall s :: s in env.schemas ==>
                      s.file == "" && !(s.role == "import" && s.uri == "http://www.w3.org/2005/xpath-functions")
              then "requires XML Schema support" else "")
    ensures SchemaAwareSkip(None, HasSchema(None)) == ""
  {}

  // ----- assertion files -----

  /** The reason `resolveAssertionFiles` gives for one assertion, if any. */
  function OwnFileSkip(w: World, dir: string, a: Assertion): string {
    if a.kind.AssertXml? && a.file != "" && a.value == "" then
      var ref := w.join(dir, a.file);
      if !w.contained(ref) then "assert-xml @file path is unsafe: " + a.file
      else if !w.readable(ref) then "assert-xml @file not readable: " + a.file
      else ""
    else ""
  }

  /** The first reason met in the order of the walk. */
  function FileSkip(w: World, dir: string, assertions: seq<Assertion>): string {
    if assertions == [] then ""
    else if OwnFileSkip(w, dir, assertions[0]) != "" then OwnFileSkip(w, dir, assertions[0])
    else if FileSkip(w, dir, assertions[0].children) != "" then FileSkip(w, dir, assertions[0].children)
    else FileSkip(w, dir, assertions[1..])
  }

  predicate Resolved(w: World, dir: string, a: Assertion) {
    a.kind.AssertXml? && a.file != "" && a.value == "" ==>
      w.contained(w.join(dir, a.file)) && w.readable(w.join(dir, a.file))
  }

  /** Every expected fragment in the tree is a safe, readable file. */
  predicate AllResolved(w: World, dir: string, assertions: seq<Assertion>) {
    forall a :: a in assertions ==> Resolved(w, dir, a) && AllResolved(w, dir, a.children)
  }

  lemma {:induction false} NoFileSkipExactly(w: World, dir: string, assertions: seq<Assertion>)
    ensures FileSkip(w, dir, assertions) == "" <==> AllResolved(w, dir, assertions)
  {
    if assertions != [] {
      var a, rest := assertions[0], assertions[1..];
      assert assertions == [a] + rest;
      NoFileSkipExactly(w, dir, a.children);
      NoFileSkipExactly(w, dir, rest);
      assert AllResolved(w, dir, assertions) <==>
             Resolved(w, dir, a) && AllResolved(w, dir, a.children) && AllResolved(w, dir, rest);
    }
  }

  // ----- one case of the catalog -----

  /** A case together with what surrounds it. */
  datatype Located = Located(global: seq<Environment>, ref: TestSetRef, testSet: TestSet, testCase: TestCase)

  predicate Excluded(x: Located) {
    var merged := MergeDeps(x.testSet.dependencies, x.testCase.dependencies);
    || !IsXPathApplicable(x.testSet.dependencies)
    || !IsXPathApplicable(merged)
    || HasFeature(merged, "xpath-1.0-compatibility")
  }

  /** A case is excluded exactly if its set is not for XPath 3.1, or it is not with its
      own dependencies, or the set or the case asks for compatibility with XPath 1.0. */
  lemma ExcludedExactly(x: Located)
    ensures Excluded(x) <==>
            || !IsXPathApplicable(x.testSet.dependencies)
            || !IsXPathApplicable(MergeDeps(x.testSet.dependencies, x.testCase.dependencies))
            || exists d :: (d in x.testSet.dependencies || d in x.testCase.dependencies)
                 && d.kind == "feature" && d.value == "xpath-1.0-compatibility" && d.satisfied != "false"
  {
    hide IsXPathApplicable;
    forall d ensures d in WithoutSpecs(x.testSet.dependencies) <==> d in x.testSet.dependencies && d.kind != "spec" {
      WithoutSpecsKeeps(x.testSet.dependencies, d);
    }
  }

  /** `e` is the last of the environments with this name. */
  ghost predicate LastNamed(environments: seq<Environment>, name: string, e: Environment) {
    exists i :: 0 <= i < |environments| && environments[i] == e && e.name == name
      && forall j :: i < j < |environments| ==> environments[j].name != name
  }

  /** The environment of a case: its own, or the one it refers to, of its set rather than
      of the catalog. */
  lemma EnvironmentExactly(x: Located)
    ensures x.testCase.environment.None? ==> EnvironmentOf(x).None?
    ensures x.testCase.environment.Some? && x.testCase.environment.value.ref == "" ==>
              EnvironmentOf(x) == x.testCase.environment
    ensures x.testCase.environment.Some? && x.testCase.environment.value.ref != "" ==>
              var ref := x.testCase.environment.value.ref;
              var local := exists i :: 0 <= i < |x.testSet.environments| && x.testSet.environments[i].name == ref;
              var global := exists i :: 0 <= i < |x.global| && x.global[i].name == ref;
              && (EnvironmentOf(x).Some? <==> local || global)
              && (local ==> LastNamed(x.testSet.environments, ref, EnvironmentOf(x).value))
              && (!local && global ==> LastNamed(x.global, ref, EnvironmentOf(x).value))
  {
    if x.testCase.environment.Some? {
      ByNameIsLast(x.testSet.environments, x.testCase.environment.value.ref);
      ByNameIsLast(x.global, x.testCase.environment.value.ref);
      hide ByName;
    }
  }

  function EnvironmentOf(x: Located): Option<Environment> {
    ResolveEnvironment(x.testCase.environment, ByName(x.testSet.environments), ByName(x.global))
  }

  /** Every reason the catalog gives against running a case, in the order of precedence. */
  function Reasons(w: World, x: Located): seq<string> {
    var env := EnvironmentOf(x);
    [ GetSkipReason(w, MergeDeps(x.testSet.dependencies, x.testCase.dependencies)),
      w.caseSkip(x.testCase.name),
      w.setSkip(x.ref.name),
      if env.Some? then SourcesSkip(w, env.value.sources) else "",
      SchemaAwareSkip(env, HasSchema(env)) ]
  }

  function First(reasons: seq<string>): string {
    if reasons == [] then "" else if reasons[0] != "" then reasons[0] else First(reasons[1..])
  }

  /** The requirement is known not to matter for this case. */
  predicate Waived(w: World, reason: string, name: string) {
    (reason == STATIC_TYPING && w.raisesDynamically(name)) || (reason == XSD_10 && w.versionNeutral(name))
  }

  function PlanSkip(w: World, x: Located): string {
    var reason := First(Reasons(w, x));
    if Waived(w, reason, x.testCase.name) then "" else reason
  }

  function GenSkip(w: World, x: Located): string {
    if PlanSkip(w, x) != "" then PlanSkip(w, x)
    else FileSkip(w, w.dir(x.ref.file), x.testCase.assertions)
  }

  lemma WaivedExactly(w: World, reason: string, name: string)
    ensures Waived(w, reason, name) <==>
            || (reason == "requires static typing" && w.raisesDynamically(name))
            || (reason == "requires XSD 1.0" && w.versionNeutral(name))
  {}

  /** What speaks first: the dependencies, then the case by its name, then the set, then
      the environment, then the want of a schema. */
  lemma Precedence(w: World, x: Located)
    ensures var env := EnvironmentOf(x);
            var fromDependencies := GetSkipReason(w, MergeDeps(x.testSet.dependencies, x.testCase.dependencies));
            var fromSources := if env.Some? then SourcesSkip(w, env.value.sources) else "";
            First(Reasons(w, x)) ==
              if fromDependencies != "" then fromDependencies
              else if w.caseSkip(x.testCase.name) != "" then w.caseSkip(x.testCase.name)
              else if w.setSkip(x.ref.name) != "" then w.setSkip(x.ref.name)
              else if fromSources != "" then fromSources
              else SchemaAwareSkip(env, HasSchema(env))
  {
    hide First;
    ReasonsInOrder(w, x);
  }

  /** A requirement that is not met and does matter for the case. */
  predicate Standing(w: World, x: Located, k: int) {
    0 <= k < |Reasons(w, x)| && Reasons(w, x)[k] != "" && !Waived(w, Reasons(w, x)[k], x.testCase.name)
  }

  /** The first unmet requirement does not matter, a later one does. */
  ghost predicate HiddenByWaiver(w: World, x: Located) {
    exists i, k :: 0 <= i < k && Standing(w, x, k) && Reasons(w, x)[i] != "" && !Standing(w, x, i)
      && forall j :: 0 <= j < i ==> Reasons(w, x)[j] == ""
  }

  lemma {:induction false} FirstIsEarliest(reasons: seq<string>) returns (i: nat)
    ensures i <= |reasons| && forall j :: 0 <= j < i ==> reasons[j] == ""
    ensures First(reasons) == if i < |reasons| then reasons[i] else ""
    ensures i < |reasons| ==> reasons[i] != ""
  {
    if reasons == [] || reasons[0] != "" {
      return 0;
    }
    i := FirstIsEarliest(reasons[1..]);
    i := i + 1;
  }

  /** A case ought to run exactly if no unmet requirement matters for it. One that ought
      to run does; and the others are skipped, with the first unmet requirement as the
      reason, except exactly those in which a waived requirement stands in front: they
      run although a requirement that matters is not met. */
  lemma SkippedUnlessHidden(w: World, x: Located)
    ensures (forall k :: !Standing(w, x, k)) ==> PlanSkip(w, x) == ""
    ensures ((forall k :: !Standing(w, x, k)) <==> PlanSkip(w, x) == "") <==> !HiddenByWaiver(w, x)
    ensures PlanSkip(w, x) != "" ==>
              exists k :: Standing(w, x, k) && Reasons(w, x)[k] == PlanSkip(w, x)
                && forall j :: 0 <= j < k ==> Reasons(w, x)[j] == ""
  {
    hide Reasons, First, Waived;
    var i := FirstIsEarliest(Reasons(w, x));
    assert i < |Reasons(w, x)| ==> (Standing(w, x, i) <==> PlanSkip(w, x) != "");
  }

  // ----- the catalog case by case -----

  function Locate(global: seq<Environment>, ref: TestSetRef, testSet: TestSet): seq<Located> {
    seq(|testSet.cases|, i requires 0 <= i < |testSet.cases| => Located(global, ref, testSet, testSet.cases[i]))
  }

  /** All cases of the safely named test sets, in catalog order; None if one of those
      sets cannot be read. */
  function Cases(w: World, global: seq<Environment>, refs: seq<TestSetRef>): Option<seq<Located>> {
    if refs == [] then Some([])
    else
      var front, ref := Cases(w, global, refs[..|refs| - 1]), refs[|refs| - 1];
      if front.None? then None
      else if !w.contained(ref.file) then front
      else if ref.file !in w.testSets then None
      else Some(front.value + Locate(global, ref, w.testSets[ref.file]))
  }

  /** The `j`-th case of the `i`-th set, which is safely named and can be read. */
  predicate IsCase(w: World, global: seq<Environment>, refs: seq<TestSetRef>, i: int, j: int, x: Located) {
    && 0 <= i < |refs| && w.contained(refs[i].file) && refs[i].file in w.testSets
    && var ts := w.testSets[refs[i].file];
       0 <= j < |ts.cases| && x == Located(global, refs[i], ts, ts.cases[j])
  }

  /** The catalog fails exactly if a safely named set cannot be read; otherwise its cases
      are those of the safely named sets. */
  lemma {:induction false} CasesExactly(w: World, global: seq<Environment>, refs: seq<TestSetRef>, x: Located)
    ensures Cases(w, global, refs).None? <==>
            exists i :: 0 <= i < |refs| && w.contained(refs[i].file) && refs[i].file !in w.testSets
    ensures Cases(w, global, refs).Some? ==>
              (x in Cases(w, global, refs).value <==> exists i, j :: IsCase(w, global, refs, i, j, x))
  {
    if refs != [] {
      var n := |refs| - 1;
      var front := refs[..n];
      CasesExactly(w, global, front, x);
      CasesNext(w, global, refs, n);
      assert refs[..n + 1] == refs && forall i :: 0 <= i < n ==> front[i] == refs[i];
      hide Cases;
      forall i, j | 0 <= i < n ensures IsCase(w, global, refs, i, j, x) <==> IsCase(w, global, front, i, j, x) {}
      forall i, j | IsCase(w, global, front, i, j, x) ensures i < n {}
      if w.contained(refs[n].file) && refs[n].file in w.testSets {
        InLocated(w, global, refs, n, x);
      }
      hide IsCase;
      IsCaseInside(w, global, refs, x);
    }
  }

  lemma IsCaseInside(w: World, global: seq<Environment>, refs: seq<TestSetRef>, x: Located)
    ensures forall i, j :: IsCase(w, global, refs, i, j, x) ==>
              0 <= i < |refs| && w.contained(refs[i].file) && refs[i].file in w.testSets
  {}

  lemma InLocated(w: World, global: seq<Environment>, refs: seq<TestSetRef>, n: nat, x: Located)
    requires n < |refs| && w.contained(refs[n].file) && refs[n].file in w.testSets
    ensures x in Locate(global, refs[n], w.testSets[refs[n].file]) <==> exists j :: IsCase(w, global, refs, n, j, x)
  {
    var ts := w.testSets[refs[n].file];
    var located := Locate(global, refs[n], ts);
    if x in located {
      var j :| 0 <= j < |located| && located[j] == x;
      assert IsCase(w, global, refs, n, j, x);
    }
    if j :| IsCase(w, global, refs, n, j, x) {
      assert located[j] == x;
    }
  }

  datatype Verdict = ExcludedCase | SkippedCase | RunnableCase

  function VerdictOf(w: World, x: Located): Verdict {
    if Excluded(x) then ExcludedCase else if PlanSkip(w, x) != "" then SkippedCase else RunnableCase
  }

  function Count(w: World, xs: seq<Located>, v: Verdict): nat {
    if xs == [] then 0
    else Count(w, xs[..|xs| - 1], v) + if VerdictOf(w, xs[|xs| - 1]) == v then 1 else 0
  }

  lemma RoleIsUnsupported(w: World, source: Source)
    requires source == Source("schema", "")
    ensures SourcesSkip(w, [source]) == "requires source role " + w.quote("schema")
  {
    PrefixByChars("schema", "$");
    assert "schema"[0] != "$"[0];
  }

  lemma StaticTypingComesFirst(w: World, d: Dependency)
    requires d == Dependency("feature", "staticTyping", "")
    ensures GetSkipReason(w, [d]) == STATIC_TYPING
    ensures IsXPathApplicable([]) && IsXPathApplicable([d]) && !HasFeature([d], "xpath-1.0-compatibility")
    ensures MergeDeps([], [d]) == [d]
  {
    assert [] + [d] == [d];
  }

  /** It does happen: static typing is waived and the environment is not supported. */
  lemma WaiverHidesEnvironment(w: World, global: seq<Environment>, ref: TestSetRef, name: string)
    requires w.raisesDynamically(name)
    ensures var env := Environment("", "", [Source("schema", "")], []);
            var tc := TestCase(name, Some(env), [Dependency("feature", "staticTyping", "")], []);
            var x := Located(global, ref, TestSet([], [], [tc]), tc);
            VerdictOf(w, x) == RunnableCase && Standing(w, x, 3) && HiddenByWaiver(w, x)
  {
    hide SourcesSkip, GetSkipReason, IsXPathApplicable, HasFeature, MergeDeps, ByName, SchemaAwareSkip, HiddenByWaiver;
    var env := Environment("", "", [Source("schema", "")], []);
    var deps := [Dependency("feature", "staticTyping", "")];
    var tc := TestCase(name, Some(env), deps, []);
    var x := Located(global, ref, TestSet([], [], [tc]), tc);
    StaticTypingComesFirst(w, deps[0]);
    RoleIsUnsupported(w, env.sources[0]);
    assert First(Reasons(w, x)) == STATIC_TYPING;
    var reason := Reasons(w, x)[3];
    assert reason == "requires source role " + w.quote("schema");
    assert reason[10] != STATIC_TYPING[10] && reason[9] != XSD_10[9];
    OneHidesAnother(w, x, 3);
  }

  lemma OneHidesAnother(w: World, x: Located, k: int)
    requires k > 0 && Reasons(w, x)[0] != "" && !Standing(w, x, 0) && Standing(w, x, k)
    ensures HiddenByWaiver(w, x)
  {
    hide Reasons, Waived;
  }

  datatype Info = Info(testSets: nat, total: nat, runnable: nat, skipped: nat, excluded: nat)

  /** The counters are those of the cases `xs`. */
  predicate Counts(w: World, xs: seq<Located>, info: Info) {
    && info.total == |xs|
    && info.runnable == Count(w, xs, RunnableCase)
    && info.skipped == Count(w, xs, SkippedCase)
    && info.excluded == Count(w, xs, ExcludedCase)
  }

  datatype Generated = Generated(setName: string, caseName: string, skipReason: string)

  function Emit(w: World, x: Located): Generated {
    Generated(x.ref.name, x.testCase.name, GenSkip(w, x))
  }

  function Emitted(w: World, xs: seq<Located>): seq<Generated> {
    if xs == [] then []
    else
      var x := xs[|xs| - 1];
      Emitted(w, xs[..|xs| - 1]) + if Excluded(x) then [] else [Emit(w, x)]
  }

  lemma CountNext(w: World, xs: seq<Located>, x: Located, v: Verdict)
    ensures Count(w, xs + [x], v) == Count(w, xs, v) + if VerdictOf(w, x) == v then 1 else 0
  {
    assert (xs + [x])[..|xs|] == xs;
  }

  lemma EmittedNext(w: World, xs: seq<Located>, x: Located)
    ensures Emitted(w, xs + [x]) == if Excluded(x) then Emitted(w, xs) else Emitted(w, xs) + [Emit(w, x)]
  {
    assert (xs + [x])[..|xs|] == xs;
  }

  /** The cases are emitted in the order of the catalog. */
  lemma {:induction false} EmittedInOrder(w: World, a: seq<Located>, b: seq<Located>)
    ensures Emitted(w, a + b) == Emitted(w, a) + Emitted(w, b)
  {
    hide Excluded, Emit, Emitted;
    if b == [] {
      NothingToEmit(w);
      assert a + b == a && Emitted(w, a) + [] == Emitted(w, a);
    } else {
      var front, x := b[..|b| - 1], b[|b| - 1];
      assert front + [x] == b && (a + front) + [x] == a + b;
      EmittedInOrder(w, a, front);
      EmittedNext(w, a + front, x);
      EmittedNext(w, front, x);
      assert (Emitted(w, a) + Emitted(w, front)) + [Emit(w, x)] == Emitted(w, a) + (Emitted(w, front) + [Emit(w, x)]);
    }
  }

  lemma NothingToEmit(w: World)
    ensures Emitted(w, []) == []
  {}

  lemma CountsNext(w: World, xs: seq<Located>, x: Located, info: Info)
    requires Counts(w, xs, info)
    ensures var next := info.(total := info.total + 1);
            Counts(w, xs + [x],
              match VerdictOf(w, x)
              case ExcludedCase => next.(excluded := info.excluded + 1)
              case SkippedCase => next.(skipped := info.skipped + 1)
              case RunnableCase => next.(runnable := info.runnable + 1))
  {
    hide Count, VerdictOf;
    CountNext(w, xs, x, ExcludedCase);
    CountNext(w, xs, x, SkippedCase);
    CountNext(w, xs, x, RunnableCase);
  }

  // ----- the two passes -----

  method EnvironmentsByName(environments: seq<Environment>) returns (m: map<string, Environment>)
    ensures m == ByName(environments)
  {
    m := map[];
    for i := 0 to |environments|
      invariant m == ByName(environments[..i])
    {
      assert environments[..i + 1][..i] == environments[..i];
      m := m[environments[i].name := environments[i]];
    }
    assert environments[..|environments|] == environments;
  }

  lemma FirstOfFive(a: string, b: string, c: string, d: string, e: string)
    ensures First([a, b, c, d, e]) ==
            if a != "" then a else if b != "" then b else if c != "" then c else if d != "" then d else e
  {
    FirstNext(e, []);
    FirstNext(d, [e]);
    FirstNext(c, [d, e]);
    FirstNext(b, [c, d, e]);
    FirstNext(a, [b, c, d, e]);
    assert [a] + [b, c, d, e] == [a, b, c, d, e];
    assert [b] + [c, d, e] == [b, c, d, e];
    assert [c] + [d, e] == [c, d, e];
    assert [d] + [e] == [d, e];
    assert [e] + [] == [e];
  }

  lemma FirstNext(reason: string, rest: seq<string>)
    ensures First([reason] + rest) == if reason != "" then reason else First(rest)
  {
    assert ([reason] + rest)[1..] == rest;
  }

  lemma CasesNext(w: World, global: seq<Environment>, refs: seq<TestSetRef>, k: nat)
    requires k < |refs|
    ensures Cases(w, global, refs[..k + 1]) ==
            var front, ref := Cases(w, global, refs[..k]), refs[k];
            if front.None? then None
            else if !w.contained(ref.file) then front
            else if ref.file !in w.testSets then None
            else Some(front.value + Locate(global, ref, w.testSets[ref.file]))
  {
    assert refs[..k + 1][..k] == refs[..k];
  }

  /** A set that cannot be read makes the whole catalog unreadable. */
  lemma {:induction false} CasesFail(w: World, global: seq<Environment>, refs: seq<TestSetRef>, k: nat)
    requires k <= |refs| && Cases(w, global, refs[..k]).None?
    ensures Cases(w, global, refs).None?
    decreases |refs| - k
  {
    if k == |refs| {
      assert refs[..k] == refs;
    } else {
      CasesNext(w, global, refs, k);
      CasesFail(w, global, refs, k + 1);
    }
  }

  /** The cases of earlier sets, then the first `k` of this one. */
  function Upto(xs: seq<Located>, global: seq<Environment>, ref: TestSetRef, testSet: TestSet, k: nat): seq<Located>
    requires k <= |testSet.cases|
  {
    xs + Locate(global, ref, testSet)[..k]
  }

  lemma LocateNext(xs: seq<Located>, global: seq<Environment>, ref: TestSetRef, testSet: TestSet, k: nat)
    requires k < |testSet.cases|
    ensures Upto(xs, global, ref, testSet, k + 1) ==
            Upto(xs, global, ref, testSet, k) + [Located(global, ref, testSet, testSet.cases[k])]
  {}

  /** All cases of a set that is not for XPath are excluded at once. */
  lemma {:induction false} WholeSetExcluded(
      w: World, xs: seq<Located>, global: seq<Environment>, ref: TestSetRef, testSet: TestSet, k: nat, info: Info)
    requires !IsXPathApplicable(testSet.dependencies) && k <= |testSet.cases| && Counts(w, xs, info)
    ensures Counts(w, Upto(xs, global, ref, testSet, k), info.(total := info.total + k, excluded := info.excluded + k))
  {
    hide Counts, IsXPathApplicable, HasFeature, MergeDeps, Upto;
    if k == 0 {
      LocateAll(xs, global, ref, testSet);
    } else {
      var x := Located(global, ref, testSet, testSet.cases[k - 1]);
      WholeSetExcluded(w, xs, global, ref, testSet, k - 1, info);
      LocateNext(xs, global, ref, testSet, k - 1);
      var before := Upto(xs, global, ref, testSet, k - 1);
      CountsNext(w, before, x, info.(total := info.total + (k - 1), excluded := info.excluded + (k - 1)));
    }
  }

  lemma {:induction false} WholeSetUnemitted(
      w: World, xs: seq<Located>, global: seq<Environment>, ref: TestSetRef, testSet: TestSet, k: nat)
    requires !IsXPathApplicable(testSet.dependencies) && k <= |testSet.cases|
    ensures Emitted(w, Upto(xs, global, ref, testSet, k)) == Emitted(w, xs)
  {
    hide Emitted, IsXPathApplicable, HasFeature, MergeDeps, Upto;
    if k == 0 {
      LocateAll(xs, global, ref, testSet);
    } else {
      WholeSetUnemitted(w, xs, global, ref, testSet, k - 1);
      LocateNext(xs, global, ref, testSet, k - 1);
      EmittedNext(w, Upto(xs, global, ref, testSet, k - 1), Located(global, ref, testSet, testSet.cases[k - 1]));
    }
  }

  method ReadCatalogPlan(w: World, cat: Catalog) returns (r: Option<Info>)
    ensures r.Some? <==> Cases(w, cat.environments, cat.testSets).Some?
    ensures r.Some? ==> r.value.testSets == |cat.testSets|
    ensures r.Some? ==> Counts(w, Cases(w, cat.environments, cat.testSets).value, r.value)
  {
    hide Counts, Cases, Locate, ByName, IsXPathApplicable, HasFeature, MergeDeps, GetSkipReason,
      ResolveEnvironment, SourcesSkip, SchemaAwareSkip, HasSchema, First;
    var globalEnvs := EnvironmentsByName(cat.environments);
    var info := Info(|cat.testSets|, 0, 0, 0, 0);
    ghost var xs: seq<Located> := [];
    NothingCounted(w, cat, info);
    for k := 0 to |cat.testSets|
      invariant Cases(w, cat.environments, cat.testSets[..k]) == Some(xs)
      invariant Counts(w, xs, info) && info.testSets == |cat.testSets|
    {
      var ref := cat.testSets[k];
      CasesNext(w, cat.environments, cat.testSets, k);
      if !w.contained(ref.file) {
        continue;
      }
      if ref.file !in w.testSets {
        CasesFail(w, cat.environments, cat.testSets, k + 1);
        return None;
      }
      var ts := w.testSets[ref.file];
      ghost var located := Locate(cat.environments, ref, ts);
      info := PlanSet(w, cat.environments, globalEnvs, ref, ts, xs, info);
      xs := xs + located;
    }
    assert cat.testSets[..|cat.testSets|] == cat.testSets;
    return Some(info);
  }

  lemma NothingCounted(w: World, cat: Catalog, info: Info)
    requires info == Info(|cat.testSets|, 0, 0, 0, 0)
    ensures Cases(w, cat.environments, cat.testSets[..0]) == Some([])
    ensures Counts(w, [], info)
  {}

  lemma LocateAll(xs: seq<Located>, global: seq<Environment>, ref: TestSetRef, ts: TestSet)
    ensures Upto(xs, global, ref, ts, 0) == xs
    ensures Upto(xs, global, ref, ts, |ts.cases|) == xs + Locate(global, ref, ts)
  {
    assert Locate(global, ref, ts)[..|ts.cases|] == Locate(global, ref, ts);
    assert xs + Locate(global, ref, ts)[..0] == xs;
  }

  /** One turn of the outer counting loop; `xs` are the cases of the earlier sets. */
  method PlanSet(
      w: World, ghost global: seq<Environment>, globalEnvs: map<string, Environment>, ref: TestSetRef, ts: TestSet,
      ghost xs: seq<Located>, before: Info)
    returns (info: Info)
    requires globalEnvs == ByName(global) && Counts(w, xs, before)
    ensures info.testSets == before.testSets && Counts(w, xs + Locate(global, ref, ts), info)
  {
    hide Counts, Upto, ByName, IsXPathApplicable, HasFeature, MergeDeps, GetSkipReason,
      ResolveEnvironment, SourcesSkip, SchemaAwareSkip, HasSchema, First;
    info := before;
    info := info.(total := info.total + |ts.cases|);
    var localEnvs := EnvironmentsByName(ts.environments);
    LocateAll(xs, global, ref, ts);
    if !IsXPathApplicable(ts.dependencies) {
      WholeSetExcluded(w, xs, global, ref, ts, |ts.cases|, before);
      info := info.(excluded := info.excluded + |ts.cases|);
      return;
    }
    var setSkipReason := w.setSkip(ref.name);
    for i := 0 to |ts.cases|
      invariant info.testSets == before.testSets && info.total == before.total + |ts.cases|
      invariant Counts(w, Upto(xs, global, ref, ts, i), info.(total := before.total + i))
    {
      var tc := ts.cases[i];
      ghost var x := Located(global, ref, ts, tc);
      LocateNext(xs, global, ref, ts, i);
      CountsNext(w, Upto(xs, global, ref, ts, i), x, info.(total := before.total + i));
      var mergedDeps := MergeDeps(ts.dependencies, tc.dependencies);
      if !IsXPathApplicable(mergedDeps) || HasFeature(mergedDeps, "xpath-1.0-compatibility") {
        info := info.(excluded := info.excluded + 1);
        continue;
      }
      var env := ResolveEnvironment(tc.environment, localEnvs, globalEnvs);
      var skipReason := GetSkipReason(w, mergedDeps);
      ReasonsInOrder(w, x);
      if skipReason == "" {
        skipReason := w.caseSkip(tc.name);
      }
      if skipReason == "" {
        skipReason := setSkipReason;
      }
      if env.Some? {
        var envSkip := SourcesSkip(w, env.value.sources);
        if skipReason == "" && envSkip != "" {
          skipReason := envSkip;
        }
      }
      if skipReason == "" {
        skipReason := SchemaAwareSkip(env, HasSchema(env));
      }
      if skipReason == STATIC_TYPING && w.raisesDynamically(tc.name) {
        skipReason := "";
      }
      if skipReason == XSD_10 && w.versionNeutral(tc.name) {
        skipReason := "";
      }
      assert skipReason == PlanSkip(w, x);
      if skipReason != "" {
        info := info.(skipped := info.skipped + 1);
        continue;
      }
      info := info.(runnable := info.runnable + 1);
    }
  }

  lemma ReasonsInOrder(w: World, x: Located)
    ensures var rs := Reasons(w, x);
            First(rs) == if rs[0] != "" then rs[0] else if rs[1] != "" then rs[1]
                         else if rs[2] != "" then rs[2] else if rs[3] != "" then rs[3] else rs[4]
  {
    hide First;
    var rs := Reasons(w, x);
    FirstOfFive(rs[0], rs[1], rs[2], rs[3], rs[4]);
    assert rs == [rs[0], rs[1], rs[2], rs[3], rs[4]];
  }

  method CollectTests(w: World, cat: Catalog) returns (r: Option<seq<Generated>>)
    ensures r.Some? <==> Cases(w, cat.environments, cat.testSets).Some?
    ensures r.Some? ==> r.value == Emitted(w, Cases(w, cat.environments, cat.testSets).value)
  {
    hide Emitted, Cases, Locate, ByName;
    var globalEnvs := EnvironmentsByName(cat.environments);
    var allTests: seq<Generated> := [];
    ghost var xs: seq<Located> := [];
    NothingEmitted(w, cat);
    for k := 0 to |cat.testSets|
      invariant Cases(w, cat.environments, cat.testSets[..k]) == Some(xs)
      invariant allTests == Emitted(w, xs)
    {
      var ref := cat.testSets[k];
      CasesNext(w, cat.environments, cat.testSets, k);
      if !w.contained(ref.file) {
        continue;
      }
      if ref.file !in w.testSets {
        CasesFail(w, cat.environments, cat.testSets, k + 1);
        return None;
      }
      var ts := w.testSets[ref.file];
      ghost var located := Locate(cat.environments, ref, ts);
      allTests := CollectSet(w, cat.environments, globalEnvs, ref, ts, xs, allTests);
      xs := xs + located;
    }
    assert cat.testSets[..|cat.testSets|] == cat.testSets;
    return Some(allTests);
  }

  lemma NothingEmitted(w: World, cat: Catalog)
    ensures Cases(w, cat.environments, cat.testSets[..0]) == Some([])
    ensures Emitted(w, []) == []
  {}

  /** One turn of the outer emitting loop; `xs` are the cases of the earlier sets. */
  method CollectSet(
      w: World, ghost global: seq<Environment>, globalEnvs: map<string, Environment>, ref: TestSetRef, ts: TestSet,
      ghost xs: seq<Located>, before: seq<Generated>)
    returns (allTests: seq<Generated>)
    requires globalEnvs == ByName(global) && before == Emitted(w, xs)
    ensures allTests == Emitted(w, xs + Locate(global, ref, ts))
  {
    hide Emitted, Upto, ByName, IsXPathApplicable, HasFeature, MergeDeps, GetSkipReason,
      ResolveEnvironment, SourcesSkip, SchemaAwareSkip, HasSchema, First, FileSkip;
    allTests := before;
    var localEnvs := EnvironmentsByName(ts.environments);
    LocateAll(xs, global, ref, ts);
    if !IsXPathApplicable(ts.dependencies) {
      WholeSetUnemitted(w, xs, global, ref, ts, |ts.cases|);
      return;
    }
    var setSkipReason := w.setSkip(ref.name);
    for i := 0 to |ts.cases|
      invariant allTests == Emitted(w, Upto(xs, global, ref, ts, i))
    {
      var tc := ts.cases[i];
      ghost var x := Located(global, ref, ts, tc);
      LocateNext(xs, global, ref, ts, i);
      EmittedNext(w, Upto(xs, global, ref, ts, i), x);
      var mergedDeps := MergeDeps(ts.dependencies, tc.dependencies);
      if !IsXPathApplicable(mergedDeps) {
        continue;
      }
      if HasFeature(mergedDeps, "xpath-1.0-compatibility") {
        continue;
      }
      var skipReason := GetSkipReason(w, mergedDeps);
      ReasonsInOrder(w, x);
      if skipReason == "" {
        skipReason := w.caseSkip(tc.name);
      }
      if skipReason == "" {
        skipReason := setSkipReason;
      }
      var env := ResolveEnvironment(tc.environment, localEnvs, globalEnvs);
      if env.Some? {
        var envSkip := SourcesSkip(w, env.value.sources);
        if envSkip != "" {
          if skipReason == "" {
            skipReason := envSkip;
          }
        }
      }
      if skipReason == "" {
        skipReason := SchemaAwareSkip(env, HasSchema(env));
      }
      if skipReason == STATIC_TYPING && w.raisesDynamically(tc.name) {
        skipReason := "";
      }
      if skipReason == XSD_10 && w.versionNeutral(tc.name) {
        skipReason := "";
      }
      assert skipReason == PlanSkip(w, x);
      var fileSkip := FileSkip(w, w.dir(ref.file), tc.assertions);
      if fileSkip != "" && skipReason == "" {
        skipReason := fileSkip;
      }
      allTests := allTests + [Generated(ref.name, tc.name, skipReason)];
    }
  }

  // ----- the passes agree -----

  predicate IsSkipped(t: Generated) {
    t.skipReason != ""
  }

  function CountSkipped(tests: seq<Generated>): nat {
    if tests == [] then 0
    else CountSkipped(tests[..|tests| - 1]) + if IsSkipped(tests[|tests| - 1]) then 1 else 0
  }

  /** The plan would run the case, its expected fragments are not all there. */
  predicate LacksFile(w: World, x: Located) {
    VerdictOf(w, x) == RunnableCase && !AllResolved(w, w.dir(x.ref.file), x.testCase.assertions)
  }

  function CountLacking(w: World, xs: seq<Located>): nat {
    if xs == [] then 0
    else CountLacking(w, xs[..|xs| - 1]) + if LacksFile(w, xs[|xs| - 1]) then 1 else 0
  }

  lemma {:induction false} PassesTally(w: World, xs: seq<Located>)
    ensures |xs| == Count(w, xs, RunnableCase) + Count(w, xs, SkippedCase) + Count(w, xs, ExcludedCase)
    ensures |Emitted(w, xs)| == Count(w, xs, RunnableCase) + Count(w, xs, SkippedCase)
    ensures CountSkipped(Emitted(w, xs)) == Count(w, xs, SkippedCase) + CountLacking(w, xs)
  {
    if xs != [] {
      var k := |xs| - 1;
      var front, x := xs[..k], xs[k];
      PassesTally(w, front);
      SkipsOfOne(w, x);
      var out := Emitted(w, front);
      assert (out + [Emit(w, x)])[..|out|] == out;
      assert out + [] == out;
    }
  }

  lemma SkipsOfOne(w: World, x: Located)
    ensures !Excluded(x) ==>
              (IsSkipped(Emit(w, x)) <==> VerdictOf(w, x) == SkippedCase || LacksFile(w, x))
    ensures LacksFile(w, x) ==> VerdictOf(w, x) == RunnableCase
  {
    hide Excluded, PlanSkip, FileSkip, AllResolved;
    NoFileSkipExactly(w, w.dir(x.ref.file), x.testCase.assertions);
  }

  lemma {:induction false} NoneLackExactly(w: World, xs: seq<Located>)
    ensures CountLacking(w, xs) == 0 <==> forall x :: x in xs ==> !LacksFile(w, x)
  {
    hide LacksFile;
    if xs != [] {
      var front, x := xs[..|xs| - 1], xs[|xs| - 1];
      NoneLackExactly(w, front);
      assert xs == front + [x];
    }
  }

  /** Every case is counted once; what the plan calls runnable or skipped is what the
      generator emits; and the generator skips exactly as many cases as the plan when
      no otherwise runnable case lacks an expected fragment, and more if one does. */
  lemma PlanMatchesEmission(w: World, xs: seq<Located>, info: Info, tests: seq<Generated>)
    requires Counts(w, xs, info) && tests == Emitted(w, xs)
    ensures info.total == info.runnable + info.skipped + info.excluded
    ensures |tests| == info.runnable + info.skipped
    ensures CountSkipped(tests) >= info.skipped
    ensures CountSkipped(tests) == info.skipped <==> forall x :: x in xs ==> !LacksFile(w, x)
  {
    hide LacksFile, VerdictOf, Excluded, Count, Emitted, CountSkipped, CountLacking;
    PassesTally(w, xs);
    NoneLackExactly(w, xs);
  }

  /** Case by case: what the plan skips is emitted, with the plan's own reason. */
  lemma {:induction false} PlanSkippedIsEmitted(w: World, xs: seq<Located>, x: Located)
    requires x in xs
    ensures VerdictOf(w, x) == SkippedCase ==>
              PlanSkip(w, x) != "" && Generated(x.ref.name, x.testCase.name, PlanSkip(w, x)) in Emitted(w, xs)
    ensures VerdictOf(w, x) == RunnableCase ==>
              exists reason :: Generated(x.ref.name, x.testCase.name, reason) in Emitted(w, xs)
                && (reason == "" <==> AllResolved(w, w.dir(x.ref.file), x.testCase.assertions))
  {
    hide Excluded, PlanSkip, FileSkip, AllResolved;
    var front, last := xs[..|xs| - 1], xs[|xs| - 1];
    assert xs == front + [last];
    EmittedNext(w, front, last);
    if x == last {
      NoFileSkipExactly(w, w.dir(x.ref.file), x.testCase.assertions);
      assert !Excluded(x) ==> Emit(w, x) in Emitted(w, xs);
    } else {
      PlanSkippedIsEmitted(w, front, x);
    }
  }
}
