/** The XSLT assertion compiler: nested all-of nodes are flattened into one list of
    check expressions, and unsupported assertions become skip calls that are dropped
    wherever a real check stands beside them. */
module XsltAssertions {

  datatype Kind =
    | AssertXml | AssertStringValue | Assert | AssertSerialization | SerializationMatches
    | AssertType | AssertCount | AssertDeepEq | AssertEmpty | AssertEq
    | Error | AllOf | AnyOf | AssertMessage | AssertResultDocument | Not
    | PostureAndSweep | Unknown(name: string)

  datatype Assertion = Assertion(kind: Kind, text: string, children: seq<Assertion>)

  /** An emitted expression: the skip call, or a call of another helper, identified by
      the assertion it is made for and the children it checks. */
  datatype Expr = SkipCall | Call(kind: Kind, text: string, checked: seq<Assertion>)

  predicate Elementary(k: Kind) {
    k in {AssertXml, AssertStringValue, Assert, AssertSerialization, SerializationMatches,
          AssertType, AssertCount, AssertDeepEq, AssertEmpty, AssertEq}
  }

  // ----- the compiler -----

  predicate HasReal(out: seq<Expr>) {
    exists e :: e in out && !e.SkipCall?
  }

  function Real(out: seq<Expr>): seq<Expr> {
    if out == [] then []
    else (if out[0].SkipCall? then [] else [out[0]]) + Real(out[1..])
  }

  /** Skip calls go when a real check is present. */
  function Filter(out: seq<Expr>): seq<Expr> {
    if HasReal(out) then Real(out) else out
  }

  function NonErrors(children: seq<Assertion>): seq<Assertion> {
    if children == [] then []
    else (if children[0].kind.Error? then [] else [children[0]]) + NonErrors(children[1..])
  }

  function EmitAssertion(a: Assertion): seq<Expr>
    decreases a
  {
    if Elementary(a.kind) then [Call(a.kind, a.text, [])]
    else match a.kind
      case Error => []
      case AllOf => EmitAssertions(a.children)
      case AnyOf => if NonErrors(a.children) == [] then [] else [Call(AnyOf, "", NonErrors(a.children))]
      case AssertMessage => if a.children == [] then [] else [Call(AssertMessage, "", a.children)]
      case AssertResultDocument =>
        if a.children == [] then [SkipCall] else [Call(AssertResultDocument, a.text, a.children)]
      case Not => if a.children == [] then [SkipCall] else [Call(Not, "", a.children)]
      case _ => [SkipCall]
  }

  function Emitted(assertions: seq<Assertion>): seq<Expr>
    decreases assertions, 0
  {
    if assertions == [] then [] else EmitAssertion(assertions[0]) + Emitted(assertions[1..])
  }

  function EmitAssertions(assertions: seq<Assertion>): seq<Expr>
    decreases assertions, 1
  {
    Filter(Emitted(assertions))
  }

  /** The filter of emitAssertions as it runs: the kept expressions are moved to the
      front of the slice they are read from. */
  method FilterInPlace(out: array<Expr>) returns (n: nat)
    modifies out
    ensures n <= out.Length && out[..n] == Filter(old(out[..]))
  {
    ghost var given := out[..];
    var hasReal := false;
    var i := 0;
    while i < out.Length
      invariant 0 <= i <= out.Length
      invariant !hasReal && out[..] == given && !HasReal(given[..i])
    {
      if !out[i].SkipCall? {
        hasReal := true;
        assert given[i] in given;
        break;
      }
      assert given[..i + 1] == given[..i] + [given[i]];
      i := i + 1;
    }
    if !hasReal {
      assert given[..i] == given && out[..out.Length] == given;
      return out.Length;
    }
    n := 0;
    assert given[..0] == [] && Real([]) == [];
    hide Real, HasReal;
    for k := 0 to out.Length
      invariant n <= k
      invariant forall m :: k <= m < out.Length ==> out[m] == given[m]
      invariant out[..n] == Real(given[..k])
    {
      var e := out[k];
      RealNext(given, k);
      if !e.SkipCall? {
        ghost var before := out[..n];
        out[n] := e;
        n := n + 1;
        assert out[..n] == before + [e];
      }
    }
    assert given[..out.Length] == given;
  }

  lemma RealNext(out: seq<Expr>, k: nat)
    requires k < |out|
    ensures Real(out[..k + 1]) == Real(out[..k]) + if out[k].SkipCall? then [] else [out[k]]
  {
    assert out[..k + 1] == out[..k] + [out[k]];
    RealAppend(out[..k], [out[k]]);
    assert [out[k]][1..] == [];
  }

  lemma {:induction false} RealAppend(a: seq<Expr>, b: seq<Expr>)
    ensures Real(a + b) == Real(a) + Real(b)
  {
    hide Real;
    if a == [] {
      RealNothing();
      assert a + b == b && [] + Real(b) == Real(b);
    } else {
      RealAppend(a[1..], b);
      RealCons(a[0], a[1..]);
      RealCons(a[0], a[1..] + b);
      assert [a[0]] + a[1..] == a && [a[0]] + (a[1..] + b) == a + b;
    }
  }

  lemma RealNothing()
    ensures Real([]) == []
  {}

  lemma RealCons(e: Expr, rest: seq<Expr>)
    ensures Real([e] + rest) == (if e.SkipCall? then [] else [e]) + Real(rest)
  {
    assert ([e] + rest)[1..] == rest;
  }

  // ----- one filter at the end does the same -----

  /** Every expression of the tree, with all all-of nodes flattened and no filter. */
  function FlattenOne(a: Assertion): seq<Expr>
    decreases a
  {
    if a.kind.AllOf? then Flatten(a.children) else EmitAssertion(a)
  }

  function Flatten(assertions: seq<Assertion>): seq<Expr>
    decreases assertions
  {
    if assertions == [] then [] else FlattenOne(assertions[0]) + Flatten(assertions[1..])
  }

  lemma {:induction false} RealOnly(out: seq<Expr>)
    ensures forall e :: e in Real(out) <==> e in out && !e.SkipCall?
  {
    if out != [] {
      RealOnly(out[1..]);
      assert forall e :: e in out <==> e == out[0] || e in out[1..];
    }
  }

  lemma {:induction false} RealOfReal(out: seq<Expr>)
    requires forall e :: e in out ==> !e.SkipCall?
    ensures Real(out) == out
  {
    if out != [] {
      RealOfReal(out[1..]);
    }
  }

  lemma FilterFacts(out: seq<Expr>)
    ensures HasReal(Filter(out)) <==> HasReal(out)
    ensures Real(Filter(out)) == Real(out)
  {
    RealOnly(out);
    RealOfReal(Real(out));
  }

  lemma HasRealAppend(a: seq<Expr>, b: seq<Expr>)
    ensures HasReal(a + b) <==> HasReal(a) || HasReal(b)
  {
    assert forall e :: e in a + b <==> e in a || e in b;
  }

  /** A filtered part in front or behind does not change the filtered whole. */
  lemma FilterParts(a: seq<Expr>, b: seq<Expr>)
    ensures Filter(Filter(a) + b) == Filter(a + b)
    ensures Filter(a + Filter(b)) == Filter(a + b)
  {
    FilterFacts(a);
    FilterFacts(b);
    HasRealAppend(a, b);
    HasRealAppend(Filter(a), b);
    HasRealAppend(a, Filter(b));
    RealAppend(a, b);
    RealAppend(Filter(a), b);
    RealAppend(a, Filter(b));
  }

  /** Filtering at every nested all-of gives the same list, in the same order, as
      flattening everything and filtering once. */
  lemma {:induction false} FilterOnceSuffices(assertions: seq<Assertion>)
    ensures EmitAssertions(assertions) == Filter(Flatten(assertions))
    decreases assertions, 0
  {
    if assertions != [] {
      var a, rest := assertions[0], assertions[1..];
      FilterOnceSuffices(rest);
      assert EmitAssertion(a) == if a.kind.AllOf? then Filter(FlattenOne(a)) else FlattenOne(a) by {
        if a.kind.AllOf? {
          FilterOnceSuffices(a.children);
        }
      }
      FilterParts(EmitAssertion(a), Emitted(rest));
      FilterParts(FlattenOne(a), Flatten(rest));
      FilterParts(FlattenOne(a), Filter(Flatten(rest)));
    }
  }

  /** Skip calls and real checks never stand side by side. */
  lemma NeverMixed(assertions: seq<Assertion>)
    ensures !HasReal(EmitAssertions(assertions)) || SkipCall !in EmitAssertions(assertions)
  {
    RealOnly(Emitted(assertions));
  }

  // ----- skipping whole cases -----

  predicate AllSkips(exprs: seq<Expr>) {
    forall e :: e in exprs ==> e.SkipCall?
  }

  const POSTURE := "unsupported assertion: assert-posture-and-sweep"
  const UNSUPPORTED := "unsupported assertion type"

  function UnsupportedReason(assertions: seq<Assertion>): string
    decreases assertions
  {
    if assertions == [] then UNSUPPORTED
    else if assertions[0].kind.PostureAndSweep? then POSTURE
    else if assertions[0].kind.AllOf? then
      var reason := UnsupportedReason(assertions[0].children);
      if reason != "" then reason else UnsupportedReason(assertions[1..])
    else UnsupportedReason(assertions[1..])
  }

  datatype GeneratedTest = GeneratedTest(skip: string, expectError: bool, assertions: seq<Assertion>)

  function ClassifyUnsupported(gt: GeneratedTest): GeneratedTest {
    if gt.skip != "" || gt.expectError then gt
    else
      var exprs := EmitAssertions(gt.assertions);
      if |exprs| == 0 || !AllSkips(exprs) then gt
      else gt.(skip := UnsupportedReason(gt.assertions))
  }

  lemma {:induction false} ReasonIsGiven(assertions: seq<Assertion>)
    ensures UnsupportedReason(assertions) == POSTURE || UnsupportedReason(assertions) == UNSUPPORTED
    decreases assertions
  {
    if assertions != [] {
      ReasonIsGiven(assertions[0].children);
      ReasonIsGiven(assertions[1..]);
    }
  }

  /** A case that was neither skipped nor expected to fail becomes skipped exactly when
      it has assertions to emit, none of them, at any all-of depth, a real one. */
  lemma SkippedExactly(gt: GeneratedTest)
    requires gt.skip == "" && !gt.expectError
    ensures ClassifyUnsupported(gt).skip != "" <==>
            Flatten(gt.assertions) != [] && AllSkips(Flatten(gt.assertions))
    ensures ClassifyUnsupported(gt) == gt.(skip := ClassifyUnsupported(gt).skip)
  {
    var flat := Flatten(gt.assertions);
    FilterOnceSuffices(gt.assertions);
    ReasonIsGiven(gt.assertions);
    RealOnly(flat);
    if HasReal(flat) {
      assert !AllSkips(flat) && !AllSkips(Filter(flat)) && flat != [];
    }
  }

  // ----- the reason given -----

  datatype Mark = PostureMark | CloseMark

  /** The posture-and-sweep assertions at any all-of depth, in document order, with a
      mark where an all-of node ends. */
  function Outline(assertions: seq<Assertion>): seq<Mark>
    decreases assertions
  {
    if assertions == [] then [] else OutlineOf(assertions[0]) + Outline(assertions[1..])
  }

  function OutlineOf(a: Assertion): seq<Mark>
    decreases a
  {
    match a.kind
    case PostureAndSweep => [PostureMark]
    case AllOf => Outline(a.children) + [CloseMark]
    case _ => []
  }

  predicate BeginsWithPosture(outline: seq<Mark>) {
    outline != [] && outline[0].PostureMark?
  }

  /** A posture-and-sweep assertion occurs at some all-of depth. */
  predicate HasPosture(assertions: seq<Assertion>)
    decreases assertions
  {
    exists a :: a in assertions && (a.kind.PostureAndSweep? || (a.kind.AllOf? && HasPosture(a.children)))
  }

  lemma {:induction false} OutlineShowsPostures(assertions: seq<Assertion>)
    ensures PostureMark in Outline(assertions) <==> HasPosture(assertions)
    decreases assertions
  {
    if assertions != [] {
      var a, rest := assertions[0], assertions[1..];
      OutlineShowsPostures(a.children);
      OutlineShowsPostures(rest);
      assert assertions == [a] + rest;
      assert HasPosture(assertions) <==>
             a.kind.PostureAndSweep? || (a.kind.AllOf? && HasPosture(a.children)) || HasPosture(rest);
    }
  }

  /** The posture reason is given exactly if a posture assertion stands before the end
      of the first all-of node: the search never leaves a node it enters, because an
      empty reason never comes back. */
  lemma {:induction false} PostureReasonExactly(assertions: seq<Assertion>)
    ensures UnsupportedReason(assertions) == POSTURE <==> BeginsWithPosture(Outline(assertions))
    decreases assertions
  {
    if assertions != [] {
      var a, rest := assertions[0], assertions[1..];
      ReasonIsGiven(a.children);
      PostureReasonExactly(a.children);
      PostureReasonExactly(rest);
      assert Outline(assertions) == OutlineOf(a) + Outline(rest);
      assert a.kind.AllOf? ==> OutlineOf(a) == Outline(a.children) + [CloseMark];
      hide Outline;
    }
  }

  /** So the reason names a posture assertion that occurs exactly unless an all-of node
      ends before the first one. */
  lemma PostureIsNamedExactly(assertions: seq<Assertion>)
    ensures HasPosture(assertions) ==> Outline(assertions) != []
    ensures (UnsupportedReason(assertions) == POSTURE <==> HasPosture(assertions)) <==>
            !(HasPosture(assertions) && Outline(assertions)[0].CloseMark?)
  {
    hide Outline, HasPosture, UnsupportedReason;
    PostureReasonExactly(assertions);
    OutlineShowsPostures(assertions);
  }

  /** An all-of node without a posture assertion of its own in front hides every one
      behind it. */
  lemma PostureIsHidden(other: Assertion, more: seq<Assertion>)
    requires other.kind.AllOf? && !BeginsWithPosture(Outline(other.children))
    ensures UnsupportedReason([other] + more) == UNSUPPORTED
  {
    PostureReasonExactly(other.children);
    ReasonIsGiven(other.children);
    assert ([other] + more)[1..] == more;
  }

  /** A skipped case whose reason depends on that order. */
  lemma PostureIsHiddenInSkip(other: Assertion, leaf: Assertion, posture: Assertion)
    requires other.kind.AllOf? && other.children == [leaf] && leaf.kind.Unknown? && posture.kind.PostureAndSweep?
    ensures ClassifyUnsupported(GeneratedTest("", false, [other, posture])).skip == UNSUPPORTED
    ensures ClassifyUnsupported(GeneratedTest("", false, [posture, other])).skip == POSTURE
  {
    assert [leaf][1..] == [] && [other, posture][1..] == [posture] && [posture, other][1..] == [other];
    assert Outline([leaf]) == [] && Flatten([leaf]) == [SkipCall];
    assert Flatten([posture]) == [SkipCall] && Flatten([other]) == [SkipCall];
    assert [other] + [posture] == [other, posture];
    PostureIsHidden(other, [posture]);
    SkippedExactly(GeneratedTest("", false, [other, posture]));
    SkippedExactly(GeneratedTest("", false, [posture, other]));
  }

  // ----- the kinds of assertions -----

  /** The kinds compiled to a check of their own, whatever they hold. */
  predicate AlwaysChecked(k: Kind) {
    match k
    case AssertXml | AssertStringValue | Assert | AssertSerialization | SerializationMatches
       | AssertType | AssertCount | AssertDeepEq | AssertEmpty | AssertEq => true
    case _ => false
  }

  /** The kinds that check their children. */
  predicate ChecksChildren(k: Kind) {
    match k
    case AnyOf | AssertMessage | AssertResultDocument | Not => true
    case _ => false
  }

  lemma {:induction false} NonErrorsExactly(children: seq<Assertion>, c: Assertion)
    ensures c in NonErrors(children) <==> c in children && c.kind != Error
  {
    if children != [] {
      NonErrorsExactly(children[1..], c);
      assert children == [children[0]] + children[1..];
    }
  }

  lemma EmittedOne(a: Assertion)
    ensures Emitted([a]) == EmitAssertion(a)
  {
    assert [a][1..] == [];
  }

  lemma FlattenedOne(a: Assertion)
    ensures Flatten([a]) == FlattenOne(a)
  {
    assert [a][1..] == [];
  }

  lemma AtMostOne(a: Assertion)
    requires a.kind != AllOf
    ensures |EmitAssertion(a)| <= 1
  {}

  lemma OneStays(out: seq<Expr>)
    requires |out| <= 1
    ensures Filter(out) == out
  {
    if HasReal(out) {
      assert forall e :: e in out ==> e == out[0];
      RealOfReal(out);
    }
  }

  lemma EmittedAlone(a: Assertion)
    requires a.kind != AllOf
    ensures EmitAssertions([a]) == EmitAssertion(a) && Flatten([a]) == EmitAssertion(a) && |EmitAssertion(a)| <= 1
  {
    hide Emitted, Flatten, EmitAssertion, Filter;
    EmittedOne(a);
    FlattenedOne(a);
    AtMostOne(a);
    OneStays(EmitAssertion(a));
  }

  /** What one assertion is compiled to, kind by kind: one check for its own kind and
      text; nothing for an error; a skip for the kinds that are not supported and for a
      negation or result document without children. */
  lemma KindsAreEmitted(a: Assertion)
    ensures AlwaysChecked(a.kind) ==> EmitAssertions([a]) == [Call(a.kind, a.text, [])]
    ensures a.kind == Error ==> EmitAssertions([a]) == []
    ensures a.kind == PostureAndSweep || a.kind.Unknown? ==> EmitAssertions([a]) == [SkipCall]
    ensures a.children == [] && (a.kind == Not || a.kind == AssertResultDocument) ==> EmitAssertions([a]) == [SkipCall]
    ensures a.children == [] && (a.kind == AnyOf || a.kind == AssertMessage) ==> EmitAssertions([a]) == []
  {
    hide EmitAssertions;
    if a.kind != AllOf {
      EmittedAlone(a);
    }
  }

  /** The kinds with children become one check of all of them, in an any-of of all but
      the errors, and nothing else. */
  lemma ChildrenAreChecked(a: Assertion, c: Assertion)
    requires ChecksChildren(a.kind)
    ensures var out := EmitAssertions([a]);
            var checked := exists x :: x in a.children && !(a.kind == AnyOf && x.kind == Error);
            && (checked ==> |out| == 1 && out[0].Call? && out[0].kind == a.kind)
            && (checked ==> (c in out[0].checked <==> c in a.children && !(a.kind == AnyOf && c.kind == Error)))
            && (!checked ==> forall e :: e in out ==> e == SkipCall)
  {
    hide EmitAssertions, NonErrors;
    EmittedAlone(a);
    NonErrorsExactly(a.children, c);
    forall x ensures x in NonErrors(a.children) <==> x in a.children && x.kind != Error {
      NonErrorsExactly(a.children, x);
    }
    if NonErrors(a.children) != [] {
      assert NonErrors(a.children)[0] in a.children;
    }
    if a.children != [] {
      assert a.children[0] in a.children;
    }
  }

  lemma OneSkips(out: seq<Expr>)
    requires |out| <= 1
    ensures out != [] && AllSkips(out) <==> out == [SkipCall]
  {
    assert |out| == 1 ==> out == [out[0]] && out[0] in out;
  }

  /** A case with a single assertion is skipped exactly if that is of an unsupported kind,
      or a negation or result document without children. */
  lemma SkippedKinds(a: Assertion)
    requires a.kind != AllOf
    ensures ClassifyUnsupported(GeneratedTest("", false, [a])).skip != "" <==>
            || a.kind == PostureAndSweep || a.kind.Unknown?
            || (a.children == [] && (a.kind == Not || a.kind == AssertResultDocument))
  {
    hide Flatten, NonErrors, AllSkips, ClassifyUnsupported;
    SkippedExactly(GeneratedTest("", false, [a]));
    EmittedAlone(a);
    OneSkips(EmitAssertion(a));
  }
}
