/** The QT3 assertion compiler: assertion trees become a flat list of checks plus an
    expect-error and an accept-error flag. */
module Qt3Assertions {
  import opened Common

  datatype Kind =
    | AssertEq | AssertStringValue | AssertTrue | AssertFalse | AssertEmpty | AssertCount
    | AssertType | AssertDeepEq | Assert | AssertXml | AssertPermutation
    | AssertSerialization | AssertSerializationError
    | AllOf | AnyOf | Error
    | Unknown(name: string)

  datatype Assertion = Assertion(kind: Kind, value: string, file: string, normalizeSpace: bool, children: seq<Assertion>)

  /** What an elementary assertion asks of the result. */
  datatype Leaf = Leaf(kind: Kind, value: string, normalizeSpace: bool)

  datatype Check = LeafCheck(leaf: Leaf) | SkipCheck

  datatype Expr = LeafAssert(leaf: Leaf) | AnyOfChecks(checks: seq<Check>) | SkipAssert

  datatype TestCase = TestCase(expectError: bool, acceptError: bool, assertions: seq<Expr>)

  predicate Supported(k: Kind) {
    k in {AssertEq, AssertStringValue, AssertTrue, AssertFalse, AssertEmpty, AssertCount,
          AssertType, AssertDeepEq, Assert, AssertXml, AssertPermutation}
  }

  function LeafOf(a: Assertion): Leaf {
    Leaf(a.kind, a.value, a.normalizeSpace && (a.kind.AssertStringValue? || a.kind.AssertXml?))
  }

  // ----- the compiler -----

  predicate AllErrors(children: seq<Assertion>) {
    forall c :: c in children ==> c.kind.Error?
  }

  predicate AssertionsExpectError(assertions: seq<Assertion>) {
    exists a :: a in assertions && (a.kind.Error? || (a.kind.AnyOf? && AllErrors(a.children)))
  }

  predicate AssertionsAcceptError(assertions: seq<Assertion>) {
    exists a :: a in assertions && a.kind.AnyOf?
      && (exists c :: c in a.children && c.kind.Error?)
      && (exists c :: c in a.children && !c.kind.Error?)
  }

  function EmitCheck(a: Assertion): Check {
    if Supported(a.kind) then LeafCheck(LeafOf(a)) else SkipCheck
  }

  /** The checks of an any-of: one for each child that is not an error. */
  function EmitChecks(children: seq<Assertion>): seq<Check> {
    if children == [] then []
    else (if children[0].kind.Error? then [] else [EmitCheck(children[0])]) + EmitChecks(children[1..])
  }

  function EmitAssertion(a: Assertion): seq<Expr>
    decreases a
  {
    if Supported(a.kind) then [LeafAssert(LeafOf(a))]
    else match a.kind
      case AllOf => EmitAssertions(a.children)
      case AnyOf =>
        var checks := EmitChecks(a.children);
        if |checks| == 0 then [] else [AnyOfChecks(checks)]
      case Error => []
      case _ => [SkipAssert]
  }

  function EmitAssertions(assertions: seq<Assertion>): seq<Expr>
    decreases assertions
  {
    if assertions == [] then [] else EmitAssertion(assertions[0]) + EmitAssertions(assertions[1..])
  }

  function Compile(assertions: seq<Assertion>): TestCase {
    if AssertionsExpectError(assertions) then TestCase(true, false, [])
    else TestCase(false, AssertionsAcceptError(assertions), EmitAssertions(assertions))
  }

  // ----- running a compiled case -----

  /** Evaluation raises an error or yields a result; `holds` says which elementary
      assertions are true of the result. */
  datatype Outcome = Raised | Result(holds: Leaf -> bool)

  predicate CheckHolds(holds: Leaf -> bool, c: Check) {
    c.LeafCheck? ==> holds(c.leaf)
  }

  predicate ExprHolds(holds: Leaf -> bool, e: Expr) {
    match e
    case LeafAssert(leaf) => holds(leaf)
    case AnyOfChecks(checks) => exists c :: c in checks && CheckHolds(holds, c)
    case SkipAssert => true
  }

  predicate AllHold(holds: Leaf -> bool, es: seq<Expr>) {
    forall e :: e in es ==> ExprHolds(holds, e)
  }

  predicate CheckResult(tc: TestCase, o: Outcome) {
    match o
    case Raised => tc.expectError || tc.acceptError
    case Result(holds) => !tc.expectError && AllHold(holds, tc.assertions)
  }

  // ----- what a tree means -----

  predicate Accepts(a: Assertion, o: Outcome) {
    match a.kind
    case Error => o.Raised?
    case AllOf => forall c :: c in a.children ==> Accepts(c, o)
    case AnyOf => exists c :: c in a.children && Accepts(c, o)
    case _ => o.Result? && o.holds(LeafOf(a))
  }

  // ----- facts about the emitted list -----

  lemma {:induction false} InChecks(children: seq<Assertion>, c: Check)
    ensures c in EmitChecks(children) <==> exists x :: x in children && !x.kind.Error? && c == EmitCheck(x)
  {
    if children != [] {
      InChecks(children[1..], c);
      assert forall x :: x in children <==> x == children[0] || x in children[1..];
    }
  }

  lemma {:induction false} NoChecks(children: seq<Assertion>)
    ensures EmitChecks(children) == [] <==> AllErrors(children)
  {
    if children != [] {
      NoChecks(children[1..]);
      assert forall x :: x in children <==> x == children[0] || x in children[1..];
    }
  }

  lemma {:induction false} AllHoldEmitted(holds: Leaf -> bool, assertions: seq<Assertion>)
    ensures AllHold(holds, EmitAssertions(assertions)) <==>
            forall a :: a in assertions ==> AllHold(holds, EmitAssertion(a))
  {
    if assertions != [] {
      var first, rest := EmitAssertion(assertions[0]), EmitAssertions(assertions[1..]);
      AllHoldEmitted(holds, assertions[1..]);
      assert forall x :: x in assertions <==> x == assertions[0] || x in assertions[1..];
      assert forall e :: e in first + rest <==> e in first || e in rest;
    }
  }

  /** When the emitted checks of one tree hold, node by node. */
  lemma EmittedMeaning(a: Assertion, holds: Leaf -> bool)
    ensures Supported(a.kind) ==> (AllHold(holds, EmitAssertion(a)) <==> holds(LeafOf(a)))
    ensures a.kind.AllOf? ==>
            (AllHold(holds, EmitAssertion(a)) <==> forall c :: c in a.children ==> AllHold(holds, EmitAssertion(c)))
    ensures a.kind.AnyOf? ==>
            (AllHold(holds, EmitAssertion(a)) <==>
              AllErrors(a.children)
              || exists c :: c in a.children && !c.kind.Error? && (Supported(c.kind) ==> holds(LeafOf(c))))
    ensures !Supported(a.kind) && !a.kind.AllOf? && !a.kind.AnyOf? ==> AllHold(holds, EmitAssertion(a))
  {
    AllHoldEmitted(holds, a.children);
    if Supported(a.kind) {
      assert LeafAssert(LeafOf(a)) in EmitAssertion(a);
    } else if a.kind.AnyOf? {
      AnyOfMeaning(a, holds);
    }
  }

  lemma AnyOfMeaning(a: Assertion, holds: Leaf -> bool)
    requires a.kind.AnyOf?
    ensures AllHold(holds, EmitAssertion(a)) <==>
              AllErrors(a.children)
              || exists c :: c in a.children && !c.kind.Error? && (Supported(c.kind) ==> holds(LeafOf(c)))
  {
    var checks := EmitChecks(a.children);
    NoChecks(a.children);
    forall k ensures k in checks <==> exists x :: x in a.children && !x.kind.Error? && k == EmitCheck(x) {
      InChecks(a.children, k);
    }
    if checks != [] {
      assert EmitAssertion(a) == [AnyOfChecks(checks)];
      assert AllHold(holds, EmitAssertion(a)) <==> ExprHolds(holds, AnyOfChecks(checks));
      forall c | c in a.children && !c.kind.Error?
        ensures EmitCheck(c) in checks
      {}
    }
  }

  // ----- a compiled case never rejects a result the tree accepts -----

  lemma {:induction false} AcceptedIsNotRejected(a: Assertion, holds: Leaf -> bool)
    requires Accepts(a, Result(holds))
    ensures AllHold(holds, EmitAssertion(a))
    decreases a
  {
    EmittedMeaning(a, holds);
    if a.kind.AllOf? {
      forall c | c in a.children
        ensures AllHold(holds, EmitAssertion(c))
      {
        AcceptedIsNotRejected(c, holds);
      }
    } else if a.kind.AnyOf? {
      var c :| c in a.children && Accepts(c, Result(holds));
      assert Supported(c.kind) ==> holds(LeafOf(c));
    }
  }

  /** For every list of trees, read as a conjunction. */
  lemma CompiledNeverRejectsAcceptedResult(assertions: seq<Assertion>, holds: Leaf -> bool)
    requires forall a :: a in assertions ==> Accepts(a, Result(holds))
    ensures CheckResult(Compile(assertions), Result(holds))
  {
    AllHoldEmitted(holds, assertions);
    forall a | a in assertions
      ensures AllHold(holds, EmitAssertion(a)) && !a.kind.Error? && !(a.kind.AnyOf? && AllErrors(a.children))
    {
      AcceptedIsNotRejected(a, holds);
      if a.kind.AnyOf? {
        var c :| c in a.children && Accepts(c, Result(holds));
      }
    }
    assert !AssertionsExpectError(assertions);
  }

  // ----- exactly when the meaning is preserved -----

  /** Accepted whatever the result is: an all-of without demands, or an any-of one of
      whose alternatives is that. */
  predicate Trivial(a: Assertion) {
    match a.kind
    case AllOf => forall c :: c in a.children ==> Trivial(c)
    case AnyOf => exists c :: c in a.children && Trivial(c)
    case _ => false
  }

  /** A tree below the root whose emitted checks say exactly what it says. */
  predicate Exact(a: Assertion) {
    match a.kind
    case AllOf => forall c :: c in a.children ==> Exact(c)
    case AnyOf =>
      && !AllErrors(a.children)
      && ((forall c :: c in a.children ==> c.kind.Error? || Supported(c.kind))
          || exists c :: c in a.children && Trivial(c))
    case _ => Supported(a.kind)
  }

  /** At the root the expect-error flag also covers an error and an any-of of errors. */
  predicate ExactOnResults(root: Assertion) {
    root.kind.Error? || (root.kind.AnyOf? && AllErrors(root.children)) || Exact(root)
  }

  predicate AcceptsRaised(a: Assertion) {
    match a.kind
    case Error => true
    case AllOf => forall c :: c in a.children ==> AcceptsRaised(c)
    case AnyOf => exists c :: c in a.children && AcceptsRaised(c)
    case _ => false
  }

  predicate HasError(a: Assertion) {
    exists c :: c in a.children && c.kind.Error?
  }

  /** The flags look one level below the root and no further. */
  predicate ExactOnErrors(root: Assertion) {
    match root.kind
    case AllOf => !AcceptsRaised(root)
    case AnyOf => root.children != [] && (HasError(root) || !AcceptsRaised(root))
    case _ => true
  }

  lemma {:induction false} TrivialIsAccepted(a: Assertion, holds: Leaf -> bool)
    requires Trivial(a)
    ensures Accepts(a, Result(holds))
    decreases a
  {
    if a.kind.AllOf? {
      forall c | c in a.children ensures Accepts(c, Result(holds)) {
        TrivialIsAccepted(c, holds);
      }
    } else {
      var c :| c in a.children && Trivial(c);
      TrivialIsAccepted(c, holds);
    }
  }

  lemma {:induction false} NonTrivialMakesDemands(a: Assertion, holds: Leaf -> bool)
    requires !Trivial(a) && forall l :: !holds(l)
    ensures !Accepts(a, Result(holds))
    decreases a
  {
    if a.kind.AllOf? {
      var c :| c in a.children && !Trivial(c);
      NonTrivialMakesDemands(c, holds);
    } else if a.kind.AnyOf? {
      forall c | c in a.children ensures !Accepts(c, Result(holds)) {
        NonTrivialMakesDemands(c, holds);
      }
    }
  }

  lemma {:induction false} RaisedMeaning(a: Assertion)
    ensures Accepts(a, Raised) <==> AcceptsRaised(a)
    decreases a
  {
    forall c | c in a.children ensures Accepts(c, Raised) <==> AcceptsRaised(c) {
      RaisedMeaning(c);
    }
  }

  lemma {:induction false} ExactIsExact(a: Assertion, holds: Leaf -> bool)
    requires Exact(a) && AllHold(holds, EmitAssertion(a))
    ensures Accepts(a, Result(holds))
    decreases a
  {
    EmittedMeaning(a, holds);
    if a.kind.AllOf? {
      forall c | c in a.children ensures Accepts(c, Result(holds)) {
        ExactIsExact(c, holds);
      }
    } else if a.kind.AnyOf? {
      if c :| c in a.children && Trivial(c) {
        TrivialIsAccepted(c, holds);
      } else {
        var c :| c in a.children && !c.kind.Error? && (Supported(c.kind) ==> holds(LeafOf(c)));
        assert Accepts(c, Result(holds));
      }
    }
  }

  lemma CompiledRoot(root: Assertion, holds: Leaf -> bool)
    ensures CheckResult(Compile([root]), Result(holds)) <==>
            !root.kind.Error? && !(root.kind.AnyOf? && AllErrors(root.children)) && AllHold(holds, EmitAssertion(root))
  {
    assert AssertionsExpectError([root]) <==> root.kind.Error? || (root.kind.AnyOf? && AllErrors(root.children)) by {
      assert [root][0] == root;
    }
    AllHoldEmitted(holds, [root]);
  }

  lemma CompiledRootOnErrors(root: Assertion)
    ensures (CheckResult(Compile([root]), Raised) <==> Accepts(root, Raised)) <==> ExactOnErrors(root)
  {
    RaisedMeaning(root);
    assert AssertionsExpectError([root]) <==> root.kind.Error? || (root.kind.AnyOf? && AllErrors(root.children)) by {
      assert [root][0] == root;
    }
    assert AssertionsAcceptError([root]) <==> root.kind.AnyOf? && HasError(root) && !AllErrors(root.children) by {
      assert [root][0] == root;
    }
    if root.kind.AnyOf? && root.children != [] {
      assert root.children[0] in root.children;
      assert HasError(root) ==> AcceptsRaised(root);
    }
  }

  /** A single tree of this shape compiles to a case that accepts exactly the outcomes
      the tree accepts: every result and a raised error. */
  lemma CompilationPreservesMeaning(root: Assertion, o: Outcome)
    requires ExactOnResults(root) && ExactOnErrors(root)
    ensures CheckResult(Compile([root]), o) <==> Accepts(root, o)
  {
    match o
    case Raised => CompiledRootOnErrors(root);
    case Result(holds) =>
      CompiledRoot(root, holds);
      if Accepts(root, o) {
        CompiledNeverRejectsAcceptedResult([root], holds);
      } else if Exact(root) && AllHold(holds, EmitAssertion(root)) {
        ExactIsExact(root, holds);
      }
  }

  // ----- and not otherwise, when no elementary assertion occurs twice -----

  function Leaves(a: Assertion): seq<Leaf>
    decreases a
  {
    match a.kind
    case AllOf => LeavesOf(a.children)
    case AnyOf => LeavesOf(a.children)
    case Error => []
    case _ => [LeafOf(a)]
  }

  function LeavesOf(children: seq<Assertion>): seq<Leaf>
    decreases children
  {
    if children == [] then [] else Leaves(children[0]) + LeavesOf(children[1..])
  }

  ghost function Holding(s: set<Leaf>): Leaf -> bool {
    l => l in s
  }

  lemma {:induction false} LeavesIncluded(children: seq<Assertion>, c: Assertion)
    requires c in children
    ensures forall l :: l in Leaves(c) ==> l in LeavesOf(children)
  {
    if c != children[0] {
      LeavesIncluded(children[1..], c);
    }
  }

  /** Acceptance of a result depends only on the assertions occurring in the tree. */
  lemma {:induction false} AcceptsLocally(a: Assertion, s: set<Leaf>, t: set<Leaf>)
    requires forall l :: l in Leaves(a) ==> (l in s <==> l in t)
    ensures Accepts(a, Result(Holding(s))) <==> Accepts(a, Result(Holding(t)))
    decreases a
  {
    if a.kind.AllOf? || a.kind.AnyOf? {
      forall c | c in a.children
        ensures Accepts(c, Result(Holding(s))) <==> Accepts(c, Result(Holding(t)))
      {
        LeavesIncluded(a.children, c);
        AcceptsLocally(c, s, t);
      }
    }
  }

  lemma {:induction false} EmittedIsMonotone(a: Assertion, s: set<Leaf>, t: set<Leaf>)
    requires s <= t && AllHold(Holding(s), EmitAssertion(a))
    ensures AllHold(Holding(t), EmitAssertion(a))
    decreases a
  {
    EmittedMeaning(a, Holding(s));
    EmittedMeaning(a, Holding(t));
    if a.kind.AllOf? {
      forall c | c in a.children ensures AllHold(Holding(t), EmitAssertion(c)) {
        EmittedIsMonotone(c, s, t);
      }
    }
  }

  lemma {:induction false} EmittedHoldsOfAll(a: Assertion, s: set<Leaf>)
    requires forall l :: l in Leaves(a) ==> l in s
    ensures AllHold(Holding(s), EmitAssertion(a))
    decreases a
  {
    EmittedMeaning(a, Holding(s));
    if a.kind.AllOf? {
      forall c | c in a.children ensures AllHold(Holding(s), EmitAssertion(c)) {
        LeavesIncluded(a.children, c);
        EmittedHoldsOfAll(c, s);
      }
    } else if a.kind.AnyOf? && !AllErrors(a.children) {
      var c :| c in a.children && !c.kind.Error?;
      LeavesIncluded(a.children, c);
      assert Supported(c.kind) ==> LeafOf(c) in Leaves(c);
    }
  }

  /** Leaves of different children differ. */
  lemma {:induction false} DistinctApart(children: seq<Assertion>, i: nat, l: Leaf)
    requires Distinct(LeavesOf(children)) && i < |children| && l in Leaves(children[i])
    ensures Distinct(Leaves(children[i]))
    ensures forall k :: 0 <= k < |children| && k != i ==> l !in Leaves(children[k])
  {
    var first, rest := Leaves(children[0]), LeavesOf(children[1..]);
    assert LeavesOf(children) == first + rest;
    DistinctParts(first, rest);
    if i == 0 {
      forall k | 0 < k < |children| ensures l !in Leaves(children[k]) {
        LeavesIncluded(children[1..], children[k]);
      }
    } else {
      assert children[1..][i - 1] == children[i];
      LeavesIncluded(children[1..], children[i]);
      DistinctApart(children[1..], i - 1, l);
      forall k | 0 < k < |children| && k != i ensures l !in Leaves(children[k]) {
        assert children[1..][k - 1] == children[k];
      }
    }
  }

  lemma DistinctParts(a: seq<Leaf>, b: seq<Leaf>)
    requires Distinct(a + b)
    ensures Distinct(a) && Distinct(b) && forall l :: l in a ==> l !in b
  {
    assert forall i :: 0 <= i < |a| ==> (a + b)[i] == a[i];
    assert forall i :: 0 <= i < |b| ==> (a + b)[|a| + i] == b[i];
  }

  lemma {:induction false} DistinctChild(children: seq<Assertion>, i: nat)
    requires Distinct(LeavesOf(children)) && i < |children|
    ensures Distinct(Leaves(children[i]))
  {
    DistinctParts(Leaves(children[0]), LeavesOf(children[1..]));
    if i > 0 {
      DistinctChild(children[1..], i - 1);
    }
  }

  /** A tree that is not of the exact shape, and repeats no elementary assertion, has a
      result that its checks accept and it does not: the one of which exactly the
      assertions in `s` hold. */
  lemma {:induction false} InexactIsWrong(a: Assertion) returns (s: set<Leaf>)
    requires !Exact(a) && Distinct(Leaves(a))
    ensures AllHold(Holding(s), EmitAssertion(a)) && !Accepts(a, Result(Holding(s)))
    decreases a
  {
    s := {};
    EmittedMeaning(a, Holding(s));
    if a.kind.AllOf? {
      var i :| 0 <= i < |a.children| && !Exact(a.children[i]);
      DistinctChild(a.children, i);
      var own := InexactIsWrong(a.children[i]);
      s := WrongInContext(a.children, i, own);
      EmittedMeaning(a, Holding(s));
      assert !Accepts(a.children[i], Result(Holding(s)));
    } else if a.kind.AnyOf? {
      forall c | c in a.children
        ensures !Accepts(c, Result(Holding(s)))
      {
        if Exact(c) || !c.kind.Error? {
          AnyOfRejects(a, c);
        }
      }
    }
  }

  lemma AnyOfRejects(a: Assertion, c: Assertion)
    requires a.kind.AnyOf? && !Exact(a) && c in a.children
    ensures !Accepts(c, Result(Holding({})))
  {
    if !c.kind.Error? {
      assert !Trivial(c);
      NonTrivialMakesDemands(c, Holding({}));
    }
  }

  /** Making every other child's assertions hold keeps the wrong child wrong. */
  lemma WrongInContext(children: seq<Assertion>, i: nat, own: set<Leaf>) returns (s: set<Leaf>)
    requires i < |children| && Distinct(LeavesOf(children))
    requires AllHold(Holding(own), EmitAssertion(children[i])) && !Accepts(children[i], Result(Holding(own)))
    ensures forall c :: c in children ==> AllHold(Holding(s), EmitAssertion(c))
    ensures !Accepts(children[i], Result(Holding(s)))
  {
    s := own + set k, l | 0 <= k < |children| && k != i && l in Leaves(children[k]) :: l;
    forall k | 0 <= k < |children|
      ensures AllHold(Holding(s), EmitAssertion(children[k]))
    {
      if k == i {
        EmittedIsMonotone(children[i], own, s);
      } else {
        EmittedHoldsOfAll(children[k], s);
      }
    }
    forall l | l in Leaves(children[i])
      ensures l in s <==> l in own
    {
      DistinctApart(children, i, l);
    }
    AcceptsLocally(children[i], own, s);
  }

  /** Without repeated elementary assertions, the shape is necessary as well. */
  lemma CompilationPreservesMeaningExactly(root: Assertion)
    requires Distinct(Leaves(root))
    ensures ExactOnResults(root) && ExactOnErrors(root) <==>
            forall o :: CheckResult(Compile([root]), o) <==> Accepts(root, o)
  {
    if ExactOnResults(root) && ExactOnErrors(root) {
      forall o ensures CheckResult(Compile([root]), o) <==> Accepts(root, o) {
        CompilationPreservesMeaning(root, o);
      }
    }
    if !ExactOnResults(root) {
      var s := InexactIsWrong(root);
      CompiledRoot(root, Holding(s));
      assert CheckResult(Compile([root]), Result(Holding(s))) && !Accepts(root, Result(Holding(s)));
    }
    if !ExactOnErrors(root) {
      CompiledRootOnErrors(root);
    }
  }

  /** The regular trees of the suite: any-of nodes list elementary assertions and
      errors, all-of nodes are free of errors at any depth, and neither is empty. */
  predicate Regular(a: Assertion) {
    match a.kind
    case Error => true
    case AllOf => a.children != [] && forall c :: c in a.children ==> Regular(c) && ErrorFree(c)
    case AnyOf => a.children != [] && forall c :: c in a.children ==> c.kind.Error? || Supported(c.kind)
    case _ => Supported(a.kind)
  }

  predicate ErrorFree(a: Assertion) {
    !a.kind.Error? && (a.kind.AllOf? || a.kind.AnyOf? ==> forall c :: c in a.children ==> ErrorFree(c))
  }

  lemma {:induction false} ErrorFreeIsExact(a: Assertion)
    requires Regular(a) && ErrorFree(a)
    ensures Exact(a) && !AcceptsRaised(a)
    decreases a
  {
    if a.kind.AllOf? {
      forall c | c in a.children ensures Exact(c) && !AcceptsRaised(c) {
        ErrorFreeIsExact(c);
      }
      assert a.children[0] in a.children;
    } else if a.kind.AnyOf? {
      assert a.children[0] in a.children && !a.children[0].kind.Error?;
    }
  }

  lemma RegularIsPreserved(root: Assertion, o: Outcome)
    requires Regular(root)
    ensures CheckResult(Compile([root]), o) <==> Accepts(root, o)
  {
    if root.kind.AllOf? {
      forall c | c in root.children ensures Exact(c) && !AcceptsRaised(c) {
        ErrorFreeIsExact(c);
      }
      assert root.children[0] in root.children;
    } else if root.kind.AnyOf? {
      assert ExactOnResults(root);
      assert ExactOnErrors(root);
    }
    CompilationPreservesMeaning(root, o);
  }

  // ----- cases that cannot fail -----

  predicate AssertionIsReal(a: Assertion) {
    if Supported(a.kind) then true
    else match a.kind
      case Error => true
      case AllOf => exists c :: c in a.children && AssertionIsReal(c)
      case AnyOf =>
        && (forall c :: c in a.children && !c.kind.Error? ==> AssertionIsReal(c))
        && (exists c :: c in a.children && !c.kind.Error?)
      case _ => false
  }

  predicate HasRealAssertion(assertions: seq<Assertion>) {
    exists a :: a in assertions && AssertionIsReal(a)
  }

  predicate IsFalsePassRisk(skipReason: string, assertions: seq<Assertion>) {
    && skipReason == ""
    && !AssertionsExpectError(assertions)
    && !HasRealAssertion(assertions)
  }

  /** Counted as real although its emitted checks cannot fail: an error inside an
      all-of, an any-of with a composite alternative, or an all-of of such. */
  predicate Phony(a: Assertion) {
    match a.kind
    case Error => true
    case AllOf => forall c :: c in a.children && AssertionIsReal(c) ==> Phony(c)
    case AnyOf => exists c :: c in a.children && (c.kind.AllOf? || c.kind.AnyOf?)
    case _ => false
  }

  /** The emitted checks of a tree hold of every result exactly when the tree is not
      counted as real, or is so without reason. */
  lemma {:induction false} UnfailingExactly(a: Assertion, holds: Leaf -> bool)
    ensures !AssertionIsReal(a) || Phony(a) ==> AllHold(holds, EmitAssertion(a))
    ensures AssertionIsReal(a) && !Phony(a) && (forall l :: !holds(l)) ==> !AllHold(holds, EmitAssertion(a))
    decreases a
  {
    EmittedMeaning(a, holds);
    if a.kind.AllOf? {
      forall c | c in a.children
        ensures !AssertionIsReal(c) || Phony(c) ==> AllHold(holds, EmitAssertion(c))
        ensures AssertionIsReal(c) && !Phony(c) && (forall l :: !holds(l)) ==> !AllHold(holds, EmitAssertion(c))
      {
        UnfailingExactly(c, holds);
      }
    } else if a.kind.AnyOf? {
      UnfailingAnyOf(a, holds);
    }
  }

  lemma UnfailingAnyOf(a: Assertion, holds: Leaf -> bool)
    requires a.kind.AnyOf?
    ensures !AssertionIsReal(a) || Phony(a) ==> AllHold(holds, EmitAssertion(a))
    ensures AssertionIsReal(a) && !Phony(a) && (forall l :: !holds(l)) ==> !AllHold(holds, EmitAssertion(a))
  {
    EmittedMeaning(a, holds);
    if !AssertionIsReal(a) && !AllErrors(a.children) {
      var c :| c in a.children && !c.kind.Error? && !AssertionIsReal(c);
      assert !Supported(c.kind);
    } else if Phony(a) {
      var c :| c in a.children && (c.kind.AllOf? || c.kind.AnyOf?);
      assert !Supported(c.kind) && !c.kind.Error?;
    } else if AssertionIsReal(a) {
      forall c | c in a.children && !c.kind.Error? ensures Supported(c.kind) {
        assert AssertionIsReal(c);
      }
    }
  }

  /** A compiled case accepts every result. */
  ghost predicate AcceptsEverything(assertions: seq<Assertion>) {
    forall holds :: CheckResult(Compile(assertions), Result(holds))
  }

  /** A flagged case accepts every result sequence; an unflagged one that does so
      either expects no error and counts only phony assertions as real. */
  lemma AcceptsEverythingExactly(assertions: seq<Assertion>)
    ensures AcceptsEverything(assertions) <==>
            && !AssertionsExpectError(assertions)
            && (forall a :: a in assertions && AssertionIsReal(a) ==> Phony(a))
    ensures IsFalsePassRisk("", assertions) ==> AcceptsEverything(assertions)
  {
    forall a: Assertion, holds: Leaf -> bool | a in assertions
      ensures !AssertionIsReal(a) || Phony(a) ==> AllHold(holds, EmitAssertion(a))
      ensures AssertionIsReal(a) && !Phony(a) && (forall l :: !holds(l)) ==> !AllHold(holds, EmitAssertion(a))
    {
      UnfailingExactly(a, holds);
    }
    forall holds: Leaf -> bool
      ensures AllHold(holds, EmitAssertions(assertions)) <==>
              forall a :: a in assertions ==> AllHold(holds, EmitAssertion(a))
    {
      AllHoldEmitted(holds, assertions);
    }
    if AcceptsEverything(assertions) {
      assert CheckResult(Compile(assertions), Result(Holding({})));
    }
  }

  /** No any-of has a composite alternative and no all-of an error. */
  predicate Plain(a: Assertion) {
    match a.kind
    case AllOf => forall c :: c in a.children ==> Plain(c) && !c.kind.Error?
    case AnyOf => forall c :: c in a.children ==> !c.kind.AllOf? && !c.kind.AnyOf?
    case _ => true
  }

  lemma {:induction false} PlainIsNotPhony(a: Assertion)
    requires Plain(a) && !a.kind.Error? && AssertionIsReal(a)
    ensures !Phony(a)
    decreases a
  {
    if a.kind.AllOf? {
      var c :| c in a.children && AssertionIsReal(c);
      PlainIsNotPhony(c);
    }
  }

  /** On such trees the flag is exact: a case that is run is flagged exactly when it
      accepts every result. */
  lemma FlagIsExactOnPlainTrees(assertions: seq<Assertion>)
    requires forall a :: a in assertions ==> Plain(a)
    ensures IsFalsePassRisk("", assertions) <==> AcceptsEverything(assertions)
  {
    AcceptsEverythingExactly(assertions);
    if AcceptsEverything(assertions) && HasRealAssertion(assertions) {
      var a :| a in assertions && AssertionIsReal(a);
      PlainIsNotPhony(a);
    }
  }

  function Composite(kind: Kind, child: Assertion): Assertion {
    Assertion(kind, "", "", false, [child])
  }

  /** The two ways past the flag: an all-of inside an any-of, and an error inside an
      all-of. Both cases count as real and accept every result. */
  lemma UnflaggedWithoutChecks(leaf: Assertion, error: Assertion)
    requires Supported(leaf.kind) && error.kind.Error?
    ensures !IsFalsePassRisk("", [Composite(AnyOf, Composite(AllOf, leaf))])
    ensures AcceptsEverything([Composite(AnyOf, Composite(AllOf, leaf))])
    ensures !IsFalsePassRisk("", [Composite(AllOf, error)])
    ensures AcceptsEverything([Composite(AllOf, error)])
  {
    var hidden, dropped := Composite(AnyOf, Composite(AllOf, leaf)), Composite(AllOf, error);
    assert leaf in Composite(AllOf, leaf).children && AssertionIsReal(Composite(AllOf, leaf));
    assert Composite(AllOf, leaf) in hidden.children && AssertionIsReal(hidden) && Phony(hidden);
    assert error in dropped.children && AssertionIsReal(dropped) && Phony(dropped);
    OneRoot(hidden);
    OneRoot(dropped);
  }

  lemma OneRoot(root: Assertion)
    requires root.kind.AllOf? || (root.kind.AnyOf? && !AllErrors(root.children))
    requires AssertionIsReal(root) && Phony(root)
    ensures !IsFalsePassRisk("", [root]) && AcceptsEverything([root])
  {
    assert root in [root];
    AcceptsEverythingExactly([root]);
  }

  // ----- the kinds of assertions -----

  /** The kinds that ask something of the result. */
  predicate AsksSomething(k: Kind) {
    match k
    case AssertEq | AssertStringValue | AssertTrue | AssertFalse | AssertEmpty | AssertCount
       | AssertType | AssertDeepEq | Assert | AssertXml | AssertPermutation => true
    case _ => false
  }

  predicate AsksNothing(k: Kind) {
    match k
    case AssertSerialization | AssertSerializationError | Unknown(_) => true
    case _ => false
  }

  /** A single assertion of the first kind, alone or as the one alternative of an any-of,
      is checked against its own kind and value, string values and fragments with their
      white-space option; it means just that, and counts as real. One of the second kind
      is not checked and does not count. */
  lemma KindsAreChecked(a: Assertion, holds: Leaf -> bool)
    ensures AsksSomething(a.kind) ==>
              var leaf := Leaf(a.kind, a.value, (a.kind == AssertStringValue || a.kind == AssertXml) && a.normalizeSpace);
              && (CheckResult(Compile([a]), Result(holds)) <==> holds(leaf))
              && (CheckResult(Compile([Composite(AnyOf, a)]), Result(holds)) <==> holds(leaf))
              && (Accepts(a, Result(holds)) <==> holds(leaf))
              && AssertionIsReal(a)
    ensures AsksNothing(a.kind) ==>
              && CheckResult(Compile([a]), Result(holds))
              && CheckResult(Compile([Composite(AnyOf, a)]), Result(holds))
              && !AssertionIsReal(a)
    ensures !CheckResult(Compile([a]), Raised) || a.kind == Error || a.kind == AnyOf
  {
    EmittedMeaning(a, holds);
    EmittedMeaning(Composite(AnyOf, a), holds);
    CompiledRoot(a, holds);
    CompiledRoot(Composite(AnyOf, a), holds);
    assert a in [a];
  }
}
