/** Dependency discovery for XSLT test stylesheets: two mutually recursive walks, one
    over stylesheets and one over schemas, sharing one visited set and one result. */
module StylesheetDeps {
  import opened Common
  import opened Text

  datatype Attr = Attr(local: string, value: string)

  datatype Element = Element(space: string, local: string, attrs: seq<Attr>)

  /** The source directory. A readable file is given, under its absolute path, by the
      start elements that decode before the end of the file or the first error. */
  datatype Source = Source(
    files: map<string, seq<Element>>,
    abs: string -> string,                          // filepath.Abs
    resolve: (string, string) -> Option<string>,    // resolveDep(root, filepath.Dir(file), ref)
    rel: string -> Option<string>)                  // filepath.Rel(root, dep), with slashes

  const XSLT := "http://www.w3.org/1999/XSL/Transform"
  const XSD := "http://www.w3.org/2001/XMLSchema"

  datatype Mode = Style | Schema

  /** A reference found in a file: to be followed in a mode, or only listed. */
  datatype Ref = Follow(target: string, mode: Mode) | Data(target: string)

  predicate IsXslt(e: Element) {
    e.space == "" || e.space == XSLT
  }

  predicate IsXsd(e: Element) {
    e.space == "" || e.space == XSD
  }

  /** How an element refers to other files: the attribute that names them, whether an
      empty value counts, and what is done with the file. */
  datatype Kind = ByHref | BySchemaLocationOfXslt | BySchemaLocation | BySourceDocument | NoReference

  function StyleKind(e: Element): Kind {
    if IsXslt(e) && (e.local == "import" || e.local == "include") then ByHref
    else if IsXslt(e) && e.local == "import-schema" then BySchemaLocationOfXslt
    else if IsXsd(e) && (e.local == "include" || e.local == "import") then BySchemaLocation
    else if IsXslt(e) && e.local == "source-document" then BySourceDocument
    else NoReference
  }

  function SchemaKind(e: Element): Kind {
    if e.local != "include" && e.local != "import" then NoReference else BySchemaLocation
  }

  function AttrRefs(s: Source, file: string, kind: Kind, a: Attr): seq<Ref> {
    match kind
    case ByHref =>
      if a.local == "href" then Made(s.resolve(file, a.value), Some(Style)) else []
    case BySchemaLocationOfXslt =>
      if a.local == "schema-location" && a.value != "" then Made(s.resolve(file, a.value), Some(Schema)) else []
    case BySchemaLocation =>
      if a.local == "schemaLocation" && a.value != "" then Made(s.resolve(file, a.value), Some(Schema)) else []
    case BySourceDocument =>
      if a.local == "href" && a.value != "" && '{' !in a.value
      then Made(s.resolve(file, Before(a.value, '#')), None) else []
    case NoReference => []
  }

  function Made(target: Option<string>, mode: Option<Mode>): seq<Ref> {
    if target.None? then []
    else if mode.None? then [Data(target.value)]
    else [Follow(target.value, mode.value)]
  }

  function AttrsRefs(s: Source, file: string, kind: Kind, attrs: seq<Attr>): seq<Ref> {
    if attrs == [] then []
    else AttrRefs(s, file, kind, attrs[0]) + AttrsRefs(s, file, kind, attrs[1..])
  }

  function ElementsRefs(s: Source, file: string, mode: Mode, elements: seq<Element>): seq<Ref> {
    if elements == [] then []
    else
      var e := elements[0];
      AttrsRefs(s, file, if mode.Style? then StyleKind(e) else SchemaKind(e), e.attrs)
      + ElementsRefs(s, file, mode, elements[1..])
  }

  /** The references of a file scanned in a mode, in document order. */
  function FileRefs(s: Source, n: Node): seq<Ref> {
    if n.path in s.files then ElementsRefs(s, n.path, n.mode, s.files[n.path]) else []
  }

  // ----- the walk as a stack machine -----

  /** A file together with the mode it is scanned in. */
  datatype Node = Node(path: string, mode: Mode)

  /** `scans` lists the visited files in visiting order, `result` the dependencies. */
  datatype State = State(scans: seq<Node>, result: seq<string>)

  function Paths(scans: seq<Node>): set<string> {
    set n | n in scans :: n.path
  }

  function Remaining(s: Source, st: State): set<string> {
    s.files.Keys - Paths(st.scans)
  }

  lemma FewerRemain(s: Source, st: State, n: Node)
    ensures Remaining(s, st.(scans := st.scans + [n])) <= Remaining(s, st)
    ensures n.path in s.files && n.path !in Paths(st.scans) ==>
            Remaining(s, st.(scans := st.scans + [n])) < Remaining(s, st)
  {
    assert Paths(st.scans + [n]) == Paths(st.scans) + {n.path};
    if n.path in s.files && n.path !in Paths(st.scans) {
      assert n.path in Remaining(s, st) && n.path !in Remaining(s, st.(scans := st.scans + [n]));
    }
  }

  /** Works off a stack of references: each is listed, and a followed file not yet
      visited has its own references put on top. */
  function Run(s: Source, work: seq<Ref>, st: State): State
    decreases Remaining(s, st), |work|
  {
    if work == [] then st
    else
      var st1 := st.(result := st.result + [work[0].target]);
      if work[0].Data? then Run(s, work[1..], st1)
      else
        var n := Node(s.abs(work[0].target), work[0].mode);
        if n.path in Paths(st.scans) then Run(s, work[1..], st1)
        else
          FewerRemain(s, st, n);
          Run(s, FileRefs(s, n) + work[1..], st1.(scans := st1.scans + [n]))
  }

  /** Visits one file: scans it unless it was visited before. */
  function Visit(s: Source, n: Node, st: State): State {
    if n.path in Paths(st.scans) then st else Run(s, FileRefs(s, n), st.(scans := st.scans + [n]))
  }

  lemma {:induction false} RunAppend(s: Source, a: seq<Ref>, b: seq<Ref>, st: State)
    ensures Run(s, a + b, st) == Run(s, b, Run(s, a, st))
    decreases Remaining(s, st), |a|
  {
    if a == [] {
      assert a + b == b;
    } else {
      assert (a + b)[1..] == a[1..] + b;
      var st1 := st.(result := st.result + [a[0].target]);
      if a[0].Data? {
        RunAppend(s, a[1..], b, st1);
      } else {
        var n := Node(s.abs(a[0].target), a[0].mode);
        if n.path in Paths(st.scans) {
          RunAppend(s, a[1..], b, st1);
        } else {
          FewerRemain(s, st, n);
          assert (FileRefs(s, n) + a[1..]) + b == FileRefs(s, n) + (a[1..] + b);
          RunAppend(s, FileRefs(s, n) + a[1..], b, st1.(scans := st1.scans + [n]));
        }
      }
    }
  }

  lemma {:induction false} RunGrows(s: Source, work: seq<Ref>, st: State)
    ensures st.scans <= Run(s, work, st).scans && st.result <= Run(s, work, st).result
    decreases Remaining(s, st), |work|
  {
    if work != [] {
      var st1 := st.(result := st.result + [work[0].target]);
      if work[0].Data? {
        RunGrows(s, work[1..], st1);
      } else {
        var n := Node(s.abs(work[0].target), work[0].mode);
        if n.path in Paths(st.scans) {
          RunGrows(s, work[1..], st1);
        } else {
          FewerRemain(s, st, n);
          RunGrows(s, FileRefs(s, n) + work[1..], st1.(scans := st1.scans + [n]));
        }
      }
    }
  }

  lemma RunOne(s: Source, ref: Ref, st: State)
    ensures Run(s, [ref], st) ==
            var st1 := st.(result := st.result + [ref.target]);
            if ref.Data? then st1 else Visit(s, Node(s.abs(ref.target), ref.mode), st1)
  {
    assert [ref][1..] == [];
    if ref.Follow? {
      var n := Node(s.abs(ref.target), ref.mode);
      assert FileRefs(s, n) + [] == FileRefs(s, n);
    }
  }

  lemma RunNothing(s: Source, st: State)
    ensures Run(s, [], st) == st
  {}

  lemma NoAttrs(s: Source, file: string, kind: Kind, rest: seq<Ref>)
    ensures AttrsRefs(s, file, kind, []) + rest == rest
  {}

  lemma AtMostOne(s: Source, file: string, kind: Kind, a: Attr)
    ensures |AttrRefs(s, file, kind, a)| <= 1
  {}

  lemma AttrsStep(s: Source, file: string, kind: Kind, attrs: seq<Attr>, j: nat, rest: seq<Ref>, st: State)
    requires j < |attrs|
    ensures Run(s, AttrsRefs(s, file, kind, attrs[j..]) + rest, st)
         == Run(s, AttrsRefs(s, file, kind, attrs[j + 1..]) + rest, Run(s, AttrRefs(s, file, kind, attrs[j]), st))
  {
    hide Run, AttrRefs;
    var refs, later := AttrRefs(s, file, kind, attrs[j]), AttrsRefs(s, file, kind, attrs[j + 1..]);
    assert attrs[j..][1..] == attrs[j + 1..];
    assert (refs + later) + rest == refs + (later + rest);
    RunAppend(s, refs, later + rest, st);
  }

  // ----- the walks as they run -----

  class Walk {
    var visited: set<string>
    var result: seq<string>
    ghost var scans: seq<Node>

    ghost predicate Valid()
      reads this
    {
      visited == Paths(scans)
    }

    ghost function Now(): State
      reads this
    {
      State(scans, result)
    }

    constructor ()
      ensures Valid() && Now() == State([], [])
    {
      visited, result, scans := {}, [], [];
    }

    method CollectDepsRecursive(s: Source, xslPath: string)
      requires Valid()
      modifies this
      ensures Valid() && Now() == Visit(s, Node(s.abs(xslPath), Style), old(Now()))
      ensures old(visited) <= visited
      decreases s.files.Keys - visited, 2
    {
      var absPath := s.abs(xslPath);
      if absPath in visited {
        return;
      }
      visited := visited + {absPath};
      scans := scans + [Node(absPath, Style)];
      if absPath !in s.files {
        return;
      }
      ghost var start, marked := Now(), visited;
      var elements := s.files[absPath];
      ghost var all := Run(s, ElementsRefs(s, absPath, Style, elements), start);
      assert Visit(s, Node(absPath, Style), old(Now())) == all;
      hide Run, Visit, AttrRefs, AttrsRefs, StyleKind;
      for k := 0 to |elements|
        invariant Valid() && marked <= visited
        invariant Run(s, ElementsRefs(s, absPath, Style, elements[k..]), Now()) == all
      {
        var kind, attrs := StyleKind(elements[k]), elements[k].attrs;
        ghost var rest := ElementsRefs(s, absPath, Style, elements[k + 1..]);
        assert elements[k..][1..] == elements[k + 1..] && attrs[0..] == attrs;
        for j := 0 to |attrs|
          invariant Valid() && marked <= visited
          invariant Run(s, AttrsRefs(s, absPath, kind, attrs[j..]) + rest, Now()) == all
        {
          AttrsStep(s, absPath, kind, attrs, j, rest, Now());
          AtMostOne(s, absPath, kind, attrs[j]);
          Record(s, AttrRefs(s, absPath, kind, attrs[j]));
        }
        NoAttrs(s, absPath, kind, rest);
      }
      RunNothing(s, Now());
    }

    method CollectSchemaDeps(s: Source, xsdPath: string)
      requires Valid()
      modifies this
      ensures Valid() && Now() == Visit(s, Node(s.abs(xsdPath), Schema), old(Now()))
      ensures old(visited) <= visited
      decreases s.files.Keys - visited, 2
    {
      var absPath := s.abs(xsdPath);
      if absPath in visited {
        return;
      }
      visited := visited + {absPath};
      scans := scans + [Node(absPath, Schema)];
      if absPath !in s.files {
        return;
      }
      ghost var start, marked := Now(), visited;
      var elements := s.files[absPath];
      ghost var all := Run(s, ElementsRefs(s, absPath, Schema, elements), start);
      assert Visit(s, Node(absPath, Schema), old(Now())) == all;
      hide Run, Visit, AttrRefs, AttrsRefs, SchemaKind;
      for k := 0 to |elements|
        invariant Valid() && marked <= visited
        invariant Run(s, ElementsRefs(s, absPath, Schema, elements[k..]), Now()) == all
      {
        var kind, attrs := SchemaKind(elements[k]), elements[k].attrs;
        ghost var rest := ElementsRefs(s, absPath, Schema, elements[k + 1..]);
        assert elements[k..][1..] == elements[k + 1..] && attrs[0..] == attrs;
        for j := 0 to |attrs|
          invariant Valid() && marked <= visited
          invariant Run(s, AttrsRefs(s, absPath, kind, attrs[j..]) + rest, Now()) == all
        {
          AttrsStep(s, absPath, kind, attrs, j, rest, Now());
          AtMostOne(s, absPath, kind, attrs[j]);
          Record(s, AttrRefs(s, absPath, kind, attrs[j]));
        }
        NoAttrs(s, absPath, kind, rest);
      }
      RunNothing(s, Now());
    }

    /** Lists the reference an attribute makes, if any, and follows it. */
    method Record(s: Source, refs: seq<Ref>)
      requires Valid() && |refs| <= 1
      modifies this
      ensures Valid() && Now() == Run(s, refs, old(Now()))
      ensures old(visited) <= visited
      decreases s.files.Keys - visited, 3
    {
      if |refs| == 0 {
        return;
      }
      var ref := refs[0];
      RunOne(s, ref, Now());
      assert refs == [ref];
      result := result + [ref.target];
      match ref
      case Data(_) =>
      case Follow(target, Style) =>
        CollectDepsRecursive(s, target);
      case Follow(target, Schema) =>
        CollectSchemaDeps(s, target);
    }
  }

  /** What collectTransitiveDeps starts: a walk from one stylesheet. */
  function Deps(s: Source, xslPath: string): State {
    Visit(s, Node(s.abs(xslPath), Style), State([], []))
  }

  method CollectTransitiveDeps(s: Source, xslPath: string) returns (result: seq<string>)
    ensures result == Deps(s, xslPath).result
  {
    var walk := new Walk();
    walk.CollectDepsRecursive(s, xslPath);
    return walk.result;
  }

  function RelativeDeps(s: Source, deps: seq<string>): set<string> {
    set d | d in deps && s.rel(d).Some? :: s.rel(d).value
  }

  method AddTransitiveDeps(s: Source, assetFiles0: set<string>, absPath: string) returns (assetFiles: set<string>)
    ensures assetFiles == assetFiles0 + RelativeDeps(s, Deps(s, absPath).result)
    ensures forall d :: d in Deps(s, absPath).result && s.rel(d).Some? ==> s.rel(d).value in assetFiles
    ensures forall p :: p in assetFiles ==>
              p in assetFiles0 || exists d :: d in Deps(s, absPath).result && s.rel(d) == Some(p)
  {
    assetFiles := assetFiles0;
    var deps := CollectTransitiveDeps(s, absPath);
    for k := 0 to |deps|
      invariant assetFiles == assetFiles0 + RelativeDeps(s, deps[..k])
    {
      assert deps[..k + 1] == deps[..k] + [deps[k]];
      var relDep := s.rel(deps[k]);
      if relDep.Some? {
        assetFiles := assetFiles + {relDep.value};
      }
    }
    assert deps[..|deps|] == deps;
  }

  // ----- every reference of a scanned file is listed, exactly once -----

  function Targets(refs: seq<Ref>): seq<string> {
    seq(|refs|, i requires 0 <= i < |refs| => refs[i].target)
  }

  /** The targets of all references of the scanned files, file by file. */
  function Listed(s: Source, scans: seq<Node>): seq<string> {
    if scans == [] then []
    else Listed(s, scans[..|scans| - 1]) + Targets(FileRefs(s, scans[|scans| - 1]))
  }

  ghost predicate DistinctPaths(scans: seq<Node>) {
    forall i, j :: 0 <= i < j < |scans| ==> scans[i].path != scans[j].path
  }

  /** File `b` is followed, in its mode, from file `a` scanned in its mode. */
  ghost predicate Refers(s: Source, a: Node, b: Node) {
    exists r :: r in FileRefs(s, a) && r.Follow? && b == NodeOf(s, r)
  }

  function NodeOf(s: Source, r: Ref): Node
    requires r.Follow?
  {
    Node(s.abs(r.target), r.mode)
  }

  ghost predicate IsChain(s: Source, root: Node, chain: seq<Node>) {
    |chain| > 0 && chain[0] == root && forall i :: 0 < i < |chain| ==> Refers(s, chain[i - 1], chain[i])
  }

  ghost predicate Reachable(s: Source, root: Node, n: Node) {
    exists chain :: IsChain(s, root, chain) && chain[|chain| - 1] == n
  }

  lemma ReachableNext(s: Source, root: Node, a: Node, b: Node)
    requires Reachable(s, root, a) && Refers(s, a, b)
    ensures Reachable(s, root, b)
  {
    hide Refers;
    var chain :| IsChain(s, root, chain) && chain[|chain| - 1] == a;
    assert IsChain(s, root, chain + [b]);
  }

  // ----- what a walk keeps at every step -----

  /** What was listed and what is still on the stack are together exactly the
      references of the scanned files. */
  ghost predicate Balanced(s: Source, work: seq<Ref>, st: State) {
    multiset(st.result) + multiset(Targets(work)) == multiset(Listed(s, st.scans))
  }

  /** Every followed reference of a scanned file is visited or still on the stack. */
  ghost predicate Pending(s: Source, work: seq<Ref>, scans: seq<Node>) {
    forall n, r :: n in scans && r in FileRefs(s, n) && r.Follow? ==> r in work || s.abs(r.target) in Paths(scans)
  }

  /** Nothing is visited or about to be that the root does not lead to. */
  ghost predicate Sound(s: Source, root: Node, work: seq<Ref>, scans: seq<Node>) {
    && (forall n :: n in scans ==> Reachable(s, root, n))
    && (forall r :: r in work && r.Follow? ==> Reachable(s, root, NodeOf(s, r)))
  }

  ghost predicate Kept(s: Source, root: Node, work: seq<Ref>, st: State) {
    && Balanced(s, work, st)
    && DistinctPaths(st.scans)
    && Pending(s, work, st.scans)
    && Sound(s, root, work, st.scans)
  }

  lemma KeptListing(s: Source, root: Node, work: seq<Ref>, st: State)
    requires |work| > 0 && Kept(s, root, work, st)
    requires work[0].Follow? ==> s.abs(work[0].target) in Paths(st.scans)
    ensures Kept(s, root, work[1..], st.(result := st.result + [work[0].target]))
  {
    hide FileRefs, Listed, DistinctPaths, Reachable;
    assert Targets(work) == [work[0].target] + Targets(work[1..]);
    assert work == [work[0]] + work[1..];
  }

  lemma BalancedScanning(s: Source, work: seq<Ref>, st: State, n: Node)
    requires |work| > 0 && Balanced(s, work, st)
    ensures Balanced(s, FileRefs(s, n) + work[1..], State(st.scans + [n], st.result + [work[0].target]))
  {
    hide FileRefs;
    var refs := FileRefs(s, n);
    assert Targets(work) == [work[0].target] + Targets(work[1..]);
    assert Targets(refs + work[1..]) == Targets(refs) + Targets(work[1..]);
    assert (st.scans + [n])[..|st.scans|] == st.scans;
  }

  lemma KeptScanning(s: Source, root: Node, work: seq<Ref>, st: State, n: Node)
    requires |work| > 0 && Kept(s, root, work, st)
    requires work[0].Follow? && n == NodeOf(s, work[0]) && n.path !in Paths(st.scans)
    ensures Kept(s, root, FileRefs(s, n) + work[1..], State(st.scans + [n], st.result + [work[0].target]))
  {
    hide Balanced, FileRefs;
    BalancedScanning(s, work, st, n);
    assert Paths(st.scans + [n]) == Paths(st.scans) + {n.path};
    assert work == [work[0]] + work[1..];
    assert DistinctPaths(st.scans + [n]) by {
      assert forall i :: 0 <= i < |st.scans| ==> st.scans[i].path in Paths(st.scans);
    }
    forall r | r in FileRefs(s, n) && r.Follow?
      ensures Reachable(s, root, NodeOf(s, r))
    {
      ReachableNext(s, root, n, NodeOf(s, r));
    }
  }

  lemma {:induction false} RunKeeps(s: Source, root: Node, work: seq<Ref>, st: State)
    requires Kept(s, root, work, st)
    ensures Kept(s, root, [], Run(s, work, st))
    decreases Remaining(s, st), |work|
  {
    hide Kept, FileRefs;
    if work != [] {
      var st1 := st.(result := st.result + [work[0].target]);
      if work[0].Data? || s.abs(work[0].target) in Paths(st.scans) {
        KeptListing(s, root, work, st);
        RunKeeps(s, root, work[1..], st1);
      } else {
        var n := NodeOf(s, work[0]);
        var st2 := State(st.scans + [n], st1.result);
        FewerRemain(s, st, n);
        KeptScanning(s, root, work, st, n);
        NothingToScan(s, n);
        assert Remaining(s, st2) == Remaining(s, st.(scans := st.scans + [n]));
        RunKeeps(s, root, FileRefs(s, n) + work[1..], st2);
      }
    }
  }

  lemma NothingToScan(s: Source, n: Node)
    ensures n.path !in s.files ==> FileRefs(s, n) == []
  {}

  // ----- the main results -----

  /** No file is scanned twice. The result holds exactly the references of the scanned
      files, each as often as it occurs. Every followed reference is visited. Every
      scanned file is reachable from the root in the mode it is scanned in. */
  lemma DepsAreTheReferencesOfScannedFiles(s: Source, xslPath: string)
    ensures var root, st := Node(s.abs(xslPath), Style), Deps(s, xslPath);
            && root in st.scans
            && DistinctPaths(st.scans)
            && multiset(st.result) == multiset(Listed(s, st.scans))
            && Pending(s, [], st.scans)
            && (forall n :: n in st.scans ==> Reachable(s, root, n))
  {
    var root := Node(s.abs(xslPath), Style);
    assert Kept(s, root, FileRefs(s, root), State([root], [])) by {
      assert [root][..0] == [] && Listed(s, [root]) == [] + Targets(FileRefs(s, root));
      assert IsChain(s, root, [root]);
      forall r | r in FileRefs(s, root) && r.Follow?
        ensures Reachable(s, root, NodeOf(s, r))
      {
        ReachableNext(s, root, root, NodeOf(s, r));
      }
    }
    hide FileRefs;
    assert [] + [root] == [root];
    RunKeeps(s, root, FileRefs(s, root), State([root], []));
    RunGrows(s, FileRefs(s, root), State([root], []));
    var st := Deps(s, xslPath);
    assert Targets([]) == [];
    assert st.scans[0] == root;
  }

  ghost predicate ModesAgree(s: Source, root: Node) {
    forall a, b :: Reachable(s, root, a) && Reachable(s, root, b) && a.path == b.path ==> a.mode == b.mode
  }

  /** The walk scans every reachable file in every mode it is reachable in exactly when
      no file is reachable in both modes; one that is, is scanned in one of them only. */
  lemma EverythingScannedExactlyWhenModesAgree(s: Source, xslPath: string)
    ensures var root := Node(s.abs(xslPath), Style);
            (forall n :: Reachable(s, root, n) ==> n in Deps(s, xslPath).scans) <==> ModesAgree(s, root)
  {
    hide Deps, IsChain, Pending, Listed, DistinctPaths, Reachable, FileRefs;
    var root, scans := Node(s.abs(xslPath), Style), Deps(s, xslPath).scans;
    DepsAreTheReferencesOfScannedFiles(s, xslPath);
    OneModePerFile(scans);
    if ModesAgree(s, root) {
      forall n | Reachable(s, root, n)
        ensures n in scans
      {
        ReachableIsScanned(s, root, scans, n);
      }
    }
  }

  lemma OneModePerFile(scans: seq<Node>)
    requires DistinctPaths(scans)
    ensures forall a, b :: a in scans && b in scans && a.path == b.path ==> a == b
  {}

  lemma ReachableIsScanned(s: Source, root: Node, scans: seq<Node>, n: Node)
    requires ModesAgree(s, root) && root in scans && Pending(s, [], scans)
    requires forall m :: m in scans ==> Reachable(s, root, m)
    requires Reachable(s, root, n)
    ensures n in scans
  {
    var chain :| IsChain(s, root, chain) && chain[|chain| - 1] == n;
    ChainIsScanned(s, root, scans, chain, |chain| - 1);
  }

  lemma {:induction false} ChainIsScanned(s: Source, root: Node, scans: seq<Node>, chain: seq<Node>, k: nat)
    requires ModesAgree(s, root) && root in scans && Pending(s, [], scans)
    requires forall n :: n in scans ==> Reachable(s, root, n)
    requires IsChain(s, root, chain) && k < |chain|
    ensures chain[k] in scans
  {
    hide FileRefs;
    if k > 0 {
      ChainIsScanned(s, root, scans, chain, k - 1);
      assert Refers(s, chain[k - 1], chain[k]);
      assert chain[k].path in Paths(scans);
      var n :| n in scans && n.path == chain[k].path;
      ReachableNext(s, root, chain[k - 1], chain[k]);
      assert n.mode == chain[k].mode;
    }
  }

  // ----- when the result is complete -----

  ghost predicate Names(s: Source, n: Node, t: string) {
    exists r :: r in FileRefs(s, n) && r.target == t
  }

  /** Some reachable file refers to `t` in a mode it is reachable in. */
  ghost predicate Needed(s: Source, root: Node, t: string) {
    exists n :: Reachable(s, root, n) && Names(s, n, t)
  }

  /** Every target of one list is a target of the other, and followed if it is. */
  ghost predicate Covers(xs: seq<Ref>, ys: seq<Ref>) {
    forall r :: r in xs ==> exists q :: q in ys && q.target == r.target && (r.Follow? ==> q.Follow?)
  }

  /** A file reachable in both modes refers to the same files in both. */
  ghost predicate TargetsAgree(s: Source, root: Node) {
    forall a, b :: Reachable(s, root, a) && Reachable(s, root, b) && a.path == b.path ==>
      Covers(FileRefs(s, a), FileRefs(s, b))
  }

  lemma {:induction false} ListedAreNamed(s: Source, scans: seq<Node>, t: string)
    ensures t in Listed(s, scans) <==> exists n :: n in scans && Names(s, n, t)
  {
    if scans != [] {
      var front, last := scans[..|scans| - 1], scans[|scans| - 1];
      var refs := FileRefs(s, last);
      ListedAreNamed(s, front, t);
      assert scans == front + [last];
      assert t in Targets(refs) <==> Names(s, last, t) by {
        if t in Targets(refs) {
          var i :| 0 <= i < |refs| && Targets(refs)[i] == t;
          assert refs[i] in refs;
        }
        if r :| r in refs && r.target == t {
          var i :| 0 <= i < |refs| && refs[i] == r;
          assert Targets(refs)[i] == t;
        }
      }
    }
  }

  lemma ResultIsNamed(s: Source, xslPath: string, t: string)
    ensures t in Deps(s, xslPath).result <==> exists n :: n in Deps(s, xslPath).scans && Names(s, n, t)
  {
    hide Deps, Listed, Names;
    var st := Deps(s, xslPath);
    DepsAreTheReferencesOfScannedFiles(s, xslPath);
    ListedAreNamed(s, st.scans, t);
    assert t in st.result <==> t in multiset(st.result);
    assert t in Listed(s, st.scans) <==> t in multiset(Listed(s, st.scans));
  }

  /** Nothing is in the result that no reachable file refers to. */
  lemma OnlyNeededIsListed(s: Source, xslPath: string, t: string)
    requires t in Deps(s, xslPath).result
    ensures Needed(s, Node(s.abs(xslPath), Style), t)
  {
    hide Deps, Names;
    DepsAreTheReferencesOfScannedFiles(s, xslPath);
    ResultIsNamed(s, xslPath, t);
  }

  /** If files reachable in both modes refer to the same files in both, in particular if
      there are none, the result is exactly what reachable files refer to. */
  lemma ResultIsWhatIsNeeded(s: Source, xslPath: string)
    ensures var root := Node(s.abs(xslPath), Style);
            && (ModesAgree(s, root) ==> TargetsAgree(s, root))
            && (TargetsAgree(s, root) ==> forall t :: t in Deps(s, xslPath).result <==> Needed(s, root, t))
  {
    hide Deps, FileRefs, Reachable, Listed;
    var root, st := Node(s.abs(xslPath), Style), Deps(s, xslPath);
    DepsAreTheReferencesOfScannedFiles(s, xslPath);
    if ModesAgree(s, root) {
      forall a, b | Reachable(s, root, a) && Reachable(s, root, b) && a.path == b.path
        ensures Covers(FileRefs(s, a), FileRefs(s, b))
      {
        assert a == b;
      }
    }
    if TargetsAgree(s, root) {
      forall t ensures t in st.result <==> Needed(s, root, t) {
        ResultIsNamed(s, xslPath, t);
        if n :| Reachable(s, root, n) && Names(s, n, t) {
          SomeModeIsScanned(s, root, st.scans, n);
        }
      }
    }
  }

  /** Under that condition every reachable file is scanned in some mode, which names
      all its targets. */
  lemma SomeModeIsScanned(s: Source, root: Node, scans: seq<Node>, n: Node)
    requires TargetsAgree(s, root) && root in scans && Pending(s, [], scans)
    requires forall m :: m in scans ==> Reachable(s, root, m)
    requires Reachable(s, root, n)
    ensures exists m :: m in scans && m.path == n.path
    ensures forall t :: Names(s, n, t) ==> exists m :: m in scans && Names(s, m, t)
  {
    hide FileRefs;
    var chain :| IsChain(s, root, chain) && chain[|chain| - 1] == n;
    PathIsScanned(s, root, scans, chain, |chain| - 1);
    var m :| m in scans && m.path == n.path;
    assert Covers(FileRefs(s, n), FileRefs(s, m));
    forall t | Names(s, n, t) ensures Names(s, m, t) {}
  }

  lemma {:induction false} PathIsScanned(s: Source, root: Node, scans: seq<Node>, chain: seq<Node>, k: nat)
    requires TargetsAgree(s, root) && root in scans && Pending(s, [], scans)
    requires forall m :: m in scans ==> Reachable(s, root, m)
    requires IsChain(s, root, chain) && k < |chain|
    ensures chain[k].path in Paths(scans) && Reachable(s, root, chain[k])
  {
    hide FileRefs, Reachable, Refers, Covers, Pending;
    if k == 0 {
      RootIsReachable(s, root);
    } else {
      PathIsScanned(s, root, scans, chain, k - 1);
      ReachableNext(s, root, chain[k - 1], chain[k]);
      var m :| m in scans && m.path == chain[k - 1].path;
      CoveredIsScanned(s, scans, chain[k - 1], m, chain[k]);
    }
  }

  lemma RootIsReachable(s: Source, root: Node)
    ensures Reachable(s, root, root)
  {
    assert IsChain(s, root, [root]);
  }

  lemma CoveredIsScanned(s: Source, scans: seq<Node>, a: Node, m: Node, b: Node)
    requires m in scans && Pending(s, [], scans) && Refers(s, a, b) && Covers(FileRefs(s, a), FileRefs(s, m))
    ensures b.path in Paths(scans)
  {
    hide FileRefs;
    var r :| r in FileRefs(s, a) && r.Follow? && b == NodeOf(s, r);
    var q :| q in FileRefs(s, m) && q.target == r.target && q.Follow?;
  }

  // ----- what a reference is -----

  predicate InXslt(e: Element) {
    e.space == "" || e.space == "http://www.w3.org/1999/XSL/Transform"
  }

  /** What attribute `a` of element `e` refers to when `n` is scanned: an import or
      include of a stylesheet is followed as a stylesheet, an imported, included or
      schema-imported schema as a schema; a source document is only listed, without the
      part of its name behind a number sign. A stylesheet element in no namespace that
      could be either is an import or include of a stylesheet. */
  ghost predicate Makes(s: Source, n: Node, e: Element, a: Attr, r: Ref) {
    match n.mode
    case Style =>
      || (InXslt(e) && (e.local == "import" || e.local == "include") && a.local == "href"
          && s.resolve(n.path, a.value) == Some(r.target) && r == Follow(r.target, Style))
      || (InXslt(e) && e.local == "import-schema" && a.local == "schema-location" && a.value != ""
          && s.resolve(n.path, a.value) == Some(r.target) && r == Follow(r.target, Schema))
      || (e.space == "http://www.w3.org/2001/XMLSchema" && (e.local == "import" || e.local == "include")
          && a.local == "schemaLocation" && a.value != ""
          && s.resolve(n.path, a.value) == Some(r.target) && r == Follow(r.target, Schema))
      || (InXslt(e) && e.local == "source-document" && a.local == "href" && a.value != "" && '{' !in a.value
          && r == Data(r.target)
          && exists k :: IsCutAt(a.value, k) && s.resolve(n.path, a.value[..k]) == Some(r.target))
    case Schema =>
      && (e.local == "import" || e.local == "include") && a.local == "schemaLocation" && a.value != ""
      && s.resolve(n.path, a.value) == Some(r.target) && r == Follow(r.target, Schema)
  }

  /** Index `k` is that of the first number sign, or the end if there is none. */
  predicate IsCutAt(value: string, k: int) {
    0 <= k <= |value| && '#' !in value[..k] && (k == |value| || value[k] == '#')
  }

  ghost predicate MadeIn(s: Source, n: Node, r: Ref) {
    n.path in s.files && exists e, a :: e in s.files[n.path] && a in e.attrs && Makes(s, n, e, a, r)
  }

  lemma CutIsBefore(value: string, k: int)
    requires IsCutAt(value, k)
    ensures value[..k] == Before(value, '#')
  {
    BeforeAppends(value[..k], value[k..], '#');
    assert value[..k] + value[k..] == value;
    assert k < |value| ==> value[k..][0] == '#';
    assert value[..k] + "" == value[..k];
  }

  lemma BeforeIsCut(value: string)
    ensures IsCutAt(value, |Before(value, '#')|) && value[..|Before(value, '#')|] == Before(value, '#')
  {
    BeforeIsPrefix(value, '#');
  }

  function KindIn(mode: Mode, e: Element): Kind {
    if mode.Style? then StyleKind(e) else SchemaKind(e)
  }

  lemma AttrMakes(s: Source, n: Node, e: Element, a: Attr, r: Ref)
    ensures r in AttrRefs(s, n.path, KindIn(n.mode, e), a) <==> Makes(s, n, e, a, r)
  {
    var k := |Before(a.value, '#')|;
    BeforeIsCut(a.value);
    forall j | IsCutAt(a.value, j) ensures a.value[..j] == Before(a.value, '#') {
      CutIsBefore(a.value, j);
    }
    hide Before, IsCutAt;
  }

  lemma {:induction false} AttrsMake(s: Source, file: string, kind: Kind, attrs: seq<Attr>, r: Ref)
    ensures r in AttrsRefs(s, file, kind, attrs) <==> exists a :: a in attrs && r in AttrRefs(s, file, kind, a)
  {
    hide AttrRefs;
    if attrs != [] {
      AttrsMake(s, file, kind, attrs[1..], r);
      assert attrs == [attrs[0]] + attrs[1..];
    }
  }

  ghost predicate MakesSome(s: Source, n: Node, e: Element, r: Ref) {
    exists a :: a in e.attrs && Makes(s, n, e, a, r)
  }

  lemma ElementMakes(s: Source, n: Node, e: Element, r: Ref)
    ensures r in AttrsRefs(s, n.path, KindIn(n.mode, e), e.attrs) <==> MakesSome(s, n, e, r)
  {
    hide AttrRefs, AttrsRefs, Makes, KindIn;
    AttrsMake(s, n.path, KindIn(n.mode, e), e.attrs, r);
    forall a ensures r in AttrRefs(s, n.path, KindIn(n.mode, e), a) <==> Makes(s, n, e, a, r) {
      AttrMakes(s, n, e, a, r);
    }
  }

  lemma {:induction false} ElementsMake(s: Source, n: Node, elements: seq<Element>, r: Ref)
    ensures r in ElementsRefs(s, n.path, n.mode, elements) <==> exists e :: e in elements && MakesSome(s, n, e, r)
  {
    hide AttrsRefs, MakesSome, StyleKind, SchemaKind;
    if elements != [] {
      ElementMakes(s, n, elements[0], r);
      ElementsMake(s, n, elements[1..], r);
      assert elements == [elements[0]] + elements[1..];
    }
  }

  /** The references of a file are those its elements and attributes make, and no
      others. */
  lemma ReferencesExactly(s: Source, n: Node, r: Ref)
    ensures r in FileRefs(s, n) <==> MadeIn(s, n, r)
  {
    hide ElementsRefs, Makes;
    if n.path in s.files {
      ElementsMake(s, n, s.files[n.path], r);
    }
  }

  /** Of a scanned file every reference made is listed, and one to be followed is visited
      and reached, in its mode, from the file. */
  lemma MadeReferencesAreListed(s: Source, xslPath: string, n: Node, e: Element, a: Attr, r: Ref)
    requires n in Deps(s, xslPath).scans && n.path in s.files && e in s.files[n.path] && a in e.attrs
    requires Makes(s, n, e, a, r)
    ensures r.target in Deps(s, xslPath).result
    ensures r.Follow? ==> s.abs(r.target) in Paths(Deps(s, xslPath).scans) && Refers(s, n, Node(s.abs(r.target), r.mode))
  {
    hide Deps, FileRefs, Makes, Listed, Reachable, DistinctPaths;
    assert MadeIn(s, n, r);
    ReferencesExactly(s, n, r);
    DepsAreTheReferencesOfScannedFiles(s, xslPath);
    ResultIsNamed(s, xslPath, r.target);
    assert Names(s, n, r.target);
  }

  /** So what a scanned stylesheet imports or includes is listed, visited and reached as
      a stylesheet. */
  lemma ImportsAreFollowed(s: Source, xslPath: string, p: string, e: Element, a: Attr, t: string)
    requires Node(p, Style) in Deps(s, xslPath).scans && p in s.files && e in s.files[p] && a in e.attrs
    requires e.space == "" || e.space == "http://www.w3.org/1999/XSL/Transform"
    requires (e.local == "import" || e.local == "include") && a.local == "href" && s.resolve(p, a.value) == Some(t)
    ensures t in Deps(s, xslPath).result && s.abs(t) in Paths(Deps(s, xslPath).scans)
    ensures Refers(s, Node(p, Style), Node(s.abs(t), Style))
  {
    hide Deps, Refers;
    MadeReferencesAreListed(s, xslPath, Node(p, Style), e, a, Follow(t, Style));
  }

  /** Everything listed was made by an element of a scanned file. */
  lemma ListedIsMade(s: Source, xslPath: string, t: string) returns (n: Node, r: Ref)
    requires t in Deps(s, xslPath).result
    ensures n in Deps(s, xslPath).scans && MadeIn(s, n, r) && r.target == t
  {
    hide Deps, FileRefs, Makes, MadeIn;
    ResultIsNamed(s, xslPath, t);
    n :| n in Deps(s, xslPath).scans && Names(s, n, t);
    r :| r in FileRefs(s, n) && r.target == t;
    ReferencesExactly(s, n, r);
  }

  // ----- when it is not -----

  /** Among the reachable files, only `n` in its mode refers to `t`. */
  ghost predicate OnlyNamedBy(s: Source, root: Node, n: Node, t: string) {
    && Reachable(s, root, n) && Names(s, n, t)
    && forall m :: Reachable(s, root, m) && Names(s, m, t) ==> m == n
  }

  /** Such a target is listed exactly if its file is scanned in that mode. So of a file
      that has one in each mode at least one is lost, and the stylesheet the walk
      starts from always loses those it has as a schema. */
  lemma SecondModeIsLost(s: Source, xslPath: string, path: string, styled: string, schemaed: string)
    ensures var root, st := Node(s.abs(xslPath), Style), Deps(s, xslPath);
            && (OnlyNamedBy(s, root, Node(path, Style), styled) ==>
                  (styled in st.result <==> Node(path, Style) in st.scans))
            && (OnlyNamedBy(s, root, Node(path, Schema), schemaed) ==>
                  (schemaed in st.result <==> Node(path, Schema) in st.scans))
            && (OnlyNamedBy(s, root, Node(path, Style), styled) && OnlyNamedBy(s, root, Node(path, Schema), schemaed) ==>
                  Needed(s, root, styled) && Needed(s, root, schemaed)
                  && !(styled in st.result && schemaed in st.result))
            && (path == root.path && OnlyNamedBy(s, root, Node(path, Schema), schemaed) ==>
                  Needed(s, root, schemaed) && schemaed !in st.result)
  {
    hide Deps, Names, Reachable, Listed, Pending;
    DepsAreTheReferencesOfScannedFiles(s, xslPath);
    OneModePerFile(Deps(s, xslPath).scans);
    ResultIsNamed(s, xslPath, styled);
    ResultIsNamed(s, xslPath, schemaed);
  }

  /** A file that refers to different files in its two modes has, in each, a target that
      no other reachable file refers to. */
  ghost predicate DifferencesAreOwn(s: Source, root: Node) {
    forall a, b :: Reachable(s, root, a) && Reachable(s, root, b) && a.path == b.path ==>
      Covers(FileRefs(s, a), FileRefs(s, b)) || (HasOwnTarget(s, root, a) && HasOwnTarget(s, root, b))
  }

  ghost predicate HasOwnTarget(s: Source, root: Node, n: Node) {
    exists t :: OnlyNamedBy(s, root, n, t)
  }

  /** In such a directory the result is complete if and only if no file refers to
      different files in its two modes. */
  lemma CompleteExactlyWhenTargetsAgree(s: Source, xslPath: string)
    requires DifferencesAreOwn(s, Node(s.abs(xslPath), Style))
    ensures var root := Node(s.abs(xslPath), Style);
            (forall t :: Needed(s, root, t) ==> t in Deps(s, xslPath).result) <==> TargetsAgree(s, root)
  {
    hide Deps, FileRefs, Reachable, OnlyNamedBy, Needed;
    var root := Node(s.abs(xslPath), Style);
    ResultIsWhatIsNeeded(s, xslPath);
    if !TargetsAgree(s, root) {
      var a, b :| Reachable(s, root, a) && Reachable(s, root, b) && a.path == b.path
        && !Covers(FileRefs(s, a), FileRefs(s, b));
      assert a.mode != b.mode;
      var t :| OnlyNamedBy(s, root, a, t);
      var u :| OnlyNamedBy(s, root, b, u);
      SecondModeIsLost(s, xslPath, a.path, t, u);
      SecondModeIsLost(s, xslPath, a.path, u, t);
      assert a == Node(a.path, a.mode) && b == Node(a.path, b.mode);
    }
  }

  const IMPORT_SELF := Element(XSLT, "import-schema", [Attr("schema-location", "a")])
  const INCLUDE_B := Element("other", "include", [Attr("schemaLocation", "b")])

  /** A directory in which the names `a` and `b` stand for files beside `/a`. */
  predicate SmallDirectory(s: Source, elements: seq<Element>) {
    && s.files == map["/a" := elements]
    && s.abs("/a") == "/a"
    && s.resolve("/a", "a") == Some("/a")
    && s.resolve("/a", "b") == Some("/b")
  }

  /** With one file, that names itself as a schema and, in an element only the schema
      walk looks at, includes `b`, the walk lists only the file itself. */
  lemma SchemaReferenceIsLost(s: Source)
    requires SmallDirectory(s, [IMPORT_SELF, INCLUDE_B])
    ensures Deps(s, "/a").result == ["/a"] && Needed(s, Node("/a", Style), "/b")
  {
    hide FileRefs, Visit, Run, SmallDirectory, Reachable;
    OddReferences(s);
    var root, again := Node("/a", Style), Node("/a", Schema);
    OneStep(s, root, again, Follow("/a", Schema));
    AlreadyVisited(s, root, Follow("/a", Schema));
    assert Names(s, again, "/b");
  }

  /** Being reached in both modes need not lose anything. */
  lemma BothModesCanBeComplete(s: Source, t: string)
    requires SmallDirectory(s, [IMPORT_SELF])
    ensures !ModesAgree(s, Node("/a", Style))
    ensures t in Deps(s, "/a").result <==> Needed(s, Node("/a", Style), t)
  {
    hide FileRefs, Visit, Run, SmallDirectory, Names, Reachable;
    var root, again := Node("/a", Style), Node("/a", Schema);
    SelfReference(s);
    OneStep(s, root, again, Follow("/a", Schema));
    RootIsReachable(s, root);
    AlreadyVisited(s, root, Follow("/a", Schema));
    forall n ensures Names(s, n, t) ==> t == "/a" {
      OnlySelfIsNamed(s, n, t);
    }
    OnlySelfIsNamed(s, root, t);
  }

  lemma OnlySelfIsNamed(s: Source, n: Node, t: string)
    requires SmallDirectory(s, [IMPORT_SELF])
    ensures Names(s, n, t) <==> t == "/a" && n == Node("/a", Style)
  {
    SelfReference(s);
    NothingToScan(s, n);
    hide FileRefs;
    assert n.path == "/a" ==> n == Node("/a", Style) || n == Node("/a", Schema);
  }

  lemma SelfReference(s: Source)
    requires SmallDirectory(s, [IMPORT_SELF])
    ensures s.abs("/a") == "/a"
    ensures FileRefs(s, Node("/a", Style)) == [Follow("/a", Schema)]
    ensures FileRefs(s, Node("/a", Schema)) == []
  {
    OneAttr(s, "/a", BySchemaLocationOfXslt, IMPORT_SELF);
    OneAttr(s, "/a", NoReference, IMPORT_SELF);
    assert StyleKind(IMPORT_SELF) == BySchemaLocationOfXslt && SchemaKind(IMPORT_SELF) == NoReference;
    OneElement(s, "/a", Style, IMPORT_SELF);
    OneElement(s, "/a", Schema, IMPORT_SELF);
  }

  lemma OddReferences(s: Source)
    requires SmallDirectory(s, [IMPORT_SELF, INCLUDE_B])
    ensures s.abs("/a") == "/a"
    ensures FileRefs(s, Node("/a", Style)) == [Follow("/a", Schema)]
    ensures FileRefs(s, Node("/a", Schema)) == [Follow("/b", Schema)]
  {
    OneAttr(s, "/a", BySchemaLocationOfXslt, IMPORT_SELF);
    OneAttr(s, "/a", NoReference, IMPORT_SELF);
    OneAttr(s, "/a", BySchemaLocation, INCLUDE_B);
    OneAttr(s, "/a", NoReference, INCLUDE_B);
    assert StyleKind(IMPORT_SELF) == BySchemaLocationOfXslt && SchemaKind(IMPORT_SELF) == NoReference;
    assert StyleKind(INCLUDE_B) == NoReference && SchemaKind(INCLUDE_B) == BySchemaLocation;
    TwoElements(s, "/a", Style, IMPORT_SELF, INCLUDE_B);
    TwoElements(s, "/a", Schema, IMPORT_SELF, INCLUDE_B);
  }

  lemma OneElement(s: Source, file: string, mode: Mode, e: Element)
    ensures ElementsRefs(s, file, mode, [e]) ==
            AttrsRefs(s, file, if mode.Style? then StyleKind(e) else SchemaKind(e), e.attrs)
  {
    assert [e][1..] == [];
    assert ElementsRefs(s, file, mode, []) == [];
  }

  lemma OneAttr(s: Source, file: string, kind: Kind, e: Element)
    requires |e.attrs| == 1
    ensures AttrsRefs(s, file, kind, e.attrs) == AttrRefs(s, file, kind, e.attrs[0])
  {
    assert e.attrs[1..] == [];
    assert AttrsRefs(s, file, kind, []) == [];
  }

  lemma TwoElements(s: Source, file: string, mode: Mode, a: Element, b: Element)
    ensures ElementsRefs(s, file, mode, [a, b]) ==
            AttrsRefs(s, file, if mode.Style? then StyleKind(a) else SchemaKind(a), a.attrs)
            + AttrsRefs(s, file, if mode.Style? then StyleKind(b) else SchemaKind(b), b.attrs)
  {
    assert [a, b][1..] == [b] && [b][1..] == [];
    assert ElementsRefs(s, file, mode, []) == [];
  }

  /** A stylesheet that imports `b`, which includes `c`. */
  predicate ChainDirectory(s: Source) {
    && s.files == map["/m" := [Element(XSLT, "import", [Attr("href", "b")])],
                      "/b" := [Element(XSLT, "include", [Attr("href", "c")])]]
    && s.abs("/m") == "/m" && s.abs("/b") == "/b" && s.abs("/c") == "/c"
    && s.resolve("/m", "b") == Some("/b") && s.resolve("/b", "c") == Some("/c")
  }

  lemma ChainReferences(s: Source)
    requires ChainDirectory(s)
    ensures s.abs("/m") == "/m" && s.abs("/b") == "/b" && s.abs("/c") == "/c" && "/c" !in s.files
    ensures FileRefs(s, Node("/m", Style)) == [Follow("/b", Style)]
    ensures FileRefs(s, Node("/b", Style)) == [Follow("/c", Style)]
  {
    var m, b := Element(XSLT, "import", [Attr("href", "b")]), Element(XSLT, "include", [Attr("href", "c")]);
    OneAttr(s, "/m", ByHref, m);
    OneAttr(s, "/b", ByHref, b);
    OneElement(s, "/m", Style, m);
    OneElement(s, "/b", Style, b);
  }

  /** The included file is listed behind the imported one. */
  lemma IncludesBehindImportsAreListed(s: Source)
    requires ChainDirectory(s)
    ensures Deps(s, "/m").result == ["/b", "/c"]
  {
    hide ChainDirectory, FileRefs, Run;
    ChainReferences(s);
    var m, b, c := Node("/m", Style), Node("/b", Style), Node("/c", Style);
    NothingToScan(s, c);
    RunOne(s, Follow("/b", Style), State([m], []));
    RunOne(s, Follow("/c", Style), State([m, b], ["/b"]));
    RunNothing(s, State([m, b, c], ["/b", "/c"]));
    assert [] + [m] == [m] && [m] + [b] == [m, b] && [m, b] + [c] == [m, b, c];
    assert [] + ["/b"] == ["/b"] && ["/b"] + ["/c"] == ["/b", "/c"];
    assert Paths([m]) == {"/m"} && Paths([m, b]) == {"/m", "/b"};
  }

  lemma OneStep(s: Source, root: Node, n: Node, r: Ref)
    requires r in FileRefs(s, root) && r.Follow? && NodeOf(s, r) == n
    ensures Reachable(s, root, n)
  {
    hide FileRefs;
    assert IsChain(s, root, [root, n]);
  }

  lemma AlreadyVisited(s: Source, root: Node, r: Ref)
    requires FileRefs(s, root) == [r] && r.Follow? && s.abs(r.target) == root.path
    ensures Visit(s, root, State([], [])).result == [r.target]
  {
    hide FileRefs;
    assert [] + [root] == [root] && root.path in Paths([root]);
    RunOne(s, r, State([root], []));
  }
}
