/** The XML conformance suite's fixture resolution: references resolved against the
    xml:base with a fallback to the catalog directory, and the breadth-first closure
    over external references. */
module XmlFixtures {
  import opened Common
  import opened ReferenceGraph
  import opened Text

  /** The suite root. A readable file is given by its external references in the
      order they are collected. */
  datatype Root = Root(
    files: map<string, seq<string>>,
    onDisk: string -> bool,                  // the contained path exists
    contained: string -> bool,               // ContainedPath accepts the path
    absoluteAnyOs: string -> bool,           // IsAbsoluteAnyOS
    scanned: string -> bool,                 // the extension is .xml, .dtd or .ent
    dir: string -> string,                   // path.Dir
    clean: string -> string,                 // path.Clean
    join: (string, string) -> string)        // path.Join

  predicate IsUrl(s: string) {
    HasPrefix(s, "http://") || HasPrefix(s, "https://") || HasPrefix(s, "ftp://") || HasPrefix(s, "urn:")
  }

  function JoinBase(r: Root, base: string, ref: string): string {
    if base == "" then ref
    else r.join(if base[|base| - 1] != '/' then base + "/" else base, ref)
  }

  predicate FileExists(r: Root, rel: string) {
    r.contained(rel) && r.onDisk(rel)
  }

  function ResolveFixture(r: Root, base: string, catalogDir: string, ref: string): Option<string> {
    if r.absoluteAnyOs(ref) || IsUrl(ref) then None
    else
      var primary := r.clean(JoinBase(r, base, ref));
      var alt := r.clean(JoinBase(r, catalogDir + "/", ref));
      if FileExists(r, primary) then Some(primary)
      else if alt != primary && FileExists(r, alt) then Some(alt)
      else None
  }

  /** The files a reference may mean, the one under the inherited base first. */
  function Candidates(r: Root, base: string, catalogDir: string, ref: string): seq<string> {
    [r.clean(JoinBase(r, base, ref)), r.clean(JoinBase(r, catalogDir + "/", ref))]
  }

  /** The reference is to the network or a name. */
  predicate HasScheme(s: string) {
    HasPrefix(s, "urn:") || HasPrefix(s, "ftp://") || HasPrefix(s, "http://") || HasPrefix(s, "https://")
  }

  /** A relative reference means the first candidate that is an existing, contained
      file; it is refused exactly when there is none, any other reference always. */
  lemma ResolvesToExistingFile(r: Root, base: string, catalogDir: string, ref: string)
    ensures var files := Candidates(r, base, catalogDir, ref);
            match ResolveFixture(r, base, catalogDir, ref)
            case None => r.absoluteAnyOs(ref) || HasScheme(ref) || forall f :: f in files ==> !(r.contained(f) && r.onDisk(f))
            case Some(rel) =>
              && !r.absoluteAnyOs(ref) && !HasScheme(ref) && r.contained(rel) && r.onDisk(rel)
              && exists i :: 0 <= i < |files| && files[i] == rel
                   && forall j :: 0 <= j < i ==> !(r.contained(files[j]) && r.onDisk(files[j]))
  {
    var files := Candidates(r, base, catalogDir, ref);
    if FileExists(r, files[0]) {
      assert files[0] in files;
    } else {
      assert files[1] in files;
    }
  }

  // ----- the closure of a document -----

  predicate Dropped(loc: string) {
    loc == "" || IsUrl(loc)
  }

  function TargetOf(r: Root, rel: string, loc: string): string {
    r.clean(JoinBase(r, r.dir(rel) + "/", loc))
  }

  function LocationTarget(r: Root, rel: string): string -> seq<string> {
    loc => if Dropped(loc) then [] else [TargetOf(r, rel, loc)]
  }

  function Targets(r: Root, rel: string, refs: seq<string>): seq<string> {
    FlatMap(LocationTarget(r, rel), refs)
  }

  /** Files of other kinds are fixtures but are not looked into. */
  function GraphOf(r: Root): Graph {
    map rel | rel in r.files && r.contained(rel) :: if r.scanned(rel) then Targets(r, rel, r.files[rel]) else []
  }

  /** Where a reference `loc` in a file of the directory `base` points: with an empty
      base at itself, otherwise below the base, whether or not that ends in a slash. */
  lemma JoinsBelow(r: Root, base: string, loc: string)
    ensures JoinBase(r, "", loc) == loc
    ensures base == "" || base[|base| - 1] != '/' ==> JoinBase(r, base + "/", loc) == r.join(base + "/", loc)
    ensures base != "" && base[|base| - 1] != '/' ==> JoinBase(r, base, loc) == r.join(base + "/", loc)
    ensures base != "" && base[|base| - 1] == '/' ==> JoinBase(r, base, loc) == r.join(base, loc)
  {
    assert (base + "/")[|base + "/"| - 1] == '/';
  }

  /** The `i`-th reference in `p` leads to `q`, below the directory of `p`. */
  ghost predicate Leads(r: Root, p: string, i: int, q: string) {
    && p in r.files && 0 <= i < |r.files[p]|
    && var loc := r.files[p][i];
       && loc != ""
       && !HasPrefix(loc, "http://") && !HasPrefix(loc, "https://")
       && !HasPrefix(loc, "ftp://") && !HasPrefix(loc, "urn:")
       && r.clean(r.join(r.dir(p) + "/", loc)) == q
  }

  /** The edges of the graph: a contained, readable file that is looked into leads to
      what its references name, and to nothing else; other files lead nowhere. */
  lemma EdgesExactly(r: Root, p: string, q: string)
    ensures p in GraphOf(r) <==> p in r.files && r.contained(p)
    ensures p in GraphOf(r) ==> (q in GraphOf(r)[p] <==> r.scanned(p) && exists i :: Leads(r, p, i, q))
  {
    if p in GraphOf(r) && r.scanned(p) {
      var refs := r.files[p];
      hide FlatMap;
      if q in Targets(r, p, refs) {
        var i := FlatMapComesFrom(LocationTarget(r, p), refs, q);
        JoinsDirectory(r, p, refs[i]);
        assert Leads(r, p, i, q);
      }
      if i :| Leads(r, p, i, q) {
        JoinsDirectory(r, p, refs[i]);
        FlatMapHolds(LocationTarget(r, p), refs, i);
      }
    }
  }

  lemma JoinsDirectory(r: Root, p: string, loc: string)
    ensures TargetOf(r, p, loc) == r.clean(r.join(r.dir(p) + "/", loc))
  {
    var base := r.dir(p) + "/";
    assert base[|base| - 1] == '/';
  }

  class FixtureMap {
    var rels: set<string>

    constructor ()
      ensures rels == {}
    {
      rels := {};
    }
  }

  /** Puts the targets of the newly found, scannable file `rel` on the queue. */
  method EnqueueTargets(
      r: Root, rel: string, queue0: seq<string>, enqueued0: set<string>,
      ghost g: Graph, ghost seeds: set<string>, ghost dequeued: seq<string>, ghost found: set<string>)
    returns (queue: seq<string>, enqueued: set<string>)
    requires rel in r.files && rel in found && rel in g && g[rel] == Targets(r, rel, r.files[rel])
    requires Walking(g, seeds, dequeued, queue0, enqueued0, found)
    ensures Walking(g, seeds, dequeued, queue, enqueued, found)
    ensures enqueued0 <= enqueued
    ensures AllIn(Targets(r, rel, r.files[rel]), enqueued)
  {
    queue, enqueued := queue0, enqueued0;
    var refs := r.files[rel];
    for k := 0 to |refs|
      invariant Walking(g, seeds, dequeued, queue, enqueued, found)
      invariant enqueued0 <= enqueued
      invariant AllIn(Targets(r, rel, refs[..k]), enqueued)
    {
      var loc := refs[k];
      FlatMapNext(LocationTarget(r, rel), refs, k);
      if Dropped(loc) {
        continue;
      }
      var next := TargetOf(r, rel, loc);
      if next !in enqueued {
        FlatMapHolds(LocationTarget(r, rel), refs, k);
        WalkEnqueues(g, seeds, dequeued, queue, enqueued, found, next);
        enqueued := enqueued + {next};
        queue := queue + [next];
      }
    }
    assert refs[..|refs|] == refs;
  }

  /** Adds to `fixtures` every contained, readable file reachable from `startRel`. */
  method CollectClosure(r: Root, startRel: string, fixtures: FixtureMap)
    modifies fixtures
    ensures fixtures.rels == old(fixtures.rels) + Closure(GraphOf(r), {startRel})
  {
    hide Walking, Closure, FlatMap, Mentioned;
    ghost var g, seeds := GraphOf(r), {startRel};
    ghost var found, dequeued: seq<string> := {}, [];
    var queue := [startRel];
    var enqueued := {startRel};
    WalkStarts(g, startRel);
    while |queue| > 0
      invariant Walking(g, seeds, dequeued, queue, enqueued, found)
      invariant Followed(g, found, enqueued) && seeds <= enqueued
      invariant fixtures.rels == old(fixtures.rels) + found
      decreases Mentioned(g, seeds) - Elements(dequeued)
    {
      var rel := queue[0];
      WalkDequeues(g, seeds, dequeued, queue, enqueued, found);
      StepCloser(g, seeds, dequeued, rel);
      queue := queue[1..];
      dequeued := dequeued + [rel];
      if !r.contained(rel) {
        continue;
      }
      if rel !in r.files {
        continue;
      }
      fixtures.rels := fixtures.rels + {rel};
      found := found + {rel};
      if !r.scanned(rel) {
        continue;
      }
      queue, enqueued := EnqueueTargets(r, rel, queue, enqueued, g, seeds, dequeued, found);
    }
    assert queue == [];
    WalkFinished(g, seeds, dequeued, enqueued, found);
  }
}
