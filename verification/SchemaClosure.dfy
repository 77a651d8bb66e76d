/** The XSD suite's breadth-first closure over schema locations. */
module SchemaClosure {
  import opened Common
  import opened ReferenceGraph
  import opened Text

  /** The suite root. A readable file is given by the white-space separated fields
      of each schema-location attribute value in it, in document order. */
  datatype Suite = Suite(
    files: map<string, seq<seq<string>>>,
    onDisk: string -> bool,                // os.Stat succeeds
    contained: string -> bool,             // ContainedPath accepts the path
    clean: string -> string,               // path.Clean
    resolve: (string, string) -> string)   // resolveRel(path.Dir(file), location)

  predicate IsAbsoluteUrl(s: string) {
    HasPrefix(s, "http://") || HasPrefix(s, "https://")
  }

  // ----- schema-location values -----

  /** The even fields after the first: the URIs of namespace/URI pairs. */
  function EverySecond(fields: seq<string>): seq<string> {
    if |fields| < 2 then [] else [fields[1]] + EverySecond(fields[2..])
  }

  function UrisOf(fields: seq<string>): seq<string> {
    if |fields| <= 1 then fields else EverySecond(fields)
  }

  method LocationUris(fields: seq<string>) returns (uris: seq<string>)
    ensures uris == UrisOf(fields)
  {
    if |fields| <= 1 {
      return fields;
    }
    uris := [];
    var i := 1;
    while i < |fields|
      invariant 1 <= i <= |fields| + 1
      invariant uris + EverySecond(fields[i - 1..]) == EverySecond(fields)
    {
      assert fields[i - 1..][2..] == fields[i + 1..];
      uris := uris + [fields[i]];
      i := i + 2;
    }
  }

  /** The value that names each URI for the namespace before it. */
  function PairUp(pairs: seq<(string, string)>): seq<string> {
    if pairs == [] then [] else [pairs[0].0, pairs[0].1] + PairUp(pairs[1..])
  }

  lemma {:induction false} UrisOfPairs(pairs: seq<(string, string)>)
    requires |pairs| > 0
    ensures UrisOf(PairUp(pairs)) == seq(|pairs|, i requires 0 <= i < |pairs| => pairs[i].1)
  {
    var fields := PairUp(pairs);
    assert fields[2..] == PairUp(pairs[1..]);
    if |pairs| > 1 {
      UrisOfPairs(pairs[1..]);
      assert UrisOf(fields[2..]) == EverySecond(fields[2..]);
    } else {
      assert EverySecond(fields[2..]) == [];
    }
  }

  // ----- the graph a suite stands for -----

  function UriTarget(s: Suite, rel: string): string -> seq<string> {
    uri => if IsAbsoluteUrl(uri) then [] else [s.resolve(rel, uri)]
  }

  function UriTargets(s: Suite, rel: string, uris: seq<string>): seq<string> {
    FlatMap(UriTarget(s, rel), uris)
  }

  function LocationTargets(s: Suite, rel: string): seq<string> -> seq<string> {
    fields => UriTargets(s, rel, UrisOf(fields))
  }

  function Targets(s: Suite, rel: string, locations: seq<seq<string>>): seq<string> {
    FlatMap(LocationTargets(s, rel), locations)
  }

  function GraphOf(s: Suite): Graph {
    map rel | rel in s.files && s.contained(rel) :: Targets(s, rel, s.files[rel])
  }

  /** The URI at (i, j) of a file, when it is not absolute, is one of its targets. */
  lemma TargetAt(s: Suite, rel: string, locations: seq<seq<string>>, i: nat, j: nat)
    requires i < |locations| && j < |UrisOf(locations[i])|
    requires !IsAbsoluteUrl(UrisOf(locations[i])[j])
    ensures s.resolve(rel, UrisOf(locations[i])[j]) in Targets(s, rel, locations)
  {
    FlatMapHolds(UriTarget(s, rel), UrisOf(locations[i]), j);
    FlatMapHolds(LocationTargets(s, rel), locations, i);
  }

  /** The `j`-th field of a location value is a URI: its only field, or one that stands
      behind a namespace. */
  predicate NamesUri(fields: seq<string>, j: int) {
    0 <= j < |fields| && (|fields| == 1 || j % 2 == 1)
  }

  /** The `j`-th field of the `i`-th location value of `p` leads to `q`. */
  ghost predicate Leads(s: Suite, p: string, i: int, j: int, q: string) {
    && p in s.files && 0 <= i < |s.files[p]|
    && var fields := s.files[p][i];
       && NamesUri(fields, j)
       && !HasPrefix(fields[j], "http://") && !HasPrefix(fields[j], "https://")
       && s.resolve(p, fields[j]) == q
  }

  lemma {:induction false} EverySecondIs(fields: seq<string>, k: nat)
    ensures |EverySecond(fields)| == |fields| / 2
    ensures k < |fields| / 2 ==> EverySecond(fields)[k] == fields[2 * k + 1]
  {
    if |fields| >= 2 {
      EverySecondIs(fields[2..], if k == 0 then 0 else k - 1);
    }
  }

  lemma UrisAre(fields: seq<string>, u: string)
    ensures u in UrisOf(fields) <==> exists j :: NamesUri(fields, j) && fields[j] == u
  {
    EverySecondIs(fields, 0);
    if |fields| >= 2 {
      if u in EverySecond(fields) {
        var k :| 0 <= k < |EverySecond(fields)| && EverySecond(fields)[k] == u;
        EverySecondIs(fields, k);
        assert NamesUri(fields, 2 * k + 1);
      }
      if j :| NamesUri(fields, j) && fields[j] == u {
        EverySecondIs(fields, j / 2);
        assert EverySecond(fields)[j / 2] == u;
      }
    } else {
      assert u in fields ==> NamesUri(fields, 0);
    }
  }

  lemma TargetIsLedTo(s: Suite, p: string, q: string) returns (i: int, j: int)
    requires p in s.files && q in Targets(s, p, s.files[p])
    ensures Leads(s, p, i, j, q)
  {
    hide EverySecond, UrisOf, FlatMap;
    i := FlatMapComesFrom(LocationTargets(s, p), s.files[p], q);
    var fields := s.files[p][i];
    assert q in UriTargets(s, p, UrisOf(fields));
    var k := FlatMapComesFrom(UriTarget(s, p), UrisOf(fields), q);
    var u := UrisOf(fields)[k];
    assert q in if IsAbsoluteUrl(u) then [] else [s.resolve(p, u)];
    UrisAre(fields, u);
    j :| NamesUri(fields, j) && fields[j] == u;
  }

  lemma LedToIsTarget(s: Suite, p: string, i: int, j: int, q: string)
    requires Leads(s, p, i, j, q)
    ensures q in Targets(s, p, s.files[p])
  {
    hide EverySecond, UrisOf, FlatMap;
    var fields := s.files[p][i];
    UrisAre(fields, fields[j]);
    var k :| 0 <= k < |UrisOf(fields)| && UrisOf(fields)[k] == fields[j];
    TargetAt(s, p, s.files[p], i, k);
  }

  /** The edges of the graph: a contained, readable file leads to what its location
      values name, and to nothing else. */
  lemma EdgesExactly(s: Suite, p: string, q: string)
    ensures p in GraphOf(s) <==> p in s.files && s.contained(p)
    ensures p in GraphOf(s) ==> (q in GraphOf(s)[p] <==> exists i, j :: Leads(s, p, i, j, q))
  {
    hide Leads, Targets;
    if p in GraphOf(s) {
      assert GraphOf(s)[p] == Targets(s, p, s.files[p]);
      if q in Targets(s, p, s.files[p]) {
        var i, j := TargetIsLedTo(s, p, q);
      }
      if i, j :| Leads(s, p, i, j, q) {
        LedToIsTarget(s, p, i, j, q);
      }
    }
  }

  /** Whatever a found file leads to is found, if it is contained and readable. */
  ghost predicate FollowsLocations(s: Suite, found: set<string>) {
    forall p, i, j, q :: p in found && Leads(s, p, i, j, q) && q in s.files && s.contained(q) ==> q in found
  }

  lemma ClosureFollowsLocations(s: Suite, seeds: set<string>)
    ensures FollowsLocations(s, Closure(GraphOf(s), seeds))
  {
    hide Leads, GraphOf;
    var found := Closure(GraphOf(s), seeds);
    ClosureIsClosed(GraphOf(s), seeds);
    forall p, i, j, q | p in found && Leads(s, p, i, j, q) && q in s.files && s.contained(q)
      ensures q in found
    {
      EdgesExactly(s, p, q);
      EdgesExactly(s, q, q);
    }
  }

  /** The file that an include names by its lone location is found with the including
      file. */
  lemma IncludeIsFound(s: Suite, a: string, b: string, loc: string)
    requires s.files == map[a := [[loc]], b := []] && s.contained(a) && s.contained(b) && a != b
    requires s.resolve(a, loc) == b && !HasPrefix(loc, "http://") && !HasPrefix(loc, "https://")
    ensures Closure(GraphOf(s), {a}) == {a, b}
  {
    hide GraphOf, Closure, HasPrefix;
    assert Leads(s, a, 0, 0, b);
    hide Leads;
    EdgesExactly(s, a, b);
    ClosureHasSeeds(GraphOf(s), {a}, a);
    ClosureFollowsLocations(s, {a});
    FoundIsReadable(s, {a});
  }

  lemma FoundIsReadable(s: Suite, seeds: set<string>)
    ensures Closure(GraphOf(s), seeds) <= s.files.Keys
  {}

  // ----- the walk -----

  /** Puts the targets of the newly found file `rel` on the queue. */
  method EnqueueTargets(
      s: Suite, rel: string, queue0: seq<string>, enqueued0: set<string>,
      ghost g: Graph, ghost seeds: set<string>, ghost dequeued: seq<string>, ghost found: set<string>)
    returns (queue: seq<string>, enqueued: set<string>)
    requires rel in s.files && rel in found && rel in g && g[rel] == Targets(s, rel, s.files[rel])
    requires Walking(g, seeds, dequeued, queue0, enqueued0, found)
    ensures Walking(g, seeds, dequeued, queue, enqueued, found)
    ensures enqueued0 <= enqueued
    ensures AllIn(Targets(s, rel, s.files[rel]), enqueued)
  {
    hide Walking, UrisOf, FlatMap;
    queue, enqueued := queue0, enqueued0;
    var locations := s.files[rel];
    FlatMapNothing(LocationTargets(s, rel), locations);
    for i := 0 to |locations|
      invariant Walking(g, seeds, dequeued, queue, enqueued, found)
      invariant enqueued0 <= enqueued
      invariant AllIn(Targets(s, rel, locations[..i]), enqueued)
    {
      var uris := LocationUris(locations[i]);
      FlatMapNothing(UriTarget(s, rel), uris);
      for j := 0 to |uris|
        invariant Walking(g, seeds, dequeued, queue, enqueued, found)
        invariant enqueued0 <= enqueued
        invariant AllIn(Targets(s, rel, locations[..i]), enqueued)
        invariant AllIn(UriTargets(s, rel, uris[..j]), enqueued)
      {
        var loc := uris[j];
        FlatMapNext(UriTarget(s, rel), uris, j);
        if IsAbsoluteUrl(loc) {
          continue;
        }
        var next := s.resolve(rel, loc);
        if next !in enqueued {
          TargetAt(s, rel, locations, i, j);
          WalkEnqueues(g, seeds, dequeued, queue, enqueued, found, next);
          enqueued := enqueued + {next};
          queue := queue + [next];
        }
      }
      FlatMapNext(LocationTargets(s, rel), locations, i);
      assert uris[..|uris|] == uris;
    }
    assert locations[..|locations|] == locations;
  }

  /** Collects the contained, readable files reachable from `rels`. `dequeued` lists
      every path in the order it was taken off the queue. */
  method Collect(s: Suite, rels: seq<string>) returns (found: set<string>, ghost dequeued: seq<string>)
    ensures found == Closure(GraphOf(s), Elements(rels))
    ensures Distinct(dequeued) && found <= Elements(dequeued)
    ensures FollowsLocations(s, found)
  {
    hide FollowsLocations, Closure, Walking, Targets, UriTargets;
    ClosureFollowsLocations(s, Elements(rels));
    ghost var g := GraphOf(s);
    ghost var seeds := Elements(rels);
    WalkNothing(g, seeds);
    found := {};
    dequeued := [];
    var enqueued: set<string> := {};
    var queue: seq<string> := [];
    for k := 0 to |rels|
      invariant Walking(g, seeds, dequeued, queue, enqueued, found)
      invariant AllIn(rels[..k], enqueued)
      invariant dequeued == []
    {
      var rel := rels[k];
      if rel !in enqueued {
        WalkEnqueues(g, seeds, dequeued, queue, enqueued, found, rel);
        enqueued := enqueued + {rel};
        queue := queue + [rel];
      }
    }

    while |queue| > 0
      invariant Walking(g, seeds, dequeued, queue, enqueued, found)
      invariant Followed(g, found, enqueued) && seeds <= enqueued
      decreases Mentioned(g, seeds) - Elements(dequeued)
    {
      var rel := queue[0];
      WalkDequeues(g, seeds, dequeued, queue, enqueued, found);
      StepCloser(g, seeds, dequeued, rel);
      queue := queue[1..];
      dequeued := dequeued + [rel];
      if !s.contained(rel) {
        continue;
      }
      if rel !in s.files {
        continue;
      }
      found := found + {rel};
      queue, enqueued := EnqueueTargets(s, rel, queue, enqueued, g, seeds, dequeued, found);
    }
    assert queue == [];
    WalkFinished(g, seeds, dequeued, enqueued, found);
  }
}
