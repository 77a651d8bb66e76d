/** Files and the paths they refer to. A path is a key of the graph when it lies
    inside the suite root and can be read; its value lists the paths it names. */
module ReferenceGraph {
  import opened Common

  type Graph = map<string, seq<string>>

  /** A non-empty run of readable files, each named by the one before. */
  ghost predicate IsChain(g: Graph, chain: seq<string>) {
    && |chain| > 0
    && (forall i :: 0 <= i < |chain| ==> chain[i] in g)
    && (forall i :: 0 < i < |chain| ==> chain[i] in g[chain[i - 1]])
  }

  ghost predicate Reachable(g: Graph, seeds: set<string>, p: string) {
    exists chain :: IsChain(g, chain) && chain[0] in seeds && chain[|chain| - 1] == p
  }

  ghost function Closure(g: Graph, seeds: set<string>): set<string> {
    set p | p in g.Keys && Reachable(g, seeds, p)
  }

  ghost predicate Closed(g: Graph, s: set<string>) {
    forall p, q :: p in s && p in g && q in g[p] && q in g ==> q in s
  }

  lemma ClosureHasSeeds(g: Graph, seeds: set<string>, p: string)
    requires p in seeds && p in g
    ensures p in Closure(g, seeds)
  {
    assert IsChain(g, [p]);
  }

  lemma ClosureIsClosed(g: Graph, seeds: set<string>)
    ensures Closed(g, Closure(g, seeds))
  {
    forall p, q | p in Closure(g, seeds) && q in g[p] && q in g
      ensures q in Closure(g, seeds)
    {
      var chain :| IsChain(g, chain) && chain[0] in seeds && chain[|chain| - 1] == p;
      assert IsChain(g, chain + [q]);
    }
  }

  /** The closure is the least closed set holding the readable seeds. */
  lemma ClosureIsLeast(g: Graph, seeds: set<string>, s: set<string>)
    requires Closed(g, s) && forall p :: p in seeds && p in g ==> p in s
    ensures Closure(g, seeds) <= s
  {
    forall p | p in Closure(g, seeds)
      ensures p in s
    {
      var chain :| IsChain(g, chain) && chain[0] in seeds && chain[|chain| - 1] == p;
      ChainStaysIn(g, s, chain, |chain| - 1);
    }
  }

  lemma {:induction false} ChainStaysIn(g: Graph, s: set<string>, chain: seq<string>, n: nat)
    requires Closed(g, s) && IsChain(g, chain) && chain[0] in s && n < |chain|
    ensures chain[n] in s
  {
    if n > 0 {
      ChainStaysIn(g, s, chain, n - 1);
    }
  }

  /** One closure of many documents is the union of their closures. */
  lemma ClosureDistributes(g: Graph, a: set<string>, b: set<string>)
    ensures Closure(g, a + b) == Closure(g, a) + Closure(g, b)
  {
    forall p | p in Closure(g, a + b)
      ensures p in Closure(g, a) || p in Closure(g, b)
    {
      var chain :| IsChain(g, chain) && chain[0] in a + b && chain[|chain| - 1] == p;
      assert chain[0] in a ==> Reachable(g, a, p);
    }
    forall p | p in Closure(g, a) || p in Closure(g, b)
      ensures p in Closure(g, a + b)
    {
      var seeds := if p in Closure(g, a) then a else b;
      var chain :| IsChain(g, chain) && chain[0] in seeds && chain[|chain| - 1] == p;
      assert chain[0] in a + b;
    }
  }

  lemma ClosureIsIdempotent(g: Graph, seeds: set<string>)
    ensures Closure(g, Closure(g, seeds)) == Closure(g, seeds)
  {
    var c := Closure(g, seeds);
    ClosureIsClosed(g, seeds);
    ClosureIsLeast(g, c, c);
    forall p | p in c ensures p in Closure(g, c) {
      ClosureHasSeeds(g, c, p);
    }
  }

  lemma ClosureIsMonotone(g: Graph, a: set<string>, b: set<string>)
    requires a <= b
    ensures Closure(g, a) <= Closure(g, b)
  {
    assert a + b == b;
    ClosureDistributes(g, a, b);
  }

  // ----- what a breadth-first walk has to keep -----

  function Elements(s: seq<string>): set<string> {
    set p | p in s
  }

  ghost predicate AllIn(xs: seq<string>, s: set<string>) {
    forall x :: x in xs ==> x in s
  }

  /** Everything a walk from `seeds` can ever put on its queue. */
  ghost function Mentioned(g: Graph, seeds: set<string>): set<string> {
    seeds + set p, q | p in g.Keys && q in g[p] :: q
  }

  /** `dequeued` has been taken off the queue, `queue` is waiting, `enqueued` is
      everything that was ever put on it, `found` the readable part of `dequeued`. */
  ghost predicate Walking(
      g: Graph, seeds: set<string>, dequeued: seq<string>, queue: seq<string>,
      enqueued: set<string>, found: set<string>) {
    && Distinct(dequeued + queue)
    && (forall p :: p in enqueued <==> p in dequeued || p in queue)
    && enqueued <= Mentioned(g, seeds)
    && (forall p :: p in found <==> p in dequeued && p in g)
    && (forall p :: p in enqueued && p in g ==> p in Closure(g, seeds))
  }

  ghost predicate Followed(g: Graph, found: set<string>, enqueued: set<string>) {
    forall p, q :: p in found && p in g && q in g[p] ==> q in enqueued
  }

  lemma WalkNothing(g: Graph, seeds: set<string>)
    ensures Walking(g, seeds, [], [], {}, {})
  {}

  lemma WalkStarts(g: Graph, start: string)
    ensures Walking(g, {start}, [], [start], {start}, {})
  {
    if start in g {
      ClosureHasSeeds(g, {start}, start);
    }
  }

  lemma WalkEnqueues(
      g: Graph, seeds: set<string>, dequeued: seq<string>, queue: seq<string>,
      enqueued: set<string>, found: set<string>, next: string)
    requires Walking(g, seeds, dequeued, queue, enqueued, found)
    requires next !in enqueued
    requires next in seeds || exists p :: p in found && next in g[p]
    ensures Walking(g, seeds, dequeued, queue + [next], enqueued + {next}, found)
  {
    assert dequeued + (queue + [next]) == (dequeued + queue) + [next];
    if next in g {
      if next in seeds {
        ClosureHasSeeds(g, seeds, next);
      } else {
        ClosureIsClosed(g, seeds);
      }
    }
  }

  lemma WalkDequeues(
      g: Graph, seeds: set<string>, dequeued: seq<string>, queue: seq<string>,
      enqueued: set<string>, found: set<string>)
    requires Walking(g, seeds, dequeued, queue, enqueued, found) && |queue| > 0
    ensures queue[0] !in dequeued && queue[0] in Mentioned(g, seeds)
    ensures Walking(g, seeds, dequeued + [queue[0]], queue[1..], enqueued,
                    if queue[0] in g then found + {queue[0]} else found)
  {
    assert (dequeued + [queue[0]]) + queue[1..] == dequeued + queue;
    assert queue == [queue[0]] + queue[1..];
    assert (dequeued + queue)[|dequeued|] == queue[0];
    assert forall i :: 0 <= i < |dequeued| ==> (dequeued + queue)[i] == dequeued[i];
  }

  /** An empty queue means the walk has found the closure. */
  lemma WalkFinished(g: Graph, seeds: set<string>, dequeued: seq<string>, enqueued: set<string>, found: set<string>)
    requires Walking(g, seeds, dequeued, [], enqueued, found)
    requires Followed(g, found, enqueued) && seeds <= enqueued
    ensures found == Closure(g, seeds) && Distinct(dequeued) && found <= Elements(dequeued)
  {
    assert dequeued + [] == dequeued;
    assert Closed(g, found) by {
      forall p, q | p in found && p in g && q in g[p] && q in g ensures q in found {
        assert q in enqueued;
      }
    }
    assert forall p :: p in seeds && p in g ==> p in enqueued;
    ClosureIsLeast(g, seeds, found);
  }

  lemma StepCloser(g: Graph, seeds: set<string>, dequeued: seq<string>, rel: string)
    requires rel in Mentioned(g, seeds) && rel !in dequeued
    ensures Mentioned(g, seeds) - Elements(dequeued + [rel]) < Mentioned(g, seeds) - Elements(dequeued)
  {
    assert rel in Mentioned(g, seeds) - Elements(dequeued);
    assert rel !in Mentioned(g, seeds) - Elements(dequeued + [rel]);
  }
}
