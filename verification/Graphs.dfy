/** Finite directed graphs given by successor lists, as the query engine keeps
    them (a map from a block to the blocks its edges lead to), and their paths. */
module Graphs {
  type Adjacency = map<nat, seq<nat>>

  function Successors(g: Adjacency, n: nat): seq<nat> {
    if n in g then g[n] else []
  }

  predicate Edge(g: Adjacency, a: nat, b: nat) {
    b in Successors(g, a)
  }

  /** A nonempty walk along edges. */
  ghost predicate IsPath(g: Adjacency, p: seq<nat>) {
    |p| > 0 && forall i :: 0 <= i < |p| - 1 ==> Edge(g, p[i], p[i + 1])
  }

  ghost predicate PathFromTo(g: Adjacency, p: seq<nat>, a: nat, b: nat) {
    IsPath(g, p) && p[0] == a && p[|p| - 1] == b
  }

  /** Some walk, possibly of no edge, leads from `a` to `b`. */
  ghost predicate Reachable(g: Adjacency, a: nat, b: nat) {
    exists p :: PathFromTo(g, p, a, b)
  }

  /** Some walk of at least one edge leads from `a` to `b`. */
  ghost predicate StrictlyReachable(g: Adjacency, a: nat, b: nat) {
    exists p :: PathFromTo(g, p, a, b) && |p| >= 2
  }

  lemma PathConcat(g: Adjacency, p: seq<nat>, q: seq<nat>, a: nat, b: nat, c: nat)
    requires PathFromTo(g, p, a, b) && PathFromTo(g, q, b, c)
    ensures PathFromTo(g, p + q[1..], a, c)
  {
  }

  lemma PathSlice(g: Adjacency, p: seq<nat>, i: nat, j: nat)
    requires IsPath(g, p) && i <= j < |p|
    ensures PathFromTo(g, p[i..j + 1], p[i], p[j])
  {
  }

  lemma PathExtend(g: Adjacency, p: seq<nat>, a: nat, b: nat, c: nat)
    requires PathFromTo(g, p, a, b) && Edge(g, b, c)
    ensures PathFromTo(g, p + [c], a, c)
  {
  }

  lemma ReachableReflexive(g: Adjacency, a: nat)
    ensures Reachable(g, a, a)
  {
    assert PathFromTo(g, [a], a, a);
  }

  lemma ReachableStep(g: Adjacency, a: nat, b: nat, c: nat)
    requires Reachable(g, a, b) && Edge(g, b, c)
    ensures Reachable(g, a, c) && StrictlyReachable(g, a, c)
  {
    var p :| PathFromTo(g, p, a, b);
    PathExtend(g, p, a, b, c);
    assert |p + [c]| >= 2;
  }

  /** Every block a search from `start` can ever meet. */
  ghost function Universe(g: Adjacency, start: nat): (u: set<nat>)
    ensures start in u
    ensures forall a, b :: Edge(g, a, b) ==> b in u
  {
    {start} + set n, i | n in g && 0 <= i < |g[n]| :: g[n][i]
  }

  /** A set that contains the start of a path and is closed under edges that
      never lead to `target` shuts `target` out of the rest of the path. */
  lemma {:induction false} ClosedSetConfines(g: Adjacency, closed: set<nat>, target: nat, p: seq<nat>)
    requires IsPath(g, p) && p[0] in closed
    requires forall s, d :: s in closed && Edge(g, s, d) ==> d in closed && d != target
    ensures forall i :: 1 <= i < |p| ==> p[i] in closed && p[i] != target
    decreases |p|
  {
    if |p| >= 2 {
      assert Edge(g, p[0], p[1]);
      PathSlice(g, p, 1, |p| - 1);
      var q := p[1..|p| - 1 + 1];
      ClosedSetConfines(g, closed, target, q);
      forall i | 1 <= i < |p| ensures p[i] in closed && p[i] != target {
        if i >= 2 { assert q[i - 1] == p[i]; }
      }
    }
  }

  // ----- the invariant every breadth-first search of the engine keeps

  /** The state of a search: what was seen was reached, and what was seen and is
      neither queued nor being visited leads only to seen blocks other than the target. */
  ghost predicate SearchState(rel: Adjacency, start: nat, target: nat, seen: set<nat>, queue: seq<nat>,
                              visiting: set<nat>) {
    start in seen && seen <= Universe(rel, start)
    && (forall q :: q in queue ==> q in seen)
    && (forall s :: s in seen ==> Reachable(rel, start, s))
    && forall s, d :: s in seen && s !in queue && s !in visiting && Edge(rel, s, d) ==> d in seen && d != target
  }

  lemma QueueNew(rel: Adjacency, start: nat, target: nat, seen: set<nat>, queue: seq<nat>, visiting: set<nat>, n: nat)
    requires SearchState(rel, start, target, seen, queue, visiting)
    requires n !in seen && n in Universe(rel, start) && Reachable(rel, start, n)
    ensures SearchState(rel, start, target, seen + {n}, queue + [n], visiting)
  {
  }

  lemma FinishVisit(rel: Adjacency, start: nat, target: nat, seen: set<nat>, queue: seq<nat>, current: nat)
    requires SearchState(rel, start, target, seen, queue, {current})
    requires forall d :: d in Successors(rel, current) ==> d in seen && d != target
    ensures SearchState(rel, start, target, seen, queue, {})
  {
  }
}
