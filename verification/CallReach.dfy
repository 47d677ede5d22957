/** The depth-limited search for forbidden calls reachable from the roots of a
    program. */
module CallReach {
  import opened Options

  /** One call edge of a caller: its label, whether it matches the forbidden
      pattern, whether its target was resolved, and the target. */
  datatype CallEdge = CallEdge(name: string, forbidden: bool, resolved: bool, target: Option<nat>)

  /** The candidate edges of each caller, in the order the search follows. */
  type CallGraph = map<nat, seq<CallEdge>>

  datatype Root = Root(function_: nat, name: string)

  /** One reported call: edge `position` of `caller`, found from root `root`. */
  datatype Hit = Hit(root: nat, caller: nat, position: nat, depth: nat, path: seq<string>, overBudget: bool)

  datatype SearchState = SearchState(function_: nat, depth: nat, path: seq<string>)

  function Edges(g: CallGraph, f: nat): seq<CallEdge> {
    if f in g then g[f] else []
  }

  /** Edge `k` of `f` is resolved and calls `t`. */
  predicate Hop(g: CallGraph, f: nat, k: nat, t: nat) {
    k < |Edges(g, f)| && Edges(g, f)[k].resolved && Edges(g, f)[k].target == Some(t)
  }

  // ----- call chains

  /** The edges of a chain, as (caller, position) pairs, lead from `root` to `f`. */
  ghost predicate IsChain(g: CallGraph, root: nat, steps: seq<(nat, nat)>, f: nat)
    decreases |steps|
  {
    if steps == [] then f == root
    else
      var (caller, position) := steps[|steps| - 1];
      Hop(g, caller, position, f) && IsChain(g, root, steps[..|steps| - 1], caller)
  }

  ghost function Labels(g: CallGraph, steps: seq<(nat, nat)>): seq<string> {
    if steps == [] then []
    else
      var (caller, position) := steps[|steps| - 1];
      Labels(g, steps[..|steps| - 1]) + [if position < |Edges(g, caller)| then Edges(g, caller)[position].name else ""]
  }

  ghost predicate ReachedIn(g: CallGraph, root: nat, f: nat, n: nat) {
    exists steps :: |steps| == n && IsChain(g, root, steps, f)
  }

  /** The least number of resolved hops from `root` to `f`. */
  ghost predicate IsDistance(g: CallGraph, root: nat, f: nat, n: nat) {
    ReachedIn(g, root, f, n) && forall m: nat :: ReachedIn(g, root, f, m) ==> n <= m
  }

  /** A path of labels is a genuine call chain of that length to `f`. */
  ghost predicate Evidenced(g: CallGraph, root: Root, f: nat, n: nat, path: seq<string>) {
    exists steps :: |steps| == n && IsChain(g, root.function_, steps, f) && path == [root.name] + Labels(g, steps)
  }

  lemma EvidencedIsReached(g: CallGraph, root: Root, f: nat, n: nat, path: seq<string>)
    requires Evidenced(g, root, f, n, path)
    ensures ReachedIn(g, root.function_, f, n)
  {
  }

  lemma EvidenceExtends(g: CallGraph, root: Root, f: nat, n: nat, path: seq<string>, k: nat, t: nat)
    requires Evidenced(g, root, f, n, path) && Hop(g, f, k, t)
    ensures Evidenced(g, root, t, n + 1, path + [Edges(g, f)[k].name])
  {
    var steps :| |steps| == n && IsChain(g, root.function_, steps, f) && path == [root.name] + Labels(g, steps);
    var longer := steps + [(f, k)];
    assert longer[..|longer| - 1] == steps;
    assert path + [Edges(g, f)[k].name] == [root.name] + Labels(g, longer);
  }

  // ----- the invariant of the search

  ghost predicate HopsTaken(g: CallGraph, maxDepth: nat, depthOf: map<nat, nat>, v: nat, n: nat)
    requires v in depthOf
  {
    forall k: nat, t: nat :: k < n && depthOf[v] + 1 <= maxDepth && Hop(g, v, k, t) ==>
        t in depthOf && depthOf[t] <= depthOf[v] + 1
  }

  ghost predicate Queued(queue: seq<SearchState>, v: nat) {
    exists i :: 0 <= i < |queue| && queue[i].function_ == v
  }

  /** Each depth found so far is the length of some chain, within the limit and
      at most one beyond the current depth. */
  ghost predicate Depths(g: CallGraph, root: nat, maxDepth: nat, depthOf: map<nat, nat>, d: nat) {
    root in depthOf && depthOf[root] == 0
    && forall v :: v in depthOf ==> depthOf[v] <= maxDepth && depthOf[v] <= d + 1 && ReachedIn(g, root, v, depthOf[v])
  }

  /** Every function found is finished, being visited, or queued. */
  ghost predicate Accounted(depthOf: map<nat, nat>, done: set<nat>, active: set<nat>, queue: seq<SearchState>) {
    forall v :: v in depthOf ==> v in done || v in active || Queued(queue, v)
  }

  /** The queue holds open functions, each once, at the current depth first. */
  ghost predicate QueueOrdered(depthOf: map<nat, nat>, done: set<nat>, active: set<nat>, queue: seq<SearchState>,
                               d: nat) {
    (forall i :: 0 <= i < |queue| ==>
       queue[i].function_ in depthOf && depthOf[queue[i].function_] == queue[i].depth && d <= queue[i].depth
       && queue[i].function_ !in done && queue[i].function_ !in active)
    && forall i, j :: 0 <= i < j < |queue| ==>
        queue[i].depth <= queue[j].depth && queue[i].function_ != queue[j].function_
  }

  ghost predicate QueueEvidenced(g: CallGraph, root: Root, queue: seq<SearchState>) {
    forall i :: 0 <= i < |queue| ==> Evidenced(g, root, queue[i].function_, queue[i].depth, queue[i].path)
  }

  /** The hops of finished functions were all taken. */
  ghost predicate Finished(g: CallGraph, maxDepth: nat, depthOf: map<nat, nat>, done: set<nat>) {
    forall v :: v in done ==> v in depthOf && HopsTaken(g, maxDepth, depthOf, v, |Edges(g, v)|)
  }

  ghost predicate Explored(g: CallGraph, root: Root, maxDepth: nat, depthOf: map<nat, nat>, done: set<nat>,
                           active: set<nat>, queue: seq<SearchState>, d: nat) {
    Depths(g, root.function_, maxDepth, depthOf, d)
    && Accounted(depthOf, done, active, queue)
    && QueueOrdered(depthOf, done, active, queue, d)
    && QueueEvidenced(g, root, queue)
    && Finished(g, maxDepth, depthOf, done)
    && DoneWithin(depthOf, done, d)
  }

  /** Finished functions lie no deeper than the current depth. */
  ghost predicate DoneWithin(depthOf: map<nat, nat>, done: set<nat>, d: nat) {
    forall v :: v in done && v in depthOf ==> depthOf[v] <= d
  }

  lemma EnqueueAccounted(depthOf: map<nat, nat>, done: set<nat>, active: set<nat>, queue: seq<SearchState>,
                         s: SearchState)
    requires Accounted(depthOf, done, active, queue)
    ensures Accounted(depthOf[s.function_ := s.depth], done, active, queue + [s])
  {
    var queue' := queue + [s];
    forall v | v in depthOf[s.function_ := s.depth] ensures v in done || v in active || Queued(queue', v) {
      if v == s.function_ {
        assert queue'[|queue|].function_ == v;
      } else if Queued(queue, v) {
        var i :| 0 <= i < |queue| && queue[i].function_ == v;
        assert queue'[i].function_ == v;
      }
    }
  }

  lemma EnqueueOrdered(depthOf: map<nat, nat>, done: set<nat>, active: set<nat>, queue: seq<SearchState>, d: nat,
                       s: SearchState)
    requires QueueOrdered(depthOf, done, active, queue, d)
    requires forall v :: v in depthOf ==> depthOf[v] <= s.depth
    requires s.function_ !in depthOf && s.function_ !in done && s.function_ !in active && d <= s.depth
    ensures QueueOrdered(depthOf[s.function_ := s.depth], done, active, queue + [s], d)
  {
  }

  lemma GrowFinished(g: CallGraph, maxDepth: nat, depthOf: map<nat, nat>, done: set<nat>, t: nat, d: nat)
    requires Finished(g, maxDepth, depthOf, done) && t !in depthOf
    ensures Finished(g, maxDepth, depthOf[t := d], done)
  {
  }

  lemma Enqueue(g: CallGraph, root: Root, maxDepth: nat, depthOf: map<nat, nat>, done: set<nat>, active: set<nat>,
                queue: seq<SearchState>, d: nat, s: SearchState)
    requires Explored(g, root, maxDepth, depthOf, done, active, queue, d)
    requires s.function_ !in depthOf && s.depth == d + 1 <= maxDepth && Evidenced(g, root, s.function_, s.depth, s.path)
    requires active <= depthOf.Keys
    ensures Explored(g, root, maxDepth, depthOf[s.function_ := s.depth], done, active, queue + [s], d)
  {
    hide ReachedIn, Evidenced, HopsTaken;
    EvidencedIsReached(g, root, s.function_, s.depth, s.path);
    assert s.function_ !in done by { assert Finished(g, maxDepth, depthOf, done); }
    EnqueueAccounted(depthOf, done, active, queue, s);
    EnqueueOrdered(depthOf, done, active, queue, d, s);
    GrowFinished(g, maxDepth, depthOf, done, s.function_, s.depth);
  }

  lemma Dequeue(g: CallGraph, root: Root, maxDepth: nat, depthOf: map<nat, nat>, done: set<nat>,
                queue: seq<SearchState>, d: nat)
    requires Explored(g, root, maxDepth, depthOf, done, {}, queue, d) && queue != []
    ensures Explored(g, root, maxDepth, depthOf, done, {queue[0].function_}, queue[1..], queue[0].depth)
  {
    hide ReachedIn, Evidenced, HopsTaken;
    DequeueAccounted(depthOf, done, queue);
    var rest := queue[1..];
    assert forall i :: 0 <= i < |rest| ==> rest[i] == queue[i + 1];
    assert QueueOrdered(depthOf, done, {queue[0].function_}, rest, queue[0].depth);
  }

  lemma DequeueAccounted(depthOf: map<nat, nat>, done: set<nat>, queue: seq<SearchState>)
    requires Accounted(depthOf, done, {}, queue) && queue != []
    ensures Accounted(depthOf, done, {queue[0].function_}, queue[1..])
  {
  }

  lemma Finish(g: CallGraph, root: Root, maxDepth: nat, depthOf: map<nat, nat>, done: set<nat>, v: nat,
               queue: seq<SearchState>, d: nat)
    requires Explored(g, root, maxDepth, depthOf, done, {v}, queue, d) && v in depthOf && depthOf[v] <= d
    requires HopsTaken(g, maxDepth, depthOf, v, |Edges(g, v)|)
    ensures Explored(g, root, maxDepth, depthOf, done + {v}, {}, queue, d)
  {
  }

  // ----- what is reported

  /** Edge `k` of `v` matches the forbidden pattern within the depth limit. */
  ghost predicate Due(g: CallGraph, maxDepth: nat, depthOf: map<nat, nat>, v: nat, k: nat) {
    v in depthOf && depthOf[v] + 1 <= maxDepth && k < |Edges(g, v)| && Edges(g, v)[k].forbidden
  }

  ghost predicate HitFor(hits: seq<Hit>, v: nat, k: nat) {
    exists i :: 0 <= i < |hits| && hits[i].caller == v && hits[i].position == k
  }

  /** The hits are exactly the due edges of the finished functions and the first
      `n` edges of the one being visited, each once, with its evidence. */
  ghost predicate Reported(g: CallGraph, root: Root, r: nat, maxDepth: nat, depthOf: map<nat, nat>, done: set<nat>,
                           v: nat, n: nat, hits: seq<Hit>) {
    && (forall i :: 0 <= i < |hits| ==>
          var h := hits[i];
          h.root == r && Due(g, maxDepth, depthOf, h.caller, h.position)
            && (h.caller in done || (h.caller == v && h.position < n))
          && HitEvidence(g, root, depthOf, h))
    && (forall f: nat, k: nat :: Due(g, maxDepth, depthOf, f, k) && (f in done || (f == v && k < n)) ==>
        HitFor(hits, f, k))
    && (forall i, j :: 0 <= i < j < |hits| ==> (hits[i].caller, hits[i].position) != (hits[j].caller, hits[j].position))
  }

  ghost predicate HitEvidence(g: CallGraph, root: Root, depthOf: map<nat, nat>, h: Hit) {
    h.caller in depthOf && h.position < |Edges(g, h.caller)| && h.depth == depthOf[h.caller] + 1 && !h.overBudget
    && |h.path| > 0 && h.path[|h.path| - 1] == Edges(g, h.caller)[h.position].name
    && Evidenced(g, root, h.caller, depthOf[h.caller], h.path[..|h.path| - 1])
  }

  lemma Report(g: CallGraph, root: Root, r: nat, maxDepth: nat, depthOf: map<nat, nat>, done: set<nat>, v: nat, n: nat,
               hits: seq<Hit>, h: Hit)
    requires Reported(g, root, r, maxDepth, depthOf, done, v, n, hits) && v !in done
    requires h.root == r && h.caller == v && h.position == n && Due(g, maxDepth, depthOf, v, n)
    requires HitEvidence(g, root, depthOf, h)
    ensures Reported(g, root, r, maxDepth, depthOf, done, v, n + 1, hits + [h])
  {
    var hits' := hits + [h];
    forall f: nat, k: nat | Due(g, maxDepth, depthOf, f, k) && (f in done || (f == v && k < n + 1))
      ensures HitFor(hits', f, k) {
      if f == v && k == n {
        assert hits'[|hits|] == h;
      } else {
        assert HitFor(hits, f, k);
        var i :| 0 <= i < |hits| && hits[i].caller == f && hits[i].position == k;
        assert hits'[i] == hits[i];
      }
    }
  }

  /** A newly found function changes nothing that was due among visited ones. */
  lemma ReportedGrows(g: CallGraph, root: Root, r: nat, maxDepth: nat, depthOf: map<nat, nat>, done: set<nat>, v: nat,
                      n: nat, hits: seq<Hit>, t: nat, d: nat)
    requires Reported(g, root, r, maxDepth, depthOf, done, v, n, hits)
    requires t !in depthOf && t !in done && t != v
    ensures Reported(g, root, r, maxDepth, depthOf[t := d], done, v, n, hits)
  {
    hide HitFor;
    var depthOf' := depthOf[t := d];
    forall f: nat, k: nat | f != t ensures Due(g, maxDepth, depthOf', f, k) <==> Due(g, maxDepth, depthOf, f, k) { }
    forall i | 0 <= i < |hits| ensures HitEvidence(g, root, depthOf', hits[i]) {
      assert HitEvidence(g, root, depthOf, hits[i]) && hits[i].caller != t;
    }
    hide Due, HitEvidence;
  }

  // ----- the search from one root

  ghost function Functions(g: CallGraph, root: nat): (u: set<nat>)
    ensures root in u && forall f: nat, k: nat, t: nat :: Hop(g, f, k, t) ==> t in u
  {
    var targets := set f, k | f in g && 0 <= k < |g[f]| && g[f][k].target.Some? :: g[f][k].target.value;
    assert forall f: nat, k: nat, t: nat :: Hop(g, f, k, t) ==> f in g && g[f][k].target.value in targets;
    {root} + targets
  }

  /** The outcome of the search from one root, in terms of distances. `capped`
      says that one more match was met after the path limit was used up. */
  ghost predicate RootSearched(g: CallGraph, root: Root, r: nat, maxDepth: nat, hits: seq<Hit>, capped: bool,
                               truncated: bool) {
    && (forall i :: 0 <= i < |hits| ==>
          var h := hits[i];
          h.root == r && 1 <= h.depth <= maxDepth && !h.overBudget
          && h.position < |Edges(g, h.caller)| && Edges(g, h.caller)[h.position].forbidden
          && |h.path| > 0 && h.path[|h.path| - 1] == Edges(g, h.caller)[h.position].name
          && Evidenced(g, root, h.caller, h.depth - 1, h.path[..|h.path| - 1])
          && IsDistance(g, root.function_, h.caller, h.depth - 1))
    && (forall i, j :: 0 <= i < j < |hits| ==> (hits[i].caller, hits[i].position) != (hits[j].caller, hits[j].position))
    && (!capped ==>
          && (forall f: nat, n: nat, k: nat ::
                IsDistance(g, root.function_, f, n) && n + 1 <= maxDepth && k < |Edges(g, f)| ==>
                  Edges(g, f)[k].forbidden ==> HitFor(hits, f, k))
          && (truncated <==> exists f: nat, n: nat ::
                IsDistance(g, root.function_, f, n) && n + 1 > maxDepth && Edges(g, f) != []))
    && (capped ==> exists d: nat :: NearestFirst(g, root, maxDepth, hits, d))
  }

  /** The hits reach functions no farther than `d`, and nothing nearer is left out. */
  ghost predicate NearestFirst(g: CallGraph, root: Root, maxDepth: nat, hits: seq<Hit>, d: nat) {
    && (forall i :: 0 <= i < |hits| ==> hits[i].depth <= d + 1)
    && forall f: nat, n: nat, k: nat ::
         IsDistance(g, root.function_, f, n) && n < d && n + 1 <= maxDepth && k < |Edges(g, f)| ==>
           Edges(g, f)[k].forbidden ==> HitFor(hits, f, k)
  }

  // ----- the search without a path limit

  datatype Walk = Walk(visited: set<nat>, queue: seq<SearchState>, hits: seq<Hit>)

  /** What following edge `i` of the visited function adds. */
  function Follow(g: CallGraph, r: nat, maxDepth: nat, s: SearchState, i: nat, w: Walk): (w': Walk)
    requires i < |Edges(g, s.function_)|
    ensures w.visited <= w'.visited && w.hits <= w'.hits
    ensures w'.visited == w.visited ==> w'.queue == w.queue
    ensures forall t :: t in w'.visited && t !in w.visited ==> Hop(g, s.function_, i, t)
  {
    if s.depth + 1 > maxDepth then w
    else
      var edge := Edges(g, s.function_)[i];
      var path := s.path + [edge.name];
      var hits := if edge.forbidden then w.hits + [Hit(r, s.function_, i, s.depth + 1, path, false)] else w.hits;
      if edge.resolved && edge.target.Some? && edge.target.value !in w.visited then
        Walk(w.visited + {edge.target.value}, w.queue + [SearchState(edge.target.value, s.depth + 1, path)], hits)
      else w.(hits := hits)
  }

  ghost function FollowFrom(g: CallGraph, root: Root, r: nat, maxDepth: nat, s: SearchState, i: nat,
                            w: Walk): (w': Walk)
    ensures w.visited <= w'.visited <= w.visited + Functions(g, root.function_) && w.hits <= w'.hits
    ensures w'.visited == w.visited ==> w'.queue == w.queue
    decreases |Edges(g, s.function_)| - i
  {
    if i >= |Edges(g, s.function_)| then w
    else FollowFrom(g, root, r, maxDepth, s, i + 1, Follow(g, r, maxDepth, s, i, w))
  }

  /** Visiting until nothing is queued. */
  ghost function Complete(g: CallGraph, root: Root, r: nat, maxDepth: nat, w: Walk): (w': Walk)
    ensures w.hits <= w'.hits
    decreases Functions(g, root.function_) - w.visited, |w.queue|
  {
    if w.queue == [] then w
    else
      var next := FollowFrom(g, root, r, maxDepth, w.queue[0], 0, w.(queue := w.queue[1..]));
      assert next.visited != w.visited ==>
          Functions(g, root.function_) - next.visited < Functions(g, root.function_) - w.visited;
      Complete(g, root, r, maxDepth, next)
  }

  /** The hits of the search from one root when no path limit cuts it. */
  ghost function AllHits(g: CallGraph, root: Root, r: nat, maxDepth: nat): seq<Hit> {
    Complete(g, root, r, maxDepth, Walk({root.function_}, [SearchState(root.function_, 0, [root.name])], [])).hits
  }

  lemma FollowNext(g: CallGraph, root: Root, r: nat, maxDepth: nat, s: SearchState, i: nat, w: Walk, w': Walk)
    requires i < |Edges(g, s.function_)| && w' == Follow(g, r, maxDepth, s, i, w)
    ensures FollowFrom(g, root, r, maxDepth, s, i + 1, w') == FollowFrom(g, root, r, maxDepth, s, i, w)
  {
  }

  /** A forbidden edge within the depth limit adds a hit. */
  lemma FollowHits(g: CallGraph, root: Root, r: nat, maxDepth: nat, s: SearchState, i: nat, w: Walk)
    requires i < |Edges(g, s.function_)| && s.depth + 1 <= maxDepth && Edges(g, s.function_)[i].forbidden
    ensures w.hits <= FollowFrom(g, root, r, maxDepth, s, i, w).hits
    ensures |w.hits| < |FollowFrom(g, root, r, maxDepth, s, i, w).hits|
  {
    assert |Follow(g, r, maxDepth, s, i, w).hits| > |w.hits|;
  }

  lemma CompleteNext(g: CallGraph, root: Root, r: nat, maxDepth: nat, w: Walk)
    requires w.queue != []
    ensures var next := FollowFrom(g, root, r, maxDepth, w.queue[0], 0, w.(queue := w.queue[1..]));
            Complete(g, root, r, maxDepth, w) == Complete(g, root, r, maxDepth, next)
            && next.hits <= Complete(g, root, r, maxDepth, w).hits
  {
  }

  lemma CompleteDone(g: CallGraph, root: Root, r: nat, maxDepth: nat, w: Walk)
    requires w.queue == []
    ensures Complete(g, root, r, maxDepth, w) == w
  {
  }

  /** While `state` is visited: its first `taken` edges were followed and its
      first `reported` edges were reported. */
  ghost predicate Visiting(g: CallGraph, root: Root, r: nat, maxDepth: nat, state: SearchState, depthOf: map<nat, nat>,
                           done: set<nat>, queue: seq<SearchState>, hits: seq<Hit>, taken: nat, reported: nat) {
    state.function_ in depthOf && depthOf[state.function_] == state.depth && state.function_ !in done
    && Evidenced(g, root, state.function_, state.depth, state.path)
    && depthOf.Keys <= Functions(g, root.function_)
    && Explored(g, root, maxDepth, depthOf, done, {state.function_}, queue, state.depth)
    && HopsTaken(g, maxDepth, depthOf, state.function_, taken)
    && Reported(g, root, r, maxDepth, depthOf, done, state.function_, reported, hits)
  }

  lemma NoHit(g: CallGraph, root: Root, r: nat, maxDepth: nat, state: SearchState, depthOf: map<nat, nat>,
              done: set<nat>, queue: seq<SearchState>, hits: seq<Hit>, i: nat)
    requires Visiting(g, root, r, maxDepth, state, depthOf, done, queue, hits, i, i) && i < |Edges(g, state.function_)|
    requires state.depth + 1 > maxDepth || !Edges(g, state.function_)[i].forbidden
    ensures Visiting(g, root, r, maxDepth, state, depthOf, done, queue, hits, i, i + 1)
  {
  }

  lemma NewHit(g: CallGraph, root: Root, r: nat, maxDepth: nat, state: SearchState, depthOf: map<nat, nat>,
               done: set<nat>, queue: seq<SearchState>, hits: seq<Hit>, i: nat)
    requires Visiting(g, root, r, maxDepth, state, depthOf, done, queue, hits, i, i) && i < |Edges(g, state.function_)|
    requires state.depth + 1 <= maxDepth && Edges(g, state.function_)[i].forbidden
    ensures var h := Hit(r, state.function_, i, state.depth + 1, state.path + [Edges(g, state.function_)[i].name],
                         false);
            Visiting(g, root, r, maxDepth, state, depthOf, done, queue, hits + [h], i, i + 1)
  {
    var path := state.path + [Edges(g, state.function_)[i].name];
    assert path[..|path| - 1] == state.path;
    Report(g, root, r, maxDepth, depthOf, done, state.function_, i, hits,
           Hit(r, state.function_, i, state.depth + 1, path, false));
  }

  lemma NoHop(g: CallGraph, root: Root, r: nat, maxDepth: nat, state: SearchState, depthOf: map<nat, nat>,
              done: set<nat>, queue: seq<SearchState>, hits: seq<Hit>, i: nat, n: nat)
    requires Visiting(g, root, r, maxDepth, state, depthOf, done, queue, hits, i, n) && i < |Edges(g, state.function_)|
    requires state.depth + 1 > maxDepth || forall t: nat :: Hop(g, state.function_, i, t) ==> t in depthOf
    ensures Visiting(g, root, r, maxDepth, state, depthOf, done, queue, hits, i + 1, n)
  {
  }

  lemma DoneWasFound(g: CallGraph, root: Root, maxDepth: nat, depthOf: map<nat, nat>, done: set<nat>, active: set<nat>,
                     queue: seq<SearchState>, d: nat)
    requires Explored(g, root, maxDepth, depthOf, done, active, queue, d)
    ensures done <= depthOf.Keys
  {
  }

  lemma NewHop(g: CallGraph, root: Root, r: nat, maxDepth: nat, state: SearchState, depthOf: map<nat, nat>,
               done: set<nat>, queue: seq<SearchState>, hits: seq<Hit>, i: nat, n: nat, t: nat)
    requires Visiting(g, root, r, maxDepth, state, depthOf, done, queue, hits, i, n)
    requires state.depth + 1 <= maxDepth && Hop(g, state.function_, i, t) && t !in depthOf
    ensures var s := SearchState(t, state.depth + 1, state.path + [Edges(g, state.function_)[i].name]);
            Visiting(g, root, r, maxDepth, state, depthOf[t := s.depth], done, queue + [s], hits, i + 1, n)
  {
    hide Explored, Reported, Evidenced, Functions;
    var f := state.function_;
    var s := SearchState(t, state.depth + 1, state.path + [Edges(g, f)[i].name]);
    DoneWasFound(g, root, maxDepth, depthOf, done, {f}, queue, state.depth);
    EvidenceExtends(g, root, f, state.depth, state.path, i, t);
    Enqueue(g, root, maxDepth, depthOf, done, {f}, queue, state.depth, s);
    ReportedGrows(g, root, r, maxDepth, depthOf, done, f, n, hits, t, s.depth);
    assert HopsTaken(g, maxDepth, depthOf[t := s.depth], f, i + 1);
  }

  /** Follows one function's edges in order. */
  method VisitFunction(g: CallGraph, ghost root: Root, r: nat, maxDepth: nat, room: nat, state: SearchState,
                       ghost depthOf: map<nat, nat>, ghost done: set<nat>, visited: set<nat>,
                       queue: seq<SearchState>, hits: seq<Hit>, truncated: bool)
    returns (ghost depthOf': map<nat, nat>, visited': set<nat>, queue': seq<SearchState>, hits': seq<Hit>,
             truncated': bool, capped: bool)
    requires visited == depthOf.Keys && |hits| <= room
    requires Visiting(g, root, r, maxDepth, state, depthOf, done, queue, hits, 0, 0)
    ensures visited' == depthOf'.Keys && visited <= visited' && |hits'| <= room
    ensures visited' == visited ==> queue' == queue
    ensures forall v :: v in depthOf ==> v in depthOf' && depthOf'[v] == depthOf[v]
    ensures capped ==> |hits'| == room && truncated' && exists i: nat ::
        Visiting(g, root, r, maxDepth, state, depthOf', done, queue', hits', i, i)
    ensures !capped ==>
      Visiting(g, root, r, maxDepth, state, depthOf', done, queue', hits', |Edges(g, state.function_)|,
               |Edges(g, state.function_)|)
      && truncated' == (truncated || (state.depth + 1 > maxDepth && Edges(g, state.function_) != []))
    ensures var next := FollowFrom(g, root, r, maxDepth, state, 0, Walk(visited, queue, hits));
            if capped then hits' <= next.hits && |next.hits| > room else next == Walk(visited', queue', hits')
  {
    hide Visiting, FollowFrom;
    var f := state.function_;
    var edges := Edges(g, f);
    depthOf', visited', queue', hits', truncated' := depthOf, visited, queue, hits, truncated;
    for i := 0 to |edges|
      invariant visited' == depthOf'.Keys && visited <= visited' && |hits'| <= room
      invariant visited' == visited ==> queue' == queue
      invariant forall v :: v in depthOf ==> v in depthOf' && depthOf'[v] == depthOf[v]
      invariant Visiting(g, root, r, maxDepth, state, depthOf', done, queue', hits', i, i)
      invariant truncated' == (truncated || (state.depth + 1 > maxDepth && i > 0))
      invariant FollowFrom(g, root, r, maxDepth, state, i, Walk(visited', queue', hits'))
             == FollowFrom(g, root, r, maxDepth, state, 0, Walk(visited, queue, hits))
    {
      var edge := edges[i];
      ghost var w := Walk(visited', queue', hits');
      FollowNext(g, root, r, maxDepth, state, i, w, Follow(g, r, maxDepth, state, i, w));
      if state.depth + 1 > maxDepth {
        truncated' := true;
        NoHit(g, root, r, maxDepth, state, depthOf', done, queue', hits', i);
        NoHop(g, root, r, maxDepth, state, depthOf', done, queue', hits', i, i + 1);
        continue;
      }
      var path := state.path + [edge.name];
      if edge.forbidden {
        if |hits'| >= room {
          FollowHits(g, root, r, maxDepth, state, i, w);
          return depthOf', visited', queue', hits', true, true;
        }
        NewHit(g, root, r, maxDepth, state, depthOf', done, queue', hits', i);
        hits' := hits' + [Hit(r, f, i, state.depth + 1, path, false)];
      } else {
        NoHit(g, root, r, maxDepth, state, depthOf', done, queue', hits', i);
      }
      if edge.resolved && edge.target.Some? && edge.target.value !in visited' {
        var t := edge.target.value;
        NewHop(g, root, r, maxDepth, state, depthOf', done, queue', hits', i, i + 1, t);
        depthOf' := depthOf'[t := state.depth + 1];
        visited' := visited' + {t};
        queue' := queue' + [SearchState(t, state.depth + 1, path)];
      } else {
        NoHop(g, root, r, maxDepth, state, depthOf', done, queue', hits', i, i + 1);
      }
    }
    capped := false;
    FollowedAll(g, root, r, maxDepth, state, Walk(visited', queue', hits'));
  }

  lemma FollowedAll(g: CallGraph, root: Root, r: nat, maxDepth: nat, s: SearchState, w: Walk)
    ensures FollowFrom(g, root, r, maxDepth, s, |Edges(g, s.function_)|, w) == w
  {
  }

  lemma FinishVisit(g: CallGraph, root: Root, r: nat, maxDepth: nat, state: SearchState, depthOf: map<nat, nat>,
                    done: set<nat>, queue: seq<SearchState>, hits: seq<Hit>)
    requires Visiting(g, root, r, maxDepth, state, depthOf, done, queue, hits, |Edges(g, state.function_)|,
                      |Edges(g, state.function_)|)
    ensures Explored(g, root, maxDepth, depthOf, done + {state.function_}, {}, queue, state.depth)
    ensures Reported(g, root, r, maxDepth, depthOf, done + {state.function_}, 0, 0, hits)
    ensures depthOf.Keys <= Functions(g, root.function_)
  {
  }

  lemma BeginVisit(g: CallGraph, root: Root, r: nat, maxDepth: nat, depthOf: map<nat, nat>, done: set<nat>,
                   queue: seq<SearchState>, d: nat, hits: seq<Hit>)
    requires queue != [] && Explored(g, root, maxDepth, depthOf, done, {}, queue, d)
    requires Reported(g, root, r, maxDepth, depthOf, done, 0, 0, hits) && depthOf.Keys <= Functions(g, root.function_)
    ensures Visiting(g, root, r, maxDepth, queue[0], depthOf, done, queue[1..], hits, 0, 0)
  {
    Dequeue(g, root, maxDepth, depthOf, done, queue, d);
  }

  /** While depth `d` is visited, every chain no longer than that ends at a function found
      at no greater depth. */
  lemma {:induction false} NearChainsAreFound(g: CallGraph, root: Root, maxDepth: nat, state: SearchState,
                                              depthOf: map<nat, nat>, done: set<nat>, queue: seq<SearchState>,
                                              steps: seq<(nat, nat)>, f: nat)
    requires Explored(g, root, maxDepth, depthOf, done, {state.function_}, queue, state.depth)
    requires state.function_ in depthOf && depthOf[state.function_] == state.depth
    requires IsChain(g, root.function_, steps, f) && |steps| <= state.depth
    ensures f in depthOf && depthOf[f] <= |steps|
    decreases |steps|
  {
    if steps != [] {
      var (caller, position) := steps[|steps| - 1];
      NearChainsAreFound(g, root, maxDepth, state, depthOf, done, queue, steps[..|steps| - 1], caller);
      assert caller in done;
      assert HopsTaken(g, maxDepth, depthOf, caller, |Edges(g, caller)|);
      assert Hop(g, caller, position, f);
    }
  }

  lemma NearDistance(g: CallGraph, root: Root, maxDepth: nat, state: SearchState, depthOf: map<nat, nat>,
                     done: set<nat>, queue: seq<SearchState>, v: nat)
    requires Explored(g, root, maxDepth, depthOf, done, {state.function_}, queue, state.depth)
    requires state.function_ in depthOf && depthOf[state.function_] == state.depth && v in depthOf
    ensures IsDistance(g, root.function_, v, depthOf[v])
  {
    forall m: nat | ReachedIn(g, root.function_, v, m) ensures depthOf[v] <= m {
      if m < depthOf[v] {
        var steps :| |steps| == m && IsChain(g, root.function_, steps, v);
        NearChainsAreFound(g, root, maxDepth, state, depthOf, done, queue, steps, v);
      }
    }
  }

  lemma NearIsDone(g: CallGraph, root: Root, maxDepth: nat, state: SearchState, depthOf: map<nat, nat>, done: set<nat>,
                   queue: seq<SearchState>, f: nat, n: nat)
    requires Explored(g, root, maxDepth, depthOf, done, {state.function_}, queue, state.depth)
    requires state.function_ in depthOf && depthOf[state.function_] == state.depth
    requires IsDistance(g, root.function_, f, n) && n < state.depth
    ensures f in depthOf && depthOf[f] == n && f in done
  {
    var steps :| |steps| == n && IsChain(g, root.function_, steps, f);
    NearChainsAreFound(g, root, maxDepth, state, depthOf, done, queue, steps, f);
    NearDistance(g, root, maxDepth, state, depthOf, done, queue, f);
  }

  lemma CappedHits(g: CallGraph, root: Root, r: nat, maxDepth: nat, state: SearchState, depthOf: map<nat, nat>,
                   done: set<nat>, queue: seq<SearchState>, hits: seq<Hit>, i: nat)
    requires Visiting(g, root, r, maxDepth, state, depthOf, done, queue, hits, i, i)
    ensures RootSearched(g, root, r, maxDepth, hits, true, true)
  {
    hide IsDistance, Evidenced, NearestFirst, Explored, Functions, HopsTaken, HitFor;
    CappedNearestFirst(g, root, r, maxDepth, state, depthOf, done, queue, hits, i);
    forall k | 0 <= k < |hits| ensures IsDistance(g, root.function_, hits[k].caller, hits[k].depth - 1) {
      NearDistance(g, root, maxDepth, state, depthOf, done, queue, hits[k].caller);
    }
  }

  lemma CappedNearestFirst(g: CallGraph, root: Root, r: nat, maxDepth: nat, state: SearchState, depthOf: map<nat, nat>,
                           done: set<nat>, queue: seq<SearchState>, hits: seq<Hit>, i: nat)
    requires Visiting(g, root, r, maxDepth, state, depthOf, done, queue, hits, i, i)
    ensures NearestFirst(g, root, maxDepth, hits, state.depth)
  {
    hide IsDistance, Evidenced;
    forall f: nat, n: nat, k: nat | IsDistance(g, root.function_, f, n) && n < state.depth && n + 1 <= maxDepth
        && k < |Edges(g, f)| && Edges(g, f)[k].forbidden
      ensures HitFor(hits, f, k)
    {
      NearIsDone(g, root, maxDepth, state, depthOf, done, queue, f, n);
      assert Due(g, maxDepth, depthOf, f, k);
    }
  }

  /** Once nothing is queued, every chain within the limit ends at a function
      found at no greater depth. */
  lemma {:induction false} ChainsAreFound(g: CallGraph, root: Root, maxDepth: nat, depthOf: map<nat, nat>,
                                          done: set<nat>, d: nat, steps: seq<(nat, nat)>, f: nat)
    requires Explored(g, root, maxDepth, depthOf, done, {}, [], d)
    requires IsChain(g, root.function_, steps, f)
    requires |steps| <= maxDepth || forall v :: v in depthOf && Edges(g, v) != [] ==> depthOf[v] + 1 <= maxDepth
    ensures f in depthOf && depthOf[f] <= |steps|
    decreases |steps|
  {
    if steps != [] {
      var (caller, position) := steps[|steps| - 1];
      ChainsAreFound(g, root, maxDepth, depthOf, done, d, steps[..|steps| - 1], caller);
      assert Accounted(depthOf, done, {}, []);
      assert HopsTaken(g, maxDepth, depthOf, caller, |Edges(g, caller)|);
      assert Hop(g, caller, position, f);
    }
  }

  lemma FoundAtDistance(g: CallGraph, root: Root, maxDepth: nat, depthOf: map<nat, nat>, done: set<nat>, d: nat, v: nat)
    requires Explored(g, root, maxDepth, depthOf, done, {}, [], d) && v in depthOf
    ensures IsDistance(g, root.function_, v, depthOf[v])
  {
    forall m: nat | ReachedIn(g, root.function_, v, m) ensures depthOf[v] <= m {
      if m < depthOf[v] {
        var steps :| |steps| == m && IsChain(g, root.function_, steps, v);
        ChainsAreFound(g, root, maxDepth, depthOf, done, d, steps, v);
      }
    }
  }

  lemma DistanceIsFound(g: CallGraph, root: Root, maxDepth: nat, depthOf: map<nat, nat>, done: set<nat>, d: nat, f: nat,
                        n: nat)
    requires Explored(g, root, maxDepth, depthOf, done, {}, [], d) && IsDistance(g, root.function_, f, n)
    requires n <= maxDepth || forall v :: v in depthOf && Edges(g, v) != [] ==> depthOf[v] + 1 <= maxDepth
    ensures f in depthOf && depthOf[f] == n
  {
    var steps :| |steps| == n && IsChain(g, root.function_, steps, f);
    ChainsAreFound(g, root, maxDepth, depthOf, done, d, steps, f);
    FoundAtDistance(g, root, maxDepth, depthOf, done, d, f);
  }

  lemma AllDone(g: CallGraph, root: Root, maxDepth: nat, depthOf: map<nat, nat>, done: set<nat>, d: nat)
    requires Explored(g, root, maxDepth, depthOf, done, {}, [], d)
    ensures depthOf.Keys == done
  {
  }

  lemma SearchComplete(g: CallGraph, root: Root, r: nat, maxDepth: nat, depthOf: map<nat, nat>, done: set<nat>, d: nat,
                       hits: seq<Hit>, truncated: bool)
    requires Explored(g, root, maxDepth, depthOf, done, {}, [], d)
    requires Reported(g, root, r, maxDepth, depthOf, done, 0, 0, hits)
    requires truncated <==> exists v :: v in done && v in depthOf && depthOf[v] + 1 > maxDepth && Edges(g, v) != []
    ensures RootSearched(g, root, r, maxDepth, hits, false, truncated)
  {
    hide Explored, IsDistance, Evidenced;
    AllDone(g, root, maxDepth, depthOf, done, d);
    forall i | 0 <= i < |hits| ensures IsDistance(g, root.function_, hits[i].caller, hits[i].depth - 1) {
      FoundAtDistance(g, root, maxDepth, depthOf, done, d, hits[i].caller);
    }
    forall f: nat, n: nat, k: nat | IsDistance(g, root.function_, f, n) && n + 1 <= maxDepth && k < |Edges(g, f)|
          && Edges(g, f)[k].forbidden
      ensures HitFor(hits, f, k)
    {
      DistanceIsFound(g, root, maxDepth, depthOf, done, d, f, n);
      assert Due(g, maxDepth, depthOf, f, k);
    }
    if truncated {
      var v :| v in done && v in depthOf && depthOf[v] + 1 > maxDepth && Edges(g, v) != [];
      FoundAtDistance(g, root, maxDepth, depthOf, done, d, v);
    } else {
      forall f: nat, n: nat | IsDistance(g, root.function_, f, n) && n + 1 > maxDepth && Edges(g, f) != []
        ensures false {
        DistanceIsFound(g, root, maxDepth, depthOf, done, d, f, n);
      }
    }
  }

  lemma StartSearch(g: CallGraph, root: Root, r: nat, maxDepth: nat)
    ensures var f := root.function_;
            Explored(g, root, maxDepth, map[f := 0], {}, {}, [SearchState(f, 0, [root.name])], 0)
            && Reported(g, root, r, maxDepth, map[f := 0], {}, 0, 0, [])
  {
    var f := root.function_;
    var steps: seq<(nat, nat)> := [];
    assert IsChain(g, f, steps, f) && [root.name] == [root.name] + Labels(g, steps);
    var queue := [SearchState(f, 0, [root.name])];
    assert queue[0].function_ == f;
    assert Evidenced(g, root, f, 0, [root.name]);
    assert ReachedIn(g, f, f, 0);
  }

  method SearchRoot(g: CallGraph, root: Root, r: nat, maxDepth: nat, room: nat)
    returns (hits: seq<Hit>, truncated: bool, capped: bool)
    ensures RootSearched(g, root, r, maxDepth, hits, capped, truncated)
    ensures |hits| <= room && (capped ==> truncated && |hits| == room)
    ensures capped <==> |AllHits(g, root, r, maxDepth)| > room
    ensures hits <= AllHits(g, root, r, maxDepth) && (!capped ==> hits == AllHits(g, root, r, maxDepth))
  {
    hide Visiting, Explored, Reported, RootSearched, Functions, FollowFrom, Complete;
    var queue := [SearchState(root.function_, 0, [root.name])];
    var visited := {root.function_};
    hits, truncated := [], false;
    ghost var depthOf: map<nat, nat>, done: set<nat>, d: nat := map[root.function_ := 0], {}, 0;
    StartSearch(g, root, r, maxDepth);
    while queue != []
      invariant visited == depthOf.Keys <= Functions(g, root.function_) && |hits| <= room
      invariant Explored(g, root, maxDepth, depthOf, done, {}, queue, d)
      invariant Reported(g, root, r, maxDepth, depthOf, done, 0, 0, hits)
      invariant truncated <==> exists v :: v in done && v in depthOf && depthOf[v] + 1 > maxDepth && Edges(g, v) != []
      invariant Complete(g, root, r, maxDepth, Walk(visited, queue, hits)).hits == AllHits(g, root, r, maxDepth)
      decreases Functions(g, root.function_) - visited, |queue|
    {
      var state := queue[0];
      BeginVisit(g, root, r, maxDepth, depthOf, done, queue, d, hits);
      VisitedDepth(g, root, r, maxDepth, state, depthOf, done, queue[1..], hits);
      ghost var visited0, depthOf0, truncated0 := visited, depthOf, truncated;
      CompleteNext(g, root, r, maxDepth, Walk(visited, queue, hits));
      depthOf, visited, queue, hits, truncated, capped :=
        VisitFunction(g, root, r, maxDepth, room, state, depthOf, done, visited, queue[1..], hits, truncated);
      if capped {
        ghost var i: nat :| Visiting(g, root, r, maxDepth, state, depthOf, done, queue, hits, i, i);
        CappedHits(g, root, r, maxDepth, state, depthOf, done, queue, hits, i);
        return;
      }
      FinishVisit(g, root, r, maxDepth, state, depthOf, done, queue, hits);
      assert forall v :: v in done + {state.function_} ==> v in done || v == state.function_;
      done, d := done + {state.function_}, state.depth;
      assert visited != visited0 ==> Functions(g, root.function_) - visited < Functions(g, root.function_) - visited0;
    }
    SearchComplete(g, root, r, maxDepth, depthOf, done, d, hits, truncated);
    CompleteDone(g, root, r, maxDepth, Walk(visited, queue, hits));
    capped := false;
  }

  lemma VisitedDepth(g: CallGraph, root: Root, r: nat, maxDepth: nat, state: SearchState, depthOf: map<nat, nat>,
                     done: set<nat>, queue: seq<SearchState>, hits: seq<Hit>)
    requires Visiting(g, root, r, maxDepth, state, depthOf, done, queue, hits, 0, 0)
    ensures state.function_ in depthOf && depthOf[state.function_] == state.depth && done <= depthOf.Keys
  {
  }

  // ----- all roots, and the budget mark

  ghost function Concat(segments: seq<seq<Hit>>): seq<Hit> {
    if segments == [] then [] else Concat(segments[..|segments| - 1]) + segments[|segments| - 1]
  }

  lemma ConcatSnoc(segments: seq<seq<Hit>>, hits: seq<Hit>)
    ensures Concat(segments + [hits]) == Concat(segments) + hits
  {
    assert (segments + [hits])[..|segments|] == segments;
  }

  lemma {:induction false} InConcat(segments: seq<seq<Hit>>, i: nat, h: Hit)
    requires i < |segments| && h in segments[i]
    ensures h in Concat(segments)
  {
    if i < |segments| - 1 {
      InConcat(segments[..|segments| - 1], i, h);
    }
  }

  /** Marks the last hit as cut short by a budget; an empty list has none to mark. */
  function MarkLast(hits: seq<Hit>): seq<Hit> {
    if hits == [] then [] else hits[..|hits| - 1] + [hits[|hits| - 1].(overBudget := true)]
  }

  /** What the whole query computed: one segment per root searched, of which only
      the last may have met the path limit, and the mark that truncation leaves. */
  ghost predicate Searched(g: CallGraph, roots: seq<Root>, maxDepth: nat, maxPaths: nat, results: seq<Hit>,
                           segments: seq<seq<Hit>>, cut: seq<bool>, capped: bool) {
    |segments| == |cut| <= |roots| && (!capped ==> |segments| == |roots|)
    && (capped ==> segments != [] && cut[|cut| - 1] && |Concat(segments)| == maxPaths)
    && |Concat(segments)| <= maxPaths
    && (forall i :: 0 <= i < |segments| ==>
          RootSearched(g, roots[i], i, maxDepth, segments[i], capped && i == |segments| - 1, cut[i]))
    && results == if true in cut then MarkLast(Concat(segments)) else Concat(segments)
  }

  /** What the query returns: nothing without a budget, otherwise the searches' hits. */
  ghost predicate Answered(g: CallGraph, roots: seq<Root>, maxDepth: nat, maxPaths: nat, results: seq<Hit>) {
    if maxDepth == 0 || maxPaths == 0 then results == []
    else exists segments, cut, capped :: Searched(g, roots, maxDepth, maxPaths, results, segments, cut, capped)
  }

  /** The hits of the first `n` roots when no path limit cuts the search. */
  ghost function HitsOf(g: CallGraph, roots: seq<Root>, maxDepth: nat, n: nat): seq<Hit>
    requires n <= |roots|
  {
    if n == 0 then [] else HitsOf(g, roots, maxDepth, n - 1) + AllHits(g, roots[n - 1], n - 1, maxDepth)
  }

  function First(hits: seq<Hit>, n: nat): seq<Hit> {
    if |hits| <= n then hits else hits[..n]
  }

  /** Some function with calls lies beyond the depth limit of some root. */
  ghost predicate Beyond(g: CallGraph, roots: seq<Root>, maxDepth: nat) {
    exists r: nat, f: nat, n: nat :: Far(g, roots, maxDepth, r, f, n)
  }

  /** The answer to a query: nothing without a budget, otherwise the first hits of the
      unlimited search, the last of them marked when either limit cut something. */
  ghost function AnswerTo(g: CallGraph, roots: seq<Root>, maxDepth: nat, maxPaths: nat): seq<Hit> {
    if maxDepth == 0 || maxPaths == 0 then []
    else
      var all := HitsOf(g, roots, maxDepth, |roots|);
      if |all| > maxPaths || Beyond(g, roots, maxDepth) then MarkLast(First(all, maxPaths)) else all
  }

  lemma {:induction false} HitsOfGrows(g: CallGraph, roots: seq<Root>, maxDepth: nat, m: nat, n: nat)
    requires m <= n <= |roots|
    ensures HitsOf(g, roots, maxDepth, m) <= HitsOf(g, roots, maxDepth, n)
    decreases n
  {
    if m < n {
      HitsOfGrows(g, roots, maxDepth, m, n - 1);
    }
  }

  lemma HitsOfNext(g: CallGraph, roots: seq<Root>, maxDepth: nat, i: nat)
    requires i < |roots|
    ensures HitsOf(g, roots, maxDepth, i + 1) ==
            HitsOf(g, roots, maxDepth, i) + AllHits(g, roots[i], i, maxDepth)
  {
  }

  ghost predicate Unmarked(hits: seq<Hit>) {
    forall i :: 0 <= i < |hits| ==> !hits[i].overBudget
  }

  lemma {:induction false} FollowedUnmarked(g: CallGraph, root: Root, r: nat, maxDepth: nat, s: SearchState, i: nat,
                                            w: Walk)
    requires Unmarked(w.hits)
    ensures Unmarked(FollowFrom(g, root, r, maxDepth, s, i, w).hits)
    decreases |Edges(g, s.function_)| - i
  {
    if i < |Edges(g, s.function_)| {
      FollowedUnmarked(g, root, r, maxDepth, s, i + 1, Follow(g, r, maxDepth, s, i, w));
    }
  }

  lemma {:induction false} CompletedUnmarked(g: CallGraph, root: Root, r: nat, maxDepth: nat, w: Walk)
    requires Unmarked(w.hits)
    ensures Unmarked(Complete(g, root, r, maxDepth, w).hits)
    decreases Functions(g, root.function_) - w.visited, |w.queue|
  {
    if w.queue != [] {
      var next := FollowFrom(g, root, r, maxDepth, w.queue[0], 0, w.(queue := w.queue[1..]));
      FollowedUnmarked(g, root, r, maxDepth, w.queue[0], 0, w.(queue := w.queue[1..]));
      assert next.visited != w.visited ==>
          Functions(g, root.function_) - next.visited < Functions(g, root.function_) - w.visited;
      CompletedUnmarked(g, root, r, maxDepth, next);
    }
  }

  lemma {:induction false} HitsOfUnmarked(g: CallGraph, roots: seq<Root>, maxDepth: nat, n: nat)
    requires n <= |roots|
    ensures Unmarked(HitsOf(g, roots, maxDepth, n))
  {
    if n > 0 {
      HitsOfUnmarked(g, roots, maxDepth, n - 1);
      var root := roots[n - 1];
      CompletedUnmarked(g, root, n - 1, maxDepth, Walk({root.function_}, [SearchState(root.function_, 0, [root.name])],
                                                       []));
    }
  }

  /** The answer is the first hits of the unlimited search but for the mark, which its last
      hit carries exactly when something was cut. */
  lemma AnswerHits(g: CallGraph, roots: seq<Root>, maxDepth: nat, maxPaths: nat, all: seq<Hit>)
    requires maxDepth > 0 && maxPaths > 0 && all == HitsOf(g, roots, maxDepth, |roots|)
    ensures var answer := AnswerTo(g, roots, maxDepth, maxPaths);
            && |answer| == |First(all, maxPaths)|
            && (forall i :: 0 <= i < |answer| ==> answer[i].(overBudget := false) == all[i])
            && (answer != [] ==>
                (answer[|answer| - 1].overBudget <==> |all| > maxPaths || Beyond(g, roots, maxDepth)))
  {
    HitsOfUnmarked(g, roots, maxDepth, |roots|);
    var first := First(all, maxPaths);
    assert forall i :: 0 <= i < |first| ==> first[i] == all[i];
    MarkLastHits(first);
    hide HitsOf, Beyond, MarkLast;
    if !(|all| > maxPaths || Beyond(g, roots, maxDepth)) {
      assert AnswerTo(g, roots, maxDepth, maxPaths) == first;
    }
  }

  lemma MarkLastHits(hits: seq<Hit>)
    requires Unmarked(hits)
    ensures |MarkLast(hits)| == |hits| && (hits != [] ==> MarkLast(hits)[|hits| - 1].overBudget)
    ensures forall i :: 0 <= i < |hits| ==> MarkLast(hits)[i].(overBudget := false) == hits[i]
  {
  }

  /** A smaller path limit only cuts the answer: what it reports is what the larger one
      reports first, up to the mark, and an answer that carries hits and no mark, or, with
      some budget, no hits, stays the same under every larger limit. */
  lemma SmallerLimitOnlyCuts(g: CallGraph, roots: seq<Root>, maxDepth: nat, p: nat, q: nat)
    requires p <= q
    ensures var small, large := AnswerTo(g, roots, maxDepth, p), AnswerTo(g, roots, maxDepth, q);
            && |small| <= |large|
            && (forall i :: 0 <= i < |small| ==> small[i].(overBudget := large[i].overBudget) == large[i])
            && (small != [] && !small[|small| - 1].overBudget ==> large == small)
            && (p > 0 && small == [] ==> large == [])
  {
    hide HitsOf, Beyond, MarkLast;
    if maxDepth > 0 && p > 0 {
      var all := HitsOf(g, roots, maxDepth, |roots|);
      AnswerHits(g, roots, maxDepth, p, all);
      AnswerHits(g, roots, maxDepth, q, all);
      var small, large := AnswerTo(g, roots, maxDepth, p), AnswerTo(g, roots, maxDepth, q);
      hide AnswerTo;
      forall i | 0 <= i < |small| ensures small[i].(overBudget := large[i].overBudget) == large[i] {
        assert small[i].(overBudget := false) == all[i] == large[i].(overBudget := false);
      }
    }
  }

  lemma CutHere(before: seq<Hit>, hits: seq<Hit>, more: seq<Hit>, all: seq<Hit>, maxPaths: nat)
    requires before + more <= all && hits <= more && |before| + |hits| == maxPaths && |hits| < |more|
    ensures before + hits == First(all, maxPaths)
  {
  }

  lemma NothingCut(all: seq<Hit>, maxPaths: nat)
    requires |all| <= maxPaths
    ensures First(all, maxPaths) == all
  {
  }

  /** One segment per root searched so far. */
  ghost predicate SearchedSoFar(g: CallGraph, roots: seq<Root>, maxDepth: nat, segments: seq<seq<Hit>>, cut: seq<bool>,
                                capped: bool) {
    |segments| == |cut| <= |roots| && forall i :: 0 <= i < |segments| ==>
      RootSearched(g, roots[i], i, maxDepth, segments[i], capped && i == |segments| - 1, cut[i])
  }

  lemma SearchNext(g: CallGraph, roots: seq<Root>, maxDepth: nat, segments: seq<seq<Hit>>, cut: seq<bool>,
                   hits: seq<Hit>, over: bool, stop: bool)
    requires SearchedSoFar(g, roots, maxDepth, segments, cut, false) && |segments| < |roots|
    requires RootSearched(g, roots[|segments|], |segments|, maxDepth, hits, stop, over)
    ensures SearchedSoFar(g, roots, maxDepth, segments + [hits], cut + [over], stop)
    ensures Concat(segments + [hits]) == Concat(segments) + hits && (true in cut + [over] <==> true in cut || over)
  {
    hide RootSearched, Concat;
    ConcatSnoc(segments, hits);
    CutSnoc(cut, over);
    var n, segments', cut' := |segments|, segments + [hits], cut + [over];
    forall i | 0 <= i <= n
      ensures RootSearched(g, roots[i], i, maxDepth, segments'[i], stop && i == n, cut'[i])
    {
      if i < n {
        assert RootSearched(g, roots[i], i, maxDepth, segments[i], false, cut[i]);
        assert segments'[i] == segments[i] && cut'[i] == cut[i];
      }
    }
  }

  lemma CutSnoc(cut: seq<bool>, over: bool)
    ensures true in cut + [over] <==> true in cut || over
  {
    assert over ==> (cut + [over])[|cut|];
  }

  lemma IsSearched(g: CallGraph, roots: seq<Root>, maxDepth: nat, maxPaths: nat, results: seq<Hit>,
                   segments: seq<seq<Hit>>, cut: seq<bool>, capped: bool)
    requires SearchedSoFar(g, roots, maxDepth, segments, cut, capped) && |Concat(segments)| <= maxPaths
    requires if capped then segments != [] && cut[|cut| - 1] && |Concat(segments)| == maxPaths
             else |segments| == |roots|
    requires results == if true in cut then MarkLast(Concat(segments)) else Concat(segments)
    ensures Searched(g, roots, maxDepth, maxPaths, results, segments, cut, capped)
  {
    hide RootSearched, Concat, MarkLast;
  }

  /** Without a path cap something was cut exactly when something lies beyond the depth
      limit. */
  lemma CutExactlyWhen(g: CallGraph, roots: seq<Root>, maxDepth: nat, segments: seq<seq<Hit>>, cut: seq<bool>,
                       capped: bool)
    requires SearchedSoFar(g, roots, maxDepth, segments, cut, capped)
    requires if capped then segments != [] && cut[|cut| - 1] else |segments| == |roots|
    ensures true in cut <==> capped || Beyond(g, roots, maxDepth)
  {
    hide IsDistance, RootSearched;
    if !capped {
      forall r: nat | r < |roots|
        ensures cut[r] <==> exists f: nat, n: nat :: Far(g, roots, maxDepth, r, f, n)
      {
        assert RootSearched(g, roots[r], r, maxDepth, segments[r], false, cut[r]);
        SegmentCut(g, roots, r, maxDepth, segments[r], cut[r]);
      }
      if true in cut {
        var r :| 0 <= r < |cut| && cut[r];
        var f: nat, n: nat :| Far(g, roots, maxDepth, r, f, n);
      }
      if r: nat, f: nat, n: nat :| Far(g, roots, maxDepth, r, f, n) {
        assert cut[r];
      }
    }
  }

  lemma SegmentCut(g: CallGraph, roots: seq<Root>, r: nat, maxDepth: nat, hits: seq<Hit>, truncated: bool)
    requires r < |roots| && RootSearched(g, roots[r], r, maxDepth, hits, false, truncated)
    ensures truncated <==> exists f: nat, n: nat :: Far(g, roots, maxDepth, r, f, n)
  {
    hide IsDistance, Evidenced, HitFor;
    if truncated {
      var f: nat, n: nat :| IsDistance(g, roots[r].function_, f, n) && n + 1 > maxDepth && Edges(g, f) != [];
      assert Far(g, roots, maxDepth, r, f, n);
    }
    if f: nat, n: nat :| Far(g, roots, maxDepth, r, f, n) {
      assert IsDistance(g, roots[r].function_, f, n);
    }
  }

  method ForbiddenReachableCalls(g: CallGraph, roots: seq<Root>, maxDepth: nat, maxPaths: nat)
    returns (results: seq<Hit>)
    ensures Answered(g, roots, maxDepth, maxPaths, results)
    ensures results == AnswerTo(g, roots, maxDepth, maxPaths)
  {
    hide Beyond, SearchedSoFar, RootSearched, Concat, HitsOf, AllHits, First, Searched;
    ghost var all := HitsOf(g, roots, maxDepth, |roots|);
    ghost var segments: seq<seq<Hit>>, cut: seq<bool>, capped := [], [], false;
    results := [];
    if maxDepth == 0 || maxPaths == 0 {
      return;
    }
    NothingSearched(g, roots, maxDepth);
    var truncated := false;
    var i := 0;
    while i < |roots|
      invariant 0 <= i <= |roots| && |segments| == |cut| == i
      invariant results == Concat(segments) == HitsOf(g, roots, maxDepth, i) && |results| <= maxPaths
      invariant truncated <==> true in cut
      invariant SearchedSoFar(g, roots, maxDepth, segments, cut, false)
    {
      var hits, over, stop := SearchRoot(g, roots[i], i, maxDepth, maxPaths - |results|);
      HitsOfNext(g, roots, maxDepth, i);
      SearchNext(g, roots, maxDepth, segments, cut, hits, over, stop);
      segments, cut := segments + [hits], cut + [over];
      results := results + hits;
      truncated := truncated || over;
      if stop {
        HitsOfGrows(g, roots, maxDepth, i + 1, |roots|);
        CutHere(HitsOf(g, roots, maxDepth, i), hits, AllHits(g, roots[i], i, maxDepth), all, maxPaths);
        capped := true;
        break;
      }
      i := i + 1;
    }
    if !capped {
      NothingCut(all, maxPaths);
    }
    assert results == First(all, maxPaths) && (capped <==> |all| > maxPaths);
    CutExactlyWhen(g, roots, maxDepth, segments, cut, capped);
    if truncated && results != [] {
      results := results[..|results| - 1] + [results[|results| - 1].(overBudget := true)];
    }
    IsSearched(g, roots, maxDepth, maxPaths, results, segments, cut, capped);
  }

  lemma NothingSearched(g: CallGraph, roots: seq<Root>, maxDepth: nat)
    ensures SearchedSoFar(g, roots, maxDepth, [], [], false) && Concat([]) == [] == HitsOf(g, roots, maxDepth, 0)
  {
  }

  lemma {:induction false} ConcatUnmarked(g: CallGraph, roots: seq<Root>, maxDepth: nat, segments: seq<seq<Hit>>,
                                          cut: seq<bool>, capped: bool)
    requires |segments| == |cut| <= |roots|
    requires forall i :: 0 <= i < |segments| ==>
      RootSearched(g, roots[i], i, maxDepth, segments[i], capped && i == |segments| - 1, cut[i])
    ensures forall h :: h in Concat(segments) ==> !h.overBudget
  {
    if segments != [] {
      var n := |segments| - 1;
      forall i | 0 <= i < n ensures RootSearched(g, roots[i], i, maxDepth, segments[..n][i], false, cut[..n][i]) {
        assert RootSearched(g, roots[i], i, maxDepth, segments[i], false, cut[i]);
      }
      assert segments[n] == segments[|segments| - 1];
      assert forall k :: 0 <= k < |segments[n]| ==> !segments[n][k].overBudget by {
        assert RootSearched(g, roots[n], n, maxDepth, segments[n], capped, cut[n]);
      }
      ConcatUnmarked(g, roots, maxDepth, segments[..n], cut[..n], false);
    }
  }

  /** With a hit to carry it, the mark tells exactly whether anything was cut. */
  lemma MarkIsTruthful(g: CallGraph, roots: seq<Root>, maxDepth: nat, maxPaths: nat, results: seq<Hit>,
                       segments: seq<seq<Hit>>, cut: seq<bool>, capped: bool)
    requires Searched(g, roots, maxDepth, maxPaths, results, segments, cut, capped)
    ensures results != [] ==> (true in cut <==> results[|results| - 1].overBudget)
  {
    hide RootSearched;
    ConcatUnmarked(g, roots, maxDepth, segments, cut, capped);
  }

  /** The forbidden call at `k` of a function at distance `n` from a root. */
  ghost predicate DueCall(g: CallGraph, roots: seq<Root>, r: nat, f: nat, n: nat, k: nat) {
    r < |roots| && IsDistance(g, roots[r].function_, f, n) && k < |Edges(g, f)| && Edges(g, f)[k].forbidden
  }

  /** A nonempty answer whose last hit is unmarked left nothing out: every
      forbidden call of every function reachable from any root, at any distance,
      is in it. */
  lemma UnmarkedIsComplete(g: CallGraph, roots: seq<Root>, maxDepth: nat, maxPaths: nat, results: seq<Hit>,
                           segments: seq<seq<Hit>>, cut: seq<bool>, capped: bool, r: nat, f: nat, n: nat, k: nat)
    requires Searched(g, roots, maxDepth, maxPaths, results, segments, cut, capped)
    ensures results != [] && !results[|results| - 1].overBudget && DueCall(g, roots, r, f, n, k) ==>
      exists i :: 0 <= i < |results| && results[i].root == r && results[i].caller == f && results[i].position == k
            && results[i].depth == n + 1
  {
    hide IsDistance, Evidenced;
    if results == [] || results[|results| - 1].overBudget || !DueCall(g, roots, r, f, n, k) {
      return;
    }
    MarkIsTruthful(g, roots, maxDepth, maxPaths, results, segments, cut, capped);
    assert true !in cut;
    assert !capped;
    assert RootSearched(g, roots[r], r, maxDepth, segments[r], false, cut[r]);
    assert !cut[r];
    assert n + 1 <= maxDepth;
    assert HitFor(segments[r], f, k);
    var j :| 0 <= j < |segments[r]| && segments[r][j].caller == f && segments[r][j].position == k;
    DistanceUnique(g, roots[r].function_, f, n, segments[r][j].depth - 1);
    InConcat(segments, r, segments[r][j]);
  }

  // ----- when the answer is silent about what it left out

  ghost predicate NothingNear(g: CallGraph, roots: seq<Root>, maxDepth: nat) {
    forall r: nat, f: nat, n: nat, k: nat :: DueCall(g, roots, r, f, n, k) ==> n + 1 > maxDepth
  }

  /** A function with calls that lies beyond the depth limit. */
  ghost predicate Far(g: CallGraph, roots: seq<Root>, maxDepth: nat, r: nat, f: nat, n: nat) {
    r < |roots| && IsDistance(g, roots[r].function_, f, n) && n + 1 > maxDepth && Edges(g, f) != []
  }

  lemma {:induction false} LeastDistance(g: CallGraph, root: nat, f: nat, n: nat) returns (m: nat)
    requires ReachedIn(g, root, f, n)
    ensures m <= n && IsDistance(g, root, f, m)
    decreases n
  {
    if k: nat :| k < n && ReachedIn(g, root, f, k) {
      m := LeastDistance(g, root, f, k);
    } else {
      m := n;
    }
  }

  lemma {:induction false} ConcatOrigin(segments: seq<seq<Hit>>) returns (i: nat)
    requires Concat(segments) != []
    ensures i < |segments| && segments[i] != []
  {
    if segments[|segments| - 1] != [] {
      i := |segments| - 1;
    } else {
      assert Concat(segments) == Concat(segments[..|segments| - 1]);
      i := ConcatOrigin(segments[..|segments| - 1]);
    }
  }

  /** A hit stands for a forbidden call within the depth limit. */
  lemma HitIsNear(g: CallGraph, roots: seq<Root>, r: nat, maxDepth: nat, hits: seq<Hit>, capped: bool, truncated: bool)
    requires r < |roots| && RootSearched(g, roots[r], r, maxDepth, hits, capped, truncated) && hits != []
    ensures !NothingNear(g, roots, maxDepth)
  {
    hide IsDistance;
    var h := hits[0];
    EvidencedIsReached(g, roots[r], h.caller, h.depth - 1, h.path[..|h.path| - 1]);
    var n := LeastDistance(g, roots[r].function_, h.caller, h.depth - 1);
    assert DueCall(g, roots, r, h.caller, n, h.position);
  }

  /** The answer is empty exactly when no forbidden call lies within the depth limit,
      and then the search was cut exactly when something lies beyond it. */
  lemma EmptyExactlyWhen(g: CallGraph, roots: seq<Root>, maxDepth: nat, maxPaths: nat, results: seq<Hit>,
                         segments: seq<seq<Hit>>, cut: seq<bool>, capped: bool)
    requires maxPaths > 0 && Searched(g, roots, maxDepth, maxPaths, results, segments, cut, capped)
    ensures results == [] <==> NothingNear(g, roots, maxDepth)
    ensures results == [] && true in cut <==>
            NothingNear(g, roots, maxDepth) && exists r: nat, f: nat, n: nat :: Far(g, roots, maxDepth, r, f, n)
  {
    hide RootSearched, IsDistance, Concat;
    if results != [] {
      assert Concat(segments) != [];
      var i := ConcatOrigin(segments);
      assert RootSearched(g, roots[i], i, maxDepth, segments[i], capped && i == |segments| - 1, cut[i]);
      HitIsNear(g, roots, i, maxDepth, segments[i], capped && i == |segments| - 1, cut[i]);
    } else {
      assert !capped;
      forall r: nat | r < |roots|
        ensures forall f: nat, n: nat, k: nat :: DueCall(g, roots, r, f, n, k) ==> n + 1 > maxDepth
        ensures cut[r] <==> exists f: nat, n: nat :: Far(g, roots, maxDepth, r, f, n)
      {
        assert RootSearched(g, roots[r], r, maxDepth, segments[r], false, cut[r]);
        if segments[r] != [] {
          InConcat(segments, r, segments[r][0]);
        }
        EmptySegment(g, roots, r, maxDepth, segments[r], cut[r]);
      }
      if true in cut {
        var r :| 0 <= r < |cut| && cut[r];
        var f: nat, n: nat :| Far(g, roots, maxDepth, r, f, n);
      }
      if r: nat, f: nat, n: nat :| Far(g, roots, maxDepth, r, f, n) {
        assert cut[r];
      }
    }
  }

  lemma EmptySegment(g: CallGraph, roots: seq<Root>, r: nat, maxDepth: nat, hits: seq<Hit>, truncated: bool)
    requires r < |roots| && RootSearched(g, roots[r], r, maxDepth, hits, false, truncated) && hits == []
    ensures forall f: nat, n: nat, k: nat :: DueCall(g, roots, r, f, n, k) ==> n + 1 > maxDepth
    ensures truncated <==> exists f: nat, n: nat :: Far(g, roots, maxDepth, r, f, n)
  {
    hide IsDistance;
    forall f: nat, n: nat, k: nat | DueCall(g, roots, r, f, n, k) ensures n + 1 > maxDepth {
      assert n + 1 <= maxDepth ==> HitFor(hits, f, k);
    }
    SegmentCut(g, roots, r, maxDepth, hits, truncated);
  }

  ghost predicate IsReported(results: seq<Hit>, r: nat, f: nat, n: nat, k: nat) {
    exists i :: 0 <= i < |results| && results[i].root == r && results[i].caller == f && results[i].position == k
                && results[i].depth == n + 1
  }

  ghost predicate Misses(g: CallGraph, roots: seq<Root>, results: seq<Hit>) {
    exists r: nat, f: nat, n: nat, k: nat :: DueCall(g, roots, r, f, n, k) && !IsReported(results, r, f, n, k)
  }

  ghost predicate AnythingDue(g: CallGraph, roots: seq<Root>) {
    exists r: nat, f: nat, n: nat, k: nat :: DueCall(g, roots, r, f, n, k)
  }

  /** An answer without a mark misses a reachable forbidden call exactly when there is one
      and the query has no budget or all of them lie beyond the depth limit. */
  lemma SilentlyIncompleteExactlyWhen(g: CallGraph, roots: seq<Root>, maxDepth: nat, maxPaths: nat, results: seq<Hit>)
    requires Answered(g, roots, maxDepth, maxPaths, results)
    ensures (results == [] || !results[|results| - 1].overBudget) && Misses(g, roots, results) <==>
            (maxDepth == 0 || maxPaths == 0 || NothingNear(g, roots, maxDepth)) && AnythingDue(g, roots)
  {
    hide DueCall, Searched;
    if maxDepth > 0 && maxPaths > 0 {
      var segments, cut, capped :| Searched(g, roots, maxDepth, maxPaths, results, segments, cut, capped);
      EmptyExactlyWhen(g, roots, maxDepth, maxPaths, results, segments, cut, capped);
      if results != [] && !results[|results| - 1].overBudget {
        forall r: nat, f: nat, n: nat, k: nat | DueCall(g, roots, r, f, n, k) ensures IsReported(results, r, f, n, k) {
          UnmarkedIsComplete(g, roots, maxDepth, maxPaths, results, segments, cut, capped, r, f, n, k);
        }
      }
    }
    if r: nat, f: nat, n: nat, k: nat :| DueCall(g, roots, r, f, n, k) && results == [] {
      assert !IsReported(results, r, f, n, k);
    }
  }

  lemma DistanceUnique(g: CallGraph, root: nat, f: nat, n: nat, m: nat)
    requires IsDistance(g, root, f, n) && IsDistance(g, root, f, m)
    ensures n == m
  {
  }

  /** A call that is not resolved is not followed, even when it names a target. */
  lemma UnresolvedIsNotFollowed(n: nat)
    ensures !ReachedIn(map[0 := [CallEdge("f", false, false, Some(1))]], 0, 1, n)
  {
    var g: CallGraph := map[0 := [CallEdge("f", false, false, Some(1))]];
    assert forall caller: nat, position: nat :: !Hop(g, caller, position, 1);
    forall steps: seq<(nat, nat)> ensures !IsChain(g, 0, steps, 1) {
      assert steps != [] ==> !Hop(g, steps[|steps| - 1].0, steps[|steps| - 1].1, 1);
    }
  }

  /** A root that calls a helper that makes the forbidden call. */
  function TwoHops(): CallGraph {
    map[0 := [CallEdge("helper", false, true, Some(1))], 1 := [CallEdge("forbidden", true, false, None)]]
  }

  lemma TwoHopsDistances()
    ensures IsDistance(TwoHops(), 0, 0, 0) && IsDistance(TwoHops(), 0, 1, 1) && !IsDistance(TwoHops(), 0, 1, 0)
  {
    var empty: seq<(nat, nat)>, one := [], [(0, 0)];
    assert IsChain(TwoHops(), 0, empty, 0);
    assert one[..0] == empty && Hop(TwoHops(), 0, 0, 1) && IsChain(TwoHops(), 0, one, 1);
  }

  lemma TwoHopsFirstHit(hits: seq<Hit>, cut: bool)
    requires RootSearched(TwoHops(), Root(0, "main"), 0, 1, hits, false, cut) && hits != []
    ensures IsDistance(TwoHops(), 0, 1, 0)
  {
    hide IsDistance, Evidenced;
    assert hits[0].caller == 1 && hits[0].depth == 1;
  }

  lemma TwoHopsSearched(hits: seq<Hit>, cut: bool)
    requires RootSearched(TwoHops(), Root(0, "main"), 0, 1, hits, false, cut)
    ensures hits == [] && cut
  {
    TwoHopsDistances();
    hide IsDistance, Evidenced;
    if hits != [] {
      TwoHopsFirstHit(hits, cut);
    }
    assert IsDistance(TwoHops(), Root(0, "main").function_, 1, 1) && 1 + 1 > 1 && Edges(TwoHops(), 1) != [];
  }

  /** An empty answer carries no mark, so it can hide a truncated search: here the
      forbidden call is one hop beyond the depth limit and nothing says so. */
  lemma EmptyAnswerHidesTruncation(results: seq<Hit>, segments: seq<seq<Hit>>, cut: seq<bool>)
    requires Searched(TwoHops(), [Root(0, "main")], 1, 5, results, segments, cut, false)
    ensures IsDistance(TwoHops(), 0, 1, 1) && Edges(TwoHops(), 1)[0].forbidden
    ensures results == [] && cut == [true]
  {
    hide RootSearched, IsDistance;
    TwoHopsDistances();
    assert segments == [segments[0]] && Concat(segments[..0]) == [];
    TwoHopsSearched(segments[0], cut[0]);
  }
}
