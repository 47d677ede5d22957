/** The block relation the control-flow queries consult, and what its answers
    mean on the control-flow graph whose dominators fill it. */
module Dominance {
  import opened Graphs

  /** Three-valued answer of one relation lookup. */
  datatype DominanceAnswer = Holds | DoesNotHold | Unknown(reason: string)

  const DOMINANCE_MISSING_BLOCK_IDS := "missing_block_ids"
  const DOMINANCE_EMPTY_RELATION := "empty_relation"

  /** Every path from the entry to `b` passes through `a`. */
  ghost predicate Dominates(g: Adjacency, entry: nat, a: nat, b: nat) {
    forall p :: PathFromTo(g, p, entry, b) ==> a in p
  }

  ghost predicate StrictlyDominates(g: Adjacency, entry: nat, a: nat, b: nat) {
    a != b && Dominates(g, entry, a, b)
  }

  /** `d` strictly dominates `b` and every other strict dominator of `b`
      dominates `d`. */
  ghost predicate ImmediatelyDominates(g: Adjacency, entry: nat, d: nat, b: nat) {
    StrictlyDominates(g, entry, d, b)
    && forall c :: StrictlyDominates(g, entry, c, b) ==> Dominates(g, entry, c, d)
  }

  /** Rows point from a dominated block to a dominator. They are sound when each
      row of a reachable block names a true dominator, the block itself included. */
  ghost predicate SoundRows(rows: Adjacency, g: Adjacency, entry: nat) {
    forall b, a :: Edge(rows, b, a) && Reachable(g, entry, b) ==> Dominates(g, entry, a, b)
  }

  ghost predicate HasImmediateRows(rows: Adjacency, g: Adjacency, entry: nat) {
    forall b, d :: Reachable(g, entry, b) && ImmediatelyDominates(g, entry, d, b) ==> Edge(rows, b, d)
  }

  // ----- building and searching the relation

  /** Groups the rows by source, keeping their order. */
  method BuildRelation(rows: seq<(nat, nat)>) returns (rel: Adjacency)
    ensures forall a: nat, b: nat :: Edge(rel, a, b) <==> (a, b) in rows
    ensures rel == map[] <==> rows == []
  {
    rel := map[];
    for i := 0 to |rows|
      invariant forall a: nat, b: nat :: Edge(rel, a, b) <==> (a, b) in rows[..i]
      invariant rel == map[] <==> i == 0
    {
      var (source, destination) := rows[i];
      ghost var before := rel;
      rel := rel[source := Successors(rel, source) + [destination]];
      assert rows[..i + 1] == rows[..i] + [rows[i]];
      assert source in rel;
      forall a: nat, b: nat ensures Edge(rel, a, b) <==> (a, b) in rows[..i + 1] {
        assert Edge(before, a, b) <==> (a, b) in rows[..i];
      }
    }
    assert rows[..|rows|] == rows;
  }

  /** Breadth-first closure over the rows. It ends on cyclic relations too. */
  method RelationReaches(rel: Adjacency, start: nat, target: nat) returns (found: bool)
    ensures found <==> StrictlyReachable(rel, start, target)
  {
    var seen := {start};
    var queue := [start];
    ReachableReflexive(rel, start);
    while queue != []
      invariant SearchState(rel, start, target, seen, queue, {})
      decreases Universe(rel, start) - seen, |queue|
    {
      var current := queue[0];
      assert queue == [current] + queue[1..];
      ghost var before := seen;
      found, seen, queue := VisitDestinations(rel, start, target, current, seen, queue[1..]);
      if found {
        return;
      }
      assert seen != before ==> Universe(rel, start) - seen < Universe(rel, start) - before;
    }
    forall p | PathFromTo(rel, p, start, target) && |p| >= 2 ensures false {
      ClosedSetConfines(rel, seen, target, p);
    }
    return false;
  }

  /** One turn of the search: every destination of `current` is compared with the
      target and queued when it is new. */
  method VisitDestinations(rel: Adjacency, ghost start: nat, target: nat, current: nat, seen: set<nat>, queue: seq<nat>)
    returns (found: bool, seen': set<nat>, queue': seq<nat>)
    requires SearchState(rel, start, target, seen, queue, {current}) && current in seen
    ensures found ==> StrictlyReachable(rel, start, target)
    ensures !found ==> SearchState(rel, start, target, seen', queue', {})
    ensures seen <= seen' && (seen' == seen ==> queue' == queue)
  {
    seen', queue' := seen, queue;
    var destinations := Successors(rel, current);
    for i := 0 to |destinations|
      invariant seen <= seen'
      invariant SearchState(rel, start, target, seen', queue', {current})
      invariant forall k :: 0 <= k < i ==> destinations[k] in seen' && destinations[k] != target
      invariant seen' == seen ==> queue' == queue
    {
      var destination := destinations[i];
      assert Edge(rel, current, destination);
      ReachableStep(rel, start, current, destination);
      if destination == target {
        return true, seen', queue';
      }
      if destination !in seen' {
        QueueNew(rel, start, target, seen', queue', {current}, destination);
        seen' := seen' + {destination};
        queue' := queue' + [destination];
      }
    }
    FinishVisit(rel, start, target, seen', queue', current);
    found := false;
  }

  /** What a lookup means: the same block always holds, an empty relation is
      unknown, and otherwise the candidate is sought along rows from the event. */
  ghost function AnswerForBlocks(rel: Adjacency, candidate: nat, event: nat): DominanceAnswer {
    if candidate == event then Holds
    else if rel == map[] then Unknown(DOMINANCE_EMPTY_RELATION)
    else if StrictlyReachable(rel, event, candidate) then Holds
    else DoesNotHold
  }

  method LookUpBlocks(rel: Adjacency, candidate: nat, event: nat) returns (answer: DominanceAnswer)
    ensures answer == AnswerForBlocks(rel, candidate, event)
  {
    if candidate == event {
      return Holds;
    }
    if rel == map[] {
      return Unknown(DOMINANCE_EMPTY_RELATION);
    }
    var found := RelationReaches(rel, event, candidate);
    return if found then Holds else DoesNotHold;
  }

  // ----- the theory of dominators

  lemma DominatorIsReachable(g: Adjacency, entry: nat, a: nat, b: nat)
    requires Dominates(g, entry, a, b) && Reachable(g, entry, b)
    ensures Reachable(g, entry, a)
  {
    var p :| PathFromTo(g, p, entry, b);
    var i :| 0 <= i < |p| && p[i] == a;
    PathSlice(g, p, 0, i);
  }

  lemma DominatesTransitive(g: Adjacency, entry: nat, a: nat, b: nat, c: nat)
    requires Dominates(g, entry, a, b) && Dominates(g, entry, b, c)
    ensures Dominates(g, entry, a, c)
  {
    forall p | PathFromTo(g, p, entry, c) ensures a in p {
      var i :| 0 <= i < |p| && p[i] == b;
      PathSlice(g, p, 0, i);
      assert a in p[0..i + 1];
    }
  }

  /** Two dominators of one block: the one whose last visit on some path to the
      block is earlier dominates the other. */
  lemma EarlierDominatesLater(g: Adjacency, entry: nat, b: nat, p: seq<nat>, a: nat, k: nat)
    requires PathFromTo(g, p, entry, b) && k < |p|
    requires Dominates(g, entry, a, b)
    requires forall j :: k < j < |p| ==> p[j] != a
    ensures Dominates(g, entry, a, p[k])
  {
    forall q | PathFromTo(g, q, entry, p[k]) ensures a in q {
      PathSlice(g, p, k, |p| - 1);
      var rest := p[k..|p| - 1 + 1];
      PathConcat(g, q, rest, entry, p[k], b);
      var whole := q + rest[1..];
      assert forall i :: |q| <= i < |whole| ==> whole[i] == p[k + i - |q| + 1] != a;
      assert a in whole;
    }
  }

  /** The last proper position of a path that holds a strict dominator of its end. */
  lemma {:induction false} LastStrictDominator(g: Adjacency, entry: nat, b: nat, p: seq<nat>, n: nat)
    returns (k: nat)
    requires PathFromTo(g, p, entry, b) && 0 < n <= |p| && b != entry
    requires forall j :: n <= j < |p| ==> !StrictlyDominates(g, entry, p[j], b)
    ensures k < |p| && StrictlyDominates(g, entry, p[k], b)
    ensures forall j :: k < j < |p| ==> !StrictlyDominates(g, entry, p[j], b)
  {
    if StrictlyDominates(g, entry, p[n - 1], b) {
      k := n - 1;
    } else {
      if n == 1 {
        forall q | PathFromTo(g, q, entry, b) ensures p[0] in q {
          assert q[0] == p[0];
        }
        assert false;
      }
      k := LastStrictDominator(g, entry, b, p, n - 1);
    }
  }

  /** Every block but the entry that a path reaches has an immediate dominator,
      and it lies on that path before the end. */
  lemma ImmediateDominatorOnPath(g: Adjacency, entry: nat, b: nat, p: seq<nat>) returns (k: nat)
    requires PathFromTo(g, p, entry, b) && b != entry
    ensures k < |p| - 1 && ImmediatelyDominates(g, entry, p[k], b)
  {
    k := LastStrictDominator(g, entry, b, p, |p|);
    var d := p[k];
    forall c | StrictlyDominates(g, entry, c, b) ensures Dominates(g, entry, c, d) {
      EarlierDominatesLater(g, entry, b, p, c, k);
    }
  }

  lemma EntryHasNoStrictDominator(g: Adjacency, entry: nat, c: nat, b: nat)
    requires StrictlyDominates(g, entry, c, b)
    ensures b != entry
  {
    assert PathFromTo(g, [entry], entry, entry);
  }

  /** A strict dominator is reached by following immediate dominators upward. */
  lemma {:induction false} ImmediateChainReaches(rows: Adjacency, g: Adjacency, entry: nat, c: nat, b: nat, p: seq<nat>)
    requires HasImmediateRows(rows, g, entry)
    requires PathFromTo(g, p, entry, b) && StrictlyDominates(g, entry, c, b)
    ensures StrictlyReachable(rows, b, c)
    decreases |p|
  {
    EntryHasNoStrictDominator(g, entry, c, b);
    var k := ImmediateDominatorOnPath(g, entry, b, p);
    var d := p[k];
    assert Reachable(g, entry, b);
    assert Edge(rows, b, d);
    assert PathFromTo(rows, [b, d], b, d);
    if c != d {
      PathSlice(g, p, 0, k);
      ImmediateChainReaches(rows, g, entry, c, d, p[0..k + 1]);
      var q :| PathFromTo(rows, q, d, c) && |q| >= 2;
      PathConcat(rows, [b, d], q, b, d, c);
    }
  }

  /** Sound rows only lead from a reachable block to its dominators. */
  lemma {:induction false} RowPathsDominate(rows: Adjacency, g: Adjacency, entry: nat, p: seq<nat>)
    requires SoundRows(rows, g, entry)
    requires IsPath(rows, p) && Reachable(g, entry, p[0])
    ensures Dominates(g, entry, p[|p| - 1], p[0])
    decreases |p|
  {
    if |p| >= 2 {
      assert Edge(rows, p[0], p[1]);
      DominatorIsReachable(g, entry, p[1], p[0]);
      PathSlice(rows, p, 1, |p| - 1);
      RowPathsDominate(rows, g, entry, p[1..|p| - 1 + 1]);
      DominatesTransitive(g, entry, p[|p| - 1], p[1], p[0]);
    }
  }

  /** Sound rows: an answer that holds is a proof of dominance. */
  lemma HoldsMeansDominates(rows: Adjacency, g: Adjacency, entry: nat, candidate: nat, event: nat)
    requires SoundRows(rows, g, entry) && Reachable(g, entry, event)
    requires AnswerForBlocks(rows, candidate, event) == Holds
    ensures Dominates(g, entry, candidate, event)
  {
    if candidate != event {
      var p :| PathFromTo(rows, p, event, candidate) && |p| >= 2;
      RowPathsDominate(rows, g, entry, p);
    }
  }

  /** The lookup is exact on reachable blocks for every set of rows between the
      immediate-dominator relation and the whole dominance relation. The relation
      is then never empty where it is consulted, so no answer is unknown. */
  lemma LookupIsDominance(rows: Adjacency, g: Adjacency, entry: nat, candidate: nat, event: nat)
    requires SoundRows(rows, g, entry) && HasImmediateRows(rows, g, entry)
    requires Reachable(g, entry, candidate) && Reachable(g, entry, event)
    ensures AnswerForBlocks(rows, candidate, event) ==
            if Dominates(g, entry, candidate, event) then Holds else DoesNotHold
  {
    if candidate != event {
      var b := if event != entry then event else candidate;
      var p :| PathFromTo(g, p, entry, b);
      var k := ImmediateDominatorOnPath(g, entry, b, p);
      assert Edge(rows, b, p[k]);
      if Dominates(g, entry, candidate, event) {
        var q :| PathFromTo(g, q, entry, event);
        ImmediateChainReaches(rows, g, entry, candidate, event, q);
      } else if AnswerForBlocks(rows, candidate, event) == Holds {
        HoldsMeansDominates(rows, g, entry, candidate, event);
      }
    }
  }

  /** Materialising only the dominator tree, every pair, or anything between
      changes no answer. */
  lemma MaterialisationsAgree(rows: Adjacency, rows': Adjacency, g: Adjacency, entry: nat, candidate: nat, event: nat)
    requires SoundRows(rows, g, entry) && HasImmediateRows(rows, g, entry)
    requires SoundRows(rows', g, entry) && HasImmediateRows(rows', g, entry)
    requires Reachable(g, entry, candidate) && Reachable(g, entry, event)
    ensures AnswerForBlocks(rows, candidate, event) == AnswerForBlocks(rows', candidate, event)
  {
    LookupIsDominance(rows, g, entry, candidate, event);
    LookupIsDominance(rows', g, entry, candidate, event);
  }
}
