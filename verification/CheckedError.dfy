/** The checked-error decision: whether a guard's returned error is tested and its
    error path leaves before the protected operation. */
module CheckedError {
  import opened Options
  import opened Graphs
  import opened Dominance
  import opened Mir

  // ----- verdicts

  datatype Outcome = Covered | Undecided | Violation

  /** One operation's decision under a guard contract. */
  datatype GuardVerdict = GuardVerdict(outcome: Outcome, reason: string, dominance: string, identity: string,
                                       budget: Option<string>)

  const DOMINANCE_FROM_RELATION := "dominator_relation"
  const IDENTITY_UNCHECKED := "unchecked"
  const REASON_RESULT_NEVER_TESTED := "result_never_tested"
  const REASON_ERROR_PATH_REACHES_OPERATION := "error_path_reaches_operation"
  const REASON_AMBIGUOUS_ERROR_DEFINITION := "ambiguous_error_definition"
  const REASON_PARTIAL_NIL_TEST := "partial_nil_test"
  const REASON_UNRECOGNIZED_ERROR_TEST := "unrecognized_error_test"
  const REASON_MISSING_BRANCH_BLOCK := "missing_branch_block"
  const REASON_MISSING_ERROR_EDGE := "missing_error_edge"
  const REASON_MISSING_GUARD_OPERATION := "missing_guard_operation"
  const REASON_CHECKED_ERROR_EXITS := "checked_error_exits"
  const BUDGET_ERROR_PATH_SEARCH := "guard_outcome_error_path_budget"
  const MAX_ERROR_PATH_BLOCKS: nat := 4096

  function CoveredBy(reason: string): GuardVerdict {
    GuardVerdict(Covered, reason, DOMINANCE_FROM_RELATION, IDENTITY_UNCHECKED, None)
  }

  function Refuted(reason: string, dominance: string): GuardVerdict {
    GuardVerdict(Violation, reason, dominance, IDENTITY_UNCHECKED, None)
  }

  function Undecidable(reason: string, dominance: string): GuardVerdict {
    GuardVerdict(Undecided, reason, dominance, IDENTITY_UNCHECKED, None)
  }

  // ----- the index built once per query

  datatype CfgEdgeKind = TrueEdge | FalseEdge | OtherEdge
  datatype CfgEdge = CfgEdge(source: nat, destination: nat, kind: CfgEdgeKind, normalControl: bool)

  type ConditionEdges = map<nat, seq<(CfgEdgeKind, nat)>>

  datatype Index = Index(
    operations: map<BodyId, seq<Operation>>,
    blocks: map<(BodyId, OpId), nat>,
    successors: Adjacency,
    conditionEdges: ConditionEdges)

  /** What a control-flow event contributes to a decision. */
  datatype ControlEvent = ControlEvent(
    body: BodyId, operation: OpId, site: SiteId, block: Option<nat>,
    result: Option<PlaceId>, arguments: seq<PlaceId>, names: set<string>)

  function ConditionsAt(conditions: ConditionEdges, block: nat): seq<(CfgEdgeKind, nat)> {
    if block in conditions then conditions[block] else []
  }

  /** The normal-control condition edges leaving a block, in edge order. */
  function ConditionsOf(edges: seq<CfgEdge>, block: nat): seq<(CfgEdgeKind, nat)> {
    if edges == [] then []
    else
      var earlier := ConditionsOf(edges[..|edges| - 1], block);
      var e := edges[|edges| - 1];
      if e.normalControl && e.source == block && !e.kind.OtherEdge?
      then earlier + [(e.kind, e.destination)] else earlier
  }

  ghost predicate HasNormalEdge(edges: seq<CfgEdge>, a: nat, b: nat) {
    exists i :: 0 <= i < |edges| && edges[i].normalControl && edges[i].source == a && edges[i].destination == b
  }

  /** Splits the normal-control edges into successor lists and condition edges;
      edges of other views are left out of both. */
  method IndexEdges(edges: seq<CfgEdge>) returns (successors: Adjacency, conditions: ConditionEdges)
    ensures forall a: nat, b: nat :: Edge(successors, a, b) <==> HasNormalEdge(edges, a, b)
    ensures forall b: nat :: ConditionsAt(conditions, b) == ConditionsOf(edges, b)
  {
    successors, conditions := map[], map[];
    for i := 0 to |edges|
      invariant forall a: nat, b: nat :: Edge(successors, a, b) <==> HasNormalEdge(edges[..i], a, b)
      invariant forall b: nat :: ConditionsAt(conditions, b) == ConditionsOf(edges[..i], b)
    {
      var e := edges[i];
      ghost var earlier, now := edges[..i], edges[..i + 1];
      assert now == earlier + [e] && now[..|now| - 1] == earlier;
      assert forall a: nat, b: nat :: HasNormalEdge(now, a, b) <==>
          HasNormalEdge(earlier, a, b) || (e.normalControl && e.source == a && e.destination == b) by {
        assert now[i] == e && forall k :: 0 <= k < i ==> now[k] == earlier[k];
      }
      if e.normalControl {
        successors := successors[e.source := Successors(successors, e.source) + [e.destination]];
        if !e.kind.OtherEdge? {
          conditions := conditions[e.source := ConditionsAt(conditions, e.source) + [(e.kind, e.destination)]];
        }
      }
    }
    assert edges[..|edges|] == edges;
  }

  lemma {:induction false} ConditionsAreEdges(edges: seq<CfgEdge>, block: nat, kind: CfgEdgeKind, destination: nat)
    requires (kind, destination) in ConditionsOf(edges, block)
    ensures exists i :: 0 <= i < |edges| && edges[i] == CfgEdge(block, destination, kind, true)
  {
    var e := edges[|edges| - 1];
    if e != CfgEdge(block, destination, kind, true) {
      var earlier := edges[..|edges| - 1];
      ConditionsAreEdges(earlier, block, kind, destination);
      var i :| 0 <= i < |earlier| && earlier[i] == CfgEdge(block, destination, kind, true);
      assert edges[i] == earlier[i];
    }
  }

  /** Every condition edge of the index is one of its control-flow edges. */
  ghost predicate Consistent(index: Index) {
    forall b: nat, i :: 0 <= i < |ConditionsAt(index.conditionEdges, b)| ==>
        Edge(index.successors, b, ConditionsAt(index.conditionEdges, b)[i].1)
  }

  method BuildIndex(operations: map<BodyId, seq<Operation>>, blocks: map<(BodyId, OpId), nat>, edges: seq<CfgEdge>)
    returns (index: Index)
    ensures Consistent(index) && index.operations == operations && index.blocks == blocks
    ensures forall a: nat, b: nat :: Edge(index.successors, a, b) <==> HasNormalEdge(edges, a, b)
    ensures forall b: nat :: ConditionsAt(index.conditionEdges, b) == ConditionsOf(edges, b)
  {
    var successors, conditions := IndexEdges(edges);
    index := Index(operations, blocks, successors, conditions);
    forall b: nat, i | 0 <= i < |ConditionsAt(conditions, b)|
      ensures Edge(successors, b, ConditionsAt(conditions, b)[i].1)
    {
      var (kind, destination) := ConditionsAt(conditions, b)[i];
      ConditionsAreEdges(edges, b, kind, destination);
      assert HasNormalEdge(edges, b, destination);
    }
  }

  /** The edge a nil test takes when the tested place is not nil. */
  function ErrorKind(test: NilTest): CfgEdgeKind {
    if test.nilOnTrue then FalseEdge else TrueEdge
  }

  /** The edge taken when the tested condition comes out so for a nil or other value. */
  function EdgeOf(test: NilTest, isNil: bool): CfgEdgeKind {
    if test.nilOnTrue == isNil then TrueEdge else FalseEdge
  }

  /** The error edge is the one a value other than nil takes, and not the one nil takes. */
  lemma ErrorKindMeaning(test: NilTest)
    ensures ErrorKind(test) == EdgeOf(test, false) && ErrorKind(test) != EdgeOf(test, true)
  {
  }

  function FirstOfKind(conditions: seq<(CfgEdgeKind, nat)>, kind: CfgEdgeKind): Option<nat> {
    if conditions == [] then None
    else if conditions[0].0 == kind then Some(conditions[0].1)
    else FirstOfKind(conditions[1..], kind)
  }

  function ErrorEdgeTarget(index: Index, block: nat, test: NilTest): Option<nat> {
    FirstOfKind(ConditionsAt(index.conditionEdges, block), ErrorKind(test))
  }

  lemma {:induction false} FirstOfKindIsListed(conditions: seq<(CfgEdgeKind, nat)>, kind: CfgEdgeKind)
    ensures match FirstOfKind(conditions, kind)
            case None => forall i :: 0 <= i < |conditions| ==> conditions[i].0 != kind
            case Some(t) => exists i :: 0 <= i < |conditions| && conditions[i] == (kind, t)
                                        && forall j :: 0 <= j < i ==> conditions[j].0 != kind
  {
    if conditions != [] && conditions[0].0 != kind {
      var rest := conditions[1..];
      FirstOfKindIsListed(rest, kind);
      match FirstOfKind(rest, kind) {
        case None =>
          forall i | 0 <= i < |conditions| ensures conditions[i].0 != kind {
            if i > 0 { assert rest[i - 1] == conditions[i]; }
          }
        case Some(t) =>
          var i :| 0 <= i < |rest| && rest[i] == (kind, t) && forall j :: 0 <= j < i ==> rest[j].0 != kind;
          assert conditions[i + 1] == (kind, t);
          forall j | 0 <= j < i + 1 ensures conditions[j].0 != kind {
            if j > 0 { assert rest[j - 1] == conditions[j]; }
          }
      }
    }
  }

  // ----- the bounded search from the error edge

  datatype BlockReach = Reaches | DoesNotReach | BudgetExceeded

  /** What each answer of the search certifies. */
  ghost predicate ReachCertified(g: Adjacency, start: nat, target: nat, limit: nat, r: BlockReach) {
    match r
    case Reaches => Reachable(g, start, target)
    case DoesNotReach => !Reachable(g, start, target)
    case BudgetExceeded =>
      exists s: set<nat> :: |s| >= limit && target !in s && forall n :: n in s ==> Reachable(g, start, n)
  }

  /** The search as a function of what it has seen, what is queued and which successors
      of the block being visited are still to be looked at. */
  ghost function Explore(g: Adjacency, target: nat, limit: nat, seen: set<nat>, queue: seq<nat>,
                         destinations: seq<nat>): BlockReach
    requires forall d :: d in destinations ==> d in Universe(g, target)
    decreases Universe(g, target) - seen, |queue|, |destinations|
  {
    if destinations != [] then
      var destination, rest := destinations[0], destinations[1..];
      if destination == target then Reaches
      else if |seen| >= limit then BudgetExceeded
      else if destination in seen then Explore(g, target, limit, seen, queue, rest)
      else Explore(g, target, limit, seen + {destination}, queue + [destination], rest)
    else if queue != [] then Explore(g, target, limit, seen, queue[1..], Successors(g, queue[0]))
    else DoesNotReach
  }

  ghost function SearchAnswer(g: Adjacency, start: nat, target: nat, limit: nat): BlockReach {
    if start == target then Reaches else Explore(g, target, limit, {start}, [start], [])
  }

  lemma {:induction false} ExploreIsCertified(g: Adjacency, start: nat, target: nat, limit: nat, current: nat,
                                              seen: set<nat>, queue: seq<nat>, destinations: seq<nat>)
    requires SearchState(g, start, target, seen, queue, {current}) && current in seen && target !in seen
    requires forall d :: d in destinations ==> Edge(g, current, d)
    requires forall d :: Edge(g, current, d) ==> d in destinations || (d in seen && d != target)
    ensures ReachCertified(g, start, target, limit, Explore(g, target, limit, seen, queue, destinations))
    decreases Universe(g, target) - seen, |queue|, |destinations|
  {
    if destinations != [] {
      var destination, rest := destinations[0], destinations[1..];
      assert destinations == [destination] + rest;
      ReachableStep(g, start, current, destination);
      if destination != target && |seen| < limit {
        if destination in seen {
          ExploreIsCertified(g, start, target, limit, current, seen, queue, rest);
        } else {
          QueueNew(g, start, target, seen, queue, {current}, destination);
          ExploreIsCertified(g, start, target, limit, current, seen + {destination}, queue + [destination], rest);
        }
      }
    } else {
      FinishVisit(g, start, target, seen, queue, current);
      if queue != [] {
        assert queue == [queue[0]] + queue[1..];
        ExploreIsCertified(g, start, target, limit, queue[0], seen, queue[1..], Successors(g, queue[0]));
      } else {
        forall p | PathFromTo(g, p, start, target) ensures false {
          ClosedSetConfines(g, seen, target, p);
        }
      }
    }
  }

  /** A decided answer is exact; a budget answer met as many blocks as the limit. */
  lemma SearchIsCertified(g: Adjacency, start: nat, target: nat, limit: nat)
    ensures ReachCertified(g, start, target, limit, SearchAnswer(g, start, target, limit))
  {
    ReachableReflexive(g, start);
    if start != target {
      assert [start][1..] == [];
      ExploreIsCertified(g, start, target, limit, start, {start}, [], Successors(g, start));
    }
  }

  /** Only blocks from the start are in it. */
  ghost predicate AllReachable(g: Adjacency, start: nat, s: set<nat>) {
    forall n :: n in s ==> Reachable(g, start, n)
  }

  lemma {:induction false} ExploreWithinLimit(g: Adjacency, start: nat, target: nat, limit: nat, current: nat,
                                              seen: set<nat>, queue: seq<nat>, destinations: seq<nat>)
    requires SearchState(g, start, target, seen, queue, {current}) && current in seen && target !in seen
    requires forall d :: d in destinations ==> Edge(g, current, d)
    requires forall d :: Edge(g, current, d) ==> d in destinations || (d in seen && d != target)
    requires Explore(g, target, limit, seen, queue, destinations) == DoesNotReach && (|seen| <= limit || |seen| == 1)
    ensures forall s :: AllReachable(g, start, s) ==> |s| <= limit || |s| <= 1
    decreases Universe(g, target) - seen, |queue|, |destinations|
  {
    hide AllReachable;
    if destinations != [] {
      var destination, rest := destinations[0], destinations[1..];
      assert destinations == [destination] + rest;
      ReachableStep(g, start, current, destination);
      if destination in seen {
        ExploreWithinLimit(g, start, target, limit, current, seen, queue, rest);
      } else {
        QueueNew(g, start, target, seen, queue, {current}, destination);
        ExploreWithinLimit(g, start, target, limit, current, seen + {destination}, queue + [destination], rest);
      }
    } else {
      FinishVisit(g, start, target, seen, queue, current);
      if queue != [] {
        assert queue == [queue[0]] + queue[1..];
        ExploreWithinLimit(g, start, target, limit, queue[0], seen, queue[1..], Successors(g, queue[0]));
      } else {
        forall s | AllReachable(g, start, s) ensures |s| <= |seen| {
          ClosedSetHoldsAll(g, start, seen, s);
        }
      }
    }
  }

  lemma ClosedSetHoldsAll(g: Adjacency, start: nat, seen: set<nat>, s: set<nat>)
    requires start in seen && forall a: nat, b: nat :: a in seen && Edge(g, a, b) ==> b in seen
    requires AllReachable(g, start, s)
    ensures |s| <= |seen|
  {
    forall n | n in s ensures n in seen {
      var p :| PathFromTo(g, p, start, n);
      PathStaysIn(g, p, seen);
    }
    SmallerSet(s, seen);
  }

  lemma {:induction false} PathStaysIn(g: Adjacency, p: seq<nat>, seen: set<nat>)
    requires IsPath(g, p) && p[0] in seen && forall a: nat, b: nat :: a in seen && Edge(g, a, b) ==> b in seen
    ensures p[|p| - 1] in seen
  {
    if |p| > 1 {
      PathStaysIn(g, p[..|p| - 1], seen);
      assert Edge(g, p[|p| - 2], p[|p| - 1]);
    }
  }

  lemma SmallerSet(s: set<nat>, t: set<nat>)
    requires s <= t
    ensures |s| <= |t|
  {
    assert t == s + (t - s);
  }

  /** A search that rules the target out has met every block from the start, and these are
      no more than the limit. */
  lemma RuledOutWithinLimit(g: Adjacency, start: nat, target: nat, limit: nat)
    requires SearchAnswer(g, start, target, limit) == DoesNotReach
    ensures forall s :: AllReachable(g, start, s) ==> |s| <= limit || |s| <= 1
  {
    ReachableReflexive(g, start);
    assert [start][1..] == [];
    ExploreWithinLimit(g, start, target, limit, start, {start}, [], Successors(g, start));
  }

  method BoundedReaches(g: Adjacency, start: nat, target: nat, limit: nat) returns (r: BlockReach)
    ensures r == SearchAnswer(g, start, target, limit)
    ensures ReachCertified(g, start, target, limit, r)
  {
    SearchIsCertified(g, start, target, limit);
    hide ReachCertified;
    if start == target {
      return Reaches;
    }
    var seen := {start};
    var queue := [start];
    while queue != []
      invariant SearchAnswer(g, start, target, limit) == Explore(g, target, limit, seen, queue, [])
      decreases Universe(g, target) - seen, |queue|
    {
      var current := queue[0];
      queue := queue[1..];
      ghost var seen0, queue0 := seen, queue;
      var destinations := Successors(g, current);
      for i := 0 to |destinations|
        invariant seen0 <= seen && (seen == seen0 ==> queue == queue0)
        invariant seen != seen0 ==> Universe(g, target) - seen < Universe(g, target) - seen0
        invariant SearchAnswer(g, start, target, limit) == Explore(g, target, limit, seen, queue, destinations[i..])
      {
        var destination := destinations[i];
        assert Edge(g, current, destination);
        assert destinations[i..][1..] == destinations[i + 1..];
        if destination == target {
          return Reaches;
        }
        if |seen| >= limit {
          return BudgetExceeded;
        }
        if destination !in seen {
          seen := seen + {destination};
          queue := queue + [destination];
        }
      }
    }
    return DoesNotReach;
  }

  // ----- the branch scan

  function PositionOf(ops: seq<Operation>, id: OpId): (r: Option<nat>)
    ensures r.Some? ==> r.value < |ops| && ops[r.value].id == id && forall k :: 0 <= k < r.value ==> ops[k].id != id
    ensures r.None? ==> forall k :: 0 <= k < |ops| ==> ops[k].id != id
  {
    if ops == [] then None
    else if ops[0].id == id then Some(0)
    else
      match PositionOf(ops[1..], id)
      case None => assert forall k :: 1 <= k < |ops| ==> ops[k] == ops[1..][k - 1]; None
      case Some(k) => assert forall j :: 1 <= j < |ops| ==> ops[j] == ops[1..][j - 1]; Some(k + 1)
  }

  /** What the scan settles on: a verdict, or a search from one error edge. */
  datatype Selection = Settled(verdict: GuardVerdict) | Search(position: nat, branchBlock: nat, errorBlock: nat)

  /** One branch of the scan. */
  datatype BranchStep = Skip | Doubt | Stop(selection: Selection)

  ghost function BranchDecision(ops: seq<Operation>, at: nat, body: BodyId, result: PlaceId, site: SiteId,
                                eventBlock: nat, rel: Adjacency, index: Index): BranchStep
    requires at < |ops|
  {
    match ops[at].kind
    case Branch(Some(tested), nilTest) =>
      (match DefinitionReaching(ops[..at], tested, result, site)
       case Elsewhere => Skip
       case Ambiguous => Doubt
       case FromGuard =>
         if nilTest.None? then Stop(Settled(Undecidable(REASON_UNRECOGNIZED_ERROR_TEST, DOMINANCE_FROM_RELATION)))
         else if !nilTest.value.Exhaustive?
             then Stop(Settled(Undecidable(REASON_PARTIAL_NIL_TEST, DOMINANCE_FROM_RELATION)))
         else if (body, ops[at].id) !in index.blocks
             then Stop(Settled(Undecidable(REASON_MISSING_BRANCH_BLOCK, DOMINANCE_FROM_RELATION)))
         else
           var block := index.blocks[(body, ops[at].id)];
           if AnswerForBlocks(rel, block, eventBlock) != Holds then Skip
           else
             match ErrorEdgeTarget(index, block, nilTest.value)
             case None => Stop(Settled(Undecidable(REASON_MISSING_ERROR_EDGE, DOMINANCE_FROM_RELATION)))
             case Some(errorBlock) => Stop(Search(at, block, errorBlock)))
    case _ => Skip
  }

  /** The first branch from `from` on that decides, or the verdict of a scan in
      which none did. */
  ghost function SelectBranch(ops: seq<Operation>, from: nat, doubted: bool, body: BodyId, result: PlaceId,
                              site: SiteId, eventBlock: nat, rel: Adjacency, index: Index): Selection
    decreases |ops| - from
  {
    if from >= |ops| then
      Settled(if doubted then Undecidable(REASON_AMBIGUOUS_ERROR_DEFINITION, DOMINANCE_FROM_RELATION)
              else Refuted(REASON_RESULT_NEVER_TESTED, DOMINANCE_FROM_RELATION))
    else
      match BranchDecision(ops, from, body, result, site, eventBlock, rel, index)
      case Skip => SelectBranch(ops, from + 1, doubted, body, result, site, eventBlock, rel, index)
      case Doubt => SelectBranch(ops, from + 1, true, body, result, site, eventBlock, rel, index)
      case Stop(selection) => selection
  }

  /** The whole decision up to the search. */
  ghost function CheckedErrorSelection(candidate: ControlEvent, event: ControlEvent, rel: Adjacency,
                                       index: Index): Selection {
    if candidate.result.None? then Settled(Refuted(REASON_RESULT_NEVER_TESTED, DOMINANCE_FROM_RELATION))
    else if event.block.None? then Settled(Undecidable(DOMINANCE_MISSING_BLOCK_IDS, DOMINANCE_MISSING_BLOCK_IDS))
    else if candidate.body !in index.operations
        then Settled(Undecidable(REASON_MISSING_GUARD_OPERATION, DOMINANCE_FROM_RELATION))
    else
      var ops := index.operations[candidate.body];
      match PositionOf(ops, candidate.operation)
      case None => Settled(Undecidable(REASON_MISSING_GUARD_OPERATION, DOMINANCE_FROM_RELATION))
      case Some(guard) =>
        SelectBranch(ops, guard + 1, false, candidate.body, candidate.result.value, candidate.site, event.block.value,
                     rel, index)
  }

  function VerdictOfReach(r: BlockReach): GuardVerdict {
    match r
    case Reaches => Refuted(REASON_ERROR_PATH_REACHES_OPERATION, DOMINANCE_FROM_RELATION)
    case DoesNotReach => CoveredBy(REASON_CHECKED_ERROR_EXITS)
    case BudgetExceeded =>
      Undecidable(BUDGET_ERROR_PATH_SEARCH, DOMINANCE_FROM_RELATION).(budget := Some(BUDGET_ERROR_PATH_SEARCH))
  }

  /** The whole decision. */
  ghost function CheckedErrorVerdict(candidate: ControlEvent, event: ControlEvent, rel: Adjacency,
                                     index: Index): GuardVerdict {
    match CheckedErrorSelection(candidate, event, rel, index)
    case Settled(settled) => settled
    case Search(_, _, errorBlock) =>
      if event.block.None? then Undecidable(DOMINANCE_MISSING_BLOCK_IDS, DOMINANCE_MISSING_BLOCK_IDS)
      else VerdictOfReach(SearchAnswer(index.successors, errorBlock, event.block.value, MAX_ERROR_PATH_BLOCKS))
  }

  method DecideCheckedError(candidate: ControlEvent, event: ControlEvent, rel: Adjacency,
                            index: Index) returns (verdict: GuardVerdict)
    ensures verdict == CheckedErrorVerdict(candidate, event, rel, index)
  {
    hide SearchAnswer, Reachable, ReachCertified, DefinitionReaching, AnswerForBlocks, PositionOf, ErrorEdgeTarget;
    if candidate.result.None? {
      return Refuted(REASON_RESULT_NEVER_TESTED, DOMINANCE_FROM_RELATION);
    }
    if event.block.None? {
      return Undecidable(DOMINANCE_MISSING_BLOCK_IDS, DOMINANCE_MISSING_BLOCK_IDS);
    }
    if candidate.body !in index.operations {
      return Undecidable(REASON_MISSING_GUARD_OPERATION, DOMINANCE_FROM_RELATION);
    }
    var ops := index.operations[candidate.body];
    var guard := PositionOf(ops, candidate.operation);
    if guard.None? {
      return Undecidable(REASON_MISSING_GUARD_OPERATION, DOMINANCE_FROM_RELATION);
    }
    var result, eventBlock := candidate.result.value, event.block.value;
    ghost var selection := CheckedErrorSelection(candidate, event, rel, index);
    var doubted := false;
    var at := guard.value + 1;
    while at < |ops|
      invariant selection == SelectBranch(ops, at, doubted, candidate.body, result, candidate.site, eventBlock, rel,
                                          index)
    {
      match ops[at].kind {
        case Branch(Some(tested), nilTest) =>
          var definition := DefinitionReaching(ops[..at], tested, result, candidate.site);
          if definition == Ambiguous {
            doubted := true;
          } else if definition == FromGuard {
            if nilTest.None? {
              return Undecidable(REASON_UNRECOGNIZED_ERROR_TEST, DOMINANCE_FROM_RELATION);
            }
            if !nilTest.value.Exhaustive? {
              return Undecidable(REASON_PARTIAL_NIL_TEST, DOMINANCE_FROM_RELATION);
            }
            if (candidate.body, ops[at].id) !in index.blocks {
              return Undecidable(REASON_MISSING_BRANCH_BLOCK, DOMINANCE_FROM_RELATION);
            }
            var block := index.blocks[(candidate.body, ops[at].id)];
            var answer := LookUpBlocks(rel, block, eventBlock);
            if answer == Holds {
              var errorBlock := ErrorEdgeTarget(index, block, nilTest.value);
              if errorBlock.None? {
                return Undecidable(REASON_MISSING_ERROR_EDGE, DOMINANCE_FROM_RELATION);
              }
              var reach := BoundedReaches(index.successors, errorBlock.value, eventBlock, MAX_ERROR_PATH_BLOCKS);
              return VerdictOfReach(reach);
            }
          }
        case _ =>
      }
      at := at + 1;
    }
    if doubted {
      return Undecidable(REASON_AMBIGUOUS_ERROR_DEFINITION, DOMINANCE_FROM_RELATION);
    }
    return Refuted(REASON_RESULT_NEVER_TESTED, DOMINANCE_FROM_RELATION);
  }

  // ----- what the verdicts mean on the control-flow graph

  /** The operation at `at` follows the guard, tests with an exhaustive nil test a place
      that the walk attributes to the guard, and leads to `errorBlock` when that place
      is not nil. */
  ghost predicate IsErrorCheck(candidate: ControlEvent, index: Index, at: nat, block: nat, errorBlock: nat) {
    candidate.result.Some? && candidate.body in index.operations
    && var ops := index.operations[candidate.body];
       var guard := PositionOf(ops, candidate.operation);
       guard.Some? && guard.value < at < |ops|
       && ops[at].kind.Branch? && ops[at].kind.tested.Some? && ops[at].kind.nilTest.Some?
       && DefinitionReaching(ops[..at], ops[at].kind.tested.value, candidate.result.value, candidate.site) == FromGuard
       && ops[at].kind.nilTest.value.Exhaustive?
       && (candidate.body, ops[at].id) in index.blocks && index.blocks[(candidate.body, ops[at].id)] == block
       && ErrorEdgeTarget(index, block, ops[at].kind.nilTest.value) == Some(errorBlock)
  }

  /** The scan stops at the first branch that decides. */
  lemma {:induction false} SelectBranchStops(ops: seq<Operation>, from: nat, doubted: bool, body: BodyId,
                                             result: PlaceId, site: SiteId, eventBlock: nat, rel: Adjacency,
                                             index: Index)
    returns (at: nat)
    ensures from <= at
    ensures forall k :: from <= k < at && k < |ops| ==>
        !BranchDecision(ops, k, body, result, site, eventBlock, rel, index).Stop?
    ensures at < |ops| ==>
      BranchDecision(ops, at, body, result, site, eventBlock, rel, index) ==
      Stop(SelectBranch(ops, from, doubted, body, result, site, eventBlock, rel, index))
    ensures at >= |ops| ==>
      SelectBranch(ops, from, doubted, body, result, site, eventBlock, rel, index) ==
      Settled(if doubted || exists k ::
            from <= k < |ops| && BranchDecision(ops, k, body, result, site, eventBlock, rel, index) == Doubt
              then Undecidable(REASON_AMBIGUOUS_ERROR_DEFINITION, DOMINANCE_FROM_RELATION)
              else Refuted(REASON_RESULT_NEVER_TESTED, DOMINANCE_FROM_RELATION))
    decreases |ops| - from
  {
    if from >= |ops| || BranchDecision(ops, from, body, result, site, eventBlock, rel, index).Stop? {
      at := from;
    } else {
      var d := BranchDecision(ops, from, body, result, site, eventBlock, rel, index);
      at := SelectBranchStops(ops, from + 1, doubted || d == Doubt, body, result, site, eventBlock, rel, index);
    }
  }

  lemma SelectionIsErrorCheck(candidate: ControlEvent, event: ControlEvent, rel: Adjacency, index: Index)
    requires CheckedErrorSelection(candidate, event, rel, index).Search?
    ensures var s := CheckedErrorSelection(candidate, event, rel, index);
            event.block.Some?
            && IsErrorCheck(candidate, index, s.position, s.branchBlock, s.errorBlock)
            && AnswerForBlocks(rel, s.branchBlock, event.block.value) == Holds
  {
    var ops := index.operations[candidate.body];
    var guard := PositionOf(ops, candidate.operation);
    var at := SelectBranchStops(ops, guard.value + 1, false, candidate.body, candidate.result.value, candidate.site,
                                event.block.value, rel, index);
  }

  /** No path from the entry to the operation's block avoids the branch block, and
      none takes the branch's error edge. */
  ghost predicate ErrorPathsExcluded(g: Adjacency, entry: nat, block: nat, errorBlock: nat, eventBlock: nat) {
    forall p :: PathFromTo(g, p, entry, eventBlock) ==>
      block in p && forall i :: 0 <= i < |p| - 1 && p[i] == block ==> p[i + 1] != errorBlock
  }

  /** Every path leaves the branch block, by an edge that is not the error edge,
      before it arrives at the operation's block. */
  ghost predicate CheckedBeforeArrival(g: Adjacency, entry: nat, block: nat, errorBlock: nat, eventBlock: nat) {
    forall p :: PathFromTo(g, p, entry, eventBlock) ==>
      exists i :: 0 <= i < |p| - 1 && p[i] == block && p[i + 1] != errorBlock
  }

  lemma DominatingCheckExcludes(g: Adjacency, rel: Adjacency, entry: nat, block: nat, errorBlock: nat, eventBlock: nat)
    requires SoundRows(rel, g, entry) && AnswerForBlocks(rel, block, eventBlock) == Holds
    requires !Reachable(g, errorBlock, eventBlock)
    ensures ErrorPathsExcluded(g, entry, block, errorBlock, eventBlock)
  {
    hide AnswerForBlocks, SoundRows;
    forall p | PathFromTo(g, p, entry, eventBlock)
      ensures block in p && forall i :: 0 <= i < |p| - 1 && p[i] == block ==> p[i + 1] != errorBlock
    {
      HoldsMeansDominates(rel, g, entry, block, eventBlock);
      forall i | 0 <= i < |p| ensures Reachable(g, p[i], eventBlock) {
        PathSlice(g, p, i, |p| - 1);
      }
    }
  }

  /** A covered verdict excludes error paths, whatever the rows leave out: it only
      needs the rows to be sound. */
  lemma CoveredExcludesErrorPaths(candidate: ControlEvent, event: ControlEvent, rel: Adjacency, index: Index,
                                  verdict: GuardVerdict, entry: nat)
    returns (at: nat, block: nat, errorBlock: nat)
    requires verdict == CheckedErrorVerdict(candidate, event, rel, index) && verdict.outcome == Covered
    requires SoundRows(rel, index.successors, entry)
    ensures verdict == CoveredBy(REASON_CHECKED_ERROR_EXITS)
    ensures event.block.Some? && IsErrorCheck(candidate, index, at, block, errorBlock)
    ensures AnswerForBlocks(rel, block, event.block.value) == Holds
    ensures ErrorPathsExcluded(index.successors, entry, block, errorBlock, event.block.value)
    ensures Reachable(index.successors, entry, event.block.value) ==>
      (CheckedBeforeArrival(index.successors, entry, block, errorBlock, event.block.value) <==>
          block != event.block.value)
  {
    hide SoundRows, Reachable, ErrorPathsExcluded, CheckedBeforeArrival, IsErrorCheck, CheckedErrorSelection;
    hide AnswerForBlocks, SearchAnswer;
    SettledIsNotCovered(candidate, event, rel, index);
    var s := CheckedErrorSelection(candidate, event, rel, index);
    SelectionIsErrorCheck(candidate, event, rel, index);
    at, block, errorBlock := s.position, s.branchBlock, s.errorBlock;
    var g, e := index.successors, event.block.value;
    SearchIsCertified(g, errorBlock, e, MAX_ERROR_PATH_BLOCKS);
    DominatingCheckExcludes(g, rel, entry, block, errorBlock, e);
    if Reachable(g, entry, e) {
      BeforeArrivalIffDistinct(g, entry, block, errorBlock, e);
    }
  }

  /** Some path takes the edge from `block` to `next` and arrives. */
  lemma PathThroughEdge(g: Adjacency, entry: nat, block: nat, next: nat, eventBlock: nat) returns (p: seq<nat>, i: nat)
    requires Reachable(g, entry, block) && Edge(g, block, next) && Reachable(g, next, eventBlock)
    ensures PathFromTo(g, p, entry, eventBlock) && i < |p| - 1 && p[i] == block && p[i + 1] == next
  {
    var before :| PathFromTo(g, before, entry, block);
    var after :| PathFromTo(g, after, next, eventBlock);
    PathExtend(g, before, entry, block, next);
    PathConcat(g, before + [next], after, entry, next, eventBlock);
    p, i := (before + [next]) + after[1..], |before| - 1;
    assert p[i] == block && p[i + 1] == next;
  }

  ghost predicate IsErrorEdge(index: Index, block: nat, test: NilTest, destination: nat) {
    (ErrorKind(test), destination) in ConditionsAt(index.conditionEdges, block)
  }

  /** Only the first error edge of the block is searched. A covered verdict excludes all
      of them exactly when none of them reaches the operation, so always when the
      block has a single one. */
  lemma EveryErrorEdgeExcludedExactlyWhen(candidate: ControlEvent, event: ControlEvent, rel: Adjacency, index: Index,
                                          entry: nat, at: nat, block: nat, errorBlock: nat)
    requires CheckedErrorVerdict(candidate, event, rel, index).outcome == Covered && event.block.Some?
    requires CheckedErrorSelection(candidate, event, rel, index) == Search(at, block, errorBlock)
    requires SoundRows(rel, index.successors, entry) && Consistent(index) && Reachable(index.successors, entry, block)
    requires IsErrorCheck(candidate, index, at, block, errorBlock)
    ensures var test := index.operations[candidate.body][at].kind.nilTest.value;
            var g, e := index.successors, event.block.value;
            && ((forall t: nat :: IsErrorEdge(index, block, test, t) ==> ErrorPathsExcluded(g, entry, block, t, e)) <==>
                (forall t: nat :: IsErrorEdge(index, block, test, t) ==> !Reachable(g, t, e)))
            && ((forall t: nat :: IsErrorEdge(index, block, test, t) ==> t == errorBlock) ==>
                (forall t: nat :: IsErrorEdge(index, block, test, t) ==> ErrorPathsExcluded(g, entry, block, t, e)))
  {
    hide ErrorPathsExcluded, AnswerForBlocks, SearchAnswer, CheckedErrorSelection, SoundRows;
    var test := index.operations[candidate.body][at].kind.nilTest.value;
    var g, e := index.successors, event.block.value;
    SelectionIsErrorCheck(candidate, event, rel, index);
    SearchIsCertified(g, errorBlock, e, MAX_ERROR_PATH_BLOCKS);
    forall t: nat | IsErrorEdge(index, block, test, t)
      ensures ErrorPathsExcluded(g, entry, block, t, e) <==> !Reachable(g, t, e) {
      var conditions := ConditionsAt(index.conditionEdges, block);
      var i :| 0 <= i < |conditions| && conditions[i] == (ErrorKind(test), t);
      assert Edge(g, block, conditions[i].1);
      if Reachable(g, t, e) {
        EdgeTaken(g, entry, block, t, e);
      } else {
        DominatingCheckExcludes(g, rel, entry, block, t, e);
      }
    }
  }

  lemma EdgeTaken(g: Adjacency, entry: nat, block: nat, next: nat, eventBlock: nat)
    requires Reachable(g, entry, block) && Edge(g, block, next) && Reachable(g, next, eventBlock)
    ensures !ErrorPathsExcluded(g, entry, block, next, eventBlock)
  {
    var p, i := PathThroughEdge(g, entry, block, next, eventBlock);
  }

  lemma SettledIsNotCovered(candidate: ControlEvent, event: ControlEvent, rel: Adjacency, index: Index)
    ensures match CheckedErrorSelection(candidate, event, rel, index)
            case Settled(v) => v.outcome != Covered
            case Search(_, _, _) => true
  {
    if candidate.result.Some? && event.block.Some? && candidate.body in index.operations {
      var ops := index.operations[candidate.body];
      var guard := PositionOf(ops, candidate.operation);
      if guard.Some? {
        var at := SelectBranchStops(ops, guard.value + 1, false, candidate.body, candidate.result.value, candidate.site,
                                    event.block.value, rel, index);
      }
    }
  }

  /** Passing the check before arriving is a matter of the blocks being distinct:
      a branch in the operation's own block may come after the operation. */
  lemma BeforeArrivalIffDistinct(g: Adjacency, entry: nat, block: nat, errorBlock: nat, eventBlock: nat)
    requires ErrorPathsExcluded(g, entry, block, errorBlock, eventBlock)
    requires Reachable(g, entry, eventBlock)
    ensures CheckedBeforeArrival(g, entry, block, errorBlock, eventBlock) <==> block != eventBlock
  {
    if block != eventBlock {
      forall p | PathFromTo(g, p, entry, eventBlock)
        ensures exists i :: 0 <= i < |p| - 1 && p[i] == block && p[i + 1] != errorBlock
      {
        var i :| 0 <= i < |p| && p[i] == block;
        assert p[i + 1] != errorBlock;
      }
    } else {
      var p :| PathFromTo(g, p, entry, eventBlock);
      var first := FirstVisit(p, eventBlock);
      PathSlice(g, p, 0, first);
      var q := p[0..first + 1];
      assert forall i :: 0 <= i < |q| - 1 ==> q[i] != block;
    }
  }

  lemma {:induction false} FirstVisit(p: seq<nat>, n: nat) returns (k: nat)
    requires n in p
    ensures k < |p| && p[k] == n && forall i :: 0 <= i < k ==> p[i] != n
  {
    if p[0] == n {
      k := 0;
    } else {
      k := FirstVisit(p[1..], n);
      assert forall i :: 1 <= i < |p| ==> p[i] == p[1..][i - 1];
      k := k + 1;
    }
  }

  /** A violation for the error path is witnessed: from a reachable branch block
      some path takes the error edge and still arrives at the operation's block. */
  lemma ViolationHasErrorPath(candidate: ControlEvent, event: ControlEvent, rel: Adjacency, index: Index,
                              verdict: GuardVerdict, entry: nat)
    returns (at: nat, block: nat, errorBlock: nat)
    requires verdict == CheckedErrorVerdict(candidate, event, rel, index)
    requires verdict.reason == REASON_ERROR_PATH_REACHES_OPERATION && Consistent(index)
    ensures event.block.Some? && IsErrorCheck(candidate, index, at, block, errorBlock)
    ensures Reachable(index.successors, entry, block) ==>
      exists p, i :: PathFromTo(index.successors, p, entry, event.block.value) && 0 <= i < |p| - 1 && p[i] == block
            && p[i + 1] == errorBlock
  {
    SettledReasons(candidate, event, rel, index);
    var s := CheckedErrorSelection(candidate, event, rel, index);
    SelectionIsErrorCheck(candidate, event, rel, index);
    at, block, errorBlock := s.position, s.branchBlock, s.errorBlock;
    var g, e := index.successors, event.block.value;
    SearchIsCertified(g, errorBlock, e, MAX_ERROR_PATH_BLOCKS);
    if Reachable(g, entry, block) {
      var ops := index.operations[candidate.body];
      FirstOfKindIsListed(ConditionsAt(index.conditionEdges, block), ErrorKind(ops[at].kind.nilTest.value));
      assert Edge(g, block, errorBlock);
      var p, i := PathThroughEdge(g, entry, block, errorBlock, e);
    }
  }

  lemma SettledReasons(candidate: ControlEvent, event: ControlEvent, rel: Adjacency, index: Index)
    ensures match CheckedErrorSelection(candidate, event, rel, index)
            case Settled(v) => v.reason != REASON_ERROR_PATH_REACHES_OPERATION
            case Search(_, _, _) => true
  {
    if candidate.result.Some? && event.block.Some? && candidate.body in index.operations {
      var ops := index.operations[candidate.body];
      var guard := PositionOf(ops, candidate.operation);
      if guard.Some? {
        var at := SelectBranchStops(ops, guard.value + 1, false, candidate.body, candidate.result.value, candidate.site,
                                    event.block.value, rel, index);
      }
    }
  }

  /** "Never tested" is said only when no later branch decides: each tests a place the
      walk finds elsewhere, or sits in a known block that does not dominate. */
  lemma NeverTestedScan(candidate: ControlEvent, event: ControlEvent, rel: Adjacency, index: Index, entry: nat, at: nat)
    requires CheckedErrorVerdict(candidate, event, rel, index).reason == REASON_RESULT_NEVER_TESTED
    requires candidate.result.Some? && candidate.body in index.operations && event.block.Some?
    requires SoundRows(rel, index.successors, entry) && HasImmediateRows(rel, index.successors, entry)
    requires Reachable(index.successors, entry, event.block.value)
    requires var ops := index.operations[candidate.body];
             var guard := PositionOf(ops, candidate.operation);
             guard.Some? && guard.value < at < |ops| && ops[at].kind.Branch? && ops[at].kind.tested.Some?
    ensures var ops := index.operations[candidate.body];
            || DefinitionReaching(ops[..at], ops[at].kind.tested.value, candidate.result.value, candidate.site)
               == Elsewhere
            || ((candidate.body, ops[at].id) in index.blocks
                && !Dominates(index.successors, entry, index.blocks[(candidate.body, ops[at].id)], event.block.value))
  {
    var ops := index.operations[candidate.body];
    var guard := PositionOf(ops, candidate.operation);
    var tested, result, e := ops[at].kind.tested.value, candidate.result.value, event.block.value;
    var stop := SelectBranchStops(ops, guard.value + 1, false, candidate.body, result, candidate.site, e, rel, index);
    var d := BranchDecision(ops, at, candidate.body, result, candidate.site, e, rel, index);
    assert stop >= |ops| && d != Doubt && !d.Stop?;
    if DefinitionReaching(ops[..at], tested, result, candidate.site) == FromGuard {
      var block := index.blocks[(candidate.body, ops[at].id)];
      if Dominates(index.successors, entry, block, e) {
        DominatorIsReachable(index.successors, entry, block, e);
        LookupIsDominance(rel, index.successors, entry, block, e);
      }
    }
  }

  /** A guard, the protected operation and only then the test of the guard's error,
      all in block 10. */
  function LateOperations(): seq<Operation> {
    [Operation(0, Call(7, 1)), Operation(1, OtherOperation), Operation(2, Branch(Some(1), Some(Exhaustive(false))))]
  }

  function LateIndex(): Index {
    Index(map[0 := LateOperations()], map[(0, 0) := 10, (0, 1) := 10, (0, 2) := 10],
          map[10 := [11, 12]], map[10 := [(TrueEdge, 11), (FalseEdge, 12)]])
  }

  function LateGuard(): ControlEvent {
    ControlEvent(0, 0, 7, Some(10), Some(1), [], {})
  }

  function LateEvent(): ControlEvent {
    ControlEvent(0, 1, 8, Some(10), None, [], {})
  }

  /** A concrete query in which the branch shares the operation's block: the
      verdict is covered, and the operation's block is entered with no check passed. */
  lemma SameBlockIsCoveredUnchecked()
    ensures CheckedErrorVerdict(LateGuard(), LateEvent(), map[], LateIndex()) == CoveredBy(REASON_CHECKED_ERROR_EXITS)
    ensures !CheckedBeforeArrival(LateIndex().successors, 10, 10, 11, 10)
  {
    var g := LateIndex().successors;
    assert PositionOf(LateOperations(), 0) == Some(0);
    LateCheckSelected();
    LateSearch();
    assert PathFromTo(g, [10], 10, 10);
  }

  lemma LateCheckSelected()
    ensures SelectBranch(LateOperations(), 1, false, 0, 1, 7, 10, map[], LateIndex()) == Search(2, 10, 11)
  {
  }

  lemma LateSearch()
    ensures SearchAnswer(LateIndex().successors, 11, 10, MAX_ERROR_PATH_BLOCKS) == DoesNotReach
  {
  }
}
