/** When the checked-error decision gives each of its answers, read off the operations,
    their blocks, the dominator rows and the control-flow edges. */
module CheckedOutcomes {
  import opened Options
  import opened Graphs
  import opened Dominance
  import opened Mir
  import opened CheckedError

  /** The guard returns a result, its call is found, and the operation has a block. */
  ghost predicate Readable(candidate: ControlEvent, event: ControlEvent, index: Index) {
    candidate.result.Some? && event.block.Some? && candidate.body in index.operations
    && PositionOf(index.operations[candidate.body], candidate.operation).Some?
  }

  /** The operation at `k` follows the guard and branches on a place. */
  ghost predicate LaterTest(candidate: ControlEvent, event: ControlEvent, index: Index, k: nat) {
    Readable(candidate, event, index)
    && var ops := index.operations[candidate.body];
       PositionOf(ops, candidate.operation).value < k < |ops| && ops[k].kind.Branch? && ops[k].kind.tested.Some?
  }

  /** Such a branch whose place the walk attributes so. */
  ghost predicate TestAttributed(candidate: ControlEvent, event: ControlEvent, index: Index, k: nat,
                                 reach: DefinitionReach) {
    LaterTest(candidate, event, index, k)
    && var ops := index.operations[candidate.body];
       DefinitionReaching(ops[..k], ops[k].kind.tested.value, candidate.result.value, candidate.site) == reach
  }

  /** Its test is an exhaustive nil test in the block, which is known. */
  ghost predicate TestsIn(candidate: ControlEvent, index: Index, k: nat, block: nat) {
    candidate.body in index.operations
    && var ops := index.operations[candidate.body];
       k < |ops| && ops[k].kind.Branch? && ops[k].kind.nilTest.Some? && ops[k].kind.nilTest.value.Exhaustive?
       && (candidate.body, ops[k].id) in index.blocks && index.blocks[(candidate.body, ops[k].id)] == block
  }

  /** An attributed branch is passed over exactly when it tests exhaustively in a known
      block that is not found to dominate the operation. */
  ghost predicate PassedOver(candidate: ControlEvent, event: ControlEvent, rel: Adjacency, index: Index, k: nat) {
    event.block.Some?
    && exists block :: TestsIn(candidate, index, k, block) && AnswerForBlocks(rel, block, event.block.value) != Holds
  }

  /** The first attributed branch that is not passed over. */
  ghost predicate FirstDeciding(candidate: ControlEvent, event: ControlEvent, rel: Adjacency, index: Index, k: nat) {
    TestAttributed(candidate, event, index, k, FromGuard) && !PassedOver(candidate, event, rel, index, k)
    && forall j: nat :: j < k && TestAttributed(candidate, event, index, j, FromGuard) ==>
         PassedOver(candidate, event, rel, index, j)
  }

  ghost predicate NoneDecides(candidate: ControlEvent, event: ControlEvent, rel: Adjacency, index: Index) {
    Readable(candidate, event, index)
    && forall k: nat :: TestAttributed(candidate, event, index, k, FromGuard) ==>
         PassedOver(candidate, event, rel, index, k)
  }

  /** The first deciding branch tests exhaustively, and the search from its error edge
      answers so. */
  ghost predicate ErrorPathAnswers(candidate: ControlEvent, event: ControlEvent, rel: Adjacency, index: Index,
                                   answer: BlockReach) {
    exists k: nat, block: nat, errorBlock: nat ::
      FirstDeciding(candidate, event, rel, index, k) && TestsIn(candidate, index, k, block)
      && ErrorEdgeTarget(index, block, index.operations[candidate.body][k].kind.nilTest.value) == Some(errorBlock)
      && SearchAnswer(index.successors, errorBlock, event.block.value, MAX_ERROR_PATH_BLOCKS) == answer
  }

  /** Why the first deciding branch leaves the answer open. */
  ghost predicate FirstLacks(candidate: ControlEvent, event: ControlEvent, rel: Adjacency, index: Index,
                             reason: string) {
    exists k: nat ::
      FirstDeciding(candidate, event, rel, index, k)
      && var ops := index.operations[candidate.body];
         var nilTest := ops[k].kind.nilTest;
         || (reason == REASON_UNRECOGNIZED_ERROR_TEST && nilTest.None?)
         || (reason == REASON_PARTIAL_NIL_TEST && nilTest.Some? && nilTest.value.NilEdgeOnly?)
         || (reason == REASON_MISSING_BRANCH_BLOCK && nilTest.Some? && nilTest.value.Exhaustive?
             && (candidate.body, ops[k].id) !in index.blocks)
         || (reason == REASON_MISSING_ERROR_EDGE && exists block ::
               TestsIn(candidate, index, k, block) && ErrorEdgeTarget(index, block, nilTest.value) == None)
  }

  /** The condition of each answer. */
  ghost predicate Warranted(candidate: ControlEvent, event: ControlEvent, rel: Adjacency, index: Index,
                            verdict: GuardVerdict) {
    || (verdict == CoveredBy(REASON_CHECKED_ERROR_EXITS)
        && ErrorPathAnswers(candidate, event, rel, index, DoesNotReach))
    || (verdict == Refuted(REASON_ERROR_PATH_REACHES_OPERATION, DOMINANCE_FROM_RELATION)
        && ErrorPathAnswers(candidate, event, rel, index, Reaches))
    || (verdict == Undecidable(BUDGET_ERROR_PATH_SEARCH, DOMINANCE_FROM_RELATION)
                   .(budget := Some(BUDGET_ERROR_PATH_SEARCH))
        && ErrorPathAnswers(candidate, event, rel, index, BudgetExceeded))
    || (verdict == Undecidable(verdict.reason, DOMINANCE_FROM_RELATION)
        && FirstLacks(candidate, event, rel, index, verdict.reason))
    || (verdict == Undecidable(REASON_AMBIGUOUS_ERROR_DEFINITION, DOMINANCE_FROM_RELATION)
        && NoneDecides(candidate, event, rel, index)
        && exists k: nat :: TestAttributed(candidate, event, index, k, Ambiguous))
    || (verdict == Refuted(REASON_RESULT_NEVER_TESTED, DOMINANCE_FROM_RELATION)
        && NeverTests(candidate, event, rel, index))
    || (verdict == Undecidable(DOMINANCE_MISSING_BLOCK_IDS, DOMINANCE_MISSING_BLOCK_IDS)
        && candidate.result.Some? && event.block.None?)
    || (verdict == Undecidable(REASON_MISSING_GUARD_OPERATION, DOMINANCE_FROM_RELATION)
        && candidate.result.Some? && event.block.Some? && !Readable(candidate, event, index))
  }

  /** The guard returns no result, or no branch decides and none is doubtful. */
  ghost predicate NeverTests(candidate: ControlEvent, event: ControlEvent, rel: Adjacency, index: Index) {
    candidate.result.None?
    || (NoneDecides(candidate, event, rel, index)
        && forall k: nat :: !TestAttributed(candidate, event, index, k, Ambiguous))
  }

  // ----- the scan gives these answers

  /** What the scan makes of one branch. */
  lemma DecisionMeaning(candidate: ControlEvent, event: ControlEvent, rel: Adjacency, index: Index, k: nat)
    requires Readable(candidate, event, index)
    requires PositionOf(index.operations[candidate.body], candidate.operation).value < k
             < |index.operations[candidate.body]|
    ensures var d := BranchDecision(index.operations[candidate.body], k, candidate.body, candidate.result.value,
                                    candidate.site, event.block.value, rel, index);
            && (d.Stop? <==> TestAttributed(candidate, event, index, k, FromGuard)
                             && !PassedOver(candidate, event, rel, index, k))
            && (d.Doubt? <==> TestAttributed(candidate, event, index, k, Ambiguous))
  {
    hide DefinitionReaching, AnswerForBlocks, ErrorEdgeTarget, PositionOf;
    var ops := index.operations[candidate.body];
    if (candidate.body, ops[k].id) in index.blocks {
      var block := index.blocks[(candidate.body, ops[k].id)];
      assert forall other :: TestsIn(candidate, index, k, other) ==> other == block;
    }
  }

  /** The branch at which the scan stops, or none. */
  lemma ScanStops(candidate: ControlEvent, event: ControlEvent, rel: Adjacency, index: Index) returns (at: nat)
    requires Readable(candidate, event, index)
    ensures at < |index.operations[candidate.body]| ==>
              FirstDeciding(candidate, event, rel, index, at)
              && BranchDecision(index.operations[candidate.body], at, candidate.body, candidate.result.value,
                                candidate.site, event.block.value, rel, index)
                 == Stop(CheckedErrorSelection(candidate, event, rel, index))
    ensures at >= |index.operations[candidate.body]| ==>
              NoneDecides(candidate, event, rel, index)
              && CheckedErrorSelection(candidate, event, rel, index)
                 == Settled(if exists k: nat :: TestAttributed(candidate, event, index, k, Ambiguous)
                            then Undecidable(REASON_AMBIGUOUS_ERROR_DEFINITION, DOMINANCE_FROM_RELATION)
                            else Refuted(REASON_RESULT_NEVER_TESTED, DOMINANCE_FROM_RELATION))
  {
    var ops := index.operations[candidate.body];
    var from := PositionOf(ops, candidate.operation).value + 1;
    at := SelectBranchStops(ops, from, false, candidate.body, candidate.result.value, candidate.site,
                            event.block.value, rel, index);
    hide BranchDecision, SelectBranch, DefinitionReaching, PassedOver, PositionOf;
    forall k: nat | from <= k < |ops|
      ensures var d := BranchDecision(ops, k, candidate.body, candidate.result.value, candidate.site,
                                      event.block.value, rel, index);
              && (d.Stop? <==> TestAttributed(candidate, event, index, k, FromGuard)
                               && !PassedOver(candidate, event, rel, index, k))
              && (d.Doubt? <==> TestAttributed(candidate, event, index, k, Ambiguous))
    {
      DecisionMeaning(candidate, event, rel, index, k);
    }
  }

  /** The decision gives every answer exactly on its condition. */
  lemma VerdictExactlyWhen(candidate: ControlEvent, event: ControlEvent, rel: Adjacency, index: Index,
                           verdict: GuardVerdict)
    ensures verdict == CheckedErrorVerdict(candidate, event, rel, index) <==>
            Warranted(candidate, event, rel, index, verdict)
  {
    VerdictIsWarranted(candidate, event, rel, index);
    if Warranted(candidate, event, rel, index, verdict) {
      OneWarranted(candidate, event, rel, index, verdict, CheckedErrorVerdict(candidate, event, rel, index));
    }
  }

  /** Covered exactly when the first deciding branch tests exhaustively and the bounded
      search does not lead from its error edge to the operation. */
  lemma CoveredExactlyWhen(candidate: ControlEvent, event: ControlEvent, rel: Adjacency, index: Index)
    ensures CheckedErrorVerdict(candidate, event, rel, index).outcome == Covered <==>
            ErrorPathAnswers(candidate, event, rel, index, DoesNotReach)
  {
    VerdictExactlyWhen(candidate, event, rel, index, CheckedErrorVerdict(candidate, event, rel, index));
    VerdictExactlyWhen(candidate, event, rel, index, CoveredBy(REASON_CHECKED_ERROR_EXITS));
    hide CheckedErrorVerdict, ErrorPathAnswers, FirstLacks, NoneDecides, Readable, TestAttributed;
  }

  /** A violation exactly when that search leads there, or nothing tests the result. */
  lemma ViolationExactlyWhen(candidate: ControlEvent, event: ControlEvent, rel: Adjacency, index: Index)
    ensures CheckedErrorVerdict(candidate, event, rel, index).outcome == Violation <==>
            ErrorPathAnswers(candidate, event, rel, index, Reaches) || NeverTests(candidate, event, rel, index)
  {
    VerdictExactlyWhen(candidate, event, rel, index, CheckedErrorVerdict(candidate, event, rel, index));
    VerdictExactlyWhen(candidate, event, rel, index,
                       Refuted(REASON_ERROR_PATH_REACHES_OPERATION, DOMINANCE_FROM_RELATION));
    VerdictExactlyWhen(candidate, event, rel, index, Refuted(REASON_RESULT_NEVER_TESTED, DOMINANCE_FROM_RELATION));
    hide CheckedErrorVerdict, ErrorPathAnswers, FirstLacks, NeverTests, NoneDecides, Readable, TestAttributed;
  }

  lemma VerdictIsWarranted(candidate: ControlEvent, event: ControlEvent, rel: Adjacency, index: Index)
    ensures Warranted(candidate, event, rel, index, CheckedErrorVerdict(candidate, event, rel, index))
  {
    hide DefinitionReaching, AnswerForBlocks, ErrorEdgeTarget, PositionOf, SelectBranch, SearchAnswer;
    if Readable(candidate, event, index) {
      var at := ScanStops(candidate, event, rel, index);
      hide CheckedErrorSelection, PassedOver;
      if at < |index.operations[candidate.body]| {
        assert TestAttributed(candidate, event, index, at, FromGuard);
      }
    }
  }

  /** No two answers are warranted at once. */
  lemma OneWarranted(candidate: ControlEvent, event: ControlEvent, rel: Adjacency, index: Index, v: GuardVerdict,
                     w: GuardVerdict)
    requires Warranted(candidate, event, rel, index, v) && Warranted(candidate, event, rel, index, w)
    ensures v == w
  {
    forall a, b | ErrorPathAnswers(candidate, event, rel, index, a) && ErrorPathAnswers(candidate, event, rel, index, b)
      ensures a == b
    {
      OneAnswer(candidate, event, rel, index, a, b);
    }
    forall a, b | FirstLacks(candidate, event, rel, index, a) && FirstLacks(candidate, event, rel, index, b)
      ensures a == b
    {
      OneReason(candidate, event, rel, index, a, b);
    }
    forall a, reason
      ensures !(ErrorPathAnswers(candidate, event, rel, index, a) && FirstLacks(candidate, event, rel, index, reason))
      ensures ErrorPathAnswers(candidate, event, rel, index, a) || FirstLacks(candidate, event, rel, index, reason) ==>
                Readable(candidate, event, index) && !NoneDecides(candidate, event, rel, index)
      ensures FirstLacks(candidate, event, rel, index, reason) ==>
                reason in {REASON_UNRECOGNIZED_ERROR_TEST, REASON_PARTIAL_NIL_TEST, REASON_MISSING_BRANCH_BLOCK,
                           REASON_MISSING_ERROR_EDGE}
    {
      AnswersOrLacks(candidate, event, rel, index, a, reason);
    }
    NoneIsReadable(candidate, event, rel, index);
    hide ErrorPathAnswers, FirstLacks, NoneDecides, TestAttributed, Readable;
  }

  lemma NoneIsReadable(candidate: ControlEvent, event: ControlEvent, rel: Adjacency, index: Index)
    ensures NoneDecides(candidate, event, rel, index) ==> Readable(candidate, event, index)
    ensures Readable(candidate, event, index) ==> candidate.result.Some? && event.block.Some?
  {
  }

  lemma OneAnswer(candidate: ControlEvent, event: ControlEvent, rel: Adjacency, index: Index, a: BlockReach,
                  b: BlockReach)
    requires ErrorPathAnswers(candidate, event, rel, index, a) && ErrorPathAnswers(candidate, event, rel, index, b)
    ensures a == b
  {
    FirstIsUnique(candidate, event, rel, index);
    hide FirstDeciding, SearchAnswer, ErrorEdgeTarget;
  }

  lemma OneReason(candidate: ControlEvent, event: ControlEvent, rel: Adjacency, index: Index, a: string, b: string)
    requires FirstLacks(candidate, event, rel, index, a) && FirstLacks(candidate, event, rel, index, b)
    ensures a == b
  {
    FirstIsUnique(candidate, event, rel, index);
    hide FirstDeciding, ErrorEdgeTarget;
  }

  lemma AnswersOrLacks(candidate: ControlEvent, event: ControlEvent, rel: Adjacency, index: Index, a: BlockReach,
                       reason: string)
    ensures !(ErrorPathAnswers(candidate, event, rel, index, a) && FirstLacks(candidate, event, rel, index, reason))
    ensures ErrorPathAnswers(candidate, event, rel, index, a) || FirstLacks(candidate, event, rel, index, reason) ==>
              Readable(candidate, event, index) && !NoneDecides(candidate, event, rel, index)
    ensures FirstLacks(candidate, event, rel, index, reason) ==>
              reason in {REASON_UNRECOGNIZED_ERROR_TEST, REASON_PARTIAL_NIL_TEST, REASON_MISSING_BRANCH_BLOCK,
                         REASON_MISSING_ERROR_EDGE}
  {
    FirstIsUnique(candidate, event, rel, index);
    hide FirstDeciding, SearchAnswer, ErrorEdgeTarget, NoneDecides, Readable;
  }

  lemma FirstIsUnique(candidate: ControlEvent, event: ControlEvent, rel: Adjacency, index: Index)
    ensures forall j: nat, k: nat ::
              FirstDeciding(candidate, event, rel, index, j) && FirstDeciding(candidate, event, rel, index, k) ==>
                j == k
    ensures forall k: nat :: FirstDeciding(candidate, event, rel, index, k) ==>
              Readable(candidate, event, index) && !NoneDecides(candidate, event, rel, index)
  {
  }
}
