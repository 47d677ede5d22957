/** What the checked-error verdicts say about the value a branch tests, executed along
    the paths of the control-flow graph. */
module CheckedPaths {
  import opened Options
  import opened Graphs
  import opened Dominance
  import opened Mir
  import opened CheckedError
  import opened Paths

  /** A body as the index knows it. */
  ghost function BodyOf(index: Index, body: BodyId): Body
    requires body in index.operations
  {
    var ops := index.operations[body];
    Body(ops, map k: nat | k < |ops| && (body, ops[k].id) in index.blocks :: index.blocks[(body, ops[k].id)],
         index.successors)
  }

  /** The other body has the operation at `k` where the index has it. */
  ghost predicate SameBlock(index: Index, body: BodyId, other: Body, k: nat)
    requires body in index.operations && k < |index.operations[body]|
  {
    var id := index.operations[body][k].id;
    (k in other.block <==> (body, id) in index.blocks)
    && (k in other.block ==> other.block[k] == index.blocks[(body, id)])
  }

  lemma SameBody(index: Index, body: BodyId, other: Body)
    requires body in index.operations && other.ops == index.operations[body] && other.successors == index.successors
    requires forall k: nat :: k < |other.ops| ==> SameBlock(index, body, other, k)
    requires forall k :: k in other.block ==> k < |other.ops|
    ensures BodyOf(index, body) == other
  {
    var b := BodyOf(index, body);
    forall k: nat ensures k in b.block <==> k in other.block {
      assert k < |other.ops| ==> SameBlock(index, body, other, k);
    }
    forall k | k in b.block ensures b.block[k] == other.block[k] {
      assert SameBlock(index, body, other, k);
    }
    assert b.block == other.block;
  }

  /** Nothing but the guard's call writes its result place. */
  ghost predicate OwnsResult(candidate: ControlEvent, index: Index) {
    candidate.result.Some? && candidate.body in index.operations
    && ResultOwned(index.operations[candidate.body], candidate.result.value, candidate.site)
  }

  ghost predicate IsTest(candidate: ControlEvent, index: Index, at: nat) {
    candidate.result.Some? && candidate.body in index.operations
    && var ops := index.operations[candidate.body];
       at < |ops| && ops[at].kind.Branch? && ops[at].kind.tested.Some? && (candidate.body, ops[at].id) in index.blocks
  }

  /** On every path to the branch the place it tests holds the value the guard returned. */
  ghost predicate TestsGuardOnEveryPath(candidate: ControlEvent, index: Index, entry: nat, at: nat) {
    IsTest(candidate, index, at)
    && OnEveryPath(BodyOf(index, candidate.body), Entry(entry), at,
                   index.operations[candidate.body][at].kind.tested.value, candidate.result.value, candidate.site)
  }

  ghost predicate TestsGuardOnSomePath(candidate: ControlEvent, index: Index, entry: nat, at: nat) {
    IsTest(candidate, index, at)
    && OnSomePath(BodyOf(index, candidate.body), Entry(entry), at,
                  index.operations[candidate.body][at].kind.tested.value, candidate.result.value, candidate.site)
  }

  /** Some chain of copies leads from what the branch tests back to the guard's call, or,
      with `fromCall` false, to another origin. */
  ghost predicate TestComesFrom(candidate: ControlEvent, index: Index, entry: nat, at: nat, fromCall: bool) {
    IsTest(candidate, index, at)
    && ComesFrom(BodyOf(index, candidate.body), Entry(entry), at,
                 index.operations[candidate.body][at].kind.tested.value, candidate.result.value, candidate.site,
                 fromCall)
  }

  /** Every branch of the body, wherever listed: it tests the guard's value on every path
      exactly when no chain leads back to another origin, and on some path exactly when a
      chain leads back to the guard's call. */
  lemma TestsGuardExactlyWhen(candidate: ControlEvent, index: Index, entry: nat, at: nat)
    requires IsTest(candidate, index, at)
    ensures TestsGuardOnEveryPath(candidate, index, entry, at) <==>
            !TestComesFrom(candidate, index, entry, at, false)
    ensures TestsGuardOnSomePath(candidate, index, entry, at) <==>
            TestComesFrom(candidate, index, entry, at, true)
  {
    hide OnEveryPath, OnSomePath, ComesFrom;
    var b := BodyOf(index, candidate.body);
    var tested, result, site := b.ops[at].kind.tested.value, candidate.result.value, candidate.site;
    OnEveryPathExactlyWhen(b, Entry(entry), at, tested, result, site);
    OnSomePathExactlyWhen(b, Entry(entry), at, tested, result, site);
  }

  /** Neither the entry nor a write not attributed to the guard reaches the branch past
      all attributed writes. */
  ghost predicate OnlyGuardReaches(candidate: ControlEvent, index: Index, entry: nat, at: nat) {
    IsTest(candidate, index, at)
    && OnlyAttributedReach(BodyOf(index, candidate.body), Entry(entry), at,
                           index.operations[candidate.body][at].kind.tested.value, candidate.result.value,
                           candidate.site)
  }

  /** A covered verdict rests on a test that sees the guard's value on every path exactly
      when no chain leads back to another origin; with an owned result place it suffices
      that only attributed writes reach the test. */
  lemma CoveredTestsGuardExactlyWhen(candidate: ControlEvent, event: ControlEvent, rel: Adjacency, index: Index,
                                     entry: nat)
    returns (at: nat, block: nat, errorBlock: nat)
    requires CheckedErrorVerdict(candidate, event, rel, index).outcome == Covered
    requires SoundRows(rel, index.successors, entry)
    ensures event.block.Some? && IsErrorCheck(candidate, index, at, block, errorBlock)
    ensures ErrorPathsExcluded(index.successors, entry, block, errorBlock, event.block.value)
    ensures TestsGuardOnEveryPath(candidate, index, entry, at) <==>
            !TestComesFrom(candidate, index, entry, at, false)
    ensures OwnsResult(candidate, index) && OnlyGuardReaches(candidate, index, entry, at) ==>
              TestsGuardOnEveryPath(candidate, index, entry, at)
  {
    hide OnEveryPath, OnlyAttributedReach, ResultOwned, ErrorPathsExcluded, SoundRows, CheckedErrorVerdict;
    at, block, errorBlock :=
      CoveredExcludesErrorPaths(candidate, event, rel, index, CheckedErrorVerdict(candidate, event, rel, index), entry);
    TestsGuardExactlyWhen(candidate, index, entry, at);
    hide TestComesFrom;
    if OwnsResult(candidate, index) && OnlyGuardReaches(candidate, index, entry, at) {
      var b := BodyOf(index, candidate.body);
      AttributedReachSuffices(b, Entry(entry), at, b.ops[at].kind.tested.value, candidate.result.value, candidate.site);
    }
  }

  /** A chain from the guard's call to the branch that the scan does not follow: its last
      write is attributed to the guard but listed after the branch, so it reaches it on a
      way back, or it copies a place other than the result place. */
  ghost predicate MissedChain(candidate: ControlEvent, index: Index, entry: nat, at: nat, writes: seq<nat>) {
    IsTest(candidate, index, at) && writes != []
    && var b, w := BodyOf(index, candidate.body), writes[|writes| - 1];
       && TracesBack(b, Entry(entry), writes, at, b.ops[at].kind.tested.value, candidate.result.value, candidate.site,
                     true)
       && ((w > at && FromGuardAt(b, w, candidate.result.value, candidate.site))
           || (w < |b.ops| && CopyOf(b.ops[w]).Some? && CopyOf(b.ops[w]) != candidate.result))
  }

  /** "Never tested": a dominating branch after the guard tests the guard's value on some
      path exactly when such a chain leads to it. */
  lemma NeverTestedExactlyWhen(candidate: ControlEvent, event: ControlEvent, rel: Adjacency, index: Index,
                               entry: nat, at: nat)
    requires NeverTested(candidate, event, rel, index, entry, at)
    ensures TestsGuardOnSomePath(candidate, index, entry, at) <==>
            exists writes :: MissedChain(candidate, index, entry, at, writes)
  {
    TestsGuardExactlyWhen(candidate, index, entry, at);
    hide TestsGuardOnSomePath, NeverTested;
    if TestComesFrom(candidate, index, entry, at, true) {
      var writes := ChainIsMissed(candidate, event, rel, index, entry, at);
    }
  }

  lemma ChainIsMissed(candidate: ControlEvent, event: ControlEvent, rel: Adjacency, index: Index, entry: nat, at: nat)
    returns (writes: seq<nat>)
    requires NeverTested(candidate, event, rel, index, entry, at)
    requires TestComesFrom(candidate, index, entry, at, true)
    ensures MissedChain(candidate, index, entry, at, writes)
  {
    NeverTestedIsElsewhere(candidate, event, rel, index, entry, at);
    hide NeverTested, WriteReaches, StartReaches;
    var b := BodyOf(index, candidate.body);
    var tested, result, site := b.ops[at].kind.tested.value, candidate.result.value, candidate.site;
    writes :| TracesBack(b, Entry(entry), writes, at, tested, result, site, true);
    assert writes != [];
    var w := writes[|writes| - 1];
    WriteReachesWrites(b, Entry(entry), w, at, tested);
    AttributedCopiesOrReturns(b.ops[w], tested, result, site);
    assert w != at;
  }

  /** With an owned result place, every attributed write listed after the branch that
      reaches it is the end of such a chain. */
  lemma LateWriteIsMissed(candidate: ControlEvent, index: Index, entry: nat, at: nat, w: nat)
    requires IsTest(candidate, index, at) && OwnsResult(candidate, index)
    requires WriteReaches(BodyOf(index, candidate.body), Entry(entry), w, at,
                          index.operations[candidate.body][at].kind.tested.value)
    requires FromGuardAt(BodyOf(index, candidate.body), w, candidate.result.value, candidate.site)
    ensures TestsGuardOnSomePath(candidate, index, entry, at)
  {
    hide OnSomePath, WriteReaches, ResultOwned, ComesFrom;
    var b := BodyOf(index, candidate.body);
    var tested, result, site := b.ops[at].kind.tested.value, candidate.result.value, candidate.site;
    AttributedTracesToCall(b, Entry(entry), w, at, tested, result, site);
    OnSomePathExactlyWhen(b, Entry(entry), at, tested, result, site);
  }

  /** The verdict, a branch after the guard that dominates the operation, and exact rows. */
  ghost predicate NeverTested(candidate: ControlEvent, event: ControlEvent, rel: Adjacency, index: Index, entry: nat,
                              at: nat) {
    && CheckedErrorVerdict(candidate, event, rel, index).reason == REASON_RESULT_NEVER_TESTED
    && IsTest(candidate, index, at) && event.block.Some?
    && SoundRows(rel, index.successors, entry) && HasImmediateRows(rel, index.successors, entry)
    && Reachable(index.successors, entry, event.block.value)
    && var ops := index.operations[candidate.body];
       var guard := PositionOf(ops, candidate.operation);
       guard.Some? && guard.value < at
       && Dominates(index.successors, entry, index.blocks[(candidate.body, ops[at].id)], event.block.value)
  }

  lemma NeverTestedIsElsewhere(candidate: ControlEvent, event: ControlEvent, rel: Adjacency, index: Index,
                               entry: nat, at: nat)
    requires NeverTested(candidate, event, rel, index, entry, at)
    ensures IsTest(candidate, index, at)
    ensures var ops := index.operations[candidate.body];
            var tested := ops[at].kind.tested.value;
            && tested != candidate.result.value
            && forall k :: 0 <= k < at && WritesPlace(ops[k], tested) ==>
                 ClassifyWrite(ops[k], candidate.result.value, candidate.site) != FromGuard
  {
    NeverTestedScan(candidate, event, rel, index, entry, at);
    var ops := index.operations[candidate.body];
    var tested := ops[at].kind.tested.value;
    hide NeverTested;
    WritesAreListed(ops[..at], tested);
    forall k | 0 <= k < at && WritesPlace(ops[k], tested)
      ensures ClassifyWrite(ops[k], candidate.result.value, candidate.site) != FromGuard
    {
      assert ops[..at][k] == ops[k];
      assert ops[k] in WritesOf(ops[..at], tested);
    }
  }

  // ----- a covered operation whose test does not see the guard's value

  /** The guard's error is saved once; a loop then overwrites it on one branch (block 4)
      and tests it on the other (block 2) before the operation in block 3. */
  function LoopOperations(): seq<Operation> {
    [Operation(0, Call(7, 1)), Operation(1, Bind(2, PlaceValue(1))),
     Operation(2, Branch(Some(2), Some(Exhaustive(false)))), Operation(3, OtherOperation),
     Operation(4, Bind(2, OtherValue))]
  }

  function LoopIndex(): Index {
    Index(map[0 := LoopOperations()], map[(0, 0) := 0, (0, 1) := 0, (0, 2) := 2, (0, 3) := 3, (0, 4) := 4],
          map[0 := [1], 1 := [2, 4], 2 := [5, 3], 3 := [1], 4 := [1]], map[2 := [(TrueEdge, 5), (FalseEdge, 3)]])
  }

  function LoopRows(): Adjacency {
    map[1 := [0], 2 := [1], 3 := [2], 4 := [1], 5 := [2]]
  }

  function LoopGuard(): ControlEvent {
    ControlEvent(0, 0, 7, Some(0), Some(1), [], {})
  }

  function LoopEvent(): ControlEvent {
    ControlEvent(0, 3, 8, Some(3), None, [], {})
  }

  /** The verdict is covered with sound rows and an owned result place, and yet on a path
      to the operation the tested place holds another value at the branch. */
  lemma OverwrittenInLoopIsCovered()
    ensures CheckedErrorVerdict(LoopGuard(), LoopEvent(), LoopRows(), LoopIndex())
            == CoveredBy(REASON_CHECKED_ERROR_EXITS)
    ensures SoundRows(LoopRows(), LoopIndex().successors, 0) && OwnsResult(LoopGuard(), LoopIndex())
    ensures PathFromTo(LoopIndex().successors, [0, 1, 4, 1, 2], 0, 2) && Edge(LoopIndex().successors, 2, 3)
    ensures HeldAt(BodyOf(LoopIndex(), 0), Entry(0), [0, 1, 4, 1, 2], 2, 2, 1, 7) == AnotherValue
    ensures !TestsGuardOnEveryPath(LoopGuard(), LoopIndex(), 0, 2)
  {
    hide CheckedErrorVerdict, SoundRows, HeldAt, ResultOwned;
    LoopVerdict();
    LoopRowsAreSound();
    LoopValue();
    assert PathFromTo(LoopIndex().successors, [0, 1, 4, 1, 2], 0, 2);
  }

  lemma LoopVerdict()
    ensures CheckedErrorVerdict(LoopGuard(), LoopEvent(), LoopRows(), LoopIndex())
            == CoveredBy(REASON_CHECKED_ERROR_EXITS)
  {
    hide Explore;
    assert PositionOf(LoopOperations(), 0) == Some(0);
    LoopScan();
    LoopSearch();
  }

  lemma LoopSearch()
    ensures SearchAnswer(LoopIndex().successors, 5, 3, MAX_ERROR_PATH_BLOCKS) == DoesNotReach
  {
    assert Successors(LoopIndex().successors, 5) == [] && [5][1..] == [];
  }

  lemma LoopScan()
    ensures SelectBranch(LoopOperations(), 1, false, 0, 1, 7, 3, LoopRows(), LoopIndex()) == Search(2, 2, 5)
  {
    var ops, index, rel := LoopOperations(), LoopIndex(), LoopRows();
    LoopDefinition();
    LoopAnswer();
    hide DefinitionReaching, AnswerForBlocks, LoopRows;
    assert BranchDecision(ops, 2, 0, 1, 7, 3, rel, index) == Stop(Search(2, 2, 5));
    assert BranchDecision(ops, 1, 0, 1, 7, 3, rel, index) == Skip;
  }

  lemma LoopDefinition()
    ensures DefinitionReaching(LoopOperations()[..2], 2, 1, 7) == FromGuard
  {
    var ops := LoopOperations();
    assert WritesPlace(ops[..2][1], 2) && ops[..2][1] == ops[1];
  }

  lemma LoopAnswer()
    ensures AnswerForBlocks(LoopRows(), 2, 3) == Holds
  {
    var rel := LoopRows();
    assert Edge(rel, 3, 2) && PathFromTo(rel, [3, 2], 3, 2);
  }

  lemma OnlyPredecessor(g: Adjacency, entry: nat, a: nat, b: nat)
    requires b != entry && forall x: nat :: Edge(g, x, b) ==> x == a
    ensures Dominates(g, entry, a, b)
  {
    forall p | PathFromTo(g, p, entry, b) ensures a in p {
      assert Edge(g, p[|p| - 2], p[|p| - 1]);
    }
  }

  lemma EntryDominates(g: Adjacency, entry: nat, b: nat)
    ensures Dominates(g, entry, entry, b)
  {
  }

  lemma LoopRowsAreSound()
    ensures SoundRows(LoopRows(), LoopIndex().successors, 0)
  {
    hide Dominates;
    var g := LoopIndex().successors;
    EntryDominates(g, 0, 1);
    OnlyPredecessor(g, 0, 1, 2);
    OnlyPredecessor(g, 0, 2, 3);
    OnlyPredecessor(g, 0, 1, 4);
    OnlyPredecessor(g, 0, 2, 5);
    forall b: nat, a: nat | Edge(LoopRows(), b, a) ensures Dominates(g, 0, a, b) {
      LoopRow(b, a);
    }
  }

  lemma LoopRow(b: nat, a: nat)
    requires Edge(LoopRows(), b, a)
    ensures (b, a) in {(1, 0), (2, 1), (3, 2), (4, 1), (5, 2)}
  {
  }

  function LoopBody(): Body {
    Body(LoopOperations(), map[0 := 0, 1 := 0, 2 := 2, 3 := 3, 4 := 4], LoopIndex().successors)
  }

  lemma LoopValue()
    ensures OwnsResult(LoopGuard(), LoopIndex())
    ensures HeldAt(BodyOf(LoopIndex(), 0), Entry(0), [0, 1, 4, 1, 2], 2, 2, 1, 7) == AnotherValue
  {
    LoopIsLoopBody();
    LoopHolds();
    hide HeldAt;
  }

  lemma LoopIsLoopBody()
    ensures BodyOf(LoopIndex(), 0) == LoopBody()
  {
    var ops, other := LoopOperations(), LoopBody();
    forall k: nat | k < |ops| ensures SameBlock(LoopIndex(), 0, other, k) {
      assert k == 0 || k == 1 || k == 2 || k == 3 || k == 4;
      assert ops[k].id == k;
    }
    SameBody(LoopIndex(), 0, other);
  }

  lemma LoopHolds()
    ensures HeldAt(LoopBody(), Entry(0), [0, 1, 4, 1, 2], 2, 2, 1, 7) == AnotherValue
  {
    hide Execute, Steps;
    LoopSteps();
    LoopWindow();
    var ops := LoopOperations();
    assert OpsAt(LoopBody(), [0, 1, 4]) == [ops[0], ops[1], ops[4]];
  }

  lemma LoopWindow()
    ensures var ops := LoopOperations(); Execute([ops[0], ops[1], ops[4]], 1, 7)(2) == AnotherValue
  {
    var ops := LoopOperations();
    var window := [ops[0], ops[1], ops[4]];
    LastWriteIs(window, 2, 2);
    HoldsLastStored(window, 2, 1, 7);
  }

  lemma LoopSteps()
    ensures Steps(LoopBody(), [0, 1, 4, 1, 2], 0, 2) == [0, 1, 4]
  {
    hide Slice, Steps;
    var b := LoopBody();
    LoopSlices();
    LastStep(b, 2, 0, 2);
    StepsCons(b, 1, [2], 0, 2);
    StepsCons(b, 4, [1, 2], 0, 2);
    StepsCons(b, 1, [4, 1, 2], 0, 2);
    StepsCons(b, 0, [1, 4, 1, 2], 0, 2);
    assert [1] + [2] == [1, 2] && [4] + [1, 2] == [4, 1, 2] && [1] + [4, 1, 2] == [1, 4, 1, 2];
    assert [0] + [1, 4, 1, 2] == [0, 1, 4, 1, 2];
  }

  lemma LoopSlices()
    ensures var b := LoopBody();
            Slice(b, 0, 0, 5) == [0, 1] && Slice(b, 1, 0, 5) == [] && Slice(b, 4, 0, 5) == [4]
            && Slice(b, 2, 0, 2) == []
  {
    hide Slice;
    var b := LoopBody();
    SliceSplit(b, 0, 0, 0, 5);
    SliceSplit(b, 0, 1, 1, 5);
    SliceNone(b, 0, 0, 0);
    SliceNone(b, 0, 1, 1);
    SliceNone(b, 0, 2, 5);
    SliceNone(b, 1, 0, 5);
    SliceSplit(b, 4, 0, 4, 5);
    SliceNone(b, 4, 0, 4);
    SliceNone(b, 4, 5, 5);
    SliceNone(b, 2, 0, 2);
  }

  lemma LastStep(b: Body, n: nat, lo: nat, hi: nat)
    ensures Steps(b, [n], lo, hi) == Slice(b, n, lo, hi)
  {
  }

  // ----- two refutations that are wrong

  /** The guard's error is copied into the place a loop tests only at the loop's end. */
  function LateCopyOperations(): seq<Operation> {
    [Operation(0, Call(7, 1)), Operation(1, Branch(Some(2), Some(Exhaustive(false)))), Operation(2, OtherOperation),
     Operation(3, Bind(2, PlaceValue(1)))]
  }

  function LateCopyIndex(): Index {
    Index(map[0 := LateCopyOperations()], map[(0, 0) := 0, (0, 1) := 1, (0, 2) := 2, (0, 3) := 2],
          map[0 := [1], 1 := [5, 2], 2 := [1]], map[1 := [(TrueEdge, 5), (FalseEdge, 2)]])
  }

  function LateCopyBody(): Body {
    Body(LateCopyOperations(), map[0 := 0, 1 := 1, 2 := 2, 3 := 2], LateCopyIndex().successors)
  }

  /** The verdict is "never tested", and from its second turn on the loop tests it. */
  lemma LateCopyIsCalledUntested()
    ensures var guard := ControlEvent(0, 0, 7, Some(0), Some(1), [], {});
            var event := ControlEvent(0, 2, 8, Some(2), None, [], {});
            && CheckedErrorVerdict(guard, event, map[1 := [0], 2 := [1], 5 := [1]], LateCopyIndex())
               == Refuted(REASON_RESULT_NEVER_TESTED, DOMINANCE_FROM_RELATION)
            && TestsGuardOnSomePath(guard, LateCopyIndex(), 0, 1)
  {
    hide HeldAt, CheckedErrorVerdict;
    LateCopyVerdict();
    LateCopyIsLateCopyBody();
    LateCopyHolds();
    assert PathFromTo(LateCopyIndex().successors, [0, 1, 2, 1], 0, 1);
  }

  lemma LateCopyVerdict()
    ensures var guard := ControlEvent(0, 0, 7, Some(0), Some(1), [], {});
            var event := ControlEvent(0, 2, 8, Some(2), None, [], {});
            CheckedErrorVerdict(guard, event, map[1 := [0], 2 := [1], 5 := [1]], LateCopyIndex())
            == Refuted(REASON_RESULT_NEVER_TESTED, DOMINANCE_FROM_RELATION)
  {
    LateCopyPosition();
    LateCopyScan();
    hide SelectBranch, SearchAnswer, PositionOf, LateCopyOperations;
  }

  lemma LateCopyPosition()
    ensures PositionOf(LateCopyOperations(), 0) == Some(0)
  {
  }

  lemma LateCopyIsLateCopyBody()
    ensures BodyOf(LateCopyIndex(), 0) == LateCopyBody()
  {
    var ops, other := LateCopyOperations(), LateCopyBody();
    forall k: nat | k < |ops| ensures SameBlock(LateCopyIndex(), 0, other, k) {
      assert k == 0 || k == 1 || k == 2 || k == 3;
      assert ops[k].id == k;
    }
    SameBody(LateCopyIndex(), 0, other);
  }

  lemma LateCopyHolds()
    ensures HeldAt(LateCopyBody(), Entry(0), [0, 1, 2, 1], 1, 2, 1, 7) == GuardValue
  {
    hide Execute, Steps;
    LateCopySteps();
    LateCopyWindow();
    var ops := LateCopyOperations();
    assert OpsAt(LateCopyBody(), [0, 1, 2, 3]) == [ops[0], ops[1], ops[2], ops[3]];
  }

  lemma LateCopyWindow()
    ensures var ops := LateCopyOperations(); Execute([ops[0], ops[1], ops[2], ops[3]], 1, 7)(2) == GuardValue
  {
    var ops := LateCopyOperations();
    var window := [ops[0], ops[1], ops[2], ops[3]];
    LastWriteIs(window, 3, 2);
    HoldsLastStored(window, 2, 1, 7);
    var early := [ops[0], ops[1], ops[2]];
    assert window[..3] == early;
    LastWriteIs(early, 0, 1);
    HoldsLastStored(early, 1, 1, 7);
  }

  lemma LateCopySteps()
    ensures Steps(LateCopyBody(), [0, 1, 2, 1], 0, 1) == [0, 1, 2, 3]
  {
    hide Slice, Steps;
    var b := LateCopyBody();
    SliceSplit(b, 0, 0, 0, 4);
    SliceNone(b, 0, 0, 0);
    SliceNone(b, 0, 1, 4);
    SliceSplit(b, 1, 0, 1, 4);
    SliceNone(b, 1, 0, 1);
    SliceNone(b, 1, 2, 4);
    SliceSplit(b, 2, 0, 2, 4);
    SliceSplit(b, 2, 3, 3, 4);
    SliceNone(b, 2, 0, 2);
    SliceNone(b, 2, 3, 3);
    SliceNone(b, 2, 4, 4);
    LastStep(b, 1, 0, 1);
    StepsCons(b, 2, [1], 0, 1);
    StepsCons(b, 1, [2, 1], 0, 1);
    StepsCons(b, 0, [1, 2, 1], 0, 1);
    assert [2] + [1] == [2, 1] && [1] + [2, 1] == [1, 2, 1] && [0] + [1, 2, 1] == [0, 1, 2, 1];
  }

  lemma LateCopyScan()
    ensures SelectBranch(LateCopyOperations(), 1, false, 0, 1, 7, 2, map[1 := [0], 2 := [1], 5 := [1]], LateCopyIndex())
            == Settled(Refuted(REASON_RESULT_NEVER_TESTED, DOMINANCE_FROM_RELATION))
  {
    var ops := LateCopyOperations();
    assert ops[..1] == [ops[0]] && [ops[0]][..0] == [];
    assert WritesOf(ops[..1], 2) == [];
    var rel: Adjacency := map[1 := [0], 2 := [1], 5 := [1]];
    var at := SelectBranchStops(ops, 1, false, 0, 1, 7, 2, rel, LateCopyIndex());
  }

  /** The guard's error, a copy of it and a copy of the copy, which block 10 tests
      before the operation in block 12. */
  function TwiceOperations(): seq<Operation> {
    [Operation(0, Call(7, 1)), Operation(1, Bind(2, PlaceValue(1))), Operation(2, Bind(3, PlaceValue(2))),
     Operation(3, Branch(Some(3), Some(Exhaustive(false)))), Operation(4, OtherOperation)]
  }

  function TwiceIndex(): Index {
    Index(map[0 := TwiceOperations()], map[(0, 0) := 10, (0, 1) := 10, (0, 2) := 10, (0, 3) := 10, (0, 4) := 12],
          map[10 := [11, 12]], map[10 := [(TrueEdge, 11), (FalseEdge, 12)]])
  }

  /** The result is tested on every path to the operation and its error edge leaves, yet
      the verdict is the violation "never tested". */
  lemma SecondCopyIsCalledUntested()
    ensures var guard := ControlEvent(0, 0, 7, Some(10), Some(1), [], {});
            var event := ControlEvent(0, 4, 8, Some(12), None, [], {});
            && CheckedErrorVerdict(guard, event, map[12 := [10]], TwiceIndex())
               == Refuted(REASON_RESULT_NEVER_TESTED, DOMINANCE_FROM_RELATION)
            && TestsGuardOnEveryPath(guard, TwiceIndex(), 10, 3)
            && ErrorPathsExcluded(TwiceIndex().successors, 10, 10, 11, 12)
  {
    hide ErrorPathsExcluded, CheckedErrorVerdict, OnEveryPath;
    TwiceVerdict();
    TwiceIsTwiceBody();
    TwicePaths();
    TwiceHolds();
  }

  lemma TwiceVerdict()
    ensures var guard := ControlEvent(0, 0, 7, Some(10), Some(1), [], {});
            var event := ControlEvent(0, 4, 8, Some(12), None, [], {});
            CheckedErrorVerdict(guard, event, map[12 := [10]], TwiceIndex())
            == Refuted(REASON_RESULT_NEVER_TESTED, DOMINANCE_FROM_RELATION)
  {
    TwicePosition();
    TwiceScan();
    hide SelectBranch, SearchAnswer, PositionOf, TwiceOperations;
  }

  lemma TwicePosition()
    ensures PositionOf(TwiceOperations(), 0) == Some(0)
  {
  }

  lemma TwiceIsTwiceBody()
    ensures BodyOf(TwiceIndex(), 0) == TwiceBody()
  {
    var ops, other := TwiceOperations(), TwiceBody();
    forall k: nat | k < |ops| ensures SameBlock(TwiceIndex(), 0, other, k) {
      assert k == 0 || k == 1 || k == 2 || k == 3 || k == 4;
      assert ops[k].id == k;
    }
    SameBody(TwiceIndex(), 0, other);
  }

  lemma TwiceHolds()
    ensures OnEveryPath(TwiceBody(), Entry(10), 3, 3, 1, 7)
  {
    hide Execute, DefinitionReaching, Steps;
    TwiceWindow();
    TwiceSteps();
    var g, ops := TwiceIndex().successors, TwiceOperations();
    forall p | Arrives(TwiceBody(), Entry(10), 3, p)
      ensures HeldAt(TwiceBody(), Entry(10), p, 3, 3, 1, 7) == GuardValue
    {
      assert |p| > 1 ==> Edge(g, p[|p| - 2], p[|p| - 1]);
      assert p == [10];
      assert OpsAt(TwiceBody(), [0, 1, 2]) == ops[..3];
    }
  }

  function TwiceBody(): Body {
    Body(TwiceOperations(), map[0 := 10, 1 := 10, 2 := 10, 3 := 10, 4 := 12], TwiceIndex().successors)
  }

  lemma TwiceSteps()
    ensures Steps(TwiceBody(), [10], 0, 3) == [0, 1, 2]
  {
    hide Slice;
    var b := TwiceBody();
    SliceSplit(b, 10, 0, 0, 3);
    SliceSplit(b, 10, 1, 1, 3);
    SliceSplit(b, 10, 2, 2, 3);
    SliceNone(b, 10, 0, 0);
    SliceNone(b, 10, 1, 1);
    SliceNone(b, 10, 2, 2);
    SliceNone(b, 10, 3, 3);
  }

  lemma TwicePaths()
    ensures ErrorPathsExcluded(TwiceIndex().successors, 10, 10, 11, 12)
  {
    var g := TwiceIndex().successors;
    forall p | PathFromTo(g, p, 10, 12)
      ensures 10 in p && forall i :: 0 <= i < |p| - 1 && p[i] == 10 ==> p[i + 1] != 11
    {
      assert p[0] in p;
      forall i | 0 <= i < |p| - 1 && p[i] == 10 ensures p[i + 1] != 11 {
        PathSlice(g, p, i + 1, |p| - 1);
        if p[i + 1] == 11 {
          ClosedSetConfines(g, {11}, 12, p[i + 1..|p| - 1 + 1]);
        }
      }
    }
  }

  lemma TwiceWindow()
    ensures var ops := TwiceOperations();
            && DefinitionReaching(ops[..3], 3, 1, 7) == Elsewhere && Execute(ops[..3], 1, 7)(3) == GuardValue
  {
    assert TwiceOperations()[..3] ==
           [Operation(0, Call(7, 1)), Operation(1, Bind(2, PlaceValue(1))), Operation(2, Bind(3, PlaceValue(2)))];
    SecondCopyIsMissed();
  }

  lemma TwiceScan()
    ensures SelectBranch(TwiceOperations(), 1, false, 0, 1, 7, 12, map[12 := [10]], TwiceIndex())
            == Settled(Refuted(REASON_RESULT_NEVER_TESTED, DOMINANCE_FROM_RELATION))
  {
    TwiceWindow();
    var at := SelectBranchStops(TwiceOperations(), 1, false, 0, 1, 7, 12, map[12 := [10]], TwiceIndex());
  }
}
