/** What covered and refuted operations are on the paths of the control-flow graph: the
    guard, the test of its error, and the value of the bound argument. */
module GuardPaths {
  import opened Options
  import opened Graphs
  import opened Dominance
  import opened Mir
  import opened CheckedError
  import opened Paths
  import opened CheckedPaths
  import opened GuardVerdicts

  // ----- the value of an argument between the guard and the operation

  predicate Calls(op: Operation, site: SiteId) {
    match op.kind
    case Call(call, _) => call == site
    case Assign(_, value, _) => value == CallReturn(site)
    case Bind(_, value) => value == CallReturn(site)
    case _ => false
  }

  ghost predicate NotCalled(ops: seq<Operation>, site: SiteId) {
    forall op :: op in ops ==> !Calls(op, site)
  }

  /** Whenever the operation at `e` runs after the guard at `g`, the place holds what it
      held when the guard last ran. That value is tracked as the value of a call `site`
      which the body does not make. A write to another place of the same root, such as a
      field, leaves it. */
  ghost predicate KeptOnEveryPath(b: Body, g: nat, e: nat, place: PlaceId, site: SiteId) {
    OnEveryPath(b, After(g), e, place, place, site)
  }

  /** A chain of copies on the way from the guard leads from what the place holds at the
      operation back to something else: another place untouched since the guard, or a write
      that is no copy. */
  ghost predicate Strays(b: Body, g: nat, e: nat, place: PlaceId, site: SiteId, writes: seq<nat>) {
    TracesBack(b, After(g), writes, e, place, place, site, false)
  }

  /** The argument keeps its value on every path exactly when no chain strays. */
  lemma KeptExactlyWhen(b: Body, g: nat, e: nat, place: PlaceId, site: SiteId)
    ensures KeptOnEveryPath(b, g, e, place, site) <==> forall writes :: !Strays(b, g, e, place, site, writes)
  {
    OnEveryPathExactlyWhen(b, After(g), e, place, place, site);
    hide OnEveryPath;
    if ComesFrom(b, After(g), e, place, place, site, false) {
      var writes :| TracesBack(b, After(g), writes, e, place, place, site, false);
      assert Strays(b, g, e, place, site, writes);
    }
  }

  /** In a body that does not call `site`, a write that is no copy always strays. */
  lemma OtherWriteStrays(b: Body, g: nat, e: nat, place: PlaceId, site: SiteId, w: nat)
    requires NotCalled(b.ops, site) && WriteReaches(b, After(g), w, e, place) && CopyOf(b.ops[w]).None?
    ensures Strays(b, g, e, place, site, [w])
  {
    WriteReachesWrites(b, After(g), w, e, place);
    hide WriteReaches;
    assert !Calls(b.ops[w], site);
    assert [w][..0] == [];
  }

  // ----- what the identity answers say about it

  /** The same known place is bound on both sides, in one body at these positions. */
  ghost predicate SameArgument(facts: Facts, guard: ControlEvent, event: ControlEvent, binding: ArgumentBinding,
                               index: Index, place: PlaceId, g: nat, e: nat) {
    binding.guardPosition < |guard.arguments| && binding.eventPosition < |event.arguments|
    && guard.arguments[binding.guardPosition] == place && event.arguments[binding.eventPosition] == place
    && place in facts.places && Ordered(guard, event, index, g, e)
  }

  /** A straying chain whose last write is listed outside the stretch between the calls. */
  ghost predicate StraysLate(b: Body, g: nat, e: nat, place: PlaceId, site: SiteId, writes: seq<nat>) {
    Strays(b, g, e, place, site, writes) && writes != [] && (writes[|writes| - 1] < g || e <= writes[|writes| - 1])
  }

  /** A bound argument keeps its value on every path from the guard to the operation
      exactly when no chain strays through a write listed outside the stretch between
      them. */
  lemma BoundArgumentExactlyWhen(facts: Facts, guard: ControlEvent, event: ControlEvent, binding: ArgumentBinding,
                                 index: Index, place: PlaceId, g: nat, e: nat, site: SiteId)
    requires SameArgument(facts, guard, event, binding, index, place, g, e)
    requires IdentityOf(facts, guard, event, binding, index).Bound?
    ensures var b := BodyOf(index, guard.body);
            KeptOnEveryPath(b, g, e, place, site) <==> forall writes :: !StraysLate(b, g, e, place, site, writes)
  {
    hide KeptOnEveryPath, IdentityOf, Strays;
    var b := BodyOf(index, guard.body);
    KeptExactlyWhen(b, g, e, place, site);
    forall writes | Strays(b, g, e, place, site, writes) ensures StraysLate(b, g, e, place, site, writes) {
      BoundStraysLate(facts, guard, event, binding, index, place, g, e, site, writes);
    }
  }

  lemma BoundStraysLate(facts: Facts, guard: ControlEvent, event: ControlEvent, binding: ArgumentBinding,
                        index: Index, place: PlaceId, g: nat, e: nat, site: SiteId, writes: seq<nat>)
    requires SameArgument(facts, guard, event, binding, index, place, g, e)
    requires IdentityOf(facts, guard, event, binding, index).Bound?
    requires Strays(BodyOf(index, guard.body), g, e, place, site, writes)
    ensures StraysLate(BodyOf(index, guard.body), g, e, place, site, writes)
  {
    hide IdentityOf, StartReaches;
    var w := writes[|writes| - 1];
    assert WriteReaches(BodyOf(index, guard.body), After(g), w, e, place);
    if g < w < e {
      NotWrittenBetween(facts, guard, event, binding, index, place, g, e, w);
    }
  }

  lemma NotWrittenBetween(facts: Facts, guard: ControlEvent, event: ControlEvent, binding: ArgumentBinding,
                          index: Index, place: PlaceId, g: nat, e: nat, w: nat)
    requires SameArgument(facts, guard, event, binding, index, place, g, e) && g < w < e
    requires IdentityOf(facts, guard, event, binding, index).Bound?
    ensures w < |BodyOf(index, guard.body).ops| ==> !WritesPlace(BodyOf(index, guard.body).ops[w], place)
  {
    assert Relates(facts, place, place, IDENTITY_SAME_PLACE);
    ReassignmentReadsBack(facts, guard, event, place, place, index);
    var first, last :| Untouched(facts, guard, event, place, place, index, first, last);
    assert facts.places[place].root in RootsOf(facts, place, place);
    assert !WritesRoot(facts, RootsOf(facts, place, place), index.operations[guard.body][w]);
  }

  /** "Reassigned" rests on a write from a distinct root between the calls. It is wrong
      about the operation's argument, which keeps its value on every path, exactly when
      every chain of copies from what the operation gets leads back to the argument as the
      guard left it. */
  lemma ReassignedIsWrongExactlyWhen(facts: Facts, guard: ControlEvent, event: ControlEvent,
                                     binding: ArgumentBinding, index: Index, place: PlaceId, g: nat, e: nat,
                                     site: SiteId)
    requires SameArgument(facts, guard, event, binding, index, place, g, e)
    requires IdentityOf(facts, guard, event, binding, index) == Mismatch(REASON_IDENTITY_REASSIGNED)
    ensures var b := BodyOf(index, guard.body);
            && (exists w: nat :: g < w < e && FromDistinctRootAt(facts, place, b.ops, w))
            && (KeptOnEveryPath(b, g, e, place, site) <==> forall writes :: !Strays(b, g, e, place, site, writes))
  {
    DistinctRootWrite(facts, guard, event, place, index, g, e);
    KeptExactlyWhen(BodyOf(index, guard.body), g, e, place, site);
  }

  ghost predicate FromDistinctRootAt(facts: Facts, place: PlaceId, ops: seq<Operation>, w: nat) {
    w < |ops| && WritesRoot(facts, RootsOf(facts, place, place), ops[w])
    && WriteSource(facts, ops[w]) == FromDistinctRoot
  }

  lemma DistinctRootWrite(facts: Facts, guard: ControlEvent, event: ControlEvent, place: PlaceId, index: Index,
                          g: nat, e: nat)
    requires Ordered(guard, event, index, g, e)
    requires ReassignmentOf(facts, guard, event, place, place, index) == FromDistinctRoot
    ensures exists w: nat :: g < w < e && FromDistinctRootAt(facts, place, index.operations[guard.body], w)
  {
    assert Relates(facts, place, place, IDENTITY_SAME_PLACE);
    ReassignmentReadsBack(facts, guard, event, place, place, index);
    var first: nat, last: nat, k: nat :| Ordered(guard, event, index, first, last) && first < k < last
      && LastWriteAt(facts, RootsOf(facts, place, place), index.operations[guard.body], k, last)
      && WriteSource(facts, index.operations[guard.body][k]) == FromDistinctRoot;
    assert FromDistinctRootAt(facts, place, index.operations[guard.body], k);
  }

  // ----- a covered binding whose operation gets another value

  /** guard(x), then a loop that calls the operation on x and reassigns x from y. */
  function TurningOperations(): seq<Operation> {
    [Operation(0, Call(7, 9)), Operation(1, OtherOperation), Operation(2, Assign(1, PlaceValue(2), Overwrite))]
  }

  function TurningIndex(): Index {
    Index(map[0 := TurningOperations()], map[(0, 0) := 0, (0, 1) := 1, (0, 2) := 1], map[0 := [1], 1 := [1]], map[])
  }

  function TurningBody(): Body {
    Body(TurningOperations(), map[0 := 0, 1 := 1, 2 := 1], TurningIndex().successors)
  }

  function TurningGuard(): ControlEvent {
    ControlEvent(0, 0, 7, Some(0), None, [1], {"guard"})
  }

  function TurningEvent(): ControlEvent {
    ControlEvent(0, 1, 8, Some(1), None, [1], {})
  }

  /** The verdict is covered by the same place, and on the loop's second turn the operation
      gets what the guard never saw. */
  lemma ReassignedInLoopIsCovered()
    ensures VerdictOf(Facts(map[1 := Place("x", []), 2 := Place("y", [])], []), TurningGuard(), TurningEvent(),
                      GuardQuery({"guard"}, false, Some(ArgumentBinding(0, 0))), map[1 := [0]], TurningIndex())
            == CoveredBy(REASON_GUARD_DOMINATES_OPERATION).(identity := IDENTITY_SAME_PLACE)
    ensures NotCalled(TurningOperations(), 77) && Arrives(BodyOf(TurningIndex(), 0), After(0), 1, [0, 1, 1])
    ensures HeldAt(BodyOf(TurningIndex(), 0), After(0), [0, 1, 1], 1, 1, 1, 77) == AnotherValue
  {
    TurningVerdict();
    TurningIsTurningBody();
    TurningSteps();
    TurningWindow();
    hide VerdictOf, Execute, Steps;
    var ops := TurningOperations();
    assert OpsAt(TurningBody(), [1, 2]) == [ops[1], ops[2]];
    assert PathFromTo(TurningBody().successors, [0, 1, 1], 0, 1);
  }

  lemma TurningVerdict()
    ensures VerdictOf(Facts(map[1 := Place("x", []), 2 := Place("y", [])], []), TurningGuard(), TurningEvent(),
                      GuardQuery({"guard"}, false, Some(ArgumentBinding(0, 0))), map[1 := [0]], TurningIndex())
            == CoveredBy(REASON_GUARD_DOMINATES_OPERATION).(identity := IDENTITY_SAME_PLACE)
  {
    TurningAnswer();
    TurningIdentity();
    hide IdentityOf, AnswerForBlocks;
  }

  lemma TurningAnswer()
    ensures AnswerForBlocks(map[1 := [0]], 0, 1) == Holds
  {
    var rel: Adjacency := map[1 := [0]];
    assert Edge(rel, 1, 0) && PathFromTo(rel, [1, 0], 1, 0);
  }

  lemma TurningIdentity()
    ensures IdentityOf(Facts(map[1 := Place("x", []), 2 := Place("y", [])], []), TurningGuard(), TurningEvent(),
                       ArgumentBinding(0, 0), TurningIndex()) == Bound(IDENTITY_SAME_PLACE)
  {
    hide PositionOf, TurningOperations, RootsOf, WritesRoot, WriteSource, AliasOf;
    TurningPositions();
  }

  lemma TurningPositions()
    ensures PositionOf(TurningOperations(), 0) == Some(0) && PositionOf(TurningOperations(), 1) == Some(1)
  {
  }

  lemma TurningIsTurningBody()
    ensures BodyOf(TurningIndex(), 0) == TurningBody()
  {
    var ops, other := TurningOperations(), TurningBody();
    forall k: nat | k < |ops| ensures SameBlock(TurningIndex(), 0, other, k) {
      assert k == 0 || k == 1 || k == 2;
      assert ops[k].id == k;
    }
    SameBody(TurningIndex(), 0, other);
  }

  lemma TurningSteps()
    ensures Steps(TurningBody(), [0, 1, 1], 1, 1) == [1, 2]
  {
    hide Slice, Steps;
    var b := TurningBody();
    SliceNone(b, 0, 1, 3);
    SliceNone(b, 1, 0, 1);
    SliceSplit(b, 1, 0, 1, 3);
    SliceSplit(b, 1, 2, 2, 3);
    SliceNone(b, 1, 2, 2);
    SliceNone(b, 1, 3, 3);
    LastStep(b, 1, 0, 1);
    StepsCons(b, 1, [1], 0, 1);
    StepsCons(b, 0, [1, 1], 1, 1);
    assert [1] + [1] == [1, 1] && [0] + [1, 1] == [0, 1, 1];
  }

  lemma TurningWindow()
    ensures var ops := TurningOperations(); Execute([ops[1], ops[2]], 1, 77)(1) == AnotherValue
  {
    var ops := TurningOperations();
    var window := [ops[1], ops[2]];
    LastWriteIs(window, 1, 1);
    HoldsLastStored(window, 1, 1, 77);
    assert window[..1] == [ops[1]];
    NoLastWrite([ops[1]], 2);
    HoldsLastStored([ops[1]], 2, 1, 77);
  }

  // ----- a refuted binding whose operation gets the guarded value

  /** The argument is saved in another variable and restored from it. */
  function RestoringOperations(): seq<Operation> {
    [Operation(0, Call(7, 9)), Operation(1, Bind(2, PlaceValue(1))),
     Operation(2, Assign(1, PlaceValue(2), Overwrite)), Operation(3, OtherOperation)]
  }

  function RestoringIndex(): Index {
    Index(map[0 := RestoringOperations()], map[(0, 0) := 0, (0, 1) := 0, (0, 2) := 0, (0, 3) := 0], map[0 := []], map[])
  }

  function RestoringBody(): Body {
    Body(RestoringOperations(), map[0 := 0, 1 := 0, 2 := 0, 3 := 0], RestoringIndex().successors)
  }

  lemma RestoredArgumentIsRefuted()
    ensures var facts := Facts(map[1 := Place("x", []), 2 := Place("saved", [])], []);
            var guard := ControlEvent(0, 0, 7, Some(0), None, [1], {});
            var event := ControlEvent(0, 3, 8, Some(0), None, [1], {});
            IdentityOf(facts, guard, event, ArgumentBinding(0, 0), RestoringIndex())
            == Mismatch(REASON_IDENTITY_REASSIGNED)
    ensures NotCalled(RestoringOperations(), 77) && KeptOnEveryPath(BodyOf(RestoringIndex(), 0), 0, 3, 1, 77)
  {
    RestoringIdentity();
    RestoringIsRestoringBody();
    hide IdentityOf, KeptOnEveryPath;
    RestoringIsKept();
  }

  lemma RestoringPositions()
    ensures PositionOf(RestoringOperations(), 0) == Some(0) && PositionOf(RestoringOperations(), 3) == Some(3)
  {
  }

  lemma RestoringReassignment(facts: Facts)
    requires facts == Facts(map[1 := Place("x", []), 2 := Place("saved", [])], [])
    ensures ReassignmentIn(facts, RootsOf(facts, 1, 1), RestoringOperations(), 0, 3) == FromDistinctRoot
  {
    var ops, roots := RestoringOperations(), RootsOf(facts, 1, 1);
    assert ops[2] == Operation(2, Assign(1, PlaceValue(2), Overwrite));
    assert WritesRoot(facts, roots, ops[2]) && WriteSource(facts, ops[2]) == FromDistinctRoot;
  }

  lemma RestoringIdentity()
    ensures var facts := Facts(map[1 := Place("x", []), 2 := Place("saved", [])], []);
            var guard := ControlEvent(0, 0, 7, Some(0), None, [1], {});
            var event := ControlEvent(0, 3, 8, Some(0), None, [1], {});
            IdentityOf(facts, guard, event, ArgumentBinding(0, 0), RestoringIndex())
            == Mismatch(REASON_IDENTITY_REASSIGNED)
  {
    hide PositionOf, RestoringOperations, ReassignmentIn, RootsOf, AliasOf;
    RestoringPositions();
    RestoringReassignment(Facts(map[1 := Place("x", []), 2 := Place("saved", [])], []));
  }

  lemma RestoringIsKept()
    ensures KeptOnEveryPath(RestoringBody(), 0, 3, 1, 77)
  {
    hide Execute, Steps;
    var b, ops := RestoringBody(), RestoringOperations();
    RestoringSteps();
    RestoringWindow();
    assert OpsAt(b, [1, 2]) == [ops[1], ops[2]];
    forall path | Arrives(b, After(0), 3, path) ensures HeldAt(b, After(0), path, 3, 1, 1, 77) == GuardValue {
      assert |path| > 1 ==> Edge(b.successors, path[0], path[1]);
      assert path == [0];
    }
  }

  lemma RestoringIsRestoringBody()
    ensures BodyOf(RestoringIndex(), 0) == RestoringBody()
  {
    var ops, other := RestoringOperations(), RestoringBody();
    forall k: nat | k < |ops| ensures SameBlock(RestoringIndex(), 0, other, k) {
      assert k == 0 || k == 1 || k == 2 || k == 3;
      assert ops[k].id == k;
    }
    SameBody(RestoringIndex(), 0, other);
  }

  lemma RestoringSteps()
    ensures Steps(RestoringBody(), [0], 1, 3) == [1, 2]
  {
    hide Slice, Steps;
    var b := RestoringBody();
    LastStep(b, 0, 1, 3);
    SliceSplit(b, 0, 1, 1, 3);
    SliceSplit(b, 0, 2, 2, 3);
    SliceNone(b, 0, 1, 1);
    SliceNone(b, 0, 2, 2);
    SliceNone(b, 0, 3, 3);
  }

  lemma RestoringWindow()
    ensures var ops := RestoringOperations(); Execute([ops[1], ops[2]], 1, 77)(1) == GuardValue
  {
    var ops := RestoringOperations();
    var window := [ops[1], ops[2]];
    LastWriteIs(window, 1, 1);
    HoldsLastStored(window, 1, 1, 77);
    assert window[..1] == [ops[1]] && [ops[1]][..0] == [];
    LastWriteIs([ops[1]], 0, 2);
    HoldsLastStored([ops[1]], 2, 1, 77);
  }

  // ----- a covered operation

  /** A covered operation has a guard before it, of the required name, whose block lies on
      every path to the operation. When the query asks for a checked error, a test shuts
      the error edge out of all paths, and tests the guard's value on all of them exactly
      when no chain of copies leads from it to another origin. When it binds one place on
      both sides, the place keeps its value from guard to operation on all of them exactly
      when no chain strays through a write listed outside the stretch between. */
  lemma CoveredOperationIsGuarded(facts: Facts, events: seq<ControlEvent>, position: nat, query: GuardQuery,
                                  rel: Adjacency, index: Index, vs: seq<GuardVerdict>, entry: nat)
    returns (guard: ControlEvent)
    requires position < |events|
    requires Answers(facts, GuardsAmong(events[..position], query), events[position], query, rel, index, vs)
    requires Disjunction(OutcomesOf(vs)) == Covered
    requires SoundRows(rel, index.successors, entry)
    ensures guard in events[..position] && GuardMatches(guard, query)
    ensures guard.block.Some? && events[position].block.Some?
    ensures Reachable(index.successors, entry, events[position].block.value) ==>
              Dominates(index.successors, entry, guard.block.value, events[position].block.value)
    ensures query.requireCheckedError ==>
              exists at, test, errorBlock ::
                ErrorChecked(guard, index, entry, events[position].block.value, at, test, errorBlock)
    ensures query.binding.Some? ==>
              exists how :: IdentityEstablished(facts, guard, events[position], query.binding.value, index, how)
    ensures query.binding.Some? ==>
              forall place, g: nat, e: nat, site ::
                SameArgument(facts, guard, events[position], query.binding.value, index, place, g, e) ==>
                  ArgumentBound(index, guard.body, place, g, e, site)
  {
    hide ErrorChecked, IdentityEstablished, VerdictOf, CheckedErrorVerdict, SameArgument, ArgumentBound;
    var guards, event := GuardsAmong(events[..position], query), events[position];
    GuardsAmongMembers(events[..position], query);
    var i :| 0 <= i < |vs| && OutcomesOf(vs)[i] == Covered;
    guard := guards[i];
    assert vs[i] == VerdictOf(facts, guard, event, query, rel, index) && vs[i].outcome == Covered;
    VerdictMeaning(facts, guard, event, query, rel, index);
    if Reachable(index.successors, entry, event.block.value) {
      HoldsMeansDominates(rel, index.successors, entry, guard.block.value, event.block.value);
    }
    if query.requireCheckedError {
      ErrorIsChecked(guard, event, rel, index, entry);
    }
    if query.binding.Some? {
      forall place, g: nat, e: nat, site | SameArgument(facts, guard, event, query.binding.value, index, place, g, e)
        ensures ArgumentBound(index, guard.body, place, g, e, site)
      {
        ArgumentIsBound(facts, guard, event, query.binding.value, index, place, g, e, site);
      }
    }
  }

  ghost predicate ErrorChecked(guard: ControlEvent, index: Index, entry: nat, eventBlock: nat, at: nat, test: nat,
                               errorBlock: nat) {
    && IsErrorCheck(guard, index, at, test, errorBlock)
    && ErrorPathsExcluded(index.successors, entry, test, errorBlock, eventBlock)
    && (OwnsResult(guard, index) && OnlyGuardReaches(guard, index, entry, at) ==>
        TestsGuardOnEveryPath(guard, index, entry, at))
    && (TestsGuardOnEveryPath(guard, index, entry, at) <==>
        !TestComesFrom(guard, index, entry, at, false))
  }

  lemma ErrorIsChecked(guard: ControlEvent, event: ControlEvent, rel: Adjacency, index: Index, entry: nat)
    requires CheckedErrorVerdict(guard, event, rel, index).outcome == Covered && SoundRows(rel, index.successors, entry)
    ensures event.block.Some?
    ensures exists at, test, errorBlock :: ErrorChecked(guard, index, entry, event.block.value, at, test, errorBlock)
  {
    hide IsErrorCheck, ErrorPathsExcluded, OnlyGuardReaches, TestsGuardOnEveryPath, TestComesFrom, OwnsResult;
    var at, test, errorBlock := CoveredTestsGuardExactlyWhen(guard, event, rel, index, entry);
    assert ErrorChecked(guard, index, entry, event.block.value, at, test, errorBlock);
  }

  ghost predicate ArgumentBound(index: Index, body: BodyId, place: PlaceId, g: nat, e: nat, site: SiteId) {
    body in index.operations
    && var b := BodyOf(index, body);
       KeptOnEveryPath(b, g, e, place, site) <==> forall writes :: !StraysLate(b, g, e, place, site, writes)
  }

  lemma ArgumentIsBound(facts: Facts, guard: ControlEvent, event: ControlEvent, binding: ArgumentBinding, index: Index,
                        place: PlaceId, g: nat, e: nat, site: SiteId)
    requires SameArgument(facts, guard, event, binding, index, place, g, e)
    requires exists how :: IdentityEstablished(facts, guard, event, binding, index, how)
    ensures ArgumentBound(index, guard.body, place, g, e, site)
  {
    IdentityMeaning(facts, guard, event, binding, index);
    hide KeptOnEveryPath, StraysLate, IdentityEstablished, IdentityOf;
    BoundArgumentExactlyWhen(facts, guard, event, binding, index, place, g, e, site);
  }
}
