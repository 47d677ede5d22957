/** How the answers of several guard candidates become one decision for a
    protected operation, in the outcome query and in the missing-guard query. */
module GuardVerdicts {
  import opened Options
  import opened Graphs
  import opened Dominance
  import opened Mir
  import opened CheckedError

  const REASON_GUARD_MISSING := "guard_missing"
  const REASON_GUARD_NOT_ORDERED_BEFORE := "guard_not_ordered_before"
  const REASON_GUARD_DOES_NOT_DOMINATE := "guard_does_not_dominate"
  const REASON_GUARD_DOMINATES_OPERATION := "guard_dominates_operation"
  const DOMINANCE_NO_CANDIDATE := "no_guard_candidate"
  const IDENTITY_SAME_PLACE := "same_place"
  const IDENTITY_PROJECTION_EXTENSION := "projection_extension"
  const IDENTITY_MUST_ALIAS := "must_alias"
  const REASON_IDENTITY_MISMATCH := "identity_mismatch"
  const REASON_IDENTITY_REASSIGNED := "identity_reassigned"
  const REASON_ALIAS_INDETERMINATE := "alias_indeterminate"
  const REASON_ARGUMENT_POSITION_OUT_OF_RANGE := "argument_position_out_of_range"
  const REASON_CROSS_BODY_IDENTITY := "cross_body_identity"

  datatype ArgumentBinding = ArgumentBinding(guardPosition: nat, eventPosition: nat)
  datatype GuardQuery = GuardQuery(guardNames: set<string>, requireCheckedError: bool, binding: Option<ArgumentBinding>)

  predicate GuardMatches(event: ControlEvent, query: GuardQuery) {
    query.guardNames * event.names != {}
  }

  // ----- identity of the guarded argument

  datatype Place = Place(root: string, projections: seq<string>)
  datatype AliasStatus = MustAlias | NoAlias | MayAlias
  datatype AliasAnswer = AliasAnswer(left: PlaceId, right: PlaceId, status: AliasStatus)
  datatype Facts = Facts(places: map<PlaceId, Place>, aliases: seq<AliasAnswer>)

  datatype IdentityAnswer = Bound(how: string) | Mismatch(how: string) | Indeterminate(how: string)
  datatype PlaceRelation = Same | ProjectionExtension | Unrelated
  datatype Reassignment = NoWrite | FromDistinctRoot | UnknownWriteSource | Unreadable

  function RelatePlaces(facts: Facts, authorized: PlaceId, consumed: PlaceId): PlaceRelation {
    if authorized == consumed then Same
    else if authorized in facts.places && consumed in facts.places
         && facts.places[authorized].root == facts.places[consumed].root
         && facts.places[authorized].projections < facts.places[consumed].projections
    then ProjectionExtension
    else Unrelated
  }

  /** The first alias answer for the two places, in either orientation. */
  function AliasOf(aliases: seq<AliasAnswer>, left: PlaceId, right: PlaceId): Option<AliasStatus> {
    if aliases == [] then None
    else if (aliases[0].left, aliases[0].right) in {(left, right), (right, left)} then Some(aliases[0].status)
    else AliasOf(aliases[1..], left, right)
  }

  function AssignedPlace(op: Operation): Option<PlaceId> {
    match op.kind
    case Assign(place, _, _) => Some(place)
    case Bind(place, _) => Some(place)
    case Write(place, _) => Some(place)
    case Call(_, place) => Some(place)
    case _ => None
  }

  function RootsOf(facts: Facts, a: PlaceId, b: PlaceId): set<string> {
    set place | place in {a, b} && place in facts.places :: facts.places[place].root
  }

  predicate WritesRoot(facts: Facts, roots: set<string>, op: Operation) {
    var written := AssignedPlace(op);
    written.Some? && written.value in facts.places && facts.places[written.value].root in roots
  }

  /** What one write of a watched root says about the value it stored. */
  function WriteSource(facts: Facts, op: Operation): (source: Reassignment)
    requires AssignedPlace(op).Some? && AssignedPlace(op).value in facts.places
    ensures source == FromDistinctRoot || source == UnknownWriteSource
  {
    var root := facts.places[AssignedPlace(op).value].root;
    var value := match op.kind
      case Assign(_, v, _) => v
      case Bind(_, v) => v
      case Write(_, v) => v
      case _ => OtherValue;
    if value.PlaceValue? && value.place in facts.places && facts.places[value.place].root != root
    then FromDistinctRoot else UnknownWriteSource
  }

  /** Both calls are in one indexed body, at these positions. */
  ghost predicate Ordered(guard: ControlEvent, event: ControlEvent, index: Index, first: nat, last: nat) {
    guard.body == event.body && guard.body in index.operations
    && PositionOf(index.operations[guard.body], guard.operation) == Some(first)
    && PositionOf(index.operations[guard.body], event.operation) == Some(last)
  }

  ghost predicate LastWriteAt(facts: Facts, roots: set<string>, ops: seq<Operation>, k: nat, last: nat) {
    k < last <= |ops| && WritesRoot(facts, roots, ops[k]) && forall j :: k < j < last ==>
        !WritesRoot(facts, roots, ops[j])
  }

  /** Between the two positions nothing writes the roots, or the last write decides. */
  ghost predicate LastWriteDecides(facts: Facts, roots: set<string>, ops: seq<Operation>, first: nat, last: nat,
                                   answer: Reassignment)
    requires last <= |ops|
  {
    && (answer == NoWrite <==> forall k: nat :: first < k < last ==> !WritesRoot(facts, roots, ops[k]))
    && (answer != NoWrite ==> exists k: nat :: first < k && LastWriteAt(facts, roots, ops, k, last))
    && forall k: nat :: first < k && LastWriteAt(facts, roots, ops, k, last) ==> answer == WriteSource(facts, ops[k])
  }

  /** What the last write of the roots strictly between the positions says. */
  function ReassignmentIn(facts: Facts, roots: set<string>, ops: seq<Operation>, first: nat, last: nat): Reassignment
    requires last <= |ops|
  {
    if last <= first + 1 then NoWrite
    else if WritesRoot(facts, roots, ops[last - 1]) then WriteSource(facts, ops[last - 1])
    else ReassignmentIn(facts, roots, ops, first, last - 1)
  }

  lemma {:induction false} ReassignmentMeaning(facts: Facts, roots: set<string>, ops: seq<Operation>, first: nat,
                                               last: nat)
    requires last <= |ops|
    ensures LastWriteDecides(facts, roots, ops, first, last, ReassignmentIn(facts, roots, ops, first, last))
    ensures ReassignmentIn(facts, roots, ops, first, last) != Unreadable
  {
    hide WritesRoot, WriteSource, LastWriteAt;
    if last > first + 1 {
      var end := last - 1;
      LastWriteStep(facts, roots, ops, end, last);
      if !WritesRoot(facts, roots, ops[end]) {
        ReassignmentMeaning(facts, roots, ops, first, end);
        if k: nat :| first < k && LastWriteAt(facts, roots, ops, k, end) {
          assert LastWriteAt(facts, roots, ops, k, last);
        }
      } else {
        assert LastWriteAt(facts, roots, ops, end, last);
      }
    } else {
      NoRootWrite(facts, roots, ops, first, last);
    }
  }

  lemma LastWriteStep(facts: Facts, roots: set<string>, ops: seq<Operation>, end: nat, last: nat)
    requires end + 1 == last <= |ops|
    ensures WritesRoot(facts, roots, ops[end]) ==> LastWriteAt(facts, roots, ops, end, last)
    ensures WritesRoot(facts, roots, ops[end]) ==> forall k: nat :: LastWriteAt(facts, roots, ops, k, last) ==> k == end
    ensures !WritesRoot(facts, roots, ops[end]) ==>
      forall k: nat :: LastWriteAt(facts, roots, ops, k, last) <==> LastWriteAt(facts, roots, ops, k, end)
  {
  }

  lemma NoRootWrite(facts: Facts, roots: set<string>, ops: seq<Operation>, first: nat, last: nat)
    requires last <= first + 1
    ensures forall k: nat :: first < k ==> !LastWriteAt(facts, roots, ops, k, last)
  {
  }

  function ReassignmentOf(facts: Facts, guard: ControlEvent, event: ControlEvent, a: PlaceId, b: PlaceId,
                          index: Index): Reassignment {
    if guard.body != event.body || guard.body !in index.operations then Unreadable
    else
      var ops := index.operations[guard.body];
      var start, end := PositionOf(ops, guard.operation), PositionOf(ops, event.operation);
      if start.None? || end.None? then Unreadable
      else ReassignmentIn(facts, RootsOf(facts, a, b), ops, start.value, end.value)
  }

  method ReassignmentBetween(facts: Facts, guard: ControlEvent, event: ControlEvent, a: PlaceId, b: PlaceId,
                             index: Index)
    returns (answer: Reassignment)
    ensures answer == ReassignmentOf(facts, guard, event, a, b, index)
    ensures answer == Unreadable <==> !exists first, last :: Ordered(guard, event, index, first, last)
    ensures forall first: nat, last: nat :: Ordered(guard, event, index, first, last) ==>
      LastWriteDecides(facts, RootsOf(facts, a, b), index.operations[guard.body], first, last, answer)
  {
    if guard.body != event.body || guard.body !in index.operations {
      return Unreadable;
    }
    hide WritesRoot, WriteSource, LastWriteDecides;
    var ops := index.operations[guard.body];
    var start, end := PositionOf(ops, guard.operation), PositionOf(ops, event.operation);
    if start.None? || end.None? {
      return Unreadable;
    }
    assert Ordered(guard, event, index, start.value, end.value);
    var roots := RootsOf(facts, a, b);
    ReassignmentMeaning(facts, roots, ops, start.value, end.value);
    if end.value <= start.value {
      return NoWrite;
    }
    answer := NoWrite;
    for i := start.value + 1 to end.value
      invariant answer == ReassignmentIn(facts, roots, ops, start.value, i)
    {
      if WritesRoot(facts, roots, ops[i]) {
        answer := WriteSource(facts, ops[i]);
      }
    }
  }

  /** The structural and alias relation of the two arguments. */
  function BindArguments(facts: Facts, guardArgument: PlaceId, eventArgument: PlaceId): IdentityAnswer {
    match RelatePlaces(facts, guardArgument, eventArgument)
    case Same => Bound(IDENTITY_SAME_PLACE)
    case ProjectionExtension => Bound(IDENTITY_PROJECTION_EXTENSION)
    case Unrelated =>
      match AliasOf(facts.aliases, guardArgument, eventArgument)
      case Some(MustAlias) => Bound(IDENTITY_MUST_ALIAS)
      case Some(NoAlias) => Mismatch(REASON_IDENTITY_MISMATCH)
      case _ => Indeterminate(REASON_ALIAS_INDETERMINATE)
  }

  // ----- how two arguments relate, on places and alias rows

  /** The consumed place is a proper projection of the authorized one. */
  ghost predicate Extends(facts: Facts, authorized: PlaceId, consumed: PlaceId) {
    authorized != consumed && authorized in facts.places && consumed in facts.places
    && var whole, part := facts.places[authorized], facts.places[consumed];
       exists more :: more != [] && part == Place(whole.root, whole.projections + more)
  }

  /** The row is about the two places, in either order. */
  predicate Names(row: AliasAnswer, a: PlaceId, b: PlaceId) {
    (row.left == a && row.right == b) || (row.left == b && row.right == a)
  }

  /** The row at `k` is the first about the two places, and says so. */
  ghost predicate FirstRow(rows: seq<AliasAnswer>, k: nat, a: PlaceId, b: PlaceId, status: AliasStatus) {
    k < |rows| && Names(rows[k], a, b) && rows[k].status == status && forall j :: 0 <= j < k ==> !Names(rows[j], a, b)
  }

  ghost predicate AliasRowSays(rows: seq<AliasAnswer>, a: PlaceId, b: PlaceId, status: AliasStatus) {
    exists k: nat :: FirstRow(rows, k, a, b, status)
  }

  /** The places relate in the way `how` says. */
  ghost predicate Relates(facts: Facts, a: PlaceId, b: PlaceId, how: string) {
    || (how == IDENTITY_SAME_PLACE && a == b)
    || (how == IDENTITY_PROJECTION_EXTENSION && Extends(facts, a, b))
    || (how == IDENTITY_MUST_ALIAS && a != b && !Extends(facts, a, b) && AliasRowSays(facts.aliases, a, b, MustAlias))
  }

  ghost predicate Apart(facts: Facts, a: PlaceId, b: PlaceId) {
    a != b && !Extends(facts, a, b) && AliasRowSays(facts.aliases, a, b, NoAlias)
  }

  /** They are different places, none a projection of the guarded one, and the first row
      about them leaves it open or there is none. */
  ghost predicate MayRelate(facts: Facts, a: PlaceId, b: PlaceId) {
    a != b && !Extends(facts, a, b)
    && (AliasRowSays(facts.aliases, a, b, MayAlias)
        || forall k :: 0 <= k < |facts.aliases| ==> !Names(facts.aliases[k], a, b))
  }

  lemma {:induction false} AliasOfMeaning(rows: seq<AliasAnswer>, a: PlaceId, b: PlaceId)
    ensures forall status :: AliasOf(rows, a, b) == Some(status) <==> AliasRowSays(rows, a, b, status)
    ensures AliasOf(rows, a, b) == None <==> forall k :: 0 <= k < |rows| ==> !Names(rows[k], a, b)
  {
    if rows != [] {
      var rest := rows[1..];
      if Names(rows[0], a, b) {
        assert FirstRow(rows, 0, a, b, rows[0].status);
      } else {
        AliasOfMeaning(rest, a, b);
        forall status ensures AliasRowSays(rows, a, b, status) <==> AliasRowSays(rest, a, b, status) {
          AliasRowShifts(rows, rest, a, b, status);
        }
        assert forall k :: 0 < k < |rows| ==> rows[k] == rest[k - 1];
      }
    }
  }

  lemma AliasRowShifts(rows: seq<AliasAnswer>, rest: seq<AliasAnswer>, a: PlaceId, b: PlaceId, status: AliasStatus)
    requires rows != [] && rest == rows[1..] && !Names(rows[0], a, b)
    ensures AliasRowSays(rows, a, b, status) <==> AliasRowSays(rest, a, b, status)
  {
    if k: nat :| FirstRow(rows, k, a, b, status) {
      assert FirstRow(rest, k - 1, a, b, status);
    }
    if k: nat :| FirstRow(rest, k, a, b, status) {
      assert FirstRow(rows, k + 1, a, b, status);
    }
  }

  lemma RelatePlacesMeaning(facts: Facts, a: PlaceId, b: PlaceId)
    ensures RelatePlaces(facts, a, b) == Same <==> a == b
    ensures RelatePlaces(facts, a, b) == ProjectionExtension <==> Extends(facts, a, b)
  {
    if RelatePlaces(facts, a, b) == ProjectionExtension {
      var whole, part := facts.places[a].projections, facts.places[b].projections;
      assert part == whole + part[|whole|..];
    }
  }

  /** What the relation of two arguments means: bound exactly when they are one place, the
      consumed one is a proper projection of the guarded one, or the first alias row about
      them says they must alias; apart exactly when it says they do not; open otherwise. */
  lemma BindArgumentsMeaning(facts: Facts, a: PlaceId, b: PlaceId)
    ensures forall how :: BindArguments(facts, a, b) == Bound(how) <==> Relates(facts, a, b, how)
    ensures forall how :: BindArguments(facts, a, b) == Mismatch(how) <==>
              how == REASON_IDENTITY_MISMATCH && Apart(facts, a, b)
    ensures forall how :: BindArguments(facts, a, b) == Indeterminate(how) <==>
              how == REASON_ALIAS_INDETERMINATE && MayRelate(facts, a, b)
  {
    RelatePlacesMeaning(facts, a, b);
    AliasOfMeaning(facts.aliases, a, b);
    hide RelatePlaces, AliasOf, AliasRowSays, Extends, Names;
  }

  /** A guard on `actor` covers what the operation takes of it; a guard on a part does not
      bind the whole. */
  lemma GuardedWholeBindsItsParts()
    ensures var facts := Facts(map[1 := Place("actor", []), 2 := Place("actor", ["TenantID"])], []);
            && BindArguments(facts, 1, 2) == Bound(IDENTITY_PROJECTION_EXTENSION)
            && BindArguments(facts, 2, 1) == Indeterminate(REASON_ALIAS_INDETERMINATE)
  {
  }

  // ----- what a write between the calls says, on the operation and the places

  /** The operation stores into a place of the root of either argument. */
  ghost predicate TouchesRoot(facts: Facts, a: PlaceId, b: PlaceId, op: Operation) {
    exists place :: WritesPlace(op, place) && place in facts.places
      && ((a in facts.places && facts.places[a].root == facts.places[place].root)
          || (b in facts.places && facts.places[b].root == facts.places[place].root))
  }

  /** It stores what a place of another root holds. */
  ghost predicate StoresFromElsewhere(facts: Facts, op: Operation) {
    exists place, source ::
      && (op.kind == Bind(place, PlaceValue(source)) || op.kind == Write(place, PlaceValue(source))
          || (op.kind.Assign? && op.kind.place == place && op.kind.value == PlaceValue(source)))
      && place in facts.places && source in facts.places && facts.places[source].root != facts.places[place].root
  }

  lemma WritesRootMeaning(facts: Facts, a: PlaceId, b: PlaceId, op: Operation)
    ensures WritesRoot(facts, RootsOf(facts, a, b), op) <==> TouchesRoot(facts, a, b, op)
    ensures WritesRoot(facts, RootsOf(facts, a, b), op) ==>
              (WriteSource(facts, op) == FromDistinctRoot <==> StoresFromElsewhere(facts, op))
  {
    if WritesRoot(facts, RootsOf(facts, a, b), op) {
      var place := AssignedPlace(op).value;
      assert WritesPlace(op, place);
      assert forall other :: WritesPlace(op, other) ==> other == place;
    }
  }

  /** A bound answer: the arguments relate, and between the two calls no operation
      writes the root of either. */
  ghost predicate IdentityEstablished(facts: Facts, guard: ControlEvent, event: ControlEvent, binding: ArgumentBinding,
                                      index: Index, how: string) {
    binding.guardPosition < |guard.arguments| && binding.eventPosition < |event.arguments|
    && var a, b := guard.arguments[binding.guardPosition], event.arguments[binding.eventPosition];
       Relates(facts, a, b, how)
       && exists first, last :: Untouched(facts, guard, event, a, b, index, first, last)
  }

  /** The arguments are related structurally or by alias, and between the two calls the
      last write of the root of either stored something of this source. */
  ghost predicate ReassignedFrom(facts: Facts, guard: ControlEvent, event: ControlEvent, a: PlaceId, b: PlaceId,
                                 index: Index,
                                 source: Reassignment) {
    (exists how :: Relates(facts, a, b, how))
    && exists first: nat, last: nat, k: nat :: Ordered(guard, event, index, first, last) && first < k < last
         && LastWriteAt(facts, RootsOf(facts, a, b), index.operations[guard.body], k, last)
         && WriteSource(facts, index.operations[guard.body][k]) == source
  }

  function IdentityOf(facts: Facts, guard: ControlEvent, event: ControlEvent, binding: ArgumentBinding,
                      index: Index): IdentityAnswer {
    if binding.guardPosition >= |guard.arguments| || binding.eventPosition >= |event.arguments|
    then Indeterminate(REASON_ARGUMENT_POSITION_OUT_OF_RANGE)
    else
      var a, b := guard.arguments[binding.guardPosition], event.arguments[binding.eventPosition];
      var bound := BindArguments(facts, a, b);
      if !bound.Bound? then bound
      else
        match ReassignmentOf(facts, guard, event, a, b, index)
        case NoWrite => bound
        case FromDistinctRoot => Mismatch(REASON_IDENTITY_REASSIGNED)
        case UnknownWriteSource => Indeterminate(REASON_IDENTITY_REASSIGNED)
        case Unreadable => Indeterminate(REASON_CROSS_BODY_IDENTITY)
  }

  /** When each answer is given: bound on related arguments with no write between; a
      mismatch on arguments that cannot alias, or a last write from a distinct root;
      indeterminate otherwise, for one of four reasons. */
  lemma IdentityMeaning(facts: Facts, guard: ControlEvent, event: ControlEvent, binding: ArgumentBinding, index: Index)
    ensures var answer := IdentityOf(facts, guard, event, binding, index);
            && (forall how :: answer == Bound(how) <==> IdentityEstablished(facts, guard, event, binding, index, how))
            && (answer == Indeterminate(REASON_ARGUMENT_POSITION_OUT_OF_RANGE) <==>
                binding.guardPosition >= |guard.arguments| || binding.eventPosition >= |event.arguments|)
            && (binding.guardPosition < |guard.arguments| && binding.eventPosition < |event.arguments| ==>
                var a, b := guard.arguments[binding.guardPosition], event.arguments[binding.eventPosition];
                && (answer == Mismatch(REASON_IDENTITY_MISMATCH) <==> Apart(facts, a, b))
                && (answer == Mismatch(REASON_IDENTITY_REASSIGNED) <==>
                     ReassignedFrom(facts, guard, event, a, b, index, FromDistinctRoot))
                && (answer == Indeterminate(REASON_ALIAS_INDETERMINATE) <==> MayRelate(facts, a, b))
                && (answer == Indeterminate(REASON_IDENTITY_REASSIGNED) <==>
                    ReassignedFrom(facts, guard, event, a, b, index, UnknownWriteSource))
                && (answer == Indeterminate(REASON_CROSS_BODY_IDENTITY) <==>
                    (exists how :: Relates(facts, a, b, how))
                    && !exists first, last :: Ordered(guard, event, index, first, last)))
  {
    hide Relates, Apart, MayRelate;
    if binding.guardPosition < |guard.arguments| && binding.eventPosition < |event.arguments| {
      var a, b := guard.arguments[binding.guardPosition], event.arguments[binding.eventPosition];
      BindArgumentsMeaning(facts, a, b);
      if BindArguments(facts, a, b).Bound? {
        assert Relates(facts, a, b, BindArguments(facts, a, b).how);
        ReassignmentReadsBack(facts, guard, event, a, b, index);
      }
    }
  }

  ghost predicate Untouched(facts: Facts, guard: ControlEvent, event: ControlEvent, a: PlaceId, b: PlaceId,
                            index: Index,
                            first: nat, last: nat) {
    Ordered(guard, event, index, first, last)
    && forall k: nat :: first < k < last ==> !WritesRoot(facts, RootsOf(facts, a, b), index.operations[guard.body][k])
  }

  lemma ReassignmentReadsBack(facts: Facts, guard: ControlEvent, event: ControlEvent, a: PlaceId, b: PlaceId,
                              index: Index)
    requires exists how :: Relates(facts, a, b, how)
    ensures var answer := ReassignmentOf(facts, guard, event, a, b, index);
            && (answer == Unreadable <==> !exists first, last :: Ordered(guard, event, index, first, last))
            && (answer == NoWrite <==> exists first, last :: Untouched(facts, guard, event, a, b, index, first, last))
            && (answer == FromDistinctRoot <==> ReassignedFrom(facts, guard, event, a, b, index, FromDistinctRoot))
            && (answer == UnknownWriteSource <==> ReassignedFrom(facts, guard, event, a, b, index, UnknownWriteSource))
  {
    hide Relates;
    var answer, roots := ReassignmentOf(facts, guard, event, a, b, index), RootsOf(facts, a, b);
    if answer == Unreadable {
      if guard.body == event.body && guard.body in index.operations {
        ReadablePositions(facts, guard, event, roots, index);
      }
    } else {
      var ops := index.operations[guard.body];
      var first, last := PositionOf(ops, guard.operation).value, PositionOf(ops, event.operation).value;
      assert Ordered(guard, event, index, first, last);
      ReassignmentMeaning(facts, roots, ops, first, last);
      if answer == NoWrite {
        assert Untouched(facts, guard, event, a, b, index, first, last);
      } else {
        var k: nat :| first < k && LastWriteAt(facts, roots, ops, k, last);
        assert WriteSource(facts, ops[k]) == answer;
      }
    }
  }

  lemma ReadablePositions(facts: Facts, guard: ControlEvent, event: ControlEvent, roots: set<string>, index: Index)
    requires guard.body in index.operations
    ensures var ops := index.operations[guard.body];
            var start, end := PositionOf(ops, guard.operation), PositionOf(ops, event.operation);
            start.Some? && end.Some? ==> ReassignmentIn(facts, roots, ops, start.value, end.value) != Unreadable
  {
    var ops := index.operations[guard.body];
    var start, end := PositionOf(ops, guard.operation), PositionOf(ops, event.operation);
    if start.Some? && end.Some? {
      ReassignmentMeaning(facts, roots, ops, start.value, end.value);
    }
  }

  method RelateIdentity(facts: Facts, guard: ControlEvent, event: ControlEvent, binding: ArgumentBinding, index: Index)
    returns (answer: IdentityAnswer)
    ensures answer == IdentityOf(facts, guard, event, binding, index)
    ensures forall how :: answer == Bound(how) <==> IdentityEstablished(facts, guard, event, binding, index, how)
    ensures answer.Mismatch? <==> Mismatched(facts, guard, event, binding, index)
  {
    MismatchMeaning(facts, guard, event, binding, index);
    IdentityMeaning(facts, guard, event, binding, index);
    hide IdentityEstablished, Mismatched, ReassignedFrom, RelatePlaces, AliasOf;
    if binding.guardPosition >= |guard.arguments| || binding.eventPosition >= |event.arguments| {
      return Indeterminate(REASON_ARGUMENT_POSITION_OUT_OF_RANGE);
    }
    var a, b := guard.arguments[binding.guardPosition], event.arguments[binding.eventPosition];
    var bound := BindArguments(facts, a, b);
    if !bound.Bound? {
      return bound;
    }
    var write := ReassignmentBetween(facts, guard, event, a, b, index);
    match write {
      case NoWrite => return bound;
      case FromDistinctRoot => return Mismatch(REASON_IDENTITY_REASSIGNED);
      case UnknownWriteSource => return Indeterminate(REASON_IDENTITY_REASSIGNED);
      case Unreadable => return Indeterminate(REASON_CROSS_BODY_IDENTITY);
    }
  }

  // ----- one candidate

  ghost function Answer(rel: Adjacency, candidate: ControlEvent, event: ControlEvent): DominanceAnswer {
    if candidate.block.Some? && event.block.Some? then AnswerForBlocks(rel, candidate.block.value, event.block.value)
    else Unknown(DOMINANCE_MISSING_BLOCK_IDS)
  }

  method LookUp(rel: Adjacency, candidate: ControlEvent, event: ControlEvent) returns (answer: DominanceAnswer)
    ensures answer == Answer(rel, candidate, event)
  {
    if candidate.block.None? || event.block.None? {
      return Unknown(DOMINANCE_MISSING_BLOCK_IDS);
    }
    answer := LookUpBlocks(rel, candidate.block.value, event.block.value);
  }

  /** One guard's verdict: dominance first, then the checked error, then the identity. */
  ghost function VerdictOf(facts: Facts, candidate: ControlEvent, event: ControlEvent, query: GuardQuery,
                           rel: Adjacency, index: Index)
    : GuardVerdict
  {
    match Answer(rel, candidate, event)
    case Unknown(reason) => Undecidable(reason, reason)
    case DoesNotHold => Refuted(REASON_GUARD_DOES_NOT_DOMINATE, DOMINANCE_FROM_RELATION)
    case Holds =>
      var control := if query.requireCheckedError then CheckedErrorVerdict(candidate, event, rel, index)
                     else CoveredBy(REASON_GUARD_DOMINATES_OPERATION);
      if query.binding.None? || control.outcome != Covered then control
      else
        match IdentityOf(facts, candidate, event, query.binding.value, index)
        case Bound(how) => control.(identity := how)
        case Mismatch(reason) => Refuted(reason, DOMINANCE_FROM_RELATION).(identity := reason)
        case Indeterminate(reason) => Undecidable(reason, DOMINANCE_FROM_RELATION).(identity := reason)
  }

  /** The guard dominates, its error is checked where the query asks for that, and its
      argument is the operation's where the query binds them. */
  ghost predicate Guards(facts: Facts, candidate: ControlEvent, event: ControlEvent, query: GuardQuery, rel: Adjacency,
                         index: Index) {
    Answer(rel, candidate, event) == Holds
    && (query.requireCheckedError ==> CheckedErrorVerdict(candidate, event, rel, index).outcome == Covered)
    && (query.binding.Some? ==> exists how :: IdentityEstablished(facts, candidate, event, query.binding.value, index,
                                                                  how))
  }

  /** The two bound arguments are different values as far as the facts tell. */
  ghost predicate Mismatched(facts: Facts, guard: ControlEvent, event: ControlEvent, binding: ArgumentBinding,
                             index: Index) {
    binding.guardPosition < |guard.arguments| && binding.eventPosition < |event.arguments|
    && var a, b := guard.arguments[binding.guardPosition], event.arguments[binding.eventPosition];
       || Apart(facts, a, b)
       || ReassignedFrom(facts, guard, event, a, b, index, FromDistinctRoot)
  }

  /** The guard is refuted: it does not dominate, or its error is not checked, or it was
      checked and its argument is not the operation's. */
  ghost predicate Fails(facts: Facts, candidate: ControlEvent, event: ControlEvent, query: GuardQuery, rel: Adjacency,
                        index: Index) {
    || Answer(rel, candidate, event) == DoesNotHold
    || (Answer(rel, candidate, event) == Holds && query.requireCheckedError
        && CheckedErrorVerdict(candidate, event, rel, index).outcome == Violation)
    || (Answer(rel, candidate, event) == Holds && query.binding.Some?
        && (query.requireCheckedError ==> CheckedErrorVerdict(candidate, event, rel, index).outcome == Covered)
        && Mismatched(facts, candidate, event, query.binding.value, index))
  }

  /** A verdict is covered exactly when the guard guards and a violation exactly when it
      fails; it is undecided in all other cases. */
  lemma VerdictMeaning(facts: Facts, candidate: ControlEvent, event: ControlEvent, query: GuardQuery, rel: Adjacency,
                       index: Index)
    ensures var v := VerdictOf(facts, candidate, event, query, rel, index);
            && (v.outcome == Covered <==> Guards(facts, candidate, event, query, rel, index))
            && (v.outcome == Violation <==> Fails(facts, candidate, event, query, rel, index))
  {
    hide CheckedErrorVerdict, IdentityEstablished, ReassignedFrom, AnswerForBlocks, RelatePlaces, AliasOf;
    if query.binding.Some? {
      IdentityMeaning(facts, candidate, event, query.binding.value, index);
      IdentityReasons(facts, candidate, event, query.binding.value, index);
    }
  }

  lemma MismatchMeaning(facts: Facts, guard: ControlEvent, event: ControlEvent, binding: ArgumentBinding, index: Index)
    ensures IdentityOf(facts, guard, event, binding, index).Mismatch? <==>
            Mismatched(facts, guard, event, binding, index)
  {
    hide ReassignedFrom, RelatePlaces, AliasOf;
    IdentityMeaning(facts, guard, event, binding, index);
    IdentityReasons(facts, guard, event, binding, index);
  }

  lemma IdentityReasons(facts: Facts, guard: ControlEvent, event: ControlEvent, binding: ArgumentBinding, index: Index)
    ensures var answer := IdentityOf(facts, guard, event, binding, index);
            answer.Mismatch? ==>
              && answer.how in {REASON_IDENTITY_MISMATCH, REASON_IDENTITY_REASSIGNED}
              && binding.guardPosition < |guard.arguments| && binding.eventPosition < |event.arguments|
  {
  }

  method DecideCandidate(facts: Facts, candidate: ControlEvent, event: ControlEvent, query: GuardQuery, rel: Adjacency,
                         index: Index)
    returns (v: GuardVerdict)
    ensures v == VerdictOf(facts, candidate, event, query, rel, index)
    ensures v.outcome == Covered <==> Guards(facts, candidate, event, query, rel, index)
    ensures v.outcome == Violation <==> Fails(facts, candidate, event, query, rel, index)
  {
    VerdictMeaning(facts, candidate, event, query, rel, index);
    hide Guards, Fails, CheckedErrorVerdict, IdentityOf;
    var answer := LookUp(rel, candidate, event);
    match answer {
      case Unknown(reason) => return Undecidable(reason, reason);
      case DoesNotHold => return Refuted(REASON_GUARD_DOES_NOT_DOMINATE, DOMINANCE_FROM_RELATION);
      case Holds =>
    }
    var control := CoveredBy(REASON_GUARD_DOMINATES_OPERATION);
    if query.requireCheckedError {
      control := DecideCheckedError(candidate, event, rel, index);
    }
    if query.binding.None? || control.outcome != Covered {
      return control;
    }
    var identity := RelateIdentity(facts, candidate, event, query.binding.value, index);
    match identity {
      case Bound(how) => return control.(identity := how);
      case Mismatch(reason) => return Refuted(reason, DOMINANCE_FROM_RELATION).(identity := reason);
      case Indeterminate(reason) => return Undecidable(reason, DOMINANCE_FROM_RELATION).(identity := reason);
    }
  }

  // ----- the fold of the outcome query

  function Rank(outcome: Outcome): nat {
    match outcome
    case Covered => 0
    case Undecided => 1
    case Violation => 2
  }

  /** The disjunction of three-valued outcomes: covered if any is, otherwise
      undecided if any is, otherwise a violation. */
  ghost function Disjunction(outcomes: seq<Outcome>): Outcome {
    if Covered in outcomes then Covered
    else if Undecided in outcomes then Undecided
    else Violation
  }

  function OutcomesOf(vs: seq<GuardVerdict>): seq<Outcome> {
    seq(|vs|, i requires 0 <= i < |vs| => vs[i].outcome)
  }

  /** `v` is the first verdict of the list with the least rank in it. */
  ghost predicate FirstBest(vs: seq<GuardVerdict>, v: GuardVerdict) {
    exists i :: 0 <= i < |vs| && vs[i] == v
      && (forall j :: 0 <= j < |vs| ==> Rank(v.outcome) <= Rank(vs[j].outcome))
      && forall j :: 0 <= j < i ==> Rank(v.outcome) < Rank(vs[j].outcome)
  }

  /** The guards among the events, in order. */
  ghost function GuardsAmong(events: seq<ControlEvent>, query: GuardQuery): seq<ControlEvent> {
    if events == [] then []
    else
      var earlier := GuardsAmong(events[..|events| - 1], query);
      var last := events[|events| - 1];
      if GuardMatches(last, query) then earlier + [last] else earlier
  }

  lemma {:induction false} GuardsAmongMembers(events: seq<ControlEvent>, query: GuardQuery)
    ensures forall g :: g in GuardsAmong(events, query) <==> g in events && GuardMatches(g, query)
  {
    if events != [] {
      GuardsAmongMembers(events[..|events| - 1], query);
      assert events == events[..|events| - 1] + [events[|events| - 1]];
    }
  }

  /** The verdicts `vs` answer for the first guards before the operation; all of
      them do unless one is covered, which ends the scan. */
  ghost predicate Answers(facts: Facts, guards: seq<ControlEvent>, event: ControlEvent, query: GuardQuery,
                          rel: Adjacency, index: Index, vs: seq<GuardVerdict>) {
    |vs| <= |guards|
    && (forall i :: 0 <= i < |vs| ==> vs[i] == VerdictOf(facts, guards[i], event, query, rel, index))
    && (|vs| == |guards| || Covered in OutcomesOf(vs))
  }

  /** The decision drawn from the candidates' verdicts: the best, the first of its rank;
      without a candidate, a refutation that says whether a guard comes later. */
  ghost predicate Decided(facts: Facts, events: seq<ControlEvent>, position: nat, query: GuardQuery, rel: Adjacency,
                          index: Index,
                          vs: seq<GuardVerdict>, v: GuardVerdict)
    requires position < |events|
  {
    && Answers(facts, GuardsAmong(events[..position], query), events[position], query, rel, index, vs)
    && v.outcome == Disjunction(OutcomesOf(vs))
    && if vs != [] then FirstBest(vs, v)
       else v == Refuted(if exists j :: position <= j < |events| && GuardMatches(events[j], query)
                         then REASON_GUARD_NOT_ORDERED_BEFORE else REASON_GUARD_MISSING, DOMINANCE_NO_CANDIDATE)
  }

  ghost predicate AllAnswered(facts: Facts, guards: seq<ControlEvent>, event: ControlEvent, query: GuardQuery,
                              rel: Adjacency, index: Index, vs: seq<GuardVerdict>) {
    |vs| == |guards| && forall i :: 0 <= i < |vs| ==> vs[i] == VerdictOf(facts, guards[i], event, query, rel, index)
  }

  ghost predicate BestSoFar(vs: seq<GuardVerdict>, best: Option<GuardVerdict>) {
    if best.None? then vs == [] else FirstBest(vs, best.value)
  }

  method DecideGuards(facts: Facts, events: seq<ControlEvent>, position: nat, query: GuardQuery, rel: Adjacency,
                      index: Index)
    returns (v: GuardVerdict)
    requires position < |events|
    ensures exists vs :: Decided(facts, events, position, query, rel, index, vs, v)
  {
    hide VerdictOf, GuardsAmong, Decided, FirstBest;
    var event := events[position];
    var best: Option<GuardVerdict> := None;
    ghost var vs: seq<GuardVerdict> := [];
    NoGuards(query);
    var i := 0;
    while i < position
      invariant 0 <= i <= position
      invariant AllAnswered(facts, GuardsAmong(events[..i], query), event, query, rel, index, vs)
      invariant BestSoFar(vs, best) && (best.Some? ==> best.value.outcome != Covered)
    {
      var candidate := events[i];
      NextGuard(events, i, query);
      if GuardMatches(candidate, query) {
        var verdict := DecideCandidate(facts, candidate, event, query, rel, index);
        BetterOrKept(vs, best, verdict);
        if best.None? || Rank(verdict.outcome) < Rank(best.value.outcome) {
          best := Some(verdict);
        }
        vs := vs + [verdict];
        if best.value.outcome == Covered {
          CoveredEndsScan(facts, events, i + 1, position, query, rel, index, vs, best.value);
          return best.value;
        }
      }
      i := i + 1;
    }
    if best.Some? {
      v := best.value;
    } else if exists j :: position <= j < |events| && GuardMatches(events[j], query) {
      v := Refuted(REASON_GUARD_NOT_ORDERED_BEFORE, DOMINANCE_NO_CANDIDATE);
    } else {
      v := Refuted(REASON_GUARD_MISSING, DOMINANCE_NO_CANDIDATE);
    }
    FullScanDecides(facts, events, position, query, rel, index, vs, best, v);
  }

  lemma NoGuards(query: GuardQuery)
    ensures GuardsAmong([], query) == []
  {
  }

  lemma NextGuard(events: seq<ControlEvent>, i: nat, query: GuardQuery)
    requires i < |events|
    ensures GuardsAmong(events[..i + 1], query) ==
            GuardsAmong(events[..i], query) + if GuardMatches(events[i], query) then [events[i]] else []
  {
    assert events[..i + 1][..i] == events[..i];
  }

  lemma BetterOrKept(vs: seq<GuardVerdict>, best: Option<GuardVerdict>, verdict: GuardVerdict)
    requires BestSoFar(vs, best)
    ensures var better := best.None? || Rank(verdict.outcome) < Rank(best.value.outcome);
            FirstBest(vs + [verdict], if better then verdict else best.value)
  {
    if best.None? || Rank(verdict.outcome) < Rank(best.value.outcome) {
      FirstBestLast(vs, verdict);
    } else {
      FirstBestKeeps(vs, best.value, verdict);
    }
  }

  lemma CoveredEndsScan(facts: Facts, events: seq<ControlEvent>, n: nat, position: nat, query: GuardQuery,
                        rel: Adjacency, index: Index,
                        vs: seq<GuardVerdict>, v: GuardVerdict)
    requires n <= position < |events| && FirstBest(vs, v) && v.outcome == Covered
    requires AllAnswered(facts, GuardsAmong(events[..n], query), events[position], query, rel, index, vs)
    ensures Decided(facts, events, position, query, rel, index, vs, v)
  {
    hide VerdictOf, GuardsAmong;
    GuardsPrefix(events[..position], n, query);
    assert events[..position][..n] == events[..n];
    FirstBestIsDisjunction(vs, v);
    assert Covered in OutcomesOf(vs);
  }

  lemma FullScanDecides(facts: Facts, events: seq<ControlEvent>, position: nat, query: GuardQuery, rel: Adjacency,
                        index: Index,
                        vs: seq<GuardVerdict>, best: Option<GuardVerdict>, v: GuardVerdict)
    requires position < |events| && BestSoFar(vs, best)
    requires AllAnswered(facts, GuardsAmong(events[..position], query), events[position], query, rel, index, vs)
    requires v == if best.Some? then best.value
                  else Refuted(if exists j :: position <= j < |events| && GuardMatches(events[j], query)
                               then REASON_GUARD_NOT_ORDERED_BEFORE else REASON_GUARD_MISSING, DOMINANCE_NO_CANDIDATE)
    ensures Decided(facts, events, position, query, rel, index, vs, v)
  {
    hide VerdictOf, GuardsAmong;
    if best.Some? {
      FirstBestIsDisjunction(vs, v);
    }
  }

  lemma FirstBestLast(vs: seq<GuardVerdict>, v: GuardVerdict)
    requires vs == [] || exists b :: FirstBest(vs, b) && Rank(v.outcome) < Rank(b.outcome)
    ensures FirstBest(vs + [v], v)
  {
    assert (vs + [v])[|vs|] == v;
  }

  lemma FirstBestKeeps(vs: seq<GuardVerdict>, b: GuardVerdict, v: GuardVerdict)
    requires FirstBest(vs, b) && Rank(b.outcome) <= Rank(v.outcome)
    ensures FirstBest(vs + [v], b)
  {
    var i :| 0 <= i < |vs| && vs[i] == b
      && (forall j :: 0 <= j < |vs| ==> Rank(b.outcome) <= Rank(vs[j].outcome))
      && forall j :: 0 <= j < i ==> Rank(b.outcome) < Rank(vs[j].outcome);
    assert (vs + [v])[i] == b;
  }

  lemma FirstBestIsDisjunction(vs: seq<GuardVerdict>, v: GuardVerdict)
    requires FirstBest(vs, v)
    ensures v.outcome == Disjunction(OutcomesOf(vs))
  {
    var i :| 0 <= i < |vs| && vs[i] == v;
    assert OutcomesOf(vs)[i] == v.outcome;
  }

  lemma {:induction false} GuardsPrefix(events: seq<ControlEvent>, n: nat, query: GuardQuery)
    requires n <= |events|
    ensures GuardsAmong(events[..n], query) <= GuardsAmong(events, query)
  {
    if n < |events| {
      GuardsPrefix(events[..|events| - 1], n, query);
      assert events[..|events| - 1][..n] == events[..n];
    } else {
      assert events[..n] == events;
    }
  }

  /** The decision's outcome is the disjunction over all guards before the operation,
      the early exit included. */
  lemma DecidedIsDisjunction(facts: Facts, events: seq<ControlEvent>, position: nat, query: GuardQuery, rel: Adjacency,
                             index: Index,
                             v: GuardVerdict)
    requires position < |events| && exists vs :: Decided(facts, events, position, query, rel, index, vs, v)
    ensures var guards := GuardsAmong(events[..position], query);
            && (v.outcome == Covered <==>
                exists g :: g in guards && VerdictOf(facts, g, events[position], query, rel, index).outcome == Covered)
            && (v.outcome == Violation <==>
                forall g :: g in guards ==> VerdictOf(facts, g, events[position], query, rel,
                                                      index).outcome == Violation)
  {
  }

  /** More guards before the operation, whether from more events or from more accepted
      names, never turn a covered or undecided operation into a violation, nor a covered
      one into an undecided one. */
  lemma MoreGuardsNeverRefute(facts: Facts, events: seq<ControlEvent>, position: nat, query: GuardQuery,
                              events': seq<ControlEvent>, position': nat, query': GuardQuery,
                              rel: Adjacency, index: Index, v: GuardVerdict, v': GuardVerdict)
    requires position < |events| && position' < |events'| && events[position] == events'[position']
    requires forall i :: 0 <= i < position ==> events[i] in events'[..position']
    requires query.guardNames <= query'.guardNames && query' == query.(guardNames := query'.guardNames)
    requires exists vs :: Decided(facts, events, position, query, rel, index, vs, v)
    requires exists vs :: Decided(facts, events', position', query', rel, index, vs, v')
    ensures Rank(v'.outcome) <= Rank(v.outcome)
  {
    hide Decided;
    DecidedIsDisjunction(facts, events, position, query, rel, index, v);
    DecidedIsDisjunction(facts, events', position', query', rel, index, v');
    GuardsAmongMembers(events[..position], query);
    GuardsAmongMembers(events'[..position'], query');
    var guards, guards' := GuardsAmong(events[..position], query), GuardsAmong(events'[..position'], query');
    forall g | g in guards
      ensures g in guards'
      ensures VerdictOf(facts, g, events[position], query', rel, index) == VerdictOf(facts, g, events[position], query,
          rel, index)
    {
      var n :| n in query.guardNames * g.names;
      assert n in query'.guardNames * g.names;
      var i :| 0 <= i < position && events[..position][i] == g;
      assert events[i] in events'[..position'];
    }
    if v.outcome == Undecided {
      var g :| g in guards && VerdictOf(facts, g, events[position], query, rel, index).outcome != Violation;
      assert g in guards';
    }
  }

  // ----- the fold of the missing-guard query, and the agreement of the two

  datatype RelationCoverage = Established | NotEstablished(reason: string) | NoneHolds(sawCandidate: bool)

  /** The relation's answer for every guard, in order. */
  ghost function AnswersOf(guards: seq<ControlEvent>, event: ControlEvent, rel: Adjacency): seq<DominanceAnswer> {
    seq(|guards|, i requires 0 <= i < |guards| => Answer(rel, guards[i], event))
  }

  ghost predicate FirstUnknown(answers: seq<DominanceAnswer>, reason: string) {
    exists i :: 0 <= i < |answers| && answers[i] == Unknown(reason) && forall j :: 0 <= j < i ==> !answers[j].Unknown?
  }

  /** A single answer that holds establishes the guard; otherwise the first
      unknown reason wins over refutation. */
  ghost predicate Covers(answers: seq<DominanceAnswer>, c: RelationCoverage) {
    match c
    case Established => Holds in answers
    case NotEstablished(reason) => Holds !in answers && FirstUnknown(answers, reason)
    case NoneHolds(saw) => saw == (answers != []) && forall i :: 0 <= i < |answers| ==> answers[i] == DoesNotHold
  }

  method CoverByRelation(guards: seq<ControlEvent>, event: ControlEvent, rel: Adjacency) returns (c: RelationCoverage)
    ensures Covers(AnswersOf(guards, event, rel), c)
  {
    ghost var answers: seq<DominanceAnswer> := [];
    var unknown: Option<string> := None;
    for i := 0 to |guards|
      invariant |answers| == i && forall k :: 0 <= k < i ==> answers[k] == Answer(rel, guards[k], event)
      invariant Holds !in answers
      invariant unknown.None? ==> forall k :: 0 <= k < i ==> answers[k] == DoesNotHold
      invariant unknown.Some? ==> FirstUnknown(answers, unknown.value)
    {
      var answer := LookUp(rel, guards[i], event);
      if answer == Holds {
        assert AnswersOf(guards, event, rel)[i] == Holds;
        return Established;
      }
      if unknown.Some? {
        KeepFirstUnknown(answers, unknown.value, answer);
      } else if answer.Unknown? {
        unknown := Some(answer.reason);
        assert (answers + [answer])[i] == answer;
      }
      answers := answers + [answer];
    }
    assert AnswersOf(guards, event, rel) == answers;
    if unknown.Some? {
      return NotEstablished(unknown.value);
    }
    return NoneHolds(guards != []);
  }

  lemma KeepFirstUnknown(answers: seq<DominanceAnswer>, reason: string, next: DominanceAnswer)
    requires FirstUnknown(answers, reason)
    ensures FirstUnknown(answers + [next], reason)
  {
    var i :| 0 <= i < |answers| && answers[i] == Unknown(reason) && forall j :: 0 <= j < i ==> !answers[j].Unknown?;
    assert (answers + [next])[i] == Unknown(reason);
  }

  /** What the outcome query makes of one answer when it asks for no more. */
  ghost function PlainVerdict(answer: DominanceAnswer): GuardVerdict {
    match answer
    case Holds => CoveredBy(REASON_GUARD_DOMINATES_OPERATION)
    case DoesNotHold => Refuted(REASON_GUARD_DOES_NOT_DOMINATE, DOMINANCE_FROM_RELATION)
    case Unknown(reason) => Undecidable(reason, reason)
  }

  /** With no checked-error requirement and no argument binding the two queries
      decide every operation alike: established and covered, not established and
      undecided for the same first reason, refuted and violated. */
  lemma QueriesAgree(facts: Facts, guards: seq<ControlEvent>, event: ControlEvent, query: GuardQuery, rel: Adjacency,
                     index: Index,
                     vs: seq<GuardVerdict>, v: GuardVerdict, c: RelationCoverage)
    requires !query.requireCheckedError && query.binding.None?
    requires Answers(facts, guards, event, query, rel, index, vs)
    requires v.outcome == Disjunction(OutcomesOf(vs)) && (vs != [] ==> FirstBest(vs, v))
    requires Covers(AnswersOf(guards, event, rel), c)
    ensures c == Established <==> v.outcome == Covered
    ensures c.NotEstablished? <==> v.outcome == Undecided
    ensures c.NotEstablished? ==> v == Undecidable(c.reason, c.reason)
    ensures c.NoneHolds? <==> v.outcome == Violation
    ensures c.NoneHolds? && c.sawCandidate ==> v == Refuted(REASON_GUARD_DOES_NOT_DOMINATE, DOMINANCE_FROM_RELATION)
  {
    var answers := AnswersOf(guards, event, rel);
    forall i | 0 <= i < |vs| ensures vs[i] == PlainVerdict(answers[i]) {
      assert vs[i] == VerdictOf(facts, guards[i], event, query, rel, index);
    }
    FoldsAgree(answers, vs, v, c);
  }

  lemma FoldsAgree(answers: seq<DominanceAnswer>, vs: seq<GuardVerdict>, v: GuardVerdict, c: RelationCoverage)
    requires |vs| <= |answers| && forall i :: 0 <= i < |vs| ==> vs[i] == PlainVerdict(answers[i])
    requires |vs| == |answers| || Covered in OutcomesOf(vs)
    requires v.outcome == Disjunction(OutcomesOf(vs)) && (vs != [] ==> FirstBest(vs, v))
    requires Covers(answers, c)
    ensures c == Established <==> v.outcome == Covered
    ensures c.NotEstablished? <==> v.outcome == Undecided
    ensures c.NotEstablished? ==> v == Undecidable(c.reason, c.reason)
    ensures c.NoneHolds? <==> v.outcome == Violation
    ensures c.NoneHolds? && c.sawCandidate ==> v == Refuted(REASON_GUARD_DOES_NOT_DOMINATE, DOMINANCE_FROM_RELATION)
  {
  }

  // ----- what the decision means on the control-flow graph

  /** A refuted operation is one whose guards all fail: each before it does not
      dominate, or has its error unchecked, or is for another argument. */
  lemma RefutedMeansEveryGuardFails(facts: Facts, events: seq<ControlEvent>, position: nat, query: GuardQuery,
                                    rel: Adjacency,
                                    index: Index, vs: seq<GuardVerdict>)
    requires position < |events|
    requires Answers(facts, GuardsAmong(events[..position], query), events[position], query, rel, index, vs)
    ensures Disjunction(OutcomesOf(vs)) == Violation <==>
            forall i :: 0 <= i < position && GuardMatches(events[i], query) ==>
                Fails(facts, events[i], events[position], query, rel, index)
  {
    hide Fails, Guards, VerdictOf;
    var guards, event := GuardsAmong(events[..position], query), events[position];
    GuardsAmongMembers(events[..position], query);
    forall g ensures VerdictOf(facts, g, event, query, rel, index).outcome == Violation <==>
        Fails(facts, g, event, query, rel, index) {
      VerdictMeaning(facts, g, event, query, rel, index);
    }
    assert forall i :: 0 <= i < position ==> events[..position][i] == events[i];
    assert forall i :: 0 <= i < |vs| ==> OutcomesOf(vs)[i] == vs[i].outcome && OutcomesOf(vs)[i] in OutcomesOf(vs);
    if Disjunction(OutcomesOf(vs)) == Violation {
      forall i | 0 <= i < position && GuardMatches(events[i], query)
        ensures Fails(facts, events[i], event, query, rel, index) {
        assert events[..position][i] in guards;
        var k :| 0 <= k < |guards| && guards[k] == events[i];
      }
    } else {
      var k :| 0 <= k < |vs| && OutcomesOf(vs)[k] != Violation;
      assert guards[k] in guards;
      var i :| 0 <= i < |events[..position]| && events[..position][i] == guards[k];
      assert !Fails(facts, events[i], event, query, rel, index);
    }
  }

  /** When only dominance is asked for and the rows are exact, the decision is
      exact: covered when some guard before the operation dominates it, and a
      violation when none does. */
  lemma PlainDecisionIsExact(facts: Facts, guards: seq<ControlEvent>, event: ControlEvent, query: GuardQuery,
                             rel: Adjacency, index: Index,
                             vs: seq<GuardVerdict>, entry: nat)
    requires !query.requireCheckedError && query.binding.None?
    requires Answers(facts, guards, event, query, rel, index, vs)
    requires SoundRows(rel, index.successors, entry) && HasImmediateRows(rel, index.successors, entry)
    requires event.block.Some? && Reachable(index.successors, entry, event.block.value)
    requires forall i :: 0 <= i < |guards| ==>
        guards[i].block.Some? && Reachable(index.successors, entry, guards[i].block.value)
    ensures Disjunction(OutcomesOf(vs)) ==
            if exists i ::
                  0 <= i < |guards| && Dominates(index.successors, entry, guards[i].block.value, event.block.value)
            then Covered else Violation
  {
    var outcomes := OutcomesOf(vs);
    forall i | 0 <= i < |vs|
      ensures outcomes[i] == if Dominates(index.successors, entry, guards[i].block.value, event.block.value)
          then Covered else Violation
    {
      LookupIsDominance(rel, index.successors, entry, guards[i].block.value, event.block.value);
      assert vs[i] == VerdictOf(facts, guards[i], event, query, rel, index);
    }
    if exists i :: 0 <= i < |guards| && Dominates(index.successors, entry, guards[i].block.value, event.block.value) {
      var i :| 0 <= i < |guards| && Dominates(index.successors, entry, guards[i].block.value, event.block.value);
      assert i < |vs| ==> outcomes[i] == Covered;
    }
  }
}
