/** The lowered operations a guard query reads, and the walk that decides where
    the value a branch tests was last defined. */
module Mir {
  import opened Options

  type PlaceId = nat
  type SiteId = nat
  type OpId = nat
  type BodyId = nat

  /** A comparison with nil: exhaustive over the language's nil values, or
      conclusive on the nil edge alone. */
  datatype NilTest = Exhaustive(nilOnTrue: bool) | NilEdgeOnly(nilOnTrue: bool)

  datatype AssignMode =
    | DeclarationBinding | Overwrite | PartialWrite | Simultaneous | ProjectionMutation | UnknownWrite

  datatype Value = PlaceValue(place: PlaceId) | CallReturn(call: SiteId) | OtherValue

  datatype OperationKind =
    | Assign(place: PlaceId, value: Value, mode: AssignMode)
    | Bind(place: PlaceId, value: Value)
    | Write(place: PlaceId, value: Value)
    | Call(site: SiteId, returnPlace: PlaceId)
    | Branch(tested: Option<PlaceId>, nilTest: Option<NilTest>)
    | OtherOperation

  datatype Operation = Operation(id: OpId, kind: OperationKind)

  datatype DefinitionReach = FromGuard | Ambiguous | Elsewhere

  predicate WritesPlace(op: Operation, place: PlaceId) {
    match op.kind
    case Assign(target, _, _) => target == place
    case Bind(target, _) => target == place
    case Write(target, _) => target == place
    case Call(_, target) => target == place
    case _ => false
  }

  /** Four kinds of operation write a place, each its own target and no other. */
  lemma WritesPlaceMeaning(op: Operation, place: PlaceId)
    ensures WritesPlace(op, place) <==>
            || (exists value, mode :: op.kind == Assign(place, value, mode))
            || (exists value :: op.kind == Bind(place, value) || op.kind == Write(place, value))
            || (exists site :: op.kind == Call(site, place))
  {
  }

  function ClassifyValue(value: Value, result: PlaceId, site: SiteId): DefinitionReach {
    if value == PlaceValue(result) || value == CallReturn(site) then FromGuard else Ambiguous
  }

  function ClassifyWrite(op: Operation, result: PlaceId, site: SiteId): DefinitionReach {
    match op.kind
    case Call(written, _) => if written == site then FromGuard else Ambiguous
    case Assign(_, value, mode) =>
      if mode.UnknownWrite? || mode.PartialWrite? || mode.Simultaneous? then Ambiguous
      else ClassifyValue(value, result, site)
    case Bind(_, value) => ClassifyValue(value, result, site)
    case _ => Ambiguous
  }

  function WritesOf(window: seq<Operation>, place: PlaceId): seq<Operation> {
    if window == [] then []
    else
      var earlier := WritesOf(window[..|window| - 1], place);
      var last := window[|window| - 1];
      if WritesPlace(last, place) then earlier + [last] else earlier
  }

  /** The walk over the operations before a branch, as the engine does it: collect
      the writes of the tested place, look at the last, then at all of them. */
  function DefinitionReaching(window: seq<Operation>, tested: PlaceId, result: PlaceId, site: SiteId): DefinitionReach {
    var writes := WritesOf(window, tested);
    if writes == [] then
      if tested == result then FromGuard else Elsewhere
    else if ClassifyWrite(writes[|writes| - 1], result, site) == FromGuard then FromGuard
    else if tested == result || exists i :: 0 <= i < |writes| && ClassifyWrite(writes[i], result, site) == FromGuard
        then Ambiguous
    else Elsewhere
  }

  // ----- what the places really hold

  /** What a place holds: the value the guard returned, another value, or one the
      operations do not tell. */
  datatype Content = GuardValue | AnotherValue | Untold

  type Store = PlaceId -> Content

  /** The write stores its value whole. */
  predicate Attributed(op: Operation) {
    match op.kind
    case Assign(_, _, mode) => !(mode.UnknownWrite? || mode.PartialWrite? || mode.Simultaneous?)
    case Write(_, _) => false
    case _ => true
  }

  /** The stores that tell what they store: a declaration, an overwrite or a mutation of the
      one place they name, a binding, and a call. */
  lemma AttributedMeaning(op: Operation)
    ensures Attributed(op) <==>
            (op.kind.Assign? ==> op.kind.mode in {DeclarationBinding, Overwrite, ProjectionMutation}) && !op.kind.Write?
  {
  }

  /** The place a write copies. */
  function CopyOf(op: Operation): Option<PlaceId> {
    match op.kind
    case Assign(_, PlaceValue(source), _) => if Attributed(op) then Some(source) else None
    case Bind(_, PlaceValue(source)) => Some(source)
    case _ => None
  }

  function Evaluate(store: Store, value: Value, site: SiteId): Content {
    match value
    case PlaceValue(place) => store(place)
    case CallReturn(call) => if call == site then GuardValue else AnotherValue
    case OtherValue => AnotherValue
  }

  /** What a write puts into its place. */
  function Stored(store: Store, op: Operation, site: SiteId): Content {
    if !Attributed(op) then Untold
    else
      match op.kind
      case Call(call, _) => if call == site then GuardValue else AnotherValue
      case Assign(_, value, _) => Evaluate(store, value, site)
      case Bind(_, value) => Evaluate(store, value, site)
      case _ => AnotherValue
  }

  /** Executes the window in order. The guard's result place stands for its value from
      the start, since a binding may be listed before the call it binds. */
  ghost function Execute(window: seq<Operation>, result: PlaceId, site: SiteId): Store {
    if window == [] then (place: PlaceId) => if place == result then GuardValue else AnotherValue
    else
      var before := Execute(window[..|window| - 1], result, site);
      var last := window[|window| - 1];
      (place: PlaceId) => if WritesPlace(last, place) then Stored(before, last, site) else before(place)
  }

  function LastWrite(window: seq<Operation>, place: PlaceId): (at: Option<nat>)
    ensures at.Some? ==> at.value < |window| && WritesPlace(window[at.value], place)
  {
    if window == [] then None
    else if WritesPlace(window[|window| - 1], place) then Some(|window| - 1)
    else LastWrite(window[..|window| - 1], place)
  }

  /** What a place holds is what its last write stored. */
  lemma {:induction false} HoldsLastStored(window: seq<Operation>, place: PlaceId, result: PlaceId, site: SiteId)
    ensures match LastWrite(window, place)
            case None => Execute(window, result, site)(place) == if place == result then GuardValue else AnotherValue
            case Some(k) => Execute(window, result, site)(place) == Stored(Execute(window[..k], result, site),
                window[k], site)
  {
    if window != [] && !WritesPlace(window[|window| - 1], place) {
      HoldsLastStored(window[..|window| - 1], place, result, site);
      var at := LastWrite(window, place);
      if at.Some? {
        assert window[..|window| - 1][..at.value] == window[..at.value];
      }
    }
  }

  lemma {:induction false} WritesEndAtLast(window: seq<Operation>, place: PlaceId)
    ensures var writes := WritesOf(window, place);
            match LastWrite(window, place)
            case None => writes == []
            case Some(k) => writes != [] && writes[|writes| - 1] == window[k]
  {
    if window != [] && !WritesPlace(window[|window| - 1], place) {
      WritesEndAtLast(window[..|window| - 1], place);
    }
  }

  lemma {:induction false} WritesAreListed(window: seq<Operation>, place: PlaceId)
    ensures forall op :: op in WritesOf(window, place) <==>
              exists k :: 0 <= k < |window| && window[k] == op && WritesPlace(op, place)
  {
    if window != [] {
      var earlier := window[..|window| - 1];
      WritesAreListed(earlier, place);
      forall op ensures op in WritesOf(window, place) <==>
          exists k :: 0 <= k < |window| && window[k] == op && WritesPlace(op, place)
      {
        if k :| 0 <= k < |window| && window[k] == op && WritesPlace(op, place) {
          if k < |earlier| { assert earlier[k] == op; }
        }
        if k :| 0 <= k < |earlier| && earlier[k] == op && WritesPlace(op, place) {
          assert window[k] == op;
        }
      }
    }
  }

  // ----- when the walk is right

  /** The last write copies the result place after something else was put there. */
  ghost predicate StaleCopy(window: seq<Operation>, tested: PlaceId, result: PlaceId, site: SiteId) {
    var at := LastWrite(window, tested);
    at.Some? && CopyOf(window[at.value]) == Some(result)
    && Execute(window[..at.value], result, site)(result) != GuardValue
  }

  /** The write at `k` copies a place other than the result place that holds the
      guard's value. */
  ghost predicate SecondCopy(window: seq<Operation>, k: nat, result: PlaceId, site: SiteId) {
    k < |window| && CopyOf(window[k]).Some? && CopyOf(window[k]) != Some(result)
    && Execute(window[..k], result, site)(CopyOf(window[k]).value) == GuardValue
  }

  /** A write through which the guard's value may reach a place unseen by the walk: one
      that does not tell what it stores, or a copy of another place that may hold it. */
  ghost predicate Leak(window: seq<Operation>, k: nat, result: PlaceId, site: SiteId) {
    k < |window| && (!Attributed(window[k])
      || (CopyOf(window[k]).Some? && CopyOf(window[k]) != Some(result)
          && Execute(window[..k], result, site)(CopyOf(window[k]).value) != AnotherValue))
  }

  ghost predicate LeaksInto(window: seq<Operation>, place: PlaceId, result: PlaceId, site: SiteId) {
    exists k :: 0 <= k < |window| && WritesPlace(window[k], place) && Leak(window, k, result, site)
  }

  ghost predicate EverMayHold(window: seq<Operation>, place: PlaceId, result: PlaceId, site: SiteId) {
    exists k :: 0 <= k <= |window| && Execute(window[..k], result, site)(place) != AnotherValue
  }

  lemma ClassifiedStores(store: Store, op: Operation, place: PlaceId, result: PlaceId, site: SiteId)
    requires WritesPlace(op, place)
    ensures ClassifyWrite(op, result, site) == FromGuard ==>
              Stored(store, op, site) == if CopyOf(op) == Some(result) then store(result) else GuardValue
    ensures ClassifyWrite(op, result, site) != FromGuard ==> CopyOf(op) != Some(result)
    ensures ClassifyWrite(op, result, site) != FromGuard ==>
              Stored(store, op, site) == if !Attributed(op) then Untold
                                         else if CopyOf(op).Some? then store(CopyOf(op).value) else AnotherValue
  {
  }

  /** "From the guard" is right exactly unless the last write is a stale copy. */
  lemma FromGuardExactlyWhen(window: seq<Operation>, tested: PlaceId, result: PlaceId, site: SiteId)
    requires DefinitionReaching(window, tested, result, site) == FromGuard
    ensures Execute(window, result, site)(tested) == GuardValue <==> !StaleCopy(window, tested, result, site)
  {
    HoldsLastStored(window, tested, result, site);
    WritesEndAtLast(window, tested);
    var at := LastWrite(window, tested);
    if at.Some? {
      ClassifiedStores(Execute(window[..at.value], result, site), window[at.value], tested, result, site);
    }
  }

  /** "Ambiguous" hides a place that holds the guard's value exactly when its last write
      copied it from another holder. */
  lemma AmbiguousExactlyWhen(window: seq<Operation>, tested: PlaceId, result: PlaceId, site: SiteId)
    requires DefinitionReaching(window, tested, result, site) == Ambiguous
    ensures Execute(window, result, site)(tested) == GuardValue <==>
              LastWrite(window, tested).Some? && SecondCopy(window, LastWrite(window, tested).value, result, site)
  {
    HoldsLastStored(window, tested, result, site);
    WritesEndAtLast(window, tested);
    var at := LastWrite(window, tested);
    if at.Some? {
      ClassifiedStores(Execute(window[..at.value], result, site), window[at.value], tested, result, site);
    }
  }

  lemma LeakIsHeld(window: seq<Operation>, k: nat, tested: PlaceId, result: PlaceId, site: SiteId)
    requires DefinitionReaching(window, tested, result, site) == Elsewhere
    requires k < |window| && WritesPlace(window[k], tested) && Leak(window, k, result, site)
    ensures Execute(window[..k + 1], result, site)(tested) != AnotherValue
  {
    WritesAreListed(window, tested);
    assert window[k] in WritesOf(window, tested);
    ClassifiedStores(Execute(window[..k], result, site), window[k], tested, result, site);
    assert window[..k + 1][..k] == window[..k];
  }

  lemma HeldIsLeaked(window: seq<Operation>, n: nat, tested: PlaceId, result: PlaceId, site: SiteId) returns (k: nat)
    requires DefinitionReaching(window, tested, result, site) == Elsewhere
    requires n <= |window| && Execute(window[..n], result, site)(tested) != AnotherValue
    ensures k < |window| && WritesPlace(window[k], tested) && Leak(window, k, result, site)
  {
    WritesAreListed(window, tested);
    var w := window[..n];
    HoldsLastStored(w, tested, result, site);
    k := LastWrite(w, tested).value;
    assert w[..k] == window[..k] && w[k] == window[k];
    assert window[k] in WritesOf(window, tested);
    ClassifiedStores(Execute(window[..k], result, site), window[k], tested, result, site);
  }

  /** "Elsewhere" is right, the place never held the guard's value, exactly when no
      write of the place leaks it there. */
  lemma ElsewhereExactlyWhen(window: seq<Operation>, tested: PlaceId, result: PlaceId, site: SiteId)
    requires DefinitionReaching(window, tested, result, site) == Elsewhere
    ensures EverMayHold(window, tested, result, site) <==> LeaksInto(window, tested, result, site)
  {
    hide Leak, Execute, DefinitionReaching, WritesPlace;
    if LeaksInto(window, tested, result, site) {
      var k :| 0 <= k < |window| && WritesPlace(window[k], tested) && Leak(window, k, result, site);
      LeakIsHeld(window, k, tested, result, site);
      assert Execute(window[..k + 1], result, site)(tested) != AnotherValue;
    }
    if EverMayHold(window, tested, result, site) {
      var n :| 0 <= n <= |window| && Execute(window[..n], result, site)(tested) != AnotherValue;
      var k := HeldIsLeaked(window, n, tested, result, site);
    }
  }

  // ----- a discipline under which it is always right

  /** Nothing but the guard's own call writes the result place. */
  ghost predicate ResultOwned(ops: seq<Operation>, result: PlaceId, site: SiteId) {
    forall k :: 0 <= k < |ops| && WritesPlace(ops[k], result) ==>
      Attributed(ops[k]) && ClassifyWrite(ops[k], result, site) == FromGuard && CopyOf(ops[k]).None?
  }

  /** Every write tells what it stores, and only the result place is copied on: no copy
      is taken of a place the walk itself finds to hold the guard's value. */
  ghost predicate CopiedOnce(ops: seq<Operation>, result: PlaceId, site: SiteId) {
    forall k :: 0 <= k < |ops| ==>
      Attributed(ops[k])
      && (CopyOf(ops[k]).Some? && CopyOf(ops[k]) != Some(result) ==>
            DefinitionReaching(ops[..k], CopyOf(ops[k]).value, result, site) != FromGuard)
  }

  lemma OwnedPrefix(ops: seq<Operation>, k: nat, result: PlaceId, site: SiteId)
    requires k <= |ops| && ResultOwned(ops, result, site)
    ensures ResultOwned(ops[..k], result, site)
  {
  }

  lemma OwnedHolds(ops: seq<Operation>, result: PlaceId, site: SiteId)
    requires ResultOwned(ops, result, site)
    ensures Execute(ops, result, site)(result) == GuardValue
  {
  }

  lemma OwnedIsNeverStale(ops: seq<Operation>, tested: PlaceId, result: PlaceId, site: SiteId)
    requires ResultOwned(ops, result, site)
    ensures !StaleCopy(ops, tested, result, site)
  {
    var at := LastWrite(ops, tested);
    if at.Some? {
      OwnedPrefix(ops, at.value, result, site);
      OwnedHolds(ops[..at.value], result, site);
    }
  }

  lemma {:induction false} CopiedOnceDoesNotLeak(ops: seq<Operation>, k: nat, result: PlaceId, site: SiteId)
    requires ResultOwned(ops, result, site) && CopiedOnce(ops, result, site)
    ensures !Leak(ops, k, result, site)
    decreases k
  {
    if k < |ops| && CopyOf(ops[k]).Some? && CopyOf(ops[k]) != Some(result) {
      var source, w := CopyOf(ops[k]).value, ops[..k];
      HoldsLastStored(w, source, result, site);
      var at := LastWrite(w, source);
      if at.Some? {
        assert w[..at.value] == ops[..at.value];
        WritesEndAtLast(w, source);
        ClassifiedStores(Execute(ops[..at.value], result, site), ops[at.value], source, result, site);
        CopiedOnceDoesNotLeak(ops, at.value, result, site);
      }
    }
  }

  /** With an owned result place, a body leaks nothing exactly when every write tells
      what it stores and only the result place is copied on. */
  lemma LeaksExactlyWhen(ops: seq<Operation>, result: PlaceId, site: SiteId)
    requires ResultOwned(ops, result, site)
    ensures CopiedOnce(ops, result, site) <==> forall k: nat :: !Leak(ops, k, result, site)
  {
    if CopiedOnce(ops, result, site) {
      forall k: nat ensures !Leak(ops, k, result, site) {
        CopiedOnceDoesNotLeak(ops, k, result, site);
      }
    } else {
      var k :| 0 <= k < |ops| && !(Attributed(ops[k])
        && (CopyOf(ops[k]).Some? && CopyOf(ops[k]) != Some(result) ==>
              DefinitionReaching(ops[..k], CopyOf(ops[k]).value, result, site) != FromGuard));
      if Attributed(ops[k]) {
        OwnedPrefix(ops, k, result, site);
        OwnedIsNeverStale(ops[..k], CopyOf(ops[k]).value, result, site);
        FromGuardExactlyWhen(ops[..k], CopyOf(ops[k]).value, result, site);
      }
      assert Leak(ops, k, result, site);
    }
  }

  lemma LeakInPrefix(ops: seq<Operation>, n: nat, k: nat, result: PlaceId, site: SiteId)
    requires n <= |ops| && k < n && Leak(ops[..n], k, result, site)
    ensures Leak(ops, k, result, site)
  {
    assert ops[..n][..k] == ops[..k];
  }

  /** Under that discipline the walk is exact: the tested place holds the guard's value,
      certainly never held it, or is one of which it cannot tell. */
  lemma DefinitionReachingIsExact(ops: seq<Operation>, at: nat, tested: PlaceId, result: PlaceId, site: SiteId)
    requires at <= |ops| && ResultOwned(ops, result, site) && CopiedOnce(ops, result, site)
    ensures var w := ops[..at];
            && (DefinitionReaching(w, tested, result, site) == FromGuard <==>
                 Execute(w, result, site)(tested) == GuardValue)
            && (DefinitionReaching(w, tested, result, site) == Elsewhere <==> !EverMayHold(w, tested, result, site))
  {
    var w := ops[..at];
    OwnedPrefix(ops, at, result, site);
    OwnedIsNeverStale(w, tested, result, site);
    forall k: nat | k < at ensures !Leak(w, k, result, site) {
      CopiedOnceDoesNotLeak(ops, k, result, site);
      if Leak(w, k, result, site) { LeakInPrefix(ops, at, k, result, site); }
    }
    match DefinitionReaching(w, tested, result, site) {
      case FromGuard =>
        FromGuardExactlyWhen(w, tested, result, site);
        assert w[..|w|] == w;
      case Elsewhere =>
        ElsewhereExactlyWhen(w, tested, result, site);
        assert w[..|w|] == w;
      case Ambiguous =>
        AmbiguousExactlyWhen(w, tested, result, site);
        assert forall k: nat :: SecondCopy(w, k, result, site) ==> Leak(w, k, result, site);
        AmbiguousHeld(w, tested, result, site);
    }
  }

  /** An ambiguous place once held the guard's value. */
  lemma AmbiguousHeld(window: seq<Operation>, tested: PlaceId, result: PlaceId, site: SiteId)
    requires ResultOwned(window, result, site) && DefinitionReaching(window, tested, result, site) == Ambiguous
    ensures EverMayHold(window, tested, result, site)
  {
    assert window[..0] == [];
    if tested == result {
      assert Execute(window[..0], result, site)(tested) != AnotherValue;
    } else {
      var writes := WritesOf(window, tested);
      var i :| 0 <= i < |writes| && ClassifyWrite(writes[i], result, site) == FromGuard;
      WritesAreListed(window, tested);
      assert writes[i] in writes;
      var k :| 0 <= k < |window| && window[k] == writes[i] && WritesPlace(writes[i], tested);
      OwnedPrefix(window, k, result, site);
      OwnedHolds(window[..k], result, site);
      ClassifiedStores(Execute(window[..k], result, site), window[k], tested, result, site);
      assert window[..k + 1][..k] == window[..k];
      assert Execute(window[..k + 1], result, site)(tested) == GuardValue;
    }
  }

  // ----- two windows on which it is wrong

  /** The result is copied, and the copy is copied: place 3 holds it, unseen. */
  lemma SecondCopyIsMissed()
    ensures var window := [Operation(0, Call(7, 1)), Operation(1, Bind(2, PlaceValue(1))),
                           Operation(2, Bind(3, PlaceValue(2)))];
            Execute(window, 1, 7)(3) == GuardValue && DefinitionReaching(window, 3, 1, 7) == Elsewhere
  {
    var window := [Operation(0, Call(7, 1)), Operation(1, Bind(2, PlaceValue(1))),
                   Operation(2, Bind(3, PlaceValue(2)))];
    var one, two := [window[0]], [window[0], window[1]];
    assert window[..2] == two && two[..1] == one && one[..0] == [];
    assert WritesOf(two[..1], 3) == [];
    assert !WritesPlace(two[1], 3) && WritesOf(two, 3) == [];
  }

  /** Another call reuses the result place before it is copied: place 3 does not hold
      the guard's value, and the walk says that it does. */
  lemma StaleCopyIsBelieved()
    ensures var window := [Operation(0, Call(7, 1)), Operation(1, Call(9, 1)), Operation(2, Bind(3, PlaceValue(1)))];
            Execute(window, 1, 7)(3) == AnotherValue && DefinitionReaching(window, 3, 1, 7) == FromGuard
  {
  }
}
