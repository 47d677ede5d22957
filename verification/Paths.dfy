/** Executing a body along paths of its control-flow graph, and which writes of a place
    reach an operation. */
module Paths {
  import opened Options
  import opened Graphs
  import opened Mir

  /** The operations of a body in listed order, the block each belongs to, and the
      control-flow edges between blocks. */
  datatype Body = Body(ops: seq<Operation>, block: map<nat, nat>, successors: Adjacency)

  ghost predicate InBody(b: Body, steps: seq<nat>) {
    forall i :: 0 <= i < |steps| ==> steps[i] < |b.ops|
  }

  /** The positions of a block's operations from `lo` up to `hi`, in listed order. */
  function Slice(b: Body, n: nat, lo: nat, hi: nat): (steps: seq<nat>)
    ensures InBody(b, steps)
    decreases if lo < hi then hi - lo else 0
  {
    if lo >= hi || lo >= |b.ops| then []
    else (if lo in b.block && b.block[lo] == n then [lo] else []) + Slice(b, n, lo + 1, hi)
  }

  /** The operations executed along a path of blocks: its first block from `lo` on, the
      blocks between in full, and its last block up to `hi`. */
  function Steps(b: Body, path: seq<nat>, lo: nat, hi: nat): (steps: seq<nat>)
    requires path != []
    ensures InBody(b, steps)
  {
    if |path| == 1 then Slice(b, path[0], lo, hi)
    else Slice(b, path[0], lo, |b.ops|) + Steps(b, path[1..], 0, hi)
  }

  function OpsAt(b: Body, steps: seq<nat>): (window: seq<Operation>)
    requires InBody(b, steps)
    ensures |window| == |steps| && forall i :: 0 <= i < |steps| ==> window[i] == b.ops[steps[i]]
  {
    seq(|steps|, i requires 0 <= i < |steps| => b.ops[steps[i]])
  }

  /** Where execution is followed from: the entry block, or right after the operation at a
      position, until that runs again. */
  datatype Start = Entry(block: nat) | After(op: nat)

  function From(start: Start): nat {
    if start.After? then start.op + 1 else 0
  }

  ghost predicate Avoids(start: Start, steps: seq<nat>) {
    start.After? ==> start.op !in steps
  }

  ghost predicate StartsIn(b: Body, start: Start, n: nat) {
    match start
    case Entry(block) => n == block
    case After(op) => op in b.block && b.block[op] == n
  }

  /** A path of blocks leads from the start to the operation at `at`. */
  ghost predicate Arrives(b: Body, start: Start, at: nat, path: seq<nat>) {
    at in b.block && IsPath(b.successors, path) && StartsIn(b, start, path[0]) && path[|path| - 1] == b.block[at]
    && (|path| == 1 ==> From(start) <= at) && Avoids(start, Steps(b, path, From(start), at))
  }

  /** What a place holds on arriving at `at` along a path. The result place stands for the
      value of the call from the start on, so a path on which the call has not run yet
      counts as carrying its value there. */
  ghost function HeldAt(b: Body, start: Start, path: seq<nat>, at: nat, place: PlaceId, result: PlaceId,
                        site: SiteId): Content
    requires path != []
  {
    Execute(OpsAt(b, Steps(b, path, From(start), at)), result, site)(place)
  }

  ghost predicate Silent(b: Body, steps: seq<nat>, place: PlaceId) {
    forall i :: 0 <= i < |steps| && steps[i] < |b.ops| ==> !WritesPlace(b.ops[steps[i]], place)
  }

  /** A path leads from the operation at `w` on to the one at `at`. */
  ghost predicate LeadsOn(b: Body, w: nat, at: nat, path: seq<nat>) {
    w in b.block && at in b.block && PathFromTo(b.successors, path, b.block[w], b.block[at]) && (|path| == 1 ==> w < at)
  }

  /** A path leads on from `w` to `at` with no further write of the place. */
  ghost predicate LeadsSilently(b: Body, start: Start, w: nat, at: nat, place: PlaceId, path: seq<nat>) {
    LeadsOn(b, w, at, path) && Silent(b, Steps(b, path, w + 1, at), place) && Avoids(start, Steps(b, path, w + 1, at))
  }

  /** The write at `w` of the place reaches `at`: execution can arrive at it, and go on
      from it to there with no further write of the place. */
  ghost predicate WriteReaches(b: Body, start: Start, w: nat, at: nat, place: PlaceId) {
    w < |b.ops| && WritesPlace(b.ops[w], place) && start != After(w)
    && (exists up :: Arrives(b, start, w, up)) && exists on :: LeadsSilently(b, start, w, at, place, on)
  }

  /** Some path leads from the start to `at` with no write of the place. */
  ghost predicate StartReaches(b: Body, start: Start, at: nat, place: PlaceId) {
    exists path :: Arrives(b, start, at, path) && Silent(b, Steps(b, path, From(start), at), place)
  }

  // ----- cutting a path at a write

  lemma {:induction false} SliceMembers(b: Body, n: nat, lo: nat, hi: nat, s: nat)
    requires s in Slice(b, n, lo, hi)
    ensures lo <= s < hi && s < |b.ops| && s in b.block && b.block[s] == n
    decreases if lo < hi then hi - lo else 0
  {
    if s in Slice(b, n, lo + 1, hi) {
      SliceMembers(b, n, lo + 1, hi, s);
    }
  }

  lemma {:induction false} SliceSplit(b: Body, n: nat, lo: nat, w: nat, hi: nat)
    requires lo <= w < hi && w < |b.ops| && w in b.block && b.block[w] == n
    ensures Slice(b, n, lo, hi) == Slice(b, n, lo, w) + [w] + Slice(b, n, w + 1, hi)
    decreases w - lo
  {
    SliceNext(b, n, lo, hi);
    if lo < w {
      SliceNext(b, n, lo, w);
      SliceSplit(b, n, lo + 1, w, hi);
      hide Slice;
      Regroup(if lo in b.block && b.block[lo] == n then [lo] else [], Slice(b, n, lo + 1, w), w,
              Slice(b, n, w + 1, hi));
    }
  }

  lemma SliceNext(b: Body, n: nat, lo: nat, hi: nat)
    requires lo < hi && lo < |b.ops|
    ensures Slice(b, n, lo, hi) ==
            (if lo in b.block && b.block[lo] == n then [lo] else []) + Slice(b, n, lo + 1, hi)
  {
  }

  lemma Regroup(head: seq<nat>, x: seq<nat>, w: nat, y: seq<nat>)
    ensures head + (x + [w] + y) == (head + x) + [w] + y
  {
  }

  lemma {:induction false} SliceNone(b: Body, n: nat, lo: nat, hi: nat)
    requires forall k :: lo <= k < hi && k in b.block ==> b.block[k] != n
    ensures Slice(b, n, lo, hi) == []
    decreases if lo < hi then hi - lo else 0
  {
    if lo < hi {
      SliceNone(b, n, lo + 1, hi);
    }
  }

  lemma StepsCons(b: Body, n: nat, rest: seq<nat>, lo: nat, hi: nat)
    requires rest != []
    ensures Steps(b, [n] + rest, lo, hi) == Slice(b, n, lo, |b.ops|) + Steps(b, rest, 0, hi)
  {
    assert ([n] + rest)[1..] == rest;
  }

  lemma SilentConcat(b: Body, s: seq<nat>, t: seq<nat>, place: PlaceId)
    ensures Silent(b, s + t, place) <==> Silent(b, s, place) && Silent(b, t, place)
  {
    if Silent(b, s + t, place) {
      assert forall i :: 0 <= i < |s| ==> (s + t)[i] == s[i];
      assert forall i :: 0 <= i < |t| ==> (s + t)[|s| + i] == t[i];
    }
  }

  lemma {:induction false} SliceLastWrite(b: Body, n: nat, lo: nat, hi: nat, place: PlaceId) returns (w: nat)
    requires !Silent(b, Slice(b, n, lo, hi), place)
    ensures lo <= w < hi && w < |b.ops| && w in b.block && b.block[w] == n && WritesPlace(b.ops[w], place)
    ensures Silent(b, Slice(b, n, w + 1, hi), place)
    decreases if lo < hi then hi - lo else 0
  {
    var head := if lo in b.block && b.block[lo] == n then [lo] else [];
    SilentConcat(b, head, Slice(b, n, lo + 1, hi), place);
    if Silent(b, Slice(b, n, lo + 1, hi), place) {
      w := lo;
    } else {
      w := SliceLastWrite(b, n, lo + 1, hi, place);
    }
  }

  /** The first block of a path cut at one of its operations. */
  lemma StepsSplit(b: Body, path: seq<nat>, lo: nat, w: nat, at: nat)
    requires path != [] && lo <= w < |b.ops| && w in b.block && b.block[w] == path[0] && (|path| == 1 ==> w < at)
    ensures Steps(b, path, lo, at) == Slice(b, path[0], lo, w) + [w] + Steps(b, path, w + 1, at)
  {
    hide Slice;
    var n := path[0];
    if |path| == 1 {
      SliceSplit(b, n, lo, w, at);
    } else {
      SliceSplit(b, n, lo, w, |b.ops|);
      var tail := Steps(b, path[1..], 0, at);
      assert (Slice(b, n, lo, w) + [w] + Slice(b, n, w + 1, |b.ops|)) + tail ==
             Slice(b, n, lo, w) + [w] + (Slice(b, n, w + 1, |b.ops|) + tail);
    }
  }

  /** The last write on a path cuts it in two: a path up to the write, and one on from it. */
  lemma {:induction false} SplitAtWrite(b: Body, path: seq<nat>, lo: nat, at: nat, place: PlaceId)
    returns (up: seq<nat>, w: nat, on: seq<nat>)
    requires IsPath(b.successors, path) && at in b.block && path[|path| - 1] == b.block[at]
    requires !Silent(b, Steps(b, path, lo, at), place)
    ensures w < |b.ops| && WritesPlace(b.ops[w], place) && LeadsOn(b, w, at, on)
    ensures PathFromTo(b.successors, up, path[0], b.block[w]) && (|up| == 1 ==> lo <= w)
    ensures Steps(b, path, lo, at) == Steps(b, up, lo, w) + [w] + Steps(b, on, w + 1, at)
    ensures Silent(b, Steps(b, on, w + 1, at), place)
    decreases |path|
  {
    hide Slice, Silent;
    var n := path[0];
    if |path| == 1 {
      w := SliceLastWrite(b, n, lo, at, place);
      StepsSplit(b, path, lo, w, at);
      up, on := path, path;
    } else {
      var tail, head := path[1..], Slice(b, n, lo, |b.ops|);
      SilentConcat(b, head, Steps(b, tail, 0, at), place);
      if Silent(b, Steps(b, tail, 0, at), place) {
        w := SliceLastWrite(b, n, lo, |b.ops|, place);
        StepsSplit(b, path, lo, w, at);
        SilentConcat(b, Slice(b, n, w + 1, |b.ops|), Steps(b, tail, 0, at), place);
        up, on := [n], path;
      } else {
        TailIsPath(b.successors, path);
        var later;
        later, w, on := SplitAtWrite(b, tail, 0, at, place);
        up := [n] + later;
        StepsCons(b, n, later, lo, w);
        assert head + (Steps(b, later, 0, w) + [w] + Steps(b, on, w + 1, at)) ==
               (head + Steps(b, later, 0, w)) + [w] + Steps(b, on, w + 1, at);
      }
    }
  }

  lemma TailIsPath(g: Adjacency, path: seq<nat>)
    requires IsPath(g, path) && |path| > 1
    ensures IsPath(g, path[1..]) && Edge(g, path[0], path[1]) && path[1..][|path| - 2] == path[|path| - 1]
  {
  }

  /** A path that leads up to a write and on from it passes the write. */
  lemma {:induction false} JoinAtWrite(b: Body, up: seq<nat>, lo: nat, w: nat, at: nat, on: seq<nat>)
    requires IsPath(b.successors, up) && w < |b.ops| && LeadsOn(b, w, at, on) && up[|up| - 1] == b.block[w]
    requires |up| == 1 ==> lo <= w
    ensures Steps(b, up + on[1..], lo, at) == Steps(b, up, lo, w) + [w] + Steps(b, on, w + 1, at)
    decreases |up|
  {
    hide Slice;
    if |up| == 1 {
      assert up + on[1..] == on;
      StepsSplit(b, on, lo, w, at);
    } else {
      TailIsPath(b.successors, up);
      JoinAtWrite(b, up[1..], 0, w, at, on);
      var head := Slice(b, up[0], lo, |b.ops|);
      assert (up + on[1..])[1..] == up[1..] + on[1..];
      assert head + (Steps(b, up[1..], 0, w) + [w] + Steps(b, on, w + 1, at)) ==
             (head + Steps(b, up[1..], 0, w)) + [w] + Steps(b, on, w + 1, at);
    }
  }

  // ----- the value a place holds on arrival

  lemma OpsAround(b: Body, before: seq<nat>, w: nat, after: seq<nat>)
    requires InBody(b, before + [w] + after)
    ensures InBody(b, before) && w < |b.ops| && InBody(b, after)
    ensures OpsAt(b, before + [w] + after) == OpsAt(b, before) + [b.ops[w]] + OpsAt(b, after)
  {
    var steps := before + [w] + after;
    assert forall i :: 0 <= i < |before| ==> steps[i] == before[i];
    assert steps[|before|] == w;
    assert forall i :: 0 <= i < |after| ==> steps[|before| + 1 + i] == after[i];
  }

  lemma HoldsStored(x: seq<Operation>, op: Operation, y: seq<Operation>, place: PlaceId, result: PlaceId, site: SiteId)
    requires WritesPlace(op, place) && forall i :: 0 <= i < |y| ==> !WritesPlace(y[i], place)
    ensures Execute(x + [op] + y, result, site)(place) == Stored(Execute(x, result, site), op, site)
  {
    hide Execute, Stored, WritesPlace;
    var window := x + [op] + y;
    HoldsLastStored(window, place, result, site);
    assert forall i :: |x| < i < |window| ==> window[i] == y[i - |x| - 1];
    LastWriteIs(window, |x|, place);
    assert window[..|x|] == x;
  }

  /** After the last write the place holds what that stored. */
  lemma HoldsWhatWasStored(b: Body, before: seq<nat>, w: nat, after: seq<nat>, place: PlaceId, result: PlaceId,
                           site: SiteId)
    requires InBody(b, before + [w] + after) && w < |b.ops| && WritesPlace(b.ops[w], place) && Silent(b, after, place)
    ensures InBody(b, before)
    ensures Execute(OpsAt(b, before + [w] + after), result, site)(place) ==
            Stored(Execute(OpsAt(b, before), result, site), b.ops[w], site)
  {
    hide Execute, Stored, WritesPlace;
    OpsAround(b, before, w, after);
    HoldsStored(OpsAt(b, before), b.ops[w], OpsAt(b, after), place, result, site);
  }

  lemma {:induction false} LastWriteIs(window: seq<Operation>, k: nat, place: PlaceId)
    requires k < |window| && WritesPlace(window[k], place)
    requires forall i :: k < i < |window| ==> !WritesPlace(window[i], place)
    ensures LastWrite(window, place) == Some(k)
  {
    if k < |window| - 1 {
      LastWriteIs(window[..|window| - 1], k, place);
    }
  }

  lemma {:induction false} NoLastWrite(window: seq<Operation>, place: PlaceId)
    requires forall i :: 0 <= i < |window| ==> !WritesPlace(window[i], place)
    ensures LastWrite(window, place) == None
  {
    if window != [] {
      NoLastWrite(window[..|window| - 1], place);
    }
  }

  // ----- where a value comes from

  /** The write stores the value of the call itself. */
  predicate Returns(op: Operation, site: SiteId) {
    Attributed(op)
    && match op.kind
       case Call(call, _) => call == site
       case Assign(_, value, _) => value == CallReturn(site)
       case Bind(_, value) => value == CallReturn(site)
       case _ => false
  }

  lemma StoresCopyOrReturn(store: Store, op: Operation, site: SiteId)
    ensures match CopyOf(op)
            case Some(source) => Stored(store, op, site) == store(source)
            case None => Stored(store, op, site) == GuardValue <==> Returns(op, site)
  {
  }

  /** A chain of writes, each reaching the next, that leads back from what `place` holds at
      `at`: each write copies the place the one before it wrote, and the first is no copy
      or copies a place untouched since the start. `fromCall` tells whether that origin is
      the value of the call. */
  ghost predicate TracesBack(b: Body, start: Start, writes: seq<nat>, at: nat, place: PlaceId, result: PlaceId,
                             site: SiteId, fromCall: bool)
    decreases |writes|
  {
    if writes == [] then StartReaches(b, start, at, place) && (fromCall <==> place == result)
    else
      var w, earlier := writes[|writes| - 1], writes[..|writes| - 1];
      WriteReaches(b, start, w, at, place)
      && match CopyOf(b.ops[w])
         case Some(source) => TracesBack(b, start, earlier, w, source, result, site, fromCall)
         case None => earlier == [] && (fromCall <==> Returns(b.ops[w], site))
  }

  /** Some chain leads back to the value of the call, or, with `fromCall` false, to another
      origin. */
  ghost predicate ComesFrom(b: Body, start: Start, at: nat, place: PlaceId, result: PlaceId, site: SiteId,
                            fromCall: bool) {
    exists writes :: TracesBack(b, start, writes, at, place, result, site, fromCall)
  }

  /** What is held after one path traces back along it. */
  lemma {:induction false} TraceOfPath(b: Body, start: Start, path: seq<nat>, at: nat, place: PlaceId, result: PlaceId,
                                       site: SiteId) returns (writes: seq<nat>)
    requires Arrives(b, start, at, path)
    ensures TracesBack(b, start, writes, at, place, result, site,
                       HeldAt(b, start, path, at, place, result, site) == GuardValue)
    decreases |Steps(b, path, From(start), at)|
  {
    hide Slice, Steps, Execute, WritesPlace, Attributed, CopyOf, Returns, Stored;
    var steps := Steps(b, path, From(start), at);
    if Silent(b, steps, place) {
      NoLastWrite(OpsAt(b, steps), place);
      HoldsLastStored(OpsAt(b, steps), place, result, site);
      writes := [];
    } else {
      var up, w, on := WriteOnPath(b, start, path, at, place);
      var before := Steps(b, up, From(start), w);
      HoldsWhatWasStored(b, before, w, Steps(b, on, w + 1, at), place, result, site);
      StoresCopyOrReturn(Execute(OpsAt(b, before), result, site), b.ops[w], site);
      match CopyOf(b.ops[w]) {
        case None =>
          writes := [w];
          assert writes[..0] == [];
        case Some(source) =>
          var earlier := TraceOfPath(b, start, up, w, source, result, site);
          writes := earlier + [w];
          assert writes[..|writes| - 1] == earlier;
      }
    }
  }

  /** The last write on an arriving path reaches, and execution arrives at it. */
  lemma WriteOnPath(b: Body, start: Start, path: seq<nat>, at: nat, place: PlaceId)
    returns (up: seq<nat>, w: nat, on: seq<nat>)
    requires Arrives(b, start, at, path) && !Silent(b, Steps(b, path, From(start), at), place)
    ensures WriteReaches(b, start, w, at, place) && Arrives(b, start, w, up)
    ensures on != [] && Silent(b, Steps(b, on, w + 1, at), place)
    ensures Steps(b, path, From(start), at) == Steps(b, up, From(start), w) + [w] + Steps(b, on, w + 1, at)
  {
    hide Steps, Silent;
    up, w, on := SplitAtWrite(b, path, From(start), at, place);
    var steps := Steps(b, path, From(start), at);
    assert w in steps;
    assert forall s :: s in Steps(b, up, From(start), w) || s in Steps(b, on, w + 1, at) ==> s in steps;
    assert Arrives(b, start, w, up) && LeadsSilently(b, start, w, at, place, on);
  }

  /** Execution goes on from a write at which it arrives. */
  lemma ArriveThrough(b: Body, start: Start, up: seq<nat>, w: nat, at: nat, place: PlaceId)
    returns (path: seq<nat>, on: seq<nat>)
    requires Arrives(b, start, w, up) && WriteReaches(b, start, w, at, place)
    ensures Arrives(b, start, at, path) && on != [] && Silent(b, Steps(b, on, w + 1, at), place)
    ensures Steps(b, path, From(start), at) == Steps(b, up, From(start), w) + [w] + Steps(b, on, w + 1, at)
  {
    hide Steps, Silent, WritesPlace;
    on :| LeadsSilently(b, start, w, at, place, on);
    JoinAtWrite(b, up, From(start), w, at, on);
    PathConcat(b.successors, up, on, up[0], b.block[w], b.block[at]);
    path := up + on[1..];
  }

  /** Along some path the place holds what a chain leads back to. */
  lemma {:induction false} PathOfTrace(b: Body, start: Start, writes: seq<nat>, at: nat, place: PlaceId,
                                       result: PlaceId, site: SiteId, fromCall: bool) returns (path: seq<nat>)
    requires TracesBack(b, start, writes, at, place, result, site, fromCall)
    ensures Arrives(b, start, at, path)
    ensures HeldAt(b, start, path, at, place, result, site) == GuardValue <==> fromCall
    decreases |writes|
  {
    hide Slice, Steps, Execute, WritesPlace, Attributed, CopyOf, Returns, Stored;
    if writes == [] {
      path :| Arrives(b, start, at, path) && Silent(b, Steps(b, path, From(start), at), place);
      NoLastWrite(OpsAt(b, Steps(b, path, From(start), at)), place);
      HoldsLastStored(OpsAt(b, Steps(b, path, From(start), at)), place, result, site);
    } else {
      var w := writes[|writes| - 1];
      var up :| Arrives(b, start, w, up);
      if CopyOf(b.ops[w]).Some? {
        up := PathOfTrace(b, start, writes[..|writes| - 1], w, CopyOf(b.ops[w]).value, result, site, fromCall);
      }
      var on;
      path, on := ArriveThrough(b, start, up, w, at, place);
      var before := Steps(b, up, From(start), w);
      HoldsWhatWasStored(b, before, w, Steps(b, on, w + 1, at), place, result, site);
      StoresCopyOrReturn(Execute(OpsAt(b, before), result, site), b.ops[w], site);
    }
  }

  // ----- the value a place holds on all paths and on some

  ghost predicate OnEveryPath(b: Body, start: Start, at: nat, place: PlaceId, result: PlaceId, site: SiteId) {
    forall path :: Arrives(b, start, at, path) ==> HeldAt(b, start, path, at, place, result, site) == GuardValue
  }

  ghost predicate OnSomePath(b: Body, start: Start, at: nat, place: PlaceId, result: PlaceId, site: SiteId) {
    exists path :: Arrives(b, start, at, path) && HeldAt(b, start, path, at, place, result, site) == GuardValue
  }

  /** The place holds the call's value on every path exactly when no chain leads back to
      another origin. */
  lemma OnEveryPathExactlyWhen(b: Body, start: Start, at: nat, place: PlaceId, result: PlaceId, site: SiteId)
    ensures OnEveryPath(b, start, at, place, result, site) <==>
            !ComesFrom(b, start, at, place, result, site, false)
  {
    hide HeldAt, Steps, TracesBack;
    if !ComesFrom(b, start, at, place, result, site, false) {
      forall path | Arrives(b, start, at, path)
        ensures HeldAt(b, start, path, at, place, result, site) == GuardValue
      {
        var writes := TraceOfPath(b, start, path, at, place, result, site);
      }
    }
    if writes :| TracesBack(b, start, writes, at, place, result, site, false) {
      var path := PathOfTrace(b, start, writes, at, place, result, site, false);
    }
  }

  /** The place holds the call's value on some path exactly when some chain leads back to
      it. */
  lemma OnSomePathExactlyWhen(b: Body, start: Start, at: nat, place: PlaceId, result: PlaceId, site: SiteId)
    ensures OnSomePath(b, start, at, place, result, site) <==>
            ComesFrom(b, start, at, place, result, site, true)
  {
    hide HeldAt, Steps, TracesBack;
    if path :| Arrives(b, start, at, path) && HeldAt(b, start, path, at, place, result, site) == GuardValue {
      var writes := TraceOfPath(b, start, path, at, place, result, site);
    }
    if writes :| TracesBack(b, start, writes, at, place, result, site, true) {
      var path := PathOfTrace(b, start, writes, at, place, result, site, true);
    }
  }

  // ----- what the attribution of single writes tells

  /** The operation at `w` is attributed to the guard. */
  predicate FromGuardAt(b: Body, w: nat, result: PlaceId, site: SiteId) {
    w < |b.ops| && ClassifyWrite(b.ops[w], result, site) == FromGuard
  }

  lemma AttributedCopiesOrReturns(op: Operation, place: PlaceId, result: PlaceId, site: SiteId)
    requires WritesPlace(op, place)
    ensures ClassifyWrite(op, result, site) == FromGuard <==> CopyOf(op) == Some(result) || Returns(op, site)
  {
  }

  /** The value arrives at another place only by an attributed write or by a copy of a place
      other than the result place. */
  lemma ArrivesOnlyBy(b: Body, start: Start, at: nat, place: PlaceId, result: PlaceId, site: SiteId) returns (w: nat)
    requires place != result && OnSomePath(b, start, at, place, result, site)
    ensures WriteReaches(b, start, w, at, place)
    ensures FromGuardAt(b, w, result, site) || (CopyOf(b.ops[w]).Some? && CopyOf(b.ops[w]) != Some(result))
  {
    OnSomePathExactlyWhen(b, start, at, place, result, site);
    hide WriteReaches, StartReaches, OnSomePath;
    var writes :| TracesBack(b, start, writes, at, place, result, site, true);
    w := writes[|writes| - 1];
    WriteReachesWrites(b, start, w, at, place);
    AttributedCopiesOrReturns(b.ops[w], place, result, site);
  }

  /** Neither the start nor a write not attributed to the guard reaches the operation. */
  ghost predicate OnlyAttributedReach(b: Body, start: Start, at: nat, place: PlaceId, result: PlaceId, site: SiteId) {
    (place == result || !StartReaches(b, start, at, place))
    && forall w: nat :: WriteReaches(b, start, w, at, place) ==> FromGuardAt(b, w, result, site)
  }

  /** With an owned result place, it suffices that only attributed writes reach: the engine
      need not look at what else the body copies. */
  lemma AttributedReachSuffices(b: Body, start: Start, at: nat, place: PlaceId, result: PlaceId, site: SiteId)
    requires ResultOwned(b.ops, result, site) && OnlyAttributedReach(b, start, at, place, result, site)
    ensures OnEveryPath(b, start, at, place, result, site)
  {
    OnEveryPathExactlyWhen(b, start, at, place, result, site);
    hide OnEveryPath, WriteReaches, StartReaches;
    forall writes ensures !TracesBack(b, start, writes, at, place, result, site, false) {
      if TracesBack(b, start, writes, at, place, result, site, false) {
        var w := writes[|writes| - 1];
        WriteReachesWrites(b, start, w, at, place);
        AttributedCopiesOrReturns(b.ops[w], place, result, site);
        OwnedTracesToCall(b, start, writes[..|writes| - 1], w, result, site);
      }
    }
  }

  lemma WriteReachesWrites(b: Body, start: Start, w: nat, at: nat, place: PlaceId)
    requires WriteReaches(b, start, w, at, place)
    ensures w < |b.ops| && b.ops[w] in b.ops && WritesPlace(b.ops[w], place)
  {
  }

  /** With an owned result place, a reaching write that is attributed leads back to the
      call. */
  lemma AttributedTracesToCall(b: Body, start: Start, w: nat, at: nat, place: PlaceId, result: PlaceId, site: SiteId)
    requires ResultOwned(b.ops, result, site) && WriteReaches(b, start, w, at, place) && FromGuardAt(b, w, result, site)
    ensures ComesFrom(b, start, at, place, result, site, true)
  {
    var earlier := [];
    if CopyOf(b.ops[w]).Some? {
      var up :| Arrives(b, start, w, up);
      earlier := TraceOfPath(b, start, up, w, result, result, site);
      OwnedTracesToCall(b, start, earlier, w, result, site);
    }
    hide WriteReaches, HeldAt, Arrives;
    AttributedCopiesOrReturns(b.ops[w], place, result, site);
    var writes := earlier + [w];
    assert writes[..|writes| - 1] == earlier;
    assert TracesBack(b, start, writes, at, place, result, site, true);
  }

  /** An owned result place holds nothing but the call's value. */
  lemma OwnedTracesToCall(b: Body, start: Start, writes: seq<nat>, at: nat, result: PlaceId, site: SiteId)
    requires ResultOwned(b.ops, result, site)
    ensures !TracesBack(b, start, writes, at, result, result, site, false)
  {
    hide WriteReaches, StartReaches;
    if TracesBack(b, start, writes, at, result, result, site, false) {
      var w := writes[|writes| - 1];
      WriteReachesWrites(b, start, w, at, result);
      AttributedCopiesOrReturns(b.ops[w], result, result, site);
    }
  }
}
