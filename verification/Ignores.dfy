/** Ignore directives, what each suppresses, and the pairing of block starts with
    block ends. */
module Ignores {
  import opened Options

  datatype Kind = LineKind | NextLineKind | StartKind | EndKind | FileKind

  datatype Target = LineTarget(line: nat) | FileTarget | RangeTarget(first: nat, last: nat)

  datatype IgnoredDiagnostic = IgnoredDiagnostic(rule: string, fingerprint: string, file: string, startLine: nat)

  datatype Directive = Directive(
    file: string, line: nat, column: nat, kind: Kind, selectors: seq<string>, reason: Option<string>,
    target: Option<Target>, problem: Option<string>, missingReason: bool, suppressed: seq<IgnoredDiagnostic>)

  const NO_START := "ignore end has no matching ignore start with the same selectors"
  const NO_END := "ignore start has no matching ignore end"

  type BlockKey = (string, seq<string>)

  function KeyOf(d: Directive): BlockKey {
    (d.file, d.selectors)
  }

  /** Directives belong to one block only in one file and with the same selectors. */
  lemma KeyExactlyWhen(d: Directive, e: Directive)
    ensures KeyOf(d) == KeyOf(e) <==> d.file == e.file && d.selectors == e.selectors
  {
  }

  // ----- brackets

  predicate Opens(ds: seq<Directive>, key: BlockKey, i: int) {
    0 <= i < |ds| && ds[i].kind.StartKind? && ds[i].problem.None? && KeyOf(ds[i]) == key
  }

  predicate Closes(ds: seq<Directive>, key: BlockKey, i: int) {
    0 <= i < |ds| && ds[i].kind.EndKind? && ds[i].problem.None? && KeyOf(ds[i]) == key
  }

  function Delta(ds: seq<Directive>, key: BlockKey, k: nat): int {
    if Opens(ds, key, k) then 1 else if Closes(ds, key, k) then -1 else 0
  }

  /** Starts minus ends of one key after position `i` and before `m`. */
  function Since(ds: seq<Directive>, key: BlockKey, i: nat, m: nat): int
    requires i < m <= |ds|
  {
    if m == i + 1 then 0 else Since(ds, key, i, m - 1) + Delta(ds, key, m - 1)
  }

  /** No end before `n` closes the start at `i`. */
  ghost predicate StaysOpen(ds: seq<Directive>, key: BlockKey, i: nat, n: nat) {
    i < n <= |ds| && forall m :: i < m <= n ==> Since(ds, key, i, m) >= 0
  }

  /** Bracket matching: a start and a later end of its key with a balanced stretch
      between them. */
  ghost predicate Matches(ds: seq<Directive>, i: nat, j: nat) {
    i < j < |ds| && var key := KeyOf(ds[i]);
    Opens(ds, key, i) && Closes(ds, key, j) && StaysOpen(ds, key, i, j) && Since(ds, key, i, j) == 0
  }

  lemma {:induction false} SinceSplits(ds: seq<Directive>, key: BlockKey, i: nat, k: nat, m: nat)
    requires i < k < m <= |ds|
    ensures Since(ds, key, i, m) == Since(ds, key, i, k) + Delta(ds, key, k) + Since(ds, key, k, m)
  {
    if k + 1 < m {
      SinceSplits(ds, key, i, k, m - 1);
    }
  }

  lemma NotOpenBeyondMatch(ds: seq<Directive>, i: nat, j: nat, n: nat)
    requires Matches(ds, i, j) && j < n
    ensures !StaysOpen(ds, KeyOf(ds[i]), i, n)
  {
    assert Since(ds, KeyOf(ds[i]), i, j + 1) == -1;
  }

  lemma MatchUnique(ds: seq<Directive>, i: nat, j: nat, j': nat)
    requires Matches(ds, i, j) && Matches(ds, i, j')
    ensures j == j'
  {
    if j < j' {
      NotOpenBeyondMatch(ds, i, j, j');
    } else if j' < j {
      NotOpenBeyondMatch(ds, i, j', j);
    }
  }

  /** No two starts share an end. */
  lemma MatchUniqueStart(ds: seq<Directive>, i: nat, i': nat, j: nat)
    requires Matches(ds, i, j) && Matches(ds, i', j)
    ensures i == i'
  {
    if i < i' {
      BlocksNest(ds, i, j, i', j);
    } else if i' < i {
      BlocksNest(ds, i', j, i, j);
    }
  }

  /** Blocks of one key are nested or disjoint. */
  lemma BlocksNest(ds: seq<Directive>, i: nat, j: nat, i': nat, j': nat)
    requires Matches(ds, i, j) && Matches(ds, i', j') && KeyOf(ds[i]) == KeyOf(ds[i']) && i < i'
    ensures j < i' || j' < j
  {
    var key := KeyOf(ds[i]);
    if i' < j {
      SinceSplits(ds, key, i, i', j);
      SinceSplits(ds, key, i, i', j + 1);
    }
  }

  // ----- the stack of open starts

  /** The starts of one key still open after the first `n` directives. */
  function OpenStack(ds: seq<Directive>, key: BlockKey, n: nat): (s: seq<nat>)
    requires n <= |ds|
  {
    if n == 0 then []
    else
      var s := OpenStack(ds, key, n - 1);
      if Opens(ds, key, n - 1) then s + [n - 1]
      else if Closes(ds, key, n - 1) && s != [] then s[..|s| - 1]
      else s
  }

  /** Entry `p` of a stack: an open start, as deep as the stack above it is high. */
  ghost predicate StackEntry(ds: seq<Directive>, key: BlockKey, n: nat, s: seq<nat>, p: nat) {
    p < |s| && s[p] < n <= |ds| && Opens(ds, key, s[p]) && StaysOpen(ds, key, s[p], n)
      && Since(ds, key, s[p], n) == |s| - 1 - p
  }

  /** The stack holds exactly the starts that stay open, innermost last, and each
      stands as deep as the stack above it is high. */
  lemma {:induction false} StackIsOpenStarts(ds: seq<Directive>, key: BlockKey, n: nat)
    requires n <= |ds|
    ensures forall p :: 0 <= p < |OpenStack(ds, key, n)| ==> StackEntry(ds, key, n, OpenStack(ds, key, n), p)
    ensures forall i: nat :: i < n && Opens(ds, key, i) && StaysOpen(ds, key, i, n) ==> i in OpenStack(ds, key, n)
  {
    if n > 0 {
      StackIsOpenStarts(ds, key, n - 1);
      var before, s := OpenStack(ds, key, n - 1), OpenStack(ds, key, n);
      forall p | 0 <= p < |s| ensures StackEntry(ds, key, n, s, p) {
        if p < |before| {
          assert StackEntry(ds, key, n - 1, before, p) && s[p] == before[p];
          assert Since(ds, key, s[p], n) == Since(ds, key, s[p], n - 1) + Delta(ds, key, n - 1);
        }
      }
      forall i: nat | i < n && Opens(ds, key, i) && StaysOpen(ds, key, i, n) ensures i in s {
        if i == n - 1 {
          assert s[|s| - 1] == i;
        } else {
          assert StaysOpen(ds, key, i, n - 1);
          var p :| 0 <= p < |before| && before[p] == i;
          assert StackEntry(ds, key, n - 1, before, p);
          assert Since(ds, key, i, n) == Since(ds, key, i, n - 1) + Delta(ds, key, n - 1);
          assert p < |s| && s[p] == i;
        }
      }
    }
  }

  /** The end at `n` matches the innermost open start, and nothing if none is open. */
  lemma EndMatchesTop(ds: seq<Directive>, key: BlockKey, n: nat)
    requires n < |ds| && Closes(ds, key, n)
    ensures var s := OpenStack(ds, key, n);
            forall i: nat :: Matches(ds, i, n) <==> s != [] && i == s[|s| - 1]
  {
    StackIsOpenStarts(ds, key, n);
    var s := OpenStack(ds, key, n);
    if s != [] {
      assert StackEntry(ds, key, n, s, |s| - 1);
    }
    forall i: nat | Matches(ds, i, n) ensures s != [] && i == s[|s| - 1] {
      assert KeyOf(ds[i]) == key && StaysOpen(ds, key, i, n) && i in s;
      var p :| 0 <= p < |s| && s[p] == i;
      assert StackEntry(ds, key, n, s, p);
    }
  }

  /** A start is on the final stack exactly when no end matches it. */
  lemma LeftOpenIffUnmatched(ds: seq<Directive>, i: nat)
    requires i < |ds| && Opens(ds, KeyOf(ds[i]), i)
    ensures i in OpenStack(ds, KeyOf(ds[i]), |ds|) <==> forall j: nat :: !Matches(ds, i, j)
  {
    var key := KeyOf(ds[i]);
    StackIsOpenStarts(ds, key, |ds|);
    if i in OpenStack(ds, key, |ds|) {
      var p :| 0 <= p < |OpenStack(ds, key, |ds|)| && OpenStack(ds, key, |ds|)[p] == i;
      assert StackEntry(ds, key, |ds|, OpenStack(ds, key, |ds|), p);
      forall j: nat | Matches(ds, i, j) ensures false {
        NotOpenBeyondMatch(ds, i, j, |ds|);
      }
    } else {
      var j := FirstClosing(ds, key, i, |ds|);
      assert Matches(ds, i, j);
    }
  }

  lemma {:induction false} FirstClosing(ds: seq<Directive>, key: BlockKey, i: nat, n: nat) returns (j: nat)
    requires i < n <= |ds| && !StaysOpen(ds, key, i, n)
    ensures i < j < n && Closes(ds, key, j) && StaysOpen(ds, key, i, j) && Since(ds, key, i, j) == 0
  {
    var m :| i < m <= n && Since(ds, key, i, m) < 0;
    if StaysOpen(ds, key, i, n - 1) {
      assert m == n && Since(ds, key, i, n - 1) >= 0;
      j := n - 1;
    } else {
      assert n - 1 != i;
      j := FirstClosing(ds, key, i, n - 1);
    }
  }

  // ----- pairing in place

  /** The end among the first `n` directives that matches the start at `i`. */
  ghost function MatchOf(ds: seq<Directive>, i: nat, n: nat): (r: Option<nat>)
    ensures r.Some? ==> r.value < n && Matches(ds, i, r.value)
    ensures r.None? ==> forall j: nat :: j < n ==> !Matches(ds, i, j)
  {
    if j: nat :| j < n && Matches(ds, i, j) then Some(j) else None
  }

  /** A directive once the first `n` were looked at: a matched start covers the
      lines strictly inside its block, an end that closes nothing is malformed. */
  ghost function PairedUpTo(ds: seq<Directive>, i: nat, n: nat): Directive
    requires i < |ds|
  {
    var d := ds[i];
    if Opens(ds, KeyOf(d), i) && MatchOf(ds, i, n).Some? && MatchOf(ds, i, n).value < |ds| then
      var end := ds[MatchOf(ds, i, n).value];
      d.(target := Some(RangeTarget(d.line + 1, if end.line == 0 then 0 else end.line - 1)))
    else if i < n && Closes(ds, KeyOf(d), i) && (forall k: nat :: !Matches(ds, k, i)) then d.(problem := Some(NO_START))
    else d
  }

  /** The outcome of pairing: in addition a start that no end matches is malformed
      and covers nothing. */
  ghost function Paired(ds: seq<Directive>, i: nat): Directive
    requires i < |ds|
  {
    if Opens(ds, KeyOf(ds[i]), i) && MatchOf(ds, i, |ds|).None? then ds[i].(target := None, problem := Some(NO_END))
    else PairedUpTo(ds, i, |ds|)
  }

  function StackOf(stack: map<BlockKey, seq<nat>>, key: BlockKey): seq<nat> {
    if key in stack then stack[key] else []
  }

  lemma MatchOfGrows(ds: seq<Directive>, i: nat, n: nat)
    requires n < |ds| && !Matches(ds, i, n)
    ensures MatchOf(ds, i, n + 1) == MatchOf(ds, i, n)
  {
    var a, b := MatchOf(ds, i, n), MatchOf(ds, i, n + 1);
    if a.Some? && b.Some? {
      MatchUnique(ds, i, a.value, b.value);
    }
  }

  lemma MatchOfFound(ds: seq<Directive>, i: nat, j: nat, n: nat)
    requires Matches(ds, i, j) && j < n
    ensures MatchOf(ds, i, n) == Some(j)
  {
    MatchUnique(ds, i, j, MatchOf(ds, i, n).value);
  }

  /** What looking at directive `n` makes of directive `i`: the start it closes
      gets its range, and an end that closes nothing its problem. */
  ghost function AfterOne(ds: seq<Directive>, n: nat, i: nat): Directive
    requires n < |ds| && i < |ds|
  {
    var s := OpenStack(ds, KeyOf(ds[n]), n);
    if Closes(ds, KeyOf(ds[n]), n) && s != [] && i == s[|s| - 1] then
      ds[i].(target := Some(RangeTarget(ds[i].line + 1, if ds[n].line == 0 then 0 else ds[n].line - 1)))
    else if Closes(ds, KeyOf(ds[n]), n) && s == [] && i == n then ds[n].(problem := Some(NO_START))
    else PairedUpTo(ds, i, n)
  }

  lemma PairStep(ds: seq<Directive>, n: nat, i: nat)
    requires n < |ds| && i < |ds|
    ensures PairedUpTo(ds, i, n + 1) == AfterOne(ds, n, i)
  {
    var key := KeyOf(ds[n]);
    var s := OpenStack(ds, key, n);
    if Closes(ds, key, n) {
      EndMatchesTop(ds, key, n);
      assert s != [] ==> Matches(ds, s[|s| - 1], n);
    }
    if Matches(ds, i, n) {
      MatchOfFound(ds, i, n, n + 1);
    } else {
      MatchOfGrows(ds, i, n);
    }
  }

  ghost predicate PairedSoFar(a: seq<Directive>, ds: seq<Directive>, n: nat) {
    |a| == |ds| && forall i :: 0 <= i < |ds| ==> a[i] == PairedUpTo(ds, i, n)
  }

  ghost predicate StacksOpen(stack: map<BlockKey, seq<nat>>, ds: seq<Directive>, n: nat) {
    n <= |ds| && forall key :: StackOf(stack, key) == OpenStack(ds, key, n)
  }

  /** What looking at directive `n`, with the stack of its key, makes of all of them. */
  function Looked(a: seq<Directive>, n: nat, s: seq<nat>): seq<Directive>
    requires n < |a| && (s != [] ==> s[|s| - 1] < n)
    ensures |Looked(a, n, s)| == |a|
  {
    if a[n].problem.Some? || !a[n].kind.EndKind? then a
    else if s == [] then a[n := a[n].(problem := Some(NO_START))]
    else
      var start := s[|s| - 1];
      a[start := a[start].(
          target := Some(RangeTarget(a[start].line + 1, if a[n].line == 0 then 0 else a[n].line - 1)))]
  }

  lemma PairSoFarStep(a: seq<Directive>, ds: seq<Directive>, n: nat, s: seq<nat>)
    requires n < |ds| && PairedSoFar(a, ds, n) && s == OpenStack(ds, KeyOf(ds[n]), n)
    ensures s != [] ==> s[|s| - 1] < n
    ensures PairedSoFar(Looked(a, n, s), ds, n + 1)
  {
    hide PairedUpTo, OpenStack, Looked, AfterOne;
    TopIsUntouched(ds, n);
    forall i: nat | i < |ds| ensures Looked(a, n, s)[i] == PairedUpTo(ds, i, n + 1) {
      LookedAt(a, ds, n, s, i);
      PairStep(ds, n, i);
    }
  }

  lemma LookedAt(a: seq<Directive>, ds: seq<Directive>, n: nat, s: seq<nat>, i: nat)
    requires n < |ds| && s == OpenStack(ds, KeyOf(ds[n]), n) && i < |ds|
    requires |a| == |ds| && a[n] == ds[n] && a[i] == PairedUpTo(ds, i, n)
    requires s != [] ==> s[|s| - 1] < n && a[s[|s| - 1]] == ds[s[|s| - 1]]
    ensures Looked(a, n, s)[i] == AfterOne(ds, n, i)
  {
    hide PairedUpTo, OpenStack;
    if Closes(ds, KeyOf(ds[n]), n) {
      if s != [] {
        var start := s[|s| - 1];
        assert i != start ==> Looked(a, n, s)[i] == a[i];
      }
    } else {
      assert Looked(a, n, s) == a;
    }
  }

  lemma TopIsUntouched(ds: seq<Directive>, n: nat)
    requires n < |ds|
    ensures PairedUpTo(ds, n, n) == ds[n]
    ensures var s := OpenStack(ds, KeyOf(ds[n]), n);
            s != [] ==> s[|s| - 1] < n && PairedUpTo(ds, s[|s| - 1], n) == ds[s[|s| - 1]]
  {
    var key := KeyOf(ds[n]);
    var s := OpenStack(ds, key, n);
    StackIsOpenStarts(ds, key, n);
    if s != [] {
      var top := s[|s| - 1];
      assert StackEntry(ds, key, n, s, |s| - 1);
      if MatchOf(ds, top, n).Some? {
        NotOpenBeyondMatch(ds, top, MatchOf(ds, top, n).value, n);
      }
    }
  }

  lemma NextIsUntouched(a: seq<Directive>, stack: map<BlockKey, seq<nat>>, ds: seq<Directive>, n: nat)
    requires n < |ds| && PairedSoFar(a, ds, n) && StacksOpen(stack, ds, n)
    ensures |a| == |ds| && a[n] == ds[n] && StackOf(stack, KeyOf(ds[n])) == OpenStack(ds, KeyOf(ds[n]), n)
  {
    TopIsUntouched(ds, n);
  }

  /** The stack machine, updating the directives in place. */
  method PairBlocks(a: array<Directive>)
    modifies a
    ensures forall i :: 0 <= i < a.Length ==> a[i] == Paired(old(a[..]), i)
  {
    hide PairedSoFar, StacksOpen, OpenStack, Paired;
    ghost var ds := a[..];
    var stack: map<BlockKey, seq<nat>> := map[];
    NothingPaired(ds);
    for n := 0 to a.Length
      invariant PairedSoFar(a[..], ds, n)
      invariant StacksOpen(stack, ds, n)
    {
      ghost var before, stack0 := a[..], stack;
      NextIsUntouched(before, stack, ds, n);
      var key := KeyOf(a[n]);
      PairSoFarStep(before, ds, n, StackOf(stack, key));
      if a[n].problem.None? && a[n].kind.StartKind? {
        stack := stack[key := StackOf(stack, key) + [n]];
      } else if a[n].problem.None? && a[n].kind.EndKind? {
        var s := StackOf(stack, key);
        if s != [] {
          var start := s[|s| - 1];
          a[start] := a[start].(
            target := Some(RangeTarget(a[start].line + 1, if a[n].line == 0 then 0 else a[n].line - 1)));
          stack := stack[key := s[..|s| - 1]];
        } else {
          a[n] := a[n].(problem := Some(NO_START));
        }
      }
      assert a[..] == Looked(before, n, StackOf(stack0, key));
      StacksStep(stack0, stack, ds, n);
    }
    MarkLeftOpen(a, stack, ds);
  }

  lemma StacksStep(stack: map<BlockKey, seq<nat>>, stack': map<BlockKey, seq<nat>>, ds: seq<Directive>, n: nat)
    requires n < |ds| && StacksOpen(stack, ds, n)
    requires var key := KeyOf(ds[n]);
             var s := StackOf(stack, key);
             stack' == if Opens(ds, key, n) then stack[key := s + [n]]
                       else if Closes(ds, key, n) && s != [] then stack[key := s[..|s| - 1]]
                       else stack
    ensures StacksOpen(stack', ds, n + 1)
  {
    forall key ensures StackOf(stack', key) == OpenStack(ds, key, n + 1) {
      assert StackOf(stack, key) == OpenStack(ds, key, n);
    }
  }

  lemma NothingPaired(ds: seq<Directive>)
    ensures PairedSoFar(ds, ds, 0) && StacksOpen(map[], ds, 0)
  {
  }

  /** The starts left on the given stacks. */
  ghost function LeftOn(stack: map<BlockKey, seq<nat>>, keys: set<BlockKey>): set<nat> {
    set key, k | key in keys && key in stack && 0 <= k < |stack[key]| :: stack[key][k]
  }

  lemma LeftAreStarts(stack: map<BlockKey, seq<nat>>, ds: seq<Directive>, i: nat)
    requires StacksOpen(stack, ds, |ds|)
    ensures i in LeftOn(stack, stack.Keys) <==> i < |ds| && Opens(ds, KeyOf(ds[i]), i) && MatchOf(ds, i, |ds|).None?
  {
    if i in LeftOn(stack, stack.Keys) {
      var key, k :| key in stack && 0 <= k < |stack[key]| && stack[key][k] == i;
      assert StackOf(stack, key) == OpenStack(ds, key, |ds|);
      StackIsOpenStarts(ds, key, |ds|);
      assert StackEntry(ds, key, |ds|, OpenStack(ds, key, |ds|), k);
      LeftOpenIffUnmatched(ds, i);
    }
    if i < |ds| && Opens(ds, KeyOf(ds[i]), i) && MatchOf(ds, i, |ds|).None? {
      LeftOpenIffUnmatched(ds, i);
      var key := KeyOf(ds[i]);
      assert StackOf(stack, key) == OpenStack(ds, key, |ds|);
      var k :| 0 <= k < |stack[key]| && stack[key][k] == i;
    }
  }

  /** Marks every start still on a stack as malformed. */
  method MarkLeftOpen(a: array<Directive>, stack: map<BlockKey, seq<nat>>, ghost ds: seq<Directive>)
    requires PairedSoFar(a[..], ds, |ds|) && StacksOpen(stack, ds, |ds|)
    modifies a
    ensures |ds| == a.Length && forall i :: 0 <= i < a.Length ==> a[i] == Paired(ds, i)
  {
    hide StacksOpen, MatchOf;
    assert forall i :: 0 <= i < a.Length ==> a[..][i] == a[i] == PairedUpTo(ds, i, |ds|);
    forall i: nat { LeftAreStarts(stack, ds, i); }
    var keys := stack.Keys;
    ghost var done: set<nat> := {};
    while keys != {}
      invariant keys <= stack.Keys && |ds| == a.Length
      invariant done == LeftOn(stack, stack.Keys - keys)
      invariant forall i :: 0 <= i < a.Length ==>
          a[i] == if i in done then ds[i].(target := None, problem := Some(NO_END)) else PairedUpTo(ds, i, |ds|)
    {
      var key :| key in keys;
      var indices := stack[key];
      ghost var done0 := done;
      for k := 0 to |indices|
        invariant forall i :: i in done <==> i in done0 || i in indices[..k]
        invariant forall i :: 0 <= i < a.Length ==>
            a[i] == if i in done then ds[i].(target := None, problem := Some(NO_END)) else PairedUpTo(ds, i, |ds|)
      {
        var i := indices[k];
        assert i in LeftOn(stack, stack.Keys);
        assert indices[..k + 1] == indices[..k] + [i];
        a[i] := a[i].(target := None, problem := Some(NO_END));
        done := done + {i};
      }
      assert indices[..|indices|] == indices;
      keys := keys - {key};
      assert done == LeftOn(stack, stack.Keys - keys);
    }
    assert stack.Keys - keys == stack.Keys;
  }

  // ----- what pairing guarantees

  /** A start that is left unpaired, an end that closes nothing, and every
      directive that was malformed before: each ends malformed, and a directive
      that is none of these is not touched. */
  lemma UnpairedAreMalformed(ds: seq<Directive>, i: nat)
    requires i < |ds|
    ensures Paired(ds, i).problem.Some? <==>
            ds[i].problem.Some?
            || (ds[i].kind.StartKind? && forall j: nat :: !Matches(ds, i, j))
            || (ds[i].kind.EndKind? && forall k: nat :: !Matches(ds, k, i))
    ensures ds[i].problem.Some? || !(ds[i].kind.StartKind? || ds[i].kind.EndKind?) ==> Paired(ds, i) == ds[i]
  {
  }
}
