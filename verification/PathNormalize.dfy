/** Lexical normalisation of repository-relative paths. */
module PathNormalize {
  import opened Options
  import opened Text

  /** Backslashes read as slashes. */
  function Slashes(s: string): (r: string)
    ensures |r| == |s|
  {
    seq(|s|, i requires 0 <= i < |s| => if s[i] == '\\' then '/' else s[i])
  }

  function Segments(path: string): seq<string> {
    Split(Slashes(path), '/')
  }

  predicate IsName(segment: string) {
    segment != "" && segment != "." && segment != ".."
  }

  /** The stack of names after the segments; none when a ".." finds it empty. */
  function Resolve(segments: seq<string>): Option<seq<string>> {
    if segments == [] then Some([])
    else
      match Resolve(segments[..|segments| - 1])
      case None => None
      case Some(stack) =>
        var last := segments[|segments| - 1];
        if last == "" || last == "." then Some(stack)
        else if last != ".." then Some(stack + [last])
        else if stack == [] then None
        else Some(stack[..|stack| - 1])
  }

  function Printed(stack: seq<string>): string {
    if stack == [] then "." else Join(stack, '/')
  }

  ghost function Normalized(path: string): Option<string> {
    match Resolve(Segments(path))
    case None => None
    case Some(stack) => Some(Printed(stack))
  }

  /** The loop that pushes and pops one stack. */
  method NormalizeRepoRelative(path: string) returns (result: Option<string>)
    ensures result == Normalized(path)
  {
    var segments := Segments(path);
    var parts: seq<string> := [];
    for i := 0 to |segments|
      invariant Resolve(segments[..i]) == Some(parts)
    {
      assert segments[..i + 1][..i] == segments[..i];
      var part := segments[i];
      if part == "" || part == "." {
      } else if part == ".." {
        if parts == [] {
          NoneStays(segments, i + 1);
          return None;
        }
        parts := parts[..|parts| - 1];
      } else {
        parts := parts + [part];
      }
    }
    assert segments[..|segments|] == segments;
    return Some(Printed(parts));
  }

  /** Paths that differ only in which of the two separators they use normalise alike. */
  lemma SeparatorsAreAlike(p: string, q: string)
    requires |p| == |q| && forall i :: 0 <= i < |p| ==> p[i] == q[i] || (p[i] in ['/', '\\'] && q[i] in ['/', '\\'])
    ensures Normalized(p) == Normalized(q)
  {
    assert Slashes(p) == Slashes(q);
  }

  lemma {:induction false} NoneStays(segments: seq<string>, k: nat)
    requires k <= |segments| && Resolve(segments[..k]) == None
    ensures Resolve(segments) == None
  {
    var n := |segments|;
    if k == n {
      assert segments[..k] == segments;
    } else {
      assert segments[..n - 1][..k] == segments[..k];
      NoneStays(segments[..n - 1], k);
    }
  }

  // ----- when it fails, and what survives

  function Rise(segment: string): int {
    if IsName(segment) then 1 else if segment == ".." then -1 else 0
  }

  /** How far below the root the segments lead, a negative number being above it. */
  function Depth(segments: seq<string>): int {
    if segments == [] then 0 else Depth(segments[..|segments| - 1]) + Rise(segments[|segments| - 1])
  }

  ghost predicate ClimbsAboveRoot(segments: seq<string>) {
    exists k :: 0 <= k <= |segments| && Depth(segments[..k]) < 0
  }

  /** A segment survives when the path never comes back up to where it was entered. */
  ghost predicate Survives(segments: seq<string>, i: nat) {
    i < |segments| && IsName(segments[i])
    && forall k :: i < k <= |segments| ==> Depth(segments[..k]) > Depth(segments[..i])
  }

  /** The stack lists exactly the surviving segments, in order. */
  ghost predicate ListsSurvivors(segments: seq<string>, stack: seq<string>, at: seq<nat>) {
    && |at| == |stack|
    && (forall j ::
          0 <= j < |at| ==> Survives(segments, at[j]) && stack[j] == segments[at[j]] && Depth(segments[..at[j]]) == j)
    && (forall i, j :: 0 <= i < j < |at| ==> at[i] < at[j])
    && (forall i: nat :: Survives(segments, i) ==> i in at)
  }

  lemma LastSegment(segments: seq<string>)
    requires segments != []
    ensures var n := |segments| - 1;
            && Depth(segments) == Depth(segments[..n]) + Rise(segments[n])
            && (Survives(segments, n) <==> IsName(segments[n]))
            && (forall i: nat :: Survives(segments, i) ==> i <= n)
            && (forall i: nat :: Survives(segments[..n], i) ==> i < n)
  {
    assert segments[..|segments|] == segments;
  }

  /** Up to position `n` the name at `i` has not been left. */
  ghost predicate StaysIn(segments: seq<string>, i: nat, n: nat) {
    i < n <= |segments| && IsName(segments[i])
    && forall k :: i < k <= n ==> Depth(segments[..k]) > Depth(segments[..i])
  }

  lemma SurvivesUpTo(segments: seq<string>, i: nat, n: nat)
    requires i < n <= |segments|
    ensures Survives(segments[..n], i) <==> StaysIn(segments, i, n)
  {
    hide Depth, IsName;
    var init := segments[..n];
    assert init[i] == segments[i];
    forall k | 0 <= k <= n ensures init[..k] == segments[..k] { }
    if Survives(init, i) {
      forall k | i < k <= n ensures Depth(segments[..k]) > Depth(segments[..i]) {
        assert Depth(init[..k]) > Depth(init[..i]);
      }
    }
    if StaysIn(segments, i, n) {
      forall k | i < k <= n ensures Depth(init[..k]) > Depth(init[..i]) {
        assert Depth(segments[..k]) > Depth(segments[..i]);
      }
    }
  }

  lemma StaysLonger(segments: seq<string>, i: nat, n: nat)
    requires i < n < |segments|
    ensures StaysIn(segments, i, n + 1) <==>
            StaysIn(segments, i, n) && Depth(segments[..n + 1]) > Depth(segments[..i])
  {
    hide Depth, IsName;
  }

  /** A segment survives one more exactly when that one does not lead back to it. */
  lemma SurvivesLonger(segments: seq<string>, i: nat)
    requires segments != [] && i < |segments| - 1
    ensures Survives(segments, i) <==> Survives(segments[..|segments| - 1], i) && Depth(segments) > Depth(segments[..i])
  {
    hide Depth, IsName, Survives, StaysIn;
    var n := |segments| - 1;
    assert segments[..n + 1] == segments;
    SurvivesUpTo(segments, i, n);
    SurvivesUpTo(segments, i, n + 1);
    StaysLonger(segments, i, n);
  }

  /** Normalisation fails exactly when some prefix climbs above the root; otherwise
      it keeps exactly the segments whose directory is never left again. */
  lemma {:induction false} ResolveMeaning(segments: seq<string>) returns (at: seq<nat>)
    ensures Resolve(segments) == None <==> ClimbsAboveRoot(segments)
    ensures Resolve(segments).Some? ==> Depth(segments) == |Resolve(segments).value|
    ensures Resolve(segments).Some? ==> ListsSurvivors(segments, Resolve(segments).value, at)
  {
    at := [];
    if segments == [] {
      return;
    }
    var n := |segments| - 1;
    var init, last := segments[..n], segments[n];
    var before := ResolveMeaning(init);
    ClimbsLonger(segments);
    if Resolve(init).Some? && Resolve(segments).Some? {
      var stack := Resolve(init).value;
      at := if IsName(last) then before + [n] else if last == ".." then before[..|before| - 1] else before;
      SurvivorsStep(segments, stack, before, Resolve(segments).value, at);
    }
  }

  lemma ClimbsLonger(segments: seq<string>)
    requires segments != []
    ensures ClimbsAboveRoot(segments) <==> ClimbsAboveRoot(segments[..|segments| - 1]) || Depth(segments) < 0
  {
    hide Depth;
    var n := |segments| - 1;
    var init := segments[..n];
    assert segments[..n + 1] == segments;
    forall k | 0 <= k <= n ensures init[..k] == segments[..k] { }
    if ClimbsAboveRoot(segments) {
      var k :| 0 <= k <= n + 1 && Depth(segments[..k]) < 0;
      if k <= n { assert Depth(init[..k]) < 0; }
    }
    if ClimbsAboveRoot(init) {
      var k :| 0 <= k <= n && Depth(init[..k]) < 0;
      assert Depth(segments[..k]) < 0;
    }
  }

  lemma SurvivorsStep(segments: seq<string>, stack: seq<string>, before: seq<nat>, stack': seq<string>, at: seq<nat>)
    requires segments != []
    requires var n := |segments| - 1; var last := segments[n];
             && Depth(segments[..n]) == |stack| && ListsSurvivors(segments[..n], stack, before)
             && if IsName(last) then stack' == stack + [last] && at == before + [n]
                else if last == ".." then stack != [] && stack' == stack[..|stack| - 1] && at == before[..|before| - 1]
                else stack' == stack && at == before
    ensures ListsSurvivors(segments, stack', at)
  {
    hide Survives, Depth;
    var n := |segments| - 1;
    var init := segments[..n];
    LastSegment(segments);
    forall i: nat | i < n
      ensures Survives(segments, i) <==> Survives(init, i) && Depth(segments) > Depth(segments[..i]) {
      SurvivesLonger(segments, i);
    }
    assert forall i: nat :: i < n ==> init[..i] == segments[..i] && init[i] == segments[i];
    forall j | 0 <= j < |at|
      ensures Survives(segments, at[j]) && stack'[j] == segments[at[j]] && Depth(segments[..at[j]]) == j
    {
      if j < |before| {
        assert Survives(init, before[j]) && Depth(init[..before[j]]) == j;
      }
    }
    forall i: nat | Survives(segments, i) ensures i in at {
      if i < n {
        assert i in before;
        var j :| 0 <= j < |before| && before[j] == i;
        assert Depth(init[..before[j]]) == j;
        assert at[j] == i;
      } else {
        assert at[|at| - 1] == n;
      }
    }
  }

  // ----- printing and reading back

  lemma {:induction false} ResolveConcat(a: seq<string>, c: seq<string>, b: seq<string>)
    requires Resolve(a) == Resolve(c)
    ensures Resolve(a + b) == Resolve(c + b)
  {
    if b == [] {
      assert a + b == a && c + b == c;
    } else {
      assert (a + b)[..|a + b| - 1] == a + b[..|b| - 1] && (c + b)[..|c + b| - 1] == c + b[..|b| - 1];
      ResolveConcat(a, c, b[..|b| - 1]);
    }
  }

  ghost predicate Clean(stack: seq<string>) {
    forall i :: 0 <= i < |stack| ==> IsName(stack[i]) && '/' !in stack[i] && '\\' !in stack[i]
  }

  lemma {:induction false} CleanResolves(stack: seq<string>)
    requires Clean(stack)
    ensures Resolve(stack) == Some(stack)
  {
    if stack != [] {
      CleanResolves(stack[..|stack| - 1]);
      assert stack == stack[..|stack| - 1] + [stack[|stack| - 1]];
    }
  }

  lemma {:induction false} ResolveIsClean(segments: seq<string>)
    requires forall i :: 0 <= i < |segments| ==> '/' !in segments[i] && '\\' !in segments[i]
    ensures Resolve(segments).Some? ==> Clean(Resolve(segments).value)
  {
    if segments != [] {
      ResolveIsClean(segments[..|segments| - 1]);
    }
  }

  lemma {:induction false} SplitKeepsOut(s: string, sep: char, c: char)
    requires c !in s
    ensures forall i :: 0 <= i < |Split(s, sep)| ==> c !in Split(s, sep)[i]
  {
    if s != [] {
      SplitKeepsOut(s[1..], sep, c);
    }
  }

  lemma {:induction false} JoinKeepsOut(parts: seq<string>, sep: char, c: char)
    requires c != sep && forall i :: 0 <= i < |parts| ==> c !in parts[i]
    ensures c !in Join(parts, sep)
  {
    if |parts| > 1 {
      JoinKeepsOut(parts[1..], sep, c);
    }
  }

  lemma PathIsClean(path: string)
    ensures Resolve(Segments(path)).Some? ==> Clean(Resolve(Segments(path)).value)
  {
    SplitHasNoSeparator(Slashes(path), '/');
    assert '\\' !in Slashes(path);
    SplitKeepsOut(Slashes(path), '/', '\\');
    ResolveIsClean(Segments(path));
  }

  /** A printed stack resolves to itself. */
  lemma PrintedResolves(stack: seq<string>)
    requires Clean(stack)
    ensures '\\' !in Printed(stack)
    ensures Segments(Printed(stack)) == if stack == [] then ["."] else stack
    ensures Resolve(Segments(Printed(stack))) == Some(stack)
  {
    var printed := Printed(stack);
    if stack == [] {
      SplitWhole(".", '/');
      assert ["."][..0] == [];
      assert Slashes(printed) == ".";
    } else {
      JoinKeepsOut(stack, '/', '\\');
      assert Slashes(printed) == printed;
      SplitJoin(stack, '/');
      CleanResolves(stack);
    }
  }

  /** The normal form is "." or a list of plain names joined by slashes. */
  lemma NormalForm(path: string)
    ensures match Normalized(path)
            case None => ClimbsAboveRoot(Segments(path))
            case Some(r) =>
              && !ClimbsAboveRoot(Segments(path))
              && (r == "." || (Clean(Split(r, '/')) && |Split(r, '/')| == Depth(Segments(path))))
              && (r == "." <==> Depth(Segments(path)) == 0)
  {
    var _ := ResolveMeaning(Segments(path));
    PathIsClean(path);
    if Normalized(path).Some? {
      var stack := Resolve(Segments(path)).value;
      PrintedResolves(stack);
      if stack != [] {
        SplitJoin(stack, '/');
        SplitWhole(".", '/');
      }
    }
  }

  lemma Idempotent(path: string)
    ensures Normalized(path).Some? ==> Normalized(Normalized(path).value) == Normalized(path)
  {
    PathIsClean(path);
    if Normalized(path).Some? {
      PrintedResolves(Resolve(Segments(path)).value);
    }
  }

  /** Two paths get one normal form exactly when they resolve to one place. */
  lemma SameFormSamePlace(p: string, q: string)
    ensures Normalized(p) == Normalized(q) <==> Resolve(Segments(p)) == Resolve(Segments(q))
  {
    PathIsClean(p);
    PathIsClean(q);
    if Normalized(p).Some? && Normalized(p) == Normalized(q) {
      PrintedResolves(Resolve(Segments(p)).value);
      PrintedResolves(Resolve(Segments(q)).value);
    }
  }

  lemma SegmentsOfJoin(a: string, b: string)
    ensures Segments(a + "/" + b) == Segments(a) + Segments(b)
  {
    assert Slashes(a + "/" + b) == Slashes(a) + ['/'] + Slashes(b);
    SplitConcat(Slashes(a), '/', Slashes(b));
  }

  /** The first half of a joined path may be normalised beforehand. */
  lemma NormalizeJoin(a: string, b: string)
    ensures match Normalized(a)
            case None => Normalized(a + "/" + b) == None
            case Some(r) => Normalized(a + "/" + b) == Normalized(r + "/" + b)
  {
    SegmentsOfJoin(a, b);
    PathIsClean(a);
    match Resolve(Segments(a)) {
      case None =>
        assert (Segments(a) + Segments(b))[..|Segments(a)|] == Segments(a);
        NoneStays(Segments(a) + Segments(b), |Segments(a)|);
      case Some(stack) =>
        PrintedResolves(stack);
        SegmentsOfJoin(Printed(stack), b);
        ResolveConcat(Segments(a), Segments(Printed(stack)), Segments(b));
    }
  }
}
