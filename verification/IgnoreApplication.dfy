/** Applying ignore directives to diagnostics, and reporting on the directives. */
module IgnoreApplication {
  import opened Options
  import opened Ignores

  datatype Diagnostic = Diagnostic(rule: string, fingerprint: string, file: string, startLine: nat)

  predicate RuleMatches(pattern: string, rule: string) {
    if pattern == "*" then true
    else if |pattern| >= 2 && pattern[|pattern| - 2..] == "/*" then pattern[..|pattern| - 1] <= rule
    else pattern == rule
  }

  predicate IsPolicy(rule: string) {
    !("parser/" <= rule) && !("internal/" <= rule) && !("polint/" <= rule)
  }

  predicate InTarget(target: Option<Target>, line: nat) {
    match target
    case None => false
    case Some(LineTarget(l)) => line == l
    case Some(FileTarget) => true
    case Some(RangeTarget(first, last)) => first <= line <= last
  }

  predicate Suppresses(d: Directive, diagnostic: Diagnostic) {
    d.problem.None? && !d.kind.EndKind?
    && diagnostic.file == d.file && IsPolicy(diagnostic.rule)
    && (exists i :: 0 <= i < |d.selectors| && RuleMatches(d.selectors[i], diagnostic.rule))
    && InTarget(d.target, diagnostic.startLine)
  }

  /** A malformed directive suppresses nothing, and neither does an unpaired start
      or an end. */
  lemma MalformedSuppressNothing(ds: seq<Directive>, i: nat, diagnostic: Diagnostic)
    requires i < |ds|
    requires ds[i].kind.EndKind? || ds[i].problem.Some? || (ds[i].kind.StartKind?
      && forall j: nat :: !Matches(ds, i, j))
    ensures !Suppresses(Paired(ds, i), diagnostic)
  {
  }

  /** A paired start suppresses the diagnostics of its selectors strictly between
      the lines of its start and its end. */
  lemma PairedStartSuppressesInside(ds: seq<Directive>, i: nat, j: nat, diagnostic: Diagnostic)
    requires Matches(ds, i, j)
    ensures Suppresses(Paired(ds, i), diagnostic) <==>
            diagnostic.file == ds[i].file && IsPolicy(diagnostic.rule)
            && (exists k :: 0 <= k < |ds[i].selectors| && RuleMatches(ds[i].selectors[k], diagnostic.rule))
            && ds[i].line < diagnostic.startLine < ds[j].line
  {
    MatchOfFound(ds, i, j, |ds|);
  }

  // ----- the suppression pass

  /** The first directive that suppresses a diagnostic. */
  function FirstSuppressor(ds: seq<Directive>, diagnostic: Diagnostic): Option<nat> {
    if ds == [] then None
    else
      var n := |ds| - 1;
      match FirstSuppressor(ds[..n], diagnostic)
      case Some(k) => Some(k)
      case None => if Suppresses(ds[n], diagnostic) then Some(n) else None
  }

  lemma {:induction false} FirstSuppressorIsFirst(ds: seq<Directive>, diagnostic: Diagnostic)
    ensures match FirstSuppressor(ds, diagnostic)
            case Some(i) => i < |ds| && Suppresses(ds[i], diagnostic) && forall k :: 0 <= k < i ==>
                !Suppresses(ds[k], diagnostic)
            case None => forall k :: 0 <= k < |ds| ==> !Suppresses(ds[k], diagnostic)
  {
    hide Suppresses;
    if ds != [] {
      FirstSuppressorIsFirst(ds[..|ds| - 1], diagnostic);
    }
  }

  function RecordOf(diagnostic: Diagnostic): IgnoredDiagnostic {
    IgnoredDiagnostic(diagnostic.rule, diagnostic.fingerprint, diagnostic.file, diagnostic.startLine)
  }

  function Kept(ds: seq<Directive>, diagnostics: seq<Diagnostic>): seq<Diagnostic> {
    if diagnostics == [] then []
    else
      var n := |diagnostics| - 1;
      Kept(ds, diagnostics[..n]) + if FirstSuppressor(ds, diagnostics[n]).None? then [diagnostics[n]] else []
  }

  /** What is attributed to directive `i`, in order. */
  function AttributedTo(ds: seq<Directive>, diagnostics: seq<Diagnostic>, i: nat): seq<IgnoredDiagnostic> {
    if diagnostics == [] then []
    else
      var n := |diagnostics| - 1;
      AttributedTo(ds, diagnostics[..n], i)
      + if FirstSuppressor(ds, diagnostics[n]) == Some(i) then [RecordOf(diagnostics[n])] else []
  }

  ghost function Attributed(ds: seq<Directive>, diagnostics: seq<Diagnostic>, i: nat): Directive
    requires i < |ds|
  {
    ds[i].(suppressed := ds[i].suppressed + AttributedTo(ds, diagnostics, i))
  }

  method FindSuppressor(ds: seq<Directive>, diagnostic: Diagnostic) returns (r: Option<nat>)
    ensures r == FirstSuppressor(ds, diagnostic)
  {
    FirstSuppressorIsFirst(ds, diagnostic);
    hide Suppresses, FirstSuppressor;
    for k := 0 to |ds|
      invariant forall i :: 0 <= i < k ==> !Suppresses(ds[i], diagnostic)
    {
      if Suppresses(ds[k], diagnostic) {
        return Some(k);
      }
    }
    return None;
  }

  /** What is already recorded does not change what a directive suppresses. */
  lemma {:induction false} SuppressorIgnoresRecords(ds: seq<Directive>, ds': seq<Directive>, diagnostic: Diagnostic)
    requires |ds'| == |ds| && forall i :: 0 <= i < |ds| ==> ds'[i] == ds[i].(suppressed := ds'[i].suppressed)
    ensures FirstSuppressor(ds', diagnostic) == FirstSuppressor(ds, diagnostic)
  {
    if ds != [] {
      SuppressorIgnoresRecords(ds[..|ds| - 1], ds'[..|ds| - 1], diagnostic);
    }
  }

  method ApplyIgnores(ds: seq<Directive>, diagnostics: seq<Diagnostic>) returns (kept: seq<Diagnostic>,
      ds': seq<Directive>)
    ensures kept == Kept(ds, diagnostics)
    ensures |ds'| == |ds| && forall i :: 0 <= i < |ds| ==> ds'[i] == Attributed(ds, diagnostics, i)
  {
    hide FirstSuppressor;
    kept, ds' := [], ds;
    for n := 0 to |diagnostics|
      invariant kept == Kept(ds, diagnostics[..n])
      invariant |ds'| == |ds| && forall i :: 0 <= i < |ds| ==> ds'[i] == Attributed(ds, diagnostics[..n], i)
    {
      assert diagnostics[..n + 1][..n] == diagnostics[..n];
      var found := FindSuppressor(ds', diagnostics[n]);
      SuppressorIgnoresRecords(ds, ds', diagnostics[n]);
      FirstSuppressorIsFirst(ds, diagnostics[n]);
      match found {
        case None => kept := kept + [diagnostics[n]];
        case Some(i) => ds' := ds'[i := ds'[i].(suppressed := ds'[i].suppressed + [RecordOf(diagnostics[n])])];
      }
    }
    assert diagnostics[..|diagnostics|] == diagnostics;
  }

  // ----- conservation

  function TotalSuppressed(ds: seq<Directive>): nat {
    if ds == [] then 0 else TotalSuppressed(ds[..|ds| - 1]) + |ds[|ds| - 1].suppressed|
  }

  ghost function TotalAttributed(ds: seq<Directive>, diagnostics: seq<Diagnostic>, n: nat): nat
    requires n <= |ds|
  {
    if n == 0 then 0 else TotalAttributed(ds, diagnostics, n - 1) + |AttributedTo(ds, diagnostics, n - 1)|
  }

  lemma AttributedStep(ds: seq<Directive>, diagnostics: seq<Diagnostic>, i: nat)
    requires diagnostics != []
    ensures var m := |diagnostics| - 1;
            |AttributedTo(ds, diagnostics, i)| ==
            |AttributedTo(ds, diagnostics[..m], i)| + if FirstSuppressor(ds, diagnostics[m]) == Some(i) then 1 else 0
  {
  }

  lemma {:induction false} AttributedOnce(ds: seq<Directive>, diagnostics: seq<Diagnostic>, n: nat)
    requires n <= |ds| && diagnostics != []
    ensures var m := |diagnostics| - 1;
            TotalAttributed(ds, diagnostics, n) ==
            TotalAttributed(ds, diagnostics[..m], n)
            + match FirstSuppressor(ds, diagnostics[m]) case None => 0 case Some(i) => if i < n then 1 else 0
  {
    hide FirstSuppressor, AttributedTo;
    if n > 0 {
      AttributedOnce(ds, diagnostics, n - 1);
      AttributedStep(ds, diagnostics, n - 1);
    }
  }

  /** Every diagnostic is kept or attributed to exactly one directive. */
  lemma {:induction false} Conservation(ds: seq<Directive>, diagnostics: seq<Diagnostic>)
    ensures |Kept(ds, diagnostics)| + TotalAttributed(ds, diagnostics, |ds|) == |diagnostics|
  {
    if diagnostics == [] {
      NothingAttributed(ds, |ds|);
    } else {
      Conservation(ds, diagnostics[..|diagnostics| - 1]);
      FirstSuppressorIsFirst(ds, diagnostics[|diagnostics| - 1]);
      AttributedOnce(ds, diagnostics, |ds|);
    }
  }

  lemma {:induction false} NothingAttributed(ds: seq<Directive>, n: nat)
    requires n <= |ds|
    ensures TotalAttributed(ds, [], n) == 0
  {
    if n > 0 {
      NothingAttributed(ds, n - 1);
    }
  }

  /** Parser, internal and polint diagnostics are always kept. */
  lemma {:induction false} NonPolicyIsKept(ds: seq<Directive>, diagnostics: seq<Diagnostic>, i: nat)
    requires i < |diagnostics| && !IsPolicy(diagnostics[i].rule)
    ensures diagnostics[i] in Kept(ds, diagnostics)
  {
    var n := |diagnostics| - 1;
    FirstSuppressorIsFirst(ds, diagnostics[n]);
    if i < n {
      NonPolicyIsKept(ds, diagnostics[..n], i);
    }
  }

  // ----- the report

  datatype Status = Active | Unused | Malformed | MissingReason

  function StatusOf(d: Directive): Option<Status> {
    if d.problem.Some? then Some(Malformed)
    else if d.kind.EndKind? then None
    else if d.missingReason then Some(MissingReason)
    else if d.suppressed == [] then Some(Unused)
    else Some(Active)
  }

  datatype Summary = Summary(directives: nat, active: nat, unused: nat, malformed: nat, missingReasons: nat,
                             suppressed: nat)

  function CountStatus(ds: seq<Directive>, s: Status): nat {
    if ds == [] then 0 else CountStatus(ds[..|ds| - 1], s) + if StatusOf(ds[|ds| - 1]) == Some(s) then 1 else 0
  }

  function Reported(ds: seq<Directive>): seq<Directive> {
    if ds == [] then []
    else Reported(ds[..|ds| - 1]) + if StatusOf(ds[|ds| - 1]).Some? then [ds[|ds| - 1]] else []
  }

  lemma NothingReported()
    ensures Reported([]) == [] && TotalSuppressed([]) == 0 && forall s :: CountStatus([], s) == 0
  {
  }

  lemma ReportStep(ds: seq<Directive>, n: nat, reported: seq<Directive>)
    requires n < |ds| && reported == Reported(ds[..n])
    ensures Reported(ds[..n + 1]) == reported + if StatusOf(ds[n]).Some? then [ds[n]] else []
    ensures TotalSuppressed(reported + [ds[n]]) == TotalSuppressed(reported) + |ds[n].suppressed|
    ensures forall s ::
      CountStatus(ds[..n + 1], s) == CountStatus(ds[..n], s) + if StatusOf(ds[n]) == Some(s) then 1 else 0
  {
    assert ds[..n + 1][..n] == ds[..n];
    assert (reported + [ds[n]])[..|reported|] == reported;
  }

  method Summarise(ds: seq<Directive>) returns (reported: seq<Directive>, summary: Summary)
    ensures reported == Reported(ds)
    ensures summary == Summary(|reported|, CountStatus(ds, Active), CountStatus(ds, Unused), CountStatus(ds, Malformed),
                               CountStatus(ds, MissingReason), TotalSuppressed(reported))
    ensures summary.active + summary.unused + summary.malformed + summary.missingReasons == summary.directives
  {
    hide StatusOf, CountStatus, Reported, TotalSuppressed;
    reported, summary := [], Summary(0, 0, 0, 0, 0, 0);
    NothingReported();
    for n := 0 to |ds|
      invariant reported == Reported(ds[..n])
      invariant summary == Summary(|reported|, CountStatus(ds[..n], Active), CountStatus(ds[..n], Unused),
                                   CountStatus(ds[..n], Malformed), CountStatus(ds[..n],
                                       MissingReason), TotalSuppressed(reported))
      invariant summary.active + summary.unused + summary.malformed + summary.missingReasons == summary.directives
    {
      ReportStep(ds, n, reported);
      match StatusOf(ds[n]) {
        case None =>
        case Some(s) =>
          reported := reported + [ds[n]];
          summary := summary.(directives := summary.directives + 1,
                              suppressed := summary.suppressed + |ds[n].suppressed|);
          match s {
            case Active => summary := summary.(active := summary.active + 1);
            case Unused => summary := summary.(unused := summary.unused + 1);
            case Malformed => summary := summary.(malformed := summary.malformed + 1);
            case MissingReason => summary := summary.(missingReasons := summary.missingReasons + 1);
          }
      }
    }
    assert ds[..|ds|] == ds;
  }

  lemma {:induction false} ReportedLosesNothing(ds: seq<Directive>)
    requires forall i :: 0 <= i < |ds| ==> (StatusOf(ds[i]).None? ==> ds[i].suppressed == [])
    ensures TotalSuppressed(Reported(ds)) == TotalSuppressed(ds)
  {
    if ds != [] {
      ReportedLosesNothing(ds[..|ds| - 1]);
      var r := Reported(ds);
      if StatusOf(ds[|ds| - 1]).Some? {
        assert r[..|r| - 1] == Reported(ds[..|ds| - 1]) && r[|r| - 1] == ds[|ds| - 1];
      } else {
        assert r == Reported(ds[..|ds| - 1]);
      }
    }
  }

  /** The report's suppressed total is the number of diagnostics removed. */
  lemma ReportCountsRemoved(ds: seq<Directive>, diagnostics: seq<Diagnostic>, ds': seq<Directive>)
    requires |ds'| == |ds| && forall i :: 0 <= i < |ds| ==> ds'[i] == Attributed(ds, diagnostics, i)
    requires forall i :: 0 <= i < |ds| ==> ds[i].suppressed == []
    ensures TotalSuppressed(Reported(ds')) == |diagnostics| - |Kept(ds, diagnostics)|
  {
    forall i | 0 <= i < |ds'| && StatusOf(ds'[i]).None? ensures ds'[i].suppressed == [] {
      EndsGetNothing(ds, diagnostics, i);
    }
    ReportedLosesNothing(ds');
    TotalsAgree(ds, diagnostics, ds', |ds|);
    assert ds'[..|ds|] == ds';
    Conservation(ds, diagnostics);
  }

  lemma {:induction false} EndsGetNothing(ds: seq<Directive>, diagnostics: seq<Diagnostic>, i: nat)
    requires i < |ds| && ds[i].kind.EndKind?
    ensures AttributedTo(ds, diagnostics, i) == []
  {
    if diagnostics != [] {
      FirstSuppressorIsFirst(ds, diagnostics[|diagnostics| - 1]);
      EndsGetNothing(ds, diagnostics[..|diagnostics| - 1], i);
    }
  }

  lemma {:induction false} TotalsAgree(ds: seq<Directive>, diagnostics: seq<Diagnostic>, ds': seq<Directive>, n: nat)
    requires n <= |ds| == |ds'| && forall i :: 0 <= i < |ds| ==>
        ds'[i] == Attributed(ds, diagnostics, i) && ds[i].suppressed == []
    ensures TotalSuppressed(ds'[..n]) == TotalAttributed(ds, diagnostics, n)
  {
    if n > 0 {
      TotalsAgree(ds, diagnostics, ds', n - 1);
      assert ds'[..n][..n - 1] == ds'[..n - 1];
    }
  }

  // ----- health diagnostics

  datatype Health = MalformedIgnore(file: string, line: nat, column: nat) | MissingReasonIgnore(file: string, line: nat,
      column: nat) | UnusedIgnore(file: string, line: nat, column: nat)

  ghost function HealthOf(d: Directive): Option<Health> {
    match StatusOf(d)
    case None => None
    case Some(Active) => None
    case Some(Malformed) => Some(MalformedIgnore(d.file, d.line, d.column))
    case Some(MissingReason) => Some(MissingReasonIgnore(d.file, d.line, d.column))
    case Some(Unused) => Some(UnusedIgnore(d.file, d.line, d.column))
  }

  ghost function AllHealth(ds: seq<Directive>): seq<Health> {
    if ds == [] then []
    else AllHealth(ds[..|ds| - 1]) + match HealthOf(ds[|ds| - 1]) case None => [] case Some(h) => [h]
  }

  /** The warnings follow the reported statuses: one for each malformed, unexplained
      or unused directive and none for an active one. A missing reason is noted only
      on directives that suppress. */
  method HealthDiagnostics(ds: seq<Directive>) returns (health: seq<Health>)
    requires forall i :: 0 <= i < |ds| ==> (ds[i].missingReason ==> !ds[i].kind.EndKind?)
    ensures health == AllHealth(ds)
  {
    health := [];
    for n := 0 to |ds|
      invariant health == AllHealth(ds[..n])
    {
      var d := ds[n];
      assert ds[..n + 1][..n] == ds[..n];
      if d.problem.Some? {
        health := health + [MalformedIgnore(d.file, d.line, d.column)];
        continue;
      }
      if d.missingReason {
        health := health + [MissingReasonIgnore(d.file, d.line, d.column)];
        continue;
      }
      if !d.kind.EndKind? && d.suppressed == [] {
        health := health + [UnusedIgnore(d.file, d.line, d.column)];
      }
    }
    assert ds[..|ds|] == ds;
  }
}
