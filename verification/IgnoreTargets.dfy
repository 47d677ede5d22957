/** What each kind of ignore directive covers, from its place in the source to the
    diagnostics that are kept. */
module IgnoreTargets {
  import opened Options
  import opened Ignores
  import opened IgnoreApplication

  const AFTER_CODE := "file ignores must appear before the first code line"

  /** A directive as it was parsed from a comment. */
  datatype Raw = Raw(file: string, line: nat, column: nat, kind: Kind, selectors: seq<string>, reason: Option<string>,
                     problem: Option<string>)

  /** The line of the first code of each file that has code. */
  type FirstCode = map<string, nat>

  predicate BeforeCode(raw: Raw, code: FirstCode) {
    raw.file in code ==> raw.line < code[raw.file]
  }

  /** The directive made of a parsed one, before blocks are paired. */
  function Made(raw: Raw, code: FirstCode, requireReason: bool): Directive {
    var target :=
      if raw.problem.Some? then None
      else
        match raw.kind
        case LineKind => Some(LineTarget(raw.line))
        case NextLineKind => Some(LineTarget(raw.line + 1))
        case FileKind => if BeforeCode(raw, code) then Some(FileTarget) else None
        case _ => None;
    var problem := if raw.problem.None? && raw.kind.FileKind? && !BeforeCode(raw, code) then Some(AFTER_CODE)
                   else raw.problem;
    var missing := raw.problem.None? && requireReason && !raw.kind.EndKind? && raw.reason.None?;
    Directive(raw.file, raw.line, raw.column, raw.kind, raw.selectors, raw.reason, target, problem, missing, [])
  }

  /** Nothing that was parsed is lost; a directive is malformed exactly when it was parsed
      so or is a file ignore that does not precede the code, and lacks a reason exactly when
      one is required of it. */
  lemma MadeMeaning(raw: Raw, code: FirstCode, requireReason: bool)
    ensures var d := Made(raw, code, requireReason);
            && Raw(d.file, d.line, d.column, d.kind, d.selectors, d.reason, raw.problem) == raw
            && (raw.problem.Some? ==> d.problem == raw.problem)
            && (d.problem.Some? <==>
                raw.problem.Some? || (raw.kind.FileKind? && raw.file in code && code[raw.file] <= raw.line))
            && (d.missingReason <==>
                requireReason && raw.problem.None? && !raw.kind.EndKind? && raw.reason.None?)
            && d.suppressed == []
  {
  }

  ghost function AllMade(raws: seq<Raw>, code: FirstCode, requireReason: bool): (ds: seq<Directive>)
    ensures |ds| == |raws| && forall i :: 0 <= i < |raws| ==> ds[i] == Made(raws[i], code, requireReason)
  {
    seq(|raws|, i requires 0 <= i < |raws| => Made(raws[i], code, requireReason))
  }

  /** The loop over the parsed directives of a file. */
  method CollectDirectives(raws: seq<Raw>, code: FirstCode, requireReason: bool) returns (ds: seq<Directive>)
    ensures ds == AllMade(raws, code, requireReason)
  {
    ds := [];
    for i := 0 to |raws|
      invariant ds == AllMade(raws[..i], code, requireReason)
    {
      var raw := raws[i];
      var d := Directive(raw.file, raw.line, raw.column, raw.kind, raw.selectors, raw.reason, None, raw.problem, false,
                         []);
      if raw.problem.None? && requireReason && !raw.kind.EndKind? && raw.reason.None? {
        d := d.(missingReason := true);
      }
      if raw.problem.None? {
        match raw.kind {
          case LineKind => d := d.(target := Some(LineTarget(raw.line)));
          case NextLineKind => d := d.(target := Some(LineTarget(raw.line + 1)));
          case FileKind =>
            if raw.file !in code || raw.line < code[raw.file] {
              d := d.(target := Some(FileTarget));
            } else {
              d := d.(problem := Some(AFTER_CODE));
            }
          case _ =>
        }
      }
      ds := ds + [d];
    }
    assert raws[..|raws|] == raws;
  }

  // ----- what a directive covers

  /** The rule is named by the selector: by the wildcard, by its own name, or by a
      namespace it lies in. */
  ghost predicate Selects(selector: string, rule: string) {
    selector == "*" || selector == rule
    || exists namespace :: selector == namespace + "/*" && namespace + "/" <= rule
  }

  lemma RuleMatchesMeaning(selector: string, rule: string)
    ensures RuleMatches(selector, rule) <==> Selects(selector, rule)
  {
    if |selector| >= 2 && selector[|selector| - 2..] == "/*" {
      var namespace := selector[..|selector| - 2];
      assert selector == namespace + "/*" && selector[..|selector| - 1] == namespace + "/";
    }
    if namespace :| selector == namespace + "/*" && namespace + "/" <= rule {
      assert selector[|selector| - 2..] == "/*" && selector[..|selector| - 1] == namespace + "/";
    }
  }

  /** Rules of these namespaces are no policy. */
  ghost predicate Reserved(rule: string) {
    exists namespace, rest :: namespace in {"parser", "internal", "polint"} && rule == namespace + "/" + rest
  }

  lemma IsPolicyMeaning(rule: string)
    ensures IsPolicy(rule) <==> !Reserved(rule)
  {
    if "parser/" <= rule {
      assert "parser" + "/" == "parser/" && rule == "parser" + "/" + rule[7..];
    }
    if "internal/" <= rule {
      assert "internal" + "/" == "internal/" && rule == "internal" + "/" + rule[9..];
    }
    if "polint/" <= rule {
      assert "polint" + "/" == "polint/" && rule == "polint" + "/" + rule[7..];
    }
  }

  /** The directive at `i` covers the line: a line ignore its own, a next-line ignore the
      one after, a file ignore above the first code all of them, and a start those between
      it and the end that closes it. */
  ghost predicate Covers(raws: seq<Raw>, ds: seq<Directive>, code: FirstCode, i: nat, line: nat)
    requires i < |raws| == |ds|
  {
    match raws[i].kind
    case LineKind => line == raws[i].line
    case NextLineKind => line == raws[i].line + 1
    case FileKind => raws[i].file in code ==> raws[i].line < code[raws[i].file]
    case StartKind => exists j: nat :: Matches(ds, i, j) && j < |raws| && raws[i].line < line < raws[j].line
    case EndKind => false
  }

  /** The directive was parsed without a problem and covers the line of a policy
      diagnostic of its file that one of its selectors names. */
  ghost predicate Applies(raws: seq<Raw>, ds: seq<Directive>, code: FirstCode, i: nat, diagnostic: Diagnostic)
    requires i < |raws| == |ds|
  {
    raws[i].problem.None? && diagnostic.file == raws[i].file && !Reserved(diagnostic.rule)
    && (exists k :: 0 <= k < |raws[i].selectors| && Selects(raws[i].selectors[k], diagnostic.rule))
    && Covers(raws, ds, code, i, diagnostic.startLine)
  }

  /** After pairing, a directive of each kind suppresses exactly what it applies to. */
  lemma SuppressesExactlyWhen(raws: seq<Raw>, code: FirstCode, requireReason: bool, i: nat, diagnostic: Diagnostic)
    requires i < |raws|
    ensures var ds := AllMade(raws, code, requireReason);
            Suppresses(Paired(ds, i), diagnostic) <==> Applies(raws, ds, code, i, diagnostic)
  {
    var ds := AllMade(raws, code, requireReason);
    IsPolicyMeaning(diagnostic.rule);
    forall selector ensures RuleMatches(selector, diagnostic.rule) <==> Selects(selector, diagnostic.rule) {
      RuleMatchesMeaning(selector, diagnostic.rule);
    }
    hide IsPolicy, Reserved, RuleMatches, Selects;
    assert ds[i] == Made(raws[i], code, requireReason);
    SuppressesPaired(ds, i, diagnostic);
    hide Paired;
    assert forall j: nat :: Matches(ds, i, j) ==> j < |ds| && ds[j].line == raws[j].line;
    hide Matches;
  }

  /** What pairing leaves of a directive's suppression. */
  lemma SuppressesPaired(ds: seq<Directive>, i: nat, diagnostic: Diagnostic)
    requires i < |ds| && (ds[i].target.Some? ==> ds[i].problem.None?)
    ensures ds[i].kind.EndKind? ==> !Suppresses(Paired(ds, i), diagnostic)
    ensures !ds[i].kind.EndKind? && !ds[i].kind.StartKind? ==>
              (Suppresses(Paired(ds, i), diagnostic) <==> Suppresses(ds[i], diagnostic))
    ensures ds[i].kind.StartKind? ==>
              (Suppresses(Paired(ds, i), diagnostic) <==>
                 ds[i].problem.None? && diagnostic.file == ds[i].file && IsPolicy(diagnostic.rule)
                 && (exists k :: 0 <= k < |ds[i].selectors| && RuleMatches(ds[i].selectors[k], diagnostic.rule))
                 && exists j: nat :: Matches(ds, i, j) && ds[i].line < diagnostic.startLine < ds[j].line)
  {
    hide IsPolicy, RuleMatches;
    if ds[i].kind.StartKind? {
      if j: nat :| Matches(ds, i, j) {
        PairedStartSuppressesInside(ds, i, j, diagnostic);
        forall k: nat | Matches(ds, i, k) ensures k == j { MatchUnique(ds, i, j, k); }
      } else {
        MalformedSuppressNothing(ds, i, diagnostic);
      }
    }
  }

  /** The directives as the suppression pass sees them. */
  ghost predicate PairedFrom(raws: seq<Raw>, code: FirstCode, requireReason: bool, ds: seq<Directive>) {
    |ds| == |raws| && forall i :: 0 <= i < |ds| ==> ds[i] == Paired(AllMade(raws, code, requireReason), i)
  }

  ghost predicate SomeApplies(raws: seq<Raw>, code: FirstCode, requireReason: bool, diagnostic: Diagnostic) {
    exists i :: 0 <= i < |raws| && Applies(raws, AllMade(raws, code, requireReason), code, i, diagnostic)
  }

  /** The diagnostics to which no directive applies, in order. */
  ghost function Unignored(raws: seq<Raw>, code: FirstCode, requireReason: bool, diagnostics: seq<Diagnostic>)
    : seq<Diagnostic>
  {
    if diagnostics == [] then []
    else
      var n := |diagnostics| - 1;
      Unignored(raws, code, requireReason, diagnostics[..n])
      + if SomeApplies(raws, code, requireReason, diagnostics[n]) then [] else [diagnostics[n]]
  }

  /** A diagnostic is kept exactly when no directive applies to it. */
  lemma {:induction false} KeptExactlyWhen(raws: seq<Raw>, code: FirstCode, requireReason: bool, ds: seq<Directive>,
                                           diagnostics: seq<Diagnostic>)
    requires PairedFrom(raws, code, requireReason, ds)
    ensures Kept(ds, diagnostics) == Unignored(raws, code, requireReason, diagnostics)
  {
    if diagnostics != [] {
      var n := |diagnostics| - 1;
      KeptExactlyWhen(raws, code, requireReason, ds, diagnostics[..n]);
      SuppressedExactlyWhen(raws, code, requireReason, ds, diagnostics[n]);
    }
  }

  lemma SuppressedExactlyWhen(raws: seq<Raw>, code: FirstCode, requireReason: bool, ds: seq<Directive>,
                              diagnostic: Diagnostic)
    requires PairedFrom(raws, code, requireReason, ds)
    ensures FirstSuppressor(ds, diagnostic).Some? <==> SomeApplies(raws, code, requireReason, diagnostic)
  {
    FirstSuppressorIsFirst(ds, diagnostic);
    hide Suppresses, Applies, Paired, FirstSuppressor;
    forall i: nat | i < |ds|
      ensures Suppresses(ds[i], diagnostic) <==>
              Applies(raws, AllMade(raws, code, requireReason), code, i, diagnostic)
    {
      SuppressesExactlyWhen(raws, code, requireReason, i, diagnostic);
    }
  }

  // ----- what the status tells

  lemma {:induction false} AttributedExactlyWhen(ds: seq<Directive>, diagnostics: seq<Diagnostic>, i: nat)
    ensures AttributedTo(ds, diagnostics, i) != [] <==>
            exists k :: 0 <= k < |diagnostics| && FirstSuppressor(ds, diagnostics[k]) == Some(i)
  {
    hide FirstSuppressor;
    if diagnostics != [] {
      var n := |diagnostics| - 1;
      AttributedExactlyWhen(ds, diagnostics[..n], i);
      if k :| 0 <= k < |diagnostics| && FirstSuppressor(ds, diagnostics[k]) == Some(i) {
        assert k < n ==> diagnostics[..n][k] == diagnostics[k];
      }
      if k :| 0 <= k < n && FirstSuppressor(ds, diagnostics[..n][k]) == Some(i) {
        assert diagnostics[..n][k] == diagnostics[k];
      }
    }
  }

  /** What is recorded at a directive: the diagnostics it is the first to suppress. */
  lemma {:induction false} RecordedExactlyWhen(ds: seq<Directive>, diagnostics: seq<Diagnostic>, i: nat,
                                               r: IgnoredDiagnostic)
    ensures r in AttributedTo(ds, diagnostics, i) <==>
            exists k :: 0 <= k < |diagnostics| && FirstSuppressor(ds, diagnostics[k]) == Some(i)
                        && diagnostics[k] == Diagnostic(r.rule, r.fingerprint, r.file, r.startLine)
  {
    hide FirstSuppressor;
    if diagnostics != [] {
      var n := |diagnostics| - 1;
      RecordedExactlyWhen(ds, diagnostics[..n], i, r);
      var record := Diagnostic(r.rule, r.fingerprint, r.file, r.startLine);
      if k :| 0 <= k < |diagnostics| && FirstSuppressor(ds, diagnostics[k]) == Some(i) && diagnostics[k] == record {
        assert k < n ==> diagnostics[..n][k] == diagnostics[k];
      }
      if k :| 0 <= k < n && FirstSuppressor(ds, diagnostics[..n][k]) == Some(i) && diagnostics[..n][k] == record {
        assert diagnostics[k] == record;
      }
    }
  }

  /** After the pass, a well-formed and explained directive that can suppress is active
      exactly when it is the first that suppresses some diagnostic, and otherwise unused;
      a malformed one is malformed, an unexplained one lacks its reason, and a well-formed
      end has no status. */
  lemma StatusExactlyWhen(ds: seq<Directive>, diagnostics: seq<Diagnostic>, i: nat)
    requires i < |ds| && ds[i].suppressed == []
    ensures var d := Attributed(ds, diagnostics, i);
            var used := exists k :: 0 <= k < |diagnostics| && FirstSuppressor(ds, diagnostics[k]) == Some(i);
            var fine := ds[i].problem.None? && !ds[i].kind.EndKind?;
            && (StatusOf(d) == Some(Active) <==> fine && !ds[i].missingReason && used)
            && (StatusOf(d) == Some(Unused) <==> fine && !ds[i].missingReason && !used)
            && (StatusOf(d) == Some(MissingReason) <==> fine && ds[i].missingReason)
            && (StatusOf(d) == Some(Malformed) <==> ds[i].problem.Some?)
            && (StatusOf(d) == None <==> ds[i].problem.None? && ds[i].kind.EndKind?)
  {
    AttributedExactlyWhen(ds, diagnostics, i);
  }

  /** A warning stands at its directive, and says what is wrong with it. */
  lemma HealthExactlyWhen(d: Directive)
    ensures HealthOf(d) == Some(MalformedIgnore(d.file, d.line, d.column)) <==> d.problem.Some?
    ensures HealthOf(d) == Some(MissingReasonIgnore(d.file, d.line, d.column)) <==>
            d.problem.None? && !d.kind.EndKind? && d.missingReason
    ensures HealthOf(d) == Some(UnusedIgnore(d.file, d.line, d.column)) <==>
            d.problem.None? && !d.kind.EndKind? && !d.missingReason && d.suppressed == []
    ensures HealthOf(d) == None <==>
            d.problem.None? && (d.kind.EndKind? || (!d.missingReason && d.suppressed != []))
  {
  }
}
