/** Position-independent identities of diagnostics: every default-fingerprint
    diagnostic of a (rule, file, content) scope gets an occurrence number. */
module Baseline {
  import opened Ordering
  import opened Text

  datatype Range = Range(startLine: nat, startCol: nat, endLine: nat, endCol: nat)

  /** `details` are the tagged evidence, label, help, suggestion and fix texts. */
  datatype Diagnostic = Diagnostic(rule: string, file: string, range: Range, severity: string, message: string,
                                   details: seq<string>, stable: string)

  /** The fingerprint of a list of parts, taken to be collision free. */
  type Fingerprint = seq<string> -> string

  ghost predicate CollisionFree(fp: Fingerprint) {
    forall p, q :: fp(p) == fp(q) ==> p == q
  }

  function DefaultStable(fp: Fingerprint, d: Diagnostic): string {
    fp([d.rule, d.file, Decimal(d.range.startLine), Decimal(d.range.startCol), Decimal(d.range.endLine),
        Decimal(d.range.endCol), d.message])
  }

  /** A fingerprint other than the default one was chosen by the rule. */
  predicate IsCustom(fp: Fingerprint, d: Diagnostic) {
    d.stable != DefaultStable(fp, d)
  }

  function Base(fp: Fingerprint, d: Diagnostic): string {
    if IsCustom(fp, d) then d.stable else fp(["baseline-v1", d.rule, d.severity, d.message] + d.details)
  }

  /** Default fingerprints agree exactly for one rule, file, range and message. */
  lemma DefaultStableExactlyWhen(fp: Fingerprint, d: Diagnostic, e: Diagnostic)
    requires CollisionFree(fp)
    ensures DefaultStable(fp, d) == DefaultStable(fp, e) <==>
            d.rule == e.rule && d.file == e.file && d.range == e.range && d.message == e.message
  {
    if DefaultStable(fp, d) == DefaultStable(fp, e) {
      var p := [d.rule, d.file, Decimal(d.range.startLine), Decimal(d.range.startCol), Decimal(d.range.endLine),
                Decimal(d.range.endCol), d.message];
      var q := [e.rule, e.file, Decimal(e.range.startLine), Decimal(e.range.startCol), Decimal(e.range.endLine),
                Decimal(e.range.endCol), e.message];
      assert p == q;
      assert p[0] == q[0] && p[1] == q[1] && p[2] == q[2] && p[3] == q[3];
      assert p[4] == q[4] && p[5] == q[5] && p[6] == q[6];
      DecimalInjective(d.range.startLine, e.range.startLine);
      DecimalInjective(d.range.startCol, e.range.startCol);
      DecimalInjective(d.range.endLine, e.range.endLine);
      DecimalInjective(d.range.endCol, e.range.endCol);
    }
  }

  function OccurrenceFingerprint(fp: Fingerprint, base: string, occurrence: nat): string {
    if occurrence == 0 then base else fp(["baseline-v1-occurrence", base, Decimal(occurrence)])
  }

  datatype Scope = Scope(rule: string, file: string, base: string)

  function ScopeOf(fp: Fingerprint, d: Diagnostic): Scope {
    Scope(d.rule, d.file, Base(fp, d))
  }

  // ----- the order in which occurrences are numbered

  function SeedKey(fp: Fingerprint, ds: seq<Diagnostic>, i: nat): Key
    requires i < |ds|
  {
    var d := ds[i];
    [Codes(d.rule), Codes(d.file), Codes(Base(fp, d)),
     [d.range.startLine, d.range.startCol, d.range.endLine, d.range.endCol], Codes(d.stable), [i]]
  }

  function SeedRank(fp: Fingerprint, ds: seq<Diagnostic>): nat -> Key {
    (i: nat) => if i < |ds| then SeedKey(fp, ds, i) else [[i]]
  }

  lemma SeedRankInjective(fp: Fingerprint, ds: seq<Diagnostic>)
    ensures Injective(SeedRank(fp, ds))
  {
  }

  /** `j` is numbered before `i`. */
  predicate Before(fp: Fingerprint, ds: seq<Diagnostic>, j: nat, i: nat)
    requires i < |ds| && j < |ds|
  {
    Less(SeedKey(fp, ds, j), SeedKey(fp, ds, i))
  }

  /** The range starts earlier, or starts there and ends earlier. */
  predicate RangeBefore(a: Range, b: Range) {
    || a.startLine < b.startLine
    || (a.startLine == b.startLine && a.startCol < b.startCol)
    || (a.startLine == b.startLine && a.startCol == b.startCol && a.endLine < b.endLine)
    || (a.startLine == b.startLine && a.startCol == b.startCol && a.endLine == b.endLine && a.endCol < b.endCol)
  }

  lemma RangeKeys(x: Component, y: Component)
    requires |x| == |y| == 4
    requires x[0] < y[0] || (x[0] == y[0] && (x[1] < y[1] || (x[1] == y[1] && (x[2] < y[2]
             || (x[2] == y[2] && x[3] < y[3])))))
    ensures ComponentLess(x, y)
  {
    var x1, y1 := x[1..], y[1..];
    var x2, y2 := x1[1..], y1[1..];
    var x3, y3 := x2[1..], y2[1..];
    assert x3[0] < y3[0] ==> ComponentLess(x3, y3);
    assert x2[0] < y2[0] || (x2[0] == y2[0] && ComponentLess(x3, y3)) ==> ComponentLess(x2, y2);
    assert x1[0] < y1[0] || (x1[0] == y1[0] && ComponentLess(x2, y2)) ==> ComponentLess(x1, y1);
  }

  /** Within a scope diagnostics are numbered by their place in the file. */
  lemma NumberedByPlace(fp: Fingerprint, ds: seq<Diagnostic>, j: nat, i: nat)
    requires i < |ds| && j < |ds| && ScopeOf(fp, ds[j]) == ScopeOf(fp, ds[i]) && RangeBefore(ds[j].range, ds[i].range)
    ensures Before(fp, ds, j, i)
  {
    var a, b := SeedKey(fp, ds, j), SeedKey(fp, ds, i);
    var x := [ds[j].range.startLine, ds[j].range.startCol, ds[j].range.endLine, ds[j].range.endCol];
    var y := [ds[i].range.startLine, ds[i].range.startCol, ds[i].range.endLine, ds[i].range.endCol];
    RangeKeys(x, y);
    hide ComponentLess;
    var a1, b1 := a[1..], b[1..];
    var a2, b2 := a1[1..], b1[1..];
    var a3, b3 := a2[1..], b2[1..];
    assert a3[0] == x && b3[0] == y && Less(a3, b3);
    assert a2[0] == b2[0] && Less(a2, b2);
    assert a1[0] == b1[0] && Less(a1, b1);
    assert a[0] == b[0];
  }

  /** The default-fingerprint diagnostics of one scope. */
  ghost function Members(fp: Fingerprint, ds: seq<Diagnostic>, scope: Scope): set<nat> {
    set j | 0 <= j < |ds| && !IsCustom(fp, ds[j]) && ScopeOf(fp, ds[j]) == scope
  }

  ghost function Earlier(fp: Fingerprint, ds: seq<Diagnostic>, i: nat): set<nat>
    requires i < |ds|
  {
    set j | j in Members(fp, ds, ScopeOf(fp, ds[i])) && Before(fp, ds, j, i)
  }

  /** The fingerprint under which a diagnostic is recorded: its own when custom,
      otherwise numbered by how many of its scope come before it. */
  ghost function BaselineFingerprint(fp: Fingerprint, ds: seq<Diagnostic>, i: nat): string
    requires i < |ds|
  {
    if IsCustom(fp, ds[i]) then ds[i].stable
    else OccurrenceFingerprint(fp, Base(fp, ds[i]), |Earlier(fp, ds, i)|)
  }

  function Indices(n: nat): (s: seq<nat>)
    ensures |s| == n && forall i :: 0 <= i < n ==> s[i] == i
  {
    if n == 0 then [] else Indices(n - 1) + [n - 1]
  }

  function SeedOrder(fp: Fingerprint, ds: seq<Diagnostic>): seq<nat> {
    Sorted<nat>(Indices(|ds|), SeedRank(fp, ds))
  }

  lemma SeedOrderSpec(fp: Fingerprint, ds: seq<Diagnostic>)
    ensures Ascending<nat>(SeedOrder(fp, ds), SeedRank(fp, ds))
    ensures forall i: nat :: i in SeedOrder(fp, ds) <==> i < |ds|
  {
    hide SeedRank, Ascending, Sorted, Injective;
    SeedRankInjective(fp, ds);
    SortedSorts<nat>(Indices(|ds|), SeedRank(fp, ds));
    forall i: nat | i < |ds| ensures i in Indices(|ds|) { assert Indices(|ds|)[i] == i; }
  }

  /** The members of a scope among the first `k` of the order. */
  ghost function Numbered(fp: Fingerprint, ds: seq<Diagnostic>, order: seq<nat>, k: nat, scope: Scope): set<nat>
    requires k <= |order|
  {
    set j | j in order[..k] && j in Members(fp, ds, scope)
  }

  /** When its turn comes, exactly the earlier members of its scope were numbered. */
  lemma NumberedIsEarlier(fp: Fingerprint, ds: seq<Diagnostic>, order: seq<nat>, k: nat)
    requires Ascending<nat>(order, SeedRank(fp, ds)) && (forall i: nat :: i in order <==> i < |ds|) && k < |order|
    requires order[k] < |ds|
    ensures Numbered(fp, ds, order, k, ScopeOf(fp, ds[order[k]])) == Earlier(fp, ds, order[k])
  {
    var i := order[k];
    var members := Members(fp, ds, ScopeOf(fp, ds[i]));
    forall j | j in members ensures j in order[..k] <==> Before(fp, ds, j, i) {
      assert j in order;
      var at :| 0 <= at < |order| && order[at] == j;
      TotalOrder(SeedKey(fp, ds, j), SeedKey(fp, ds, i));
      assert SeedRank(fp, ds)(j) == SeedKey(fp, ds, j) && SeedRank(fp, ds)(i) == SeedKey(fp, ds, i);
      if at < k {
        assert order[..k][at] == j;
      }
    }
  }

  /** Taking the next of the order numbers it in its own scope only. */
  lemma NumberOne(fp: Fingerprint, ds: seq<Diagnostic>, order: seq<nat>, k: nat)
    requires Ascending<nat>(order, SeedRank(fp, ds)) && (forall i: nat :: i in order <==> i < |ds|) && k < |order|
    ensures order[k] < |ds| && forall m :: 0 <= m < k ==> order[m] != order[k]
    ensures forall s :: |Numbered(fp, ds, order, k + 1, s)| ==
                        |Numbered(fp, ds, order, k, s)|
                        + if !IsCustom(fp, ds[order[k]]) && ScopeOf(fp, ds[order[k]]) == s then 1 else 0
    ensures |Numbered(fp, ds, order, k, ScopeOf(fp, ds[order[k]]))| == |Earlier(fp, ds, order[k])|
  {
    hide Base, IsCustom, SeedKey, SeedRank, Ascending;
    var i := order[k];
    assert i in order;
    forall m | 0 <= m < k ensures order[m] != i { AscendingDistinct<nat>(order, SeedRank(fp, ds), m, k); }
    assert order[..k + 1] == order[..k] + [i];
    forall s ensures |Numbered(fp, ds, order, k + 1, s)| ==
                     |Numbered(fp, ds, order, k, s)|
                     + if !IsCustom(fp, ds[i]) && ScopeOf(fp, ds[i]) == s then 1 else 0 {
      assert i !in Numbered(fp, ds, order, k, s);
      assert Numbered(fp, ds, order, k + 1, s) ==
             Numbered(fp, ds, order, k, s) + if !IsCustom(fp, ds[i]) && ScopeOf(fp, ds[i]) == s then {i} else {};
    }
    NumberedIsEarlier(fp, ds, order, k);
  }

  /** Numbers the diagnostics in order, one counter per scope. */
  method DiagnosticFingerprints(fp: Fingerprint, ds: seq<Diagnostic>) returns (result: seq<string>)
    ensures |result| == |ds|
    ensures forall i :: 0 <= i < |ds| ==> result[i] == BaselineFingerprint(fp, ds, i)
  {
    hide SeedOrder, SeedRank, Ascending, Earlier, Numbered, Base, OccurrenceFingerprint;
    var order := SeedOrder(fp, ds);
    SeedOrderSpec(fp, ds);
    result := seq(|ds|, _ => "");
    var next: map<Scope, nat> := map[];
    NothingNumbered(fp, ds, order);
    for k := 0 to |order|
      invariant |result| == |ds|
      invariant forall m :: 0 <= m < k ==> order[m] < |ds| && result[order[m]] == BaselineFingerprint(fp, ds, order[m])
      invariant forall scope :: (if scope in next then next[scope] else 0) == |Numbered(fp, ds, order, k, scope)|
    {
      var i := order[k];
      NumberOne(fp, ds, order, k);
      var d := ds[i];
      if IsCustom(fp, d) {
        result := result[i := d.stable];
      } else {
        var scope := ScopeOf(fp, d);
        var occurrence := if scope in next then next[scope] else 0;
        result := result[i := OccurrenceFingerprint(fp, Base(fp, d), occurrence)];
        next := next[scope := occurrence + 1];
      }
    }
    forall i: nat | i < |ds| ensures result[i] == BaselineFingerprint(fp, ds, i) {
      assert i in order;
      var m :| 0 <= m < |order| && order[m] == i;
    }
  }

  lemma NothingNumbered(fp: Fingerprint, ds: seq<Diagnostic>, order: seq<nat>)
    ensures forall scope :: Numbered(fp, ds, order, 0, scope) == {}
  {
  }

  // ----- the occurrence numbers of a scope are 0, 1, 2, ...

  lemma EarlierGrows(fp: Fingerprint, ds: seq<Diagnostic>, scope: Scope, j: nat, i: nat)
    requires j in Members(fp, ds, scope) && i in Members(fp, ds, scope) && Before(fp, ds, j, i)
    ensures |Earlier(fp, ds, j)| < |Earlier(fp, ds, i)|
  {
    forall k | k in Earlier(fp, ds, j) ensures k in Earlier(fp, ds, i) && k != j {
      Transitive(SeedKey(fp, ds, k), SeedKey(fp, ds, j), SeedKey(fp, ds, i));
      TotalOrder(SeedKey(fp, ds, k), SeedKey(fp, ds, j));
    }
    assert Earlier(fp, ds, j) <= Earlier(fp, ds, i) - {j};
    SubsetSize(Earlier(fp, ds, j), Earlier(fp, ds, i) - {j});
  }

  lemma {:induction false} SubsetSize<T>(a: set<T>, b: set<T>)
    requires a <= b
    ensures |a| <= |b| && (|a| == |b| ==> a == b)
  {
    assert b == a + (b - a);
    if b - a != {} {
      var x :| x in b - a;
      assert |b - a| > 0;
    }
  }

  lemma {:induction false} ValuesOfInjection(f: map<nat, nat>)
    requires forall x, y :: x in f && y in f && f[x] == f[y] ==> x == y
    ensures |f.Values| == |f|
  {
    if f != map[] {
      var x :| x in f;
      var rest := f - {x};
      ValuesOfInjection(rest);
      forall v ensures v in f.Values <==> v in rest.Values || v == f[x] {
        if v in f.Values && v != f[x] {
          var y :| y in f && f[y] == v;
          assert y in rest && rest[y] == v;
        }
      }
      assert f.Values == rest.Values + {f[x]};
      assert f.Keys == rest.Keys + {x};
    } else {
      assert f.Values == {};
    }
  }

  ghost function Below(n: nat): (s: set<nat>)
    ensures |s| == n && forall k: nat :: k in s <==> k < n
  {
    if n == 0 then {} else Below(n - 1) + {n - 1}
  }

  ghost function Occurrences(fp: Fingerprint, ds: seq<Diagnostic>, scope: Scope): map<nat, nat> {
    map i | i in Members(fp, ds, scope) :: |Earlier(fp, ds, i)|
  }

  /** A scope with n default-fingerprint diagnostics uses exactly the numbers below
      n, each once. */
  lemma OccurrencesAreExact(fp: Fingerprint, ds: seq<Diagnostic>, scope: Scope)
    ensures Occurrences(fp, ds, scope).Values == Below(|Members(fp, ds, scope)|)
    ensures forall i, j :: i in Members(fp, ds, scope) && j in Members(fp, ds, scope) ==>
              (|Earlier(fp, ds, i)| == |Earlier(fp, ds, j)| ==> i == j)
  {
    var f, members := Occurrences(fp, ds, scope), Members(fp, ds, scope);
    forall i, j | i in members && j in members && |Earlier(fp, ds, i)| == |Earlier(fp, ds, j)| ensures i == j {
      TotalOrder(SeedKey(fp, ds, i), SeedKey(fp, ds, j));
      if Before(fp, ds, i, j) {
        EarlierGrows(fp, ds, scope, i, j);
      } else if Before(fp, ds, j, i) {
        EarlierGrows(fp, ds, scope, j, i);
      } else {
        assert [i] == SeedKey(fp, ds, i)[5] && [j] == SeedKey(fp, ds, j)[5];
        assert [i][0] == [j][0];
      }
    }
    forall i | i in members ensures |Earlier(fp, ds, i)| < |members| {
      TotalOrder(SeedKey(fp, ds, i), SeedKey(fp, ds, i));
      assert Earlier(fp, ds, i) <= members - {i};
      SubsetSize(Earlier(fp, ds, i), members - {i});
    }
    ValuesOfInjection(f);
    assert f.Keys == members;
    assert f.Values <= Below(|members|);
    SubsetSize(f.Values, Below(|members|));
  }

  /** Within a scope the recorded fingerprints are pairwise distinct. */
  lemma OccurrenceFingerprintsDistinct(fp: Fingerprint, d: Diagnostic, m: nat, n: nat)
    requires CollisionFree(fp) && !IsCustom(fp, d) && m != n
    ensures OccurrenceFingerprint(fp, Base(fp, d), m) != OccurrenceFingerprint(fp, Base(fp, d), n)
  {
    var base := Base(fp, d);
    var parts := ["baseline-v1", d.rule, d.severity, d.message] + d.details;
    var a, b := ["baseline-v1-occurrence", base, Decimal(m)], ["baseline-v1-occurrence", base, Decimal(n)];
    assert parts[0] == "baseline-v1" && |"baseline-v1"| != |"baseline-v1-occurrence"|;
    assert parts != a && parts != b;
    if a == b {
      assert a[2] == b[2];
      DecimalInjective(m, n);
    }
  }

  // ----- the baseline built from a list of diagnostics

  datatype Entry = Entry(rule: string, fingerprint: string, file: string)

  function EntryRank(): Entry -> Key {
    (e: Entry) => [Codes(e.rule), Codes(e.fingerprint), Codes(e.file)]
  }

  lemma EntryRankInjective()
    ensures Injective(EntryRank())
  {
    forall x: Entry, y: Entry | EntryRank()(x) == EntryRank()(y) ensures x == y {
      var a, b := EntryRank()(x), EntryRank()(y);
      assert a[0] == b[0] && a[1] == b[1] && a[2] == b[2];
      CodesInjective(x.rule, y.rule);
      CodesInjective(x.fingerprint, y.fingerprint);
      CodesInjective(x.file, y.file);
    }
  }

  ghost function EntryFor(fp: Fingerprint, ds: seq<Diagnostic>, i: nat): Entry
    requires i < |ds|
  {
    Entry(ds[i].rule, BaselineFingerprint(fp, ds, i), ds[i].file)
  }

  ghost function EntriesFor(fp: Fingerprint, ds: seq<Diagnostic>): seq<Entry> {
    seq(|ds|, i requires 0 <= i < |ds| => EntryFor(fp, ds, i))
  }

  method FromDiagnostics(fp: Fingerprint, ds: seq<Diagnostic>) returns (baseline: seq<Entry>)
    ensures baseline == Sorted(EntriesFor(fp, ds), EntryRank())
  {
    var fingerprints := DiagnosticFingerprints(fp, ds);
    var entries := seq(|ds|, i requires 0 <= i < |ds| => Entry(ds[i].rule, fingerprints[i], ds[i].file));
    assert entries == EntriesFor(fp, ds);
    baseline := Sorted(entries, EntryRank());
  }

  /** What of a diagnostic the baseline depends on: not its position. */
  datatype Profile = Profile(rule: string, file: string, base: string, custom: bool)

  function ProfileOf(fp: Fingerprint, d: Diagnostic): Profile {
    Profile(d.rule, d.file, Base(fp, d), IsCustom(fp, d))
  }

  function Profiles(fp: Fingerprint, ds: seq<Diagnostic>): (ps: seq<Profile>)
    ensures |ps| == |ds| && forall i :: 0 <= i < |ds| ==> ps[i] == ProfileOf(fp, ds[i])
  {
    seq(|ds|, i requires 0 <= i < |ds| => ProfileOf(fp, ds[i]))
  }

  lemma {:induction false} MembersCount(fp: Fingerprint, ds: seq<Diagnostic>, scope: Scope)
    ensures |Members(fp, ds, scope)| == multiset(Profiles(fp, ds))[Profile(scope.rule, scope.file, scope.base, false)]
  {
    hide Base, IsCustom;
    if ds == [] {
      assert Members(fp, ds, scope) == {} && Profiles(fp, ds) == [];
    } else {
      var n := |ds| - 1;
      var earlier := ds[..n];
      MembersCount(fp, earlier, scope);
      assert Profiles(fp, ds) == Profiles(fp, earlier) + [ProfileOf(fp, ds[n])];
      assert Members(fp, ds, scope) ==
             Members(fp, earlier, scope) + if !IsCustom(fp, ds[n]) && ScopeOf(fp, ds[n]) == scope then {n} else {};
      assert n !in Members(fp, earlier, scope);
    }
  }

  /** The entries a multiset of profiles calls for: each custom fingerprint, and
      for a scope that occurs n times the occurrence fingerprints below n. */
  ghost predicate CalledFor(fp: Fingerprint, profiles: multiset<Profile>, e: Entry) {
    Profile(e.rule, e.file, e.fingerprint, true) in profiles
    || exists base, k: nat ::
          k < profiles[Profile(e.rule, e.file, base, false)] && e.fingerprint == OccurrenceFingerprint(fp, base, k)
  }

  lemma EntriesAreCalledFor(fp: Fingerprint, ds: seq<Diagnostic>, e: Entry)
    ensures e in EntriesFor(fp, ds) <==> CalledFor(fp, multiset(Profiles(fp, ds)), e)
  {
    hide Base, SeedKey, OccurrenceFingerprint, EntryFor;
    var ps := Profiles(fp, ds);
    if e in EntriesFor(fp, ds) {
      var i :| 0 <= i < |ds| && EntriesFor(fp, ds)[i] == e;
      EntryIsCalledFor(fp, ds, i);
    }
    if CalledFor(fp, multiset(ps), e) {
      if Profile(e.rule, e.file, e.fingerprint, true) in multiset(ps) {
        var i :| 0 <= i < |ps| && ps[i] == Profile(e.rule, e.file, e.fingerprint, true);
        CustomIsRecorded(fp, ds, i);
      } else {
        var base, k: nat :| k < multiset(ps)[Profile(e.rule, e.file, base, false)]
              && e.fingerprint == OccurrenceFingerprint(fp, base, k);
        OccurrenceIsRecorded(fp, ds, Scope(e.rule, e.file, base), k);
      }
    }
  }

  lemma OccurrenceBelowCount(fp: Fingerprint, ds: seq<Diagnostic>, i: nat)
    requires i < |ds| && !IsCustom(fp, ds[i])
    ensures |Earlier(fp, ds, i)| < multiset(Profiles(fp, ds))[Profile(ds[i].rule, ds[i].file, Base(fp, ds[i]), false)]
  {
    hide Base, IsCustom, Earlier;
    var scope := ScopeOf(fp, ds[i]);
    OccurrencesAreExact(fp, ds, scope);
    MembersCount(fp, ds, scope);
    assert i in Members(fp, ds, scope);
    assert Occurrences(fp, ds, scope)[i] in Occurrences(fp, ds, scope).Values;
  }

  lemma EntryIsCalledFor(fp: Fingerprint, ds: seq<Diagnostic>, i: nat)
    requires i < |ds|
    ensures CalledFor(fp, multiset(Profiles(fp, ds)), EntryFor(fp, ds, i))
  {
    hide Earlier, OccurrenceFingerprint;
    var ps := Profiles(fp, ds);
    assert ps[i] in ps;
    if !IsCustom(fp, ds[i]) {
      OccurrenceBelowCount(fp, ds, i);
    }
  }

  lemma CustomIsRecorded(fp: Fingerprint, ds: seq<Diagnostic>, i: nat)
    requires i < |ds| && Profiles(fp, ds)[i].custom
    ensures var p := Profiles(fp, ds)[i]; Entry(p.rule, p.base, p.file) in EntriesFor(fp, ds)
  {
    assert EntriesFor(fp, ds)[i] == EntryFor(fp, ds, i);
  }

  lemma OccurrenceIsRecorded(fp: Fingerprint, ds: seq<Diagnostic>, scope: Scope, k: nat)
    requires k < multiset(Profiles(fp, ds))[Profile(scope.rule, scope.file, scope.base, false)]
    ensures Entry(scope.rule, OccurrenceFingerprint(fp, scope.base, k), scope.file) in EntriesFor(fp, ds)
  {
    OccurrencesAreExact(fp, ds, scope);
    MembersCount(fp, ds, scope);
    assert k in Below(|Members(fp, ds, scope)|);
    var i :| i in Members(fp, ds, scope) && Occurrences(fp, ds, scope)[i] == k;
    assert EntriesFor(fp, ds)[i] == EntryFor(fp, ds, i);
  }

  /** The baseline is a function of the multiset of profiles. */
  lemma BaselineIgnoresOrderAndPosition(fp: Fingerprint, ds: seq<Diagnostic>, ds': seq<Diagnostic>)
    requires multiset(Profiles(fp, ds)) == multiset(Profiles(fp, ds'))
    ensures Sorted(EntriesFor(fp, ds), EntryRank()) == Sorted(EntriesFor(fp, ds'), EntryRank())
  {
    hide CalledFor, EntryRank, Sorted, Injective;
    forall e ensures e in EntriesFor(fp, ds) <==> e in EntriesFor(fp, ds') {
      EntriesAreCalledFor(fp, ds, e);
      EntriesAreCalledFor(fp, ds', e);
    }
    EntryRankInjective();
    SortedUnique(EntriesFor(fp, ds), EntriesFor(fp, ds'), EntryRank());
  }

  /** The diagnostic at another place of its file, with the fingerprint it then has. */
  function MovedTo(fp: Fingerprint, d: Diagnostic, range: Range): Diagnostic {
    var moved := d.(range := range);
    moved.(stable := DefaultStable(fp, moved))
  }

  /** Moving default-fingerprint diagnostics within their files, any of them and
      anywhere, changes nothing of the baseline. */
  lemma BaselineIgnoresMoves(fp: Fingerprint, ds: seq<Diagnostic>, ds': seq<Diagnostic>)
    requires |ds| == |ds'|
    requires forall i ::
          0 <= i < |ds| ==> ds'[i] == ds[i] || (!IsCustom(fp, ds[i]) && ds'[i] == MovedTo(fp, ds[i], ds'[i].range))
    ensures Sorted(EntriesFor(fp, ds), EntryRank()) == Sorted(EntriesFor(fp, ds'), EntryRank())
  {
    assert Profiles(fp, ds) == Profiles(fp, ds');
    BaselineIgnoresOrderAndPosition(fp, ds, ds');
  }

  lemma WithoutOne<T>(xs: seq<T>, j: nat)
    requires j < |xs|
    ensures multiset(xs) == multiset(xs[..j] + xs[j + 1..]) + multiset{xs[j]}
  {
    assert xs == xs[..j] + [xs[j]] + xs[j + 1..];
  }

  lemma ProfilesWithoutOne(fp: Fingerprint, ds: seq<Diagnostic>, j: nat)
    requires j < |ds|
    ensures multiset(Profiles(fp, ds)) == multiset(Profiles(fp, ds[..j] + ds[j + 1..])) + multiset{ProfileOf(fp, ds[j])}
  {
    var ps := Profiles(fp, ds);
    assert Profiles(fp, ds[..j] + ds[j + 1..]) == ps[..j] + ps[j + 1..];
    WithoutOne(ps, j);
  }

  lemma {:induction false} PermutedProfiles(fp: Fingerprint, ds: seq<Diagnostic>, ds': seq<Diagnostic>)
    requires multiset(ds) == multiset(ds')
    ensures multiset(Profiles(fp, ds)) == multiset(Profiles(fp, ds'))
  {
    hide Profiles;
    assert |ds| == |multiset(ds)| && |ds'| == |multiset(ds')|;
    if ds != [] {
      var j := WithoutSame(ds, ds');
      PermutedProfiles(fp, ds[..0] + ds[1..], ds'[..j] + ds'[j + 1..]);
      ProfilesWithoutOne(fp, ds, 0);
      ProfilesWithoutOne(fp, ds', j);
    }
  }

  lemma WithoutSame<T>(xs: seq<T>, ys: seq<T>) returns (j: nat)
    requires xs != [] && multiset(xs) == multiset(ys)
    ensures j < |ys| && ys[j] == xs[0]
    ensures multiset(xs[..0] + xs[1..]) == multiset(ys[..j] + ys[j + 1..])
  {
    assert xs[0] in multiset(ys);
    j :| 0 <= j < |ys| && ys[j] == xs[0];
    WithoutOne(xs, 0);
    WithoutOne(ys, j);
    assert multiset(xs[..0] + xs[1..]) == multiset(xs) - multiset{xs[0]};
    assert multiset(ys[..j] + ys[j + 1..]) == multiset(ys) - multiset{ys[j]};
  }

  /** Permuting the list changes nothing of the baseline. */
  lemma BaselineIgnoresOrder(fp: Fingerprint, ds: seq<Diagnostic>, ds': seq<Diagnostic>)
    requires multiset(ds) == multiset(ds')
    ensures Sorted(EntriesFor(fp, ds), EntryRank()) == Sorted(EntriesFor(fp, ds'), EntryRank())
  {
    PermutedProfiles(fp, ds, ds');
    BaselineIgnoresOrderAndPosition(fp, ds, ds');
  }
}
