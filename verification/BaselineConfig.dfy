/** Classifying diagnostics against a baseline, and updating the baseline to them. */
module BaselineConfig {
  import opened Ordering
  import opened Baseline
  import opened BaselineMatch

  datatype Config = Config(baseline: seq<Entry>, ignore: seq<Entry>)

  datatype Summary = Summary(added: nat, existing: nat, fixed: nat, ignored: nat, stalePath: nat)

  datatype Classification = Classification(visible: seq<Diagnostic>, added: seq<Diagnostic>, summary: Summary)

  ghost function IdentitiesOf(fp: Fingerprint, ds: seq<Diagnostic>): (ids: seq<Identity>)
    ensures |ids| == |ds|
    ensures forall i :: 0 <= i < |ds| ==> ids[i] == Identity(ds[i].rule, ds[i].file, BaselineFingerprint(fp, ds, i),
                                                             ds[i].stable)
  {
    seq(|ds|, i requires 0 <= i < |ds| => Identity(ds[i].rule, ds[i].file, BaselineFingerprint(fp, ds, i),
                                                   ds[i].stable))
  }

  method Identify(fp: Fingerprint, ds: seq<Diagnostic>) returns (ids: seq<Identity>)
    ensures ids == IdentitiesOf(fp, ds)
  {
    var fingerprints := DiagnosticFingerprints(fp, ds);
    ids := seq(|ds|, i requires 0 <= i < |ds| => Identity(ds[i].rule, ds[i].file, fingerprints[i], ds[i].stable));
  }

  /** The baseline entries that are not ignored outright. */
  function Without(entries: seq<Entry>, ignore: seq<Entry>): (kept: seq<Entry>)
    ensures forall e :: e in kept <==> e in entries && e !in ignore
    ensures |kept| <= |entries|
  {
    if entries == [] then []
    else
      var last := entries[|entries| - 1];
      var kept := Without(entries[..|entries| - 1], ignore);
      if last in ignore then kept else kept + [last]
  }

  function Active(config: Config): seq<Entry> {
    Without(config.baseline, config.ignore)
  }

  /** The diagnostics at indices outside a set, in order. */
  function Select(ds: seq<Diagnostic>, out: set<nat>): seq<Diagnostic> {
    if ds == [] then []
    else
      var n := |ds| - 1;
      Select(ds[..n], out) + if n in out then [] else [ds[n]]
  }

  lemma {:induction false} SelectCounts(ds: seq<Diagnostic>, out: set<nat>)
    requires forall i :: i in out ==> i < |ds|
    ensures |Select(ds, out)| + |out| == |ds|
  {
    if ds != [] {
      var n := |ds| - 1;
      SelectOutOfRange(ds[..n], out, n);
      SelectCounts(ds[..n], out - {n});
    } else {
      assert out == {};
    }
  }

  lemma {:induction false} SelectOutOfRange(ds: seq<Diagnostic>, out: set<nat>, n: nat)
    requires n >= |ds|
    ensures Select(ds, out) == Select(ds, out - {n})
  {
    if ds != [] {
      SelectOutOfRange(ds[..|ds| - 1], out, n);
    }
  }

  /** The two matchings every decision rests on: ignored entries first, without
      relocation, then the active entries on what is left. */
  ghost predicate Matched(fp: Fingerprint, ds: seq<Diagnostic>, config: Config, ignored: Matches, known: Matches) {
    Matching(config.ignore, IdentitiesOf(fp, ds), {}, false, ignored)
    && Matching(Active(config), IdentitiesOf(fp, ds), ignored.matched, true, known)
  }

  ghost function IgnoredOf(fp: Fingerprint, ds: seq<Diagnostic>, config: Config): Matches {
    MatchesOf(config.ignore, IdentitiesOf(fp, ds), {}, false)
  }

  ghost function KnownOf(fp: Fingerprint, ds: seq<Diagnostic>, config: Config): Matches {
    MatchesOf(Active(config), IdentitiesOf(fp, ds), IgnoredOf(fp, ds, config).matched, true)
  }

  lemma MatchedOf(fp: Fingerprint, ds: seq<Diagnostic>, config: Config)
    ensures Matched(fp, ds, config, IgnoredOf(fp, ds, config), KnownOf(fp, ds, config))
  {
    MatchesOfIsMatching(config.ignore, IdentitiesOf(fp, ds), {}, false);
    MatchesOfIsMatching(Active(config), IdentitiesOf(fp, ds), IgnoredOf(fp, ds, config).matched, true);
  }

  /** New, existing and ignored diagnostics as the two matchings make them, and
      the counters. */
  ghost predicate ClassifiedBy(ds: seq<Diagnostic>, config: Config, ignored: Matches, known: Matches,
                               c: Classification) {
    c.visible == Select(ds, ignored.matched)
    && c.added == Select(ds, ignored.matched + known.matched)
    && c.summary.added == |c.added| && c.summary.existing == |known.matched| && c.summary.ignored == |ignored.matched|
    && c.summary.fixed == |Active(config)| - |known.pairs| && c.summary.stalePath == |known.stale|
  }

  lemma MatchingSizes(entries: seq<Entry>, ids: seq<Identity>, excluded: set<nat>, relocate: bool, m: Matches)
    requires Matching(entries, ids, excluded, relocate, m)
    ensures |m.matched| == |m.pairs| <= |entries|
    ensures m.matched !! excluded && forall d :: d in m.matched ==> d < |ids|
  {
    ValuesOfInjection(m.pairs);
    SubsetSize(m.pairs.Keys, Below(|entries|));
  }

  /** How many positions before `n` are not left out. */
  function KeptBefore(out: set<nat>, n: nat): nat {
    if n == 0 then 0 else KeptBefore(out, n - 1) + if n - 1 in out then 0 else 1
  }

  lemma {:induction false} SelectSize(ds: seq<Diagnostic>, out: set<nat>)
    ensures |Select(ds, out)| == KeptBefore(out, |ds|)
  {
    if ds != [] {
      SelectSize(ds[..|ds| - 1], out);
    }
  }

  /** The selection holds every diagnostic that is not left out, in order and once. */
  lemma {:induction false} SelectMeaning(ds: seq<Diagnostic>, out: set<nat>, i: nat)
    requires i < |ds| && i !in out
    ensures KeptBefore(out, i) < |Select(ds, out)| == KeptBefore(out, |ds|)
    ensures Select(ds, out)[KeptBefore(out, i)] == ds[i]
  {
    hide KeptBefore;
    var n := |ds| - 1;
    SelectSize(ds, out);
    SelectSize(ds[..n], out);
    KeptNext(out, n);
    if i < n {
      SelectMeaning(ds[..n], out, i);
    }
  }

  lemma KeptNext(out: set<nat>, n: nat)
    ensures KeptBefore(out, n + 1) == KeptBefore(out, n) + if n in out then 0 else 1
  {
  }

  method Sift(ds: seq<Diagnostic>, ignored: set<nat>, known: set<nat>) returns (visible: seq<Diagnostic>,
      added: seq<Diagnostic>)
    ensures visible == Select(ds, ignored) && added == Select(ds, ignored + known)
  {
    visible, added := [], [];
    for i := 0 to |ds|
      invariant visible == Select(ds[..i], ignored)
      invariant added == Select(ds[..i], ignored + known)
    {
      assert ds[..i + 1][..i] == ds[..i];
      if i in ignored {
        continue;
      }
      visible := visible + [ds[i]];
      if i in known {
        continue;
      }
      added := added + [ds[i]];
    }
    assert ds[..|ds|] == ds;
  }

  /** Every diagnostic is new, existing or ignored, every active entry existing or
      fixed, and the subtraction never underflows. */
  method Classify(fp: Fingerprint, ds: seq<Diagnostic>, config: Config) returns (c: Classification)
    ensures ClassifiedBy(ds, config, IgnoredOf(fp, ds, config), KnownOf(fp, ds, config), c)
    ensures Matched(fp, ds, config, IgnoredOf(fp, ds, config), KnownOf(fp, ds, config))
    ensures c.summary.added + c.summary.existing + c.summary.ignored == |ds|
    ensures c.summary.existing + c.summary.fixed == |Active(config)|
  {
    hide Matching, IdentitiesOf, Select, MatchesOf;
    var ids := Identify(fp, ds);
    var active := Active(config);
    var ignored := MatchEntries(config.ignore, ids, {}, false);
    var known := MatchEntries(active, ids, ignored.matched, true);
    MatchingSizes(config.ignore, ids, {}, false, ignored);
    MatchingSizes(active, ids, ignored.matched, true, known);
    var visible, added := Sift(ds, ignored.matched, known.matched);
    SelectCounts(ds, ignored.matched + known.matched);
    assert |ignored.matched + known.matched| == |ignored.matched| + |known.matched|;
    c := Classification(visible, added,
                        Summary(|added|, |known.matched|, |active| - |known.pairs|, |ignored.matched|, |known.stale|));
  }

  // ----- updating

  function EntryOf(id: Identity): Entry {
    Entry(id.rule, id.fingerprint, id.file)
  }

  /** The updated baseline records the matched diagnostics as they now are. */
  ghost predicate UpdatedBy(fp: Fingerprint, ds: seq<Diagnostic>, config: Config, known: Matches, config': Config) {
    Ascending(config'.baseline, EntryRank())
    && (forall e :: e in config'.baseline <==>
         exists d :: d in known.matched && d < |ds| && EntryOf(IdentitiesOf(fp, ds)[d]) == e)
    && config'.ignore == Sorted(config.ignore, EntryRank())
  }

  /** The entries of the matched diagnostics. */
  function Recorded(ids: seq<Identity>, matched: set<nat>): (entries: seq<Entry>)
    ensures forall e :: e in entries <==> exists d :: d in matched && d < |ids| && EntryOf(ids[d]) == e
  {
    if ids == [] then []
    else
      var n := |ids| - 1;
      var earlier := Recorded(ids[..n], matched);
      assert forall d: nat :: d < n ==> ids[..n][d] == ids[d];
      if n in matched then earlier + [EntryOf(ids[n])] else earlier
  }

  ghost function Updated(fp: Fingerprint, ds: seq<Diagnostic>, config: Config): Config {
    Config(Sorted(Recorded(IdentitiesOf(fp, ds), KnownOf(fp, ds, config).matched), EntryRank()),
           Sorted(config.ignore, EntryRank()))
  }

  lemma UpdatedByUpdated(fp: Fingerprint, ds: seq<Diagnostic>, config: Config)
    ensures UpdatedBy(fp, ds, config, KnownOf(fp, ds, config), Updated(fp, ds, config))
  {
    hide Injective, Ascending, EntryRank, Sorted, MatchesOf;
    EntryRankInjective();
    SortedSorts(Recorded(IdentitiesOf(fp, ds), KnownOf(fp, ds, config).matched), EntryRank());
  }

  method UpdateFor(fp: Fingerprint, ds: seq<Diagnostic>, config: Config) returns (config': Config)
    ensures config' == Updated(fp, ds, config)
    ensures UpdatedBy(fp, ds, config, KnownOf(fp, ds, config), config')
  {
    UpdatedByUpdated(fp, ds, config);
    hide Matching, EntryRank, Sorted, MatchesOf, UpdatedBy, Recorded, IdentitiesOf;
    var ids := Identify(fp, ds);
    var ignored := MatchEntries(config.ignore, ids, {}, false);
    var known := MatchEntries(Active(config), ids, ignored.matched, true);
    var entries: seq<Entry> := [];
    RecordNothing(ids, known.matched);
    for i := 0 to |ids|
      invariant entries == Recorded(ids[..i], known.matched)
    {
      RecordNext(ids, i, known.matched);
      if i in known.matched {
        entries := entries + [EntryOf(ids[i])];
      }
    }
    assert ids[..|ids|] == ids;
    config' := Config(Sorted(entries, EntryRank()), Sorted(config.ignore, EntryRank()));
  }

  lemma RecordNothing(ids: seq<Identity>, matched: set<nat>)
    ensures Recorded(ids[..0], matched) == []
  {
  }

  lemma RecordNext(ids: seq<Identity>, i: nat, matched: set<nat>)
    requires i < |ids|
    ensures Recorded(ids[..i + 1], matched) ==
            Recorded(ids[..i], matched) + if i in matched then [EntryOf(ids[i])] else []
  {
    assert ids[..i + 1][..i] == ids[..i];
  }

  /** What an update records is what a new baseline of the same diagnostics would record. */
  lemma UpdateRecordsOfNew(fp: Fingerprint, ds: seq<Diagnostic>, config: Config, e: Entry)
    requires e in Updated(fp, ds, config).baseline
    ensures e in EntriesFor(fp, ds)
  {
    UpdatedByUpdated(fp, ds, config);
    var d :| d in KnownOf(fp, ds, config).matched && d < |ds| && EntryOf(IdentitiesOf(fp, ds)[d]) == e;
    assert EntriesFor(fp, ds)[d] == e;
  }

  /** An entry is found by either of the two fingerprints of a diagnostic of its rule and
      file, and by nothing else there. */
  lemma FoundByEitherFingerprint(id: Identity, e: Entry)
    requires e.file == id.file
    ensures MatchesOf([e], [id], {}, false).matched ==
            if e.rule == id.rule && e.fingerprint in {id.fingerprint, id.stable} then {0} else {}
  {
    MatchesOfIsMatching([e], [id], {}, false);
    var m := MatchesOf([e], [id], {}, false);
    assert e.rule == id.rule && e.fingerprint in {id.fingerprint, id.stable} ==>
        Candidate([e], [id], {}, 0, 0) && SameFile([e], [id], 0, 0);
    forall d | d in m.matched ensures d == 0 && e.rule == id.rule && e.fingerprint in {id.fingerprint, id.stable} {
      var x :| x in m.pairs && m.pairs[x] == d;
      assert Candidate([e], [id], {}, x, d);
    }
    assert forall y :: Home([e], [id], m, y) ==> y == 0;
    assert Home([e], [id], m, 0) ==> m.pairs[0] in m.pairs.Values;
  }

  // ----- stability of an update

  /** No two diagnostics of one file answer to a common key. */
  ghost predicate DistinctKeys(ids: seq<Identity>) {
    forall a: nat, b: nat, key ::
          a < |ids| && b < |ids| && ids[a].file == ids[b].file && HasKey(ids[a], key) && HasKey(ids[b], key) ==> a == b
  }

  /** Then what is ignored depends on the set of ignored entries alone. */
  lemma IgnoredExactly(entries: seq<Entry>, ids: seq<Identity>, m: Matches, d: nat)
    requires DistinctKeys(ids) && Matching(entries, ids, {}, false, m)
    ensures d in m.matched <==> d < |ids| && exists e ::
          e in entries && e.file == ids[d].file && HasKey(ids[d], KeyOf(e))
  {
    if d in m.matched {
      var x :| x in m.pairs && m.pairs[x] == d;
      assert Home(entries, ids, m, x) && entries[x] in entries;
    }
    if d < |ids| && exists e :: e in entries && e.file == ids[d].file && HasKey(ids[d], KeyOf(e)) {
      var e :| e in entries && e.file == ids[d].file && HasKey(ids[d], KeyOf(e));
      var x :| 0 <= x < |entries| && entries[x] == e;
      assert Candidate(entries, ids, {}, x, d) && SameFile(entries, ids, x, d);
      if Home(entries, ids, m, x) {
        assert m.pairs[x] == d && m.pairs[x] in m.pairs.Values;
      } else {
        var y :| Home(entries, ids, m, y) && m.pairs[y] == d;
        assert m.pairs[y] in m.pairs.Values;
      }
    }
  }

  /** The entries of the recorded diagnostics, each once. */
  ghost predicate Records(entries: seq<Entry>, ids: seq<Identity>, recorded: set<nat>) {
    && (forall i, j :: 0 <= i < j < |entries| ==> entries[i] != entries[j])
    && (forall d :: d in recorded ==> d < |ids|)
    && (forall e :: e in entries <==> exists d :: d in recorded && d < |ids| && EntryOf(ids[d]) == e)
  }

  /** An entry is matched at home with a diagnostic it was recorded from. */
  ghost predicate FoundAgain(entries: seq<Entry>, ids: seq<Identity>, recorded: set<nat>, m: Matches, x: nat) {
    x < |entries| && Home(entries, ids, m, x) && m.pairs[x] in recorded && m.pairs[x] < |ids|
    && EntryOf(ids[m.pairs[x]]) == entries[x]
  }

  /** Entries recorded from distinct diagnostics are all found at home again. */
  lemma RecordedAreFound(entries: seq<Entry>, ids: seq<Identity>, excluded: set<nat>, recorded: set<nat>, m: Matches)
    requires DistinctKeys(ids) && Matching(entries, ids, excluded, true, m)
    requires Records(entries, ids, recorded) && recorded !! excluded
    ensures m.matched == recorded && m.stale == {} && |m.pairs| == |entries|
  {
    forall x: nat | x < |entries| ensures FoundAgain(entries, ids, recorded, m, x) {
      EntryIsFound(entries, ids, excluded, recorded, m, x);
    }
    forall d | d in recorded ensures d in m.matched {
      DiagnosticIsFound(entries, ids, recorded, m, d);
    }
    AllFound(entries, ids, excluded, recorded, m);
  }

  lemma EntryIsFound(entries: seq<Entry>, ids: seq<Identity>, excluded: set<nat>, recorded: set<nat>, m: Matches,
                     x: nat)
    requires DistinctKeys(ids) && Matching(entries, ids, excluded, true, m)
    requires Records(entries, ids, recorded) && recorded !! excluded && x < |entries|
    ensures FoundAgain(entries, ids, recorded, m, x)
  {
    hide TakesFirst, LonePairsMeet, Unambiguous;
    assert entries[x] in entries;
    var d :| d in recorded && d < |ids| && EntryOf(ids[d]) == entries[x];
    assert Candidate(entries, ids, excluded, x, d) && SameFile(entries, ids, x, d);
    assert HasKey(ids[d], KeyOf(entries[x]));
    if !Home(entries, ids, m, x) {
      var y :| Home(entries, ids, m, y) && m.pairs[y] == d;
      OnlyItsOwnEntry(entries, ids, recorded, x, y, d);
      assert false;
    }
  }

  lemma DiagnosticIsFound(entries: seq<Entry>, ids: seq<Identity>, recorded: set<nat>, m: Matches, d: nat)
    requires DistinctKeys(ids) && m.matched == m.pairs.Values && Records(entries, ids, recorded) && d in recorded
    requires forall x: nat :: x < |entries| ==> FoundAgain(entries, ids, recorded, m, x)
    ensures d in m.matched
  {
    assert EntryOf(ids[d]) in entries;
    var x :| 0 <= x < |entries| && entries[x] == EntryOf(ids[d]);
    assert FoundAgain(entries, ids, recorded, m, x);
    assert HasKey(ids[d], KeyOf(entries[x])) && HasKey(ids[m.pairs[x]], KeyOf(entries[x]));
    assert m.pairs[x] == d && m.pairs[x] in m.pairs.Values;
  }

  lemma AllFound(entries: seq<Entry>, ids: seq<Identity>, excluded: set<nat>, recorded: set<nat>, m: Matches)
    requires ProperMatching(entries, ids, excluded, m)
    requires forall x: nat :: x < |entries| ==> FoundAgain(entries, ids, recorded, m, x)
    ensures m.matched <= recorded && m.stale == {} && |m.pairs| == |entries|
  {
    forall x | x in m.pairs ensures x < |entries| && m.pairs[x] in recorded && Home(entries, ids, m, x) {
      assert Candidate(entries, ids, excluded, x, m.pairs[x]);
      assert FoundAgain(entries, ids, recorded, m, x);
    }
    forall x: nat ensures x in m.pairs.Keys <==> x in Below(|entries|) {
      assert x < |entries| ==> FoundAgain(entries, ids, recorded, m, x);
    }
    assert m.pairs.Keys == Below(|entries|);
  }

  lemma OnlyItsOwnEntry(entries: seq<Entry>, ids: seq<Identity>, recorded: set<nat>, x: nat, y: nat, d: nat)
    requires DistinctKeys(ids) && Records(entries, ids, recorded) && x < |entries| && y < |entries| && d < |ids|
    requires EntryOf(ids[d]) == entries[x] && entries[y].file == ids[d].file && HasKey(ids[d], KeyOf(entries[y]))
    ensures entries[x] == entries[y]
  {
    assert entries[y] in entries;
    var k :| k in recorded && k < |ids| && EntryOf(ids[k]) == entries[y];
    assert HasKey(ids[k], KeyOf(entries[y]));
  }

  /** Updating a baseline and classifying the same diagnostics again gives the same
      ignored, existing and hence new diagnostics, with nothing fixed and nothing at
      a stale path; and a second update changes nothing. */
  lemma UpdateIsStable(fp: Fingerprint, ds: seq<Diagnostic>, config: Config, ignored: Matches, known: Matches,
                       config': Config, ignored': Matches, known': Matches, config'': Config)
    requires DistinctKeys(IdentitiesOf(fp, ds))
    requires Matched(fp, ds, config, ignored, known) && UpdatedBy(fp, ds, config, known, config')
    requires Matched(fp, ds, config', ignored', known') && UpdatedBy(fp, ds, config', known', config'')
    ensures ignored'.matched == ignored.matched && known'.matched == known.matched
    ensures known'.stale == {} && |known'.pairs| == |Active(config')|
    ensures config'' == config'
  {
    hide Matching, UpdatedBy, Records, DistinctKeys, Active;
    var ids := IdentitiesOf(fp, ds);
    SameIgnored(fp, ds, config, ignored, known, config', ignored');
    NothingRecordedIsIgnored(fp, ds, config, ignored, known, config');
    UpdateRecords(fp, ds, config, ignored, known, config');
    UpdateRecords(fp, ds, config', ignored', known', config'');
    NothingIsRemoved(config');
    RecordedAreFound(config'.baseline, ids, ignored'.matched, known.matched, known');
    SameRecords(fp, ds, config, known, config', known', config'');
  }

  lemma UpdateRecords(fp: Fingerprint, ds: seq<Diagnostic>, config: Config, ignored: Matches, known: Matches,
                      config': Config)
    requires Matched(fp, ds, config, ignored, known) && UpdatedBy(fp, ds, config, known, config')
    ensures Records(config'.baseline, IdentitiesOf(fp, ds), known.matched) && known.matched !! ignored.matched
  {
    MatchingSizes(Active(config), IdentitiesOf(fp, ds), ignored.matched, true, known);
    hide Matching, IdentitiesOf, Injective;
    EntryRankInjective();
    forall i, j | 0 <= i < j < |config'.baseline| ensures config'.baseline[i] != config'.baseline[j] {
      AscendingDistinct(config'.baseline, EntryRank(), i, j);
    }
  }

  lemma NothingIsRemoved(config: Config)
    requires forall e :: e in config.baseline ==> e !in config.ignore
    ensures Active(config) == config.baseline
  {
    AllKept(config.baseline, config.ignore);
  }

  lemma SameRecords(fp: Fingerprint, ds: seq<Diagnostic>, config: Config, known: Matches, config': Config,
                    known': Matches, config'': Config)
    requires UpdatedBy(fp, ds, config, known, config') && UpdatedBy(fp, ds, config', known', config'')
    requires known'.matched == known.matched
    ensures config'' == config'
  {
    hide Ascending, Injective;
    EntryRankInjective();
    SortedSorts(config.ignore, EntryRank());
    AscendingUnique(config''.baseline, config'.baseline, EntryRank());
    SortedIdempotent(config'.ignore, EntryRank());
  }

  lemma SameIgnored(fp: Fingerprint, ds: seq<Diagnostic>, config: Config, ignored: Matches, known: Matches,
                    config': Config, ignored': Matches)
    requires DistinctKeys(IdentitiesOf(fp, ds)) && Matched(fp, ds, config, ignored, known)
    requires UpdatedBy(fp, ds, config, known, config')
    requires Matching(config'.ignore, IdentitiesOf(fp, ds), {}, false, ignored')
    ensures ignored'.matched == ignored.matched
  {
    hide Matching, DistinctKeys;
    EntryRankInjective();
    SortedSorts(config.ignore, EntryRank());
    forall d: nat ensures d in ignored'.matched <==> d in ignored.matched {
      IgnoredExactly(config.ignore, IdentitiesOf(fp, ds), ignored, d);
      IgnoredExactly(config'.ignore, IdentitiesOf(fp, ds), ignored', d);
    }
  }

  lemma NothingRecordedIsIgnored(fp: Fingerprint, ds: seq<Diagnostic>, config: Config, ignored: Matches, known: Matches,
                                 config': Config)
    requires DistinctKeys(IdentitiesOf(fp, ds))
    requires Matched(fp, ds, config, ignored, known) && UpdatedBy(fp, ds, config, known, config')
    ensures forall e :: e in config'.baseline ==> e !in config'.ignore
  {
    var ids := IdentitiesOf(fp, ds);
    EntryRankInjective();
    SortedSorts(config.ignore, EntryRank());
    MatchingSizes(Active(config), ids, ignored.matched, true, known);
    forall e | e in config'.baseline ensures e !in config'.ignore {
      var d :| d in known.matched && d < |ds| && EntryOf(ids[d]) == e;
      IgnoredExactly(config.ignore, ids, ignored, d);
      assert HasKey(ids[d], KeyOf(e));
    }
  }

  lemma {:induction false} AllKept(entries: seq<Entry>, ignore: seq<Entry>)
    requires forall e :: e in entries ==> e !in ignore
    ensures Without(entries, ignore) == entries
  {
    if entries != [] {
      var n := |entries| - 1;
      assert entries[n] in entries && entries[n] !in ignore;
      AllKept(entries[..n], ignore);
      assert Without(entries, ignore) == entries[..n] + [entries[n]];
    }
  }

  /** Updating keeps what was ignored and existing, leaves nothing fixed or stale, and
      updating again changes nothing. */
  ghost predicate Stable(fp: Fingerprint, ds: seq<Diagnostic>, config: Config) {
    var updated := Updated(fp, ds, config);
    && IgnoredOf(fp, ds, updated).matched == IgnoredOf(fp, ds, config).matched
    && KnownOf(fp, ds, updated).matched == KnownOf(fp, ds, config).matched
    && KnownOf(fp, ds, updated).stale == {} && |KnownOf(fp, ds, updated).pairs| == |Active(updated)|
    && Updated(fp, ds, updated) == updated
  }

  lemma DistinctKeysAreStable(fp: Fingerprint, ds: seq<Diagnostic>, config: Config)
    requires DistinctKeys(IdentitiesOf(fp, ds))
    ensures Stable(fp, ds, config)
  {
    hide Matched, UpdatedBy, MatchesOf, DistinctKeys, IdentitiesOf;
    var updated := Updated(fp, ds, config);
    MatchedOf(fp, ds, config);
    MatchedOf(fp, ds, updated);
    UpdatedByUpdated(fp, ds, config);
    UpdatedByUpdated(fp, ds, updated);
    UpdateIsStable(fp, ds, config, IgnoredOf(fp, ds, config), KnownOf(fp, ds, config), updated,
                   IgnoredOf(fp, ds, updated), KnownOf(fp, ds, updated), Updated(fp, ds, updated));
  }
}
