/** Exactly when updating a baseline is stable: for every configuration, and for the
    ordered, duplicate-free ones that parsing and updating produce. */
module BaselineStability {
  import opened Ordering
  import opened Baseline
  import opened BaselineMatch
  import opened BaselineConfig
  import Text

  // ----- every configuration

  /** Ignoring a shared key as often as there are diagnostics ignores all that share it;
      the update keeps one of these entries, which ignores one. */
  lemma SharedKeyIsUnstable(fp: Fingerprint, ds: seq<Diagnostic>, a: nat, b: nat,
                            key: BaselineKey) returns (config: Config)
    requires a < |ds| && b < |ds| && a != b && ds[a].file == ds[b].file
    requires HasKey(IdentitiesOf(fp, ds)[a], key) && HasKey(IdentitiesOf(fp, ds)[b], key)
    ensures !Stable(fp, ds, config)
  {
    hide MatchesOf, KnownOf, Sorted;
    var ids := IdentitiesOf(fp, ds);
    var entry := Entry(key.rule, key.fingerprint, ds[a].file);
    config := Config([], seq(|ds|, i => entry));
    MatchesOfIsMatching(config.ignore, ids, {}, false);
    var m := IgnoredOf(fp, ds, config);
    CopiesTakeAll(config.ignore, ids, m, entry, a);
    CopiesTakeAll(config.ignore, ids, m, entry, b);
    var ignore := Updated(fp, ds, config).ignore;
    AtMostOne(config.ignore, entry);
    MatchesOfIsMatching(ignore, ids, {}, false);
    MatchingSizes(ignore, ids, {}, false, IgnoredOf(fp, ds, Updated(fp, ds, config)));
    TwoOfThem(m.matched, a, b);
  }

  lemma TwoOfThem(s: set<nat>, a: nat, b: nat)
    requires a in s && b in s && a != b
    ensures |s| >= 2
  {
    SubsetSize({a, b}, s);
  }

  lemma CopiesTakeAll(entries: seq<Entry>, ids: seq<Identity>, m: Matches, entry: Entry, d: nat)
    requires Matching(entries, ids, {}, false, m) && |entries| == |ids| && forall i :: 0 <= i < |entries| ==>
        entries[i] == entry
    requires d < |ids| && ids[d].file == entry.file && HasKey(ids[d], KeyOf(entry))
    ensures d in m.matched
  {
    if d !in m.matched {
      forall i: nat | i < |entries| ensures i in m.pairs {
        assert Candidate(entries, ids, {}, i, d) && SameFile(entries, ids, i, d);
      }
      MatchingSizes(entries, ids, {}, false, m);
      SubsetSize(Below(|entries|), m.pairs.Keys);
      assert |m.matched| == |m.pairs| == |m.pairs.Keys|;
      FullSet(m.matched, |ids|, d);
    }
  }

  lemma FullSet(s: set<nat>, n: nat, d: nat)
    requires |s| >= n && d < n && forall x :: x in s ==> x < n
    ensures d in s
  {
    if d !in s {
      assert s + {d} <= Below(n);
      SubsetSize(s + {d}, Below(n));
    }
  }

  lemma AtMostOne(entries: seq<Entry>, entry: Entry)
    requires forall i :: 0 <= i < |entries| ==> entries[i] == entry
    ensures |Sorted(entries, EntryRank())| <= 1
  {
    var sorted := Sorted(entries, EntryRank());
    EntryRankInjective();
    SortedSorts(entries, EntryRank());
    if |sorted| > 1 {
      assert sorted[0] in sorted && sorted[1] in sorted;
      AscendingDistinct(sorted, EntryRank(), 0, 1);
    }
  }

  /** Updating is stable for every configuration exactly when no two diagnostics of one
      file share a key. */
  lemma StableExactlyWhen(fp: Fingerprint, ds: seq<Diagnostic>)
    ensures (forall config :: Stable(fp, ds, config)) <==> DistinctKeys(IdentitiesOf(fp, ds))
  {
    hide Stable;
    if DistinctKeys(IdentitiesOf(fp, ds)) {
      forall config ensures Stable(fp, ds, config) {
        DistinctKeysAreStable(fp, ds, config);
      }
    } else {
      var ids := IdentitiesOf(fp, ds);
      var a: nat, b: nat, key :| a < |ids| && b < |ids| && ids[a].file == ids[b].file && HasKey(ids[a], key)
            && HasKey(ids[b], key) && a != b;
      var config := SharedKeyIsUnstable(fp, ds, a, b, key);
    }
  }

  // ----- ordered configurations

  ghost predicate Ordered(config: Config) {
    Ascending(config.baseline, EntryRank()) && Ascending(config.ignore, EntryRank())
  }

  ghost function Sharers(ids: seq<Identity>, key: BaselineKey): set<nat> {
    set d | 0 <= d < |ids| && HasKey(ids[d], key)
  }

  ghost function FilesOf(ids: seq<Identity>, ds: set<nat>): set<string> {
    set d | d in ds && 0 <= d < |ids| :: ids[d].file
  }

  /** In one file, another diagnostic answers to the key under which one is recorded. */
  ghost predicate Contested(ids: seq<Identity>, key: BaselineKey) {
    exists a: nat, b: nat :: a < |ids| && b < |ids| && a != b && ids[a].file == ids[b].file
      && KeyOf(EntryOf(ids[a])) == key && HasKey(ids[b], key)
  }

  /** Diagnostics with a contested key answer to no other. */
  ghost predicate Tidy(ids: seq<Identity>) {
    forall key :: Contested(ids, key) ==> forall d :: d in Sharers(ids, key) ==> ids[d].fingerprint == ids[d].stable
  }

  /** One more diagnostic than files: exactly one file holds two of them. */
  ghost predicate OneSurplus(ids: seq<Identity>, key: BaselineKey) {
    |Sharers(ids, key)| == |FilesOf(ids, Sharers(ids, key))| + 1
  }

  ghost predicate NoDuplicates(entries: seq<Entry>) {
    forall i, j :: 0 <= i < j < |entries| ==> entries[i] != entries[j]
  }

  /** Two matchings as a classification makes them, on lists without duplicates. */
  ghost predicate Classified(ids: seq<Identity>, ignore: seq<Entry>, active: seq<Entry>, ignored: Matches,
                             known: Matches) {
    && Matching(ignore, ids, {}, false, ignored) && Matching(active, ids, ignored.matched, true, known)
    && NoDuplicates(ignore) && NoDuplicates(active) && forall e :: e in active ==> e !in ignore
  }

  ghost predicate OneKey(ids: seq<Identity>, key: BaselineKey) {
    forall d :: d in Sharers(ids, key) ==> ids[d].fingerprint == ids[d].stable
  }

  /** The entry of the key in the file of a diagnostic. */
  ghost function Own(ids: seq<Identity>, key: BaselineKey, d: nat): Entry
    requires d < |ids|
  {
    Entry(key.rule, key.fingerprint, ids[d].file)
  }

  ghost predicate HasOwn(ids: seq<Identity>, key: BaselineKey, entries: seq<Entry>, m: Matches, d: nat)
    requires d < |ids|
  {
    exists e: nat :: e in m.pairs && e < |entries| && m.pairs[e] == d && entries[e] == Own(ids, key, d)
  }

  /** A match at home of a diagnostic with one key is by that key's entry in its file. */
  lemma HomeIsOwn(ids: seq<Identity>, key: BaselineKey, entries: seq<Entry>, excluded: set<nat>, m: Matches, e: nat)
    requires ProperMatching(entries, ids, excluded, m) && Home(entries, ids, m, e) && OneKey(ids, key)
    requires m.pairs[e] in Sharers(ids, key)
    ensures HasOwn(ids, key, entries, m, m.pairs[e])
  {
  }

  /** One entry matches one diagnostic. */
  lemma OwnIsUnique(ids: seq<Identity>, key: BaselineKey, entries: seq<Entry>, m: Matches, a: nat, b: nat)
    requires NoDuplicates(entries) && a < |ids| && b < |ids| && ids[a].file == ids[b].file
    requires HasOwn(ids, key, entries, m, a) && HasOwn(ids, key, entries, m, b)
    ensures a == b
  {
  }

  lemma {:induction false} FilesInjective(ids: seq<Identity>, ds: set<nat>)
    requires forall d :: d in ds ==> d < |ids|
    requires forall a, b :: a in ds && b in ds && ids[a].file == ids[b].file ==> a == b
    ensures |FilesOf(ids, ds)| == |ds|
  {
    if ds != {} {
      var d :| d in ds;
      FilesInjective(ids, ds - {d});
      assert FilesOf(ids, ds) == FilesOf(ids, ds - {d}) + {ids[d].file};
      assert ids[d].file !in FilesOf(ids, ds - {d});
    }
  }

  /** What is left of the sharers of a key when one of them was found in another file:
      each was matched by the key's entry in its own file. */
  lemma OthersAreOwn(ids: seq<Identity>, ignore: seq<Entry>, active: seq<Entry>, ignored: Matches, known: Matches,
                     key: BaselineKey, e: nat, d: nat)
    requires Classified(ids, ignore, active, ignored, known) && OneKey(ids, key)
    requires e in known.pairs && e < |active| && KeyOf(active[e]) == key && !Home(active, ids, known, e)
    requires d in Sharers(ids, key) && d != known.pairs[e]
    ensures HasOwn(ids, key, ignore, ignored, d) || HasOwn(ids, key, active, known, d)
  {
    hide OneKey, NoDuplicates, HasOwn, LonePairsMeet, TakesFirst, HomeExhausted;
    if d in ignored.matched {
      var i :| i in ignored.pairs && ignored.pairs[i] == d;
      assert Home(ignore, ids, ignored, i);
      HomeIsOwn(ids, key, ignore, {}, ignored, i);
    } else {
      assert Unambiguous(active, ids, ignored.matched, known, e);
      assert Candidate(active, ids, ignored.matched, e, d);
      var y :| y in known.pairs && known.pairs[y] == d;
      SharedEntryKey(ids, active, ignored.matched, known, key, y);
      assert Home(active, ids, known, y);
      HomeIsOwn(ids, key, active, ignored.matched, known, y);
    }
  }

  lemma SharedEntryKey(ids: seq<Identity>, entries: seq<Entry>, excluded: set<nat>, m: Matches, key: BaselineKey,
                       e: nat)
    requires ProperMatching(entries, ids, excluded, m) && e in m.pairs && OneKey(ids, key)
    requires m.pairs[e] in Sharers(ids, key)
    ensures e < |entries| && KeyOf(entries[e]) == key
  {
  }

  /** A relocation into a file with another sharer of the key takes the one surplus. */
  lemma RelocationShowsSurplus(ids: seq<Identity>, ignore: seq<Entry>, active: seq<Entry>, ignored: Matches,
                               known: Matches,
                               key: BaselineKey, e: nat, other: nat)
    requires Classified(ids, ignore, active, ignored, known) && OneKey(ids, key)
    requires e in known.pairs && e < |active| && KeyOf(active[e]) == key && !Home(active, ids, known, e)
    requires other in Sharers(ids, key) && other != known.pairs[e] && known.pairs[e] < |ids|
    requires ids[other].file == ids[known.pairs[e]].file && known.pairs[e] in Sharers(ids, key)
    ensures OneSurplus(ids, key)
  {
    hide Matching, HasOwn;
    var d, all := known.pairs[e], Sharers(ids, key);
    var rest := all - {d};
    forall a, b | a in rest && b in rest && ids[a].file == ids[b].file ensures a == b {
      OthersAreOwn(ids, ignore, active, ignored, known, key, e, a);
      OthersAreOwn(ids, ignore, active, ignored, known, key, e, b);
      OwnOnce(ids, key, ignore, active, ignored, known, a, b);
    }
    FilesInjective(ids, rest);
    assert FilesOf(ids, rest) == FilesOf(ids, all);
  }

  lemma OwnOnce(ids: seq<Identity>, key: BaselineKey, ignore: seq<Entry>, active: seq<Entry>, ignored: Matches,
                known: Matches, a: nat, b: nat)
    requires NoDuplicates(ignore) && NoDuplicates(active) && forall e :: e in active ==> e !in ignore
    requires a < |ids| && b < |ids| && ids[a].file == ids[b].file
    requires HasOwn(ids, key, ignore, ignored, a) || HasOwn(ids, key, active, known, a)
    requires HasOwn(ids, key, ignore, ignored, b) || HasOwn(ids, key, active, known, b)
    ensures a == b
  {
    if HasOwn(ids, key, ignore, ignored, a) && HasOwn(ids, key, ignore, ignored, b) {
      OwnIsUnique(ids, key, ignore, ignored, a, b);
    } else if HasOwn(ids, key, active, known, a) && HasOwn(ids, key, active, known, b) {
      OwnIsUnique(ids, key, active, known, a, b);
    } else {
      OwnIsListed(ids, key, ignore, ignored, a);
      OwnIsListed(ids, key, ignore, ignored, b);
      OwnIsListed(ids, key, active, known, a);
      OwnIsListed(ids, key, active, known, b);
    }
  }

  lemma OwnIsListed(ids: seq<Identity>, key: BaselineKey, entries: seq<Entry>, m: Matches, d: nat)
    requires d < |ids|
    ensures HasOwn(ids, key, entries, m, d) ==> Own(ids, key, d) in entries
  {
  }

  /** Every contested key has no surplus, or more than one. */
  ghost predicate NoLoneSurplus(ids: seq<Identity>) {
    forall key :: Contested(ids, key) ==> !OneSurplus(ids, key)
  }

  /** What a classification is made of when no contested key has one surplus. */
  ghost predicate Settled(ids: seq<Identity>, ignore: seq<Entry>, active: seq<Entry>, ignored: Matches,
                          known: Matches) {
    Classified(ids, ignore, active, ignored, known) && Tidy(ids) && NoLoneSurplus(ids)
  }

  /** A matched diagnostic with a rival for its recorded key was matched at home, by the
      key's entry in its file. */
  lemma RivalMeansHome(ids: seq<Identity>, ignore: seq<Entry>, active: seq<Entry>, ignored: Matches, known: Matches,
                       d: nat, c: nat)
    returns (e: nat)
    requires Settled(ids, ignore, active, ignored, known) && d in known.matched && d < |ids|
    requires c < |ids| && c != d && ids[c].file == ids[d].file && HasKey(ids[c], KeyOf(EntryOf(ids[d])))
    ensures ids[c].fingerprint == ids[c].stable && ids[d].fingerprint == ids[d].stable
    ensures e in known.pairs && e < |active| && known.pairs[e] == d && Home(active, ids, known, e)
    ensures active[e] == EntryOf(ids[d])
  {
    hide OneSurplus, LonePairsMeet, TakesFirst, HomeExhausted, NoDuplicates;
    var key := KeyOf(EntryOf(ids[d]));
    assert Contested(ids, key) && d in Sharers(ids, key) && c in Sharers(ids, key);
    e :| e in known.pairs && known.pairs[e] == d;
    SharedEntryKey(ids, active, ignored.matched, known, key, e);
    if !Home(active, ids, known, e) {
      RelocationShowsSurplus(ids, ignore, active, ignored, known, key, e, c);
    }
  }

  lemma RecordedDiffer(ids: seq<Identity>, ignore: seq<Entry>, active: seq<Entry>, ignored: Matches, known: Matches,
                       a: nat, b: nat)
    requires Settled(ids, ignore, active, ignored, known) && a in known.matched && b in known.matched && a < |ids|
    requires b < |ids|
    requires EntryOf(ids[a]) == EntryOf(ids[b])
    ensures a == b
  {
    hide Matching, Tidy, NoLoneSurplus;
    if a != b {
      var e := RivalMeansHome(ids, ignore, active, ignored, known, a, b);
      var e' := RivalMeansHome(ids, ignore, active, ignored, known, b, a);
    }
  }

  lemma RecordedNotIgnored(ids: seq<Identity>, ignore: seq<Entry>, active: seq<Entry>, ignored: Matches, known: Matches,
                           d: nat)
    requires Settled(ids, ignore, active, ignored, known) && d in known.matched && d < |ids|
    ensures EntryOf(ids[d]) !in ignore
  {
    hide LonePairsMeet, TakesFirst, Tidy, NoLoneSurplus;
    var entry := EntryOf(ids[d]);
    if entry in ignore {
      var i :| 0 <= i < |ignore| && ignore[i] == entry;
      MatchingSizes(active, ids, ignored.matched, true, known);
      assert Candidate(ignore, ids, {}, i, d) && SameFile(ignore, ids, i, d);
      assert forall x :: x in ignored.pairs ==> ignored.pairs[x] in ignored.pairs.Values;
      assert Home(ignore, ids, ignored, i);
      var c := ignored.pairs[i];
      assert Candidate(ignore, ids, {}, i, c);
      var e := RivalMeansHome(ids, ignore, active, ignored, known, d, c);
    }
  }

  /** A matched diagnostic comes before every rival that is not ignored. */
  lemma MatchedComesFirst(ids: seq<Identity>, ignore: seq<Entry>, active: seq<Entry>, ignored: Matches, known: Matches,
                          d: nat, c: nat)
    requires Settled(ids, ignore, active, ignored, known) && d in known.matched && d < |ids|
    requires c < |ids| && c != d && ids[c].file == ids[d].file && HasKey(ids[c], KeyOf(EntryOf(ids[d])))
    requires c !in ignored.matched
    ensures d < c && EntryOf(ids[c]) == EntryOf(ids[d])
  {
    hide LonePairsMeet, HomeExhausted, Tidy, NoLoneSurplus;
    var e := RivalMeansHome(ids, ignore, active, ignored, known, d, c);
    assert Candidate(active, ids, ignored.matched, e, c) && SameFile(active, ids, e, c);
    assert c < d ==> MatchedAtHome(active, ids, known, c);
    assert forall y :: y in known.pairs && known.pairs[y] == c ==> Candidate(active, ids, ignored.matched, y, c);
  }

  // ----- the recorded entries find their diagnostics again

  /** Another diagnostic of the file that could take the entry of `d`. */
  ghost predicate Rival(ids: seq<Identity>, excluded: set<nat>, d: nat, c: nat) {
    d < |ids| && c < |ids| && c != d && c !in excluded && ids[c].file == ids[d].file
      && HasKey(ids[c], KeyOf(EntryOf(ids[d])))
  }

  ghost predicate Separate(ids: seq<Identity>, excluded: set<nat>, matched: set<nat>) {
    && (forall d :: d in matched ==> d < |ids| && d !in excluded)
    && (forall a, b :: a in matched && b in matched && EntryOf(ids[a]) == EntryOf(ids[b]) ==> a == b)
    && (forall d, c: nat :: d in matched && Rival(ids, excluded, d, c) ==> d < c && EntryOf(ids[c]) == EntryOf(ids[d]))
  }

  lemma SeparateMatches(ids: seq<Identity>, ignore: seq<Entry>, active: seq<Entry>, ignored: Matches, known: Matches)
    requires Settled(ids, ignore, active, ignored, known)
    ensures Separate(ids, ignored.matched, known.matched)
  {
    MatchingSizes(active, ids, ignored.matched, true, known);
    hide Settled;
    forall a, b | a in known.matched && b in known.matched && EntryOf(ids[a]) == EntryOf(ids[b]) ensures a == b {
      RecordedDiffer(ids, ignore, active, ignored, known, a, b);
    }
    forall d, c: nat | d in known.matched && Rival(ids, ignored.matched, d, c)
      ensures d < c && EntryOf(ids[c]) == EntryOf(ids[d])
    {
      MatchedComesFirst(ids, ignore, active, ignored, known, d, c);
    }
  }

  ghost predicate Records(ids: seq<Identity>, matched: set<nat>, entries: seq<Entry>) {
    NoDuplicates(entries) && forall e :: e in entries <==> exists d :: d in matched && d < |ids| && EntryOf(ids[d]) == e
  }

  /** Only the entry of a diagnostic can match it at home. */
  lemma OnlyOwnEntry(ids: seq<Identity>, excluded: set<nat>, matched: set<nat>, entries: seq<Entry>, m: Matches, x: nat,
                     y: nat, d: nat)
    requires Separate(ids, excluded, matched) && Records(ids, matched, entries)
    requires ProperMatching(entries, ids, excluded, m)
    requires d in matched && x < |entries| && entries[x] == EntryOf(ids[d])
    requires Home(entries, ids, m, y) && m.pairs[y] == d
    ensures x == y
  {
    assert Candidate(entries, ids, excluded, y, d);
    assert entries[y] in entries;
    var d' :| d' in matched && d' < |ids| && EntryOf(ids[d']) == entries[y];
    assert d' != d ==> Rival(ids, excluded, d', d);
  }

  lemma FoundAtHome(ids: seq<Identity>, excluded: set<nat>, matched: set<nat>, entries: seq<Entry>, m: Matches, x: nat,
                    d: nat)
    requires Separate(ids, excluded, matched) && Records(ids, matched, entries)
    requires Matching(entries, ids, excluded, true, m)
    requires d in matched && x < |entries| && entries[x] == EntryOf(ids[d])
    ensures Home(entries, ids, m, x) && m.pairs[x] == d
  {
    hide LonePairsMeet, Records, Separate;
    assert Separate(ids, excluded, matched) ==> d < |ids| && d !in excluded by { WithinBounds(ids, excluded, matched); }
    assert Candidate(entries, ids, excluded, x, d) && SameFile(entries, ids, x, d);
    if !Home(entries, ids, m, x) {
      var y :| Home(entries, ids, m, y) && m.pairs[y] == d;
      OnlyOwnEntry(ids, excluded, matched, entries, m, x, y, d);
    }
    var c := m.pairs[x];
    if c != d {
      assert Candidate(entries, ids, excluded, x, c);
      RivalComesLater(ids, excluded, matched, d, c);
      var y :| Home(entries, ids, m, y) && m.pairs[y] == d;
      OnlyOwnEntry(ids, excluded, matched, entries, m, x, y, d);
    }
  }

  lemma WithinBounds(ids: seq<Identity>, excluded: set<nat>, matched: set<nat>)
    ensures Separate(ids, excluded, matched) ==> forall d :: d in matched ==> d < |ids| && d !in excluded
  {
  }

  lemma RivalComesLater(ids: seq<Identity>, excluded: set<nat>, matched: set<nat>, d: nat, c: nat)
    requires Separate(ids, excluded, matched) && d in matched && Rival(ids, excluded, d, c)
    ensures d < c
  {
  }

  lemma AllFoundAgain(ids: seq<Identity>, excluded: set<nat>, matched: set<nat>, entries: seq<Entry>, m: Matches)
    requires Separate(ids, excluded, matched) && Records(ids, matched, entries)
    requires Matching(entries, ids, excluded, true, m)
    ensures m.matched == matched && m.stale == {} && |m.pairs| == |entries|
  {
    WithinBounds(ids, excluded, matched);
    hide Separate, LonePairsMeet, TakesFirst, HomeExhausted;
    forall x: nat | x < |entries| ensures Home(entries, ids, m, x) && m.pairs[x] in matched {
      assert entries[x] in entries;
      var d :| d in matched && d < |ids| && EntryOf(ids[d]) == entries[x];
      FoundAtHome(ids, excluded, matched, entries, m, x, d);
    }
    forall d | d in matched ensures d in m.matched {
      assert EntryOf(ids[d]) in entries;
      var x :| 0 <= x < |entries| && entries[x] == EntryOf(ids[d]);
      FoundAtHome(ids, excluded, matched, entries, m, x, d);
      assert m.pairs[x] in m.pairs.Values;
    }
    forall x: nat ensures x in m.pairs.Keys <==> x in Below(|entries|) {
      assert x in m.pairs ==> Candidate(entries, ids, excluded, x, m.pairs[x]);
      assert x < |entries| ==> Home(entries, ids, m, x);
    }
    assert m.pairs.Keys == Below(|entries|);
  }

  lemma {:induction false} WithoutKeepsOrder(entries: seq<Entry>, ignore: seq<Entry>)
    requires NoDuplicates(entries)
    ensures NoDuplicates(Without(entries, ignore))
  {
    if entries != [] {
      var n := |entries| - 1;
      WithoutKeepsOrder(entries[..n], ignore);
      assert forall i :: 0 <= i < n ==> entries[..n][i] == entries[i] != entries[n];
      assert entries[n] !in entries[..n];
    }
  }

  lemma AscendingHasNoDuplicates(entries: seq<Entry>)
    requires Ascending(entries, EntryRank())
    ensures NoDuplicates(entries)
  {
    forall i, j | 0 <= i < j < |entries| ensures entries[i] != entries[j] {
      AscendingDistinct(entries, EntryRank(), i, j);
    }
  }

  lemma OrderedIsStable(fp: Fingerprint, ds: seq<Diagnostic>, config: Config)
    requires Ordered(config) && Tidy(IdentitiesOf(fp, ds)) && NoLoneSurplus(IdentitiesOf(fp, ds))
    ensures Stable(fp, ds, config)
  {
    hide MatchesOf, IdentitiesOf, Matching, Tidy, NoLoneSurplus, NoDuplicates, Separate, Ascending, Injective, Sorted;
    var ids := IdentitiesOf(fp, ds);
    var ignored, known := IgnoredOf(fp, ds, config), KnownOf(fp, ds, config);
    var updated := Updated(fp, ds, config);
    EntryRankInjective();
    SortedIdempotent(config.ignore, EntryRank());
    assert updated.ignore == config.ignore && IgnoredOf(fp, ds, updated) == ignored;
    AscendingHasNoDuplicates(config.baseline);
    AscendingHasNoDuplicates(config.ignore);
    WithoutKeepsOrder(config.baseline, config.ignore);
    MatchedOf(fp, ds, config);
    assert Settled(ids, config.ignore, Active(config), ignored, known);
    SeparateMatches(ids, config.ignore, Active(config), ignored, known);
    var recorded := Recorded(ids, known.matched);
    SortedSorts(recorded, EntryRank());
    AscendingHasNoDuplicates(updated.baseline);
    forall e | e in updated.baseline ensures e !in updated.ignore {
      var d :| d in known.matched && d < |ids| && EntryOf(ids[d]) == e;
      RecordedNotIgnored(ids, config.ignore, Active(config), ignored, known, d);
    }
    AllKept(updated.baseline, updated.ignore);
    MatchedOf(fp, ds, updated);
    AllFoundAgain(ids, ignored.matched, known.matched, updated.baseline, KnownOf(fp, ds, updated));
  }

  // ----- one surplus is unstable

  lemma {:induction false} LongerThanAll(names: set<string>) returns (name: string)
    ensures forall n :: n in names ==> |n| < |name|
  {
    if names == {} {
      name := "";
    } else {
      var n :| n in names;
      var shorter := LongerThanAll(names - {n});
      name := shorter + n + "x";
      forall k | k in names ensures |k| < |name| {
        if k != n { assert k in names - {n}; }
      }
    }
  }

  /** The key's entries in the files of its sharers and in one other. */
  ghost predicate OnePerFile(ids: seq<Identity>, key: BaselineKey, other: string, entries: seq<Entry>) {
    NoDuplicates(entries)
    && forall e :: e in entries <==> e.rule == key.rule && e.fingerprint == key.fingerprint
                                     && (e.file == other || e.file in FilesOf(ids, Sharers(ids, key)))
  }

  /** Each of them that has a sharer in its file is matched there. */
  lemma FilesAreMatched(ids: seq<Identity>, key: BaselineKey, other: string, entries: seq<Entry>, m: Matches, x: nat)
    requires OnePerFile(ids, key, other, entries) && Matching(entries, ids, {}, true, m) && x < |entries|
    requires entries[x].file in FilesOf(ids, Sharers(ids, key))
    ensures Home(entries, ids, m, x)
  {
    hide LonePairsMeet, TakesFirst;
    assert forall y: nat :: y < |entries| ==> entries[y] in entries;
    var d :| d in Sharers(ids, key) && 0 <= d < |ids| && ids[d].file == entries[x].file;
    assert Candidate(entries, ids, {}, x, d) && SameFile(entries, ids, x, d);
    assert forall y: nat :: Home(entries, ids, m, y) && m.pairs[y] == d ==> entries[y] == entries[x] && y == x;
  }

  ghost function HomeSharers(ids: seq<Identity>, key: BaselineKey, entries: seq<Entry>, m: Matches): set<nat> {
    set d | d in Sharers(ids, key) && MatchedAtHome(entries, ids, m, d)
  }

  lemma EveryFileHasOne(ids: seq<Identity>, key: BaselineKey, other: string, entries: seq<Entry>, m: Matches)
    requires OnePerFile(ids, key, other, entries) && Matching(entries, ids, {}, true, m)
    ensures FilesOf(ids, HomeSharers(ids, key, entries, m)) == FilesOf(ids, Sharers(ids, key))
  {
    hide Matching;
    var homes := HomeSharers(ids, key, entries, m);
    forall f | f in FilesOf(ids, Sharers(ids, key)) ensures f in FilesOf(ids, homes) {
      var entry := Entry(key.rule, key.fingerprint, f);
      assert entry in entries;
      var x :| 0 <= x < |entries| && entries[x] == entry;
      FilesAreMatched(ids, key, other, entries, m, x);
      MatchedIsSharer(ids, key, other, entries, m, x);
      assert MatchedAtHome(entries, ids, m, m.pairs[x]);
      assert m.pairs[x] in homes;
    }
  }

  lemma NoFileHasTwo(ids: seq<Identity>, key: BaselineKey, other: string, entries: seq<Entry>, m: Matches, a: nat,
                     b: nat)
    requires OnePerFile(ids, key, other, entries) && Matching(entries, ids, {}, true, m)
    requires a in HomeSharers(ids, key, entries, m) && b in HomeSharers(ids, key, entries, m)
    requires ids[a].file == ids[b].file
    ensures a == b
  {
  }

  /** Then all sharers but one are matched at home, and that one by relocation. */
  lemma SurplusIsMatched(ids: seq<Identity>, key: BaselineKey, other: string, entries: seq<Entry>, m: Matches)
    requires OnePerFile(ids, key, other, entries) && other !in FilesOf(ids, Sharers(ids, key)) && OneSurplus(ids, key)
    requires Matching(entries, ids, {}, true, m)
    ensures m.matched == Sharers(ids, key)
  {
    hide Matching, OneSurplus, OnePerFile, MatchedAtHome, FilesOf;
    var all, homes := Sharers(ids, key), HomeSharers(ids, key, entries, m);
    EveryFileHasOne(ids, key, other, entries, m);
    forall a, b | a in homes && b in homes && ids[a].file == ids[b].file ensures a == b {
      NoFileHasTwo(ids, key, other, entries, m, a, b);
    }
    FilesInjective(ids, homes);
    var z := TheOther(ids, key, all, homes);
    LastIsRelocated(ids, key, other, entries, m, z);
    MatchedAreSharers(ids, key, other, entries, m);
    forall d | d in homes ensures d in m.matched {
      HomesAreMatched(ids, entries, m, d);
    }
  }

  lemma TheOther(ids: seq<Identity>, key: BaselineKey, all: set<nat>, homes: set<nat>) returns (z: nat)
    requires OneSurplus(ids, key) && all == Sharers(ids, key) && homes <= all && |homes| == |FilesOf(ids, all)|
    ensures z in all && z !in homes && all == homes + {z}
  {
    hide Sharers, FilesOf;
    var rest := all - homes;
    assert |rest| == 1;
    z :| z in rest;
    assert |rest - {z}| == 0;
    assert rest == {z};
  }

  lemma MatchedIsSharer(ids: seq<Identity>, key: BaselineKey, other: string, entries: seq<Entry>, m: Matches, x: nat)
    requires OnePerFile(ids, key, other, entries) && Matching(entries, ids, {}, true, m) && x in m.pairs
    ensures x < |entries| && m.pairs[x] in Sharers(ids, key) && KeyOf(entries[x]) == key
  {
  }

  lemma MatchedAreSharers(ids: seq<Identity>, key: BaselineKey, other: string, entries: seq<Entry>, m: Matches)
    requires OnePerFile(ids, key, other, entries) && Matching(entries, ids, {}, true, m)
    ensures m.matched <= Sharers(ids, key)
  {
  }

  lemma HomesAreMatched(ids: seq<Identity>, entries: seq<Entry>, m: Matches, d: nat)
    requires Matching(entries, ids, {}, true, m) && MatchedAtHome(entries, ids, m, d)
    ensures d in m.matched
  {
  }

  lemma LastIsRelocated(ids: seq<Identity>, key: BaselineKey, other: string, entries: seq<Entry>, m: Matches, z: nat)
    requires OnePerFile(ids, key, other, entries) && other !in FilesOf(ids, Sharers(ids, key))
    requires Matching(entries, ids, {}, true, m) && z in Sharers(ids, key)
    requires forall d :: d in Sharers(ids, key) && d != z ==> MatchedAtHome(entries, ids, m, d)
    ensures z in m.matched
  {
    var entry := Entry(key.rule, key.fingerprint, other);
    assert entry in entries;
    var e :| 0 <= e < |entries| && entries[e] == entry;
    assert forall y: nat :: y < |entries| ==> entries[y] in entries;
    assert Candidate(entries, ids, {}, e, z);
    forall e': nat | e' < |entries| && e' != e && KeyOf(entries[e']) == KeyOf(entries[e])
      ensures Home(entries, ids, m, e') {
      FilesAreMatched(ids, key, other, entries, m, e');
    }
    if Home(entries, ids, m, e) {
      MatchedIsSharer(ids, key, other, entries, m, e);
    }
    assert forall d: nat :: Candidate(entries, ids, {}, e, d) ==> d in Sharers(ids, key);
  }

  lemma {:induction false} RecordedFiles(ids: seq<Identity>, key: BaselineKey, entries: seq<Entry>)
    requires NoDuplicates(entries)
    requires forall e :: e in entries ==>
               e.rule == key.rule && e.fingerprint == key.fingerprint && e.file in FilesOf(ids, Sharers(ids, key))
    ensures |entries| <= |FilesOf(ids, Sharers(ids, key))|
  {
    var files := set i | 0 <= i < |entries| :: entries[i].file;
    EntryFiles(entries, key, |entries|);
    assert files <= FilesOf(ids, Sharers(ids, key)) by {
      assert forall i :: 0 <= i < |entries| ==> entries[i] in entries;
    }
    SubsetSize(files, FilesOf(ids, Sharers(ids, key)));
  }

  lemma {:induction false} EntryFiles(entries: seq<Entry>, key: BaselineKey, n: nat)
    requires NoDuplicates(entries) && n <= |entries|
    requires forall e :: e in entries ==> e.rule == key.rule && e.fingerprint == key.fingerprint
    ensures |set i | 0 <= i < n :: entries[i].file| == n
  {
    if n > 0 {
      EntryFiles(entries, key, n - 1);
      var earlier := set i | 0 <= i < n - 1 :: entries[i].file;
      assert (set i | 0 <= i < n :: entries[i].file) == earlier + {entries[n - 1].file};
      forall i | 0 <= i < n - 1 ensures entries[i].file != entries[n - 1].file {
        assert entries[i] in entries && entries[n - 1] in entries && entries[i] != entries[n - 1];
      }
    }
  }

  ghost function SharerEntries(ids: seq<Identity>, key: BaselineKey, other: string): (entries: seq<Entry>)
    ensures forall e :: e in entries <==> e.rule == key.rule && e.fingerprint == key.fingerprint
                                          && (e.file == other || e.file in FilesOf(ids, Sharers(ids, key)))
  {
    EntriesForFiles(FilesOf(ids, Sharers(ids, key)) + {other}, key)
  }

  ghost function EntriesForFiles(files: set<string>, key: BaselineKey): (entries: seq<Entry>)
    ensures forall e :: e in entries <==> e.rule == key.rule && e.fingerprint == key.fingerprint && e.file in files
  {
    if files == {} then []
    else
      var f :| f in files;
      [Entry(key.rule, key.fingerprint, f)] + EntriesForFiles(files - {f}, key)
  }

  /** The ordered list of a key's entries, in its sharers' files and one other. */
  lemma SurplusEntries(ids: seq<Identity>, key: BaselineKey) returns (other: string, entries: seq<Entry>)
    ensures OnePerFile(ids, key, other, entries) && other !in FilesOf(ids, Sharers(ids, key))
    ensures Ascending(entries, EntryRank())
  {
    hide Ascending, Injective, Sorted;
    other := LongerThanAll(FilesOf(ids, Sharers(ids, key)));
    EntryRankInjective();
    SortedSorts(SharerEntries(ids, key, other), EntryRank());
    entries := Sorted(SharerEntries(ids, key, other), EntryRank());
    AscendingHasNoDuplicates(entries);
  }

  /** What is recorded of all sharers of a contested key is one entry for each file. */
  lemma UpdateCollapses(ids: seq<Identity>, key: BaselineKey, recorded: seq<Entry>)
    requires Tidy(ids) && Contested(ids, key) && recorded == Sorted(Recorded(ids, Sharers(ids, key)), EntryRank())
    ensures |recorded| <= |FilesOf(ids, Sharers(ids, key))|
  {
    hide Ascending, Injective, Sorted, Recorded;
    EntryRankInjective();
    SortedSorts(Recorded(ids, Sharers(ids, key)), EntryRank());
    AscendingHasNoDuplicates(recorded);
    forall e | e in recorded
      ensures e.rule == key.rule && e.fingerprint == key.fingerprint && e.file in FilesOf(ids, Sharers(ids, key))
    {
      var d :| d in Sharers(ids, key) && d < |ids| && EntryOf(ids[d]) == e;
    }
    RecordedFiles(ids, key, recorded);
  }

  /** With one surplus of a contested key there is an ordered configuration whose update
      loses a match. */
  lemma LoneSurplusIsUnstable(fp: Fingerprint, ds: seq<Diagnostic>, key: BaselineKey) returns (config: Config)
    requires Tidy(IdentitiesOf(fp, ds)) && Contested(IdentitiesOf(fp, ds), key) && OneSurplus(IdentitiesOf(fp, ds), key)
    ensures Ordered(config) && !Stable(fp, ds, config)
  {
    hide MatchesOf, IdentitiesOf, Matching, Ascending, Sorted, Tidy, Contested, OnePerFile, FilesOf, Sharers, Recorded;
    var ids := IdentitiesOf(fp, ds);
    var other, entries := SurplusEntries(ids, key);
    config := Config(entries, []);
    EmptyOrder();
    AllKept(entries, []);
    MatchedOf(fp, ds, config);
    NothingIgnored(fp, ds, config);
    SurplusIsMatched(ids, key, other, entries, KnownOf(fp, ds, config));
    var updated := Updated(fp, ds, config);
    UpdateCollapses(ids, key, updated.baseline);
    MatchedOf(fp, ds, updated);
    MatchingSizes(Active(updated), ids, IgnoredOf(fp, ds, updated).matched, true, KnownOf(fp, ds, updated));
  }

  lemma EmptyOrder()
    ensures Ascending<Entry>([], EntryRank())
  {
  }

  lemma NothingIgnored(fp: Fingerprint, ds: seq<Diagnostic>, config: Config)
    requires config.ignore == []
    ensures IgnoredOf(fp, ds, config).matched == {}
  {
  }

  /** For diagnostics whose contested keys are their only ones, updating is stable for
      every ordered configuration exactly when no contested key has one surplus: then
      relocation always finds none left, or too many to choose. */
  lemma StableForOrderedExactlyWhen(fp: Fingerprint, ds: seq<Diagnostic>)
    requires Tidy(IdentitiesOf(fp, ds))
    ensures (forall config :: Ordered(config) ==> Stable(fp, ds, config)) <==> NoLoneSurplus(IdentitiesOf(fp, ds))
  {
    hide Stable, Tidy, Ordered, Contested, OneSurplus;
    if NoLoneSurplus(IdentitiesOf(fp, ds)) {
      forall config | Ordered(config) ensures Stable(fp, ds, config) {
        OrderedIsStable(fp, ds, config);
      }
    } else {
      var key :| Contested(IdentitiesOf(fp, ds), key) && OneSurplus(IdentitiesOf(fp, ds), key);
      var config := LoneSurplusIsUnstable(fp, ds, key);
    }
  }

  // ----- the keys of real diagnostics

  /** Custom fingerprints are not results of the fingerprint function, and no rule is
      named like a tag of its inputs. */
  ghost predicate Ordinary(fp: Fingerprint, ds: seq<Diagnostic>) {
    CollisionFree(fp)
    && forall i :: 0 <= i < |ds| ==>
         && ds[i].rule != "baseline-v1" && ds[i].rule != "baseline-v1-occurrence"
         && (IsCustom(fp, ds[i]) ==> forall parts :: ds[i].stable != fp(parts))
  }

  /** The parts a recorded default fingerprint is made from. */
  ghost function RecordedParts(fp: Fingerprint, ds: seq<Diagnostic>, i: nat): seq<string>
    requires i < |ds|
  {
    var n := |Earlier(fp, ds, i)|;
    if n == 0 then ["baseline-v1", ds[i].rule, ds[i].severity, ds[i].message] + ds[i].details
    else ["baseline-v1-occurrence", Base(fp, ds[i]), Text.Decimal(n)]
  }

  lemma IdentityFingerprints(fp: Fingerprint, ds: seq<Diagnostic>, i: nat)
    requires i < |ds|
    ensures var id := IdentitiesOf(fp, ds)[i];
            && id.stable == ds[i].stable
            && (IsCustom(fp, ds[i]) ==> id.fingerprint == ds[i].stable)
            && (!IsCustom(fp, ds[i]) ==>
                id.fingerprint == fp(RecordedParts(fp, ds, i))
                && exists parts :: |parts| > 0 && parts[0] == ds[i].rule && id.stable == fp(parts))
  {
    hide Earlier;
    var r, d := ds[i].range, ds[i];
    var parts := [d.rule, d.file, Text.Decimal(r.startLine), Text.Decimal(r.startCol), Text.Decimal(r.endLine),
                  Text.Decimal(r.endCol), d.message];
    assert !IsCustom(fp, d) ==> d.stable == fp(parts);
  }

  /** Two default diagnostics of one rule and file are recorded under different parts. */
  lemma RecordedPartsDiffer(fp: Fingerprint, ds: seq<Diagnostic>, a: nat, b: nat)
    requires a < |ds| && b < |ds| && !IsCustom(fp, ds[a]) && !IsCustom(fp, ds[b])
    requires ds[a].rule == ds[b].rule && ds[a].file == ds[b].file
    requires RecordedParts(fp, ds, a) == RecordedParts(fp, ds, b)
    ensures a == b
  {
    hide Earlier, Members;
    var m, n := |Earlier(fp, ds, a)|, |Earlier(fp, ds, b)|;
    var p, q := RecordedParts(fp, ds, a), RecordedParts(fp, ds, b);
    assert p[0] == q[0] && |"baseline-v1"| != |"baseline-v1-occurrence"|;
    assert m == 0 <==> n == 0;
    if m > 0 {
      assert p[1] == q[1] && p[2] == q[2];
      Text.DecimalInjective(m, n);
    }
    assert Base(fp, ds[a]) == Base(fp, ds[b]);
    var scope := ScopeOf(fp, ds[a]);
    OccurrencesAreExact(fp, ds, scope);
    IsMember(fp, ds, a);
    IsMember(fp, ds, b);
  }

  lemma IsMember(fp: Fingerprint, ds: seq<Diagnostic>, i: nat)
    requires i < |ds| && !IsCustom(fp, ds[i])
    ensures i in Members(fp, ds, ScopeOf(fp, ds[i]))
  {
  }

  /** A contested key is a custom fingerprint. */
  lemma ContestedIsCustom(fp: Fingerprint, ds: seq<Diagnostic>, a: nat, b: nat)
    requires Ordinary(fp, ds) && a < |ds| && b < |ds| && a != b && ds[a].file == ds[b].file
    requires HasKey(IdentitiesOf(fp, ds)[b], KeyOf(EntryOf(IdentitiesOf(fp, ds)[a])))
    ensures IsCustom(fp, ds[a])
  {
    hide RecordedParts, IsCustom, Base;
    IdentityFingerprints(fp, ds, a);
    IdentityFingerprints(fp, ds, b);
    if !IsCustom(fp, ds[a]) {
      TagComesFirst(fp, ds, a);
      assert !IsCustom(fp, ds[b]);
      if RecordedParts(fp, ds, a) == RecordedParts(fp, ds, b) {
        RecordedPartsDiffer(fp, ds, a, b);
      }
    }
  }

  lemma TagComesFirst(fp: Fingerprint, ds: seq<Diagnostic>, i: nat)
    requires i < |ds|
    ensures var parts := RecordedParts(fp, ds, i);
            |parts| > 0 && (parts[0] == "baseline-v1" || parts[0] == "baseline-v1-occurrence")
  {
  }

  lemma OrdinaryIsTidy(fp: Fingerprint, ds: seq<Diagnostic>)
    requires Ordinary(fp, ds)
    ensures Tidy(IdentitiesOf(fp, ds))
  {
    hide IsCustom, RecordedParts;
    var ids := IdentitiesOf(fp, ds);
    forall key | Contested(ids, key) ensures forall d :: d in Sharers(ids, key) ==>
        ids[d].fingerprint == ids[d].stable {
      var a: nat, b: nat :| a < |ids| && b < |ids| && a != b && ids[a].file == ids[b].file
        && KeyOf(EntryOf(ids[a])) == key && HasKey(ids[b], key);
      ContestedIsCustom(fp, ds, a, b);
      IdentityFingerprints(fp, ds, a);
      forall d | d in Sharers(ids, key) ensures ids[d].fingerprint == ids[d].stable {
        IdentityFingerprints(fp, ds, d);
      }
    }
  }

  /** For ordinary diagnostics, then, updating is stable for every ordered configuration
      exactly when no custom fingerprint is shared by one diagnostic more than it has
      files. */
  lemma OrdinaryStableExactlyWhen(fp: Fingerprint, ds: seq<Diagnostic>)
    requires Ordinary(fp, ds)
    ensures (forall config :: Ordered(config) ==> Stable(fp, ds, config)) <==> NoLoneSurplus(IdentitiesOf(fp, ds))
  {
    OrdinaryIsTidy(fp, ds);
    StableForOrderedExactlyWhen(fp, ds);
  }

  // ----- two alike lose a match, three do not

  lemma AlikeIdentities(fp: Fingerprint, d: Diagnostic, ds: seq<Diagnostic>)
    requires IsCustom(fp, d) && forall i :: 0 <= i < |ds| ==> ds[i] == d
    ensures forall i: nat :: i < |ds| ==> IdentitiesOf(fp, ds)[i] == Identity(d.rule, d.file, d.stable, d.stable)
  {
    forall i: nat | i < |ds| ensures IdentitiesOf(fp, ds)[i] == Identity(d.rule, d.file, d.stable, d.stable) {
      IdentityFingerprints(fp, ds, i);
    }
  }

  /** Identical identities: one key, one file. */
  lemma AlikeKeys(ids: seq<Identity>, id: Identity)
    requires ids != [] && id.fingerprint == id.stable && forall i: nat :: i < |ids| ==> ids[i] == id
    ensures Tidy(ids) && forall key :: Contested(ids, key) ==> key == BaselineKey(id.rule, id.stable)
    ensures Sharers(ids, BaselineKey(id.rule, id.stable)) == Below(|ids|) && FilesOf(ids, Below(|ids|)) == {id.file}
  {
    assert ids[0].file == id.file && 0 in Below(|ids|);
  }

  /** Two diagnostics of one file with one custom fingerprint: some ordered baseline
      matches both, by an entry of their file and by relocation, and its update only one. */
  lemma TwoAlikeAreUnstable(fp: Fingerprint, d: Diagnostic) returns (config: Config)
    requires IsCustom(fp, d)
    ensures Ordered(config) && !Stable(fp, [d, d], config)
  {
    hide Stable, Tidy, Ordered;
    var ids, key := IdentitiesOf(fp, [d, d]), BaselineKey(d.rule, d.stable);
    AlikeIdentities(fp, d, [d, d]);
    AlikeKeys(ids, Identity(d.rule, d.file, d.stable, d.stable));
    assert KeyOf(EntryOf(ids[0])) == key && HasKey(ids[1], key) && Contested(ids, key);
    config := LoneSurplusIsUnstable(fp, [d, d], key);
  }

  /** Three of them share a key as well, and are stable. */
  lemma ThreeAlikeAreStable(fp: Fingerprint, d: Diagnostic, config: Config)
    requires IsCustom(fp, d) && Ordered(config)
    ensures Stable(fp, [d, d, d], config) && !DistinctKeys(IdentitiesOf(fp, [d, d, d]))
  {
    hide Stable, Tidy, Ordered, Contested;
    var ids, key := IdentitiesOf(fp, [d, d, d]), BaselineKey(d.rule, d.stable);
    AlikeIdentities(fp, d, [d, d, d]);
    AlikeKeys(ids, Identity(d.rule, d.file, d.stable, d.stable));
    assert HasKey(ids[0], key) && HasKey(ids[1], key);
    OrderedIsStable(fp, [d, d, d], config);
  }
}
