/** Matching recorded entries to current diagnostics: first within the same file,
    then by unambiguous relocation to another file. */
module BaselineMatch {
  import opened Options
  import opened Ordering
  import opened Baseline

  datatype Identity = Identity(rule: string, file: string, fingerprint: string, stable: string)

  datatype BaselineKey = BaselineKey(rule: string, fingerprint: string)

  /** An identity answers to its recorded and to its stable fingerprint. */
  predicate HasKey(id: Identity, key: BaselineKey) {
    key.rule == id.rule && (key.fingerprint == id.fingerprint || key.fingerprint == id.stable)
  }

  function KeyOf(e: Entry): BaselineKey {
    BaselineKey(e.rule, e.fingerprint)
  }

  function KeyRank(): BaselineKey -> Key {
    (k: BaselineKey) => [Codes(k.rule), Codes(k.fingerprint)]
  }

  lemma KeyRankInjective()
    ensures Injective(KeyRank())
  {
    forall x: BaselineKey, y: BaselineKey | KeyRank()(x) == KeyRank()(y) ensures x == y {
      var a, b := KeyRank()(x), KeyRank()(y);
      assert a[0] == b[0] && a[1] == b[1];
      CodesInjective(x.rule, y.rule);
      CodesInjective(x.fingerprint, y.fingerprint);
    }
  }

  /** Which diagnostics were matched, by which entry, and which entries were found
      in another file. */
  datatype Matches = Matches(matched: set<nat>, pairs: map<nat, nat>, stale: set<Entry>)

  ghost predicate Candidate(entries: seq<Entry>, ids: seq<Identity>, excluded: set<nat>, e: nat, d: nat) {
    e < |entries| && d < |ids| && d !in excluded && HasKey(ids[d], KeyOf(entries[e]))
  }

  predicate SameFile(entries: seq<Entry>, ids: seq<Identity>, e: nat, d: nat) {
    e < |entries| && d < |ids| && entries[e].file == ids[d].file
  }

  /** Entry `e` was matched in its own file. */
  predicate Home(entries: seq<Entry>, ids: seq<Identity>, m: Matches, e: nat) {
    e in m.pairs && SameFile(entries, ids, e, m.pairs[e])
  }

  // ----- what matching guarantees

  /** An injective partial map from entries to diagnostics with their key that
      avoids the excluded ones, with its bookkeeping. */
  ghost predicate ProperMatching(entries: seq<Entry>, ids: seq<Identity>, excluded: set<nat>, m: Matches) {
    (forall e :: e in m.pairs ==> Candidate(entries, ids, excluded, e, m.pairs[e]))
    && (forall e, e' :: e in m.pairs && e' in m.pairs && m.pairs[e] == m.pairs[e'] ==> e == e')
    && m.matched == m.pairs.Values
    && (forall x :: x in m.stale <==> exists e :: e in m.pairs && !Home(entries, ids, m, e) && entries[e] == x)
  }

  /** An entry not matched at home has no diagnostic left at home: each one with its
      key was matched there by another entry. */
  ghost predicate HomeExhausted(entries: seq<Entry>, ids: seq<Identity>, excluded: set<nat>, m: Matches, n: nat) {
    forall e: nat, d: nat ::
      e < n && Candidate(entries, ids, excluded, e, d) && SameFile(entries, ids, e, d) && !Home(entries, ids, m, e) ==>
      exists e' :: Home(entries, ids, m, e') && m.pairs[e'] == d
  }

  /** A relocated entry was the only one left for its key, and its diagnostic the
      only one left. */
  ghost predicate Unambiguous(entries: seq<Entry>, ids: seq<Identity>, excluded: set<nat>, m: Matches, e: nat)
    requires e in m.pairs && e < |entries|
  {
    (forall e': nat :: e' < |entries| && e' != e && KeyOf(entries[e']) == KeyOf(entries[e]) ==>
        Home(entries, ids, m, e'))
    && (forall d: nat :: Candidate(entries, ids, excluded, e, d) && d != m.pairs[e] ==> d in m.matched)
  }

  /** Once the same-file matches are made, an entry and a diagnostic that are each
      the only one left for their key find each other, unless another key takes the
      diagnostic first. */
  ghost predicate LonePairsMeet(entries: seq<Entry>, ids: seq<Identity>, excluded: set<nat>, m: Matches) {
    forall e: nat, d: nat :: Candidate(entries, ids, excluded, e, d) && !Home(entries, ids, m, e)
      && (forall e': nat :: e' < |entries| && e' != e && KeyOf(entries[e']) == KeyOf(entries[e]) ==>
          Home(entries, ids, m, e'))
      && (forall d': nat :: Candidate(entries, ids, excluded, e, d') && d' != d ==> MatchedAtHome(entries, ids, m, d'))
      ==> d in m.matched
  }

  ghost predicate MatchedAtHome(entries: seq<Entry>, ids: seq<Identity>, m: Matches, d: nat) {
    exists e :: Home(entries, ids, m, e) && m.pairs[e] == d
  }

  /** A match at home is the first diagnostic there that was free. */
  ghost predicate TakesFirst(entries: seq<Entry>, ids: seq<Identity>, excluded: set<nat>, m: Matches) {
    forall e: nat, d: nat ::
      Home(entries, ids, m, e) && d < m.pairs[e] && Candidate(entries, ids, excluded, e, d)
        && SameFile(entries, ids, e, d) ==>
        MatchedAtHome(entries, ids, m, d)
  }

  ghost predicate Matching(entries: seq<Entry>, ids: seq<Identity>, excluded: set<nat>, relocate: bool, m: Matches) {
    ProperMatching(entries, ids, excluded, m)
    && HomeExhausted(entries, ids, excluded, m, |entries|)
    && (forall e :: e in m.pairs && !Home(entries, ids, m, e) ==> relocate && Unambiguous(entries, ids, excluded, m, e))
    && (relocate ==> LonePairsMeet(entries, ids, excluded, m))
    && TakesFirst(entries, ids, excluded, m)
  }

  // ----- phase one: the same file

  predicate FreeAtHome(entries: seq<Entry>, ids: seq<Identity>, excluded: set<nat>, matched: set<nat>, e: nat, d: nat) {
    e < |entries| && d < |ids| && d !in excluded && d !in matched
    && HasKey(ids[d], KeyOf(entries[e])) && ids[d].file == entries[e].file
  }

  /** The first free diagnostic of the entry's file with its key, from `from` on. */
  function FirstAtHome(entries: seq<Entry>, ids: seq<Identity>, excluded: set<nat>, matched: set<nat>, e: nat,
                       from: nat)
    : (found: Option<nat>)
    ensures found.None? ==> forall d: nat :: from <= d ==> !FreeAtHome(entries, ids, excluded, matched, e, d)
    ensures found.Some? ==> FreeAtHome(entries, ids, excluded, matched, e, found.value)
    ensures found.Some? ==> forall d: nat :: from <= d < found.value ==>
        !FreeAtHome(entries, ids, excluded, matched, e, d)
    decreases |ids| - from
  {
    if from >= |ids| then None
    else if FreeAtHome(entries, ids, excluded, matched, e, from) then Some(from)
    else FirstAtHome(entries, ids, excluded, matched, e, from + 1)
  }

  method FindAtHome(entries: seq<Entry>, ids: seq<Identity>, excluded: set<nat>, matched: set<nat>, e: nat)
    returns (found: Option<nat>)
    requires e < |entries|
    ensures found == FirstAtHome(entries, ids, excluded, matched, e, 0)
    ensures found.None? ==> forall d: nat :: !FreeAtHome(entries, ids, excluded, matched, e, d)
    ensures found.Some? ==> FreeAtHome(entries, ids, excluded, matched, e, found.value)
    ensures found.Some? ==> forall d: nat :: d < found.value ==> !FreeAtHome(entries, ids, excluded, matched, e, d)
  {
    for d := 0 to |ids|
      invariant FirstAtHome(entries, ids, excluded, matched, e, 0) == FirstAtHome(entries, ids, excluded, matched, e, d)
    {
      if FreeAtHome(entries, ids, excluded, matched, e, d) {
        return Some(d);
      }
    }
    return None;
  }

  /** Records one match; an entry found in another file is stale. */
  function Assign(entries: seq<Entry>, ids: seq<Identity>, m: Matches, e: nat, d: nat): Matches
    requires e < |entries| && d < |ids|
  {
    Matches(m.matched + {d}, m.pairs[e := d],
            if entries[e].file != ids[d].file then m.stale + {entries[e]} else m.stale)
  }

  lemma AssignHome(entries: seq<Entry>, ids: seq<Identity>, m: Matches, e: nat, d: nat)
    requires e < |entries| && d < |ids| && e !in m.pairs
    ensures var m' := Assign(entries, ids, m, e, d);
            (forall x: nat :: x != e ==> (Home(entries, ids, m', x) <==> Home(entries, ids, m, x)))
            && (Home(entries, ids, m', e) <==> entries[e].file == ids[d].file)
  {
  }

  lemma AssignValues(pairs: map<nat, nat>, e: nat, d: nat)
    requires e !in pairs
    ensures pairs[e := d].Values == pairs.Values + {d}
  {
    var pairs' := pairs[e := d];
    forall v ensures v in pairs'.Values <==> v in pairs.Values || v == d {
      if v in pairs.Values {
        var x :| x in pairs && pairs[x] == v;
        assert pairs'[x] == v;
      }
      assert pairs'[e] == d;
    }
  }

  lemma AssignStale(entries: seq<Entry>, ids: seq<Identity>, excluded: set<nat>, m: Matches, e: nat, d: nat)
    requires forall x :: x in m.pairs ==> x < |entries|
    requires forall x :: x in m.stale <==> exists k :: k in m.pairs && !Home(entries, ids, m, k) && entries[k] == x
    requires e < |entries| && d < |ids| && e !in m.pairs
    ensures var m' := Assign(entries, ids, m, e, d);
            forall x :: x in m'.stale <==> exists k :: k in m'.pairs && !Home(entries, ids, m', k) && entries[k] == x
  {
  }

  lemma AssignKeepsProper(entries: seq<Entry>, ids: seq<Identity>, excluded: set<nat>, m: Matches, e: nat, d: nat)
    requires ProperMatching(entries, ids, excluded, m)
    requires e !in m.pairs && Candidate(entries, ids, excluded, e, d) && d !in m.matched
    ensures ProperMatching(entries, ids, excluded, Assign(entries, ids, m, e, d))
    ensures forall x :: x in Assign(entries, ids, m, e, d).pairs ==> x < |entries|
  {
    AssignStale(entries, ids, excluded, m, e, d);
    hide Home;
    AssignValues(m.pairs, e, d);
    assert forall x :: x in m.pairs ==> m.pairs[x] in m.pairs.Values;
  }

  /** The matches the first `n` entries make in their own files. */
  ghost function HomeMatches(entries: seq<Entry>, ids: seq<Identity>, excluded: set<nat>, n: nat): Matches
    requires n <= |entries|
  {
    if n == 0 then Matches({}, map[], {})
    else
      var m := HomeMatches(entries, ids, excluded, n - 1);
      match FirstAtHome(entries, ids, excluded, m.matched, n - 1, 0)
      case None => m
      case Some(d) => Assign(entries, ids, m, n - 1, d)
  }

  /** What holds once the first `n` entries were matched in their own files. */
  ghost predicate AtHome(entries: seq<Entry>, ids: seq<Identity>, excluded: set<nat>, m: Matches, n: nat) {
    ProperMatching(entries, ids, excluded, m) && HomeExhausted(entries, ids, excluded, m, n)
      && TakesFirst(entries, ids, excluded, m)
    && forall x :: x in m.pairs ==> x < n && Home(entries, ids, m, x)
  }

  lemma {:induction false} HomeMatchesAtHome(entries: seq<Entry>, ids: seq<Identity>, excluded: set<nat>, n: nat)
    requires n <= |entries|
    ensures AtHome(entries, ids, excluded, HomeMatches(entries, ids, excluded, n), n)
  {
    if n > 0 {
      HomeMatchesAtHome(entries, ids, excluded, n - 1);
      var e, before := n - 1, HomeMatches(entries, ids, excluded, n - 1);
      var found := FirstAtHome(entries, ids, excluded, before.matched, e, 0);
      var m := HomeMatches(entries, ids, excluded, n);
      if found.Some? {
        AssignKeepsProper(entries, ids, excluded, before, e, found.value);
        AssignHome(entries, ids, before, e, found.value);
      }
      HomeGrows(entries, ids, excluded, before, m, e, found);
      FirstGrows(entries, ids, excluded, before, m, e, found);
    }
  }

  method MatchAtHome(entries: seq<Entry>, ids: seq<Identity>, excluded: set<nat>) returns (m: Matches)
    ensures m == HomeMatches(entries, ids, excluded, |entries|)
    ensures AtHome(entries, ids, excluded, m, |entries|)
  {
    HomeMatchesAtHome(entries, ids, excluded, |entries|);
    hide AtHome;
    m := Matches({}, map[], {});
    for e := 0 to |entries|
      invariant m == HomeMatches(entries, ids, excluded, e)
    {
      var found := FindAtHome(entries, ids, excluded, m.matched, e);
      if found.Some? {
        m := Assign(entries, ids, m, e, found.value);
      }
    }
  }

  lemma HomeGrows(entries: seq<Entry>, ids: seq<Identity>, excluded: set<nat>, before: Matches, m: Matches, e: nat,
                  found: Option<nat>)
    requires ProperMatching(entries, ids, excluded, before) && HomeExhausted(entries, ids, excluded, before, e)
    requires e < |entries| && e !in before.pairs && forall x :: x in before.pairs ==> Home(entries, ids, before, x)
    requires found.None? ==> m == before && forall d: nat :: !FreeAtHome(entries, ids, excluded, m.matched, e, d)
    requires found.Some? ==> m.pairs == before.pairs[e := found.value] && SameFile(entries, ids, e, found.value)
    ensures HomeExhausted(entries, ids, excluded, m, e + 1)
  {
    forall x: nat, d: nat | x < e + 1 && Candidate(entries, ids, excluded, x, d) && SameFile(entries, ids, x, d)
          && !Home(entries, ids, m, x)
      ensures exists y :: Home(entries, ids, m, y) && m.pairs[y] == d
    {
      if x < e {
        assert !Home(entries, ids, before, x);
        var y :| Home(entries, ids, before, y) && before.pairs[y] == d;
        assert Home(entries, ids, m, y) && m.pairs[y] == d;
      } else {
        assert !FreeAtHome(entries, ids, excluded, m.matched, e, d);
        var y :| y in m.pairs && m.pairs[y] == d;
      }
    }
  }

  lemma FirstGrows(entries: seq<Entry>, ids: seq<Identity>, excluded: set<nat>, before: Matches, m: Matches, e: nat,
                   found: Option<nat>)
    requires ProperMatching(entries, ids, excluded, before) && TakesFirst(entries, ids, excluded, before)
    requires e < |entries| && e !in before.pairs && forall x :: x in before.pairs ==> Home(entries, ids, before, x)
    requires found.None? ==> m == before
    requires found.Some? ==> m.pairs == before.pairs[e := found.value]
    requires found.Some? ==> forall d: nat :: d < found.value ==>
        !FreeAtHome(entries, ids, excluded, before.matched, e, d)
    ensures TakesFirst(entries, ids, excluded, m)
  {
    forall d: nat | MatchedAtHome(entries, ids, before, d) ensures MatchedAtHome(entries, ids, m, d) {
      var y :| Home(entries, ids, before, y) && before.pairs[y] == d;
      assert Home(entries, ids, m, y) && m.pairs[y] == d;
    }
    forall x: nat, d: nat | Home(entries, ids, m, x) && d < m.pairs[x] && Candidate(entries, ids, excluded, x, d)
          && SameFile(entries, ids, x, d)
      ensures MatchedAtHome(entries, ids, m, d)
    {
      if x == e {
        assert !FreeAtHome(entries, ids, excluded, before.matched, e, d);
        var y :| y in before.pairs && before.pairs[y] == d;
        assert Home(entries, ids, m, y) && m.pairs[y] == d;
      } else {
        assert Home(entries, ids, before, x);
      }
    }
  }

  // ----- phase two: unambiguous relocation

  function EntriesLeft(entries: seq<Entry>, pairs: map<nat, nat>, key: BaselineKey, n: nat): (left: seq<nat>)
    requires n <= |entries|
    ensures forall e: nat :: e in left <==> e < n && e !in pairs && KeyOf(entries[e]) == key
    ensures (forall i :: 0 <= i < |left| ==> left[i] < n) && forall i, j :: 0 <= i < j < |left| ==> left[i] < left[j]
  {
    if n == 0 then []
    else if n - 1 !in pairs && KeyOf(entries[n - 1]) == key then EntriesLeft(entries, pairs, key, n - 1) + [n - 1]
    else EntriesLeft(entries, pairs, key, n - 1)
  }

  function DiagnosticsLeft(ids: seq<Identity>, excluded: set<nat>, matched: set<nat>, key: BaselineKey,
                           n: nat): (left: seq<nat>)
    requires n <= |ids|
    ensures forall d: nat :: d in left <==> d < n && d !in excluded && d !in matched && HasKey(ids[d], key)
    ensures (forall i :: 0 <= i < |left| ==> left[i] < n) && forall i, j :: 0 <= i < j < |left| ==> left[i] < left[j]
  {
    if n == 0 then []
    else if n - 1 !in excluded && n - 1 !in matched && HasKey(ids[n - 1], key)
        then DiagnosticsLeft(ids, excluded, matched, key, n - 1) + [n - 1]
    else DiagnosticsLeft(ids, excluded, matched, key, n - 1)
  }

  /** The keys of the entries left after phase one, in order. */
  function KeysLeft(entries: seq<Entry>, pairs: map<nat, nat>): seq<BaselineKey> {
    Sorted(LeftKeys(entries, pairs, |entries|), KeyRank())
  }

  function LeftKeys(entries: seq<Entry>, pairs: map<nat, nat>, n: nat): (keys: seq<BaselineKey>)
    requires n <= |entries|
    ensures forall k :: k in keys <==> exists e: nat :: e < n && e !in pairs && KeyOf(entries[e]) == k
  {
    if n == 0 then []
    else if n - 1 in pairs then LeftKeys(entries, pairs, n - 1)
    else LeftKeys(entries, pairs, n - 1) + [KeyOf(entries[n - 1])]
  }

  /** The state of phase two: phase one's matches stand, and every later one is an
      unambiguous relocation. */
  ghost predicate Relocating(entries: seq<Entry>, ids: seq<Identity>, excluded: set<nat>, home: Matches, m: Matches) {
    ProperMatching(entries, ids, excluded, m)
    && (forall e :: e in home.pairs ==> e in m.pairs && m.pairs[e] == home.pairs[e])
    && (forall e :: e in m.pairs ==> (Home(entries, ids, m, e) <==> e in home.pairs))
    && (forall e :: e in m.pairs && !Home(entries, ids, m, e) ==> Unambiguous(entries, ids, excluded, m, e))
  }

  lemma NotAtHome(entries: seq<Entry>, ids: seq<Identity>, excluded: set<nat>, home: Matches, m: Matches, e: nat,
                  d: nat)
    requires HomeExhausted(entries, ids, excluded, home, |entries|)
    requires Relocating(entries, ids, excluded, home, m)
    requires e !in m.pairs && Candidate(entries, ids, excluded, e, d) && d !in m.matched
    ensures entries[e].file != ids[d].file
  {
  }

  lemma Relocate(entries: seq<Entry>, ids: seq<Identity>, excluded: set<nat>, home: Matches, m: Matches, e: nat, d: nat)
    requires HomeExhausted(entries, ids, excluded, home, |entries|)
    requires forall x :: x in home.pairs ==> Home(entries, ids, home, x)
    requires Relocating(entries, ids, excluded, home, m)
    requires e !in m.pairs && Candidate(entries, ids, excluded, e, d) && d !in m.matched
    requires forall x: nat :: x < |entries| && x != e && KeyOf(entries[x]) == KeyOf(entries[e]) ==> x in home.pairs
    requires forall y: nat :: Candidate(entries, ids, excluded, e, y) && y != d ==> y in m.matched
    ensures entries[e].file != ids[d].file
    ensures Relocating(entries, ids, excluded, home, Assign(entries, ids, m, e, d))
  {
    hide Home, ProperMatching, HomeExhausted;
    NotAtHome(entries, ids, excluded, home, m, e, d);
    AssignKeepsProper(entries, ids, excluded, m, e, d);
    AssignHome(entries, ids, m, e, d);
    var m' := Assign(entries, ids, m, e, d);
    forall x | x in m'.pairs && !Home(entries, ids, m', x) ensures Unambiguous(entries, ids, excluded, m', x) {
      if x != e {
        assert Unambiguous(entries, ids, excluded, m, x);
      }
    }
  }

  lemma RelocatedIsMatching(entries: seq<Entry>, ids: seq<Identity>, excluded: set<nat>, home: Matches, m: Matches)
    requires HomeExhausted(entries, ids, excluded, home, |entries|)
    requires forall x :: x in home.pairs ==> Home(entries, ids, home, x)
    requires Relocating(entries, ids, excluded, home, m)
    requires ProperMatching(entries, ids, excluded, home) && TakesFirst(entries, ids, excluded, home)
    requires forall e: nat, d: nat :: LonePair(entries, ids, excluded, home, e, d) ==> d in m.matched
    ensures Matching(entries, ids, excluded, true, m)
  {
    LonePairsHaveMet(entries, ids, excluded, home, m);
    FirstStays(entries, ids, excluded, home, m);
    hide LonePairsMeet, LonePair, TakesFirst;
    forall e: nat, d: nat | e < |entries| && Candidate(entries, ids, excluded, e, d) && SameFile(entries, ids, e, d)
          && !Home(entries, ids, m, e)
      ensures exists x :: Home(entries, ids, m, x) && m.pairs[x] == d
    {
      assert !Home(entries, ids, home, e);
      var x :| Home(entries, ids, home, x) && home.pairs[x] == d;
      assert Home(entries, ids, m, x) && m.pairs[x] == d;
    }
  }

  /** The matches after the first `k` keys were tried for relocation. */
  ghost function Relocated(entries: seq<Entry>, ids: seq<Identity>, excluded: set<nat>, home: Matches,
                           keys: seq<BaselineKey>, k: nat): Matches
    requires k <= |keys|
  {
    if k == 0 then home
    else
      var m := Relocated(entries, ids, excluded, home, keys, k - 1);
      var e := EntriesLeft(entries, home.pairs, keys[k - 1], |entries|);
      var d := DiagnosticsLeft(ids, excluded, m.matched, keys[k - 1], |ids|);
      if |e| == 1 && |d| == 1 then assert e[0] in e && d[0] in d; Assign(entries, ids, m, e[0], d[0]) else m
  }

  lemma FirstStays(entries: seq<Entry>, ids: seq<Identity>, excluded: set<nat>, home: Matches, m: Matches)
    requires forall x :: x in home.pairs ==> Home(entries, ids, home, x)
    requires Relocating(entries, ids, excluded, home, m) && TakesFirst(entries, ids, excluded, home)
    ensures TakesFirst(entries, ids, excluded, m)
  {
  }

  /** The whole matching. */
  ghost function MatchesOf(entries: seq<Entry>, ids: seq<Identity>, excluded: set<nat>, relocate: bool): Matches {
    var home := HomeMatches(entries, ids, excluded, |entries|);
    if !relocate then home
    else Relocated(entries, ids, excluded, home, KeysLeft(entries, home.pairs), |KeysLeft(entries, home.pairs)|)
  }

  /** The state of phase two after the first `k` keys. */
  ghost predicate RelocatedUpTo(entries: seq<Entry>, ids: seq<Identity>, excluded: set<nat>, home: Matches, m: Matches,
                                keys: seq<BaselineKey>, k: nat)
    requires k <= |keys|
  {
    && Relocating(entries, ids, excluded, home, m)
    && (forall e: nat, d: nat :: LonePair(entries, ids, excluded, home, e, d) && KeyOf(entries[e]) in keys[..k] ==>
        d in m.matched)
    && forall e :: e in m.pairs && e !in home.pairs ==> e < |entries| && KeyOf(entries[e]) in keys[..k]
  }

  lemma {:induction false} RelocatedIsRelocating(entries: seq<Entry>, ids: seq<Identity>, excluded: set<nat>,
                                                 home: Matches, k: nat)
    requires AtHome(entries, ids, excluded, home, |entries|) && k <= |KeysLeft(entries, home.pairs)|
    ensures var keys := KeysLeft(entries, home.pairs);
            RelocatedUpTo(entries, ids, excluded, home, Relocated(entries, ids, excluded, home, keys, k), keys, k)
  {
    hide AtHome, KeysLeft, RelocatedUpTo;
    var keys := KeysLeft(entries, home.pairs);
    if k == 0 {
      NothingRelocated(entries, ids, excluded, home, keys);
    } else {
      RelocatedIsRelocating(entries, ids, excluded, home, k - 1);
      KeysDistinct(entries, home.pairs, k - 1);
      assert keys[..k] == keys[..k - 1] + [keys[k - 1]];
      RelocateKey(entries, ids, excluded, home, Relocated(entries, ids, excluded, home, keys, k - 1), keys, k - 1);
    }
  }

  lemma NothingRelocated(entries: seq<Entry>, ids: seq<Identity>, excluded: set<nat>, home: Matches,
                         keys: seq<BaselineKey>)
    requires AtHome(entries, ids, excluded, home, |entries|)
    ensures RelocatedUpTo(entries, ids, excluded, home, home, keys, 0)
  {
  }

  lemma KeysDistinct(entries: seq<Entry>, pairs: map<nat, nat>, k: nat)
    requires k < |KeysLeft(entries, pairs)|
    ensures KeysLeft(entries, pairs)[k] !in KeysLeft(entries, pairs)[..k]
  {
    var keys := KeysLeft(entries, pairs);
    KeyRankInjective();
    SortedSorts(LeftKeys(entries, pairs, |entries|), KeyRank());
    forall i | 0 <= i < k ensures keys[i] != keys[k] { AscendingDistinct(keys, KeyRank(), i, k); }
  }

  lemma RelocateKey(entries: seq<Entry>, ids: seq<Identity>, excluded: set<nat>, home: Matches, m: Matches,
                    keys: seq<BaselineKey>, k: nat)
    requires AtHome(entries, ids, excluded, home, |entries|) && k < |keys|
    requires RelocatedUpTo(entries, ids, excluded, home, m, keys, k) && keys[k] !in keys[..k]
    requires keys[..k + 1] == keys[..k] + [keys[k]]
    ensures var e := EntriesLeft(entries, home.pairs, keys[k], |entries|);
            var d := DiagnosticsLeft(ids, excluded, m.matched, keys[k], |ids|);
            if |e| == 1 && |d| == 1 then
              e[0] < |entries| && d[0] < |ids|
              && RelocatedUpTo(entries, ids, excluded, home, Assign(entries, ids, m, e[0], d[0]), keys, k + 1)
            else RelocatedUpTo(entries, ids, excluded, home, m, keys, k + 1)
  {
    var key := keys[k];
    var entriesLeft := EntriesLeft(entries, home.pairs, key, |entries|);
    var diagnosticsLeft := DiagnosticsLeft(ids, excluded, m.matched, key, |ids|);
    MatchedGrows(entries, ids, excluded, home, m);
    LonePairIsSeen(entries, ids, excluded, home, m, key);
    if |entriesLeft| == 1 && |diagnosticsLeft| == 1 {
      var e, d := entriesLeft[0], diagnosticsLeft[0];
      OnlyOneLeft(entries, ids, excluded, home, m, key, e, d);
      Relocate(entries, ids, excluded, home, m, e, d);
    }
  }

  lemma MatchedGrows(entries: seq<Entry>, ids: seq<Identity>, excluded: set<nat>, home: Matches, m: Matches)
    requires ProperMatching(entries, ids, excluded, home) && Relocating(entries, ids, excluded, home, m)
    ensures home.matched <= m.matched
  {
  }

  lemma MatchesOfIsMatching(entries: seq<Entry>, ids: seq<Identity>, excluded: set<nat>, relocate: bool)
    ensures Matching(entries, ids, excluded, relocate, MatchesOf(entries, ids, excluded, relocate))
  {
    HomeMatchesAtHome(entries, ids, excluded, |entries|);
    var home := HomeMatches(entries, ids, excluded, |entries|);
    if relocate {
      var keys := KeysLeft(entries, home.pairs);
      RelocatedIsRelocating(entries, ids, excluded, home, |keys|);
      KeyRankInjective();
      SortedSorts(LeftKeys(entries, home.pairs, |entries|), KeyRank());
      assert keys[..|keys|] == keys;
      hide Home, ProperMatching, HomeExhausted, TakesFirst, Matching, Relocating, LonePair;
      var m := MatchesOf(entries, ids, excluded, relocate);
      forall e: nat, d: nat | LonePair(entries, ids, excluded, home, e, d) ensures d in m.matched {
        LonePairKey(entries, ids, excluded, home, e, d);
      }
      RelocatedIsMatching(entries, ids, excluded, home, m);
    }
  }

  lemma LonePairKey(entries: seq<Entry>, ids: seq<Identity>, excluded: set<nat>, home: Matches, e: nat, d: nat)
    requires LonePair(entries, ids, excluded, home, e, d)
    ensures e < |entries| && KeyOf(entries[e]) in LeftKeys(entries, home.pairs, |entries|)
  {
  }

  method MatchEntries(entries: seq<Entry>, ids: seq<Identity>, excluded: set<nat>, relocate: bool) returns (m: Matches)
    ensures m == MatchesOf(entries, ids, excluded, relocate)
    ensures Matching(entries, ids, excluded, relocate, m)
  {
    MatchesOfIsMatching(entries, ids, excluded, relocate);
    hide Matching, HomeMatches, AtHome;
    m := MatchAtHome(entries, ids, excluded);
    if !relocate {
      return;
    }
    var home := m;
    var keys := KeysLeft(entries, home.pairs);
    for k := 0 to |keys|
      invariant m == Relocated(entries, ids, excluded, home, keys, k)
    {
      var entriesLeft := EntriesLeft(entries, home.pairs, keys[k], |entries|);
      var diagnosticsLeft := DiagnosticsLeft(ids, excluded, m.matched, keys[k], |ids|);
      if |entriesLeft| == 1 && |diagnosticsLeft| == 1 {
        var e, d := entriesLeft[0], diagnosticsLeft[0];
        assert e in entriesLeft && d in diagnosticsLeft;
        m := Assign(entries, ids, m, e, d);
      }
    }
  }

  /** After phase one, `e` and `d` are each the only one left for the key of `e`. */
  ghost predicate LonePair(entries: seq<Entry>, ids: seq<Identity>, excluded: set<nat>, home: Matches, e: nat, d: nat) {
    Candidate(entries, ids, excluded, e, d) && e !in home.pairs
    && (forall x: nat :: x < |entries| && x != e && KeyOf(entries[x]) == KeyOf(entries[e]) ==> x in home.pairs)
    && (forall y: nat :: Candidate(entries, ids, excluded, e, y) && y != d ==> y in home.matched)
  }

  lemma Singleton(s: seq<nat>, x: nat)
    requires x in s && (forall y :: y in s ==> y == x) && forall i, j :: 0 <= i < j < |s| ==> s[i] < s[j]
    ensures s == [x]
  {
    var k :| 0 <= k < |s| && s[k] == x;
    assert s[0] in s && s[|s| - 1] in s;
    assert k == 0 && |s| == 1;
  }

  lemma LonePairIsSeen(entries: seq<Entry>, ids: seq<Identity>, excluded: set<nat>, home: Matches, m: Matches,
                       key: BaselineKey)
    requires home.matched <= m.matched
    ensures forall e: nat, d: nat ::
          LonePair(entries, ids, excluded, home, e, d) && KeyOf(entries[e]) == key && d !in m.matched ==>
              EntriesLeft(entries, home.pairs, key, |entries|) == [e]
                && DiagnosticsLeft(ids, excluded, m.matched, key, |ids|) == [d]
  {
    forall e: nat, d: nat | LonePair(entries, ids, excluded, home, e, d) && KeyOf(entries[e]) == key && d !in m.matched
      ensures EntriesLeft(entries, home.pairs, key, |entries|) == [e]
      ensures DiagnosticsLeft(ids, excluded, m.matched, key, |ids|) == [d]
    {
      Singleton(EntriesLeft(entries, home.pairs, key, |entries|), e);
      forall y | y in DiagnosticsLeft(ids, excluded, m.matched, key, |ids|) ensures y == d {
        assert Candidate(entries, ids, excluded, e, y);
      }
      Singleton(DiagnosticsLeft(ids, excluded, m.matched, key, |ids|), d);
    }
  }

  lemma LonePairsHaveMet(entries: seq<Entry>, ids: seq<Identity>, excluded: set<nat>, home: Matches, m: Matches)
    requires Relocating(entries, ids, excluded, home, m) && ProperMatching(entries, ids, excluded, home)
    requires forall x :: x in home.pairs ==> Home(entries, ids, home, x)
    requires forall e: nat, d: nat :: LonePair(entries, ids, excluded, home, e, d) ==> d in m.matched
    ensures LonePairsMeet(entries, ids, excluded, m)
  {
    forall e: nat, d: nat | Candidate(entries, ids, excluded, e, d) && !Home(entries, ids, m, e)
      && (forall e': nat :: e' < |entries| && e' != e && KeyOf(entries[e']) == KeyOf(entries[e]) ==>
          Home(entries, ids, m, e'))
      && (forall d': nat :: Candidate(entries, ids, excluded, e, d') && d' != d ==> MatchedAtHome(entries, ids, m, d'))
      ensures d in m.matched
    {
      forall y: nat | Candidate(entries, ids, excluded, e, y) && y != d ensures y in home.matched {
        var x :| Home(entries, ids, m, x) && m.pairs[x] == y;
        assert home.pairs[x] in home.pairs.Values;
      }
      assert LonePair(entries, ids, excluded, home, e, d);
    }
  }

  lemma OnlyOneLeft(entries: seq<Entry>, ids: seq<Identity>, excluded: set<nat>, home: Matches, m: Matches,
                    key: BaselineKey, e: nat, d: nat)
    requires EntriesLeft(entries, home.pairs, key, |entries|) == [e]
    requires DiagnosticsLeft(ids, excluded, m.matched, key, |ids|) == [d]
    ensures e < |entries| && e !in home.pairs && KeyOf(entries[e]) == key
    ensures Candidate(entries, ids, excluded, e, d) && d !in m.matched
    ensures forall x: nat :: x < |entries| && x != e && KeyOf(entries[x]) == key ==> x in home.pairs
    ensures forall y: nat :: Candidate(entries, ids, excluded, e, y) && y != d ==> y in m.matched
  {
    assert e in [e] && d in [d];
    forall x: nat | x < |entries| && x != e && KeyOf(entries[x]) == key ensures x in home.pairs {
      assert x !in [e];
    }
    forall y: nat | Candidate(entries, ids, excluded, e, y) && y != d ensures y in m.matched {
      assert y !in [d];
    }
  }
}
