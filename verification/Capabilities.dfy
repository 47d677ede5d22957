/** The capabilities an analysis plan provides, collected from its rules. */
module Capabilities {
  import opened Options
  import opened Ordering

  datatype Severity = Info | Warn | Error
  datatype Language = Go | TypeScript | Tsx | JavaScript | Jsx | Unknown
  datatype Status = Supported | Unsupported | SetupMissing

  datatype Rule = Rule(
    id: string, description: string, severity: Severity,
    requested: seq<string>, optional: seq<string>,
    files: seq<string>, allowFiles: seq<string>, optionsDigest: string)

  datatype Support = Support(status: Status, reason: Option<string>, hint: Option<string>, docs: Option<string>)

  datatype Capability = Capability(name: string, language: Option<Language>, support: Support, rules: seq<string>)

  function Dependencies(capability: string): seq<string> {
    if capability in ["calls", "control_flow", "dataflow", "call_graph"] then
      ["resolved_imports", "module_graph", "symbols", "references"]
    else if capability == "references" then ["symbols"]
    else []
  }

  function SupportFor(capability: string): Support {
    if capability in ["syntax", "imports", "go_tests", "branch_obligations", "file_metrics", "function_metrics",
                      "complexity_metrics", "ts_components", "ts_classes", "string_literals", "jsx_attributes",
                      "changeset", "resolved_imports", "module_graph", "symbols", "references", "events", "calls",
                      "control_flow", "dataflow", "call_graph", "go_types", "routes"] then
      Support(Supported, None, None, None)
    else
      var docs := Some("docs/facts/capability-plans.md");
      if capability == "test_suite_metrics" then
        Support(Unsupported, Some("Normalized test suite metrics are not currently supported."),
                Some("Use go_tests for current Go test evidence."), docs)
      else if capability in ["cfg", "coverage_facts"] then
        Support(Unsupported, Some("Capability is not currently supported."), None, docs)
      else
        Support(Unsupported, Some("Capability is not recognized by this analysis plan schema."), None, docs)
  }

  /** The capabilities that rules can ask for by name. */
  const NAMES := ["syntax", "imports", "resolved_imports", "module_graph", "symbols", "references", "events", "calls",
                  "control_flow", "cfg", "call_graph", "go_types", "routes", "dataflow", "go_tests",
                  "branch_obligations", "coverage_facts", "test_suite_metrics", "file_metrics", "function_metrics",
                  "complexity_metrics", "ts_components", "ts_classes", "string_literals", "jsx_attributes", "changeset"]

  /** Of the names that rules can ask for all but three are supported, and nothing else is. */
  lemma SupportedExactlyWhen(capability: string)
    ensures SupportFor(capability).status == Supported <==>
            capability in NAMES && capability !in ["cfg", "coverage_facts", "test_suite_metrics"]
  {
  }

  /** Only an unsupported capability gives a reason, which tells whether its name is known. */
  lemma ReasonExactlyWhen(capability: string)
    ensures var support := SupportFor(capability);
            && (support.status == Supported ==> support == Support(Supported, None, None, None))
            && (support.status != Supported ==>
                support.status == Unsupported && support.docs == Some("docs/facts/capability-plans.md"))
            && (support.reason == Some("Capability is not recognized by this analysis plan schema.") <==>
                capability !in NAMES)
            && (support.hint.Some? <==> capability == "test_suite_metrics")
  {
    SupportedExactlyWhen(capability);
    if SupportFor(capability).status == Supported {
      hide NAMES;
    } else {
      UnsupportedReasons(capability);
    }
  }

  lemma UnsupportedReasons(capability: string)
    requires SupportFor(capability).status != Supported
    ensures SupportFor(capability).reason == Some("Capability is not recognized by this analysis plan schema.") <==>
            capability !in ["cfg", "coverage_facts", "test_suite_metrics"]
  {
  }

  /** What a supported capability depends on is supported. */
  lemma SupportFollowsDependencies(a: string, b: string)
    requires SupportFor(a).status == Supported && b in Dependencies(a)
    ensures SupportFor(b).status == Supported
  {
  }

  predicate Requests(rule: Rule, capability: string) {
    exists i :: 0 <= i < |rule.requested|
      && (rule.requested[i] == capability || capability in Dependencies(rule.requested[i]))
  }

  // ----- the dependency table

  /** A chain of dependencies, each link one row of the table. */
  ghost predicate Chain(chain: seq<string>) {
    chain != [] && forall i :: 0 <= i < |chain| - 1 ==> chain[i + 1] in Dependencies(chain[i])
  }

  lemma DependenciesClosed(a: string, b: string, c: string)
    requires b in Dependencies(a) && c in Dependencies(b)
    ensures c in Dependencies(a)
  {
  }

  lemma {:induction false} ChainIsOneLink(chain: seq<string>)
    requires Chain(chain)
    ensures |chain| == 1 || chain[|chain| - 1] in Dependencies(chain[0])
  {
    if |chain| > 2 {
      var n := |chain| - 1;
      ChainIsOneLink(chain[..n]);
      DependenciesClosed(chain[0], chain[n - 1], chain[n]);
    }
  }

  /** The one-level look-up already follows every chain of dependencies. */
  lemma RequestsFollowsChains(rule: Rule, capability: string)
    ensures Requests(rule, capability)
       <==> exists chain :: Chain(chain) && chain[0] in rule.requested && chain[|chain| - 1] == capability
  {
    if Requests(rule, capability) {
      var i :| 0 <= i < |rule.requested|
               && (rule.requested[i] == capability || capability in Dependencies(rule.requested[i]));
      if rule.requested[i] == capability {
        assert Chain([capability]) && [capability][0] in rule.requested;
      } else {
        var chain := [rule.requested[i], capability];
        assert Chain(chain) && chain[0] in rule.requested && chain[|chain| - 1] == capability;
      }
    }
    if chain :| Chain(chain) && chain[0] in rule.requested && chain[|chain| - 1] == capability {
      ChainIsOneLink(chain);
    }
  }

  // ----- the planned list

  function Rank(s: string): Key {
    [Codes(s)]
  }

  lemma RankInjective()
    ensures Injective(Rank)
  {
    forall s, t | Rank(s) == Rank(t) ensures s == t {
      assert Rank(s)[0] == Rank(t)[0];
      CodesInjective(s, t);
    }
  }

  ghost predicate Listed(rules: seq<Rule>, name: string, id: string) {
    exists r :: 0 <= r < |rules| && rules[r].id == id && Requests(rules[r], name)
  }

  ghost predicate Wanted(rules: seq<Rule>, name: string) {
    exists r :: 0 <= r < |rules| && Requests(rules[r], name)
  }

  /** The entry of one capability: its support, and in order the rules requesting it. */
  ghost predicate IsEntry(rules: seq<Rule>, entry: Capability) {
    && entry.language == None && entry.support == SupportFor(entry.name)
    && Ascending(entry.rules, Rank)
    && (forall id :: id in entry.rules <==> Listed(rules, entry.name, id))
  }

  /** The planned list: in order, one entry for each capability some rule requests. */
  ghost predicate IsPlan(rules: seq<Rule>, plan: seq<Capability>) {
    && Ascending(Names(plan), Rank)
    && (forall name :: name in Names(plan) <==> Wanted(rules, name))
    && (forall i :: 0 <= i < |plan| ==> IsEntry(rules, plan[i]))
  }

  function Names(plan: seq<Capability>): (names: seq<string>)
    ensures |names| == |plan|
  {
    seq(|plan|, i requires 0 <= i < |plan| => plan[i].name)
  }

  /** The plan depends only on which rules there are, not on their order. */
  lemma PlanIgnoresOrder(rules: seq<Rule>, rules': seq<Rule>, plan: seq<Capability>, plan': seq<Capability>)
    requires forall r :: r in rules <==> r in rules'
    requires IsPlan(rules, plan) && IsPlan(rules', plan')
    ensures plan == plan'
  {
    hide Requests, Rank, Ascending;
    RankInjective();
    forall name ensures Wanted(rules, name) <==> Wanted(rules', name) {
      if r :| 0 <= r < |rules| && Requests(rules[r], name) { assert rules[r] in rules'; }
      if r :| 0 <= r < |rules'| && Requests(rules'[r], name) { assert rules'[r] in rules; }
    }
    AscendingUnique(Names(plan), Names(plan'), Rank);
    forall i | 0 <= i < |plan| ensures plan[i] == plan'[i] {
      assert Names(plan)[i] == Names(plan')[i];
      var name := plan[i].name;
      forall id ensures Listed(rules, name, id) <==> Listed(rules', name, id) {
        if r :| 0 <= r < |rules| && rules[r].id == id && Requests(rules[r], name) { assert rules[r] in rules'; }
        if r :| 0 <= r < |rules'| && rules'[r].id == id && Requests(rules'[r], name) { assert rules'[r] in rules; }
      }
      AscendingUnique(plan[i].rules, plan'[i].rules, Rank);
    }
  }

  // ----- the loops

  /** What has been requested so far: (capability, rule id) pairs. */
  ghost predicate Collected(names: seq<string>, ids: map<string, seq<string>>, done: set<(string, string)>) {
    && Ascending(names, Rank)
    && (forall name :: name in names <==> name in ids)
    && (forall name :: name in ids ==> ids[name] != [] && Ascending(ids[name], Rank))
    && (forall name, id :: (name, id) in done <==> name in ids && id in ids[name])
  }

  /** `insert_capability_request` on the ordered map. */
  method InsertRequest(names: seq<string>, ids: map<string, seq<string>>, name: string, id: string,
                       ghost done: set<(string, string)>)
    returns (names': seq<string>, ids': map<string, seq<string>>)
    requires Collected(names, ids, done)
    ensures Collected(names', ids', done + {(name, id)})
  {
    RankInjective();
    InsertSorts(names, name, Rank);
    names' := Insert(names, name, Rank);
    var known := if name in ids then ids[name] else [];
    InsertSorts(known, id, Rank);
    assert id in Insert(known, id, Rank);
    ids' := ids[name := Insert(known, id, Rank)];
  }

  ghost function RequestsOf(rule: Rule, upTo: nat): set<(string, string)>
    requires upTo <= |rule.requested|
  {
    if upTo == 0 then {}
    else RequestsOf(rule, upTo - 1) + {(rule.requested[upTo - 1], rule.id)}
         + (set d | d in Dependencies(rule.requested[upTo - 1]) :: (d, rule.id))
  }

  lemma {:induction false} RequestsOfMeaning(rule: Rule, upTo: nat, name: string, id: string)
    requires upTo <= |rule.requested|
    ensures (name, id) in RequestsOf(rule, upTo) <==>
        id == rule.id && Requests(rule.(requested := rule.requested[..upTo]), name)
  {
    hide Dependencies;
    if upTo > 0 {
      RequestsOfMeaning(rule, upTo - 1, name, id);
      var before, after := rule.requested[..upTo - 1], rule.requested[..upTo];
      assert after[..upTo - 1] == before && after[upTo - 1] == rule.requested[upTo - 1];
      assert forall i :: 0 <= i < upTo - 1 ==> after[i] == before[i];
      if Requests(rule.(requested := before), name) {
        var i :| 0 <= i < upTo - 1 && (before[i] == name || name in Dependencies(before[i]));
        assert after[i] == name || name in Dependencies(after[i]);
      }
    }
  }

  ghost function AllRequests(rules: seq<Rule>): set<(string, string)> {
    if rules == [] then {}
    else AllRequests(rules[..|rules| - 1]) + RequestsOf(rules[|rules| - 1], |rules[|rules| - 1].requested|)
  }

  lemma {:induction false} AllRequestsMeaning(rules: seq<Rule>, name: string, id: string)
    ensures (name, id) in AllRequests(rules) <==> Listed(rules, name, id)
  {
    hide Requests;
    if rules != [] {
      var n := |rules| - 1;
      AllRequestsMeaning(rules[..n], name, id);
      var rule := rules[n];
      RequestsOfMeaning(rule, |rule.requested|, name, id);
      assert rule.(requested := rule.requested[..|rule.requested|]) == rule;
      if Listed(rules[..n], name, id) {
        var r :| 0 <= r < n && rules[..n][r].id == id && Requests(rules[..n][r], name);
        assert rules[r].id == id && Requests(rules[r], name);
      }
      if r :| 0 <= r < |rules| && rules[r].id == id && Requests(rules[r], name) {
        assert r < n ==> rules[..n][r] == rules[r];
      }
    }
  }

  /** One rule's requests and their dependencies. */
  method InsertRule(names: seq<string>, ids: map<string, seq<string>>, rule: Rule, ghost done: set<(string, string)>)
    returns (names': seq<string>, ids': map<string, seq<string>>)
    requires Collected(names, ids, done)
    ensures Collected(names', ids', done + RequestsOf(rule, |rule.requested|))
  {
    hide Dependencies, Collected, Insert, Ascending;
    names', ids' := names, ids;
    ghost var seen := done;
    for q := 0 to |rule.requested|
      invariant Collected(names', ids', seen) && seen == done + RequestsOf(rule, q)
    {
      var requested := rule.requested[q];
      var dependencies := Dependencies(requested);
      names', ids' := InsertRequest(names', ids', requested, rule.id, seen);
      ghost var start := seen + {(requested, rule.id)};
      seen := start;
      for d := 0 to |dependencies|
        invariant Collected(names', ids', seen) && seen == start + set e | e in dependencies[..d] :: (e, rule.id)
      {
        names', ids' := InsertRequest(names', ids', dependencies[d], rule.id, seen);
        seen := seen + {(dependencies[d], rule.id)};
        assert dependencies[..d + 1] == dependencies[..d] + [dependencies[d]];
      }
      assert dependencies[..|dependencies|] == dependencies;
    }
  }

  method PlanCapabilities(rules: seq<Rule>) returns (plan: seq<Capability>)
    ensures IsPlan(rules, plan)
  {
    hide Dependencies, Requests, Insert, RequestsOf, IsPlan, SupportFor;
    var names: seq<string>, ids: map<string, seq<string>> := [], map[];
    for r := 0 to |rules|
      invariant Collected(names, ids, AllRequests(rules[..r]))
    {
      names, ids := InsertRule(names, ids, rules[r], AllRequests(rules[..r]));
      assert rules[..r + 1][..r] == rules[..r];
    }
    assert rules[..|rules|] == rules;
    plan := Entries(names, ids);
    PlanOfRequests(rules, names, ids, plan, AllRequests(rules));
  }

  /** The ordered map drained into the planned list. */
  function Entries(names: seq<string>, ids: map<string, seq<string>>): seq<Capability>
    requires forall name :: name in names ==> name in ids
  {
    seq(|names|, i requires 0 <= i < |names| =>
      Capability(names[i], None, SupportFor(names[i]), ids[names[i]]))
  }

  lemma PlanOfRequests(rules: seq<Rule>, names: seq<string>, ids: map<string, seq<string>>, plan: seq<Capability>,
                       done: set<(string, string)>)
    requires Collected(names, ids, done) && done == AllRequests(rules) && plan == Entries(names, ids)
    ensures IsPlan(rules, plan)
  {
    hide Requests, Ascending, Insert, AllRequests, Rank, SupportFor;
    assert Names(plan) == names;
    forall name, id ensures Listed(rules, name, id) <==> (name, id) in done {
      AllRequestsMeaning(rules, name, id);
    }
    forall i | 0 <= i < |plan| ensures IsEntry(rules, plan[i]) {
      forall id ensures id in plan[i].rules <==> Listed(rules, names[i], id) {
        assert (names[i], id) in done <==> id in ids[names[i]];
      }
    }
    forall name ensures name in names <==> Wanted(rules, name) {
      if name in names {
        var id := ids[name][0];
        assert (name, id) in done && Listed(rules, name, id);
      }
      if r :| 0 <= r < |rules| && Requests(rules[r], name) {
        assert Listed(rules, name, rules[r].id);
        assert (name, rules[r].id) in done;
      }
    }
  }
}
