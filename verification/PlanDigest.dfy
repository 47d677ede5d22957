/** The digest of an analysis plan: labelled parts with length-prefixed values. */
module PlanDigest {
  import opened Options
  import opened Text
  import opened Capabilities
  import Fnv

  datatype Check = Check(
    id: string, capability: string, language: Option<Language>, status: string,
    reason: Option<string>, hint: Option<string>, docs: Option<string>)

  datatype Plan = Plan(rules: seq<Rule>, capabilities: seq<Capability>, checks: seq<Check>, perPoint: bool)

  const SCHEMA := "analysis-plan-v1"
  const POLICY_QUERY_VERSION := "policy-query-preview-v1"

  // ----- length-prefixed values

  /** The length in bytes, a colon and the value. */
  function EncodeStr(value: string): string {
    Decimal(|Fnv.Utf8(value)|) + ":" + value
  }

  function EncodeList(values: seq<string>): string {
    if values == [] then ""
    else if |values| == 1 then EncodeStr(values[0])
    else EncodeStr(values[0]) + "|" + EncodeList(values[1..])
  }

  lemma {:induction false} Utf8Concat(a: string, b: string)
    ensures Fnv.Utf8(a + b) == Fnv.Utf8(a) + Fnv.Utf8(b)
  {
    if a == [] {
      assert a + b == b;
    } else {
      assert (a + b)[1..] == a[1..] + b;
      Utf8Concat(a[1..], b);
    }
  }

  lemma Utf8Nonempty(s: string)
    ensures Fnv.Utf8(s) == [] ==> s == []
  {
  }

  /** Of two strings that start one text, equal byte lengths mean equal strings. */
  lemma SameBytesSamePrefix(a: string, x: string, b: string, y: string)
    requires a + x == b + y && |a| <= |b| && |Fnv.Utf8(a)| == |Fnv.Utf8(b)|
    ensures a == b && x == y
  {
    hide Fnv.Utf8;
    var rest := b[|a|..];
    assert a == (a + x)[..|a|] == (b + y)[..|a|] == b[..|a|];
    assert b == a + rest;
    Utf8Concat(a, rest);
    Utf8Nonempty(rest);
    assert x == (a + x)[|a|..] && y == (b + y)[|b|..];
  }

  /** An encoded value tells where it ends, whatever follows it. */
  lemma EncodeStrIsPrefixFree(a: string, x: string, b: string, y: string)
    requires EncodeStr(a) + x == EncodeStr(b) + y
    ensures a == b && x == y
  {
    hide Fnv.Utf8;
    var m, n := Decimal(|Fnv.Utf8(a)|), Decimal(|Fnv.Utf8(b)|);
    assert EncodeStr(a) + x == m + [':'] + (a + x) && EncodeStr(b) + y == n + [':'] + (b + y);
    CutAtFirst(m, a + x, n, b + y, ':');
    DecimalInjective(|Fnv.Utf8(a)|, |Fnv.Utf8(b)|);
    if |a| <= |b| {
      SameBytesSamePrefix(a, x, b, y);
    } else {
      SameBytesSamePrefix(b, y, a, x);
    }
  }

  lemma EncodeStrInjective(a: string, b: string)
    requires EncodeStr(a) == EncodeStr(b)
    ensures a == b
  {
    assert EncodeStr(a) + "" == EncodeStr(a) && EncodeStr(b) + "" == EncodeStr(b);
    EncodeStrIsPrefixFree(a, "", b, "");
  }

  /** What follows the first value of an encoded list. */
  function EncodeTail(values: seq<string>): string {
    if values == [] then "" else "|" + EncodeList(values)
  }

  /** The list encoding is uniquely decodable: no list shares its text with another,
      the empty list and the list of one empty string included. */
  lemma {:induction false} EncodeListInjective(vs: seq<string>, ws: seq<string>)
    requires EncodeList(vs) == EncodeList(ws)
    ensures vs == ws
  {
    hide Decimal, Fnv.Utf8;
    if vs != [] && ws != [] {
      var x, y := EncodeTail(vs[1..]), EncodeTail(ws[1..]);
      assert EncodeList(vs) == EncodeStr(vs[0]) + x && EncodeList(ws) == EncodeStr(ws[0]) + y;
      EncodeStrIsPrefixFree(vs[0], x, ws[0], y);
      assert |vs| > 1 <==> |ws| > 1;
      if |vs| > 1 {
        assert EncodeList(vs[1..]) == x[1..] == y[1..] == EncodeList(ws[1..]);
        EncodeListInjective(vs[1..], ws[1..]);
      }
      assert vs == [vs[0]] + vs[1..] && ws == [ws[0]] + ws[1..];
    }
  }

  // ----- the parts

  datatype Label =
    | Schema | Domains
    | RuleId | RuleDescription | RuleSeverity | RuleOptions | RuleCapabilities | RuleOptional
    | CapabilityName | CapabilityLanguage | CapabilityStatus | CapabilityRules | QueryVersion(capability: string)
    | SetupId | SetupStatus | SetupCapability | SetupLanguage

  function Spelled(l: Label): string {
    match l
    case Schema => "schema"
    case Domains => "domains"
    case RuleId => "rule.id"
    case RuleDescription => "rule.description"
    case RuleSeverity => "rule.severity"
    case RuleOptions => "rule.options"
    case RuleCapabilities => "rule.capabilities"
    case RuleOptional => "rule.optional_capabilities"
    case CapabilityName => "capability.name"
    case CapabilityLanguage => "capability.language"
    case CapabilityStatus => "capability.status"
    case CapabilityRules => "capability.rules"
    case QueryVersion(c) => "capability.policy_query_version." + EncodeStr(c)
    case SetupId => "setup.id"
    case SetupStatus => "setup.status"
    case SetupCapability => "setup.capability"
    case SetupLanguage => "setup.language"
  }

  datatype Field = Field(name: Label, value: string)

  function Print(field: Field): string {
    Spelled(field.name) + "=" + field.value
  }

  function LanguageName(language: Option<Language>): string {
    match language
    case None => "none"
    case Some(Go) => "go"
    case Some(TypeScript) => "typescript"
    case Some(Tsx) => "tsx"
    case Some(JavaScript) => "javascript"
    case Some(Jsx) => "jsx"
    case Some(Unknown) => "unknown"
  }

  function SeverityName(severity: Severity): string {
    match severity
    case Info => "info"
    case Warn => "warn"
    case Error => "error"
  }

  function StatusName(status: Status): string {
    match status
    case Supported => "Supported"
    case Unsupported => "Unsupported"
    case SetupMissing => "SetupMissing"
  }

  predicate HasQueryVersion(capability: string) {
    capability == "events" || capability == "calls" || capability == "control_flow" || capability == "dataflow"
  }

  function RuleFields(rule: Rule): seq<Field> {
    [Field(RuleId, EncodeStr(rule.id)), Field(RuleDescription, EncodeStr(rule.description)),
     Field(RuleSeverity, EncodeStr(SeverityName(rule.severity))), Field(RuleOptions, EncodeStr(rule.optionsDigest)),
     Field(RuleCapabilities, EncodeList(rule.requested))]
    + if rule.optional == [] then [] else [Field(RuleOptional, EncodeList(rule.optional))]
  }

  function CapabilityFields(c: Capability): seq<Field> {
    [Field(CapabilityName, EncodeStr(c.name)), Field(CapabilityLanguage, LanguageName(c.language)),
     Field(CapabilityStatus, EncodeStr(StatusName(c.support.status))), Field(CapabilityRules, EncodeList(c.rules))]
    + if HasQueryVersion(c.name) then [Field(QueryVersion(c.name), EncodeStr(POLICY_QUERY_VERSION))] else []
  }

  function CheckFields(check: Check): seq<Field> {
    [Field(SetupId, EncodeStr(check.id)), Field(SetupStatus, EncodeStr(check.status)),
     Field(SetupCapability, EncodeStr(check.capability)), Field(SetupLanguage, LanguageName(check.language))]
  }

  function Flatten<T>(items: seq<T>, fields: T -> seq<Field>): seq<Field> {
    if items == [] then [] else fields(items[0]) + Flatten(items[1..], fields)
  }

  function PlanFields(plan: Plan): seq<Field> {
    [Field(Schema, EncodeStr(SCHEMA))] + (if plan.perPoint then [Field(Domains, "per_point")] else [])
    + (Flatten(plan.rules, RuleFields)
       + (Flatten(plan.capabilities, CapabilityFields) + Flatten(plan.checks, CheckFields)))
  }

  function PrintAll(fields: seq<Field>): (parts: seq<string>)
    ensures |parts| == |fields|
  {
    seq(|fields|, i requires 0 <= i < |fields| => Print(fields[i]))
  }

  // ----- printed parts determine their labels and values

  lemma SpelledShape(l: Label)
    ensures match l
            case QueryVersion(c) => |Spelled(l)| > 31 && Spelled(l)[31] == '.' && Spelled(l)[32..] == EncodeStr(c)
            case _ => |Spelled(l)| < 31
  {
  }

  /** Length and first letter tell the fixed labels apart. */
  lemma SpelledInjective(k: Label, l: Label)
    requires Spelled(k) == Spelled(l)
    ensures k == l
  {
    SpelledShape(k);
    SpelledShape(l);
    if k.QueryVersion? && l.QueryVersion? {
      EncodeStrInjective(k.capability, l.capability);
    } else {
      assert k.QueryVersion? <==> l.QueryVersion?;
      FixedLabel(k);
      FixedLabel(l);
    }
  }

  /** A fixed label, found again from its length and its first letter. */
  function ByShape(length: nat, first: char): Label {
    if length == 6 then Schema
    else if length == 7 then (if first == 'd' then Domains else RuleId)
    else if length == 8 then SetupId
    else if length == 12 then (if first == 'r' then RuleOptions else SetupStatus)
    else if length == 13 then RuleSeverity
    else if length == 14 then SetupLanguage
    else if length == 15 then CapabilityName
    else if length == 16 then (if first == 'r' then RuleDescription else if first == 'c' then CapabilityRules
        else SetupCapability)
    else if length == 17 then (if first == 'r' then RuleCapabilities else CapabilityStatus)
    else if length == 19 then CapabilityLanguage
    else RuleOptional
  }

  lemma FixedLabel(l: Label)
    requires !l.QueryVersion?
    ensures |Spelled(l)| > 0 && ByShape(|Spelled(l)|, Spelled(l)[0]) == l
  {
  }

  /** No label holds an equals sign; a query version's label names a known capability. */
  ghost predicate PlainLabel(l: Label) {
    l.QueryVersion? ==> HasQueryVersion(l.capability)
  }

  lemma EncodeKeepsOut(value: string, c: char)
    requires c !in value && c != ':' && !('0' <= c <= '9')
    ensures c !in EncodeStr(value)
  {
  }

  lemma QueryNamesPlain(capability: string)
    requires HasQueryVersion(capability)
    ensures '=' !in capability
  {
  }

  predicate IsRuleLabel(l: Label) {
    l.RuleId? || l.RuleDescription? || l.RuleSeverity? || l.RuleOptions? || l.RuleCapabilities? || l.RuleOptional?
  }

  lemma FixedRuleLabel(l: Label)
    ensures IsRuleLabel(l) ==> '=' !in Spelled(l)
  {
  }

  lemma FixedOtherLabel(l: Label)
    ensures IsRuleLabel(l) || l.QueryVersion? || '=' !in Spelled(l)
  {
  }

  lemma NoEquals(l: Label)
    requires PlainLabel(l)
    ensures '=' !in Spelled(l)
  {
    if l.QueryVersion? {
      hide EncodeStr, HasQueryVersion;
      QueryNamesPlain(l.capability);
      EncodeKeepsOut(l.capability, '=');
    } else {
      FixedRuleLabel(l);
      FixedOtherLabel(l);
    }
  }

  lemma PrintInjective(f: Field, g: Field)
    requires PlainLabel(f.name) && PlainLabel(g.name) && Print(f) == Print(g)
    ensures f == g
  {
    NoEquals(f.name);
    NoEquals(g.name);
    CutAtFirst(Spelled(f.name), f.value, Spelled(g.name), g.value, '=');
    SpelledInjective(f.name, g.name);
  }

  ghost predicate Plain(fields: seq<Field>) {
    forall i :: 0 <= i < |fields| ==> PlainLabel(fields[i].name)
  }

  lemma PrintAllInjective(fs: seq<Field>, gs: seq<Field>)
    requires Plain(fs) && Plain(gs) && PrintAll(fs) == PrintAll(gs)
    ensures fs == gs
  {
    hide Print, PlainLabel;
    forall i | 0 <= i < |fs| ensures fs[i] == gs[i] {
      assert PrintAll(fs)[i] == Print(fs[i]) && PrintAll(gs)[i] == Print(gs[i]);
      PrintInjective(fs[i], gs[i]);
    }
  }

  lemma {:induction false} FlattenPlain<T>(items: seq<T>, fields: T -> seq<Field>)
    requires forall i :: 0 <= i < |items| ==> Plain(fields(items[i]))
    ensures Plain(Flatten(items, fields))
  {
    if items != [] {
      FlattenPlain(items[1..], fields);
    }
  }

  lemma PlanFieldsPlain(plan: Plan)
    ensures Plain(PlanFields(plan))
  {
    hide EncodeStr, EncodeList;
    FlattenPlain(plan.rules, RuleFields);
    FlattenPlain(plan.capabilities, CapabilityFields);
    FlattenPlain(plan.checks, CheckFields);
  }

  // ----- fields determine what they were printed from

  /** What the digest sees of a rule, a capability, a check and a plan. */
  function RuleView(rule: Rule): Rule {
    rule.(files := [], allowFiles := [])
  }

  function CapabilityView(c: Capability): Capability {
    c.(support := Support(c.support.status, None, None, None))
  }

  function CheckView(check: Check): Check {
    check.(reason := None, hint := None, docs := None)
  }

  function MapView<T>(items: seq<T>, view: T -> T): seq<T> {
    if items == [] then [] else [view(items[0])] + MapView(items[1..], view)
  }

  function PlanView(plan: Plan): Plan {
    Plan(MapView(plan.rules, RuleView), MapView(plan.capabilities, CapabilityView),
         MapView(plan.checks, CheckView), plan.perPoint)
  }

  ghost predicate StartsOutside(x: seq<Field>, labels: set<Label>) {
    x == [] || x[0].name !in labels
  }

  /** Cutting `a`'s fields off the front of a text is the only way to cut an item off it,
      as long as the rest does not start with one of `labels`. */
  ghost predicate Cut<T>(fields: T -> seq<Field>, view: T -> T, labels: set<Label>, a: T, x: seq<Field>, b: T,
                         y: seq<Field>) {
    fields(a) + x == fields(b) + y && StartsOutside(x, labels) && StartsOutside(y, labels) ==>
        view(a) == view(b) && x == y
  }

  /** Every item starts with the label `head`, and items can be told apart and cut off. */
  ghost predicate Delimited<T(!new)>(fields: T -> seq<Field>, view: T -> T, head: Label, labels: set<Label>) {
    && head !in labels
    && (forall a :: fields(a) != [] && fields(a)[0].name == head && fields(view(a)) == fields(a))
    && (forall a, x, b, y :: Cut(fields, view, labels, a, x, b, y))
  }

  lemma {:induction false} FlattenInjective<T(!new)>(
    fields: T -> seq<Field>, view: T -> T, head: Label, labels: set<Label>,
    items: seq<T>, x: seq<Field>, items': seq<T>, y: seq<Field>)
    requires Delimited(fields, view, head, labels)
    requires StartsOutside(x, labels + {head}) && StartsOutside(y, labels + {head})
    requires Flatten(items, fields) + x == Flatten(items', fields) + y
    ensures MapView(items, view) == MapView(items', view) && x == y
  {
    hide Flatten, Delimited, Cut;
    FlattenUnfold(fields, view, head, labels, items, x);
    FlattenUnfold(fields, view, head, labels, items', y);
    if items != [] && items' != [] {
      var p, q := Flatten(items[1..], fields) + x, Flatten(items'[1..], fields) + y;
      FlattenStart(fields, view, head, labels, items[1..], x);
      FlattenStart(fields, view, head, labels, items'[1..], y);
      CutFirst(fields, view, head, labels, items[0], p, items'[0], q);
      FlattenInjective(fields, view, head, labels, items[1..], x, items'[1..], y);
    }
  }

  lemma CutFirst<T(!new)>(
    fields: T -> seq<Field>, view: T -> T, head: Label, labels: set<Label>, a: T, p: seq<Field>, b: T, q: seq<Field>)
    requires Delimited(fields, view, head, labels) && fields(a) + p == fields(b) + q
    requires StartsOutside(p, labels) && StartsOutside(q, labels)
    ensures view(a) == view(b) && p == q
  {
    assert Cut(fields, view, labels, a, p, b, q);
  }

  lemma FlattenUnfold<T(!new)>(
    fields: T -> seq<Field>, view: T -> T, head: Label, labels: set<Label>, items: seq<T>, x: seq<Field>)
    requires Delimited(fields, view, head, labels)
    ensures var s := Flatten(items, fields) + x;
            if items == [] then s == x
            else s != [] && s[0].name == head && s == fields(items[0]) + (Flatten(items[1..], fields) + x)
  {
    hide Delimited, Cut, Flatten;
    FlattenFirst(fields, items);
    if items != [] {
      ItemStarts(fields, view, head, labels, items[0]);
      Regroup(fields(items[0]), Flatten(items[1..], fields), x);
    } else {
      Regroup([], [], x);
    }
  }

  lemma FlattenFirst<T>(fields: T -> seq<Field>, items: seq<T>)
    ensures Flatten(items, fields) == if items == [] then [] else fields(items[0]) + Flatten(items[1..], fields)
  {
  }

  lemma Regroup(first: seq<Field>, rest: seq<Field>, x: seq<Field>)
    ensures (first + rest) + x == first + (rest + x)
    ensures first != [] ==> (first + (rest + x))[0] == first[0]
    ensures first + rest == [] ==> (first + rest) + x == x
  {
  }

  lemma ItemStarts<T(!new)>(fields: T -> seq<Field>, view: T -> T, head: Label, labels: set<Label>, item: T)
    requires Delimited(fields, view, head, labels)
    ensures fields(item) != [] && fields(item)[0].name == head
  {
    hide Cut;
  }

  lemma FlattenStart<T(!new)>(
    fields: T -> seq<Field>, view: T -> T, head: Label, labels: set<Label>, items: seq<T>, x: seq<Field>)
    requires Delimited(fields, view, head, labels) && StartsOutside(x, labels + {head})
    ensures StartsOutside(Flatten(items, fields) + x, labels)
    ensures forall other :: head !in other && StartsOutside(x, other) ==>
        StartsOutside(Flatten(items, fields) + x, other)
  {
  }

  lemma {:induction false} FlattenSeesView<T(!new)>(fields: T -> seq<Field>, view: T -> T, head: Label,
                                                    labels: set<Label>, items: seq<T>)
    requires Delimited(fields, view, head, labels)
    ensures Flatten(MapView(items, view), fields) == Flatten(items, fields)
  {
    if items != [] {
      FlattenSeesView(fields, view, head, labels, items[1..]);
      assert MapView(items, view)[1..] == MapView(items[1..], view);
    }
  }

  lemma LanguageNameInjective(k: Option<Language>, l: Option<Language>)
    requires LanguageName(k) == LanguageName(l)
    ensures k == l
  {
  }

  lemma SameFront(f: seq<Field>, x: seq<Field>, g: seq<Field>, y: seq<Field>, n: nat)
    requires f + x == g + y && n <= |f| && n <= |g|
    ensures forall i :: 0 <= i < n ==> f[i] == g[i]
  {
    assert forall i :: 0 <= i < n ==> f[i] == (f + x)[i] && g[i] == (g + y)[i];
  }

  lemma RulesDelimited()
    ensures Delimited(RuleFields, RuleView, RuleId, {RuleOptional})
  {
    forall a: Rule, x, b: Rule, y ensures Cut(RuleFields, RuleView, {RuleOptional}, a, x, b, y) {
      if RuleFields(a) + x == RuleFields(b) + y && StartsOutside(x, {RuleOptional})
        && StartsOutside(y, {RuleOptional}) {
        RuleCut(a, x, b, y);
      }
    }
  }

  lemma RuleCut(a: Rule, x: seq<Field>, b: Rule, y: seq<Field>)
    requires RuleFields(a) + x == RuleFields(b) + y && StartsOutside(x, {RuleOptional})
    requires StartsOutside(y, {RuleOptional})
    ensures RuleView(a) == RuleView(b) && x == y
  {
    hide EncodeStr, EncodeList;
    var s, t := RuleFields(a) + x, RuleFields(b) + y;
    var f, g := RuleFields(a), RuleFields(b);
    SameFront(f, x, g, y, 5);
    assert f[0] == g[0] && f[1] == g[1] && f[2] == g[2] && f[3] == g[3] && f[4] == g[4];
    EncodeStrInjective(a.id, b.id);
    EncodeStrInjective(a.description, b.description);
    EncodeStrInjective(SeverityName(a.severity), SeverityName(b.severity));
    EncodeStrInjective(a.optionsDigest, b.optionsDigest);
    EncodeListInjective(a.requested, b.requested);
    assert a.optional != [] ==> s[5] == Field(RuleOptional, EncodeList(a.optional));
    assert b.optional != [] ==> t[5] == Field(RuleOptional, EncodeList(b.optional));
    assert a.optional == [] ==> s[5..] == x;
    assert b.optional == [] ==> t[5..] == y;
    assert a.optional == [] <==> b.optional == [];
    if a.optional != [] {
      EncodeListInjective(a.optional, b.optional);
      assert s[6..] == x && t[6..] == y;
    }
  }

  lemma CapabilitiesDelimited()
    ensures Delimited(CapabilityFields, CapabilityView, CapabilityName, {})
  {
    forall a: Capability, x, b: Capability, y ensures Cut(CapabilityFields, CapabilityView, {}, a, x, b, y) {
      if CapabilityFields(a) + x == CapabilityFields(b) + y {
        CapabilityCut(a, x, b, y);
      }
    }
  }

  lemma CapabilityCut(a: Capability, x: seq<Field>, b: Capability, y: seq<Field>)
    requires CapabilityFields(a) + x == CapabilityFields(b) + y
    ensures CapabilityView(a) == CapabilityView(b) && x == y
  {
    hide EncodeStr, EncodeList;
    var s, t := CapabilityFields(a) + x, CapabilityFields(b) + y;
    var f, g := CapabilityFields(a), CapabilityFields(b);
    SameFront(f, x, g, y, 4);
    assert f[0] == g[0] && f[1] == g[1] && f[2] == g[2] && f[3] == g[3];
    EncodeStrInjective(a.name, b.name);
    LanguageNameInjective(a.language, b.language);
    EncodeStrInjective(StatusName(a.support.status), StatusName(b.support.status));
    EncodeListInjective(a.rules, b.rules);
    var n := |CapabilityFields(a)|;
    assert n == |CapabilityFields(b)| && s[n..] == x && t[n..] == y;
  }

  lemma ChecksDelimited()
    ensures Delimited(CheckFields, CheckView, SetupId, {})
  {
    forall a: Check, x, b: Check, y ensures Cut(CheckFields, CheckView, {}, a, x, b, y) {
      if CheckFields(a) + x == CheckFields(b) + y {
        CheckCut(a, x, b, y);
      }
    }
  }

  lemma CheckCut(a: Check, x: seq<Field>, b: Check, y: seq<Field>)
    requires CheckFields(a) + x == CheckFields(b) + y
    ensures CheckView(a) == CheckView(b) && x == y
  {
    hide EncodeStr;
    var s, t := CheckFields(a) + x, CheckFields(b) + y;
    var f, g := CheckFields(a), CheckFields(b);
    SameFront(f, x, g, y, 4);
    assert f[0] == g[0] && f[1] == g[1] && f[2] == g[2] && f[3] == g[3];
    EncodeStrInjective(a.id, b.id);
    EncodeStrInjective(a.status, b.status);
    EncodeStrInjective(a.capability, b.capability);
    LanguageNameInjective(a.language, b.language);
    assert s[4..] == x && t[4..] == y;
  }

  /** What follows the schema and the domain request. */
  function Body(plan: Plan): seq<Field> {
    Flatten(plan.rules, RuleFields) + (Flatten(plan.capabilities, CapabilityFields) + Flatten(plan.checks, CheckFields))
  }

  lemma BodyDetermines(p: Plan, q: Plan)
    ensures Body(p) == Body(q) ==>
      && MapView(p.rules, RuleView) == MapView(q.rules, RuleView)
      && MapView(p.capabilities, CapabilityView) == MapView(q.capabilities, CapabilityView)
      && MapView(p.checks, CheckView) == MapView(q.checks, CheckView)
  {
    hide RuleFields, CapabilityFields, CheckFields, RuleView, CapabilityView, CheckView, Delimited, Flatten, MapView;
    if Body(p) != Body(q) {
      return;
    }
    RulesDelimited();
    CapabilitiesDelimited();
    ChecksDelimited();
    var c, d := Flatten(p.checks, CheckFields), Flatten(q.checks, CheckFields);
    assert c + [] == c && d + [] == d;
    FlattenStart(CheckFields, CheckView, SetupId, {}, p.checks, []);
    FlattenStart(CheckFields, CheckView, SetupId, {}, q.checks, []);
    FlattenStart(CapabilityFields, CapabilityView, CapabilityName, {}, p.capabilities, c);
    FlattenStart(CapabilityFields, CapabilityView, CapabilityName, {}, q.capabilities, d);
    FlattenInjective(RuleFields, RuleView, RuleId, {RuleOptional},
                     p.rules, Flatten(p.capabilities, CapabilityFields) + c, q.rules, Flatten(q.capabilities,
                         CapabilityFields) + d);
    FlattenInjective(CapabilityFields, CapabilityView, CapabilityName, {}, p.capabilities, c, q.capabilities, d);
    FlattenInjective(CheckFields, CheckView, SetupId, {}, p.checks, [], q.checks, []);
  }

  lemma BodySeesView(plan: Plan)
    ensures Body(PlanView(plan)) == Body(plan)
  {
    hide RuleFields, CapabilityFields, CheckFields, RuleView, CapabilityView, CheckView;
    RulesDelimited();
    CapabilitiesDelimited();
    ChecksDelimited();
    FlattenSeesView(RuleFields, RuleView, RuleId, {RuleOptional}, plan.rules);
    FlattenSeesView(CapabilityFields, CapabilityView, CapabilityName, {}, plan.capabilities);
    FlattenSeesView(CheckFields, CheckView, SetupId, {}, plan.checks);
  }

  lemma BodyHasNoDomains(plan: Plan)
    ensures StartsOutside(Body(plan), {Domains})
  {
  }

  lemma FieldsDetermine(p: Plan, q: Plan)
    ensures PlanFields(p) == PlanFields(q) ==> PlanView(p) == PlanView(q)
  {
    hide Flatten, MapView, EncodeStr;
    if PlanFields(p) != PlanFields(q) {
      return;
    }
    var s, t := PlanFields(p), PlanFields(q);
    BodyHasNoDomains(p);
    BodyHasNoDomains(q);
    assert p.perPoint ==> s[1].name == Domains && s[2..] == Body(p);
    assert q.perPoint ==> t[1].name == Domains && t[2..] == Body(q);
    assert !p.perPoint ==> s[1..] == Body(p);
    assert !q.perPoint ==> t[1..] == Body(q);
    assert p.perPoint == q.perPoint;
    BodyDetermines(p, q);
  }

  ghost function Parts(plan: Plan): seq<string> {
    PrintAll(PlanFields(plan))
  }

  /** The stream that is hashed is the same for two plans exactly when they agree on every
      digested field, so only those fields, and all of them, reach the digest. */
  lemma StreamDeterminesPlan(p: Plan, q: Plan)
    ensures Fnv.Frame(Parts(p)) == Fnv.Frame(Parts(q)) <==> PlanView(p) == PlanView(q)
  {
    hide Fnv.Frame, Print, Body, PlanView, Plain, PrintAll;
    if Fnv.Frame(Parts(p)) == Fnv.Frame(Parts(q)) {
      Fnv.FrameInjective(Parts(p), Parts(q));
      PlanFieldsPlain(p);
      PlanFieldsPlain(q);
      PrintAllInjective(PlanFields(p), PlanFields(q));
      FieldsDetermine(p, q);
    }
    ViewFields(p);
    ViewFields(q);
  }

  lemma ViewFields(plan: Plan)
    ensures PlanFields(PlanView(plan)) == PlanFields(plan)
  {
    hide Flatten, MapView;
    BodySeesView(plan);
  }

  lemma {:induction false} FlattenSnoc<T>(items: seq<T>, item: T, fields: T -> seq<Field>)
    ensures Flatten(items + [item], fields) == Flatten(items, fields) + fields(item)
  {
    if items == [] {
      assert [item][1..] == [];
    } else {
      assert (items + [item])[1..] == items[1..] + [item];
      FlattenSnoc(items[1..], item, fields);
    }
  }

  /** The digest's push loops over rules, capabilities and checks. */
  method ComputeDigest(plan: Plan) returns (digest: string)
    ensures digest == Fnv.StableHash(Parts(plan))
  {
    hide Flatten, RuleFields, CapabilityFields, CheckFields, Print, Fnv.StableHash, EncodeStr;
    var fields := [Field(Schema, EncodeStr(SCHEMA))];
    if plan.perPoint {
      fields := fields + [Field(Domains, "per_point")];
    }
    fields := PushAll(fields, plan.rules, RuleFields);
    fields := PushAll(fields, plan.capabilities, CapabilityFields);
    fields := PushAll(fields, plan.checks, CheckFields);
    assert fields == PlanFields(plan);
    digest := Fnv.ComputeStableHash(PrintAll(fields));
  }

  method PushAll<T>(start: seq<Field>, items: seq<T>, fieldsOf: T -> seq<Field>) returns (fields: seq<Field>)
    ensures fields == start + Flatten(items, fieldsOf)
  {
    fields := start;
    for i := 0 to |items|
      invariant fields == start + Flatten(items[..i], fieldsOf)
    {
      fields := fields + fieldsOf(items[i]);
      assert items[..i + 1] == items[..i] + [items[i]];
      FlattenSnoc(items[..i], items[i], fieldsOf);
    }
    assert items[..|items|] == items;
  }
}
