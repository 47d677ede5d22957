/** The text of a baseline file: rendering entries as single-quoted YAML scalars,
    and reading them back. */
module BaselineText {
  import opened Options
  import opened Ordering
  import opened Text
  import opened Baseline
  import opened BaselineConfig

  predicate NoWhitespace(s: string) {
    forall i :: 0 <= i < |s| ==> !IsWhitespace(s[i])
  }

  function TrimStart(s: string): string {
    if s != [] && IsWhitespace(s[0]) then TrimStart(s[1..]) else s
  }

  function TrimEnd(s: string): string {
    if s != [] && IsWhitespace(s[|s| - 1]) then TrimEnd(s[..|s| - 1]) else s
  }

  function Trim(s: string): string {
    TrimEnd(TrimStart(s))
  }

  predicate Trimmed(s: string) {
    s != [] ==> !IsWhitespace(s[0]) && !IsWhitespace(s[|s| - 1])
  }

  predicate OneLine(s: string) {
    '\n' !in s && '\r' !in s
  }

  function FirstWhitespace(s: string): (k: Option<nat>)
    ensures k.Some? ==> k.value < |s| && IsWhitespace(s[k.value]) && NoWhitespace(s[..k.value])
    ensures k.None? ==> NoWhitespace(s)
  {
    if s == [] then None
    else if IsWhitespace(s[0]) then Some(0)
    else
      match FirstWhitespace(s[1..])
      case None => None
      case Some(k) => assert s[..k + 1] == [s[0]] + s[1..][..k]; Some(k + 1)
  }

  /** The next run of non-blank characters, and what follows it; nothing when no
      blank follows. */
  function NextToken(s: string): Option<(string, string)> {
    var trimmed := TrimStart(s);
    match FirstWhitespace(trimmed)
    case None => None
    case Some(at) => if at == 0 then None else Some((trimmed[..at], trimmed[at..]))
  }

  datatype Parsed<T> = Ok(value: T) | Invalid(reason: string)

  function ParseEntry(raw: string): Parsed<Entry> {
    var entry := Trim(raw);
    if entry == [] then Invalid("entry must not be empty")
    else if !OneLine(entry) then Invalid("entry must fit on one line")
    else
      match NextToken(entry)
      case None => Invalid("missing fingerprint and file")
      case Some((rule, rest)) =>
        match NextToken(TrimStart(rest))
        case None => Invalid("missing file")
        case Some((fingerprint, file)) =>
          if Trim(file) == [] then Invalid("file must not be empty")
          else Ok(Entry(rule, fingerprint, Trim(file)))
  }

  function Protocol(e: Entry): string {
    e.rule + " " + e.fingerprint + " " + e.file
  }

  /** What an entry must look like to survive: rule and fingerprint single tokens,
      the file a trimmed line, which may hold blanks and quotes. */
  predicate WellFormed(e: Entry) {
    e.rule != [] && NoWhitespace(e.rule) && e.fingerprint != [] && NoWhitespace(e.fingerprint)
    && e.file != [] && Trimmed(e.file) && OneLine(e.file)
  }

  // ----- one entry

  lemma {:induction false} TrimStartFixed(s: string)
    ensures TrimStart(s) == s <==> s == [] || !IsWhitespace(s[0])
    ensures TrimStart(s) != [] ==> !IsWhitespace(TrimStart(s)[0])
    ensures |TrimStart(s)| <= |s| && TrimStart(s) == s[|s| - |TrimStart(s)|..]
  {
    if s != [] && IsWhitespace(s[0]) {
      TrimStartFixed(s[1..]);
    }
  }

  lemma {:induction false} TrimEndFixed(s: string)
    ensures TrimEnd(s) == s <==> s == [] || !IsWhitespace(s[|s| - 1])
    ensures TrimEnd(s) != [] ==> !IsWhitespace(TrimEnd(s)[|TrimEnd(s)| - 1])
    ensures TrimEnd(s) <= s
  {
    if s != [] && IsWhitespace(s[|s| - 1]) {
      TrimEndFixed(s[..|s| - 1]);
    }
  }

  lemma TrimTrims(s: string)
    ensures Trimmed(Trim(s))
    ensures Trimmed(s) ==> Trim(s) == s
    ensures OneLine(s) ==> OneLine(Trim(s))
  {
    TrimStartFixed(s);
    TrimEndFixed(TrimStart(s));
  }

  lemma {:induction false} FirstWhitespaceAt(s: string, k: nat)
    requires k < |s| && IsWhitespace(s[k]) && forall i :: 0 <= i < k ==> !IsWhitespace(s[i])
    ensures FirstWhitespace(s) == Some(k)
  {
  }

  lemma TokenThenRest(token: string, rest: string)
    requires token != [] && NoWhitespace(token) && rest != [] && IsWhitespace(rest[0])
    ensures NextToken(token + rest) == Some((token, rest))
  {
    hide IsWhitespace;
    var s := token + rest;
    assert s[0] == token[0];
    TrimStartFixed(s);
    FirstWhitespaceAt(s, |token|);
    assert s[..|token|] == token && s[|token|..] == rest;
  }

  lemma BlankThenText(s: string)
    ensures IsWhitespace(' ') && (s == [] || !IsWhitespace(s[0]) ==> TrimStart(" " + s) == s)
  {
  }

  lemma ProtocolShape(e: Entry)
    requires WellFormed(e)
    ensures var s := Protocol(e);
            s == e.rule + (" " + (e.fingerprint + (" " + e.file))) && s != [] && Trimmed(s) && OneLine(s)
    ensures !IsWhitespace(e.fingerprint[0]) && !IsWhitespace(e.file[0])
  {
  }

  lemma EntryRoundTrip(e: Entry)
    requires WellFormed(e)
    ensures ParseEntry(Protocol(e)) == Ok(e)
    ensures OneLine(Protocol(e))
  {
    hide IsWhitespace, TrimStart, Trim, NextToken, NoWhitespace, OneLine, Trimmed, Protocol;
    var last := " " + e.file;
    var tail := " " + (e.fingerprint + last);
    ProtocolShape(e);
    TrimTrims(e.rule + tail);
    BlankThenText(e.fingerprint + last);
    BlankThenText(e.file);
    TokenThenRest(e.rule, tail);
    assert (e.fingerprint + last)[0] == e.fingerprint[0];
    TokenThenRest(e.fingerprint, last);
    TrimBlank(e.file);
  }

  lemma TrimBlank(file: string)
    requires file != [] && Trimmed(file)
    ensures Trim(" " + file) == file
  {
    hide IsWhitespace, TrimStart, TrimEnd;
    BlankThenText(file);
    TrimEndFixed(file);
  }

  /** Whatever is parsed is well formed, so well-formed entries are exactly those
      that rendering and parsing return. */
  lemma RoundTripExactly(e: Entry)
    ensures ParseEntry(Protocol(e)) == Ok(e) <==> WellFormed(e)
  {
    if WellFormed(e) {
      EntryRoundTrip(e);
    } else if ParseEntry(Protocol(e)) == Ok(e) {
      ParsedIsWellFormed(Protocol(e), e);
    }
  }

  lemma NextTokenSpec(s: string)
    ensures match NextToken(s)
            case None => true
            case Some((token, rest)) => token != [] && NoWhitespace(token) && (OneLine(s) ==> OneLine(rest))
  {
    TrimStartFixed(s);
  }

  lemma TrimStartKeepsLine(s: string)
    ensures OneLine(s) ==> OneLine(TrimStart(s))
  {
  }

  lemma ParsedIsWellFormed(raw: string, e: Entry)
    requires ParseEntry(raw) == Ok(e)
    ensures WellFormed(e)
  {
    hide NextToken, IsWhitespace, TrimStart, NoWhitespace, Trim, OneLine, Trimmed;
    var entry := Trim(raw);
    NextTokenSpec(entry);
    var rest := NextToken(entry).value.1;
    TrimStartKeepsLine(rest);
    NextTokenSpec(TrimStart(rest));
    TrimTrims(NextToken(TrimStart(rest)).value.1);
  }

  // ----- quoting, section 7.3.2 of YAML 1.2.2

  function Escape(s: string): string {
    if s == [] then [] else (if s[0] == '\'' then "''" else [s[0]]) + Escape(s[1..])
  }

  function Quote(s: string): string {
    "'" + Escape(s) + "'"
  }

  /** The characters a quoted scalar may hold: a tab, or anything from the blank on. */
  predicate IsQuotable(c: char) {
    c == '\t' || c >= ' '
  }

  predicate Quotable(s: string) {
    forall i :: 0 <= i < |s| ==> IsQuotable(s[i])
  }

  /** The inside of a single-quoted scalar: a quote must be doubled. */
  function Unescape(s: string): Option<string> {
    if s == [] then Some([])
    else if !IsQuotable(s[0]) then None
    else if s[0] == '\'' then
      if |s| >= 2 && s[1] == '\'' then
        match Unescape(s[2..])
        case None => None
        case Some(rest) => Some(['\''] + rest)
      else None
    else
      match Unescape(s[1..])
      case None => None
      case Some(rest) => Some([s[0]] + rest)
  }

  function Unquote(s: string): Option<string> {
    if |s| >= 2 && s[0] == '\'' && s[|s| - 1] == '\'' then Unescape(s[1..|s| - 1]) else None
  }

  lemma {:induction false} UnescapeEscape(s: string)
    ensures Unescape(Escape(s)) == if Quotable(s) then Some(s) else None
  {
    if s != [] {
      UnescapeEscape(s[1..]);
      var e := Escape(s);
      assert s == [s[0]] + s[1..];
      assert Quotable(s) <==> IsQuotable(s[0]) && Quotable(s[1..]);
      if s[0] == '\'' {
        assert e[2..] == Escape(s[1..]);
      } else {
        assert e[1..] == Escape(s[1..]);
      }
    }
  }

  /** Unquoting undoes quoting exactly for texts that may be quoted. */
  lemma QuoteRoundTrip(s: string)
    ensures Unquote(Quote(s)) == if Quotable(s) then Some(s) else None
  {
    var q := Quote(s);
    assert q[1..|q| - 1] == Escape(s);
    UnescapeEscape(s);
  }

  lemma {:induction false} QuoteKeepsLine(s: string)
    requires OneLine(s)
    ensures '\n' !in Escape(s)
  {
    if s != [] {
      QuoteKeepsLine(s[1..]);
    }
  }

  // ----- whole files

  function EntryLine(e: Entry): string {
    "  - " + Quote(Protocol(e))
  }

  function EntryLines(entries: seq<Entry>): seq<string> {
    if entries == [] then [] else EntryLines(entries[..|entries| - 1]) + [EntryLine(entries[|entries| - 1])]
  }

  function SectionLines(name: string, entries: seq<Entry>): seq<string> {
    if entries == [] then [name + ": []"] else [name + ":"] + EntryLines(entries)
  }

  function FileLines(config: Config): seq<string> {
    ["version: 1", ""] + SectionLines("baseline", config.baseline) + SectionLines("ignore", config.ignore)
  }

  /** Lines, each ended by a newline. */
  function Terminated(lines: seq<string>): string {
    if lines == [] then "" else Terminated(lines[..|lines| - 1]) + lines[|lines| - 1] + "\n"
  }

  lemma {:induction false} TerminatedConcat(a: seq<string>, b: seq<string>)
    ensures Terminated(a + b) == Terminated(a) + Terminated(b)
  {
    if b == [] {
      assert a + b == a;
    } else {
      assert (a + b)[..|a + b| - 1] == a + b[..|b| - 1];
      TerminatedConcat(a, b[..|b| - 1]);
    }
  }

  lemma {:induction false} SplitTerminated(lines: seq<string>)
    requires forall i :: 0 <= i < |lines| ==> '\n' !in lines[i]
    ensures Split(Terminated(lines), '\n') == lines + [""]
  {
    if lines != [] {
      var n := |lines| - 1;
      SplitTerminated(lines[..n]);
      var front := Terminated(lines[..n]);
      if n == 0 {
        assert Terminated(lines) == lines[0] + ['\n'] + "";
        SplitPrefix(lines[0], '\n', "");
      } else {
        SplitEndingInNewline(lines[..n], lines[n]);
      }
    }
  }

  lemma SplitEndingInNewline(front: seq<string>, last: string)
    requires front != [] && '\n' !in last && Split(Terminated(front), '\n') == front + [""]
    ensures Split(Terminated(front) + last + "\n", '\n') == front + [last] + [""]
  {
    var n := |front| - 1;
    var body := Terminated(front[..n]) + front[n];
    assert Terminated(front) == body + ['\n'] + "";
    SplitConcat(body, '\n', "");
    assert Split("", '\n') == [""];
    assert Split(body, '\n') == front by {
      var s := Split(body, '\n');
      assert s + [""] == front + [""];
      assert s == (s + [""])[..|s|] && front == (front + [""])[..|front|];
    }
    var rest := last + ['\n'] + "";
    assert Terminated(front) + last + "\n" == body + ['\n'] + rest;
    SplitConcat(body, '\n', rest);
    SplitPrefix(last, '\n', "");
  }

  lemma SectionStarts(name: string)
    ensures Terminated([name + ": []"]) == name + ": []\n" && Terminated([name + ":"]) == name + ":\n"
    ensures [name + ":"] + EntryLines([]) == [name + ":"]
  {
    assert [name + ": []"][..0] == [] && [name + ":"][..0] == [];
  }

  lemma OneLineMeans(s: string)
    ensures OneLine(s) <==> '\n' !in s && '\r' !in s
  {
  }

  lemma SectionGrows(name: string, entries: seq<Entry>, i: nat)
    requires i < |entries|
    ensures Terminated([name + ":"] + EntryLines(entries[..i + 1])) ==
            Terminated([name + ":"] + EntryLines(entries[..i])) + "  - " + Quote(Protocol(entries[i])) + "\n"
  {
    hide Quote, Protocol;
    var lines := [name + ":"] + EntryLines(entries[..i]);
    assert entries[..i + 1][..i] == entries[..i];
    assert [name + ":"] + EntryLines(entries[..i + 1]) == lines + [EntryLine(entries[i])];
    assert (lines + [EntryLine(entries[i])])[..|lines|] == lines;
    var text, quoted := Terminated(lines), Quote(Protocol(entries[i]));
    assert text + ("  - " + quoted) + "\n" == text + "  - " + quoted + "\n";
  }

  /** Appends one section, or stops at the first entry that is not one line. */
  method RenderSection(name: string, entries: seq<Entry>) returns (out: Option<string>)
    ensures out.Some? <==> forall i :: 0 <= i < |entries| ==> OneLine(Protocol(entries[i]))
    ensures out.Some? ==> out.value == Terminated(SectionLines(name, entries))
  {
    hide Terminated, EntryLines, Quote, Protocol, OneLine;
    SectionStarts(name);
    if entries == [] {
      return Some(name + ": []\n");
    }
    var text := name + ":\n";
    for i := 0 to |entries|
      invariant text == Terminated([name + ":"] + EntryLines(entries[..i]))
      invariant forall k :: 0 <= k < i ==> OneLine(Protocol(entries[k]))
    {
      var value := Protocol(entries[i]);
      OneLineMeans(value);
      if '\n' in value || '\r' in value {
        return None;
      }
      SectionGrows(name, entries, i);
      text := text + "  - " + Quote(value) + "\n";
    }
    assert entries[..|entries|] == entries;
    return Some(text);
  }

  lemma HeaderText()
    ensures Terminated(["version: 1", ""]) == "version: 1\n\n"
  {
  }

  method RenderBaseline(config: Config) returns (out: Option<string>)
    ensures out.Some? <==> (forall i :: 0 <= i < |config.baseline| ==> OneLine(Protocol(config.baseline[i])))
                           && forall i :: 0 <= i < |config.ignore| ==> OneLine(Protocol(config.ignore[i]))
    ensures out.Some? ==> out.value == Terminated(FileLines(config))
  {
    hide Terminated, SectionLines, Protocol, OneLine;
    var baseline := RenderSection("baseline", config.baseline);
    if baseline.None? {
      return None;
    }
    var ignore := RenderSection("ignore", config.ignore);
    if ignore.None? {
      return None;
    }
    HeaderText();
    TerminatedConcat(["version: 1", ""], SectionLines("baseline", config.baseline));
    TerminatedConcat(["version: 1", ""] + SectionLines("baseline", config.baseline),
                     SectionLines("ignore", config.ignore));
    return Some("version: 1\n\n" + baseline.value + ignore.value);
  }

  // ----- reading

  predicate IsItem(line: string) {
    |line| >= 4 && line[..4] == "  - "
  }

  /** The leading list items, parsed, and the lines after them. */
  function ReadItems(lines: seq<string>): Option<(seq<Entry>, seq<string>)> {
    if lines == [] || !IsItem(lines[0]) then Some(([], lines))
    else
      match Unquote(lines[0][4..])
      case None => None
      case Some(raw) =>
        match ParseEntry(raw)
        case Invalid(_) => None
        case Ok(e) =>
          match ReadItems(lines[1..])
          case None => None
          case Some((entries, rest)) => Some(([e] + entries, rest))
  }

  function ReadSection(name: string, lines: seq<string>): Option<(seq<Entry>, seq<string>)> {
    if lines == [] then None
    else if lines[0] == name + ": []" then Some(([], lines[1..]))
    else if lines[0] == name + ":" then ReadItems(lines[1..])
    else None
  }

  /** Reads the version line and the two sections; each becomes an ordered set. */
  function ReadBaseline(text: string): Option<Config> {
    var lines := Split(text, '\n');
    if |lines| < 2 || lines[0] != "version: 1" || lines[1] != "" then None
    else
      match ReadSection("baseline", lines[2..])
      case None => None
      case Some((baseline, rest)) =>
        match ReadSection("ignore", rest)
        case None => None
        case Some((ignore, end)) =>
          if end == [""] then Some(Config(Sorted(baseline, EntryRank()), Sorted(ignore, EntryRank()))) else None
  }

  ghost predicate AllWellFormed(entries: seq<Entry>) {
    forall i :: 0 <= i < |entries| ==> WellFormed(entries[i])
  }

  ghost predicate AllQuotable(entries: seq<Entry>) {
    forall i :: 0 <= i < |entries| ==> Quotable(Protocol(entries[i]))
  }

  /** Items read before what the other lines read as. */
  function Before(entries: seq<Entry>, read: Option<(seq<Entry>, seq<string>)>): Option<(seq<Entry>, seq<string>)> {
    match read
    case None => None
    case Some((later, rest)) => Some((entries + later, rest))
  }

  lemma ReadOneItem(e: Entry, lines: seq<string>)
    requires WellFormed(e)
    ensures ReadItems([EntryLine(e)] + lines) == if Quotable(Protocol(e)) then Before([e], ReadItems(lines)) else None
  {
    var line := EntryLine(e);
    hide Quote, Unquote, ParseEntry, Protocol, WellFormed, Quotable;
    assert line[..4] == "  - " && line[4..] == Quote(Protocol(e));
    QuoteRoundTrip(Protocol(e));
    EntryRoundTrip(e);
    assert ([line] + lines)[1..] == lines;
  }

  /** Items in front of other lines are read exactly when all of them may be quoted. */
  lemma {:induction false} ReadMoreItems(entries: seq<Entry>, lines: seq<string>)
    requires AllWellFormed(entries)
    ensures ReadItems(EntryLines(entries) + lines) ==
            if AllQuotable(entries) then Before(entries, ReadItems(lines)) else None
  {
    hide ReadItems, WellFormed, EntryLine, Quotable, Protocol;
    if entries == [] {
      assert EntryLines(entries) + lines == lines;
      if ReadItems(lines).Some? {
        assert [] + ReadItems(lines).value.0 == ReadItems(lines).value.0;
      }
    } else {
      var n := |entries| - 1;
      var e := entries[n];
      ReadOneItem(e, lines);
      ReadMoreItems(entries[..n], [EntryLine(e)] + lines);
      assert EntryLines(entries) + lines == EntryLines(entries[..n]) + ([EntryLine(e)] + lines);
      assert AllQuotable(entries) <==> AllQuotable(entries[..n]) && Quotable(Protocol(e)) by {
        assert forall i :: 0 <= i < n ==> entries[..n][i] == entries[i];
      }
      if ReadItems(lines).Some? {
        var later := ReadItems(lines).value.0;
        assert entries[..n] + ([e] + later) == entries + later;
      }
    }
  }

  lemma ReadRenderedSection(name: string, entries: seq<Entry>, rest: seq<string>)
    requires AllWellFormed(entries) && (rest == [] || !IsItem(rest[0]))
    ensures ReadSection(name, SectionLines(name, entries) + rest) ==
            if AllQuotable(entries) then Some((entries, rest)) else None
  {
    hide EntryLines, ReadItems, AllWellFormed, IsItem, Quotable, Protocol;
    var lines := SectionLines(name, entries) + rest;
    HeadersDiffer(name);
    if entries == [] {
      assert lines[1..] == rest;
    } else {
      assert lines[0] == name + ":" && lines[1..] == EntryLines(entries) + rest;
      ReadMoreItems(entries, rest);
      NothingToRead(rest);
      assert entries + [] == entries;
    }
  }

  lemma HeadersDiffer(name: string)
    ensures name + ":" != name + ": []"
  {
    assert |name + ":"| != |name + ": []"|;
  }

  lemma NothingToRead(rest: seq<string>)
    requires rest == [] || !IsItem(rest[0])
    ensures ReadItems(rest) == Some(([], rest))
  {
  }

  lemma {:induction false} EntryLinesOneLine(entries: seq<Entry>)
    requires AllWellFormed(entries)
    ensures forall i :: 0 <= i < |EntryLines(entries)| ==> '\n' !in EntryLines(entries)[i]
  {
    if entries != [] {
      var e := entries[|entries| - 1];
      EntryLinesOneLine(entries[..|entries| - 1]);
      EntryRoundTrip(e);
      QuoteKeepsLine(Protocol(e));
      assert '\n' !in EntryLine(e);
    }
  }

  /** Rendering and then reading returns the ordered, duplicate-free entries, exactly when
      every entry may be quoted; otherwise what was rendered does not read. */
  lemma FileRoundTrip(config: Config)
    requires AllWellFormed(config.baseline) && AllWellFormed(config.ignore)
    ensures ReadBaseline(Terminated(FileLines(config))) ==
            if AllQuotable(config.baseline) && AllQuotable(config.ignore)
            then Some(Config(Sorted(config.baseline, EntryRank()), Sorted(config.ignore, EntryRank()))) else None
  {
    hide AllQuotable, ReadSection, EntryLines, Terminated, AllWellFormed, Sorted, IsItem, SectionLines;
    var lines := FileLines(config);
    FileLinesOneLine(config);
    SplitTerminated(lines);
    var all := lines + [""];
    var second := SectionLines("ignore", config.ignore) + [""];
    assert all[2..] == SectionLines("baseline", config.baseline) + second;
    SectionStart(config.ignore);
    ReadRenderedSection("baseline", config.baseline, second);
    ReadRenderedSection("ignore", config.ignore, [""]);
  }

  lemma FileLinesOneLine(config: Config)
    requires AllWellFormed(config.baseline) && AllWellFormed(config.ignore)
    ensures forall i :: 0 <= i < |FileLines(config)| ==> '\n' !in FileLines(config)[i]
  {
    hide EntryLines, AllWellFormed;
    EntryLinesOneLine(config.baseline);
    EntryLinesOneLine(config.ignore);
  }

  lemma SectionStart(entries: seq<Entry>)
    ensures !IsItem((SectionLines("ignore", entries) + [""])[0]) && !IsItem("")
  {
    assert (SectionLines("ignore", entries) + [""])[0][0] == 'i' && "  - "[0] == ' ';
  }

  /** A well-formed entry, with a control character in its file name, that is rendered into
      a file that does not read. */
  lemma ControlCharacterDoesNotRead()
    ensures var e := Entry("r", "x", "\U{1}");
            WellFormed(e) && ReadBaseline(Terminated(FileLines(Config([e], [])))) == None
  {
    var e := Entry("r", "x", "\U{1}");
    ControlCharacter(e);
    hide WellFormed, ReadBaseline, Terminated, FileLines, Protocol;
    FileRoundTrip(Config([e], []));
    assert !AllQuotable([e]) by { assert !Quotable(Protocol([e][0])); }
  }

  lemma ControlCharacter(e: Entry)
    requires e == Entry("r", "x", "\U{1}")
    ensures WellFormed(e) && !Quotable(Protocol(e))
  {
    var s := Protocol(e);
    assert s[|s| - 1] == e.file[0] && !IsQuotable(e.file[0]);
  }
}
