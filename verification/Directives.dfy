/** Where ignore directives stand: file directives before the first code, and the
    line and column of every directive in a comment. */
module Directives {
  import opened Options
  import opened Text
  import opened Scanner
  import opened Ignores

  // ----- the first code line

  predicate IsAsciiBlank(c: char) {
    c == ' ' || c == '\t' || c == '\n' || c == '\r' || c as int == 0x0c
  }

  /** These are the ASCII characters with the White_Space property, but for the vertical
      tab. */
  lemma AsciiBlankMeaning(c: char)
    ensures IsAsciiBlank(c) <==> IsWhitespace(c) && (c as int) < 0x80 && c as int != 0x0b
  {
  }

  /** Only blanks and terminated comments from `a` to `b`. */
  ghost predicate Leads(src: string, a: nat, b: nat)
    decreases if a <= b then b - a else 0
  {
    a <= b <= |src|
    && (a == b
        || (IsAsciiBlank(src[a]) && Leads(src, a + 1, b))
        || (Two(src, a, '/', '/') && LineEnd(src, a + 2) <= b && Leads(src, LineEnd(src, a + 2), b))
        || (Two(src, a, '/', '*') && BlockEnd(src, a + 2).Some? && BlockEnd(src, a + 2).value + 2 <= b
            && Leads(src, BlockEnd(src, a + 2).value + 2, b)))
  }

  /** A block comment that is never closed starts at `k`, after blanks and comments. */
  ghost predicate OpenCommentAt(src: string, k: nat) {
    Leads(src, 0, k) && Two(src, k, '/', '*') && BlockEnd(src, k + 2).None?
  }

  /** Code at `p`, after blanks and comments. */
  ghost predicate FirstCodeAt(src: string, p: nat) {
    p < |src| && Leads(src, 0, p) && !IsAsciiBlank(src[p]) && !Two(src, p, '/', '/') && !Two(src, p, '/', '*')
  }

  /** Before `b` there are only blanks and comments; `b` may lie in an open one. */
  ghost predicate OnlyBlanksAndComments(src: string, b: nat) {
    Leads(src, 0, b) || exists k: nat :: OpenCommentAt(src, k) && k + 2 <= b <= |src|
  }

  /** How the leading blanks and comments end: with the source, at code, or in a block
      comment that is never closed. */
  datatype Lead = Ends | Code(at: nat) | Open(at: nat)

  ghost function LeadFrom(src: string, a: nat): Lead
    requires a <= |src|
    decreases |src| - a
  {
    if a == |src| then Ends
    else if Two(src, a, '/', '/') then LeadFrom(src, LineEnd(src, a + 2))
    else if Two(src, a, '/', '*') then
      match BlockEnd(src, a + 2)
      case None => Open(a)
      case Some(e) => LeadFrom(src, e + 2)
    else if IsAsciiBlank(src[a]) then LeadFrom(src, a + 1)
    else Code(a)
  }

  lemma {:induction false} LeadsOn(src: string, a: nat, b: nat)
    requires Leads(src, a, b)
    ensures LeadFrom(src, a) == LeadFrom(src, b)
    decreases b - a
  {
    if a != b {
      if Two(src, a, '/', '/') {
        LeadsOn(src, LineEnd(src, a + 2), b);
      } else if Two(src, a, '/', '*') {
        LeadsOn(src, BlockEnd(src, a + 2).value + 2, b);
      } else {
        LeadsOn(src, a + 1, b);
      }
    }
  }

  lemma {:induction false} LeadLeads(src: string, a: nat)
    requires a <= |src|
    ensures Leads(src, a, LeadEnd(src, LeadFrom(src, a)))
    ensures match LeadFrom(src, a)
            case Ends => true
            case Code(p) => p < |src| && !IsAsciiBlank(src[p]) && !Two(src, p, '/', '/') && !Two(src, p, '/', '*')
            case Open(k) => Two(src, k, '/', '*') && BlockEnd(src, k + 2).None?
    decreases |src| - a
  {
    if a < |src| {
      if Two(src, a, '/', '/') {
        LeadLeads(src, LineEnd(src, a + 2));
      } else if Two(src, a, '/', '*') {
        if BlockEnd(src, a + 2).Some? {
          LeadLeads(src, BlockEnd(src, a + 2).value + 2);
        }
      } else if IsAsciiBlank(src[a]) {
        LeadLeads(src, a + 1);
      }
    }
  }

  function LeadEnd(src: string, lead: Lead): nat {
    match lead
    case Ends => |src|
    case Code(p) => p
    case Open(k) => k
  }

  /** Every source has exactly one lead: it is blanks and comments to its end, or has a
      first code position, or an open comment, and each of these at most once. */
  lemma LeadMeaning(src: string)
    ensures LeadFrom(src, 0) == Ends <==> Leads(src, 0, |src|)
    ensures forall p: nat :: LeadFrom(src, 0) == Code(p) <==> FirstCodeAt(src, p)
    ensures forall k: nat :: LeadFrom(src, 0) == Open(k) <==> OpenCommentAt(src, k)
  {
    LeadLeads(src, 0);
    if Leads(src, 0, |src|) {
      LeadsOn(src, 0, |src|);
    }
    forall p: nat | FirstCodeAt(src, p) ensures LeadFrom(src, 0) == Code(p) {
      LeadsOn(src, 0, p);
    }
    forall k: nat | OpenCommentAt(src, k) ensures LeadFrom(src, 0) == Open(k) {
      LeadsOn(src, 0, k);
    }
  }

  /** The leading run ends in an open block comment whose last character is a single
      byte other than a blank; the scan stops in front of it. */
  ghost predicate EndsClipped(src: string) {
    exists k: nat :: OpenCommentAt(src, k) && k + 2 < |src| && Width(src[|src| - 1]) == 1
          && !IsAsciiBlank(src[|src| - 1])
  }

  /** The line of the first code, none without code. In an open comment it is the line
      of the comment's last character if the scan takes that for code. */
  ghost function CodeLine(src: string): Option<nat> {
    LeadLeads(src, 0);
    match LeadFrom(src, 0)
    case Ends => None
    case Code(p) => Some(LineAt(src, p))
    case Open(_) => if EndsClipped(src) then Some(LineAt(src, |src| - 1)) else None
  }

  /** In an open comment only the last character is left to look at. */
  ghost predicate AtTail(src: string, k: nat, i: nat) {
    LeadFrom(src, 0) == Open(k) && k + 2 <= |src|
    && ((i == |src| && !EndsClipped(src)) || (i == |src| - 1 && k + 2 < |src| && Width(src[i]) == 1))
  }

  method FirstCodeLine(src: string) returns (r: Option<nat>)
    ensures r == CodeLine(src)
  {
    hide EndsClipped, Leads;
    var p := Cursor(0, 1, 1);
    ghost var k := 0;
    while p.i < |src|
      invariant At(src, p) && (LeadFrom(src, 0) == LeadFrom(src, p.i) || AtTail(src, k, p.i))
      decreases |src| - p.i
    {
      if Two(src, p.i, '/', '/') {
        OverDelimiter(src, p);
        p := SkipLine(src, Cursor(p.i + 2, p.line, p.col + 2));
      } else if Two(src, p.i, '/', '*') {
        k := p.i;
        OverDelimiter(src, p);
        p := SkipBlock(src, Cursor(p.i + 2, p.line, p.col + 2));
        ClippedExactlyWhen(src, k);
        if NextByteInside(src, p.i) {
          OverDelimiter(src, p);
          p := Cursor(p.i + 2, p.line, p.col + 2);
        }
      } else if IsAsciiBlank(src[p.i]) {
        ClippedExactlyWhen(src, k);
        p := Advance(src, p);
      } else {
        ClippedExactlyWhen(src, k);
        return Some(p.line);
      }
    }
    return None;
  }

  lemma ClippedExactlyWhen(src: string, k: nat)
    ensures LeadFrom(src, 0) == Open(k) ==>
            (EndsClipped(src) <==> k + 2 < |src| && Width(src[|src| - 1]) == 1 && !IsAsciiBlank(src[|src| - 1]))
  {
    LeadMeaning(src);
  }

  /** The scan finds no code exactly in a source of blanks and comments, unless that
      ends in an open comment whose last character is taken for code. */
  lemma NoCodeExactlyWhen(src: string)
    ensures CodeLine(src) == None <==> OnlyBlanksAndComments(src, |src|) && !EndsClipped(src)
  {
    LeadMeaning(src);
  }

  /** Unless the source ends so, the first code line is that of the first code. */
  lemma CodeLineExactlyWhen(src: string, line: nat)
    requires !EndsClipped(src)
    ensures CodeLine(src) == Some(line) <==> exists p: nat :: FirstCodeAt(src, p) && LineAt(src, p) == line
  {
    LeadMeaning(src);
  }

  /** A source that ends so: one comment, the end of which is taken for code. */
  lemma OpenCommentIsTakenForCode()
    ensures OnlyBlanksAndComments("/*a", 3) && CodeLine("/*a") == Some(1)
  {
    var src := "/*a";
    assert !Two(src, 2, '*', '/') && Two(src, 0, '/', '*');
    assert BlockEnd(src, 2).None? && OpenCommentAt(src, 0);
    LeadMeaning(src);
    assert LineAt(src, 0) == 1 && LineAt(src, 1) == 1 && LineAt(src, 2) == 1;
  }

  /** A file directive on a line above the first code line, or in a source without
      code, has only blanks and comments before it. */
  lemma FileDirectiveIsFirst(src: string, q: nat)
    requires q <= |src| && (CodeLine(src).Some? ==> LineAt(src, q) < CodeLine(src).value)
    ensures exists p: nat :: q <= p <= |src| && OnlyBlanksAndComments(src, p)
  {
    LeadMeaning(src);
    match LeadFrom(src, 0) {
      case Ends => assert OnlyBlanksAndComments(src, |src|);
      case Open(k) => assert OnlyBlanksAndComments(src, |src|);
      case Code(p) =>
        if p < q {
          LinesGrow(src, p, q);
        }
        assert OnlyBlanksAndComments(src, p);
    }
  }

  // ----- directives in one line of a comment

  const PREFIX := "polint-ignore-"

  predicate Occurs(line: string, at: nat, word: string) {
    at + |word| <= |line| && line[at..at + |word|] == word
  }

  /** The kind named right after the prefix, and the length of its name. */
  function KindAt(line: string, at: nat): Option<(Kind, nat)> {
    if Occurs(line, at, "next-line") then Some((NextLineKind, 9))
    else if Occurs(line, at, "line") then Some((LineKind, 4))
    else if Occurs(line, at, "start") then Some((StartKind, 5))
    else if Occurs(line, at, "end") then Some((EndKind, 3))
    else if Occurs(line, at, "file") then Some((FileKind, 4))
    else None
  }

  /** The name of each kind. */
  function NameOf(kind: Kind): string {
    match kind
    case LineKind => "line"
    case NextLineKind => "next-line"
    case StartKind => "start"
    case EndKind => "end"
    case FileKind => "file"
  }

  /** A kind is recognised exactly where its name stands, and no two names stand at one
      place. */
  lemma KindExactlyWhen(line: string, at: nat, kind: Kind)
    ensures KindAt(line, at) == Some((kind, |NameOf(kind)|)) <==> Occurs(line, at, NameOf(kind))
    ensures KindAt(line, at).Some? && KindAt(line, at).value.0 == kind ==> KindAt(line, at).value.1 == |NameOf(kind)|
  {
    forall word | word in ["line", "next-line", "start", "end", "file"] && Occurs(line, at, word)
      ensures at < |line| && line[at] == word[0]
    {
      FirstLetter(line, at, word);
    }
    hide Occurs;
    assert NameOf(kind) in ["line", "next-line", "start", "end", "file"];
  }

  lemma FirstLetter(line: string, at: nat, word: string)
    requires Occurs(line, at, word) && word != ""
    ensures at < |line| && line[at] == word[0]
  {
    assert line[at..at + |word|][0] == line[at];
  }

  /** A directive stands at `at`: the prefix at the start of the line or after a
      blank, then a kind, then a blank or the end. */
  predicate DirectiveAt(line: string, at: nat) {
    Occurs(line, at, PREFIX)
    && (at == 0 || IsWhitespace(line[at - 1]))
    && var kind := KindAt(line, at + |PREFIX|);
       kind.Some? && var after := at + |PREFIX| + kind.value.1;
       after == |line| || (after < |line| && IsWhitespace(line[after]))
  }

  /** The line is cut so: what comes before the prefix is empty or ends in a blank, and
      what comes after the name is empty or starts with one. */
  ghost predicate CutAround(line: string, before: string, prefix: string, name: string, after: string) {
    line == before + prefix + name + after
    && (before != "" ==> IsWhitespace(before[|before| - 1])) && (after != "" ==> IsWhitespace(after[0]))
  }

  /** The two words stand one after the other, with the same boundaries. */
  predicate Stands(line: string, at: nat, prefix: string, name: string) {
    Occurs(line, at, prefix) && Occurs(line, at + |prefix|, name)
    && (at == 0 || IsWhitespace(line[at - 1]))
    && var end := at + |prefix| + |name|; end == |line| || IsWhitespace(line[end])
  }

  /** A directive of a kind stands exactly where the line can be cut so. */
  lemma DirectiveExactlyWhen(line: string, at: nat, kind: Kind)
    ensures DirectiveAt(line, at) && KindAt(line, at + |PREFIX|).value.0 == kind <==>
            exists before, after :: |before| == at && CutAround(line, before, PREFIX, NameOf(kind), after)
  {
    DirectiveStands(line, at, kind);
    hide DirectiveAt, KindAt, NameOf, Stands, CutAround;
    if Stands(line, at, PREFIX, NameOf(kind)) {
      var before, after := StandsCuts(line, at, PREFIX, NameOf(kind));
    }
    if before, after :| |before| == at && CutAround(line, before, PREFIX, NameOf(kind), after) {
      CutStands(line, before, PREFIX, NameOf(kind), after);
    }
  }

  lemma DirectiveStands(line: string, at: nat, kind: Kind)
    ensures DirectiveAt(line, at) && KindAt(line, at + |PREFIX|).value.0 == kind <==>
            Stands(line, at, PREFIX, NameOf(kind))
  {
    KindExactlyWhen(line, at + |PREFIX|, kind);
    hide KindAt, NameOf, IsWhitespace;
  }

  lemma StandsCuts(line: string, at: nat, prefix: string, name: string) returns (before: string, after: string)
    requires Stands(line, at, prefix, name)
    ensures |before| == at && CutAround(line, before, prefix, name, after)
  {
    hide IsWhitespace;
    var from := at + |prefix|;
    before, after := line[..at], line[from + |name|..];
    assert line[..at] + line[at..from] == line[..from];
    assert line[..from] + line[from..from + |name|] == line[..from + |name|];
  }

  lemma CutStands(line: string, before: string, prefix: string, name: string, after: string)
    requires CutAround(line, before, prefix, name, after)
    ensures Stands(line, |before|, prefix, name)
  {
    hide IsWhitespace;
    assert line[|before|..|before| + |prefix|] == prefix;
    assert line[|before| + |prefix|..|before| + |prefix| + |name|] == name;
  }

  /** Every position where a directive stands, in order. */
  function DirectivesFrom(line: string, from: nat): seq<nat>
    decreases |line| - from
  {
    if from >= |line| then []
    else (if DirectiveAt(line, from) then [from] else []) + DirectivesFrom(line, from + 1)
  }

  lemma PrefixDoesNotOverlap(line: string, at: nat, k: nat)
    requires Occurs(line, at, PREFIX) && at < k < at + |PREFIX|
    ensures !Occurs(line, k, PREFIX)
  {
    assert line[k] == line[at..at + |PREFIX|][k - at] == PREFIX[k - at] != PREFIX[0];
    assert k + |PREFIX| <= |line| ==> line[k..k + |PREFIX|][0] == line[k];
  }

  lemma {:induction false} SkipNonDirectives(line: string, from: nat, next: nat)
    requires from <= next && forall k: nat :: from <= k < next ==> !DirectiveAt(line, k)
    ensures DirectivesFrom(line, from) == DirectivesFrom(line, next)
    decreases next - from
  {
    if from < next && from < |line| {
      SkipNonDirectives(line, from + 1, next);
    }
  }

  method FindPrefix(line: string, from: nat) returns (at: Option<nat>)
    ensures at.Some? ==> from <= at.value && Occurs(line, at.value, PREFIX) && forall k: nat ::
          from <= k < at.value ==> !Occurs(line, k, PREFIX)
    ensures at.None? ==> forall k: nat :: from <= k ==> !Occurs(line, k, PREFIX)
  {
    var k := from;
    while k + |PREFIX| <= |line|
      invariant from <= k && forall j: nat :: from <= j < k ==> !Occurs(line, j, PREFIX)
      decreases |line| - k
    {
      if line[k..k + |PREFIX|] == PREFIX {
        return Some(k);
      }
      k := k + 1;
    }
    return None;
  }

  /** From one search position to the next, at most the prefix found is a directive. */
  lemma JumpOver(line: string, from: nat, at: nat)
    requires from <= at && Occurs(line, at, PREFIX) && forall k: nat :: from <= k < at ==> !Occurs(line, k, PREFIX)
    ensures DirectivesFrom(line, from) ==
            (if DirectiveAt(line, at) then [at] else []) + DirectivesFrom(line, at + |PREFIX|)
  {
    SkipNonDirectives(line, from, at);
    forall k: nat | at < k < at + |PREFIX| ensures !DirectiveAt(line, k) {
      PrefixDoesNotOverlap(line, at, k);
    }
    SkipNonDirectives(line, at + 1, at + |PREFIX|);
  }

  lemma NoneLeft(line: string, from: nat)
    requires forall k: nat :: from <= k ==> !Occurs(line, k, PREFIX)
    ensures DirectivesFrom(line, from) == []
  {
    if from < |line| {
      SkipNonDirectives(line, from, |line|);
    }
  }

  /** The search that jumps over each prefix it meets finds every directive. */
  method FindDirectives(line: string) returns (found: seq<nat>)
    ensures found == DirectivesFrom(line, 0)
  {
    hide DirectiveAt, Occurs, DirectivesFrom;
    found := [];
    var from := 0;
    while true
      invariant found + DirectivesFrom(line, from) == DirectivesFrom(line, 0)
      decreases |line| + |PREFIX| - from
    {
      var at := FindPrefix(line, from);
      if at.None? {
        NoneLeft(line, from);
        assert found + [] == found;
        return;
      }
      JumpOver(line, from, at.value);
      InsideLine(line, at.value);
      if DirectiveAt(line, at.value) {
        found := found + [at.value];
      }
      from := at.value + |PREFIX|;
    }
  }

  lemma InsideLine(line: string, at: nat)
    requires Occurs(line, at, PREFIX)
    ensures at + |PREFIX| <= |line|
  {
  }

  // ----- positions in the file

  function ByteOffset(line: string, at: nat): nat
    requires at <= |line|
  {
    if at == 0 then 0 else ByteOffset(line, at - 1) + Width(line[at - 1])
  }

  /** The position reported for a directive at offset `at` of the line of a comment
      text that starts at `start`, as the program computes it: the line by counting
      lines of the text, the column from a byte offset. */
  function ReportedLine(comment: Comment, lineOffset: nat): nat {
    comment.line + lineOffset
  }

  function ReportedColumn(comment: Comment, lineOffset: nat, line: string, at: nat): nat
    requires at <= |line|
  {
    if lineOffset == 0 then comment.column + ByteOffset(line, at) else ByteOffset(line, at) + 1
  }

  /** Line `n` of a text starts at `start`. */
  ghost predicate LineStartsAt(text: string, n: nat, start: nat) {
    start <= |text| && LineAt(text, start) == n + 1 && (start == 0 || text[start - 1] == '\n')
  }

  lemma {:induction false} LinesAdd(src: string, base: nat, k: nat)
    requires base + k <= |src|
    ensures LineAt(src, base + k) == LineAt(src, base) + LineAt(src[base..], k) - 1
    ensures '\n' !in src[base..base + k] ==> ColAt(src, base + k) == ColAt(src, base) + k
  {
    if k > 0 {
      LinesAdd(src, base, k - 1);
      assert src[base..][k - 1] == src[base + k - 1];
      assert src[base..base + k] == src[base..base + k - 1] + [src[base + k - 1]];
      assert LineAt(src, base + k) == LineAt(src, base + (k - 1)) + if src[base + k - 1] == '\n' then 1 else 0;
    } else {
      assert LineAt(src[base..], 0) == 1;
    }
  }

  lemma {:induction false} PrefixLines(text: string, src: string, k: nat)
    requires text <= src && k <= |text|
    ensures LineAt(text, k) == LineAt(src, k)
  {
    if k > 0 {
      PrefixLines(text, src, k - 1);
    }
  }

  lemma {:induction false} BytesAtLeastCharacters(line: string, at: nat)
    requires at <= |line|
    ensures ByteOffset(line, at) >= at
    ensures ByteOffset(line, at) == at <==> forall k :: 0 <= k < at ==> Width(line[k]) == 1
  {
    if at > 0 {
      BytesAtLeastCharacters(line, at - 1);
    }
  }

  /** A stretch of the text is a stretch of the source. */
  lemma SlicesAgree(src: string, base: nat, text: string, end: nat, start: nat, at: nat)
    requires base <= |src| && text <= src[base..] && start + at <= end <= |text|
    ensures base + start + at <= |src|
    ensures src[base + start..base + start + at] == text[start..end][..at] == src[base + start..][..at]
  {
    var there := src[base + start..base + start + at];
    assert forall k :: 0 <= k < |text| ==> text[k] == src[base + k];
    var here := text[start..end][..at];
    assert forall k :: 0 <= k < at ==> there[k] == src[base + (start + k)];
    assert forall k :: 0 <= k < at ==> here[k] == text[start + k];
    assert here == there == src[base + start..][..at];
  }

  /** From the start of a line of a text to an offset in it, within the source. */
  lemma WithinLine(src: string, base: nat, text: string, lineOffset: nat, start: nat, at: nat)
    requires base <= |src| && text <= src[base..]
    requires LineStartsAt(text, lineOffset, start) && start + at <= LineEnd(text, start)
    ensures base + start + at <= |src|
    ensures LineAt(src, base + start + at) == LineAt(src, base) + lineOffset
    ensures ColAt(src, base + start + at) == (if lineOffset == 0 then ColAt(src, base) else 1) + at
  {
    PrefixLines(text, src[base..], start);
    LinesAdd(src, base, start);
    var line := text[start..LineEnd(text, start)];
    SlicesAgree(src, base, text, LineEnd(text, start), start, at);
    NoNewline(line, at);
    LinesAdd(src, base + start, at);
    NoNewLines(src[base + start..], at);
    StartOfText(text, lineOffset, start);
    if start > 0 {
      assert text[start - 1] == src[base..][start - 1] == src[base + start - 1];
    }
    assert base + start + at == (base + start) + at;
  }

  /** A directive's reported line is its line in the file. Its reported column is
      its column exactly when every character before it on that line of the comment
      is a single byte. */
  lemma DirectivePosition(src: string, t: Token, lineOffset: nat, start: nat, at: nat)
    requires Proper(src, t) && t.start + 1 < |src| && src[t.start] != '\n' && src[t.start + 1] != '\n'
    requires var text := TextOf(src, t);
             LineStartsAt(text, lineOffset, start) && start + at <= LineEnd(text, start)
    ensures var text, comment := TextOf(src, t), CommentOf(src, t);
            var line := text[start..LineEnd(text, start)];
            var q := t.textStart + start + at;
            q <= |src|
            && ReportedLine(comment, lineOffset) == LineAt(src, q)
            && (ReportedColumn(comment, lineOffset, line, at) == ColAt(src, q) <==> forall k :: 0 <= k < at ==>
                Width(line[k]) == 1)
  {
    var text := TextOf(src, t);
    OverDelimiter(src, Cursor(t.start, LineAt(src, t.start), ColAt(src, t.start)));
    TextIsHere(src, t);
    hide TextOf, LineAt, ColAt, Width;
    WithinLine(src, t.textStart, text, lineOffset, start, at);
    BytesAtLeastCharacters(text[start..LineEnd(text, start)], at);
  }

  /** A directive after a character of two bytes is reported one column too far. */
  lemma ColumnIsOffAfterWideCharacter()
    ensures var line := "\U{e9} " + PREFIX + "line";
            var src := "//" + line;
            var t := Token(0, 2, |src|, true);
            && DirectiveAt(line, 2) && Lex(src, 0) == [t]
            && ReportedColumn(CommentOf(src, t), 0, line, 2) == ColAt(src, 4) + 1
  {
    var line := "\U{e9} " + PREFIX + "line";
    var src := "//" + line;
    assert line[2..2 + |PREFIX|] == PREFIX && line[16..20] == "line";
    assert '\n' !in src;
    assert LineEnd(src, 2) == |src|;
    assert ColAt(src, 0) == 1 && ColAt(src, 1) == 2 && ColAt(src, 2) == 3 && ColAt(src, 3) == 4;
    assert ByteOffset(line, 1) == 2 && ByteOffset(line, 2) == 3;
  }

  lemma TextIsHere(src: string, t: Token)
    requires Proper(src, t)
    ensures TextOf(src, t) <= src[t.textStart..]
  {
  }

  lemma NoNewline(line: string, at: nat)
    requires at <= |line| && '\n' !in line
    ensures '\n' !in line[..at]
  {
  }

  lemma {:induction false} NoNewLines(s: string, k: nat)
    requires k <= |s| && '\n' !in s[..k]
    ensures LineAt(s, k) == 1
  {
    if k > 0 {
      assert s[..k] == s[..k - 1] + [s[k - 1]];
      NoNewLines(s, k - 1);
    }
  }

  /** Only the first line of a text starts at its beginning. */
  lemma StartOfText(text: string, lineOffset: nat, start: nat)
    requires LineStartsAt(text, lineOffset, start)
    ensures lineOffset == 0 <==> start == 0
  {
    if start > 0 {
      LinesGrow(text, 0, start - 1);
      assert LineAt(text, start) == LineAt(text, start - 1) + 1;
    }
  }

  // ----- all directives of a comment

  datatype Found = Found(line: nat, column: nat, kind: Kind)

  function LineFrom(text: string, start: nat): string
    requires start <= |text|
  {
    text[start..LineEnd(text, start)]
  }

  /** What is reported for the directive at offset `at` of line `n`. */
  function FoundAt(comment: Comment, n: nat, start: nat, at: nat): Found
    requires start <= |comment.text| && DirectiveAt(LineFrom(comment.text, start), at)
  {
    var line := LineFrom(comment.text, start);
    Found(ReportedLine(comment, n), ReportedColumn(comment, n, line, at), KindAt(line, at + |PREFIX|).value.0)
  }

  /** A directive of the comment: on line `n`, which starts at `start`. */
  ghost predicate IsDirective(comment: Comment, n: nat, start: nat, at: nat) {
    LineStartsAt(comment.text, n, start) && DirectiveAt(LineFrom(comment.text, start), at)
  }

  lemma {:induction false} DirectivesFromMembers(line: string, from: nat, at: nat)
    ensures at in DirectivesFrom(line, from) <==> from <= at && DirectiveAt(line, at)
    decreases |line| - from
  {
    hide KindAt;
    if from < |line| {
      DirectivesFromMembers(line, from + 1, at);
    }
  }

  /** One of the first `k` positions on a line is reported as `f`. */
  ghost predicate FoundAmong(comment: Comment, n: nat, start: nat, positions: seq<nat>, k: nat, f: Found)
    requires k <= |positions|
  {
    exists j ::
      0 <= j < k && IsDirective(comment, n, start, positions[j]) && f == FoundAt(comment, n, start, positions[j])
  }

  /** Every directive of every line of a comment is reported, and nothing else, line
      by line. */
  method CommentDirectives(comment: Comment) returns (found: seq<Found>)
    ensures forall f :: f in found <==> exists n: nat, start: nat, at: nat ::
          IsDirective(comment, n, start, at) && f == FoundAt(comment, n, start, at)
  {
    hide LineAt, LineEnd, FoundAt, DirectiveAt, DirectivesFrom, LineStartsAt;
    var text := comment.text;
    found := [];
    var n, start := 0, 0;
    FirstLineStarts(text);
    while true
      invariant LineStartsAt(text, n, start)
      invariant forall f :: f in found <==> exists m: nat, s: nat, at: nat ::
            s < start && IsDirective(comment, m, s, at) && f == FoundAt(comment, m, s, at)
      decreases |text| - start
    {
      StartsWithin(text, n, start);
      var line := LineFrom(text, start);
      var positions := FindDirectives(line);
      forall at: nat { DirectivesFromMembers(line, 0, at); }
      ghost var before := found;
      for k := 0 to |positions|
        invariant forall f :: f in found <==> f in before || FoundAmong(comment, n, start, positions, k, f)
      {
        assert positions[k] in positions;
        found := found + [FoundAt(comment, n, start, positions[k])];
      }
      var end := LineEnd(text, start);
      AddLine(comment, n, start, positions, before, found);
      if end == |text| {
        LastLine(comment, n, start, found);
        return;
      }
      NextLineStarts(text, n, start);
      NoStartInside(comment, n, start, found);
      n, start := n + 1, end + 1;
    }
  }

  lemma FirstLineStarts(text: string)
    ensures LineStartsAt(text, 0, 0)
  {
  }

  lemma StartsWithin(text: string, n: nat, start: nat)
    requires LineStartsAt(text, n, start)
    ensures start <= |text|
  {
  }

  lemma NextLineStarts(text: string, n: nat, start: nat)
    requires LineStartsAt(text, n, start) && LineEnd(text, start) < |text|
    ensures LineStartsAt(text, n + 1, LineEnd(text, start) + 1)
  {
    var e := LineEnd(text, start);
    LinesAdd(text, start, e - start);
    assert text[start..][..e - start] == text[start..e];
    NoNewLines(text[start..], e - start);
    assert start + (e - start) == e;
  }

  lemma AddLine(comment: Comment, n: nat, start: nat, positions: seq<nat>, before: seq<Found>, found: seq<Found>)
    requires LineStartsAt(comment.text, n, start)
    requires forall at: nat :: at in positions <==> DirectiveAt(LineFrom(comment.text, start), at)
    requires forall f :: f in before <==> exists m: nat, s: nat, at: nat ::
          s < start && IsDirective(comment, m, s, at) && f == FoundAt(comment, m, s, at)
    requires forall f :: f in found <==> f in before || FoundAmong(comment, n, start, positions, |positions|, f)
    ensures forall f :: f in found <==> exists m: nat, s: nat, at: nat ::
          s <= start && IsDirective(comment, m, s, at) && f == FoundAt(comment, m, s, at)
  {
  }

  lemma LastLine(comment: Comment, n: nat, start: nat, found: seq<Found>)
    requires LineStartsAt(comment.text, n, start) && LineEnd(comment.text, start) == |comment.text|
    requires forall f :: f in found <==> exists m: nat, s: nat, at: nat ::
          s <= start && IsDirective(comment, m, s, at) && f == FoundAt(comment, m, s, at)
    ensures forall f :: f in found <==> exists m: nat, s: nat, at: nat ::
          IsDirective(comment, m, s, at) && f == FoundAt(comment, m, s, at)
  {
  }

  lemma NoStartInside(comment: Comment, n: nat, start: nat, found: seq<Found>)
    requires LineStartsAt(comment.text, n, start) && LineEnd(comment.text, start) < |comment.text|
    requires forall f :: f in found <==> exists m: nat, s: nat, at: nat ::
          s <= start && IsDirective(comment, m, s, at) && f == FoundAt(comment, m, s, at)
    ensures forall f :: f in found <==> exists m: nat, s: nat, at: nat ::
          s < LineEnd(comment.text, start) + 1 && IsDirective(comment, m, s, at) && f == FoundAt(comment, m, s, at)
  {
  }
}
