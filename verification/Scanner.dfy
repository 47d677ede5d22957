/** The hand-written comment scanner, against a reference lexer that says where each
    token ends.

    A source is a sequence of Unicode scalar values. The program walks its UTF-8
    bytes and always stands at the start of a character, so positions here count
    characters and a character's byte width appears only where the program
    compares byte offsets with the length of the text. */
module Scanner {
  import opened Options
  import Fnv

  /** The number of bytes of a character in UTF-8. */
  function Width(c: char): nat {
    if c as int < 0x80 then 1 else if c as int < 0x800 then 2 else if c as int < 0x10000 then 3 else 4
  }

  /** It is the number of octets that encode it. */
  lemma WidthMeaning(c: char)
    ensures Width(c) == |Fnv.EncodeChar(c)|
  {
  }

  // ----- lines and columns

  /** One plus the newlines before a position. */
  function LineAt(src: string, i: nat): nat
    requires i <= |src|
  {
    if i == 0 then 1 else LineAt(src, i - 1) + if src[i - 1] == '\n' then 1 else 0
  }

  /** One plus the characters since the last newline before a position. */
  function ColAt(src: string, i: nat): nat
    requires i <= |src|
  {
    if i == 0 || src[i - 1] == '\n' then 1 else ColAt(src, i - 1) + 1
  }

  datatype Cursor = Cursor(i: nat, line: nat, col: nat)

  ghost predicate At(src: string, p: Cursor) {
    p.i <= |src| && p.line == LineAt(src, p.i) && p.col == ColAt(src, p.i)
  }

  function Advance(src: string, p: Cursor): (q: Cursor)
    requires p.i < |src|
    ensures q.i == p.i + 1 && (At(src, p) ==> At(src, q))
  {
    if src[p.i] == '\n' then Cursor(p.i + 1, p.line + 1, 1) else Cursor(p.i + 1, p.line, p.col + 1)
  }

  lemma {:induction false} LinesGrow(src: string, i: nat, j: nat)
    requires i <= j <= |src|
    ensures LineAt(src, i) <= LineAt(src, j)
  {
    if i < j {
      LinesGrow(src, i, j - 1);
    }
  }

  // ----- where tokens end

  predicate Two(src: string, i: nat, a: char, b: char) {
    i + 1 < |src| && src[i] == a && src[i + 1] == b
  }

  /** The first newline at or after `i`, or the end. */
  function LineEnd(src: string, i: nat): (e: nat)
    requires i <= |src|
    ensures i <= e <= |src| && (e < |src| ==> src[e] == '\n') && '\n' !in src[i..e]
    decreases |src| - i
  {
    if i == |src| || src[i] == '\n' then i
    else
      var e := LineEnd(src, i + 1);
      assert src[i..e] == [src[i]] + src[i + 1..e];
      e
  }

  /** The first comment terminator at or after `i`. */
  function BlockEnd(src: string, i: nat): (e: Option<nat>)
    requires i <= |src|
    ensures e.Some? ==> i <= e.value && Two(src, e.value, '*', '/') && forall k: nat :: i <= k < e.value ==>
        !Two(src, k, '*', '/')
    ensures e.None? ==> forall k: nat :: i <= k ==> !Two(src, k, '*', '/')
    decreases |src| - i
  {
    if i == |src| then None
    else if Two(src, i, '*', '/') then Some(i)
    else BlockEnd(src, i + 1)
  }

  /** Just after the first quote that no backslash escapes, or the end. */
  function QuoteEnd(src: string, i: nat, quote: char): (e: nat)
    requires i <= |src|
    ensures i <= e <= |src|
    decreases |src| - i
  {
    if i == |src| then i
    else if src[i] == '\\' then if i + 1 < |src| then QuoteEnd(src, i + 2, quote) else i + 1
    else if src[i] == quote then i + 1
    else QuoteEnd(src, i + 1, quote)
  }

  function BacktickEnd(src: string, i: nat): (e: nat)
    requires i <= |src|
    ensures i <= e <= |src|
    decreases |src| - i
  {
    if i == |src| then i else if src[i] == '`' then i + 1 else BacktickEnd(src, i + 1)
  }

  /** How many backslashes stand directly before `k`, counting from `i` on. */
  function Backslashes(src: string, i: nat, k: nat): nat
    requires k <= |src|
  {
    if i < k && src[k - 1] == '\\' then 1 + Backslashes(src, i, k - 1) else 0
  }

  /** The quote at `k` is not escaped in a string whose content starts at `i`. */
  predicate ClosesString(src: string, i: nat, k: nat, quote: char) {
    i <= k < |src| && src[k] == quote && Backslashes(src, i, k) % 2 == 0
  }

  lemma {:induction false} BackslashesSkipOne(src: string, i: nat, k: nat)
    requires i < k <= |src| && src[i] != '\\'
    ensures Backslashes(src, i, k) == Backslashes(src, i + 1, k)
  {
    if k > i + 1 {
      BackslashesSkipOne(src, i, k - 1);
    }
  }

  lemma {:induction false} BackslashesSkipTwo(src: string, i: nat, k: nat)
    requires i + 2 <= k <= |src| && src[i] == '\\'
    ensures Backslashes(src, i, k) % 2 == Backslashes(src, i + 2, k) % 2
  {
    if k > i + 2 {
      BackslashesSkipTwo(src, i, k - 1);
    } else {
      assert Backslashes(src, i, i) == 0 && Backslashes(src, i, i + 1) == 1;
    }
  }

  /** Stepping over a character, or over a backslash and the one it escapes, does not change
      which later quotes close the string. */
  lemma CloseShifts(src: string, i: nat, next: nat, k: nat, quote: char)
    requires i < |src| && quote != '\\'
    requires next == if src[i] == '\\' then i + 2 else i + 1
    ensures next <= k ==> (ClosesString(src, i, k, quote) <==> ClosesString(src, next, k, quote))
    ensures k < next ==> (ClosesString(src, i, k, quote) <==> k == i && src[i] == quote)
  {
    if next <= k < |src| {
      if src[i] == '\\' { BackslashesSkipTwo(src, i, k); } else { BackslashesSkipOne(src, i, k); }
    }
    assert Backslashes(src, i, i) == 0;
    assert i + 1 < |src| ==> Backslashes(src, i, i + 1) == if src[i] == '\\' then 1 else 0;
  }

  /** The string closes at `k` and not before. */
  ghost predicate FirstClose(src: string, i: nat, k: nat, quote: char) {
    ClosesString(src, i, k, quote) && forall j: nat :: j < k ==> !ClosesString(src, i, j, quote)
  }

  /** A string ends after its first quote with an even number of backslashes before it, or
      with the source. */
  lemma {:induction false} QuoteEndMeaning(src: string, i: nat, quote: char)
    requires i <= |src| && quote != '\\'
    ensures || (QuoteEnd(src, i, quote) == |src| && forall k: nat :: !ClosesString(src, i, k, quote))
            || exists k: nat :: FirstClose(src, i, k, quote) && QuoteEnd(src, i, quote) == k + 1
    decreases |src| - i
  {
    hide Backslashes;
    if i < |src| {
      var next := if src[i] == '\\' then i + 2 else i + 1;
      forall k: nat
        ensures next <= k ==> (ClosesString(src, i, k, quote) <==> ClosesString(src, next, k, quote))
        ensures k < next ==> (ClosesString(src, i, k, quote) <==> k == i && src[i] == quote)
      {
        CloseShifts(src, i, next, k, quote);
      }
      hide ClosesString;
      if src[i] == quote {
        assert FirstClose(src, i, i, quote);
      } else if next <= |src| {
        QuoteEndMeaning(src, next, quote);
        AfterNext(src, i, next, quote);
      } else {
        PastEnd(src, next, quote);
      }
    }
  }

  lemma AfterNext(src: string, i: nat, next: nat, quote: char)
    requires i < next <= |src|
    requires forall k: nat :: next <= k ==> (ClosesString(src, i, k, quote) <==> ClosesString(src, next, k, quote))
    requires forall k: nat :: k < next ==> !ClosesString(src, i, k, quote)
    ensures forall k: nat :: FirstClose(src, next, k, quote) ==> FirstClose(src, i, k, quote)
    ensures (forall k: nat :: !ClosesString(src, next, k, quote)) ==> forall k: nat :: !ClosesString(src, i, k, quote)
  {
    hide Backslashes;
  }

  lemma PastEnd(src: string, i: nat, quote: char)
    requires i > |src|
    ensures forall k: nat :: !ClosesString(src, i, k, quote)
  {
  }

  /** A raw string ends after its first backtick. */
  lemma {:induction false} BacktickEndMeaning(src: string, i: nat)
    requires i <= |src|
    ensures forall k: nat :: i <= k < |src| && src[k] == '`' && (forall j :: i <= j < k ==> src[j] != '`') ==>
              BacktickEnd(src, i) == k + 1
    ensures (forall k :: i <= k < |src| ==> src[k] != '`') ==> BacktickEnd(src, i) == |src|
    decreases |src| - i
  {
    if i < |src| && src[i] != '`' {
      BacktickEndMeaning(src, i + 1);
    }
  }

  // ----- the reference lexer

  /** A comment token: where it starts, its text, and whether it is terminated. */
  datatype Token = Token(start: nat, textStart: nat, textEnd: nat, closed: bool)

  function Lex(src: string, i: nat): seq<Token>
    requires i <= |src|
    decreases |src| - i
  {
    if i == |src| then []
    else if Two(src, i, '/', '/') then
      var e := LineEnd(src, i + 2);
      [Token(i, i + 2, e, true)] + Lex(src, e)
    else if Two(src, i, '/', '*') then
      match BlockEnd(src, i + 2)
      case Some(e) => [Token(i, i + 2, e, true)] + Lex(src, e + 2)
      case None => [Token(i, i + 2, |src|, false)]
    else if src[i] == '"' || src[i] == '\'' then Lex(src, QuoteEnd(src, i + 1, src[i]))
    else if src[i] == '`' then Lex(src, BacktickEnd(src, i + 1))
    else Lex(src, i + 1)
  }

  /** What looks like a comment inside any kind of string is none, and one after it is. */
  lemma CommentsInStringsAreNone()
    ensures Lex("'//'", 0) == [] && Lex("`//`", 0) == [] && Lex("\"/*\"", 0) == []
    ensures Lex("''//", 0) == [Token(2, 4, 4, true)]
  {
    assert QuoteEnd("'//'", 1, '\'') == 4 && QuoteEnd("\"/*\"", 1, '"') == 4 && QuoteEnd("''//", 1, '\'') == 2;
    assert BacktickEnd("`//`", 1) == 4;
    assert LineEnd("''//", 4) == 4;
  }

  /** What the scanner reports of a token. */
  datatype Comment = Comment(line: nat, column: nat, text: string)

  /** The scanner stops an unterminated block comment one byte early, so it drops
      the last character when that is a single byte. */
  predicate Clipped(src: string, t: Token) {
    !t.closed && t.textStart < t.textEnd <= |src| && Width(src[t.textEnd - 1]) == 1
  }

  function TextOf(src: string, t: Token): string
    requires t.textStart <= t.textEnd <= |src|
  {
    if Clipped(src, t) then src[t.textStart..t.textEnd - 1] else src[t.textStart..t.textEnd]
  }

  predicate Proper(src: string, t: Token) {
    t.start + 2 == t.textStart <= t.textEnd <= |src|
  }

  function CommentOf(src: string, t: Token): Comment
    requires Proper(src, t)
  {
    Comment(LineAt(src, t.start), ColAt(src, t.start) + 2, TextOf(src, t))
  }

  lemma {:induction false} LexIsProper(src: string, i: nat)
    requires i <= |src|
    ensures forall k :: 0 <= k < |Lex(src, i)| ==> Proper(src, Lex(src, i)[k])
    decreases |src| - i
  {
    if i == |src| {
    } else if Two(src, i, '/', '/') {
      LexIsProper(src, LineEnd(src, i + 2));
    } else if Two(src, i, '/', '*') {
      var e := BlockEnd(src, i + 2);
      if e.Some? { LexIsProper(src, e.value + 2); }
    } else if src[i] == '"' || src[i] == '\'' {
      LexIsProper(src, QuoteEnd(src, i + 1, src[i]));
    } else if src[i] == '`' {
      LexIsProper(src, BacktickEnd(src, i + 1));
    } else {
      LexIsProper(src, i + 1);
    }
  }

  function CommentsOf(src: string, ts: seq<Token>): seq<Comment>
    requires forall k :: 0 <= k < |ts| ==> Proper(src, ts[k])
  {
    seq(|ts|, k requires 0 <= k < |ts| => CommentOf(src, ts[k]))
  }

  // ----- the scanner

  /** The byte after the one at `i` is inside the text. */
  predicate NextByteInside(src: string, i: nat) {
    i + 1 < |src| || (i + 1 == |src| && Width(src[i]) > 1)
  }

  method SkipLine(src: string, p: Cursor) returns (q: Cursor)
    requires At(src, p)
    ensures At(src, q) && q.i == LineEnd(src, p.i)
  {
    q := p;
    while q.i < |src| && src[q.i] != '\n'
      invariant At(src, q) && LineEnd(src, q.i) == LineEnd(src, p.i)
      decreases |src| - q.i
    {
      q := Advance(src, q);
    }
  }

  /** The text of a block comment: up to its terminator, or in an unterminated one
      up to the last byte. */
  method SkipBlock(src: string, p: Cursor) returns (q: Cursor)
    requires At(src, p)
    ensures At(src, q) && p.i <= q.i
    ensures q.i == match BlockEnd(src, p.i)
                   case Some(e) => e
                   case None => if p.i < |src| && Width(src[|src| - 1]) == 1 then |src| - 1 else |src|
  {
    q := p;
    while NextByteInside(src, q.i) && !Two(src, q.i, '*', '/')
      invariant At(src, q) && p.i <= q.i && BlockEnd(src, q.i) == BlockEnd(src, p.i)
      invariant q.i == |src| ==> p.i == |src| || Width(src[|src| - 1]) > 1
      decreases |src| - q.i
    {
      q := Advance(src, q);
    }
  }

  method SkipQuoted(src: string, p: Cursor, quote: char) returns (q: Cursor)
    requires At(src, p) && p.i < |src|
    ensures At(src, q) && q.i == QuoteEnd(src, p.i + 1, quote)
  {
    q := Advance(src, p);
    while q.i < |src|
      invariant At(src, q) && QuoteEnd(src, q.i, quote) == QuoteEnd(src, p.i + 1, quote)
      decreases |src| - q.i
    {
      var c := src[q.i];
      if c == '\\' {
        q := Advance(src, q);
        if q.i < |src| {
          q := Advance(src, q);
        }
      } else if c == quote {
        q := Advance(src, q);
        return;
      } else {
        q := Advance(src, q);
      }
    }
  }

  method SkipBacktick(src: string, p: Cursor) returns (q: Cursor)
    requires At(src, p) && p.i < |src|
    ensures At(src, q) && q.i == BacktickEnd(src, p.i + 1)
  {
    q := Advance(src, p);
    while q.i < |src|
      invariant At(src, q) && BacktickEnd(src, q.i) == BacktickEnd(src, p.i + 1)
      decreases |src| - q.i
    {
      var c := src[q.i];
      q := Advance(src, q);
      if c == '`' {
        return;
      }
    }
  }

  lemma LastCharacterHasNoComment(src: string)
    requires src != []
    ensures Lex(src, |src| - 1) == []
  {
  }

  lemma OverDelimiter(src: string, p: Cursor)
    requires At(src, p) && p.i + 1 < |src| && src[p.i] != '\n' && src[p.i + 1] != '\n'
    ensures At(src, Cursor(p.i + 2, p.line, p.col + 2))
  {
  }

  /** The scanner reports exactly the reference lexer's comments, at their exact
      lines and columns. */
  method ScanComments(src: string) returns (comments: seq<Comment>)
    ensures (forall k :: 0 <= k < |Lex(src, 0)| ==> Proper(src, Lex(src, 0)[k]))
    ensures comments == CommentsOf(src, Lex(src, 0))
  {
    LexIsProper(src, 0);
    comments := [];
    var p := Cursor(0, 1, 1);
    ghost var read: seq<Token> := [];
    while p.i < |src|
      invariant At(src, p)
      invariant read + Lex(src, p.i) == Lex(src, 0)
      invariant forall k :: 0 <= k < |read| ==> Proper(src, read[k])
      invariant comments == CommentsOf(src, read)
      decreases |src| - p.i
    {
      var c := src[p.i];
      if Two(src, p.i, '/', '/') || Two(src, p.i, '/', '*') {
        var comment;
        ghost var token;
        comment, token, p := ReadComment(src, p, read);
        comments := comments + [comment];
        read := read + [token];
      } else if c == '"' || c == '\'' {
        p := SkipQuoted(src, p, c);
      } else if c == '`' {
        p := SkipBacktick(src, p);
      } else {
        p := Advance(src, p);
      }
    }
    assert read + [] == read;
  }

  method ReadComment(src: string, p: Cursor, ghost read: seq<Token>) returns (comment: Comment, ghost token: Token,
      q: Cursor)
    requires At(src, p) && (Two(src, p.i, '/', '/') || Two(src, p.i, '/', '*'))
    ensures At(src, q) && p.i < q.i && Proper(src, token) && comment == CommentOf(src, token)
    ensures read + Lex(src, p.i) == (read + [token]) + Lex(src, q.i)
  {
    hide Lex, LineAt, ColAt, BlockEnd, LineEnd;
    CommentLexes(src, p.i);
    OverDelimiter(src, p);
    var body := Cursor(p.i + 2, p.line, p.col + 2);
    if src[p.i + 1] == '/' {
      q := SkipLine(src, body);
      token := Token(p.i, p.i + 2, q.i, true);
      comment := Comment(p.line, p.col + 2, src[body.i..q.i]);
    } else {
      q := SkipBlock(src, body);
      token := Token(p.i, p.i + 2, if BlockEnd(src, body.i).Some? then q.i else |src|, BlockEnd(src, body.i).Some?);
      comment := Comment(p.line, p.col + 2, src[body.i..q.i]);
      if NextByteInside(src, q.i) {
        OverDelimiter(src, q);
        q := Cursor(q.i + 2, q.line, q.col + 2);
      } else if q.i < |src| {
        LastCharacterHasNoComment(src);
      }
    }
    LexEnd(src);
    TokenJoins(read, token, Lex(src, q.i));
  }

  /** The first token of a text that starts with a comment. */
  lemma CommentLexes(src: string, i: nat)
    requires i <= |src|
    ensures Two(src, i, '/', '/') ==>
              Lex(src, i) == [Token(i, i + 2, LineEnd(src, i + 2), true)] + Lex(src, LineEnd(src, i + 2))
    ensures Two(src, i, '/', '*') ==>
              match BlockEnd(src, i + 2)
              case Some(e) => Lex(src, i) == [Token(i, i + 2, e, true)] + Lex(src, e + 2)
              case None => Lex(src, i) == [Token(i, i + 2, |src|, false)]
  {
  }

  lemma LexEnd(src: string)
    ensures Lex(src, |src|) == []
  {
  }

  lemma TokenJoins(read: seq<Token>, token: Token, rest: seq<Token>)
    ensures read + ([token] + rest) == (read + [token]) + rest
  {
  }

  ghost predicate OpenOnlyAtEnd(src: string, ts: seq<Token>) {
    forall k :: 0 <= k < |ts| && !ts[k].closed ==> k == |ts| - 1 && ts[k].textEnd == |src|
  }

  lemma {:induction false} OnlyLastIsOpen(src: string, i: nat)
    requires i <= |src|
    ensures OpenOnlyAtEnd(src, Lex(src, i))
    decreases |src| - i
  {
    if i == |src| {
    } else if Two(src, i, '/', '/') {
      OnlyLastIsOpen(src, LineEnd(src, i + 2));
    } else if Two(src, i, '/', '*') {
      var e := BlockEnd(src, i + 2);
      if e.Some? { OnlyLastIsOpen(src, e.value + 2); }
    } else if src[i] == '"' || src[i] == '\'' {
      OnlyLastIsOpen(src, QuoteEnd(src, i + 1, src[i]));
    } else if src[i] == '`' {
      OnlyLastIsOpen(src, BacktickEnd(src, i + 1));
    } else {
      OnlyLastIsOpen(src, i + 1);
    }
  }

  /** The source ends inside a block comment, with a single-byte character. */
  predicate EndsInOpenComment(src: string) {
    var ts := Lex(src, 0);
    ts != [] && !ts[|ts| - 1].closed && ts[|ts| - 1].textStart < |src| && Width(src[|src| - 1]) == 1
  }

  /** The comments the scanner returns have the lexer's texts, all of them, exactly
      unless the source ends inside a block comment with a single-byte character. */
  lemma AgreesUnlessClipped(src: string)
    ensures (forall k :: 0 <= k < |Lex(src, 0)| ==> Proper(src, Lex(src, 0)[k]))
    ensures (forall k :: 0 <= k < |Lex(src, 0)| ==>
               CommentsOf(src, Lex(src, 0))[k].text == src[Lex(src, 0)[k].textStart..Lex(src, 0)[k].textEnd])
            <==> !EndsInOpenComment(src)
  {
    hide Lex, TextOf;
    LexIsProper(src, 0);
    var ts := Lex(src, 0);
    if EndsInOpenComment(src) {
      LastIsClipped(src, ts);
      var k := |ts| - 1;
      assert CommentsOf(src, ts)[k].text != src[ts[k].textStart..ts[k].textEnd];
    } else {
      forall k | 0 <= k < |ts| ensures CommentsOf(src, ts)[k].text == src[ts[k].textStart..ts[k].textEnd] {
        NoneIsClipped(src, ts, k);
      }
    }
  }

  lemma LastIsClipped(src: string, ts: seq<Token>)
    requires EndsInOpenComment(src) && ts == Lex(src, 0) && forall k :: 0 <= k < |ts| ==> Proper(src, ts[k])
    ensures var k := |ts| - 1; CommentsOf(src, ts)[k].text != src[ts[k].textStart..ts[k].textEnd]
  {
    hide Lex;
    OnlyLastIsOpen(src, 0);
    var k := |ts| - 1;
    assert ts[k].textEnd == |src|;
    assert CommentsOf(src, ts)[k].text == src[ts[k].textStart..ts[k].textEnd - 1];
    assert |src[ts[k].textStart..ts[k].textEnd - 1]| < |src[ts[k].textStart..ts[k].textEnd]|;
  }

  lemma NoneIsClipped(src: string, ts: seq<Token>, k: nat)
    requires !EndsInOpenComment(src) && ts == Lex(src, 0) && forall k :: 0 <= k < |ts| ==> Proper(src, ts[k])
    requires k < |ts|
    ensures CommentsOf(src, ts)[k].text == src[ts[k].textStart..ts[k].textEnd]
  {
    hide Lex;
    OnlyLastIsOpen(src, 0);
    assert !Clipped(src, ts[k]);
  }

  /** Such a source: the selector of a directive loses its last character. */
  lemma UnterminatedCommentLosesItsEnd()
    ensures Lex("/*ab", 0) == [Token(0, 2, 4, false)] && TextOf("/*ab", Token(0, 2, 4, false)) == "a"
  {
    var src := "/*ab";
    assert BlockEnd(src, 2).None?;
    assert src[2..3] == "a";
  }
}
