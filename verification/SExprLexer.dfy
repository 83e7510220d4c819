/** The tokenizer of `electronics/sexpr_parser.py`. */
module SExprLexer {
  datatype Kind = LPAREN | RPAREN | ATOM

  /** A token covers the text from `start` up to `end`; `line` is the line on which it ends. */
  datatype Token = Token(kind: Kind, value: string, line: nat, start: nat, end: nat)

  /** What `str.isspace` holds of in Python. */
  predicate IsSpace(c: char) {
    || '\t' <= c <= '\r' || '\U{1C}' <= c <= ' ' || c == '\U{85}' || c == '\U{A0}' || c == '\U{1680}'
    || '\U{2000}' <= c <= '\U{200A}' || c == '\U{2028}' || c == '\U{2029}' || c == '\U{202F}'
    || c == '\U{205F}' || c == '\U{3000}'
  }

  predicate Ends(c: char) {
    IsSpace(c) || c == '(' || c == ')'
  }

  /** The end of an unquoted atom. */
  function AtomEnd(s: string, k: nat): (n: nat)
    requires k <= |s|
    ensures k <= n <= |s| && (n < |s| ==> Ends(s[n])) && forall i | k <= i < n :: !Ends(s[i])
    decreases |s| - k
  {
    if k == |s| || Ends(s[k]) then k else AtomEnd(s, k + 1)
  }

  /** A backslash hides the character after it. */
  predicate Escapes(s: string, k: nat)
    requires k < |s|
  {
    s[k] == '\\' && k + 1 < |s|
  }

  /** The end of a string literal of which the part before `k` has been read. */
  function QuotedEnd(s: string, k: nat): (n: nat)
    requires k <= |s|
    ensures k <= n <= |s|
    decreases |s| - k
  {
    if k == |s| then k
    else if s[k] == '"' then k + 1
    else if Escapes(s, k) then QuotedEnd(s, k + 2)
    else QuotedEnd(s, k + 1)
  }

  /** The newlines that the tokenizer counts in it. */
  function QuotedLines(s: string, k: nat): nat
    requires k <= |s|
    decreases |s| - k
  {
    if k == |s| || s[k] == '"' then 0
    else if Escapes(s, k) then QuotedLines(s, k + 2)
    else (if s[k] == '\n' then 1 else 0) + QuotedLines(s, k + 1)
  }

  /** A stretch of the text that the tokenizer reads in one go: where it ends and on which line, and
      the token in it unless it is a blank. */
  datatype Piece = Piece(end: nat, line: nat, tokens: seq<Token>)

  function OneToken(kind: Kind, s: string, line: nat, start: nat, end: nat): (p: Piece)
    requires start < end <= |s|
  {
    Piece(end, line, [Token(kind, s[start..end], line, start, end)])
  }

  function First(s: string, i: nat, line: nat): (p: Piece)
    requires i < |s|
    ensures i < p.end <= |s|
  {
    if s[i] == '\n' then Piece(i + 1, line + 1, [])
    else if IsSpace(s[i]) then Piece(i + 1, line, [])
    else if s[i] == '(' then OneToken(LPAREN, s, line, i, i + 1)
    else if s[i] == ')' then OneToken(RPAREN, s, line, i, i + 1)
    else if s[i] == '"' then OneToken(ATOM, s, line + QuotedLines(s, i + 1), i, QuotedEnd(s, i + 1))
    else OneToken(ATOM, s, line, i, AtomEnd(s, i))
  }

  /** The tokens of a text from position `i` on, which is on line `line`. */
  function Lex(s: string, i: nat, line: nat): seq<Token>
    requires i <= |s|
    decreases |s| - i
  {
    if i == |s| then []
    else
      var p := First(s, i, line);
      p.tokens + Lex(s, p.end, p.line)
  }

  // ----- the code

  /** A string literal, from its opening quote at `start`. */
  method ScanQuoted(text: string, start: nat, line: nat) returns (i: nat, lineNum: nat)
    requires start < |text| && text[start] == '"'
    ensures i == QuotedEnd(text, start + 1) && lineNum == line + QuotedLines(text, start + 1)
  {
    i, lineNum := start + 1, line;
    while i < |text| && text[i] != '"'
      invariant start < i <= |text|
      invariant QuotedEnd(text, start + 1) == QuotedEnd(text, i)
      invariant line + QuotedLines(text, start + 1) == lineNum + QuotedLines(text, i)
    {
      if text[i] == '\\' && i + 1 < |text| {
        i := i + 2;
      } else {
        if text[i] == '\n' { lineNum := lineNum + 1; }
        i := i + 1;
      }
    }
    if i < |text| {
      i := i + 1;
    }
  }

  /** An unquoted atom. */
  method ScanAtom(text: string, start: nat) returns (i: nat)
    requires start <= |text|
    ensures i == AtomEnd(text, start)
  {
    i := start;
    while i < |text| && !IsSpace(text[i]) && text[i] != '(' && text[i] != ')'
      invariant start <= i <= |text| && AtomEnd(text, start) == AtomEnd(text, i)
    {
      i := i + 1;
    }
  }

  /** One pass of the loop of `_tokenize`: to the end of a blank or of a token. */
  method ScanPiece(text: string, i: nat, lineNum: nat) returns (end: nat, line: nat, tokens: seq<Token>)
    requires i < |text|
    ensures Piece(end, line, tokens) == First(text, i, lineNum)
  {
    var c := text[i];
    end, line, tokens := i + 1, lineNum, [];
    if c == '\n' {
      line := lineNum + 1;
    } else if IsSpace(c) {
    } else if c == '(' {
      assert text[i..end] == "(";
      tokens := [Token(LPAREN, "(", lineNum, i, end)];
    } else if c == ')' {
      assert text[i..end] == ")";
      tokens := [Token(RPAREN, ")", lineNum, i, end)];
    } else if c == '"' {
      end, line := ScanQuoted(text, i, lineNum);
      tokens := [Token(ATOM, text[i..end], line, i, end)];
    } else {
      end := ScanAtom(text, i);
      tokens := [Token(ATOM, text[i..end], lineNum, i, end)];
    }
  }

  /** `_tokenize`, all tokens at once. */
  method Tokenize(text: string) returns (tokens: seq<Token>)
    ensures tokens == Lex(text, 0, 1)
  {
    tokens := [];
    var i, lineNum := 0, 1;
    while i < |text|
      invariant i <= |text| && Lex(text, 0, 1) == tokens + Lex(text, i, lineNum)
    {
      var end, line, more := ScanPiece(text, i, lineNum);
      assert tokens + (more + Lex(text, end, line)) == tokens + more + Lex(text, end, line);
      i, lineNum, tokens := end, line, tokens + more;
    }
  }

  // ----- where the tokens are

  /** The token covers a stretch of the text after `i`, and has it as its value. */
  ghost predicate Covers(t: Token, s: string, i: nat) {
    i <= t.start < t.end <= |s| && t.value == s[t.start..t.end]
  }

  lemma FirstCovers(s: string, i: nat, line: nat)
    requires i < |s|
    ensures var p := First(s, i, line);
      if p.tokens == [] then p.end == i + 1 && IsSpace(s[i])
      else |p.tokens| == 1 && Covers(p.tokens[0], s, i) && p.tokens[0].start == i && p.tokens[0].end == p.end
  {}

  lemma {:induction false} TokensCover(s: string, i: nat, line: nat)
    requires i <= |s|
    ensures forall t <- Lex(s, i, line) :: Covers(t, s, i)
    decreases |s| - i
  {
    if i < |s| {
      var p := First(s, i, line);
      FirstCovers(s, i, line);
      TokensCover(s, p.end, p.line);
    }
  }

  /** Tokens come in the order of the text and do not overlap. */
  lemma {:induction false} TokensOrdered(s: string, i: nat, line: nat)
    requires i <= |s|
    ensures forall j, k | 0 <= j < k < |Lex(s, i, line)| :: Lex(s, i, line)[j].end <= Lex(s, i, line)[k].start
    decreases |s| - i
  {
    if i < |s| {
      var p := First(s, i, line);
      FirstCovers(s, i, line);
      TokensOrdered(s, p.end, p.line);
      TokensCover(s, p.end, p.line);
      var rest := Lex(s, p.end, p.line);
      forall k | 0 <= k < |rest| ensures p.end <= rest[k].start { assert Covers(rest[k], s, p.end); }
    }
  }

  ghost predicate InSome(tokens: seq<Token>, k: nat) {
    exists t <- tokens :: t.start <= k < t.end
  }

  /** Every character that is not in a token is white space. */
  lemma {:induction false} NothingSkipped(s: string, i: nat, line: nat, k: nat)
    requires i <= k < |s| && !IsSpace(s[k])
    ensures InSome(Lex(s, i, line), k)
    decreases |s| - i
  {
    var p := First(s, i, line);
    FirstCovers(s, i, line);
    if k < p.end {
      assert p.tokens[0] in Lex(s, i, line);
    } else {
      NothingSkipped(s, p.end, p.line, k);
      var t :| t in Lex(s, p.end, p.line) && t.start <= k < t.end;
      assert t in Lex(s, i, line);
    }
  }

  // ----- lines

  /** The newlines before position `n`. */
  function NewlinesBefore(s: string, n: nat): nat
    requires n <= |s|
  {
    if n == 0 then 0 else NewlinesBefore(s, n - 1) + if s[n - 1] == '\n' then 1 else 0
  }

  /** The newlines of a string literal up to `end` that stand behind a backslash. */
  function HiddenNewlines(s: string, k: nat, end: nat): nat
    requires end <= |s|
    decreases |s| - k
  {
    if k >= end then 0
    else if Escapes(s, k) then (if s[k + 1] == '\n' then 1 else 0) + HiddenNewlines(s, k + 2, end)
    else HiddenNewlines(s, k + 1, end)
  }

  /** The newlines of a token that the tokenizer overlooks. */
  function Overlooked(s: string, t: Token): nat
    requires t.start < t.end <= |s|
  {
    if s[t.start] == '"' then HiddenNewlines(s, t.start + 1, t.end) else 0
  }

  /** In a string literal a newline is counted or overlooked. */
  lemma {:induction false} QuotedNewlines(s: string, k: nat)
    requires k <= |s|
    ensures var end := QuotedEnd(s, k);
      NewlinesBefore(s, end) == NewlinesBefore(s, k) + QuotedLines(s, k) + HiddenNewlines(s, k, end)
    decreases |s| - k
  {
    if k < |s| && s[k] != '"' {
      if Escapes(s, k) {
        QuotedNewlines(s, k + 2);
        assert NewlinesBefore(s, k + 1) == NewlinesBefore(s, k);
      } else {
        QuotedNewlines(s, k + 1);
      }
    }
  }

  lemma {:induction false} AtomNewlines(s: string, k: nat, n: nat)
    requires k <= n <= |s| && forall i | k <= i < n :: !Ends(s[i])
    ensures NewlinesBefore(s, n) == NewlinesBefore(s, k)
    decreases n
  {
    if k < n { AtomNewlines(s, k, n - 1); }
  }

  /** A piece accounts for its newlines. */
  lemma FirstLines(s: string, i: nat, line: nat)
    requires i < |s|
    ensures var p := First(s, i, line);
      && (p.tokens != [] ==> Covers(p.tokens[0], s, i) && p.tokens[0].end == p.end && p.tokens[0].line == p.line)
      && p.line == line + NewlinesBefore(s, p.end) - NewlinesBefore(s, i)
                   - if p.tokens == [] then 0 else Overlooked(s, p.tokens[0])
  {
    FirstCovers(s, i, line);
    if s[i] == '"' {
      QuotedNewlines(s, i + 1);
    } else if !Ends(s[i]) {
      AtomNewlines(s, i, AtomEnd(s, i));
    }
  }

  ghost predicate AllCover(s: string, tokens: seq<Token>) {
    forall j | 0 <= j < |tokens| :: Covers(tokens[j], s, 0)
  }

  /** The newlines overlooked in the first `n` tokens. */
  ghost function OverlookedIn(s: string, tokens: seq<Token>, n: nat): nat
    requires n <= |tokens| && AllCover(s, tokens)
  {
    if n == 0 then 0 else OverlookedIn(s, tokens, n - 1) + Overlooked(s, tokens[n - 1])
  }

  lemma {:induction false} OverlookedAfter(s: string, first: seq<Token>, rest: seq<Token>, n: nat)
    requires AllCover(s, first) && AllCover(s, rest) && |first| <= 1 && n <= |rest|
    ensures OverlookedIn(s, first + rest, |first| + n)
            == (if first == [] then 0 else Overlooked(s, first[0])) + OverlookedIn(s, rest, n)
  {
    hide Overlooked;
    if n > 0 { OverlookedAfter(s, first, rest, n - 1); }
    else if first != [] { assert OverlookedIn(s, first + rest, 0) == 0; }
  }

  /** Token `k` has the line it was on, less the newlines that were overlooked up to there. */
  ghost predicate RightLine(s: string, i: nat, line: nat, tokens: seq<Token>, k: nat)
    requires i <= |s| && k < |tokens| && AllCover(s, tokens)
  {
    tokens[k].line + NewlinesBefore(s, i) + OverlookedIn(s, tokens, k + 1) == line + NewlinesBefore(s, tokens[k].end)
  }

  lemma LexCovers(s: string, i: nat, line: nat)
    requires i <= |s|
    ensures AllCover(s, Lex(s, i, line))
  {
    TokensCover(s, i, line);
    var tokens := Lex(s, i, line);
    forall j | 0 <= j < |tokens| ensures Covers(tokens[j], s, 0) { assert Covers(tokens[j], s, i); }
  }

  lemma {:induction false} TokenLine(s: string, i: nat, line: nat, k: nat)
    requires i <= |s| && k < |Lex(s, i, line)|
    ensures AllCover(s, Lex(s, i, line)) && RightLine(s, i, line, Lex(s, i, line), k)
    decreases |s| - i
  {
    hide First, NewlinesBefore, Overlooked, OneToken;
    var p := First(s, i, line);
    var rest := Lex(s, p.end, p.line);
    LexCovers(s, i, line);
    LexCovers(s, p.end, p.line);
    FirstLines(s, i, line);
    FirstCovers(s, i, line);
    if k < |p.tokens| {
      OverlookedAfter(s, p.tokens, rest, 0);
    } else {
      TokenLine(s, p.end, p.line, k - |p.tokens|);
      OverlookedAfter(s, p.tokens, rest, k - |p.tokens| + 1);
    }
  }

  lemma {:induction false} NoneOverlooked(s: string, tokens: seq<Token>, n: nat)
    requires n <= |tokens| && AllCover(s, tokens)
    ensures OverlookedIn(s, tokens, n) == 0 <==> forall j | 0 <= j < n :: Overlooked(s, tokens[j]) == 0
  {
    if n > 0 { NoneOverlooked(s, tokens, n - 1); }
  }

  /** The line of a token is the line of its end, if and only if no string literal up to it holds a
      newline behind a backslash. */
  lemma LineIsRight(text: string, k: nat)
    requires k < |Lex(text, 0, 1)|
    ensures var tokens := Lex(text, 0, 1);
      && AllCover(text, tokens)
      && (tokens[k].line == 1 + NewlinesBefore(text, tokens[k].end)
          <==> forall j | 0 <= j <= k :: Overlooked(text, tokens[j]) == 0)
  {
    TokenLine(text, 0, 1, k);
    NoneOverlooked(text, Lex(text, 0, 1), k + 1);
  }

  /** A string literal that holds nothing but a newline behind a backslash ends on line 2 and is given
      line 1. */
  lemma HiddenNewline()
    ensures var text := ['"', '\\', '\n', '"'];
      && Lex(text, 0, 1) == [Token(ATOM, text, 1, 0, 4)]
      && 1 + NewlinesBefore(text, 4) == 2 && Overlooked(text, Token(ATOM, text, 1, 0, 4)) == 1
  {
    var text := ['"', '\\', '\n', '"'];
    assert text[0..4] == text && QuotedEnd(text, 3) == 4 && QuotedLines(text, 3) == 0;
    assert First(text, 0, 1) == OneToken(ATOM, text, 1, 0, 4);
    assert Lex(text, 4, 1) == [];
    assert NewlinesBefore(text, 1) == 0 && NewlinesBefore(text, 3) == 1;
    assert HiddenNewlines(text, 3, 4) == 0;
  }
}
