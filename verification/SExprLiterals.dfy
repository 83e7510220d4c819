/** String literals and words of `electronics/sexpr_parser.py` as one writes them down: what is read as one
    atom, whatever comes after it. */
module SExprLiterals {
  import opened SExprLexer
  import opened SExprParser

  const QUOTE: string := ['"']
  const BACKSLASH: string := ['\\']

  /** A part of a string literal: a character that stands for itself, or any one behind a backslash. */
  datatype Unit = Plain(c: char) | Hidden(c: char)

  function SpellOne(u: Unit): string {
    match u
    case Plain(c) => [c]
    case Hidden(c) => ['\\', c]
  }

  function Spell(units: seq<Unit>): string {
    if units == [] then "" else SpellOne(units[0]) + Spell(units[1..])
  }

  /** Quotes and backslashes do not stand for themselves. */
  predicate Proper(units: seq<Unit>) {
    forall u <- units :: u.Plain? ==> u.c != '"' && u.c != '\\'
  }

  /** The newlines among them that stand for themselves. */
  function PlainNewlines(units: seq<Unit>): nat {
    if units == [] then 0 else (if units[0] == Plain('\n') then 1 else 0) + PlainNewlines(units[1..])
  }

  /** How a literal may go on: it closes and other text follows, or the text ends, perhaps with a
      backslash that has nothing to hide. */
  datatype Tail = Ended(rest: string) | Unended | Dangling

  function TailText(t: Tail): string {
    match t
    case Ended(rest) => QUOTE + rest
    case Unended => ""
    case Dangling => BACKSLASH
  }

  /** The part of the tail that belongs to the literal. */
  function TailLength(t: Tail): nat {
    if t.Unended? then 0 else 1
  }

  lemma SpellMore(first: Unit, more: seq<Unit>, rest: string)
    ensures Spell([first] + more) + rest == SpellOne(first) + (Spell(more) + rest)
  {
    hide SpellOne;
    assert ([first] + more)[1..] == more;
  }

  /** Every text behind a quote is such a literal and its tail. */
  lemma {:induction false} EveryLiteral(s: string) returns (units: seq<Unit>, tail: Tail)
    ensures Proper(units) && s == Spell(units) + TailText(tail)
  {
    hide Spell;
    if s == "" {
      units, tail := [], Unended;
      assert Spell([]) == "" by { NothingSpelled(); }
    } else if s[0] == '"' {
      units, tail := [], Ended(s[1..]);
      assert Spell([]) == "" by { NothingSpelled(); }
    } else if s == BACKSLASH {
      units, tail := [], Dangling;
      assert Spell([]) == "" by { NothingSpelled(); }
    } else {
      var first := if s[0] == '\\' then Hidden(s[1]) else Plain(s[0]);
      var n := |SpellOne(first)|;
      var more;
      more, tail := EveryLiteral(s[n..]);
      units := [first] + more;
      SpellMore(first, more, TailText(tail));
      assert s[..n] == SpellOne(first);
    }
  }

  lemma NothingSpelled()
    ensures Spell([]) == ""
  {}

  lemma {:induction false} QuotedLinesMove(a: string, s: string, k: nat)
    requires k <= |s|
    ensures QuotedLines(a + s, |a| + k) == QuotedLines(s, k)
    decreases |s| - k
  {
    if k < |s| && s[k] != '"' { QuotedLinesMove(a, s, if Escapes(s, k) then k + 2 else k + 1); }
  }

  /** A unit of a literal is read as a whole. */
  lemma UnitIsRead(u: Unit, more: string)
    requires Proper([u])
    ensures QuotedEnd(SpellOne(u) + more, 0) == |SpellOne(u)| + QuotedEnd(more, 0)
    ensures QuotedLines(SpellOne(u) + more, 0) == PlainNewlines([u]) + QuotedLines(more, 0)
  {
    assert u in [u] && PlainNewlines([]) == 0;
    QuotedEndMoves(SpellOne(u), more, 0);
    QuotedLinesMove(SpellOne(u), more, 0);
  }

  lemma TailEnds(tail: Tail)
    ensures QuotedEnd(TailText(tail), 0) == TailLength(tail) && QuotedLines(TailText(tail), 0) == 0
  {
    if tail.Dangling? { assert QuotedEnd(BACKSLASH, 1) == 1 && QuotedLines(BACKSLASH, 1) == 0; }
  }

  /** A literal ends where it closes, or with the text; and the newlines that are counted in it are
      those that stand for themselves. */
  lemma {:induction false} LiteralEnds(units: seq<Unit>, tail: Tail)
    requires Proper(units)
    ensures var s := Spell(units) + TailText(tail);
      QuotedEnd(s, 0) == |Spell(units)| + TailLength(tail) && QuotedLines(s, 0) == PlainNewlines(units)
  {
    hide QuotedEnd, QuotedLines, TailText, TailLength, SpellOne;
    if units == [] {
      assert Spell(units) + TailText(tail) == TailText(tail);
      TailEnds(tail);
    } else {
      var first := units[0];
      assert units == [first] + units[1..];
      SpellMore(first, units[1..], TailText(tail));
      LiteralEnds(units[1..], tail);
      UnitIsRead(first, Spell(units[1..]) + TailText(tail));
      assert PlainNewlines([first]) == if first == Plain('\n') then 1 else 0 by { assert [first][1..] == []; }
    }
  }

  /** The text of a literal, from its opening quote on. */
  function LiteralText(units: seq<Unit>, tail: Tail): string {
    QUOTE + Spell(units) + (if tail.Ended? then QUOTE else TailText(tail))
  }

  function RestText(tail: Tail): string {
    if tail.Ended? then tail.rest else ""
  }

  lemma LiteralAndRest(units: seq<Unit>, tail: Tail)
    ensures LiteralText(units, tail) + RestText(tail) == QUOTE + (Spell(units) + TailText(tail))
    ensures |LiteralText(units, tail)| == 1 + |Spell(units)| + TailLength(tail)
  {
    hide Spell;
  }

  /** The first piece of a text is a literal that ends where it closes. */
  lemma LiteralFirst(units: seq<Unit>, tail: Tail, line: nat)
    requires Proper(units)
    ensures var literal, end := LiteralText(units, tail), line + PlainNewlines(units);
      First(literal + RestText(tail), 0, line) == Piece(|literal|, end, [Token(ATOM, literal, end, 0, |literal|)])
  {
    hide Spell, PlainNewlines, QuotedEnd, QuotedLines, LiteralText, Proper, RestText, TailText, AtomEnd;
    var s := Spell(units) + TailText(tail);
    var literal, text := LiteralText(units, tail), QUOTE + s;
    LiteralAndRest(units, tail);
    LiteralEnds(units, tail);
    QuotedEndMoves(QUOTE, s, 0);
    QuotedLinesMove(QUOTE, s, 0);
    assert (literal + RestText(tail))[0..|literal|] == literal;
  }

  /** A string literal is read as exactly one atom, which ends where the literal closes: at the first
      quote that no backslash hides. A literal that does not close is the rest of the text. */
  lemma LiteralIsOneAtom(units: seq<Unit>, tail: Tail, line: nat)
    requires Proper(units)
    ensures var literal, text := LiteralText(units, tail), LiteralText(units, tail) + RestText(tail);
      && First(text, 0, line) == Piece(|literal|, line + PlainNewlines(units),
                                       [Token(ATOM, literal, line + PlainNewlines(units), 0, |literal|)])
      && Read(text) == [Lexeme(ATOM, literal)] + Read(RestText(tail))
  {
    hide Spell, PlainNewlines, First, Read, Proper, RestText, TailText;
    LiteralFirst(units, tail, line);
    LiteralFirst(units, tail, 1);
    ReadPiece(LiteralText(units, tail), RestText(tail));
  }

  // ----- quoting

  /** A string with a backslash before each quote and each backslash. */
  function Escaped(u: string): string {
    if u == "" then ""
    else (if u[0] == '"' || u[0] == '\\' then BACKSLASH else "") + [u[0]] + Escaped(u[1..])
  }

  function Quoted(u: string): string {
    QUOTE + Escaped(u) + QUOTE
  }

  lemma {:induction false} EscapedIsSpelled(u: string) returns (units: seq<Unit>)
    ensures Proper(units) && Spell(units) == Escaped(u)
  {
    if u == "" {
      units := [];
    } else {
      var more := EscapedIsSpelled(u[1..]);
      var first := if u[0] == '"' || u[0] == '\\' then Hidden(u[0]) else Plain(u[0]);
      units := [first] + more;
      assert units[1..] == more;
    }
  }

  /** Any string, quoted, is read as one atom that ends with its closing quote. */
  lemma QuotedIsOneAtom(u: string, rest: string)
    ensures Lex(Quoted(u) + rest, 0, 1) != [] && Read(Quoted(u) + rest) == [Lexeme(ATOM, Quoted(u))] + Read(rest)
    ensures var t := Lex(Quoted(u) + rest, 0, 1)[0];
      t.kind == ATOM && t.value == Quoted(u) && t.start == 0 && t.end == |Quoted(u)|
  {
    var units := EscapedIsSpelled(u);
    LiteralIsOneAtom(units, Ended(rest), 1);
    assert LiteralText(units, Ended(rest)) == Quoted(u);
  }

  lemma {:induction false} EscapedPlain(u: string)
    ensures '"' !in u && '\\' !in u ==> Escaped(u) == u
  {
    if u != "" {
      EscapedPlain(u[1..]);
      assert u == [u[0]] + u[1..];
    }
  }

  /** Without backslashes a literal ends at its first further quote. */
  lemma FirstQuoteEnds(u: string, rest: string)
    requires '"' !in u && '\\' !in u
    ensures Read(QUOTE + u + QUOTE + rest) == [Lexeme(ATOM, QUOTE + u + QUOTE)] + Read(rest)
  {
    EscapedPlain(u);
    QuotedIsOneAtom(u, rest);
  }

  lemma {:induction false} ClosesAtEndMoves(a: string, s: string, k: nat)
    requires k <= |s|
    ensures ClosesAtEnd(a + s, |a| + k) == ClosesAtEnd(s, k)
    decreases |s| - k
  {
    if k < |s| && s[k] != '"' { ClosesAtEndMoves(a, s, if Escapes(s, k) then k + 2 else k + 1); }
  }

  lemma {:induction false} SpelledCloses(units: seq<Unit>, tail: Tail)
    requires Proper(units)
    ensures ClosesAtEnd(Spell(units) + TailText(tail), 0) <==> tail == Ended("")
  {
    hide Spell;
    if units == [] {
      NothingSpelled();
      TailCloses(tail);
    } else {
      var first, more := units[0], Spell(units[1..]) + TailText(tail);
      assert first in units && units == [first] + units[1..];
      SpellMore(first, units[1..], TailText(tail));
      SpelledCloses(units[1..], tail);
      ClosesAtEndMoves(SpellOne(first), more, 0);
    }
  }

  lemma TailCloses(tail: Tail)
    ensures ClosesAtEnd("" + TailText(tail), 0) <==> tail == Ended("")
  {
    assert "" + TailText(tail) == TailText(tail);
    if tail.Dangling? { assert !ClosesAtEnd(BACKSLASH, 1); }
  }

  /** Which strings with a quote in front can stand for atoms and for types in a printed tree: just the
      literals that close at their end. */
  lemma LiteralsAreAtoms(units: seq<Unit>, tail: Tail)
    requires Proper(units)
    ensures IsAtom(LiteralText(units, tail) + RestText(tail)) <==> tail == Ended("")
  {
    hide Spell, ClosesAtEnd, LiteralText, RestText, TailText;
    var s := Spell(units) + TailText(tail);
    LiteralAndRest(units, tail);
    SpelledCloses(units, tail);
    ClosesAtEndMoves(QUOTE, s, 0);
  }

  /** Any string, quoted, can. */
  lemma QuotedIsAtom(u: string)
    ensures IsAtom(Quoted(u))
  {
    var units := EscapedIsSpelled(u);
    LiteralsAreAtoms(units, Ended(""));
    assert LiteralText(units, Ended("")) + "" == Quoted(u);
  }

  // ----- words

  /** The visible characters of ASCII but parentheses. */
  predicate InWord(c: char) {
    '!' <= c <= '~' && c != '(' && c != ')'
  }

  predicate Blank(c: char) {
    c == ' ' || c == '\t' || c == '\n' || c == '\r'
  }

  /** A word of visible characters that does not begin with a quote is one atom, which ends before the
      next blank or parenthesis. */
  lemma WordIsOneAtom(word: string, rest: string)
    requires word != "" && word[0] != '"' && forall c <- word :: InWord(c)
    requires rest == "" || Blank(rest[0]) || rest[0] == '(' || rest[0] == ')'
    ensures IsAtom(word) && Read(word + rest) == [Lexeme(ATOM, word)] + Read(rest)
  {
    forall i | 0 <= i < |word| ensures !Ends(word[i]) { assert word[i] in word; }
    ReadAtom(word, rest);
  }

  /** Blanks are passed over. */
  lemma BlankIsSkipped(c: char, rest: string)
    requires Blank(c)
    ensures Read([c] + rest) == Read(rest)
  {
    ReadPiece([c], rest);
  }

  /** A quote that a backslash hides does not end its literal. */
  lemma HiddenQuote()
    ensures var literal := ['"', 'x', '\\', '"', 'y', '"'];
      Read("(a " + literal + ")") == [OPEN, Lexeme(ATOM, "a"), Lexeme(ATOM, literal), CLOSE]
  {
    hide Read, Escaped;
    var literal := ['"', 'x', '\\', '"', 'y', '"'];
    EscapedQuote();
    QuotedIsOneAtom(['x', '"', 'y'], ")" + "");
    ReadParenthesis("");
    ReadEmpty();
    var tail := literal + (")" + "");
    ReadParenthesis(tail);
    assert (" " + tail)[0] == ' ' && "a"[0] == 'a';
    WordIsOneAtom("a", " " + tail);
    ReadParenthesis("a" + (" " + tail));
    assert "(a " + literal + ")" == "(" + ("a" + (" " + tail));
  }

  lemma EscapedQuote()
    ensures Quoted(['x', '"', 'y']) == ['"', 'x', '\\', '"', 'y', '"']
  {
    var u := ['x', '"', 'y'];
    assert u[1..] == ['"', 'y'] && u[1..][1..] == ['y'] && u[1..][1..][1..] == "";
    assert Escaped(u[1..][1..]) == ['y'] && Escaped(u[1..]) == ['\\', '"', 'y'];
  }
}
