/** The event parser of `electronics/sexpr_parser.py`: it calls back when a node has shown its type, and
    when it closes. */
module SExprParser {
  import opened SExprLexer

  datatype Option<T> = None | Some(value: T)

  datatype Frame = Frame(kind: Option<string>, line: nat, atoms: seq<string>)

  /** The calls of `on_node_open` and `on_node_close`. */
  datatype Event = Opened(frame: Frame, line: nat) | Closed(frame: Frame, line: nat)

  datatype State = State(stack: seq<Frame>, events: seq<Event>)

  /** What the parser does with one token. */
  function Feed(st: State, t: Token): State {
    var n := |st.stack|;
    match t.kind
    case LPAREN => st.(stack := st.stack + [Frame(None, t.line, [])])
    case RPAREN =>
      if n == 0 then st else State(st.stack[..n - 1], st.events + [Closed(st.stack[n - 1], t.line)])
    case ATOM =>
      if n == 0 then st
      else
        var top := st.stack[n - 1];
        if top.kind == None then
          var named := top.(kind := Some(t.value));
          State(st.stack[n - 1 := named], st.events + [Opened(named, t.line)])
        else st.(stack := st.stack[n - 1 := top.(atoms := top.atoms + [t.value])])
  }

  function FeedAll(st: State, tokens: seq<Token>): State {
    if tokens == [] then st else Feed(FeedAll(st, tokens[..|tokens| - 1]), tokens[|tokens| - 1])
  }

  class SExprParser {
    const content: string
    var stack: seq<Frame>
    /** The calls back, in order. */
    var events: seq<Event>

    constructor (content: string)
      ensures this.content == content && stack == [] && events == []
    {
      this.content := content;
      stack, events := [], [];
    }

    method Parse()
      modifies this
      ensures State(stack, events) == FeedAll(old(State(stack, events)), Lex(content, 0, 1))
    {
      var tokens := Tokenize(content);
      for i := 0 to |tokens|
        invariant State(stack, events) == FeedAll(old(State(stack, events)), tokens[..i])
      {
        assert tokens[..i + 1][..i] == tokens[..i];
        var t := tokens[i];
        var last := |stack| - 1;
        if t.kind == LPAREN {
          stack := stack + [Frame(None, t.line, [])];
        } else if t.kind == RPAREN {
          if stack != [] {
            var current := stack[last];
            stack := stack[..last];
            events := events + [Closed(current, t.line)];
          }
        } else if stack != [] {
          var current := stack[last];
          if current.kind == None {
            stack := stack[last := current.(kind := Some(t.value))];
            events := events + [Opened(stack[last], t.line)];
          } else {
            stack := stack[last := current.(atoms := current.atoms + [t.value])];
          }
        }
      }
      assert tokens[..|tokens|] == tokens;
    }
  }

  // ----- any text

  function CountKind(tokens: seq<Token>, kind: Kind): nat {
    if tokens == [] then 0
    else CountKind(tokens[..|tokens| - 1], kind) + if tokens[|tokens| - 1].kind == kind then 1 else 0
  }

  function CountClosed(events: seq<Event>): nat {
    if events == [] then 0 else CountClosed(events[..|events| - 1]) + if events[|events| - 1].Closed? then 1 else 0
  }

  /** Whatever the text, every opening parenthesis has been closed or is still on the stack. */
  lemma {:induction false} OpenedAreClosedOrOpen(tokens: seq<Token>)
    ensures var st := FeedAll(State([], []), tokens);
      CountKind(tokens, LPAREN) == |st.stack| + CountClosed(st.events)
  {
    hide Feed, CountClosed;
    if tokens == [] {
      NoneClosed();
    } else {
      var n := |tokens| - 1;
      OpenedAreClosedOrOpen(tokens[..n]);
      FeedCounts(FeedAll(State([], []), tokens[..n]), tokens[n]);
    }
  }

  lemma NoneClosed()
    ensures CountClosed([]) == 0
  {}

  /** A token opens a node, closes one, or does neither. */
  lemma FeedCounts(before: State, t: Token)
    ensures var after := Feed(before, t);
      |after.stack| + CountClosed(after.events)
      == |before.stack| + CountClosed(before.events) + if t.kind == LPAREN then 1 else 0
  {
    var after := Feed(before, t);
    if after.events != before.events {
      assert after.events[..|after.events| - 1] == before.events;
    }
  }

  // ----- trees

  /** A list with a type, or an atom. */
  datatype Item = Leaf(text: string) | Node(kind: string, items: seq<Item>)

  function Print(item: Item): string {
    match item
    case Leaf(text) => text
    case Node(kind, items) => "(" + kind + PrintAll(items) + ")"
  }

  function PrintAll(items: seq<Item>): string {
    if items == [] then ""
    else
      var n := |items| - 1;
      PrintAll(items[..n]) + " " + Print(items[n])
  }

  /** From `k` on, a string literal that closes at the very end. */
  predicate ClosesAtEnd(s: string, k: nat)
    requires k <= |s|
    decreases |s| - k
  {
    && k < |s|
    && if s[k] == '"' then k + 1 == |s|
       else if Escapes(s, k) then ClosesAtEnd(s, k + 2)
       else ClosesAtEnd(s, k + 1)
  }

  /** A string literal, or a word without blanks and parentheses. */
  predicate IsAtom(s: string) {
    s != [] && if s[0] == '"' then ClosesAtEnd(s, 1) else forall i | 0 <= i < |s| :: !Ends(s[i])
  }

  predicate WellFormed(item: Item) {
    match item
    case Leaf(text) => IsAtom(text)
    case Node(kind, items) => IsAtom(kind) && AllWellFormed(items)
  }

  predicate AllWellFormed(items: seq<Item>) {
    items == [] || (AllWellFormed(items[..|items| - 1]) && WellFormed(items[|items| - 1]))
  }

  // ----- the tokens of a printed tree

  /** A token without its place. */
  datatype Lexeme = Lexeme(kind: Kind, value: string)

  const OPEN := Lexeme(LPAREN, "(")
  const CLOSE := Lexeme(RPAREN, ")")

  function Lexemes(tokens: seq<Token>): (r: seq<Lexeme>)
    ensures |r| == |tokens|
  {
    seq(|tokens|, i requires 0 <= i < |tokens| => Lexeme(tokens[i].kind, tokens[i].value))
  }

  function Read(s: string): seq<Lexeme> {
    Lexemes(Lex(s, 0, 1))
  }

  function ItemLexemes(item: Item): seq<Lexeme> {
    match item
    case Leaf(text) => [Lexeme(ATOM, text)]
    case Node(kind, items) => [OPEN, Lexeme(ATOM, kind)] + AllLexemes(items) + [CLOSE]
  }

  function AllLexemes(items: seq<Item>): seq<Lexeme> {
    if items == [] then [] else AllLexemes(items[..|items| - 1]) + ItemLexemes(items[|items| - 1])
  }

  lemma {:induction false} AtomEndMoves(a: string, s: string, k: nat)
    requires k <= |s|
    ensures AtomEnd(a + s, |a| + k) == |a| + AtomEnd(s, k)
    decreases |s| - k
  {
    if k < |s| && !Ends(s[k]) { AtomEndMoves(a, s, k + 1); }
  }

  lemma {:induction false} QuotedEndMoves(a: string, s: string, k: nat)
    requires k <= |s|
    ensures QuotedEnd(a + s, |a| + k) == |a| + QuotedEnd(s, k)
    decreases |s| - k
  {
    if k < |s| && s[k] != '"' { QuotedEndMoves(a, s, if Escapes(s, k) then k + 2 else k + 1); }
  }

  /** The first piece does not depend on what comes before it. */
  lemma FirstMoves(a: string, s: string, i: nat, line: nat, line2: nat)
    requires i < |s|
    ensures First(a + s, |a| + i, line).end == |a| + First(s, i, line2).end
    ensures Lexemes(First(a + s, |a| + i, line).tokens) == Lexemes(First(s, i, line2).tokens)
  {
    AtomEndMoves(a, s, i);
    QuotedEndMoves(a, s, i + 1);
    var end := First(s, i, line2).end;
    assert (a + s)[|a| + i..|a| + end] == s[i..end];
  }

  lemma LexemesOfSum(a: seq<Token>, b: seq<Token>)
    ensures Lexemes(a + b) == Lexemes(a) + Lexemes(b)
  {}

  /** The tokens of a text are the same wherever it stands. */
  lemma {:induction false} LexMoves(a: string, s: string, i: nat, line: nat, line2: nat)
    requires i <= |s|
    ensures Lexemes(Lex(a + s, |a| + i, line)) == Lexemes(Lex(s, i, line2))
    decreases |s| - i
  {
    if i < |s| {
      var p, q := First(a + s, |a| + i, line), First(s, i, line2);
      FirstMoves(a, s, i, line, line2);
      LexMoves(a, s, q.end, p.line, q.line);
      LexemesOfSum(p.tokens, Lex(a + s, p.end, p.line));
      LexemesOfSum(q.tokens, Lex(s, q.end, q.line));
    }
  }

  /** If the first piece of a text is `a`, the rest is read for itself. */
  lemma ReadPiece(a: string, rest: string)
    requires a != [] && First(a + rest, 0, 1).end == |a|
    ensures Read(a + rest) == Lexemes(First(a + rest, 0, 1).tokens) + Read(rest)
  {
    var p := First(a + rest, 0, 1);
    LexMoves(a, rest, 0, p.line, 1);
    LexemesOfSum(p.tokens, Lex(a + rest, p.end, p.line));
  }

  lemma ReadParenthesis(rest: string)
    ensures Read("(" + rest) == [OPEN] + Read(rest) && Read(")" + rest) == [CLOSE] + Read(rest)
    ensures Read(" " + rest) == Read(rest)
  {
    assert ("(" + rest)[0..1] == "(" && (")" + rest)[0..1] == ")";
    ReadPiece("(", rest);
    ReadPiece(")", rest);
    ReadPiece(" ", rest);
  }

  lemma {:induction false} LiteralEnd(s: string, rest: string, k: nat)
    requires k <= |s| && ClosesAtEnd(s, k)
    ensures QuotedEnd(s + rest, k) == |s|
    decreases |s| - k
  {
    if s[k] != '"' { LiteralEnd(s, rest, if Escapes(s, k) then k + 2 else k + 1); }
  }

  lemma {:induction false} WordEnd(s: string, rest: string, k: nat)
    requires k <= |s| && (forall i | k <= i < |s| :: !Ends(s[i])) && (rest == [] || Ends(rest[0]))
    ensures AtomEnd(s + rest, k) == |s|
    decreases |s| - k
  {
    if k < |s| { WordEnd(s, rest, k + 1); }
  }

  lemma ReadAtom(a: string, rest: string)
    requires IsAtom(a) && (rest == [] || Ends(rest[0]))
    ensures Read(a + rest) == [Lexeme(ATOM, a)] + Read(rest)
  {
    assert (a + rest)[0] == a[0] && (a + rest)[0..|a|] == a;
    if a[0] == '"' {
      LiteralEnd(a, rest, 1);
    } else {
      WordEnd(a, rest, 0);
    }
    ReadPiece(a, rest);
  }

  lemma {:induction false} ReadItem(item: Item, rest: string)
    requires WellFormed(item) && (rest == [] || Ends(rest[0]))
    ensures Read(Print(item) + rest) == ItemLexemes(item) + Read(rest)
    decreases item
  {
    match item
    case Leaf(text) =>
      ReadAtom(text, rest);
    case Node(kind, items) =>
      var tail := ")" + rest;
      var body := PrintAll(items) + tail;
      assert Print(item) + rest == "(" + (kind + body);
      ReadParenthesis(kind + body);
      BodyEnds(items, tail);
      ReadAtom(kind, body);
      ReadAll(items, tail);
      ReadParenthesis(rest);
      Regroup(OPEN, Lexeme(ATOM, kind), AllLexemes(items), CLOSE, Read(rest));
  }

  lemma Regroup<T>(a: T, b: T, c: seq<T>, d: T, e: seq<T>)
    ensures [a] + ([b] + (c + ([d] + e))) == [a, b] + c + [d] + e
  {}

  lemma BodyEnds(items: seq<Item>, tail: string)
    requires tail != [] && Ends(tail[0])
    ensures PrintAll(items) + tail != [] && Ends((PrintAll(items) + tail)[0])
    decreases items
  {
    if items != [] {
      var n := |items| - 1;
      var more := " " + Print(items[n]) + tail;
      assert PrintAll(items) + tail == PrintAll(items[..n]) + more;
      BodyEnds(items[..n], more);
    }
  }

  lemma LastItem(items: seq<Item>, rest: string)
    requires items != []
    ensures var n := |items| - 1;
      && PrintAll(items) + rest == PrintAll(items[..n]) + (" " + (Print(items[n]) + rest))
      && AllLexemes(items) == AllLexemes(items[..n]) + ItemLexemes(items[n])
  {
    hide Print, ItemLexemes;
  }

  lemma NoItems(rest: string)
    ensures PrintAll([]) + rest == rest && AllLexemes([]) == []
  {}

  lemma {:induction false} ReadAll(items: seq<Item>, rest: string)
    requires AllWellFormed(items) && (rest == [] || Ends(rest[0]))
    ensures Read(PrintAll(items) + rest) == AllLexemes(items) + Read(rest)
    decreases items
  {
    hide Read, Lexemes, PrintAll, AllLexemes;
    if items == [] {
      NoItems(rest);
    } else {
      var n := |items| - 1;
      var last := Print(items[n]) + rest;
      LastItem(items, rest);
      ReadAll(items[..n], " " + last);
      ReadParenthesis(last);
      ReadItem(items[n], rest);
    }
  }

  // ----- the events of a printed tree

  /** An event without its lines. */
  datatype Shape = Open(kind: Option<string>, atoms: seq<string>) | Close(kind: Option<string>, atoms: seq<string>)

  function ShapeOf(e: Event): Shape {
    match e
    case Opened(frame, _) => Open(frame.kind, frame.atoms)
    case Closed(frame, _) => Close(frame.kind, frame.atoms)
  }

  function Shapes(events: seq<Event>): (r: seq<Shape>)
    ensures |r| == |events|
  {
    seq(|events|, i requires 0 <= i < |events| => ShapeOf(events[i]))
  }

  /** The atoms among some items. */
  function AtomsOf(items: seq<Item>): seq<string> {
    if items == [] then []
    else
      var last := items[|items| - 1];
      AtomsOf(items[..|items| - 1]) + if last.Leaf? then [last.text] else []
  }

  /** A node opens with its type, then its children come and go, then it closes with its atoms. */
  function EventsOf(item: Item): seq<Shape> {
    match item
    case Leaf(_) => []
    case Node(kind, items) =>
      [Open(Some(kind), [])] + AllEventsOf(items) + [Close(Some(kind), AtomsOf(items))]
  }

  function AllEventsOf(items: seq<Item>): seq<Shape> {
    if items == [] then [] else AllEventsOf(items[..|items| - 1]) + EventsOf(items[|items| - 1])
  }

  lemma {:induction false} FeedSum(st: State, a: seq<Token>, b: seq<Token>)
    ensures FeedAll(st, a + b) == FeedAll(FeedAll(st, a), b)
  {
    if b == [] {
      assert a + b == a;
    } else {
      assert (a + b)[..|a + b| - 1] == a + b[..|b| - 1];
      FeedSum(st, a, b[..|b| - 1]);
    }
  }

  /** The state after some items inside a node: its frame has got their atoms. */
  function WithAtoms(stack: seq<Frame>, atoms: seq<string>): seq<Frame>
    requires stack != []
  {
    var top := stack[|stack| - 1];
    stack[|stack| - 1 := top.(atoms := top.atoms + atoms)]
  }

  /** The tokens of a node: its head, those of its items, and its end. */
  lemma NodeTokens(tokens: seq<Token>, kind: string, items: seq<Item>)
    returns (head: seq<Token>, body: seq<Token>, last: Token)
    requires Lexemes(tokens) == ItemLexemes(Node(kind, items))
    ensures tokens == head + body + [last] && |head| == 2 && Lexemes(body) == AllLexemes(items)
    ensures head[0].kind == LPAREN && head[1].kind == ATOM && head[1].value == kind && last.kind == RPAREN
  {
    var n := |tokens| - 1;
    var all := Lexemes(tokens);
    head, body, last := tokens[..2], tokens[2..n], tokens[n];
    assert all[0] == OPEN && all[1] == Lexeme(ATOM, kind) && all[n] == CLOSE;
    assert all[2..n] == AllLexemes(items) && all[2..n] == Lexemes(body);
  }

  /** `now` is the state `st` after some items inside a node. */
  ghost predicate Fed(st: State, now: State, atoms: seq<string>, shapes: seq<Shape>)
    requires st.stack != []
  {
    now.stack == WithAtoms(st.stack, atoms) && Shapes(now.events) == Shapes(st.events) + shapes
  }

  /** `now` is the state `st` after a whole node. */
  ghost predicate FedNode(st: State, now: State, shapes: seq<Shape>) {
    now.stack == st.stack && Shapes(now.events) == Shapes(st.events) + shapes
  }

  /** Feeding the tokens of a node calls back as it should and leaves the stack alone. */
  lemma {:induction false} FeedNode(st: State, tokens: seq<Token>, item: Item)
    requires item.Node? && Lexemes(tokens) == ItemLexemes(item)
    ensures FedNode(st, FeedAll(st, tokens), EventsOf(item))
    decreases item
  {
    var head, body, last := NodeTokens(tokens, item.kind, item.items);
    FeedSum(st, head + body, [last]);
    FeedSum(st, head, body);
    var named := FeedAll(st, head);
    FeedHead(st, head, item.kind);
    FeedItems(named, body, item.items);
    var full := FeedAll(named, body);
    FeedOne(full, last);
    FeedEnd(st, named, full, last, item.kind, head[0].line, AtomsOf(item.items), AllEventsOf(item.items));
  }

  lemma FeedEnd(st: State, named: State, full: State, last: Token, kind: string, line: nat, atoms: seq<string>,
                shapes: seq<Shape>)
    requires named.stack == st.stack + [Frame(Some(kind), line, [])]
    requires Shapes(named.events) == Shapes(st.events) + [Open(Some(kind), [])]
    requires Fed(named, full, atoms, shapes) && last.kind == RPAREN
    ensures FedNode(st, Feed(full, last), [Open(Some(kind), [])] + shapes + [Close(Some(kind), atoms)])
  {
    assert [] + atoms == atoms;
    assert full.stack == st.stack + [Frame(Some(kind), line, atoms)];
    assert Feed(full, last).stack == st.stack;
    var shape := Close(Some(kind), atoms);
    assert Shapes(Feed(full, last).events) == Shapes(full.events) + [shape];
    var s, open := Shapes(st.events), [Open(Some(kind), [])];
    assert s + open + shapes + [shape] == s + (open + shapes + [shape]);
  }

  lemma FeedOne(st: State, t: Token)
    ensures FeedAll(st, [t]) == Feed(st, t)
  {
    assert [t][..0] == [];
  }

  lemma FeedHead(st: State, head: seq<Token>, kind: string)
    requires |head| == 2 && head[0].kind == LPAREN && head[1].kind == ATOM && head[1].value == kind
    ensures FeedAll(st, head).stack == st.stack + [Frame(Some(kind), head[0].line, [])]
    ensures Shapes(FeedAll(st, head).events) == Shapes(st.events) + [Open(Some(kind), [])]
  {
    assert head[..1] == [head[0]];
    FeedOne(st, head[0]);
  }

  /** The tokens of some items: those of all but the last, and those of the last. */
  lemma ItemTokens(tokens: seq<Token>, items: seq<Item>) returns (a: seq<Token>, b: seq<Token>)
    requires items != [] && Lexemes(tokens) == AllLexemes(items)
    ensures tokens == a + b && Lexemes(a) == AllLexemes(items[..|items| - 1])
    ensures Lexemes(b) == ItemLexemes(items[|items| - 1])
  {
    var k := |AllLexemes(items[..|items| - 1])|;
    a, b := tokens[..k], tokens[k..];
    assert Lexemes(a) == Lexemes(tokens)[..k] && Lexemes(b) == Lexemes(tokens)[k..];
  }

  lemma FeedLeaf(st: State, now: State, atoms: seq<string>, shapes: seq<Shape>, b: seq<Token>, text: string)
    requires st.stack != [] && st.stack[|st.stack| - 1].kind.Some? && Fed(st, now, atoms, shapes)
    requires Lexemes(b) == [Lexeme(ATOM, text)]
    ensures Fed(st, FeedAll(now, b), atoms + [text], shapes + [])
  {
    assert Lexemes(b)[0] == Lexeme(ATOM, text);
    assert b == [b[0]];
    FeedOne(now, b[0]);
    var top := st.stack[|st.stack| - 1];
    assert top.atoms + (atoms + [text]) == top.atoms + atoms + [text];
    assert shapes + [] == shapes;
  }

  lemma FedAfterNode(st: State, now: State, atoms: seq<string>, shapes: seq<Shape>, done: State, more: seq<Shape>)
    requires st.stack != [] && Fed(st, now, atoms, shapes) && FedNode(now, done, more)
    ensures Fed(st, done, atoms + [], shapes + more)
  {
    assert atoms + [] == atoms;
  }

  lemma FedNothing(st: State)
    requires st.stack != []
    ensures Fed(st, st, [], [])
  {
    var top := st.stack[|st.stack| - 1];
    assert top.atoms + [] == top.atoms;
  }

  lemma {:induction false} FeedItems(st: State, tokens: seq<Token>, items: seq<Item>)
    requires st.stack != [] && st.stack[|st.stack| - 1].kind.Some? && Lexemes(tokens) == AllLexemes(items)
    ensures Fed(st, FeedAll(st, tokens), AtomsOf(items), AllEventsOf(items))
    decreases items
  {
    if items == [] {
      FedNothing(st);
    } else {
      var n := |items| - 1;
      var a, b := ItemTokens(tokens, items);
      FeedSum(st, a, b);
      FeedItems(st, a, items[..n]);
      var mid := FeedAll(st, a);
      var atoms, shapes := AtomsOf(items[..n]), AllEventsOf(items[..n]);
      if items[n].Leaf? {
        FeedLeaf(st, mid, atoms, shapes, b, items[n].text);
      } else {
        FeedNode(mid, b, items[n]);
        FedAfterNode(st, mid, atoms, shapes, FeedAll(mid, b), EventsOf(items[n]));
      }
    }
  }

  /** Printing a tree and parsing it calls back once for every node when it opens and when it closes,
      with its type and atoms, children between; and the stack is empty in the end. */
  lemma PrintThenParse(item: Item)
    requires item.Node? && WellFormed(item)
    ensures var st := FeedAll(State([], []), Lex(Print(item), 0, 1));
      st.stack == [] && Shapes(st.events) == EventsOf(item)
  {
    hide Print, Lex, Lexemes, ItemLexemes, EventsOf, FeedAll, WellFormed, Shapes;
    ReadItem(item, "");
    ReadEmpty();
    assert Print(item) + "" == Print(item) && ItemLexemes(item) + [] == ItemLexemes(item);
    FeedNode(State([], []), Lex(Print(item), 0, 1), item);
    NoShapes(EventsOf(item));
  }

  lemma ReadEmpty()
    ensures Read("") == []
  {}

  lemma NoShapes(shapes: seq<Shape>)
    ensures Shapes([]) + shapes == shapes
  {}

  /** The nodes of a tree, children first. */
  function PostOrder(item: Item): seq<Shape> {
    match item
    case Leaf(_) => []
    case Node(kind, items) => AllPostOrder(items) + [Close(Some(kind), AtomsOf(items))]
  }

  function AllPostOrder(items: seq<Item>): seq<Shape> {
    if items == [] then [] else AllPostOrder(items[..|items| - 1]) + PostOrder(items[|items| - 1])
  }

  function Closes(shapes: seq<Shape>): seq<Shape> {
    if shapes == [] then []
    else
      var last := shapes[|shapes| - 1];
      Closes(shapes[..|shapes| - 1]) + if last.Close? then [last] else []
  }

  lemma {:induction false} ClosesOfSum(a: seq<Shape>, b: seq<Shape>)
    ensures Closes(a + b) == Closes(a) + Closes(b)
  {
    if b == [] {
      assert a + b == a;
    } else {
      assert (a + b)[..|a + b| - 1] == a + b[..|b| - 1];
      ClosesOfSum(a, b[..|b| - 1]);
    }
  }

  /** Nodes close in post-order. */
  lemma {:induction false} ClosesInPostOrder(item: Item)
    ensures Closes(EventsOf(item)) == PostOrder(item)
    decreases item
  {
    if item.Node? {
      var open, body := [Open(Some(item.kind), [])], AllEventsOf(item.items);
      var close := [Close(Some(item.kind), AtomsOf(item.items))];
      AllCloseInPostOrder(item.items);
      ClosesOfSum(open + body, close);
      ClosesOfSum(open, body);
      assert open[..0] == [] && close[..0] == [];
    }
  }

  lemma {:induction false} AllCloseInPostOrder(items: seq<Item>)
    ensures Closes(AllEventsOf(items)) == AllPostOrder(items)
    decreases items
  {
    if items != [] {
      var n := |items| - 1;
      AllCloseInPostOrder(items[..n]);
      ClosesInPostOrder(items[n]);
      ClosesOfSum(AllEventsOf(items[..n]), EventsOf(items[n]));
    }
  }
}
