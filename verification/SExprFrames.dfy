/** What the parser of `electronics/sexpr_parser.py` reports of any sequence of tokens, said by where the
    parentheses and atoms stand, lines included. */
module SExprFrames {
  import opened SExprLexer
  import opened SExprParser

  /** Where the opening parentheses stand that nothing has closed, outermost first. A closing one
      without a partner is ignored. */
  function Opens(tokens: seq<Token>): (opens: seq<nat>)
    ensures forall d | 0 <= d < |opens| :: opens[d] < |tokens| && tokens[opens[d]].kind == LPAREN
    ensures forall c, d | 0 <= c < d < |opens| :: opens[c] < opens[d]
  {
    if tokens == [] then []
    else
      var n := |tokens| - 1;
      var opens := Opens(tokens[..n]);
      match tokens[n].kind
      case LPAREN => opens + [n]
      case RPAREN => if opens == [] then [] else opens[..|opens| - 1]
      case ATOM => opens
  }

  /** The innermost open parenthesis, if there is one. */
  function Innermost(tokens: seq<Token>): (p: Option<nat>)
    ensures p.Some? ==> p.value < |tokens|
  {
    var opens := Opens(tokens);
    if opens == [] then None else Some(opens[|opens| - 1])
  }

  /** The atoms that stand directly behind the parenthesis at `p`, not in a list within its own. */
  function Direct(tokens: seq<Token>, p: nat): seq<string> {
    if tokens == [] then []
    else
      var n := |tokens| - 1;
      Direct(tokens[..n], p)
      + if tokens[n].kind == ATOM && Innermost(tokens[..n]) == Some(p) then [tokens[n].value] else []
  }

  /** The node of the parenthesis at `p`: its first atom is its type, and its line is that of the
      parenthesis. */
  function NodeOf(tokens: seq<Token>, p: nat): Frame
    requires p < |tokens|
  {
    var atoms := Direct(tokens, p);
    if atoms == [] then Frame(None, tokens[p].line, []) else Frame(Some(atoms[0]), tokens[p].line, atoms[1..])
  }

  function OpenNodes(tokens: seq<Token>): (nodes: seq<Frame>)
    ensures |nodes| == |Opens(tokens)|
  {
    seq(|Opens(tokens)|, d requires 0 <= d < |Opens(tokens)| => NodeOf(tokens, Opens(tokens)[d]))
  }

  /** The calls back: a node opens on the line of its type, which is its first atom, and closes on the
      line of its closing parenthesis. */
  function Reports(tokens: seq<Token>): seq<Event> {
    if tokens == [] then []
    else
      var n := |tokens| - 1;
      var p := Innermost(tokens[..n]);
      Reports(tokens[..n])
      + if p == None then []
        else if tokens[n].kind == RPAREN then [Closed(NodeOf(tokens[..n], p.value), tokens[n].line)]
        else if tokens[n].kind == ATOM && Direct(tokens[..n], p.value) == [] then
          [Opened(Frame(Some(tokens[n].value), tokens[p.value].line, []), tokens[n].line)]
        else []
  }

  /** Nothing stands directly behind a parenthesis that is still to come. */
  lemma {:induction false} NoneDirect(tokens: seq<Token>, p: nat)
    requires p >= |tokens|
    ensures Direct(tokens, p) == []
  {
    if tokens != [] { NoneDirect(tokens[..|tokens| - 1], p); }
  }

  lemma OpensAfter(tokens: seq<Token>)
    requires tokens != []
    ensures var n := |tokens| - 1;
      Opens(tokens) == match tokens[n].kind
        case LPAREN => Opens(tokens[..n]) + [n]
        case RPAREN => if Opens(tokens[..n]) == [] then [] else Opens(tokens[..n])[..|Opens(tokens[..n])| - 1]
        case ATOM => Opens(tokens[..n])
  {}

  /** One more token changes at most the innermost node. */
  lemma NodeAfter(tokens: seq<Token>, p: nat)
    requires tokens != [] && p < |tokens| - 1
    ensures var n := |tokens| - 1;
      var before := NodeOf(tokens[..n], p);
      NodeOf(tokens, p)
      == if tokens[n].kind != ATOM || Innermost(tokens[..n]) != Some(p) then before
         else if before.kind == None then before.(kind := Some(tokens[n].value))
         else before.(atoms := before.atoms + [tokens[n].value])
  {
    hide Innermost;
    var n := |tokens| - 1;
    var atoms := Direct(tokens[..n], p);
    if atoms != [] { assert (atoms + [tokens[n].value])[1..] == atoms[1..] + [tokens[n].value]; }
  }

  lemma NodeHasType(tokens: seq<Token>, p: nat)
    requires p < |tokens|
    ensures NodeOf(tokens, p).kind == None <==> Direct(tokens, p) == []
    ensures Direct(tokens, p) == [] ==> NodeOf(tokens, p) == Frame(None, tokens[p].line, [])
  {}

  lemma StackAfter(tokens: seq<Token>, st: State)
    requires tokens != [] && st.stack == OpenNodes(tokens[..|tokens| - 1])
    ensures Feed(st, tokens[|tokens| - 1]).stack == OpenNodes(tokens)
  {
    hide Opens, NodeOf, Direct, Innermost;
    var n := |tokens| - 1;
    var before, opens := Opens(tokens[..n]), Opens(tokens);
    var stack := Feed(st, tokens[n]).stack;
    OpensAfter(tokens);
    InnermostIs(tokens[..n]);
    assert |stack| == |opens|;
    forall d | 0 <= d < |opens| ensures stack[d] == NodeOf(tokens, opens[d]) {
      if d < |before| {
        NodeAfter(tokens, before[d]);
      } else {
        NoneDirect(tokens[..n], n);
        NewNode(tokens);
      }
    }
  }

  lemma InnermostIs(tokens: seq<Token>)
    ensures var opens := Opens(tokens);
      && Innermost(tokens) == (if opens == [] then None else Some(opens[|opens| - 1]))
      && forall d | 0 <= d < |opens| - 1 :: opens[d] != opens[|opens| - 1]
  {}

  lemma NewNode(tokens: seq<Token>)
    requires tokens != [] && tokens[|tokens| - 1].kind == LPAREN
    ensures NodeOf(tokens, |tokens| - 1) == Frame(None, tokens[|tokens| - 1].line, [])
  {
    NoneDirect(tokens[..|tokens| - 1], |tokens| - 1);
  }

  lemma ReportsAfter(tokens: seq<Token>)
    requires tokens != []
    ensures var n := |tokens| - 1;
      var p := Innermost(tokens[..n]);
      Reports(tokens)
      == Reports(tokens[..n])
         + if p == None then []
           else if tokens[n].kind == RPAREN then [Closed(NodeOf(tokens[..n], p.value), tokens[n].line)]
           else if tokens[n].kind == ATOM && Direct(tokens[..n], p.value) == [] then
             [Opened(Frame(Some(tokens[n].value), tokens[p.value].line, []), tokens[n].line)]
           else []
  {}

  lemma TopNode(tokens: seq<Token>)
    ensures var p, nodes := Innermost(tokens), OpenNodes(tokens);
      if p == None then nodes == [] else nodes != [] && nodes[|nodes| - 1] == NodeOf(tokens, p.value)
  {}

  lemma EventsAfter(tokens: seq<Token>, st: State)
    requires tokens != [] && st == State(OpenNodes(tokens[..|tokens| - 1]), Reports(tokens[..|tokens| - 1]))
    ensures Feed(st, tokens[|tokens| - 1]).events == Reports(tokens)
  {
    hide Opens, OpenNodes, NodeOf, Direct, Innermost, Reports;
    var n := |tokens| - 1;
    TopNode(tokens[..n]);
    ReportsAfter(tokens);
    var p := Innermost(tokens[..n]);
    if p.Some? { NodeHasType(tokens[..n], p.value); }
  }

  /** Whatever the tokens, the parser keeps exactly the nodes that are open, each with its line, its
      type and its atoms so far, and has called back for every node that got its type and every one
      that was closed, with its line and that of the token. */
  lemma {:induction false} ParsedAsNested(tokens: seq<Token>)
    ensures FeedAll(State([], []), tokens) == State(OpenNodes(tokens), Reports(tokens))
  {
    hide Feed, Opens, Direct, Innermost;
    if tokens == [] {
      assert Opens([]) == [] by { NothingOpen(); }
    } else {
      var n := |tokens| - 1;
      ParsedAsNested(tokens[..n]);
      StackAfter(tokens, FeedAll(State([], []), tokens[..n]));
      EventsAfter(tokens, FeedAll(State([], []), tokens[..n]));
    }
  }

  lemma NothingOpen()
    ensures Opens([]) == []
  {}
}
