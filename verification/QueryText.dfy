/** Lexer and parser together undo the printing of an expression as text. */
module QueryText {
  import opened Wrappers
  import opened Sequences
  import opened Ast
  import opened Lexer
  import opened LexerPrinter
  import opened Parser
  import opened ParserGrammar
  import opened ParserPrinter

  // ---- Forgetting positions ----

  function Unplaced(t: Token): Token {
    Token(t.kind, t.value, 0, 0)
  }

  function UnplacedExpr(e: Expr): Expr
    decreases e, 1
  {
    match e
    case Literal(t) => Literal(Unplaced(t))
    case Call(t, args) => Call(Unplaced(t), UnplacedExprs(args))
    case Binary(t, l, r) => Binary(Unplaced(t), UnplacedExpr(l), UnplacedExpr(r))
  }

  function UnplacedExprs(args: seq<Expr>): seq<Expr>
    decreases args, 0
  {
    if args == [] then [] else [UnplacedExpr(args[0])] + UnplacedExprs(args[1..])
  }

  function UnplacedResult(r: Result<Parsed<Expr>>): Result<Parsed<Expr>> {
    match r
    case Ok(p) => Ok(Parsed(UnplacedExpr(p.value), p.cur, p.nodes))
    case Err(e) => Err(e)
  }

  function UnplacedResults(r: Result<Parsed<seq<Expr>>>): Result<Parsed<seq<Expr>>> {
    match r
    case Ok(p) => Ok(Parsed(UnplacedExprs(p.value), p.cur, p.nodes))
    case Err(e) => Err(e)
  }

  /** us is ts without positions. */
  ghost predicate Forgets(us: seq<Token>, ts: seq<Token>) {
    |us| == |ts| && forall i :: 0 <= i < |ts| ==> us[i] == Unplaced(ts[i])
  }

  lemma ForgetsTerminated(us: seq<Token>, ts: seq<Token>)
    requires Forgets(us, ts)
    ensures Terminated(us) <==> Terminated(ts)
  {}

  // ---- The parser never looks at positions ----

  lemma {:induction false} ExprForgets(us: seq<Token>, ts: seq<Token>, cur: nat, depth: nat, nodes: nat)
    requires Terminated(us) && Terminated(ts) && Forgets(us, ts) && cur < |ts|
    ensures ParseExpr(us, cur, depth, nodes) == UnplacedResult(ParseExpr(ts, cur, depth, nodes))
    decreases |ts| - cur, 12
  {
    if depth + 1 <= MAX_DEPTH { LevelForgets(us, ts, 0, cur, depth + 1, nodes); }
  }

  lemma {:induction false} LevelForgets(us: seq<Token>, ts: seq<Token>, level: nat, cur: nat, depth: nat, nodes: nat)
    requires Terminated(us) && Terminated(ts) && Forgets(us, ts) && cur < |ts| && level <= 4
    ensures ParseLevel(us, level, cur, depth, nodes) == UnplacedResult(ParseLevel(ts, level, cur, depth, nodes))
    decreases |ts| - cur, 11 - 2 * level
  {
    if depth + 1 <= MAX_DEPTH {
      if level == 4 {
        PrimaryForgets(us, ts, cur, depth + 1, nodes);
      } else {
        LevelForgets(us, ts, level + 1, cur, depth + 1, nodes);
        var first := ParseLevel(ts, level + 1, cur, depth + 1, nodes);
        if first.Ok? { RestForgets(us, ts, level, first.value.value, first.value.cur, depth + 1, first.value.nodes); }
      }
    }
  }

  lemma {:induction false} RestForgets(us: seq<Token>, ts: seq<Token>, level: nat, left: Expr, cur: nat, depth: nat,
                                       nodes: nat)
    requires Terminated(us) && Terminated(ts) && Forgets(us, ts) && cur < |ts| && level < 4
    ensures ParseRest(us, level, UnplacedExpr(left), cur, depth, nodes) ==
            UnplacedResult(ParseRest(ts, level, left, cur, depth, nodes))
    decreases |ts| - cur, 0
  {
    assert us[cur] == Unplaced(ts[cur]);
    if IsOp(ts[cur], level) {
      LevelForgets(us, ts, level + 1, cur + 1, depth, nodes);
      var right := ParseLevel(ts, level + 1, cur + 1, depth, nodes);
      OneTurn(us, level, UnplacedExpr(left), cur, depth, nodes, UnplacedResult(right));
      OneTurn(ts, level, left, cur, depth, nodes, right);
      if right.Ok? && TrackNode(right.value.nodes).Ok? {
        var p := right.value;
        RestForgets(us, ts, level, Binary(ts[cur], left, p.value), p.cur, depth, p.nodes + 1);
      }
    }
  }

  /** The loop of a level, one turn further. */
  lemma OneTurn(ts: seq<Token>, level: nat, left: Expr, cur: nat, depth: nat, nodes: nat, right: Result<Parsed<Expr>>)
    requires Terminated(ts) && cur + 1 < |ts| && level < 4 && IsOp(ts[cur], level)
    requires right == ParseLevel(ts, level + 1, cur + 1, depth, nodes)
    ensures right.Err? ==> ParseRest(ts, level, left, cur, depth, nodes) == right
    ensures right.Ok? && TrackNode(right.value.nodes).Err? ==>
              ParseRest(ts, level, left, cur, depth, nodes) == Err(SecurityError)
    ensures right.Ok? && TrackNode(right.value.nodes).Ok? ==>
              ParseRest(ts, level, left, cur, depth, nodes) ==
              ParseRest(ts, level, Binary(ts[cur], left, right.value.value),
                        right.value.cur, depth, right.value.nodes + 1)
  {}

  lemma {:induction false} PrimaryForgets(us: seq<Token>, ts: seq<Token>, cur: nat, depth: nat, nodes: nat)
    requires Terminated(us) && Terminated(ts) && Forgets(us, ts) && cur < |ts|
    ensures ParsePrimary(us, cur, depth, nodes) == UnplacedResult(ParsePrimary(ts, cur, depth, nodes))
    decreases |ts| - cur, 2
  {
    assert us[cur] == Unplaced(ts[cur]);
    if ts[cur].kind.IDENTIFIER? && ts[cur + 1].kind.LEFT_PAREN? {
      CallForgets(us, ts, cur, depth, nodes);
    } else if !IsLeaf(ts[cur].kind) && ts[cur].kind.LEFT_PAREN? {
      ExprForgets(us, ts, cur + 1, depth, nodes);
    }
  }

  lemma {:induction false} CallForgets(us: seq<Token>, ts: seq<Token>, cur: nat, depth: nat, nodes: nat)
    requires Terminated(us) && Terminated(ts) && Forgets(us, ts) && cur < |ts|
    requires ts[cur].kind.IDENTIFIER? && ts[cur + 1].kind.LEFT_PAREN?
    ensures ParsePrimary(us, cur, depth, nodes) == UnplacedResult(ParsePrimary(ts, cur, depth, nodes))
    decreases |ts| - cur, 1
  {
    assert us[cur] == Unplaced(ts[cur]) && us[cur + 1].kind.LEFT_PAREN? && us[cur + 2].kind == ts[cur + 2].kind;
    if ts[cur + 2].kind.RIGHT_PAREN? {
      assert UnplacedExprs([]) == [];
    } else {
      ArgsForget(us, ts, cur + 2, depth, nodes);
      var args := ParseArgs(ts, cur + 2, depth, nodes);
      if args.Ok? { assert us[args.value.cur].kind == ts[args.value.cur].kind; }
    }
  }

  lemma {:induction false} ArgsForget(us: seq<Token>, ts: seq<Token>, cur: nat, depth: nat, nodes: nat)
    requires Terminated(us) && Terminated(ts) && Forgets(us, ts) && cur < |ts|
    ensures ParseArgs(us, cur, depth, nodes) == UnplacedResults(ParseArgs(ts, cur, depth, nodes))
    decreases |ts| - cur, 13
  {
    ExprForgets(us, ts, cur, depth, nodes);
    var first := ParseExpr(ts, cur, depth, nodes);
    if first.Ok? {
      var p := first.value;
      assert us[p.cur].kind == ts[p.cur].kind;
      UnplacedOne(p.value);
      if ts[p.cur].kind.COMMA? {
        ArgsForget(us, ts, p.cur + 1, depth, p.nodes);
        var rest := ParseArgs(ts, p.cur + 1, depth, p.nodes);
        if rest.Ok? { UnplacedCons(p.value, rest.value.value); }
      }
    }
  }

  lemma {:induction false} UnplacedOne(e: Expr)
    ensures UnplacedExprs([e]) == [UnplacedExpr(e)]
  {
    assert [e][1..] == [] && UnplacedExprs([e][1..]) == [];
  }

  lemma {:induction false} UnplacedCons(e: Expr, rest: seq<Expr>)
    ensures UnplacedExprs([e] + rest) == [UnplacedExpr(e)] + UnplacedExprs(rest)
  {
    assert ([e] + rest)[1..] == rest;
  }

  // ---- Printing uses the expression's own tokens ----

  /** Every token of the expression is one the lexer can return. */
  predicate LexableExpr(e: Expr)
    decreases e, 1
  {
    match e
    case Literal(t) => Lexable(t)
    case Call(t, args) => Lexable(t) && LexableExprs(args)
    case Binary(t, l, r) => Lexable(t) && LexableExpr(l) && LexableExpr(r)
  }

  predicate LexableExprs(args: seq<Expr>)
    decreases args, 0
  {
    args == [] || (LexableExpr(args[0]) && LexableExprs(args[1..]))
  }

  lemma {:induction false} LexableParts(a: seq<Token>, b: seq<Token>)
    ensures AllLexable(a + b) <==> AllLexable(a) && AllLexable(b)
    decreases |a|
  {
    if a == [] {
      assert a + b == b;
    } else {
      assert (a + b)[1..] == a[1..] + b;
      LexableParts(a[1..], b);
    }
  }

  lemma {:induction false} PunctuationIsLexable()
    ensures AllLexable([OPEN]) && AllLexable([CLOSE]) && AllLexable([SEPARATOR])
  {
    assert [OPEN][1..] == [] && [CLOSE][1..] == [] && [SEPARATOR][1..] == [];
  }

  lemma {:induction false} MinimalIsLexable(e: Expr, level: nat)
    requires LexableExpr(e)
    ensures AllLexable(Print(Minimal(e, level)))
    decreases e, 1
  {
    BareIsLexable(e);
    if Level(e) < level {
      PunctuationIsLexable();
      LexableParts([OPEN], Print(Bare(e)));
      LexableParts([OPEN] + Print(Bare(e)), [CLOSE]);
    }
  }

  lemma {:induction false} BareIsLexable(e: Expr)
    requires LexableExpr(e)
    ensures AllLexable(Print(Bare(e)))
    decreases e, 0
  {
    assert e.token in [e.token] && [e.token][1..] == [];
    match e
    case Literal(t) =>
    case Call(t, args) =>
      var inner := PrintArgs(MinimalArgs(args));
      MinimalArgsAreLexable(args);
      PunctuationIsLexable();
      LexableParts([OPEN], inner);
      LexableParts([t], [OPEN] + inner);
      LexableParts([t] + ([OPEN] + inner), [CLOSE]);
    case Binary(t, l, r) =>
      var left, right := Print(Minimal(l, Level(e))), Print(Minimal(r, Level(e) + 1));
      MinimalIsLexable(l, Level(e));
      MinimalIsLexable(r, Level(e) + 1);
      LexableParts(left, [t]);
      LexableParts(left + [t], right);
  }

  lemma {:induction false} MinimalArgsAreLexable(args: seq<Expr>)
    requires LexableExprs(args)
    ensures AllLexable(PrintArgs(MinimalArgs(args)))
    decreases args
  {
    if args != [] {
      MinimalIsLexable(args[0], 0);
      var first := Print(Minimal(args[0], 0));
      assert MinimalArgs(args)[1..] == MinimalArgs(args[1..]);
      if |args| > 1 {
        MinimalArgsAreLexable(args[1..]);
        PunctuationIsLexable();
        LexableParts(first, [SEPARATOR]);
        LexableParts(first + [SEPARATOR], PrintArgs(MinimalArgs(args[1..])));
      }
    }
  }

  // ---- The result ----

  function TextOf(e: Expr): string {
    PrintTokens(Print(Minimal(e, 0)))
  }

  predicate WithinParserLimits(e: Expr) {
    6 * (Nesting(Minimal(e, 0)) + 1) <= MAX_DEPTH && Size(e) <= MAX_NODES
  }

  function UnplacedTokens(ts: seq<Token>): (us: seq<Token>)
    ensures Forgets(us, ts)
  {
    if ts == [] then [] else [Unplaced(ts[0])] + UnplacedTokens(ts[1..])
  }

  lemma {:induction false} NoneIsEnd(ts: seq<Token>, i: nat)
    requires AllLexable(ts) && i < |ts|
    ensures !ts[i].kind.END_OF_FILE?
    decreases i
  {
    if i == 0 { LexableIsNoEnd(ts[0]); } else { NoneIsEnd(ts[1..], i - 1); }
  }

  lemma {:induction false} LexedIsTerminated(out: seq<Token>, body: seq<Token>, end: Token)
    requires Same(out, body) && AllLexable(body) && end.kind.END_OF_FILE?
    ensures Terminated(body + [end]) && Terminated(out)
  {
    forall i | 0 <= i < |body| ensures !body[i].kind.END_OF_FILE? { NoneIsEnd(body, i); }
  }

  lemma SameForgets(us: seq<Token>, out: seq<Token>, body: seq<Token>, end: Token)
    requires Same(out, body) && end.kind.END_OF_FILE? && out[|body|].value == end.value && Forgets(us, body + [end])
    ensures Forgets(us, out)
  {}

  /** Lists that differ in positions only parse alike. */
  lemma {:induction false} ParseAlike(us: seq<Token>, ts: seq<Token>, vs: seq<Token>)
    requires Forgets(us, ts) && Forgets(us, vs) && Terminated(ts) && Terminated(vs)
    ensures UnplacedResult(ParseExpr(ts, 0, 0, 0)) == UnplacedResult(ParseExpr(vs, 0, 0, 0))
  {
    ForgetsTerminated(us, ts);
    ExprForgets(us, ts, 0, 0, 0);
    ExprForgets(us, vs, 0, 0, 0);
  }

  lemma EndStops(vs: seq<Token>, k: nat, s: Syntax)
    requires k < |vs| && vs[k].kind.END_OF_FILE?
    ensures Stops(vs, k, s, 0)
  {}

  /** The printed list itself is parsed to the expression, or breaks a limit. */
  lemma {:induction false} MinimalParses(e: Expr, s: Syntax, vs: seq<Token>)
    requires Printable(e) && s == Minimal(e, 0) && Terminated(vs) && |vs| == Len(s) + 1 && Holds(vs, 0, Print(s))
    ensures ParseExpr(vs, 0, 0, 0) == Outcome(WithinParserLimits(e), e, Len(s), Size(e))
  {
    EndStops(vs, Len(s), s);
    ParseUndoesPrint(e, vs, 0, 0, 0);
  }

  lemma {:induction false} FrontHolds(body: seq<Token>, end: Token)
    ensures Holds(body + [end], 0, body)
  {
    HereIntro(body + [end], 0, body, 0);
  }

  /** What reading an expression's text from the start yields: the expression up to the positions of
      its tokens, and the end of the text; or a broken limit. */
  ghost predicate ReadsAs(ts: seq<Token>, e: Expr)
    requires Terminated(ts)
  {
    UnplacedResult(ParseExpr(ts, 0, 0, 0)) == Outcome(WithinParserLimits(e), UnplacedExpr(e), |ts| - 1, Size(e))
  }

  /** The text of every expression, lexed and parsed, gives the expression back, if and only if it
      keeps the limits on text size, nesting and nodes. */
  lemma {:induction false} ReadsBack(e: Expr)
    requires Printable(e) && LexableExpr(e)
    ensures TokensOf(TextOf(e)).Ok? <==> |TextOf(e)| <= MAX_QUERY_SIZE
    ensures TokensOf(TextOf(e)).Ok? ==> Terminated(TokensOf(TextOf(e)).value) && ReadsAs(TokensOf(TextOf(e)).value, e)
  {
    var body := Print(Minimal(e, 0));
    MinimalIsLexable(e, 0);
    LexUndoesPrint(body);
    if TokensOf(TextOf(e)).Ok? { LexedReadsAs(e, body, TokensOf(TextOf(e)).value); }
  }

  lemma {:induction false} LexedReadsAs(e: Expr, body: seq<Token>, out: seq<Token>)
    requires Printable(e) && body == Print(Minimal(e, 0)) && AllLexable(body) && Same(out, body)
    ensures Terminated(out) && ReadsAs(out, e)
  {
    LexedIsTerminated(out, body, out[|body|]);
    var us := UnplacedTokens(body + [out[|body|]]);
    SameForgets(us, out, body, out[|body|]);
    ParseAlike(us, out, body + [out[|body|]]);
    FrontHolds(body, out[|body|]);
    MinimalParses(e, Minimal(e, 0), body + [out[|body|]]);
  }
}
