/** Printing an expression with as few parentheses as its meaning allows, which parsing undoes. */
module ParserPrinter {
  import opened Sequences
  import opened Ast
  import opened Parser
  import opened ParserGrammar

  function Level(e: Expr): (n: nat)
    ensures n <= 4
  {
    if e.Binary? && OpLevel(e.token.kind).Some? then OpLevel(e.token.kind).value else 4
  }

  /** An expression the parser can produce. */
  ghost predicate Printable(e: Expr)
    decreases e, 1
  {
    match e
    case Literal(t) => IsLeaf(t.kind)
    case Call(t, args) => t.kind.IDENTIFIER? && PrintableArgs(args)
    case Binary(t, l, r) => OpLevel(t.kind).Some? && Printable(l) && Printable(r)
  }

  ghost predicate PrintableArgs(args: seq<Expr>)
    decreases args, 0
  {
    args != [] ==> Printable(args[0]) && PrintableArgs(args[1..])
  }

  /** The text with the fewest parentheses: only operands that bind too loosely get them. */
  function Minimal(e: Expr, level: nat): (s: Syntax)
    decreases e, 1
  {
    if Level(e) < level then Group(Bare(e)) else Bare(e)
  }

  function Bare(e: Expr): (s: Syntax)
    decreases e, 0
  {
    match e
    case Literal(t) => Atom(t)
    case Call(t, args) => App(t, MinimalArgs(args))
    case Binary(t, l, r) => Op(t, Minimal(l, Level(e)), Minimal(r, Level(e) + 1))
  }

  function MinimalArgs(args: seq<Expr>): (r: seq<Syntax>)
    ensures |r| == |args|
    decreases args
  {
    if args == [] then [] else [Minimal(args[0], 0)] + MinimalArgs(args[1..])
  }

  lemma {:induction false} MinimalFits(e: Expr, level: nat)
    requires Printable(e) && level <= 4
    ensures Fits(Minimal(e, level), level) && Tree(Minimal(e, level)) == e
    ensures IsText(Minimal(e, level), level)
    decreases e, 1
  {
    BareFits(e);
    FitsLower(Bare(e), Level(e), if level <= Level(e) then level else 0);
    FitsIff(Minimal(e, level), level);
  }

  lemma {:induction false} BareFits(e: Expr)
    requires Printable(e)
    ensures Fits(Bare(e), Level(e)) && Tree(Bare(e)) == e
    decreases e, 0
  {
    match e
    case Literal(t) =>
    case Call(t, args) => MinimalArgsFit(args);
    case Binary(t, l, r) =>
      MinimalFits(l, Level(e));
      MinimalFits(r, Level(e) + 1);
  }

  lemma {:induction false} MinimalArgsFit(args: seq<Expr>)
    requires PrintableArgs(args)
    ensures FitArgs(MinimalArgs(args))
    ensures Trees(MinimalArgs(args)) == args
    decreases args
  {
    if args != [] {
      MinimalFits(args[0], 0);
      MinimalArgsFit(args[1..]);
      assert MinimalArgs(args)[1..] == MinimalArgs(args[1..]);
      assert args == [args[0]] + args[1..];
    }
  }

  const OPEN := Token(LEFT_PAREN, "(", 0, 0)
  const CLOSE := Token(RIGHT_PAREN, ")", 0, 0)
  const SEPARATOR := Token(COMMA, ",", 0, 0)

  /** The tokens of a text. */
  function Print(s: Syntax): (r: seq<Token>)
    ensures |r| == Len(s)
    decreases s, 1
  {
    match s
    case Atom(t) => [t]
    case App(t, args) => [t] + ([OPEN] + PrintArgs(args)) + [CLOSE]
    case Op(t, l, r) => Print(l) + [t] + Print(r)
    case Group(inner) => [OPEN] + Print(inner) + [CLOSE]
  }

  function PrintArgs(args: seq<Syntax>): (r: seq<Token>)
    ensures |r| == ArgsLen(args)
    decreases args, 0
  {
    if args == [] then []
    else if |args| == 1 then Print(args[0])
    else Print(args[0]) + [SEPARATOR] + PrintArgs(args[1..])
  }

  /** The part stands at cur, in a list that goes on after it. */
  predicate Holds(ts: seq<Token>, cur: nat, part: seq<Token>) {
    cur + |part| < |ts| && Here(ts, cur, part)
  }

  lemma {:induction false} HoldsParts(ts: seq<Token>, cur: nat, a: seq<Token>, b: seq<Token>)
    requires Holds(ts, cur, a + b)
    ensures Holds(ts, cur, a) && Holds(ts, cur + |a|, b)
  {
    HereParts(ts, cur, a, b);
  }

  /** A text on both sides of a single token. */
  lemma {:induction false} HoldsAround(ts: seq<Token>, cur: nat, a: seq<Token>, t: Token, b: seq<Token>)
    requires Holds(ts, cur, a + [t] + b)
    ensures Holds(ts, cur, a) && ts[cur + |a|] == t && Holds(ts, cur + |a| + 1, b)
  {
    HoldsParts(ts, cur, a + [t], b);
    HoldsParts(ts, cur, a, [t]);
    HereAt(ts, cur + |a|, [t], 0);
  }

  /** A text between two tokens. */
  lemma {:induction false} HoldsWithin(ts: seq<Token>, cur: nat, t: Token, a: seq<Token>, u: Token)
    requires Holds(ts, cur, [t] + a + [u])
    ensures ts[cur] == t && Holds(ts, cur + 1, a) && ts[cur + 1 + |a|] == u
  {
    HoldsParts(ts, cur, [t] + a, [u]);
    HoldsParts(ts, cur, [t], a);
    HereAt(ts, cur, [t], 0);
    HereAt(ts, cur + 1 + |a|, [u], 0);
  }

  lemma {:induction false} PrintReads(ts: seq<Token>, cur: nat, s: Syntax)
    requires Holds(ts, cur, Print(s))
    ensures Reads(ts, cur, s)
    decreases s, 3
  {
    match s
    case Atom(t) => HereAt(ts, cur, [t], 0);
    case App(t, args) => PrintAppReads(ts, cur, t, args);
    case Op(t, l, r) => PrintOpReads(ts, cur, t, l, r);
    case Group(inner) =>
      HoldsWithin(ts, cur, OPEN, Print(inner), CLOSE);
      PrintReads(ts, cur + 1, inner);
  }

  lemma {:induction false} PrintOpReads(ts: seq<Token>, cur: nat, t: Token, l: Syntax, r: Syntax)
    requires Holds(ts, cur, Print(l) + [t] + Print(r))
    ensures Reads(ts, cur, Op(t, l, r))
    decreases Op(t, l, r), 2
  {
    HoldsAround(ts, cur, Print(l), t, Print(r));
    PrintReads(ts, cur, l);
    PrintReads(ts, cur + Len(l) + 1, r);
  }

  lemma {:induction false} PrintAppReads(ts: seq<Token>, cur: nat, t: Token, args: seq<Syntax>)
    requires Holds(ts, cur, [t] + ([OPEN] + PrintArgs(args)) + [CLOSE])
    ensures Reads(ts, cur, App(t, args))
    decreases App(t, args), 2
  {
    HoldsWithin(ts, cur, t, [OPEN] + PrintArgs(args), CLOSE);
    HoldsParts(ts, cur + 1, [OPEN], PrintArgs(args));
    HereAt(ts, cur + 1, [OPEN], 0);
    PrintArgsReads(ts, cur + 2, args);
  }

  lemma {:induction false} PrintArgsReads(ts: seq<Token>, cur: nat, args: seq<Syntax>)
    requires Holds(ts, cur, PrintArgs(args))
    ensures ReadsArgs(ts, cur, args)
    decreases args, 0
  {
    if args != [] {
      var first, more := args[0], args[1..];
      if more != [] { HoldsAround(ts, cur, Print(first), SEPARATOR, PrintArgs(more)); }
      PrintReads(ts, cur, first);
      if more != [] { PrintArgsReads(ts, cur + Len(first) + 1, more); }
    }
  }

  lemma {:induction false} TextParses(ts: seq<Token>, cur: nat, s: Syntax, depth: nat, nodes: nat)
    requires Fits(s, 0) && Terminated(ts) && Reads(ts, cur, s) && Stops(ts, cur + Len(s), s, 0)
    ensures ParseExpr(ts, cur, depth, nodes) ==
            Outcome(depth + 6 * (Nesting(s) + 1) <= MAX_DEPTH && nodes + Size(Tree(s)) <= MAX_NODES,
                    Tree(s), cur + Len(s), nodes + Size(Tree(s)))
  {
    CostIsSize(s);
    ExprParses(ts, s, cur, depth, nodes);
  }

  /** Any text of the grammar, with superfluous parentheses or without, is parsed to its tree. */
  lemma {:induction false} PrintedParses(s: Syntax, ts: seq<Token>, cur: nat, depth: nat, nodes: nat)
    requires Fits(s, 0) && Terminated(ts) && Holds(ts, cur, Print(s)) && Stops(ts, cur + Len(s), s, 0)
    ensures ParseExpr(ts, cur, depth, nodes) ==
            Outcome(depth + 6 * (Nesting(s) + 1) <= MAX_DEPTH && nodes + Size(Tree(s)) <= MAX_NODES,
                    Tree(s), cur + Len(s), nodes + Size(Tree(s)))
  {
    PrintReads(ts, cur, s);
    TextParses(ts, cur, s, depth, nodes);
  }

  /** Parsing undoes printing: for every expression and whatever follows it, parsing its minimally
      parenthesised text returns it and stops at its end, if and only if the two limits allow. */
  lemma {:induction false} ParseUndoesPrint(e: Expr, ts: seq<Token>, cur: nat, depth: nat, nodes: nat)
    requires Printable(e) && Terminated(ts)
    requires Holds(ts, cur, Print(Minimal(e, 0))) && Stops(ts, cur + Len(Minimal(e, 0)), Minimal(e, 0), 0)
    ensures ParseExpr(ts, cur, depth, nodes) ==
            Outcome(depth + 6 * (Nesting(Minimal(e, 0)) + 1) <= MAX_DEPTH && nodes + Size(e) <= MAX_NODES,
                    e, cur + Len(Minimal(e, 0)), nodes + Size(e))
  {
    MinimalFits(e, 0);
    PrintedParses(Minimal(e, 0), ts, cur, depth, nodes);
  }
}
