/** What the expression parser accepts: exactly the texts of a precedence grammar, within its two
    limits. */
module ParserGrammar {
  import opened Wrappers
  import opened Ast
  import opened Parser

  // ---- The grammar ----

  /** An expression as written, with its parentheses. */
  datatype Syntax =
    | Atom(token: Token)
    | App(name: Token, args: seq<Syntax>)
    | Op(op: Token, left: Syntax, right: Syntax)
    | Group(inner: Syntax)

  /** The expression it stands for. */
  function Tree(s: Syntax): Expr
    decreases s, 1
  {
    match s
    case Atom(t) => Literal(t)
    case App(t, args) => Call(t, Trees(args))
    case Op(t, l, r) => Binary(t, Tree(l), Tree(r))
    case Group(inner) => Tree(inner)
  }

  function Trees(args: seq<Syntax>): (r: seq<Expr>)
    ensures |r| == |args|
    decreases args, 0
  {
    if args == [] then [] else [Tree(args[0])] + Trees(args[1..])
  }

  /** The number of tokens of its text. */
  function Len(s: Syntax): (n: nat)
    ensures n > 0
    decreases s, 1
  {
    match s
    case Atom(_) => 1
    case App(_, args) => 3 + ArgsLen(args)
    case Op(_, l, r) => Len(l) + 1 + Len(r)
    case Group(inner) => 2 + Len(inner)
  }

  function ArgsLen(args: seq<Syntax>): nat
    decreases args, 0
  {
    if args == [] then 0
    else if |args| == 1 then Len(args[0])
    else Len(args[0]) + 1 + ArgsLen(args[1..])
  }

  predicate Opens(ts: seq<Token>, k: nat) {
    k < |ts| && ts[k].kind.LEFT_PAREN?
  }

  predicate Closes(ts: seq<Token>, k: nat) {
    k < |ts| && ts[k].kind.RIGHT_PAREN?
  }

  predicate Separates(ts: seq<Token>, k: nat) {
    k < |ts| && ts[k].kind.COMMA?
  }

  /** The tokens from cur on are its text, in a list that goes on after it. Positions of
      parentheses and commas do not matter. */
  ghost predicate Reads(ts: seq<Token>, cur: nat, s: Syntax)
    decreases s, 1
  {
    cur + Len(s) < |ts| &&
    match s
    case Atom(t) => ts[cur] == t
    case App(t, args) =>
      && ts[cur] == t && Opens(ts, cur + 1)
      && ReadsArgs(ts, cur + 2, args) && Closes(ts, cur + 2 + ArgsLen(args))
    case Op(t, l, r) =>
      Reads(ts, cur, l) && ts[cur + Len(l)] == t && Reads(ts, cur + Len(l) + 1, r)
    case Group(inner) =>
      Opens(ts, cur) && Reads(ts, cur + 1, inner) && Closes(ts, cur + 1 + Len(inner))
  }

  ghost predicate ReadsArgs(ts: seq<Token>, cur: nat, args: seq<Syntax>)
    decreases args, 0
  {
    args != [] ==>
      && Reads(ts, cur, args[0])
      && (|args| > 1 ==> Separates(ts, cur + Len(args[0])) && ReadsArgs(ts, cur + Len(args[0]) + 1, args[1..]))
  }

  // The four levels of operators, from the loosest to the tightest, each grouping to the left.

  ghost predicate OrText(s: Syntax)
    decreases s, 5
  {
    AndText(s) || (s.Op? && s.op.kind.OR? && OrText(s.left) && AndText(s.right))
  }

  ghost predicate AndText(s: Syntax)
    decreases s, 4
  {
    EqualityText(s) || (s.Op? && s.op.kind.AND? && AndText(s.left) && EqualityText(s.right))
  }

  ghost predicate EqualityText(s: Syntax)
    decreases s, 3
  {
    || ComparisonText(s)
    || (s.Op? && s.op.kind in {EQUALS, NOT_EQUALS, LIKE} && EqualityText(s.left) && ComparisonText(s.right))
  }

  ghost predicate ComparisonText(s: Syntax)
    decreases s, 2
  {
    || OperandText(s)
    || (s.Op? && s.op.kind in {GREATER_THAN, GREATER_EQUALS, LESS_THAN, LESS_EQUALS} &&
        ComparisonText(s.left) && OperandText(s.right))
  }

  /** A name, a number, a string, a call, or anything in parentheses. */
  ghost predicate OperandText(s: Syntax)
    decreases s, 1
  {
    match s
    case Atom(t) => t.kind in {IDENTIFIER, NUMBER, STRING}
    case App(t, args) => t.kind == IDENTIFIER && ArgTexts(args)
    case Op(_, _, _) => false
    case Group(inner) => OrText(inner)
  }

  ghost predicate ArgTexts(args: seq<Syntax>)
    decreases args, 0
  {
    args != [] ==> OrText(args[0]) && ArgTexts(args[1..])
  }

  predicate IsOperator(k: TokenType) {
    k in {OR, AND, EQUALS, NOT_EQUALS, LIKE, GREATER_THAN, GREATER_EQUALS, LESS_THAN, LESS_EQUALS}
  }

  /** The texts of each of the parser's levels. */
  ghost predicate IsText(s: Syntax, level: nat) {
    match level
    case 0 => OrText(s)
    case 1 => AndText(s)
    case 2 => EqualityText(s)
    case 3 => ComparisonText(s)
    case _ => OperandText(s)
  }

  /** May stand where an operand of the given level is expected: operators bind at least as
      tightly, group to the left, and looser ones need parentheses. */
  ghost predicate Fits(s: Syntax, level: nat)
    decreases s, 1
  {
    match s
    case Atom(t) => IsLeaf(t.kind)
    case App(t, args) => t.kind.IDENTIFIER? && FitArgs(args)
    case Op(t, l, r) => OpLevel(t.kind).Some? && level <= OpLevel(t.kind).value &&
                        Fits(l, OpLevel(t.kind).value) && Fits(r, OpLevel(t.kind).value + 1)
    case Group(inner) => Fits(inner, 0)
  }

  ghost predicate FitArgs(args: seq<Syntax>)
    decreases args, 0
  {
    args != [] ==> Fits(args[0], 0) && FitArgs(args[1..])
  }

  /** That is being a text of that level. */
  lemma {:induction false} FitsIff(s: Syntax, level: nat)
    requires level <= 4
    ensures Fits(s, level) <==> IsText(s, level)
    decreases s, 5 - level
  {
    if level < 4 {
      FitsIff(s, level + 1);
      if s.Op? && OpLevel(s.op.kind) == Some(level) {
        FitsIff(s.left, level);
        FitsIff(s.right, level + 1);
      }
    } else if s.App? {
      FitArgsIff(s.args);
    } else if s.Group? {
      FitsIff(s.inner, 0);
    }
  }

  lemma {:induction false} FitArgsIff(args: seq<Syntax>)
    ensures FitArgs(args) <==> ArgTexts(args)
    decreases args, 0
  {
    if args != [] {
      FitsIff(args[0], 0);
      FitArgsIff(args[1..]);
    }
  }

  /** How deep parentheses and argument lists are nested. */
  function Nesting(s: Syntax): nat
    decreases s, 1
  {
    match s
    case Atom(_) => 0
    case App(_, args) => if args == [] then 0 else 1 + ArgsNesting(args)
    case Op(_, l, r) => Max(Nesting(l), Nesting(r))
    case Group(inner) => 1 + Nesting(inner)
  }

  function ArgsNesting(args: seq<Syntax>): nat
    decreases args, 0
  {
    if args == [] then 0 else Max(Nesting(args[0]), ArgsNesting(args[1..]))
  }

  function Max(a: nat, b: nat): nat { if a >= b then a else b }

  /** The nodes of an expression. */
  function Size(e: Expr): (n: nat)
    ensures n > 0
    decreases e, 1
  {
    match e
    case Literal(_) => 1
    case Call(_, args) => 1 + Sizes(args)
    case Binary(_, l, r) => 1 + Size(l) + Size(r)
  }

  function Sizes(args: seq<Expr>): nat
    decreases args, 0
  {
    if args == [] then 0 else Size(args[0]) + Sizes(args[1..])
  }

  /** The nodes of the tree of s. */
  function Cost(s: Syntax): nat
    decreases s, 1
  {
    match s
    case Atom(_) => 1
    case App(_, args) => 1 + ArgsCost(args)
    case Op(_, l, r) => 1 + Cost(l) + Cost(r)
    case Group(inner) => Cost(inner)
  }

  function ArgsCost(args: seq<Syntax>): nat
    decreases args, 0
  {
    if args == [] then 0 else Cost(args[0]) + ArgsCost(args[1..])
  }

  lemma {:induction false} CostIsSize(s: Syntax)
    ensures Cost(s) == Size(Tree(s))
    decreases s, 1
  {
    match s
    case Atom(_) =>
    case App(_, args) => ArgsCostIsSizes(args);
    case Op(_, l, r) => CostIsSize(l); CostIsSize(r);
    case Group(inner) => CostIsSize(inner);
  }

  lemma {:induction false} ArgsCostIsSizes(args: seq<Syntax>)
    ensures ArgsCost(args) == Sizes(Trees(args))
    decreases args, 0
  {
    if args != [] {
      CostIsSize(args[0]);
      ArgsCostIsSizes(args[1..]);
      assert Trees(args)[1..] == Trees(args[1..]);
    }
  }

  lemma {:induction false} OneArg(args: seq<Syntax>)
    requires |args| == 1
    ensures Trees(args) == [Tree(args[0])] && ArgsCost(args) == Cost(args[0]) && ArgsNesting(args) == Nesting(args[0])
  {
    assert args[1..] == [] && Trees(args[1..]) == [] && ArgsCost(args[1..]) == 0;
  }

  // ---- Everything in the grammar is parsed ----

  predicate EndsInName(s: Syntax) {
    match s
    case Atom(t) => t.kind.IDENTIFIER?
    case Op(_, _, r) => EndsInName(r)
    case _ => false
  }

  predicate NoMoreOps(t: Token, level: nat) {
    OpLevel(t.kind).None? || OpLevel(t.kind).value < level
  }

  /** The token at k does not continue s, read at the given level: it is no operator of the level
      or a tighter one, and does not turn a name into a call. */
  predicate Stops(ts: seq<Token>, k: nat, s: Syntax, level: nat)
    requires k < |ts|
  {
    !(EndsInName(s) && ts[k].kind.LEFT_PAREN?) && NoMoreOps(ts[k], level)
  }

  /** The counters suffice for s, read by ParseLevel at a level. */
  predicate Suffices(s: Syntax, level: nat, depth: nat, nodes: nat)
    requires level <= 4
  {
    depth + (5 - level) + 6 * Nesting(s) <= MAX_DEPTH && nodes + Cost(s) <= MAX_NODES
  }

  function Outcome<T>(ok: bool, value: T, cur: nat, nodes: nat): Result<Parsed<T>> {
    if ok then Ok(Parsed(value, cur, nodes)) else Err(SecurityError)
  }

  function LevelOutcome(s: Syntax, level: nat, cur: nat, depth: nat, nodes: nat): Result<Parsed<Expr>>
    requires level <= 4
  {
    Outcome(Suffices(s, level, depth, nodes), Tree(s), cur + Len(s), nodes + Cost(s))
  }

  lemma {:induction false} LevelParses(ts: seq<Token>, s: Syntax, level: nat, cur: nat, depth: nat, nodes: nat)
    requires Terminated(ts) && level <= 4 && Fits(s, level)
    requires Reads(ts, cur, s) && Stops(ts, cur + Len(s), s, level)
    ensures ParseLevel(ts, level, cur, depth, nodes) == LevelOutcome(s, level, cur, depth, nodes)
    decreases s, 12 - 2 * level
  {
    if depth + 1 <= MAX_DEPTH {
      if level == 4 {
        PrimaryParses(ts, s, cur, depth + 1, nodes);
      } else {
        ChainParses(ts, s, level, cur, depth + 1, nodes);
        LoopEnd(ts, level, Tree(s), cur + Len(s), depth + 1, nodes + Cost(s));
      }
    }
  }

  /** The loop of a level is reached at the given position with an expression in hand, or not at
      all because a limit was hit. */
  ghost predicate LoopAt(ts: seq<Token>, level: nat, cur: nat, depth: nat, nodes: nat, ok: bool, e: Expr, at: nat,
                         n: nat)
    requires Terminated(ts) && cur < |ts| && at < |ts| && level < 4
  {
    ParseChain(ts, level, cur, depth, nodes) == if ok then ParseRest(ts, level, e, at, depth, n) else Err(SecurityError)
  }

  lemma LoopEnd(ts: seq<Token>, level: nat, e: Expr, at: nat, depth: nat, n: nat)
    requires Terminated(ts) && at < |ts| && level < 4 && !IsOp(ts[at], level)
    ensures ParseRest(ts, level, e, at, depth, n) == Ok(Parsed(e, at, n))
  {}

  lemma LoopStart(ts: seq<Token>, level: nat, cur: nat, depth: nat, nodes: nat, ok: bool, e: Expr, at: nat, n: nat)
    requires Terminated(ts) && cur < |ts| && at < |ts| && level < 4
    requires ParseLevel(ts, level + 1, cur, depth, nodes) == Outcome(ok, e, at, n)
    ensures LoopAt(ts, level, cur, depth, nodes, ok, e, at, n)
  {}

  /** One turn of the loop, from what its two operands yield. */
  lemma LoopTurn(ts: seq<Token>, level: nat, cur: nat, depth: nat, nodes: nat,
                 leftOk: bool, left: Expr, at: nat, n: nat, rightOk: bool, right: Expr, at': nat, n': nat)
    requires Terminated(ts) && level < 4 && cur < |ts| && at + 1 < |ts| && at' < |ts| && IsOp(ts[at], level)
    requires LoopAt(ts, level, cur, depth, nodes, leftOk, left, at, n)
    requires ParseLevel(ts, level + 1, at + 1, depth, n) == Outcome(rightOk, right, at', n')
    ensures LoopAt(ts, level, cur, depth, nodes, leftOk && rightOk && n' + 1 <= MAX_NODES,
                   Binary(ts[at], left, right), at', n' + 1)
  {}

  /** The counters suffice for an operation exactly when they do for its operands in turn. */
  lemma OpSuffices(s: Syntax, level: nat, depth: nat, nodes: nat)
    requires s.Op? && level < 4 && depth > 0
    ensures var n := nodes + Cost(s.left);
            Suffices(s, level, depth - 1, nodes) <==>
            Suffices(s.left, level, depth - 1, nodes) && Suffices(s.right, level + 1, depth, n) &&
            n + Cost(s.right) + 1 <= MAX_NODES
  {}

  /** After s has been read at its level, the parser is in the loop of that level with s as the
      expression so far. */
  lemma {:induction false} ChainParses(ts: seq<Token>, s: Syntax, level: nat, cur: nat, depth: nat, nodes: nat)
    requires Terminated(ts) && level < 4 && Fits(s, level) && depth > 0
    requires Reads(ts, cur, s) && Stops(ts, cur + Len(s), s, level + 1)
    ensures LoopAt(ts, level, cur, depth, nodes, Suffices(s, level, depth - 1, nodes),
                   Tree(s), cur + Len(s), nodes + Cost(s))
    decreases s, 11 - 2 * level
  {
    if s.Op? && OpLevel(s.op.kind).value == level {
      OpParses(ts, s, level, cur, depth, nodes);
    } else {
      LevelParses(ts, s, level + 1, cur, depth, nodes);
      LoopStart(ts, level, cur, depth, nodes, Suffices(s, level + 1, depth, nodes), Tree(s), cur + Len(s),
                nodes + Cost(s));
    }
  }

  lemma {:induction false} OpParses(ts: seq<Token>, s: Syntax, level: nat, cur: nat, depth: nat, nodes: nat)
    requires Terminated(ts) && level < 4 && Fits(s, level) && depth > 0 && s.Op? && OpLevel(s.op.kind) == Some(level)
    requires Reads(ts, cur, s) && Stops(ts, cur + Len(s), s, level + 1)
    ensures LoopAt(ts, level, cur, depth, nodes, Suffices(s, level, depth - 1, nodes),
                   Tree(s), cur + Len(s), nodes + Cost(s))
    decreases s, 0
  {
    var at, n, end := cur + Len(s.left), nodes + Cost(s.left), cur + Len(s);
    ChainParses(ts, s.left, level, cur, depth, nodes);
    LevelParses(ts, s.right, level + 1, at + 1, depth, n);
    OpSuffices(s, level, depth, nodes);
    LoopTurn(ts, level, cur, depth, nodes, Suffices(s.left, level, depth - 1, nodes), Tree(s.left), at, n,
             Suffices(s.right, level + 1, depth, n), Tree(s.right), end, n + Cost(s.right));
  }

  lemma {:induction false} PrimaryParses(ts: seq<Token>, s: Syntax, cur: nat, depth: nat, nodes: nat)
    requires Terminated(ts) && Fits(s, 4) && 0 < depth <= MAX_DEPTH
    requires Reads(ts, cur, s) && Stops(ts, cur + Len(s), s, 4)
    ensures ParsePrimary(ts, cur, depth, nodes) == LevelOutcome(s, 4, cur, depth - 1, nodes)
    decreases s, 3
  {
    match s
    case Atom(t) =>
    case App(t, args) => AppParses(ts, t, args, cur, depth, nodes);
    case Group(inner) => ExprParses(ts, inner, cur + 1, depth, nodes);
  }

  lemma {:induction false} AppParses(ts: seq<Token>, t: Token, args: seq<Syntax>, cur: nat, depth: nat, nodes: nat)
    requires Terminated(ts) && cur + 3 + ArgsLen(args) < |ts| && ts[cur] == t && t.kind.IDENTIFIER?
    requires Opens(ts, cur + 1)
    requires ReadsArgs(ts, cur + 2, args) && Closes(ts, cur + 2 + ArgsLen(args))
    requires 0 < depth <= MAX_DEPTH && FitArgs(args)
    ensures ParsePrimary(ts, cur, depth, nodes) == LevelOutcome(App(t, args), 4, cur, depth - 1, nodes)
    decreases App(t, args), 0
  {
    if args != [] {
      TextStart(ts, cur + 2, args[0]);
      ArgsParse(ts, args, cur + 2, depth, nodes);
      ArgsLoopOutcome(args, cur + 2, depth, nodes);
    }
    AppSuffices(t, args, depth, nodes);
  }

  lemma AppSuffices(t: Token, args: seq<Syntax>, depth: nat, nodes: nat)
    requires 0 < depth <= MAX_DEPTH
    ensures Cost(App(t, args)) == 1 + ArgsCost(args) && Tree(App(t, args)) == Call(t, Trees(args))
    ensures Len(App(t, args)) == 3 + ArgsLen(args)
    ensures Suffices(App(t, args), 4, depth - 1, nodes) <==>
            (args != [] ==> depth + 6 + 6 * ArgsNesting(args) <= MAX_DEPTH) && nodes + ArgsCost(args) + 1 <= MAX_NODES
  {}

  lemma {:induction false} ExprParses(ts: seq<Token>, s: Syntax, cur: nat, depth: nat, nodes: nat)
    requires Terminated(ts) && Fits(s, 0)
    requires Reads(ts, cur, s) && Stops(ts, cur + Len(s), s, 0)
    ensures ParseExpr(ts, cur, depth, nodes) == LevelOutcome(s, 0, cur, depth + 1, nodes)
    decreases s, 13
  {
    if depth + 1 <= MAX_DEPTH { LevelParses(ts, s, 0, cur, depth + 1, nodes); }
  }

  /** No expression begins with a closing parenthesis. */
  lemma {:induction false} TextStart(ts: seq<Token>, cur: nat, s: Syntax)
    requires Reads(ts, cur, s) && Fits(s, 0)
    ensures IsLeaf(ts[cur].kind) || ts[cur].kind.LEFT_PAREN?
    decreases s
  {
    if s.Op? {
      FitsLower(s.left, OpLevel(s.op.kind).value, 0);
      TextStart(ts, cur, s.left);
    }
  }

  lemma FitsLower(s: Syntax, level: nat, lower: nat)
    requires Fits(s, level) && lower <= level
    ensures Fits(s, lower)
  {}

  function ArgsCons(first: Parsed<Expr>, rest: Result<Parsed<seq<Expr>>>): Result<Parsed<seq<Expr>>> {
    if rest.Err? then Err(rest.error)
    else Ok(Parsed([first.value] + rest.value.value, rest.value.cur, rest.value.nodes))
  }

  /** What the argument loop yields, one argument at a time. */
  function ArgsLoop(args: seq<Syntax>, cur: nat, depth: nat, nodes: nat): Result<Parsed<seq<Expr>>>
    requires args != []
    decreases |args|
  {
    var first := LevelOutcome(args[0], 0, cur, depth + 1, nodes);
    if first.Err? then Err(first.error)
    else if |args| == 1 then Ok(Parsed([first.value.value], first.value.cur, first.value.nodes))
    else ArgsCons(first.value, ArgsLoop(args[1..], first.value.cur + 1, depth, first.value.nodes))
  }

  lemma {:induction false} ArgsParse(ts: seq<Token>, args: seq<Syntax>, cur: nat, depth: nat, nodes: nat)
    requires Terminated(ts) && args != [] && FitArgs(args)
    requires ReadsArgs(ts, cur, args) && Closes(ts, cur + ArgsLen(args))
    ensures ParseArgs(ts, cur, depth, nodes) == ArgsLoop(args, cur, depth, nodes)
    decreases args, 14
  {
    ExprParses(ts, args[0], cur, depth, nodes);
    if |args| > 1 && LevelOutcome(args[0], 0, cur, depth + 1, nodes).Ok? {
      ArgsParse(ts, args[1..], cur + Len(args[0]) + 1, depth, nodes + Cost(args[0]));
    }
  }

  /** In closed form. */
  lemma {:induction false} ArgsLoopOutcome(args: seq<Syntax>, cur: nat, depth: nat, nodes: nat)
    requires args != []
    ensures ArgsLoop(args, cur, depth, nodes) ==
            Outcome(depth + 6 + 6 * ArgsNesting(args) <= MAX_DEPTH && nodes + ArgsCost(args) <= MAX_NODES,
                    Trees(args), cur + ArgsLen(args), nodes + ArgsCost(args))
    decreases |args|
  {
    if |args| == 1 {
      OneArg(args);
    } else {
      ArgsLoopOutcome(args[1..], cur + Len(args[0]) + 1, depth, nodes + Cost(args[0]));
    }
  }

  // ---- Everything parsed is in the grammar ----

  /** s is what was read between two positions, with what it cost. */
  ghost predicate Witness(ts: seq<Token>, s: Syntax, level: nat, cur: nat, depth: nat, nodes: nat, p: Parsed<Expr>)
    requires level <= 4
  {
    && Fits(s, level) && Reads(ts, cur, s)
    && p == Parsed(Tree(s), cur + Len(s), nodes + Cost(s))
    && !(EndsInName(s) && ts[p.cur].kind.LEFT_PAREN?)
    && Suffices(s, level, depth, nodes)
  }

  lemma {:induction false} LevelIsGrammar(ts: seq<Token>, level: nat, cur: nat, depth: nat, nodes: nat, p: Parsed<Expr>)
    returns (s: Syntax)
    requires Terminated(ts) && cur < |ts| && level <= 4
    requires ParseLevel(ts, level, cur, depth, nodes) == Ok(p)
    ensures Witness(ts, s, level, cur, depth, nodes, p)
    ensures NoMoreOps(ts[p.cur], level) || level == 4
    decreases |ts| - cur, 11 - 2 * level
  {
    if level == 4 {
      s := PrimaryIsGrammar(ts, cur, depth + 1, nodes, p);
    } else {
      var first := ParseLevel(ts, level + 1, cur, depth + 1, nodes).value;
      s := LevelIsGrammar(ts, level + 1, cur, depth + 1, nodes, first);
      FitsLower(s, level + 1, level);
      s := RestIsGrammar(ts, level, s, cur, depth + 1, nodes, first, p);
    }
  }

  lemma {:induction false} RestIsGrammar(ts: seq<Token>, level: nat, left: Syntax, start: nat, depth: nat, nodes: nat,
                                         now: Parsed<Expr>, p: Parsed<Expr>) returns (s: Syntax)
    requires Terminated(ts) && level < 4 && depth > 0
    requires Witness(ts, left, level, start, depth - 1, nodes, now)
    requires NoMoreOps(ts[now.cur], level + 1) || level == 3
    requires ParseRest(ts, level, now.value, now.cur, depth, now.nodes) == Ok(p)
    ensures Witness(ts, s, level, start, depth - 1, nodes, p)
    ensures NoMoreOps(ts[p.cur], level)
    decreases |ts| - now.cur, 1
  {
    if !IsOp(ts[now.cur], level) {
      s := left;
    } else {
      var longer, next := TurnIsGrammar(ts, level, left, start, depth, nodes, now, p);
      s := RestIsGrammar(ts, level, longer, start, depth, nodes, next, p);
    }
  }

  /** One turn of the loop extends the text read so far. */
  lemma {:induction false} TurnIsGrammar(ts: seq<Token>, level: nat, left: Syntax, start: nat, depth: nat, nodes: nat,
                                         now: Parsed<Expr>, p: Parsed<Expr>) returns (s: Syntax, next: Parsed<Expr>)
    requires Terminated(ts) && level < 4 && depth > 0
    requires Witness(ts, left, level, start, depth - 1, nodes, now) && IsOp(ts[now.cur], level)
    requires ParseRest(ts, level, now.value, now.cur, depth, now.nodes) == Ok(p)
    ensures Witness(ts, s, level, start, depth - 1, nodes, next) && next.cur > now.cur
    ensures NoMoreOps(ts[next.cur], level + 1) || level == 3
    ensures ParseRest(ts, level, next.value, next.cur, depth, next.nodes) == Ok(p)
    decreases |ts| - now.cur, 0
  {
    var q := RestTurn(ts, level, now, depth, p);
    var right := LevelIsGrammar(ts, level + 1, now.cur + 1, depth, now.nodes, q);
    OneMoreOp(ts, level, left, right, start, depth, nodes, now, q);
    s, next := Op(ts[now.cur], left, right), Parsed(Binary(ts[now.cur], now.value, q.value), q.cur, q.nodes + 1);
  }

  lemma {:induction false} RestTurn(ts: seq<Token>, level: nat, now: Parsed<Expr>, depth: nat, p: Parsed<Expr>)
    returns (q: Parsed<Expr>)
    requires Terminated(ts) && now.cur < |ts| && level < 4 && IsOp(ts[now.cur], level)
    requires ParseRest(ts, level, now.value, now.cur, depth, now.nodes) == Ok(p)
    ensures now.cur + 1 < q.cur < |ts| && q.nodes + 1 <= MAX_NODES
    ensures ParseLevel(ts, level + 1, now.cur + 1, depth, now.nodes) == Ok(q)
    ensures ParseRest(ts, level, Binary(ts[now.cur], now.value, q.value), q.cur, depth, q.nodes + 1) == Ok(p)
  {
    q := ParseLevel(ts, level + 1, now.cur + 1, depth, now.nodes).value;
  }

  lemma {:induction false} OneMoreOp(ts: seq<Token>, level: nat, left: Syntax, right: Syntax, start: nat, depth: nat,
                                     nodes: nat, now: Parsed<Expr>, q: Parsed<Expr>)
    requires level < 4 && depth > 0 && Witness(ts, left, level, start, depth - 1, nodes, now)
    requires IsOp(ts[now.cur], level) && q.nodes + 1 <= MAX_NODES
    requires Witness(ts, right, level + 1, now.cur + 1, depth, now.nodes, q)
    ensures Witness(ts, Op(ts[now.cur], left, right), level, start, depth - 1, nodes,
                    Parsed(Binary(ts[now.cur], now.value, q.value), q.cur, q.nodes + 1))
  {
    OpSuffices(Op(ts[now.cur], left, right), level, depth, nodes);
  }

  lemma {:induction false} PrimaryIsGrammar(ts: seq<Token>, cur: nat, depth: nat, nodes: nat, p: Parsed<Expr>)
    returns (s: Syntax)
    requires Terminated(ts) && cur < |ts| && 0 < depth <= MAX_DEPTH
    requires ParsePrimary(ts, cur, depth, nodes) == Ok(p)
    ensures Witness(ts, s, 4, cur, depth - 1, nodes, p)
    decreases |ts| - cur, 2
  {
    var t := ts[cur];
    if t.kind.IDENTIFIER? && ts[cur + 1].kind.LEFT_PAREN? {
      s := CallIsGrammar(ts, cur, depth, nodes, p);
    } else if IsLeaf(t.kind) {
      s := Atom(t);
    } else {
      var inner := ExprIsGrammar(ts, cur + 1, depth, nodes, p.(cur := p.cur - 1));
      s := Group(inner);
    }
  }

  lemma {:induction false} CallIsGrammar(ts: seq<Token>, cur: nat, depth: nat, nodes: nat, p: Parsed<Expr>)
    returns (s: Syntax)
    requires Terminated(ts) && cur < |ts| && 0 < depth <= MAX_DEPTH
    requires ts[cur].kind.IDENTIFIER? && ts[cur + 1].kind.LEFT_PAREN? && ParsePrimary(ts, cur, depth, nodes) == Ok(p)
    ensures Witness(ts, s, 4, cur, depth - 1, nodes, p)
    decreases |ts| - cur, 1
  {
    var args: seq<Syntax> := [];
    if !ts[cur + 2].kind.RIGHT_PAREN? {
      var list := ParseArgs(ts, cur + 2, depth, nodes).value;
      args := ArgsAreGrammar(ts, cur + 2, depth, nodes, list);
    }
    s := App(ts[cur], args);
    AppSuffices(ts[cur], args, depth, nodes);
  }

  lemma {:induction false} ExprIsGrammar(ts: seq<Token>, cur: nat, depth: nat, nodes: nat, p: Parsed<Expr>)
    returns (s: Syntax)
    requires Terminated(ts) && cur < |ts|
    requires ParseExpr(ts, cur, depth, nodes) == Ok(p)
    ensures Witness(ts, s, 0, cur, depth + 1, nodes, p)
    ensures OpLevel(ts[p.cur].kind).None?
    decreases |ts| - cur, 12
  {
    s := LevelIsGrammar(ts, 0, cur, depth + 1, nodes, p);
  }

  lemma {:induction false} ArgsAreGrammar(ts: seq<Token>, cur: nat, depth: nat, nodes: nat, p: Parsed<seq<Expr>>)
    returns (args: seq<Syntax>)
    requires Terminated(ts) && cur < |ts|
    requires ParseArgs(ts, cur, depth, nodes) == Ok(p)
    ensures args != [] && FitArgs(args) && ReadsArgs(ts, cur, args)
    ensures p == Parsed(Trees(args), cur + ArgsLen(args), nodes + ArgsCost(args))
    ensures depth + 6 + 6 * ArgsNesting(args) <= MAX_DEPTH && nodes + ArgsCost(args) <= MAX_NODES
    decreases |ts| - cur, 13
  {
    var first := ParseExpr(ts, cur, depth, nodes).value;
    var s := ExprIsGrammar(ts, cur, depth, nodes, first);
    if !ts[first.cur].kind.COMMA? {
      args := [s];
      OneArg(args);
    } else {
      var list := ParseArgs(ts, first.cur + 1, depth, first.nodes).value;
      var rest := ArgsAreGrammar(ts, first.cur + 1, depth, first.nodes, list);
      args := [s] + rest;
      assert args[1..] == rest;
    }
  }

  // ---- The main results ----

  /** s is the text of an expression at cur, ends there, and is within the limits: one node per
      node of its tree, and 6 levels of recursion per level of nesting. */
  ghost predicate TextAt(ts: seq<Token>, cur: nat, s: Syntax, depth: nat, nodes: nat) {
    && OrText(s) && Reads(ts, cur, s)
    && !IsOperator(ts[cur + Len(s)].kind) && !(EndsInName(s) && ts[cur + Len(s)].kind.LEFT_PAREN?)
    && depth + 6 * (Nesting(s) + 1) <= 128 && nodes + Size(Tree(s)) <= 50000
  }

  lemma {:induction false} AcceptedIsText(ts: seq<Token>, cur: nat, depth: nat, nodes: nat, p: Parsed<Expr>)
    returns (s: Syntax)
    requires Terminated(ts) && cur < |ts| && p.cur < |ts| && ParseExpr(ts, cur, depth, nodes) == Ok(p)
    ensures TextAt(ts, cur, s, depth, nodes) && p == Parsed(Tree(s), cur + Len(s), nodes + Size(Tree(s)))
  {
    s := ExprIsGrammar(ts, cur, depth, nodes, p);
    CostIsSize(s);
    FitsIff(s, 0);
  }

  lemma {:induction false} TextIsAccepted(ts: seq<Token>, cur: nat, s: Syntax, depth: nat, nodes: nat)
    requires Terminated(ts) && TextAt(ts, cur, s, depth, nodes)
    ensures ParseExpr(ts, cur, depth, nodes) == Ok(Parsed(Tree(s), cur + Len(s), nodes + Size(Tree(s))))
  {
    CostIsSize(s);
    FitsIff(s, 0);
    ExprParses(ts, s, cur, depth, nodes);
  }

  /** ParseExpression succeeds exactly on the texts of the grammar, and returns their trees. */
  lemma {:induction false} AcceptsExactlyGrammar(ts: seq<Token>, cur: nat, depth: nat, nodes: nat, p: Parsed<Expr>)
    requires Terminated(ts) && cur < |ts| && p.cur < |ts|
    ensures ParseExpr(ts, cur, depth, nodes) == Ok(p) <==>
            exists s :: TextAt(ts, cur, s, depth, nodes) && p == Parsed(Tree(s), cur + Len(s), nodes + Size(Tree(s)))
  {
    if ParseExpr(ts, cur, depth, nodes) == Ok(p) {
      var s := AcceptedIsText(ts, cur, depth, nodes, p);
    }
    if s :| TextAt(ts, cur, s, depth, nodes) && p == Parsed(Tree(s), cur + Len(s), nodes + Size(Tree(s))) {
      TextIsAccepted(ts, cur, s, depth, nodes);
    }
  }

  lemma NameIsText(t: Token)
    requires t.kind.IDENTIFIER?
    ensures OperandText(Atom(t)) && ComparisonText(Atom(t)) && EqualityText(Atom(t)) && AndText(Atom(t))
    ensures OrText(Atom(t)) && Len(Atom(t)) == 1 && Nesting(Atom(t)) == 0 && Size(Tree(Atom(t))) == 1
  {}

  /** Without parentheses AND binds tighter than OR, on either side of it. */
  lemma {:induction false} AndBeforeOr(a: Token, and: Token, b: Token, or: Token, c: Token, end: Token)
    requires a.kind.IDENTIFIER? && b.kind.IDENTIFIER? && c.kind.IDENTIFIER?
    requires and.kind.AND? && or.kind.OR? && end.kind.END_OF_FILE?
    ensures ParseExpr([a, or, b, and, c, end], 0, 0, 0) ==
            Ok(Parsed(Binary(or, Literal(a), Binary(and, Literal(b), Literal(c))), 5, 5))
    ensures ParseExpr([a, and, b, or, c, end], 0, 0, 0) ==
            Ok(Parsed(Binary(or, Binary(and, Literal(a), Literal(b)), Literal(c)), 5, 5))
  {
    NameIsText(a);
    NameIsText(b);
    NameIsText(c);
    var bc, ab := Op(and, Atom(b), Atom(c)), Op(and, Atom(a), Atom(b));
    assert AndText(bc) && Len(bc) == 3 && Nesting(bc) == 0 && Size(Tree(bc)) == 3;
    assert AndText(ab) && Len(ab) == 3 && Nesting(ab) == 0 && Size(Tree(ab)) == 3;
    var s, t := Op(or, Atom(a), bc), Op(or, ab, Atom(c));
    var ts, us := [a, or, b, and, c, end], [a, and, b, or, c, end];
    assert Reads(ts, 2, Atom(b)) && Reads(ts, 4, Atom(c)) && Reads(ts, 2, bc) && Reads(ts, 0, Atom(a));
    assert Reads(us, 0, Atom(a)) && Reads(us, 2, Atom(b)) && Reads(us, 0, ab) && Reads(us, 4, Atom(c));
    TextIsAccepted([a, or, b, and, c, end], 0, s, 0, 0);
    TextIsAccepted([a, and, b, or, c, end], 0, t, 0, 0);
  }

  /** Every success counts one node per node of the tree. */
  lemma {:induction false} NodesCounted(ts: seq<Token>, cur: nat, depth: nat, nodes: nat, p: Parsed<Expr>)
    requires Terminated(ts) && cur < |ts| && ParseExpr(ts, cur, depth, nodes) == Ok(p)
    ensures p.nodes == nodes + Size(p.value)
  {
    var s := ExprIsGrammar(ts, cur, depth, nodes, p);
    CostIsSize(s);
  }

  /** From a fresh parser: 20 levels of nesting are accepted and 21 are not. */
  lemma {:induction false} NestingLimit(ts: seq<Token>, s: Syntax)
    requires Terminated(ts) && Fits(s, 0) && Reads(ts, 0, s) && Stops(ts, Len(s), s, 0) && Size(Tree(s)) <= MAX_NODES
    ensures ParseExpr(ts, 0, 0, 0).Ok? <==> Nesting(s) <= 20
    ensures ParseExpr(ts, 0, 0, 0).Err? ==> ParseExpr(ts, 0, 0, 0).error == SecurityError
  {
    CostIsSize(s);
    ExprParses(ts, s, 0, 0, 0);
  }
}
