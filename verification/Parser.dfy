/** The expression parser: recursive descent over a token list, with a recursion counter and a
    node counter. */
module Parser {
  import opened Wrappers
  import opened Ast

  const MAX_DEPTH := 128
  const MAX_NODES := 50000

  /** Binary operators by level: OR, then AND, then equality and LIKE, then comparisons. Any other
      token has no level. */
  function OpLevel(k: TokenType): Option<nat> {
    match k
    case OR => Some(0)
    case AND => Some(1)
    case EQUALS | NOT_EQUALS | LIKE => Some(2)
    case GREATER_THAN | GREATER_EQUALS | LESS_THAN | LESS_EQUALS => Some(3)
    case _ => None
  }

  /** A name, a number or a string. */
  predicate IsLeaf(k: TokenType) {
    k.IDENTIFIER? || k.NUMBER? || k.STRING?
  }

  predicate IsOp(t: Token, level: nat) {
    OpLevel(t.kind) == Some(level)
  }

  /** The parser's position and node counter after a successful parse. */
  datatype Parsed<T> = Parsed(value: T, cur: nat, nodes: nat)

  /** A token list as the lexer makes it: one end marker, at the end. */
  ghost predicate Terminated(ts: seq<Token>) {
    && ts != [] && ts[|ts| - 1].kind.END_OF_FILE?
    && forall k :: 0 <= k < |ts| - 1 ==> !ts[k].kind.END_OF_FILE?
  }

  // ---- The parse as a function of the position and the counters ----

  function TrackNode(nodes: nat): Result<nat> {
    if nodes + 1 > MAX_NODES then Err(SecurityError) else Ok(nodes + 1)
  }

  function ParseExpr(ts: seq<Token>, cur: nat, depth: nat, nodes: nat): (r: Result<Parsed<Expr>>)
    requires Terminated(ts) && cur < |ts|
    ensures r.Ok? ==> cur < r.value.cur < |ts|
    decreases |ts| - cur, 12
  {
    if depth + 1 > MAX_DEPTH then Err(SecurityError) else ParseLevel(ts, 0, cur, depth + 1, nodes)
  }

  /** Level 0 is ParseOr, 1 ParseAnd, 2 ParseEquality, 3 ParseComparison, 4 ParsePrimary. */
  function ParseLevel(ts: seq<Token>, level: nat, cur: nat, depth: nat, nodes: nat): (r: Result<Parsed<Expr>>)
    requires Terminated(ts) && cur < |ts| && level <= 4
    ensures r.Ok? ==> cur < r.value.cur < |ts|
    decreases |ts| - cur, 11 - 2 * level
  {
    if depth + 1 > MAX_DEPTH then Err(SecurityError)
    else if level == 4 then ParsePrimary(ts, cur, depth + 1, nodes)
    else ParseChain(ts, level, cur, depth + 1, nodes)
  }

  /** An operand and the operators of this level that follow it. */
  function ParseChain(ts: seq<Token>, level: nat, cur: nat, depth: nat, nodes: nat): (r: Result<Parsed<Expr>>)
    requires Terminated(ts) && cur < |ts| && level < 4
    ensures r.Ok? ==> cur < r.value.cur < |ts|
    decreases |ts| - cur, 10 - 2 * level
  {
    var first :- ParseLevel(ts, level + 1, cur, depth, nodes);
    ParseRest(ts, level, first.value, first.cur, depth, first.nodes)
  }

  function ParseRest(ts: seq<Token>, level: nat, left: Expr, cur: nat, depth: nat,
                     nodes: nat): (r: Result<Parsed<Expr>>)
    requires Terminated(ts) && cur < |ts| && level < 4
    ensures r.Ok? ==> cur <= r.value.cur < |ts|
    decreases |ts| - cur, 0
  {
    if !IsOp(ts[cur], level) then Ok(Parsed(left, cur, nodes))
    else
      var right :- ParseLevel(ts, level + 1, cur + 1, depth, nodes);
      var nodes' :- TrackNode(right.nodes);
      ParseRest(ts, level, Binary(ts[cur], left, right.value), right.cur, depth, nodes')
  }

  function ParsePrimary(ts: seq<Token>, cur: nat, depth: nat, nodes: nat): (r: Result<Parsed<Expr>>)
    requires Terminated(ts) && cur < |ts|
    ensures r.Ok? ==> cur < r.value.cur < |ts|
    decreases |ts| - cur, 0
  {
    var t := ts[cur];
    if t.kind.IDENTIFIER? && ts[cur + 1].kind.LEFT_PAREN? then
      var args :- if ts[cur + 2].kind.RIGHT_PAREN? then Ok(Parsed([], cur + 2, nodes))
                  else ParseArgs(ts, cur + 2, depth, nodes);
      if !ts[args.cur].kind.RIGHT_PAREN? then Err(ParserError) else
      var nodes' :- TrackNode(args.nodes);
      Ok(Parsed(Call(t, args.value), args.cur + 1, nodes'))
    else if IsLeaf(t.kind) then
      var nodes' :- TrackNode(nodes);
      Ok(Parsed(Literal(t), cur + 1, nodes'))
    else if t.kind.LEFT_PAREN? then
      var inner :- ParseExpr(ts, cur + 1, depth, nodes);
      if !ts[inner.cur].kind.RIGHT_PAREN? then Err(ParserError)
      else Ok(Parsed(inner.value, inner.cur + 1, inner.nodes))
    else Err(ParserError)
  }

  function ParseArgs(ts: seq<Token>, cur: nat, depth: nat, nodes: nat): (r: Result<Parsed<seq<Expr>>>)
    requires Terminated(ts) && cur < |ts|
    ensures r.Ok? ==> cur < r.value.cur < |ts|
    decreases |ts| - cur, 13
  {
    var first :- ParseExpr(ts, cur, depth, nodes);
    if !ts[first.cur].kind.COMMA? then Ok(Parsed([first.value], first.cur, first.nodes))
    else
      var rest :- ParseArgs(ts, first.cur + 1, depth, first.nodes);
      Ok(Parsed([first.value] + rest.value, rest.cur, rest.nodes))
  }

  // ---- The parser object ----

  class ExpressionParser {
    const tokens: seq<Token>
    var current: nat
    var nodesCreated: nat
    var recursionDepth: nat

    ghost predicate Valid()
      reads this
    {
      Terminated(tokens) && current < |tokens|
    }

    constructor (tokens: seq<Token>)
      requires Terminated(tokens)
      ensures Valid() && this.tokens == tokens && current == 0 && nodesCreated == 0 && recursionDepth == 0
    {
      this.tokens := tokens;
      current, nodesCreated, recursionDepth := 0, 0, 0;
    }

    function Peek(): Token
      requires Valid()
      reads this
    {
      tokens[current]
    }

    /** Steps over the current token if it is of the given kind. */
    method Match(kind: TokenType) returns (matched: bool)
      requires Valid() && kind != END_OF_FILE
      modifies this`current
      ensures Valid() && matched == (old(Peek()).kind == kind)
      ensures current == if matched then old(current) + 1 else old(current)
    {
      matched := Peek().kind == kind;
      if matched { current := current + 1; }
    }

    method TrackNodeCreation() returns (ok: bool)
      modifies this`nodesCreated
      ensures ok <==> TrackNode(old(nodesCreated)).Ok?
      ensures nodesCreated == old(nodesCreated) + 1
    {
      nodesCreated := nodesCreated + 1;
      ok := nodesCreated <= MAX_NODES;
    }

    /** What each parse method does: it returns the parse from the current position, leaves the
        counters where the parse left them, and restores the recursion depth. */
    ghost predicate Agrees<T>(r: Result<T>, spec: Result<Parsed<T>>, depth: nat)
      reads this
    {
      && (r.Ok? <==> spec.Ok?)
      && (r.Err? ==> r.error == spec.error)
      && (r.Ok? ==> r.value == spec.value.value && current == spec.value.cur && nodesCreated == spec.value.nodes &&
                    recursionDepth == depth)
    }

    method ParseExpression() returns (r: Result<Expr>)
      requires Valid()
      modifies this`current, this`nodesCreated, this`recursionDepth
      ensures Valid()
      ensures Agrees(r, ParseExpr(tokens, old(current), old(recursionDepth), old(nodesCreated)), old(recursionDepth))
      decreases |tokens| - current, 12
    {
      recursionDepth := recursionDepth + 1;
      if recursionDepth > MAX_DEPTH { return Err(SecurityError); }
      r := ParseAtLevel(0);
      recursionDepth := recursionDepth - if r.Ok? then 1 else 0;
    }

    /** ParseOr, ParseAnd, ParseEquality and ParseComparison, which differ only in their operators
        and in the method they call for an operand; and ParsePrimary. */
    method ParseAtLevel(level: nat) returns (r: Result<Expr>)
      requires Valid() && level <= 4
      modifies this`current, this`nodesCreated, this`recursionDepth
      ensures Valid()
      ensures Agrees(r, ParseLevel(tokens, level, old(current), old(recursionDepth), old(nodesCreated)),
                     old(recursionDepth))
      decreases |tokens| - current, 11 - 2 * level
    {
      recursionDepth := recursionDepth + 1;
      if recursionDepth > MAX_DEPTH { return Err(SecurityError); }
      if level == 4 {
        r := ParseOperand();
      } else {
        r := ParseOperators(level);
      }
      recursionDepth := recursionDepth - if r.Ok? then 1 else 0;
    }

    method ParseOperators(level: nat) returns (r: Result<Expr>)
      requires Valid() && level < 4
      modifies this`current, this`nodesCreated, this`recursionDepth
      ensures Valid()
      ensures Agrees(r, ParseChain(tokens, level, old(current), old(recursionDepth), old(nodesCreated)),
                     old(recursionDepth))
      decreases |tokens| - current, 10 - 2 * level
    {
      var start, depth, nodes := current, recursionDepth, nodesCreated;
      var spec := ParseChain(tokens, level, start, depth, nodes);
      var first := ParseAtLevel(level + 1);
      if first.Err? { return first; }
      var expr := first.value;
      while IsOp(Peek(), level)
        invariant Valid() && start < current && recursionDepth == depth
        invariant ParseRest(tokens, level, expr, current, depth, nodesCreated) == spec
        decreases |tokens| - current
      {
        var op := Peek();
        current := current + 1;
        var right := ParseAtLevel(level + 1);
        if right.Err? { return right; }
        var ok := TrackNodeCreation();
        if !ok { return Err(SecurityError); }
        expr := Binary(op, expr, right.value);
      }
      r := Ok(expr);
    }

    method ParseOperand() returns (r: Result<Expr>)
      requires Valid()
      modifies this`current, this`nodesCreated, this`recursionDepth
      ensures Valid()
      ensures Agrees(r, ParsePrimary(tokens, old(current), old(recursionDepth), old(nodesCreated)), old(recursionDepth))
      decreases |tokens| - current, 2
    {
      var token := Peek();
      var matched := Match(IDENTIFIER);
      if matched {
        matched := Match(LEFT_PAREN);
        if matched {
          r := ParseCall(token);
          return;
        }
      } else if token.kind.NUMBER? || token.kind.STRING? {
        current := current + 1;
      } else {
        matched := Match(LEFT_PAREN);
        if !matched { return Err(ParserError); }
        r := ParseExpression();
        if r.Err? { return; }
        matched := Match(RIGHT_PAREN);
        if !matched { r := Err(ParserError); }
        return;
      }
      var ok := TrackNodeCreation();
      r := if ok then Ok(Literal(token)) else Err(SecurityError);
    }

    /** The part of ParsePrimary after a name and an opening parenthesis. */
    method ParseCall(token: Token) returns (r: Result<Expr>)
      requires Valid() && current >= 2 && tokens[current - 2] == token && token.kind.IDENTIFIER?
      requires tokens[current - 1].kind.LEFT_PAREN?
      modifies this`current, this`nodesCreated, this`recursionDepth
      ensures Valid()
      ensures Agrees(r, ParsePrimary(tokens, old(current) - 2, old(recursionDepth), old(nodesCreated)),
                     old(recursionDepth))
      decreases |tokens| - current, 14
    {
      var args: seq<Expr> := [];
      if !Peek().kind.RIGHT_PAREN? {
        var list := ParseArguments();
        if list.Err? { return Err(list.error); }
        args := list.value;
      }
      var matched := Match(RIGHT_PAREN);
      if !matched { return Err(ParserError); }
      var ok := TrackNodeCreation();
      r := if ok then Ok(Call(token, args)) else Err(SecurityError);
    }

    /** The do-while loop over a non-empty argument list. */
    method ParseArguments() returns (r: Result<seq<Expr>>)
      requires Valid()
      modifies this`current, this`nodesCreated, this`recursionDepth
      ensures Valid()
      ensures Agrees(r, ParseArgs(tokens, old(current), old(recursionDepth), old(nodesCreated)), old(recursionDepth))
      decreases |tokens| - current, 13
    {
      var start, depth := current, recursionDepth;
      ghost var spec := ParseArgs(tokens, start, depth, nodesCreated);
      var args: seq<Expr> := [];
      ArgsAfterNone(spec);
      while true
        invariant Valid() && start <= current && recursionDepth == depth
        invariant ArgsAfter(args, ParseArgs(tokens, current, depth, nodesCreated)) == spec
        decreases |tokens| - current
      {
        var arg := ParseExpression();
        if arg.Err? { return Err(arg.error); }
        var before := args;
        args := args + [arg.value];
        var matched := Match(COMMA);
        if !matched { return Ok(args); }
        ArgsAfterOne(before, arg.value, ParseArgs(tokens, current, depth, nodesCreated));
      }
    }
  }

  function ArgsAfter(args: seq<Expr>, r: Result<Parsed<seq<Expr>>>): Result<Parsed<seq<Expr>>> {
    if r.Err? then r else Ok(Parsed(args + r.value.value, r.value.cur, r.value.nodes))
  }

  lemma {:induction false} ArgsAfterNone(r: Result<Parsed<seq<Expr>>>)
    ensures ArgsAfter([], r) == r
  {
    if r.Ok? { assert [] + r.value.value == r.value.value; }
  }

  lemma ArgsAfterOne(args: seq<Expr>, arg: Expr, r: Result<Parsed<seq<Expr>>>)
    ensures r.Ok? ==> args + [arg] + r.value.value == args + ([arg] + r.value.value)
  {}
}
