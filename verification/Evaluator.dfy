/** The row evaluator: conditions over one row. Numbers are mathematical reals; the library
    functions strtod and std::to_string and the inline functions are parameters. */
module Evaluator {
  import opened Wrappers
  import opened Rows
  import opened Ast
  import opened Text
  import Like

  /** parse: what strtod makes of a whole string, if it accepts it; show: std::to_string;
      call: an inline function applied to its evaluated arguments. */
  datatype Library = Library(
    parse: string -> Option<real>,
    show: real -> string,
    call: (string, seq<string>) -> Result<string>)

  function TryParseDouble(lib: Library, s: string): Option<real> {
    if s == "" then None else lib.parse(s)
  }

  /** std::string's operator<. */
  predicate StrLess(a: string, b: string) {
    b != "" && (a == "" || a[0] < b[0] || (a[0] == b[0] && StrLess(a[1..], b[1..])))
  }

  lemma {:induction false} StrLessIrreflexive(a: string)
    ensures !StrLess(a, a)
  {
    if a != "" { StrLessIrreflexive(a[1..]); }
  }

  lemma {:induction false} StrLessTotal(a: string, b: string)
    ensures StrLess(a, b) || a == b || StrLess(b, a)
    ensures !(StrLess(a, b) && StrLess(b, a))
  {
    if a != "" && b != "" {
      StrLessTotal(a[1..], b[1..]);
      assert a == [a[0]] + a[1..] && b == [b[0]] + b[1..];
    }
  }

  lemma {:induction false} StrLessTransitive(a: string, b: string, c: string)
    requires StrLess(a, b) && StrLess(b, c)
    ensures StrLess(a, c)
  {
    if a != "" && a[0] == b[0] && b[0] == c[0] { StrLessTransitive(a[1..], b[1..], c[1..]); }
  }

  function CompareNumbers(op: TokenType, x: real, y: real): Option<bool> {
    match op
    case EQUALS => Some(x == y)
    case NOT_EQUALS => Some(x != y)
    case GREATER_THAN => Some(x > y)
    case LESS_THAN => Some(x < y)
    case GREATER_EQUALS => Some(x >= y)
    case LESS_EQUALS => Some(x <= y)
    case _ => None
  }

  function CompareStrings(op: TokenType, a: string, b: string): Option<bool> {
    match op
    case EQUALS => Some(a == b)
    case NOT_EQUALS => Some(a != b)
    case GREATER_THAN => Some(StrLess(b, a))
    case LESS_THAN => Some(StrLess(a, b))
    case GREATER_EQUALS => Some(!StrLess(a, b))
    case LESS_EQUALS => Some(!StrLess(b, a))
    case _ => None
  }

  function FormatExpression(e: Expr): string
    decreases e, 1
  {
    match e
    case Literal(t) => t.value
    case Call(t, args) => t.value + "(" + FormatArgs(args) + ")"
    case Binary(t, l, r) => FormatExpression(l) + " " + t.value + " " + FormatExpression(r)
  }

  function FormatArgs(args: seq<Expr>): string
    decreases args, 0
  {
    if args == [] then ""
    else if |args| == 1 then FormatExpression(args[0])
    else FormatExpression(args[0]) + ", " + FormatArgs(args[1..])
  }

  /** The text of an expression is looked up as a column name first, whatever its kind. */
  function EvaluateExpression(lib: Library, e: Expr, row: Row): Result<string>
    decreases e, 1
  {
    var found := Find(row, FormatExpression(e));
    if found.Some? then Ok(found.value) else
    match e
    case Literal(t) => if t.kind.STRING? || t.kind.NUMBER? then Ok(t.value) else Err(RuntimeError)
    case Call(t, args) =>
      if ToLower(t.value) == "count" then Ok("1") else
      var vals :- EvaluateArgs(lib, args, row);
      lib.call(ToLower(t.value), vals)
    case Binary(_, _, _) => Err(RuntimeError)
  }

  function EvaluateArgs(lib: Library, args: seq<Expr>, row: Row): Result<seq<string>>
    decreases args, 0
  {
    if args == [] then Ok([]) else
    var first :- EvaluateExpression(lib, args[0], row);
    var rest :- EvaluateArgs(lib, args[1..], row);
    Ok([first] + rest)
  }

  function EvaluateCondition(lib: Library, e: Expr, row: Row): Result<bool> {
    match e
    case Literal(_) => Err(RuntimeError)
    case Call(_, _) => Err(RuntimeError)
    case Binary(t, l, r) =>
      if t.kind.AND? then
        var left :- EvaluateCondition(lib, l, row);
        if !left then Ok(false) else EvaluateCondition(lib, r, row)
      else if t.kind.OR? then
        var left :- EvaluateCondition(lib, l, row);
        if left then Ok(true) else EvaluateCondition(lib, r, row)
      else
        var a :- EvaluateExpression(lib, l, row);
        var b :- EvaluateExpression(lib, r, row);
        CompareValues(lib, t.kind, a, b)
  }

  /** LIKE on the texts; otherwise as numbers when both parse, as strings when not. */
  function CompareValues(lib: Library, op: TokenType, a: string, b: string): Result<bool> {
    if op.LIKE? then Like.MatchLike(a, b) else
    var x, y := TryParseDouble(lib, a), TryParseDouble(lib, b);
    var c := if x.Some? && y.Some? then CompareNumbers(op, x.value, y.value) else CompareStrings(op, a, b);
    if c.Some? then Ok(c.value) else Err(RuntimeError)
  }

  /** Whether WHERE keeps a row; without WHERE every row is kept. */
  function Keeps(lib: Library, where_: Option<Expr>, row: Row): Result<bool> {
    if where_.Some? then EvaluateCondition(lib, where_.value, row) else Ok(true)
  }

  // ---- What the text of an expression is ----

  /** The arguments of a call are separated by commas, however many there are. */
  lemma {:induction false} FormatMoreArgs(args: seq<Expr>, last: Expr)
    ensures FormatArgs(args + [last]) ==
            if args == [] then FormatExpression(last) else FormatArgs(args) + ", " + FormatExpression(last)
  {
    if args == [] {
      assert args + [last] == [last];
    } else {
      assert (args + [last])[1..] == args[1..] + [last];
      FormatMoreArgs(args[1..], last);
      if |args| > 1 {
        assert FormatExpression(args[0]) + ", " + (FormatArgs(args[1..]) + ", " + FormatExpression(last)) ==
               FormatExpression(args[0]) + ", " + FormatArgs(args[1..]) + ", " + FormatExpression(last);
      }
    }
  }

  /** For names a and b and any token: the texts `f()`, `f(a)`, `f(a, b)` and `a > b`. */
  lemma {:induction false} FormatInstances(f: Token, op: Token, a: Token, b: Token)
    ensures FormatExpression(Call(f, [])) == f.value + "(" + ")"
    ensures FormatExpression(Call(f, [Literal(a)])) == f.value + "(" + a.value + ")"
    ensures FormatExpression(Call(f, [Literal(a), Literal(b)])) == f.value + "(" + (a.value + ", " + b.value) + ")"
    ensures FormatExpression(Binary(op, Literal(a), Literal(b))) == a.value + " " + op.value + " " + b.value
  {
    var args := [Literal(a), Literal(b)];
    assert FormatArgs([]) == "" && f.value + "(" + "" + ")" == f.value + "(" + ")";
    assert args == [Literal(a)] + [Literal(b)];
    FormatMoreArgs([Literal(a)], Literal(b));
  }

  // ---- What an expression and a condition mean ----

  /** Arguments are evaluated one by one, and all must succeed. */
  lemma {:induction false} ArgsMean(lib: Library, args: seq<Expr>, row: Row)
    ensures EvaluateArgs(lib, args, row).Ok? <==>
            forall i :: 0 <= i < |args| ==> EvaluateExpression(lib, args[i], row).Ok?
    ensures EvaluateArgs(lib, args, row).Ok? ==>
              && |EvaluateArgs(lib, args, row).value| == |args|
              && forall i :: 0 <= i < |args| ==>
                   EvaluateExpression(lib, args[i], row) == Ok(EvaluateArgs(lib, args, row).value[i])
    decreases |args|
  {
    if args != [] {
      ArgsMean(lib, args[1..], row);
      assert forall i :: 0 < i < |args| ==> args[i] == args[1..][i - 1];
      assert forall i :: 0 <= i < |args| - 1 ==> args[1..][i] == args[i + 1];
    }
  }

  /** An expression is the column with its text as a name, if there is one. Otherwise a number or
      a string is itself, count is 1, any other call applies the function with the lower-case name
      to the values of the arguments, and everything else is an error. */
  lemma {:induction false} ExpressionMeans(lib: Library, e: Expr, row: Row, v: string)
    ensures EvaluateExpression(lib, e, row) == Ok(v) <==>
            || Find(row, FormatExpression(e)) == Some(v)
            || (Find(row, FormatExpression(e)).None? && e.Literal? && e.token.kind in {NUMBER, STRING} &&
                e.token.value == v)
            || (Find(row, FormatExpression(e)).None? && e.Call? && ToLower(e.token.value) == "count" && v == "1")
            || (Find(row, FormatExpression(e)).None? && e.Call? && ToLower(e.token.value) != "count" &&
                exists vals: seq<string> ::
                  && |vals| == |e.args|
                  && (forall i :: 0 <= i < |vals| ==> EvaluateExpression(lib, e.args[i], row) == Ok(vals[i]))
                  && lib.call(ToLower(e.token.value), vals) == Ok(v))
  {
    if e.Call? && Find(row, FormatExpression(e)).None? && ToLower(e.token.value) != "count" {
      ArgsMean(lib, e.args, row);
      var r := EvaluateArgs(lib, e.args, row);
      if vals: seq<string> :|
        && |vals| == |e.args|
        && (forall i :: 0 <= i < |vals| ==> EvaluateExpression(lib, e.args[i], row) == Ok(vals[i]))
        && lib.call(ToLower(e.token.value), vals) == Ok(v)
      {
        assert r.Ok? && r.value == vals;
      }
    }
  }

  /** Equal as numbers when both are, and as texts otherwise. */
  predicate Same(lib: Library, a: string, b: string) {
    var x, y := TryParseDouble(lib, a), TryParseDouble(lib, b);
    if x.Some? && y.Some? then x.value == y.value else a == b
  }

  /** Less as numbers when both are, and as texts otherwise. */
  predicate Before(lib: Library, a: string, b: string) {
    var x, y := TryParseDouble(lib, a), TryParseDouble(lib, b);
    if x.Some? && y.Some? then x.value < y.value else StrLess(a, b)
  }

  /** The comparisons in terms of these two: <= is < or ==, and > is < the other way round. */
  lemma {:induction false} ComparisonMeans(lib: Library, a: string, b: string)
    ensures CompareValues(lib, EQUALS, a, b) == Ok(Same(lib, a, b))
    ensures CompareValues(lib, NOT_EQUALS, a, b) == Ok(!Same(lib, a, b))
    ensures CompareValues(lib, LESS_THAN, a, b) == Ok(Before(lib, a, b))
    ensures CompareValues(lib, GREATER_THAN, a, b) == Ok(Before(lib, b, a))
    ensures CompareValues(lib, LESS_EQUALS, a, b) == Ok(Before(lib, a, b) || Same(lib, a, b))
    ensures CompareValues(lib, GREATER_EQUALS, a, b) == Ok(Before(lib, b, a) || Same(lib, a, b))
    ensures CompareValues(lib, LIKE, a, b) == Like.MatchLike(a, b)
  {
    StrLessTotal(a, b);
    StrLessIrreflexive(a);
  }

  /** The texts agree before k, and there a has the smaller character. */
  predicate LessAt(a: string, b: string, k: nat) {
    k < |a| && k < |b| && a[k] < b[k] && forall i :: 0 <= i < k ==> a[i] == b[i]
  }

  /** The order of texts is lexicographic: the first character that differs decides, and a text
      comes before its proper extensions. */
  lemma {:induction false} StrLessIff(a: string, b: string)
    ensures StrLess(a, b) <==> a < b || exists k: nat :: LessAt(a, b, k)
  {
    if a != "" && b != "" {
      var c, d := a[1..], b[1..];
      assert forall i :: 0 <= i < |c| ==> c[i] == a[i + 1];
      assert forall i :: 0 <= i < |d| ==> d[i] == b[i + 1];
      StrLessIff(c, d);
      assert a[0] < b[0] ==> LessAt(a, b, 0);
      if a[0] == b[0] {
        assert a == [a[0]] + c && b == [b[0]] + d;
        assert a < b <==> c < d;
        if k: nat :| LessAt(c, d, k) { LessLater(a, b, k); }
        if k: nat :| LessAt(a, b, k) { assert a[k] == c[k - 1] && LessAt(c, d, k - 1); }
      }
    }
  }

  lemma {:induction false} LessLater(a: string, b: string, k: nat)
    requires a != "" && b != "" && a[0] == b[0] && LessAt(a[1..], b[1..], k)
    ensures LessAt(a, b, k + 1)
  {
    forall i | 0 <= i < k + 1 ensures a[i] == b[i] {
      if i > 0 { assert a[1..][i - 1] == b[1..][i - 1]; }
    }
  }

  /** The row meets the condition. AND needs both sides; OR the left, or the right if the left is
      missed: what comes after a side that decides is not looked at, and may be anything. */
  ghost predicate Meets(lib: Library, e: Expr, row: Row) {
    e.Binary? &&
    if e.token.kind.AND? then Meets(lib, e.left, row) && Meets(lib, e.right, row)
    else if e.token.kind.OR? then
      Meets(lib, e.left, row) || (Misses(lib, e.left, row) && Meets(lib, e.right, row))
    else Compared(lib, e, row, true)
  }

  /** The row fails the condition, without an error. */
  ghost predicate Misses(lib: Library, e: Expr, row: Row) {
    e.Binary? &&
    if e.token.kind.AND? then
      Misses(lib, e.left, row) || (Meets(lib, e.left, row) && Misses(lib, e.right, row))
    else if e.token.kind.OR? then Misses(lib, e.left, row) && Misses(lib, e.right, row)
    else Compared(lib, e, row, false)
  }

  /** Both sides of a comparison have a value, and it gives this verdict. */
  ghost predicate Compared(lib: Library, e: Expr, row: Row, verdict: bool)
    requires e.Binary?
  {
    exists a, b ::
      && EvaluateExpression(lib, e.left, row) == Ok(a) && EvaluateExpression(lib, e.right, row) == Ok(b)
      && CompareValues(lib, e.token.kind, a, b) == Ok(verdict)
  }

  lemma {:induction false} ConditionMeans(lib: Library, e: Expr, row: Row)
    ensures EvaluateCondition(lib, e, row) == Ok(true) <==> Meets(lib, e, row)
    ensures EvaluateCondition(lib, e, row) == Ok(false) <==> Misses(lib, e, row)
  {
    if e.Binary? {
      if e.token.kind.AND? || e.token.kind.OR? {
        ConditionMeans(lib, e.left, row);
        ConditionMeans(lib, e.right, row);
      }
    }
  }

  // ---- WHERE over many rows ----

  /** WHERE is true of the row, or there is none. */
  predicate Passes(lib: Library, where_: Option<Expr>, row: Row) {
    where_.Some? ==> EvaluateCondition(lib, where_.value, row) == Ok(true)
  }

  /** WHERE is true or false of the row, or there is none. */
  predicate Judged(lib: Library, where_: Option<Expr>, row: Row) {
    where_.Some? ==> EvaluateCondition(lib, where_.value, row).Ok?
  }

  ghost predicate AllJudged(lib: Library, where_: Option<Expr>, rows: seq<Row>) {
    forall i :: 0 <= i < |rows| ==> Judged(lib, where_, rows[i])
  }

  /** The rows of which WHERE is true, in order. */
  function Passing(lib: Library, where_: Option<Expr>, rows: seq<Row>): seq<Row> {
    if rows == [] then []
    else
      Passing(lib, where_, rows[..|rows| - 1]) +
      if Passes(lib, where_, rows[|rows| - 1]) then [rows[|rows| - 1]] else []
  }

  lemma {:induction false} PassingConcat(lib: Library, where_: Option<Expr>, a: seq<Row>, b: seq<Row>)
    ensures Passing(lib, where_, a + b) == Passing(lib, where_, a) + Passing(lib, where_, b)
  {
    if b == [] {
      assert a + b == a;
    } else {
      assert (a + b)[..|a + b| - 1] == a + b[..|b| - 1];
      PassingConcat(lib, where_, a, b[..|b| - 1]);
    }
  }
}
