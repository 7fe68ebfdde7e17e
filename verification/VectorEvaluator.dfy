/** The columnar evaluator: a condition over a batch of rows, column by column. */
module VectorEvaluator {
  import opened Wrappers
  import opened Rows
  import opened Ast
  import opened Evaluator

  datatype VectorBatch = VectorBatch(
    numRows: nat,
    numeric: map<string, seq<real>>,
    strings: map<string, seq<string>>)

  ghost predicate ValidBatch(b: VectorBatch) {
    && (forall c :: c in b.numeric ==> |b.numeric[c]| == b.numRows)
    && (forall c :: c in b.strings ==> |b.strings[c]| == b.numRows)
  }

  datatype VectorValue =
    | Booleans(bits: seq<bool>)
    | NumericScalar(x: real)
    | NumericColumn(xs: seq<real>)
    | StringScalar(s: string)
    | StringColumn(ss: seq<string>)

  predicate IsNumeric(v: VectorValue) { v.NumericScalar? || v.NumericColumn? }
  predicate IsString(v: VectorValue) { v.StringScalar? || v.StringColumn? }

  ghost predicate Sized(v: VectorValue, n: nat) {
    match v
    case Booleans(bits) => |bits| == n
    case NumericColumn(xs) => |xs| == n
    case StringColumn(ss) => |ss| == n
    case _ => true
  }

  /** The number a numeric value holds for row i. */
  function NumberAt(v: VectorValue, i: nat): real
    requires IsNumeric(v) && (v.NumericColumn? ==> i < |v.xs|)
  {
    if v.NumericScalar? then v.x else v.xs[i]
  }

  /** The text compared for row i when either side is a string. A numeric column is shown as
      text, but a number literal is not: its unset string field, "", is used. */
  function TextAt(lib: Library, v: VectorValue, i: nat): string
    requires (v.NumericColumn? ==> i < |v.xs|) && (v.StringColumn? ==> i < |v.ss|)
  {
    match v
    case StringScalar(s) => s
    case StringColumn(ss) => ss[i]
    case NumericColumn(xs) => lib.show(xs[i])
    case _ => ""
  }

  /** A literal or column. */
  function EvalLeaf(lib: Library, t: Token, b: VectorBatch): Result<VectorValue> {
    match t.kind
    case NUMBER =>
      var x := TryParseDouble(lib, t.value);
      Ok(NumericScalar(if x.Some? then x.value else 0.0))
    case STRING => Ok(StringScalar(t.value))
    case IDENTIFIER =>
      if t.value in b.numeric then Ok(NumericColumn(b.numeric[t.value]))
      else if t.value in b.strings then Ok(StringColumn(b.strings[t.value]))
      else Err(RuntimeError)
    case _ => Err(RuntimeError)
  }

  /** One entry of a comparison. */
  function CompareAt(lib: Library, op: TokenType, l: VectorValue, r: VectorValue, i: nat): Result<bool>
    requires (l.NumericColumn? ==> i < |l.xs|) && (l.StringColumn? ==> i < |l.ss|)
    requires (r.NumericColumn? ==> i < |r.xs|) && (r.StringColumn? ==> i < |r.ss|)
  {
    if IsNumeric(l) && IsNumeric(r) then
      var c := CompareNumbers(op, NumberAt(l, i), NumberAt(r, i));
      if c.Some? then Ok(c.value) else Err(RuntimeError)
    else if op.LIKE? then Like.MatchLike(TextAt(lib, l, i), TextAt(lib, r, i))
    else
      var c := CompareStrings(op, TextAt(lib, l, i), TextAt(lib, r, i));
      if c.Some? then Ok(c.value) else Err(RuntimeError)
  }

  /** The entries 0, ..., n-1 of a column, failing with the first entry that fails. */
  function Collect(entry: nat --> Result<bool>, n: nat): (res: Result<seq<bool>>)
    requires forall i: nat :: i < n ==> entry.requires(i)
    ensures res.Ok? ==> |res.value| == n
  {
    if n == 0 then Ok([]) else
    var bits :- Collect(entry, n - 1);
    var bit :- entry(n - 1);
    Ok(bits + [bit])
  }

  lemma {:induction false} CollectEntries(entry: nat --> Result<bool>, n: nat)
    requires forall i: nat :: i < n ==> entry.requires(i)
    ensures Collect(entry, n).Ok? <==> forall i: nat :: i < n ==> entry(i).Ok?
    ensures Collect(entry, n).Ok? ==> forall i: nat :: i < n ==> entry(i) == Ok(Collect(entry, n).value[i])
  {
    if n > 0 { CollectEntries(entry, n - 1); }
  }

  lemma {:induction false} CollectFails(entry: nat --> Result<bool>, m: nat, n: nat)
    requires m <= n && forall i: nat :: i < n ==> entry.requires(i)
    requires Collect(entry, m).Err?
    ensures Collect(entry, n) == Collect(entry, m)
  {
    if m < n { CollectFails(entry, m, n - 1); }
  }

  lemma {:induction false} CollectNext(entry: nat --> Result<bool>, i: nat, n: nat, bits: seq<bool>, bit: Result<bool>)
    requires i < n && forall k: nat :: k < n ==> entry.requires(k)
    requires Collect(entry, i) == Ok(bits) && entry(i) == bit
    ensures bit.Ok? ==> Collect(entry, i + 1) == Ok(bits + [bit.value])
    ensures bit.Err? ==> Collect(entry, n) == Err(bit.error)
  {
    if bit.Err? { CollectFails(entry, i + 1, n); }
  }

  function Entries(lib: Library, op: TokenType, l: VectorValue, r: VectorValue, n: nat): (entry: nat --> Result<bool>)
    requires Sized(l, n) && Sized(r, n)
    ensures forall i: nat :: i < n ==> entry.requires(i) && entry(i) == CompareAt(lib, op, l, r, i)
  {
    (i: nat) requires i < n => CompareAt(lib, op, l, r, i)
  }

  /** A comparison of two values over n rows. */
  function Compare(lib: Library, op: TokenType, l: VectorValue, r: VectorValue, n: nat): (res: Result<seq<bool>>)
    requires Sized(l, n) && Sized(r, n)
    ensures res.Ok? ==> |res.value| == n
  {
    if IsNumeric(l) && IsNumeric(r) && CompareNumbers(op, 0.0, 0.0).None? then Err(RuntimeError)
    else if (IsNumeric(l) && IsNumeric(r)) || IsString(l) || IsString(r) then
      Collect(Entries(lib, op, l, r, n), n)
    else Err(RuntimeError)
  }

  /** Columns of bits combined entry by entry. */
  function Combine(op: TokenType, l: seq<bool>, r: seq<bool>): (bits: seq<bool>)
    requires |l| == |r|
    ensures |bits| == |l|
    ensures forall i :: 0 <= i < |l| ==> bits[i] == if op.AND? then l[i] && r[i] else l[i] || r[i]
  {
    seq(|l|, i requires 0 <= i < |l| => if op.AND? then l[i] && r[i] else l[i] || r[i])
  }

  /** The value of an expression over a batch. AND and OR evaluate both sides in full. */
  function EvalVector(lib: Library, e: Expr, b: VectorBatch): (res: Result<VectorValue>)
    requires ValidBatch(b)
    ensures res.Ok? ==> Sized(res.value, b.numRows)
    ensures res.Ok? && e.Binary? ==> res.value.Booleans?
  {
    match e
    case Literal(t) => EvalLeaf(lib, t, b)
    case Call(_, _) => Err(RuntimeError)
    case Binary(t, le, re) =>
      var l :- EvalVector(lib, le, b);
      var r :- EvalVector(lib, re, b);
      if t.kind.AND? || t.kind.OR? then
        if l.Booleans? && r.Booleans? then Ok(Booleans(Combine(t.kind, l.bits, r.bits))) else Err(RuntimeError)
      else
        var bits :- Compare(lib, t.kind, l, r, b.numRows);
        Ok(Booleans(bits))
  }

  method EvalVectorized(lib: Library, e: Expr, b: VectorBatch) returns (res: Result<VectorValue>)
    requires ValidBatch(b)
    ensures res == EvalVector(lib, e, b)
    decreases e
  {
    match e
    case Literal(t) => res := EvalLeaf(lib, t, b);
    case Call(_, _) => res := Err(RuntimeError);
    case Binary(t, le, re) =>
      var left := EvalVectorized(lib, le, b);
      if left.Err? { return Err(left.error); }
      var right := EvalVectorized(lib, re, b);
      if right.Err? { return Err(right.error); }
      var l, r := left.value, right.value;
      var bits: Result<seq<bool>>;
      if t.kind.AND? || t.kind.OR? {
        if !l.Booleans? || !r.Booleans? { return Err(RuntimeError); }
        bits := CombineLoop(t.kind, l.bits, r.bits);
      } else if IsNumeric(l) && IsNumeric(r) {
        if CompareNumbers(t.kind, 0.0, 0.0).None? { return Err(RuntimeError); }
        bits := CompareLoop(lib, t.kind, l, r, b.numRows);
      } else if IsString(l) || IsString(r) {
        bits := CompareLoop(lib, t.kind, l, r, b.numRows);
      } else {
        bits := Err(RuntimeError);
      }
      res := if bits.Ok? then Ok(Booleans(bits.value)) else Err(bits.error);
  }

  method CombineLoop(op: TokenType, l: seq<bool>, r: seq<bool>) returns (res: Result<seq<bool>>)
    requires |l| == |r|
    ensures res == Ok(Combine(op, l, r))
  {
    var bits: seq<bool> := [];
    for i := 0 to |l|
      invariant bits == Combine(op, l, r)[..i]
    {
      bits := bits + [if op.AND? then l[i] && r[i] else l[i] || r[i]];
    }
    assert bits == Combine(op, l, r);
    res := Ok(bits);
  }

  method CompareEntry(lib: Library, op: TokenType, l: VectorValue, r: VectorValue, i: nat) returns (bit: Result<bool>)
    requires (l.NumericColumn? ==> i < |l.xs|) && (l.StringColumn? ==> i < |l.ss|)
    requires (r.NumericColumn? ==> i < |r.xs|) && (r.StringColumn? ==> i < |r.ss|)
    ensures bit == CompareAt(lib, op, l, r, i)
  {
    var c: Option<bool>;
    if IsNumeric(l) && IsNumeric(r) {
      c := CompareNumbers(op, NumberAt(l, i), NumberAt(r, i));
    } else if op.LIKE? {
      bit := Like.MatchLikeLoop(TextAt(lib, l, i), TextAt(lib, r, i));
      return;
    } else {
      c := CompareStrings(op, TextAt(lib, l, i), TextAt(lib, r, i));
    }
    bit := if c.Some? then Ok(c.value) else Err(RuntimeError);
  }

  method CompareLoop(lib: Library, op: TokenType, l: VectorValue, r: VectorValue, n: nat)
    returns (res: Result<seq<bool>>)
    requires Sized(l, n) && Sized(r, n)
    ensures res == Collect(Entries(lib, op, l, r, n), n)
  {
    ghost var entry := Entries(lib, op, l, r, n);
    var bits: seq<bool> := [];
    for i := 0 to n
      invariant Collect(entry, i) == Ok(bits)
    {
      var bit := CompareEntry(lib, op, l, r, i);
      CollectNext(entry, i, n, bits, bit);
      if bit.Err? { return Err(bit.error); }
      bits := bits + [bit.value];
    }
    res := Ok(bits);
  }

  function ConditionBits(lib: Library, e: Expr, b: VectorBatch): Result<seq<bool>>
    requires ValidBatch(b)
  {
    var v :- EvalVector(lib, e, b);
    if v.Booleans? then Ok(v.bits) else Err(RuntimeError)
  }

  method EvaluateConditionVectorized(lib: Library, e: Expr, b: VectorBatch) returns (res: Result<seq<bool>>)
    requires ValidBatch(b)
    ensures res == ConditionBits(lib, e, b)
  {
    var v := EvalVectorized(lib, e, b);
    if v.Err? { return Err(v.error); }
    if !v.value.Booleans? { return Err(RuntimeError); }
    res := Ok(v.value.bits);
  }

  // ---- Agreement with the row evaluator ----

  /** Row i of the batch as the row evaluator sees it: numeric cells are texts that parse to the
      stored numbers. When a name is in both tables the numeric one is used. */
  ghost predicate RowOf(lib: Library, b: VectorBatch, i: nat, row: Row)
    requires ValidBatch(b) && i < b.numRows
  {
    && (forall c :: c in b.numeric ==>
          Has(row, c) && TryParseDouble(lib, Find(row, c).value) == Some(b.numeric[c][i]))
    && (forall c :: c in b.strings && c !in b.numeric ==> Find(row, c) == Some(b.strings[c][i]))
  }

  ghost predicate NumericSide(lib: Library, e: Expr, b: VectorBatch) {
    e.Literal? && ((e.token.kind.NUMBER? && TryParseDouble(lib, e.token.value).Some?) ||
                   (e.token.kind.IDENTIFIER? && e.token.value in b.numeric))
  }

  ghost predicate StringSide(e: Expr, b: VectorBatch) {
    e.Literal? && (e.token.kind.STRING? ||
                   (e.token.kind.IDENTIFIER? && e.token.value in b.strings && e.token.value !in b.numeric))
  }

  predicate IsComparison(op: TokenType) {
    op.EQUALS? || op.NOT_EQUALS? || op.GREATER_THAN? || op.LESS_THAN? || op.GREATER_EQUALS? || op.LESS_EQUALS?
  }

  /** AND/OR over comparisons of two numbers or two strings, and LIKE on strings. */
  ghost predicate Comparable(lib: Library, e: Expr, b: VectorBatch) {
    e.Binary? &&
    var op, l, r := e.token.kind, e.left, e.right;
    if op.AND? || op.OR? then Comparable(lib, l, b) && Comparable(lib, r, b)
    else
      || (op.LIKE? && StringSide(l, b) && StringSide(r, b))
      || (IsComparison(op) && NumericSide(lib, l, b) && NumericSide(lib, r, b))
      || (IsComparison(op) && StringSide(l, b) && StringSide(r, b))
  }

  ghost function SideText(e: Expr, b: VectorBatch, i: nat): string
    requires ValidBatch(b) && i < b.numRows && StringSide(e, b)
  {
    if e.token.kind.STRING? then e.token.value else b.strings[e.token.value][i]
  }

  /** No column has the text of a literal as its name. */
  ghost predicate NoColumnNamed(e: Expr, row: Row) {
    match e
    case Literal(t) => !t.kind.IDENTIFIER? ==> !Has(row, t.value)
    case Call(_, _) => true
    case Binary(_, l, r) => NoColumnNamed(l, row) && NoColumnNamed(r, row)
  }

  /** The condition under which comparing two texts as texts, as the columns do, gives what the row
      evaluator finds: if both are numbers, then for == and != they are not one number written in
      two ways, and for the other operators they are in the same order as texts and as numbers. */
  ghost predicate TextsAgree(lib: Library, op: TokenType, a: string, b: string) {
    var x, y := TryParseDouble(lib, a), TryParseDouble(lib, b);
    x.Some? && y.Some? ==>
      match op
      case EQUALS | NOT_EQUALS => x.value == y.value ==> a == b
      case LESS_THAN | GREATER_EQUALS => x.value < y.value <==> StrLess(a, b)
      case GREATER_THAN | LESS_EQUALS => y.value < x.value <==> StrLess(b, a)
      case _ => true
  }

  /** Every comparison of two texts in row i agrees. */
  ghost predicate AllTextsAgree(lib: Library, e: Expr, b: VectorBatch, i: nat)
    requires ValidBatch(b) && i < b.numRows && Comparable(lib, e, b)
  {
    var op, l, r := e.token.kind, e.left, e.right;
    if op.AND? || op.OR? then AllTextsAgree(lib, l, b, i) && AllTextsAgree(lib, r, b, i)
    else StringSide(l, b) && StringSide(r, b) ==> TextsAgree(lib, op, SideText(l, b, i), SideText(r, b, i))
  }

  lemma StringOperand(lib: Library, e: Expr, b: VectorBatch, i: nat, row: Row)
    requires ValidBatch(b) && i < b.numRows && RowOf(lib, b, i, row)
    requires StringSide(e, b) && NoColumnNamed(e, row)
    ensures EvaluateExpression(lib, e, row) == Ok(SideText(e, b, i))
    ensures EvalVector(lib, e, b).Ok? && IsString(EvalVector(lib, e, b).value)
    ensures TextAt(lib, EvalVector(lib, e, b).value, i) == SideText(e, b, i)
  {}

  lemma NumericOperand(lib: Library, e: Expr, b: VectorBatch, i: nat, row: Row)
    requires ValidBatch(b) && i < b.numRows && RowOf(lib, b, i, row)
    requires NumericSide(lib, e, b) && NoColumnNamed(e, row)
    ensures EvaluateExpression(lib, e, row).Ok?
    ensures EvalVector(lib, e, b).Ok? && IsNumeric(EvalVector(lib, e, b).value)
    ensures TryParseDouble(lib, EvaluateExpression(lib, e, row).value) == Some(NumberAt(EvalVector(lib, e, b).value, i))
  {}

  /** The entries of a comparison against the row evaluator: they agree on numbers and LIKE, and
      on other comparisons of texts exactly when the texts agree. */
  lemma {:induction false} ComparisonAgreesIff(lib: Library, e: Expr, b: VectorBatch, i: nat, row: Row)
    requires ValidBatch(b) && i < b.numRows && RowOf(lib, b, i, row) && NoColumnNamed(e, row)
    requires Comparable(lib, e, b) && !e.token.kind.AND? && !e.token.kind.OR?
    ensures EvalVector(lib, e.left, b).Ok? && EvalVector(lib, e.right, b).Ok?
    ensures EvaluateCondition(lib, e, row) ==
              CompareAt(lib, e.token.kind, EvalVector(lib, e.left, b).value, EvalVector(lib, e.right, b).value, i)
            <==> AllTextsAgree(lib, e, b, i)
  {
    if StringSide(e.left, b) {
      StringOperand(lib, e.left, b, i, row);
      StringOperand(lib, e.right, b, i, row);
    } else {
      NumericOperand(lib, e.left, b, i, row);
      NumericOperand(lib, e.right, b, i, row);
    }
  }

  /** The entries of a comparison of two leaves, and what they decide. */
  lemma {:induction false} ComparisonEntries(lib: Library, e: Expr, b: VectorBatch)
    returns (entry: nat --> Result<bool>)
    requires ValidBatch(b) && Comparable(lib, e, b)
    requires !e.token.kind.AND? && !e.token.kind.OR?
    ensures forall i: nat :: i < b.numRows ==> entry.requires(i)
    ensures forall i: nat :: i < b.numRows ==>
      entry(i) == CompareAt(lib, e.token.kind, EvalVector(lib, e.left, b).value, EvalVector(lib, e.right, b).value, i)
    ensures ConditionBits(lib, e, b) == Collect(entry, b.numRows)
  {
    entry := Entries(lib, e.token.kind, EvalVector(lib, e.left, b).value, EvalVector(lib, e.right, b).value, b.numRows);
  }

  /** Bit i of a vectorised condition is the row evaluator's verdict on row i. */
  lemma {:induction false} VectorisedEqualsRowWise(lib: Library, e: Expr, b: VectorBatch, i: nat, row: Row)
    requires ValidBatch(b) && i < b.numRows && RowOf(lib, b, i, row)
    requires Comparable(lib, e, b) && NoColumnNamed(e, row) && AllTextsAgree(lib, e, b, i)
    requires ConditionBits(lib, e, b).Ok?
    ensures EvaluateCondition(lib, e, row) == Ok(ConditionBits(lib, e, b).value[i])
  {
    if e.token.kind.AND? || e.token.kind.OR? {
      VectorisedEqualsRowWise(lib, e.left, b, i, row);
      VectorisedEqualsRowWise(lib, e.right, b, i, row);
    } else {
      ComparisonAgreesIff(lib, e, b, i, row);
      var entry := ComparisonEntries(lib, e, b);
      CollectEntries(entry, b.numRows);
      assert entry(i) == Ok(ConditionBits(lib, e, b).value[i]);
    }
  }

  // ---- When the columnar evaluator answers at all ----

  datatype Kind = Number | Text | Truth | NoKind

  /** What kind of column an expression is, if it is one. */
  function KindOf(e: Expr, b: VectorBatch): Kind {
    match e
    case Literal(t) =>
      if t.kind.NUMBER? || (t.kind.IDENTIFIER? && t.value in b.numeric) then Number
      else if t.kind.STRING? || (t.kind.IDENTIFIER? && t.value in b.strings) then Text
      else NoKind
    case Call(_, _) => NoKind
    case Binary(t, l, r) =>
      var x, y := KindOf(l, b), KindOf(r, b);
      if x.NoKind? || y.NoKind? then NoKind
      else if t.kind.AND? || t.kind.OR? then (if x.Truth? && y.Truth? then Truth else NoKind)
      else if x.Number? && y.Number? then (if IsComparison(t.kind) then Truth else NoKind)
      else if x.Text? || y.Text? then Truth else NoKind
  }

  /** The operators the parser knows. */
  ghost predicate KnownOperators(e: Expr) {
    e.Binary? ==>
      && (e.token.kind.AND? || e.token.kind.OR? || e.token.kind.LIKE? || IsComparison(e.token.kind))
      && KnownOperators(e.left) && KnownOperators(e.right)
  }

  /** The text of an expression in row i: only texts and numeric columns have one. */
  ghost function RowText(lib: Library, e: Expr, b: VectorBatch, i: nat): string
    requires ValidBatch(b) && i < b.numRows
  {
    if !e.Literal? then ""
    else if e.token.kind.STRING? then e.token.value
    else if !e.token.kind.IDENTIFIER? then ""
    else if e.token.value in b.numeric then lib.show(b.numeric[e.token.value][i])
    else if e.token.value in b.strings then b.strings[e.token.value][i] else ""
  }

  ghost predicate LikeFinishes(lib: Library, l: Expr, r: Expr, b: VectorBatch)
    requires ValidBatch(b)
  {
    forall i :: 0 <= i < b.numRows ==> Like.MatchLike(RowText(lib, l, b, i), RowText(lib, r, b, i)).Ok?
  }

  ghost predicate EveryLikeFinishes(lib: Library, e: Expr, b: VectorBatch)
    requires ValidBatch(b)
  {
    e.Binary? ==>
      && EveryLikeFinishes(lib, e.left, b) && EveryLikeFinishes(lib, e.right, b)
      && (e.token.kind.LIKE? ==> LikeFinishes(lib, e.left, e.right, b))
  }

  ghost predicate HasKind(v: VectorValue, k: Kind) {
    match k
    case Number => IsNumeric(v)
    case Text => IsString(v)
    case Truth => v.Booleans?
    case NoKind => false
  }

  ghost predicate EntryFinishes(lib: Library, op: TokenType, l: VectorValue, r: VectorValue, i: nat)
    requires (l.NumericColumn? ==> i < |l.xs|) && (l.StringColumn? ==> i < |l.ss|)
    requires (r.NumericColumn? ==> i < |r.xs|) && (r.StringColumn? ==> i < |r.ss|)
  {
    op.LIKE? ==> Like.MatchLike(TextAt(lib, l, i), TextAt(lib, r, i)).Ok?
  }

  lemma {:induction false} EntryOkIff(lib: Library, op: TokenType, l: VectorValue, r: VectorValue, i: nat)
    requires (l.NumericColumn? ==> i < |l.xs|) && (l.StringColumn? ==> i < |l.ss|)
    requires (r.NumericColumn? ==> i < |r.xs|) && (r.StringColumn? ==> i < |r.ss|)
    requires IsComparison(op) || (op.LIKE? && !(IsNumeric(l) && IsNumeric(r)))
    ensures CompareAt(lib, op, l, r, i).Ok? <==> EntryFinishes(lib, op, l, r, i)
  {}

  lemma {:induction false} EntriesSucceedIff(lib: Library, op: TokenType, l: VectorValue, r: VectorValue, n: nat)
    requires Sized(l, n) && Sized(r, n)
    requires IsComparison(op) || (op.LIKE? && !(IsNumeric(l) && IsNumeric(r)))
    ensures Collect(Entries(lib, op, l, r, n), n).Ok? <==> forall i: nat :: i < n ==> EntryFinishes(lib, op, l, r, i)
  {
    var entry := Entries(lib, op, l, r, n);
    CollectEntries(entry, n);
    forall i: nat | i < n ensures entry(i).Ok? <==> EntryFinishes(lib, op, l, r, i) { EntryOkIff(lib, op, l, r, i); }
  }

  lemma {:induction false} CompareSucceedsIff(lib: Library, op: TokenType, l: VectorValue, r: VectorValue, n: nat)
    requires Sized(l, n) && Sized(r, n) && (IsComparison(op) || op.LIKE?)
    ensures Compare(lib, op, l, r, n).Ok? <==>
            if IsNumeric(l) && IsNumeric(r) then IsComparison(op)
            else (IsString(l) || IsString(r)) && forall i: nat :: i < n ==> EntryFinishes(lib, op, l, r, i)
  {
    if IsComparison(op) || !(IsNumeric(l) && IsNumeric(r)) { EntriesSucceedIff(lib, op, l, r, n); }
  }

  /** A value that is computed is of its kind, and its text is the text of its expression. */
  lemma {:induction false} ValueHasKind(lib: Library, e: Expr, b: VectorBatch)
    requires ValidBatch(b) && KnownOperators(e) && EvalVector(lib, e, b).Ok?
    ensures HasKind(EvalVector(lib, e, b).value, KindOf(e, b))
    ensures forall i: nat :: i < b.numRows ==> TextAt(lib, EvalVector(lib, e, b).value, i) == RowText(lib, e, b, i)
  {
    if e.Binary? {
      ValueHasKind(lib, e.left, b);
      ValueHasKind(lib, e.right, b);
      if !e.token.kind.AND? && !e.token.kind.OR? {
        CompareSucceedsIff(lib, e.token.kind, EvalVector(lib, e.left, b).value, EvalVector(lib, e.right, b).value,
                           b.numRows);
      }
    }
  }

  /** For every expression of known operators: the columnar evaluator has a value for it exactly if
      it is of some kind and every LIKE in it, needed or not, stays within its step budget. */
  lemma {:induction false} EvaluatesIff(lib: Library, e: Expr, b: VectorBatch)
    requires ValidBatch(b) && KnownOperators(e)
    ensures EvalVector(lib, e, b).Ok? <==> !KindOf(e, b).NoKind? && EveryLikeFinishes(lib, e, b)
  {
    if e.Binary? {
      EvaluatesIff(lib, e.left, b);
      EvaluatesIff(lib, e.right, b);
      if EvalVector(lib, e.left, b).Ok? && EvalVector(lib, e.right, b).Ok? { BinaryEvaluatesIff(lib, e, b); }
    }
  }

  lemma {:induction false} BinaryEvaluatesIff(lib: Library, e: Expr, b: VectorBatch)
    requires ValidBatch(b) && KnownOperators(e) && e.Binary?
    requires EvalVector(lib, e.left, b).Ok? && EvalVector(lib, e.right, b).Ok?
    requires !KindOf(e.left, b).NoKind? && EveryLikeFinishes(lib, e.left, b)
    requires !KindOf(e.right, b).NoKind? && EveryLikeFinishes(lib, e.right, b)
    ensures EvalVector(lib, e, b).Ok? <==> !KindOf(e, b).NoKind? && EveryLikeFinishes(lib, e, b)
  {
    var l, r := EvalVector(lib, e.left, b).value, EvalVector(lib, e.right, b).value;
    ValueHasKind(lib, e.left, b);
    ValueHasKind(lib, e.right, b);
    if !e.token.kind.AND? && !e.token.kind.OR? {
      assert EvalVector(lib, e, b).Ok? <==> Compare(lib, e.token.kind, l, r, b.numRows).Ok?;
      CompareOfKinds(lib, e, b, l, r);
    }
  }

  lemma {:induction false} CompareOfKinds(lib: Library, e: Expr, b: VectorBatch, l: VectorValue, r: VectorValue)
    requires ValidBatch(b) && e.Binary? && (IsComparison(e.token.kind) || e.token.kind.LIKE?)
    requires Sized(l, b.numRows) && HasKind(l, KindOf(e.left, b))
    requires Sized(r, b.numRows) && HasKind(r, KindOf(e.right, b))
    requires forall i: nat :: i < b.numRows ==> TextAt(lib, l, i) == RowText(lib, e.left, b, i)
    requires forall i: nat :: i < b.numRows ==> TextAt(lib, r, i) == RowText(lib, e.right, b, i)
    ensures Compare(lib, e.token.kind, l, r, b.numRows).Ok? <==>
            !KindOf(e, b).NoKind? && (e.token.kind.LIKE? ==> LikeFinishes(lib, e.left, e.right, b))
  {
    var op, n := e.token.kind, b.numRows;
    CompareSucceedsIff(lib, op, l, r, n);
    forall i: nat | i < n
      ensures EntryFinishes(lib, op, l, r, i) <==>
              (op.LIKE? ==> Like.MatchLike(RowText(lib, e.left, b, i), RowText(lib, e.right, b, i)).Ok?)
    {}
    if LikeFinishes(lib, e.left, e.right, b) {
      assert forall i: nat :: i < n ==> EntryFinishes(lib, op, l, r, i);
    } else if op.LIKE? {
      var i: nat :| i < n && Like.MatchLike(RowText(lib, e.left, b, i), RowText(lib, e.right, b, i)).Err?;
      assert !EntryFinishes(lib, op, l, r, i);
    }
  }

  /** The columnar evaluator answers a condition exactly if it is a truth value by its columns and
      every LIKE in it, needed or not, stays within its step budget on every row. */
  lemma {:induction false} VectorisedSucceedsIff(lib: Library, e: Expr, b: VectorBatch)
    requires ValidBatch(b) && KnownOperators(e)
    ensures ConditionBits(lib, e, b).Ok? <==> KindOf(e, b).Truth? && EveryLikeFinishes(lib, e, b)
  {
    EvaluatesIff(lib, e, b);
    if EvalVector(lib, e, b).Ok? { ValueHasKind(lib, e, b); }
  }

  /** The number of an expression in row i. A number strtod does not accept counts as zero. */
  ghost function RowNumber(lib: Library, e: Expr, b: VectorBatch, i: nat): real
    requires ValidBatch(b) && i < b.numRows
  {
    if !e.Literal? then 0.0
    else if e.token.kind.IDENTIFIER? then (if e.token.value in b.numeric then b.numeric[e.token.value][i] else 0.0)
    else
      var x := TryParseDouble(lib, e.token.value);
      if x.Some? then x.value else 0.0
  }

  /** The truth of a condition in row i by its columns: two numbers are compared as numbers, and
      anything else by its texts. */
  ghost predicate TrueAt(lib: Library, e: Expr, b: VectorBatch, i: nat)
    requires ValidBatch(b) && i < b.numRows
  {
    e.Binary? &&
    match e.token.kind
    case AND => TrueAt(lib, e.left, b, i) && TrueAt(lib, e.right, b, i)
    case OR => TrueAt(lib, e.left, b, i) || TrueAt(lib, e.right, b, i)
    case LIKE => Like.MatchLike(RowText(lib, e.left, b, i), RowText(lib, e.right, b, i)) == Ok(true)
    case op =>
      if KindOf(e.left, b).Number? && KindOf(e.right, b).Number? then
        CompareNumbers(op, RowNumber(lib, e.left, b, i), RowNumber(lib, e.right, b, i)) == Some(true)
      else CompareStrings(op, RowText(lib, e.left, b, i), RowText(lib, e.right, b, i)) == Some(true)
  }

  /** Bit i of whatever the columnar evaluator answers. */
  lemma {:induction false} BitsMean(lib: Library, e: Expr, b: VectorBatch, i: nat)
    requires ValidBatch(b) && KnownOperators(e) && i < b.numRows && ConditionBits(lib, e, b).Ok?
    ensures ConditionBits(lib, e, b).value[i] <==> TrueAt(lib, e, b, i)
  {
    ValueHasKind(lib, e, b);
    if e.token.kind.AND? || e.token.kind.OR? {
      BitsMean(lib, e.left, b, i);
      BitsMean(lib, e.right, b, i);
    } else {
      EntryMeans(lib, e, b, i);
      CompareBit(lib, e.token.kind, EvalVector(lib, e.left, b).value, EvalVector(lib, e.right, b).value, b.numRows, i);
    }
  }

  /** The bits of a comparison are its entries. */
  lemma {:induction false} CompareBit(lib: Library, op: TokenType, l: VectorValue, r: VectorValue, n: nat, i: nat)
    requires Sized(l, n) && Sized(r, n) && i < n && Compare(lib, op, l, r, n).Ok?
    ensures CompareAt(lib, op, l, r, i) == Ok(Compare(lib, op, l, r, n).value[i])
  {
    var entry := Entries(lib, op, l, r, n);
    CollectEntries(entry, n);
    assert entry(i) == CompareAt(lib, op, l, r, i);
  }

  lemma {:induction false} EntryMeans(lib: Library, e: Expr, b: VectorBatch, i: nat)
    requires ValidBatch(b) && KnownOperators(e) && i < b.numRows && e.Binary? && EvalVector(lib, e, b).Ok?
    requires !e.token.kind.AND? && !e.token.kind.OR?
    ensures var l, r := EvalVector(lib, e.left, b).value, EvalVector(lib, e.right, b).value;
            CompareAt(lib, e.token.kind, l, r, i).Ok? ==>
              (CompareAt(lib, e.token.kind, l, r, i).value <==> TrueAt(lib, e, b, i))
  {
    ValueHasKind(lib, e, b);
    ValueHasKind(lib, e.left, b);
    ValueHasKind(lib, e.right, b);
    NumberMeans(lib, e.left, b, i);
    NumberMeans(lib, e.right, b, i);
  }

  lemma NumberMeans(lib: Library, e: Expr, b: VectorBatch, i: nat)
    requires ValidBatch(b) && i < b.numRows && EvalVector(lib, e, b).Ok?
    ensures IsNumeric(EvalVector(lib, e, b).value) ==>
              NumberAt(EvalVector(lib, e, b).value, i) == RowNumber(lib, e, b, i)
  {}

  /** In particular every comparable condition is a truth value. */
  lemma {:induction false} ComparableIsTruth(lib: Library, e: Expr, b: VectorBatch)
    requires Comparable(lib, e, b)
    ensures KnownOperators(e) && KindOf(e, b).Truth?
  {
    if e.token.kind.AND? || e.token.kind.OR? {
      ComparableIsTruth(lib, e.left, b);
      ComparableIsTruth(lib, e.right, b);
    }
  }

  // ---- Where the two evaluators differ ----

  function CellToken(name: string): Expr { Literal(Token(IDENTIFIER, name, 1, 1)) }

  function TextLiteral(text: string): Expr { Literal(Token(STRING, text, 1, 1)) }

  /** Texts that are numbers: "10" < "9" holds for the columns and not for the rows. */
  lemma {:induction false} OrderOfTextsDiffers(lib: Library, e: Expr, b: VectorBatch)
    requires lib.parse("9") == Some(9.0) && lib.parse("10") == Some(10.0)
    requires e == Binary(Token(LESS_THAN, "<", 1, 1), CellToken("c"), TextLiteral("9"))
    requires b == VectorBatch(1, map[], map["c" := ["10"]])
    ensures ConditionBits(lib, e, b) == Ok([true]) && EvaluateCondition(lib, e, [("c", "10")]) == Ok(false)
  {
    assert StrLess("10", "9") && Find([("c", "10")][1..], "9").None?;
    OnlyBit(lib, e, b, true);
  }

  /** And "1.0" == "1" the other way round. */
  lemma {:induction false} AliasDiffers(lib: Library, e: Expr, b: VectorBatch)
    requires lib.parse("1") == Some(1.0) && lib.parse("1.0") == Some(1.0)
    requires e == Binary(Token(EQUALS, "==", 1, 1), CellToken("c"), TextLiteral("1"))
    requires b == VectorBatch(1, map[], map["c" := ["1.0"]])
    ensures ConditionBits(lib, e, b) == Ok([false]) && EvaluateCondition(lib, e, [("c", "1.0")]) == Ok(true)
  {
    assert Find([("c", "1.0")][1..], "1").None?;
    OnlyBit(lib, e, b, false);
  }

  lemma {:induction false} OnlyBit(lib: Library, e: Expr, b: VectorBatch, bit: bool)
    requires ValidBatch(b) && b.numRows == 1 && Comparable(lib, e, b) && !e.token.kind.AND? && !e.token.kind.OR?
    requires CompareAt(lib, e.token.kind, EvalVector(lib, e.left, b).value, EvalVector(lib, e.right, b).value, 0) ==
             Ok(bit)
    ensures ConditionBits(lib, e, b) == Ok([bit])
  {
    var entry := ComparisonEntries(lib, e, b);
    CollectEntries(entry, 1);
    assert entry(0) == Ok(bit);
    assert ConditionBits(lib, e, b).value == [bit];
  }

  /** A number literal and a text, in either order. */
  function Mixed(op: Token, number: Token, text: Expr, swapped: bool): Expr {
    if swapped then Binary(op, Literal(number), text) else Binary(op, text, Literal(number))
  }

  /** The operator with its operands exchanged. */
  function Flip(op: TokenType): TokenType {
    match op
    case GREATER_THAN => LESS_THAN
    case LESS_THAN => GREATER_THAN
    case GREATER_EQUALS => LESS_EQUALS
    case LESS_EQUALS => GREATER_EQUALS
    case _ => op
  }

  function Facing(op: TokenType, swapped: bool): TokenType {
    if swapped then Flip(op) else op
  }

  lemma {:induction false} MixedEntry(lib: Library, op: TokenType, number: VectorValue, text: VectorValue,
                                      swapped: bool, n: nat, i: nat)
    requires i < n && IsComparison(op) && number.NumericScalar? && IsString(text) && Sized(text, n)
    ensures var l, r := if swapped then number else text, if swapped then text else number;
            CompareAt(lib, op, l, r, i).Ok? &&
            Some(CompareAt(lib, op, l, r, i).value) == CompareStrings(Facing(op, swapped), TextAt(lib, text, i), "")
  {}

  /** The columns compare the text with "", since the literal has no text. */
  lemma {:induction false} NumberBesideStringsIsEmpty(lib: Library, op: Token, number: Token, text: Expr, swapped: bool,
                                                      b: VectorBatch, i: nat)
    requires ValidBatch(b) && i < b.numRows && IsComparison(op.kind)
    requires number.kind.NUMBER? && StringSide(text, b)
    ensures ConditionBits(lib, Mixed(op, number, text, swapped), b).Ok?
    ensures Some(ConditionBits(lib, Mixed(op, number, text, swapped), b).value[i]) ==
            CompareStrings(Facing(op.kind, swapped), SideText(text, b, i), "")
  {
    var n := b.numRows;
    var t, x := EvalVector(lib, text, b).value, EvalVector(lib, Literal(number), b).value;
    var l, r := if swapped then x else t, if swapped then t else x;
    var entry := Entries(lib, op.kind, l, r, n);
    forall k: nat | k < n
      ensures entry(k).Ok? && Some(entry(k).value) == CompareStrings(Facing(op.kind, swapped), TextAt(lib, t, k), "")
    {
      MixedEntry(lib, op.kind, x, t, swapped, n, k);
    }
    CollectEntries(entry, n);
    assert ConditionBits(lib, Mixed(op, number, text, swapped), b) == Collect(entry, n);
  }

  /** Where comparing with "" happens to be right. */
  ghost predicate EmptyWillDo(lib: Library, op: TokenType, text: string, literal: string) {
    match op
    case EQUALS | NOT_EQUALS => text != "" && TryParseDouble(lib, text) != TryParseDouble(lib, literal)
    case LESS_THAN | GREATER_EQUALS => !Before(lib, text, literal)
    case GREATER_THAN | LESS_EQUALS => text == "" || Before(lib, literal, text)
    case _ => true
  }

  /** A number literal beside a text: the two evaluators agree on a row exactly if the text is not
      empty and not the number (for == and !=), not below the number (for < and >=), or empty or
      above the number (for > and <=). */
  lemma {:induction false} MixedAgreesIff(lib: Library, op: Token, number: Token, text: Expr, swapped: bool,
                                          b: VectorBatch, i: nat, row: Row)
    requires ValidBatch(b) && i < b.numRows && RowOf(lib, b, i, row) && IsComparison(op.kind)
    requires number.kind.NUMBER? && TryParseDouble(lib, number.value).Some? && StringSide(text, b)
    requires NoColumnNamed(Mixed(op, number, text, swapped), row)
    ensures ConditionBits(lib, Mixed(op, number, text, swapped), b).Ok?
    ensures EvaluateCondition(lib, Mixed(op, number, text, swapped), row) ==
              Ok(ConditionBits(lib, Mixed(op, number, text, swapped), b).value[i])
            <==> EmptyWillDo(lib, Facing(op.kind, swapped), SideText(text, b, i), number.value)
  {
    NumberBesideStringsIsEmpty(lib, op, number, text, swapped, b, i);
    StringOperand(lib, text, b, i, row);
    StrLessTotal(SideText(text, b, i), number.value);
  }
}
