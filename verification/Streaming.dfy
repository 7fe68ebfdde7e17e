/** Streaming execution: every primary row is joined, filtered, projected and delivered. */
module Streaming {
  import opened Wrappers
  import opened Rows
  import opened Ast
  import opened Evaluator

  /** fields is None for SELECT *. */
  datatype Query = Query(where_: Option<Expr>, fields: Option<seq<Expr>>)

  /** A joined source read into memory. For a simple equi-join (column == column) the rows are
      found through an index by key text; otherwise they are all tried. */
  datatype Join = Join(cond: Expr, hashed: bool, primary: string, secondary: string,
                       index: map<string, seq<Row>>, rows: seq<Row>)

  // ---- Reading a joined source ----

  predicate IsSimpleEquiJoin(cond: Expr) {
    && cond.Binary? && cond.token.kind.EQUALS?
    && cond.left.Literal? && cond.right.Literal?
    && cond.left.token.kind.IDENTIFIER? && cond.right.token.kind.IDENTIFIER?
  }

  /** The condition is `l == r` for two names. */
  ghost predicate EquatesNames(cond: Expr, op: Token, l: Token, r: Token) {
    cond == Binary(op, Literal(l), Literal(r)) && op.kind == EQUALS && l.kind == IDENTIFIER && r.kind == IDENTIFIER
  }

  lemma {:induction false} EquatesNamesIff(cond: Expr)
    ensures IsSimpleEquiJoin(cond) <==> exists op, l, r :: EquatesNames(cond, op, l, r)
  {
    if IsSimpleEquiJoin(cond) { assert EquatesNames(cond, cond.token, cond.left.token, cond.right.token); }
  }

  /** The first joined row decides which of the two names is its own. */
  function SecondaryKey(cond: Expr, rows: seq<Row>): string
    requires IsSimpleEquiJoin(cond)
  {
    var l, r := cond.left.token.value, cond.right.token.value;
    if rows == [] then "" else if !Has(rows[0], l) && Has(rows[0], r) then r else l
  }

  function PrimaryKey(cond: Expr, rows: seq<Row>): string
    requires IsSimpleEquiJoin(cond)
  {
    var l, r := cond.left.token.value, cond.right.token.value;
    if rows == [] then "" else if !Has(rows[0], l) && Has(rows[0], r) then l else r
  }

  function Bucket(index: map<string, seq<Row>>, key: string): seq<Row> {
    if key in index then index[key] else []
  }

  /** The rows with a given key text. */
  function RowsWithKey(rows: seq<Row>, name: string, key: string): seq<Row> {
    if rows == [] then []
    else RowsWithKey(rows[..|rows| - 1], name, key) +
         if TextOf(rows[|rows| - 1], name) == key then [rows[|rows| - 1]] else []
  }

  /** Every bucket holds the rows with its key, in any order. */
  ghost predicate IndexOf(index: map<string, seq<Row>>, rows: seq<Row>, name: string) {
    forall key :: multiset(Bucket(index, key)) == multiset(RowsWithKey(rows, name, key))
  }

  /** A join as built from its condition and its rows. */
  ghost predicate BuiltFrom(j: Join, cond: Expr, rows: seq<Row>) {
    && j.cond == cond && j.hashed == IsSimpleEquiJoin(cond)
    && (j.hashed ==> j.secondary == SecondaryKey(cond, rows) && j.primary == PrimaryKey(cond, rows) &&
                     IndexOf(j.index, rows, j.secondary))
    && j.rows == rows
  }

  lemma {:induction false} InsertedBag(b: seq<Row>, row: Row, at: nat)
    requires at <= |b|
    ensures multiset(b[..at] + [row] + b[at..]) == multiset(b) + multiset{row}
  {
    assert b == b[..at] + b[at..];
  }

  lemma {:induction false} IndexInsert(index: map<string, seq<Row>>, rows: seq<Row>, name: string, row: Row,
                                       bucket: seq<Row>)
    requires IndexOf(index, rows, name)
    requires multiset(bucket) == multiset(Bucket(index, TextOf(row, name))) + multiset{row}
    ensures IndexOf(index[TextOf(row, name) := bucket], rows + [row], name)
  {
    var index' := index[TextOf(row, name) := bucket];
    forall k ensures multiset(Bucket(index', k)) == multiset(RowsWithKey(rows + [row], name, k)) {
      BucketAfter(index, rows, name, row, bucket, k);
    }
  }

  lemma {:induction false} BucketAfter(index: map<string, seq<Row>>, rows: seq<Row>, name: string, row: Row,
                                       bucket: seq<Row>, k: string)
    requires multiset(Bucket(index, k)) == multiset(RowsWithKey(rows, name, k))
    requires multiset(bucket) == multiset(Bucket(index, TextOf(row, name))) + multiset{row}
    ensures multiset(Bucket(index[TextOf(row, name) := bucket], k)) == multiset(RowsWithKey(rows + [row], name, k))
  {
    assert (rows + [row])[..|rows|] == rows;
    if k != TextOf(row, name) { assert Bucket(index[TextOf(row, name) := bucket], k) == Bucket(index, k); }
  }

  /** The right name is the joined rows' own if the first of them has it and not the left one;
      otherwise the left one is. */
  predicate KeysNamed(j: Join, l: string, r: string, first: Row) {
    if Find(first, l).None? && Find(first, r).Some? then j.primary == l && j.secondary == r
    else j.primary == r && j.secondary == l
  }

  /** Reads a joined source. Where a row lands among others with its key is the hash table's
      affair. rowsProcessed is checked before each row. */
  method BuildJoin(cond: Expr, rows: seq<Row>, processed: nat, maxRows: nat)
    returns (res: Result<Join>, newProcessed: nat)
    requires IsSimpleEquiJoin(cond) ==> cond.left.token.value != "" && cond.right.token.value != ""
    ensures res.Ok? <==> rows == [] || processed + |rows| <= maxRows
    ensures res.Ok? ==> newProcessed == processed + |rows| && BuiltFrom(res.value, cond, rows)
    ensures res.Ok? ==> (res.value.hashed <==> exists op, l, r :: EquatesNames(cond, op, l, r))
    ensures res.Ok? && rows != [] ==>
              forall op, l, r :: EquatesNames(cond, op, l, r) ==> KeysNamed(res.value, l.value, r.value, rows[0])
  {
    EquatesNamesIff(cond);
    var hashed := IsSimpleEquiJoin(cond);
    var primary, secondary := "", "";
    var index: map<string, seq<Row>> := map[];
    var fallback: seq<Row> := [];
    newProcessed := processed;
    for i := 0 to |rows|
      invariant newProcessed == processed + i && (i > 0 ==> newProcessed <= maxRows)
      invariant fallback == rows[..i]
      invariant hashed ==> secondary == SecondaryKey(cond, rows[..i]) && primary == PrimaryKey(cond, rows[..i])
      invariant hashed && i > 0 ==>
                  secondary == SecondaryKey(cond, rows) && primary == PrimaryKey(cond, rows) && secondary != ""
      invariant hashed ==> IndexOf(index, rows[..i], secondary)
    {
      if newProcessed >= maxRows { return Err(SecurityError), newProcessed; }
      var row := rows[i];
      newProcessed := newProcessed + 1;
      if hashed {
        var l, r := cond.left.token.value, cond.right.token.value;
        if secondary == "" {
          if Has(row, l) { secondary, primary := l, r; }
          else if Has(row, r) { secondary, primary := r, l; }
          else { secondary, primary := l, r; }
        }
        var key := TextOf(row, secondary);
        var bucket := Bucket(index, key);
        var at: nat :| at <= |bucket|;
        InsertedBag(bucket, row, at);
        IndexInsert(index, rows[..i], secondary, row, bucket[..at] + [row] + bucket[at..]);
        index := index[key := bucket[..at] + [row] + bucket[at..]];
      }
      assert rows[..i + 1] == rows[..i] + [row];
      fallback := fallback + [row];
    }
    assert rows[..|rows|] == rows;
    res := Ok(Join(cond, hashed, primary, secondary, index, fallback));
  }

  // ---- Delivering a row ----

  function Project(lib: Library, fields: seq<Expr>, row: Row, outRow: Row): Result<Row> {
    if fields == [] then Ok(outRow) else
    var v :- EvaluateExpression(lib, fields[0], row);
    Project(lib, fields[1..], row, Put(outRow, FormatExpression(fields[0]), v))
  }

  /** The rows delivered for one row: itself projected, or nothing if WHERE rejects it. */
  function Emit(lib: Library, q: Query, row: Row): Result<seq<Row>> {
    var included :- Keeps(lib, q.where_, row);
    if !included then Ok([])
    else if q.fields.None? then Ok([row])
    else
      var outRow :- Project(lib, q.fields.value, row, []);
      Ok([outRow])
  }

  /** The joined rows tried for the current row. */
  function Candidates(j: Join, current: Row): seq<Row> {
    if j.hashed then Bucket(j.index, TextOf(current, j.primary)) else j.rows
  }

  // ---- The rows a query delivers, without LIMIT ----

  /** Everything delivered for a row that has passed the first idx joins. */
  function JoinRows(lib: Library, q: Query, joins: seq<Join>, idx: nat, current: Row): Result<seq<Row>>
    requires idx <= |joins|
    decreases |joins| - idx, 1, 0
  {
    if idx == |joins| then Emit(lib, q, current)
    else TryAll(lib, q, joins, idx, Candidates(joins[idx], current), current)
  }

  function TryAll(lib: Library, q: Query, joins: seq<Join>, idx: nat, cands: seq<Row>, current: Row): Result<seq<Row>>
    requires idx < |joins|
    decreases |joins| - idx, 0, |cands|
  {
    if cands == [] then Ok([]) else
    var first :- TryOne(lib, q, joins, idx, cands[0], current);
    var rest :- TryAll(lib, q, joins, idx, cands[1..], current);
    Ok(first + rest)
  }

  function TryOne(lib: Library, q: Query, joins: seq<Join>, idx: nat, cand: Row, current: Row): Result<seq<Row>>
    requires idx < |joins|
    decreases |joins| - idx, 0, 0
  {
    var next := Overlay(current, cand);
    var keep :- EvaluateCondition(lib, joins[idx].cond, next);
    if keep then JoinRows(lib, q, joins, idx + 1, next) else Ok([])
  }

  /** Everything delivered for a sequence of primary rows. */
  function Stream(lib: Library, q: Query, joins: seq<Join>, rows: seq<Row>): Result<seq<Row>> {
    if rows == [] then Ok([]) else
    var front :- Stream(lib, q, joins, rows[..|rows| - 1]);
    var last :- JoinRows(lib, q, joins, 0, rows[|rows| - 1]);
    Ok(front + last)
  }

  /** Streaming distributes over concatenation of the primary rows. */
  lemma {:induction false} StreamConcat(lib: Library, q: Query, joins: seq<Join>, a: seq<Row>, b: seq<Row>)
    ensures Stream(lib, q, joins, a + b).Ok? <==> Stream(lib, q, joins, a).Ok? && Stream(lib, q, joins, b).Ok?
    ensures Stream(lib, q, joins, a + b).Ok? ==>
              Stream(lib, q, joins, a + b).value == Stream(lib, q, joins, a).value + Stream(lib, q, joins, b).value
  {
    if b == [] {
      assert a + b == a;
    } else {
      assert (a + b)[..|a + b| - 1] == a + b[..|b| - 1];
      StreamConcat(lib, q, joins, a, b[..|b| - 1]);
    }
  }

  // ---- What is delivered, in terms of conditions and expressions ----

  /** The texts of the fields are different names. */
  ghost predicate DifferentTexts(fields: seq<Expr>) {
    forall i, j :: 0 <= i < j < |fields| ==> FormatExpression(fields[i]) != FormatExpression(fields[j])
  }

  /** out has, under the text of each field, the value of that field in the row, and no other name.
      Where texts coincide the last field counts; where they do not, the fields are in order. */
  ghost predicate Projects(lib: Library, fields: seq<Expr>, row: Row, out: Row) {
    && Distinct(out)
    && (forall name :: Has(out, name) <==> exists i :: 0 <= i < |fields| && FormatExpression(fields[i]) == name)
    && (forall i :: 0 <= i < |fields| && IsLast(fields, i) ==> HasField(lib, fields[i], row, out))
    && (DifferentTexts(fields) ==>
          |out| == |fields| && forall i :: 0 <= i < |fields| ==> out[i].0 == FormatExpression(fields[i]))
  }

  /** out has the value of the field under its text. */
  ghost predicate HasField(lib: Library, field: Expr, row: Row, out: Row) {
    exists v :: EvaluateExpression(lib, field, row) == Ok(v) && Find(out, FormatExpression(field)) == Some(v)
  }

  /** No later field has the same text. */
  ghost predicate IsLast(fields: seq<Expr>, i: nat)
    requires i < |fields|
  {
    forall j :: i < j < |fields| ==> FormatExpression(fields[j]) != FormatExpression(fields[i])
  }

  /** What is delivered for a row that passes: the row itself for SELECT *. */
  ghost predicate Shown(lib: Library, q: Query, row: Row, out: Row) {
    match q.fields
    case None => out == row
    case Some(fields) => Projects(lib, fields, row, out)
  }

  ghost predicate ShownAll(lib: Library, q: Query, rows: seq<Row>, out: seq<Row>) {
    |out| == |rows| && forall i :: 0 <= i < |rows| ==> Shown(lib, q, rows[i], out[i])
  }

  /** WHERE can be judged, and if it is true every field has a value. */
  ghost predicate Showable(lib: Library, q: Query, row: Row) {
    && Judged(lib, q.where_, row)
    && (Passes(lib, q.where_, row) && q.fields.Some? ==>
          forall i :: 0 <= i < |q.fields.value| ==> EvaluateExpression(lib, q.fields.value[i], row).Ok?)
  }

  ghost predicate AllShowable(lib: Library, q: Query, rows: seq<Row>) {
    forall i :: 0 <= i < |rows| ==> Showable(lib, q, rows[i])
  }

  /** The overlaid rows that meet all conditions from join idx on, in the order they are tried. */
  function Joined(lib: Library, joins: seq<Join>, idx: nat, current: Row): seq<Row>
    requires idx <= |joins|
    decreases |joins| - idx, 1, 0
  {
    if idx == |joins| then [current]
    else JoinedWith(lib, joins, idx, Candidates(joins[idx], current), current)
  }

  function JoinedWith(lib: Library, joins: seq<Join>, idx: nat, cands: seq<Row>, current: Row): seq<Row>
    requires idx < |joins|
    decreases |joins| - idx, 0, |cands|
  {
    if cands == [] then []
    else JoinedOne(lib, joins, idx, cands[0], current) + JoinedWith(lib, joins, idx, cands[1..], current)
  }

  function JoinedOne(lib: Library, joins: seq<Join>, idx: nat, cand: Row, current: Row): seq<Row>
    requires idx < |joins|
    decreases |joins| - idx, 0, 0
  {
    var next := Overlay(current, cand);
    if EvaluateCondition(lib, joins[idx].cond, next) == Ok(true) then Joined(lib, joins, idx + 1, next) else []
  }

  /** out is current with one candidate of each join from idx on copied over it in turn, after each
      of which the condition of its join is true. */
  ghost predicate JoinsTo(lib: Library, joins: seq<Join>, idx: nat, current: Row, out: Row)
    requires idx <= |joins|
    decreases |joins| - idx
  {
    if idx == |joins| then out == current
    else exists c :: c in Candidates(joins[idx], current) && JoinsVia(lib, joins, idx, current, c, out)
  }

  ghost predicate JoinsVia(lib: Library, joins: seq<Join>, idx: nat, current: Row, c: Row, out: Row)
    requires idx < |joins|
    decreases |joins| - idx, 0
  {
    && EvaluateCondition(lib, joins[idx].cond, Overlay(current, c)) == Ok(true)
    && JoinsTo(lib, joins, idx + 1, Overlay(current, c), out)
  }

  /** Every condition that is tried can be judged. */
  ghost predicate Tried(lib: Library, joins: seq<Join>, idx: nat, current: Row)
    requires idx <= |joins|
    decreases |joins| - idx, 1
  {
    idx < |joins| ==> forall c :: c in Candidates(joins[idx], current) ==> TriedVia(lib, joins, idx, current, c)
  }

  ghost predicate TriedVia(lib: Library, joins: seq<Join>, idx: nat, current: Row, c: Row)
    requires idx < |joins|
    decreases |joins| - idx, 0
  {
    var next := Overlay(current, c);
    && EvaluateCondition(lib, joins[idx].cond, next).Ok?
    && (EvaluateCondition(lib, joins[idx].cond, next) == Ok(true) ==> Tried(lib, joins, idx + 1, next))
  }

  function AllJoined(lib: Library, joins: seq<Join>, rows: seq<Row>): seq<Row> {
    if rows == [] then []
    else AllJoined(lib, joins, rows[..|rows| - 1]) + Joined(lib, joins, 0, rows[|rows| - 1])
  }

  /** No condition, field or WHERE that is needed fails. */
  ghost predicate Streamable(lib: Library, q: Query, joins: seq<Join>, rows: seq<Row>) {
    EachTried(lib, joins, rows) && AllShowable(lib, q, AllJoined(lib, joins, rows))
  }

  ghost predicate EachTried(lib: Library, joins: seq<Join>, rows: seq<Row>) {
    forall i :: 0 <= i < |rows| ==> Tried(lib, joins, 0, rows[i])
  }

  lemma {:induction false} LaterFields(fields: seq<Expr>, i: nat)
    requires 0 < i < |fields| && IsLast(fields, i)
    ensures IsLast(fields[1..], i - 1) && fields[1..][i - 1] == fields[i]
  {
    forall j | i - 1 < j < |fields| - 1 ensures FormatExpression(fields[1..][j]) != FormatExpression(fields[i]) {
      assert fields[1..][j] == fields[j + 1];
    }
  }

  lemma {:induction false} ProjectNames(lib: Library, fields: seq<Expr>, row: Row, before: Row, name: string)
    requires Distinct(before) && Project(lib, fields, row, before).Ok?
    ensures Distinct(Project(lib, fields, row, before).value)
    ensures Has(Project(lib, fields, row, before).value, name) <==>
            Has(before, name) || exists i :: 0 <= i < |fields| && FormatExpression(fields[i]) == name
    ensures (forall i :: 0 <= i < |fields| ==> FormatExpression(fields[i]) != name) ==>
              Find(Project(lib, fields, row, before).value, name) == Find(before, name)
    decreases |fields|
  {
    if fields != [] {
      var text, v := FormatExpression(fields[0]), EvaluateExpression(lib, fields[0], row).value;
      PutDistinct(before, text, v);
      FindPut(before, text, v, name);
      ProjectNames(lib, fields[1..], row, Put(before, text, v), name);
      assert forall i :: 0 <= i < |fields| - 1 ==> fields[1..][i] == fields[i + 1];
      if i :| 0 <= i < |fields| && FormatExpression(fields[i]) == name {
        if i > 0 { assert fields[1..][i - 1] == fields[i]; }
      }
    }
  }

  lemma {:induction false} ProjectValue(lib: Library, fields: seq<Expr>, row: Row, before: Row, i: nat)
    requires Distinct(before) && Project(lib, fields, row, before).Ok? && i < |fields| && IsLast(fields, i)
    ensures EvaluateExpression(lib, fields[i], row).Ok?
    ensures Find(Project(lib, fields, row, before).value, FormatExpression(fields[i])) ==
            Some(EvaluateExpression(lib, fields[i], row).value)
    decreases |fields|
  {
    var text, v := FormatExpression(fields[0]), EvaluateExpression(lib, fields[0], row).value;
    PutDistinct(before, text, v);
    if i == 0 {
      FindPut(before, text, v, text);
      forall j | 0 <= j < |fields[1..]| ensures FormatExpression(fields[1..][j]) != text {
        assert fields[1..][j] == fields[j + 1];
      }
      ProjectNames(lib, fields[1..], row, Put(before, text, v), text);
    } else {
      LaterFields(fields, i);
      ProjectValue(lib, fields[1..], row, Put(before, text, v), i - 1);
    }
  }

  lemma {:induction false} ProjectOkIff(lib: Library, fields: seq<Expr>, row: Row, before: Row)
    ensures Project(lib, fields, row, before).Ok? <==>
            forall i :: 0 <= i < |fields| ==> EvaluateExpression(lib, fields[i], row).Ok?
    decreases |fields|
  {
    if fields != [] && EvaluateExpression(lib, fields[0], row).Ok? {
      ProjectOkIff(lib, fields[1..], row,
                   Put(before, FormatExpression(fields[0]), EvaluateExpression(lib, fields[0], row).value));
      assert forall i :: 0 <= i < |fields| - 1 ==> fields[1..][i] == fields[i + 1];
      assert forall i :: 0 < i < |fields| ==> fields[i] == fields[1..][i - 1];
    }
  }

  lemma {:induction false} ProjectOrder(lib: Library, fields: seq<Expr>, row: Row, before: Row)
    requires Project(lib, fields, row, before).Ok? && DifferentTexts(fields)
    requires forall i, k :: 0 <= i < |fields| && 0 <= k < |before| ==> before[k].0 != FormatExpression(fields[i])
    ensures var out := Project(lib, fields, row, before).value;
            && |out| == |before| + |fields| && before <= out
            && forall i :: 0 <= i < |fields| ==> out[|before| + i].0 == FormatExpression(fields[i])
    decreases |fields|
  {
    if fields != [] {
      var text, v, rest := FormatExpression(fields[0]), EvaluateExpression(lib, fields[0], row).value, fields[1..];
      PutNew(before, text, v);
      var more := before + [(text, v)];
      forall i, k | 0 <= i < |rest| && 0 <= k < |more| ensures more[k].0 != FormatExpression(rest[i]) {
        assert rest[i] == fields[i + 1];
      }
      assert forall i :: 0 <= i < |rest| ==> rest[i] == fields[i + 1];
      ProjectOrder(lib, rest, row, more);
      var out := Project(lib, fields, row, before).value;
      forall i | 0 <= i < |fields| ensures out[|before| + i].0 == FormatExpression(fields[i]) {
        if i == 0 {
          assert out[|before|] == more[|before|];
        } else {
          assert out[|more| + (i - 1)].0 == FormatExpression(rest[i - 1]);
        }
      }
    }
  }

  lemma {:induction false} ProjectMeans(lib: Library, fields: seq<Expr>, row: Row)
    requires Project(lib, fields, row, []).Ok?
    ensures Projects(lib, fields, row, Project(lib, fields, row, []).value)
  {
    var out := Project(lib, fields, row, []).value;
    forall name ensures Has(out, name) <==> exists i :: 0 <= i < |fields| && FormatExpression(fields[i]) == name {
      ProjectNames(lib, fields, row, [], name);
    }
    ProjectNames(lib, fields, row, [], "");
    forall i | 0 <= i < |fields| && IsLast(fields, i)
      ensures HasField(lib, fields[i], row, out)
    {
      ProjectValue(lib, fields, row, [], i);
    }
    if DifferentTexts(fields) { ProjectOrder(lib, fields, row, []); }
  }

  /** One row: it is shown if it passes, and nothing is if it does not. */
  lemma {:induction false} EmitMeans(lib: Library, q: Query, row: Row)
    ensures Emit(lib, q, row).Ok? <==> Showable(lib, q, row)
    ensures Emit(lib, q, row).Ok? ==>
              ShownAll(lib, q, if Passes(lib, q.where_, row) then [row] else [], Emit(lib, q, row).value)
  {
    if q.fields.Some? {
      ProjectOkIff(lib, q.fields.value, row, []);
      if Project(lib, q.fields.value, row, []).Ok? { ProjectMeans(lib, q.fields.value, row); }
    }
  }

  lemma {:induction false} ShownConcat(lib: Library, q: Query, a: seq<Row>, b: seq<Row>, x: seq<Row>, y: seq<Row>)
    requires ShownAll(lib, q, a, x) && ShownAll(lib, q, b, y)
    ensures ShownAll(lib, q, a + b, x + y)
  {}

  lemma {:induction false} ShowableConcat(lib: Library, q: Query, a: seq<Row>, b: seq<Row>)
    ensures AllShowable(lib, q, a + b) <==> AllShowable(lib, q, a) && AllShowable(lib, q, b)
  {
    if AllShowable(lib, q, a + b) {
      assert forall i :: 0 <= i < |a| ==> (a + b)[i] == a[i];
      assert forall i :: 0 <= i < |b| ==> (a + b)[|a| + i] == b[i];
    }
  }

  lemma {:induction false} OneRow(lib: Library, q: Query, row: Row)
    ensures Passing(lib, q.where_, [row]) == if Passes(lib, q.where_, row) then [row] else []
    ensures AllShowable(lib, q, [row]) <==> Showable(lib, q, row)
  {
    assert [row][..0] == [];
    assert AllShowable(lib, q, [row]) <==> Showable(lib, q, [row][0]);
  }

  /** r is what is delivered for these overlaid rows, if every condition on the way was judged. */
  ghost predicate Answered(lib: Library, q: Query, tried: bool, joined: seq<Row>, r: Result<seq<Row>>) {
    && (r.Ok? <==> tried && AllShowable(lib, q, joined))
    && (r.Ok? ==> ShownAll(lib, q, Passing(lib, q.where_, joined), r.value))
  }

  lemma {:induction false} AnsweredBoth(lib: Library, q: Query, t: bool, a: seq<Row>, x: Result<seq<Row>>, u: bool,
                                        b: seq<Row>, y: Result<seq<Row>>)
    requires Answered(lib, q, t, a, x) && Answered(lib, q, u, b, y)
    ensures Answered(lib, q, t && u, a + b, Append(x, y))
  {
    ShowableConcat(lib, q, a, b);
    PassingConcat(lib, q.where_, a, b);
    if x.Ok? && y.Ok? {
      ShownConcat(lib, q, Passing(lib, q.where_, a), Passing(lib, q.where_, b), x.value, y.value);
    }
  }

  /** All that is delivered for a row that has passed the first idx joins: the overlaid rows that
      meet the remaining conditions and WHERE, each shown. */
  lemma {:induction false} JoinRowsMean(lib: Library, q: Query, joins: seq<Join>, idx: nat, current: Row)
    requires idx <= |joins|
    ensures Answered(lib, q, Tried(lib, joins, idx, current), Joined(lib, joins, idx, current),
                     JoinRows(lib, q, joins, idx, current))
    decreases |joins| - idx, 1, 0
  {
    if idx == |joins| {
      EmitMeans(lib, q, current);
      OneRow(lib, q, current);
    } else {
      TryAllMeans(lib, q, joins, idx, Candidates(joins[idx], current), current);
    }
  }

  lemma {:induction false} TryAllMeans(lib: Library, q: Query, joins: seq<Join>, idx: nat, cands: seq<Row>,
                                       current: Row)
    requires idx < |joins|
    ensures Answered(lib, q, forall c :: c in cands ==> TriedVia(lib, joins, idx, current, c),
                     JoinedWith(lib, joins, idx, cands, current), TryAll(lib, q, joins, idx, cands, current))
    decreases |joins| - idx, 0, |cands|
  {
    if cands != [] {
      TryOneMeans(lib, q, joins, idx, cands[0], current);
      TryAllMeans(lib, q, joins, idx, cands[1..], current);
      AllTried(lib, joins, idx, cands, current);
      AnsweredBoth(lib, q, TriedVia(lib, joins, idx, current, cands[0]),
                   JoinedOne(lib, joins, idx, cands[0], current), TryOne(lib, q, joins, idx, cands[0], current),
                   forall c :: c in cands[1..] ==> TriedVia(lib, joins, idx, current, c),
                   JoinedWith(lib, joins, idx, cands[1..], current), TryAll(lib, q, joins, idx, cands[1..], current));
      TryAllIsAppend(lib, q, joins, idx, cands, current);
    }
  }

  lemma TryAllIsAppend(lib: Library, q: Query, joins: seq<Join>, idx: nat, cands: seq<Row>, current: Row)
    requires idx < |joins| && cands != []
    ensures TryAll(lib, q, joins, idx, cands, current) ==
            Append(TryOne(lib, q, joins, idx, cands[0], current), TryAll(lib, q, joins, idx, cands[1..], current))
  {}

  lemma {:induction false} TryOneMeans(lib: Library, q: Query, joins: seq<Join>, idx: nat, cand: Row, current: Row)
    requires idx < |joins|
    ensures Answered(lib, q, TriedVia(lib, joins, idx, current, cand), JoinedOne(lib, joins, idx, cand, current),
                     TryOne(lib, q, joins, idx, cand, current))
    decreases |joins| - idx, 0, 0
  {
    JoinRowsMean(lib, q, joins, idx + 1, Overlay(current, cand));
  }

  lemma {:induction false} AllTried(lib: Library, joins: seq<Join>, idx: nat, cands: seq<Row>, current: Row)
    requires idx < |joins| && cands != []
    ensures (forall c :: c in cands ==> TriedVia(lib, joins, idx, current, c)) <==>
            TriedVia(lib, joins, idx, current, cands[0]) &&
            forall c :: c in cands[1..] ==> TriedVia(lib, joins, idx, current, c)
  {
    assert cands == [cands[0]] + cands[1..];
    assert forall c :: c in cands <==> c == cands[0] || c in cands[1..];
  }

  lemma {:induction false} StreamableFront(lib: Library, q: Query, joins: seq<Join>, rows: seq<Row>)
    requires rows != []
    ensures Streamable(lib, q, joins, rows) <==>
            && Streamable(lib, q, joins, rows[..|rows| - 1]) && Tried(lib, joins, 0, rows[|rows| - 1])
            && AllShowable(lib, q, Joined(lib, joins, 0, rows[|rows| - 1]))
  {
    var front := rows[..|rows| - 1];
    ShowableConcat(lib, q, AllJoined(lib, joins, front), Joined(lib, joins, 0, rows[|rows| - 1]));
    TriedFront(lib, joins, rows);
  }

  lemma {:induction false} TriedFront(lib: Library, joins: seq<Join>, rows: seq<Row>)
    requires rows != []
    ensures EachTried(lib, joins, rows) <==>
            EachTried(lib, joins, rows[..|rows| - 1]) && Tried(lib, joins, 0, rows[|rows| - 1])
  {
    var front, last := rows[..|rows| - 1], rows[|rows| - 1];
    if EachTried(lib, joins, rows) {
      forall i | 0 <= i < |front| ensures Tried(lib, joins, 0, front[i]) { assert front[i] == rows[i]; }
    }
    if EachTried(lib, joins, front) && Tried(lib, joins, 0, last) {
      forall i | 0 <= i < |rows| ensures Tried(lib, joins, 0, rows[i]) {
        if i < |front| { assert rows[i] == front[i]; }
      }
    }
  }

  /** A query succeeds if and only if nothing it needs fails, and delivers exactly the overlaid rows
      on which every join condition and WHERE are true, in order, each shown. */
  lemma {:induction false} StreamMeans(lib: Library, q: Query, joins: seq<Join>, rows: seq<Row>)
    ensures Stream(lib, q, joins, rows).Ok? <==> Streamable(lib, q, joins, rows)
    ensures Stream(lib, q, joins, rows).Ok? ==>
              ShownAll(lib, q, Passing(lib, q.where_, AllJoined(lib, joins, rows)), Stream(lib, q, joins, rows).value)
  {
    if rows != [] {
      var front, last := rows[..|rows| - 1], rows[|rows| - 1];
      StreamMeans(lib, q, joins, front);
      JoinRowsMean(lib, q, joins, 0, last);
      StreamableFront(lib, q, joins, rows);
      PassingConcat(lib, q.where_, AllJoined(lib, joins, front), Joined(lib, joins, 0, last));
    }
  }

  /** Without joins and with SELECT * these are the rows on which WHERE is true. */
  lemma {:induction false} FilterMeans(lib: Library, q: Query, rows: seq<Row>)
    requires q.fields.None?
    ensures Stream(lib, q, [], rows).Ok? <==> AllJudged(lib, q.where_, rows)
    ensures Stream(lib, q, [], rows).Ok? ==> Stream(lib, q, [], rows).value == Passing(lib, q.where_, rows)
  {
    StreamMeans(lib, q, [], rows);
    NothingJoined(lib, rows);
    assert Streamable(lib, q, [], rows) <==> AllJudged(lib, q.where_, rows) by {
      if Streamable(lib, q, [], rows) {
        forall i | 0 <= i < |rows| ensures Judged(lib, q.where_, rows[i]) { assert Showable(lib, q, rows[i]); }
      }
    }
  }

  lemma {:induction false} NothingJoined(lib: Library, rows: seq<Row>)
    ensures AllJoined(lib, [], rows) == rows
  {
    if rows != [] {
      NothingJoined(lib, rows[..|rows| - 1]);
      assert Joined(lib, [], 0, rows[|rows| - 1]) == [rows[|rows| - 1]];
    }
  }

  /** The overlaid rows are those that some choice of candidates leads to. */
  lemma {:induction false} JoinedIff(lib: Library, joins: seq<Join>, idx: nat, current: Row, out: Row)
    requires idx <= |joins|
    ensures out in Joined(lib, joins, idx, current) <==> JoinsTo(lib, joins, idx, current, out)
    decreases |joins| - idx, 1, 0
  {
    if idx < |joins| { JoinedWithIff(lib, joins, idx, Candidates(joins[idx], current), current, out); }
  }

  lemma {:induction false} JoinedWithIff(lib: Library, joins: seq<Join>, idx: nat, cands: seq<Row>, current: Row,
                                         out: Row)
    requires idx < |joins|
    ensures out in JoinedWith(lib, joins, idx, cands, current) <==>
            exists c :: c in cands && JoinsVia(lib, joins, idx, current, c, out)
    decreases |joins| - idx, 0, |cands|
  {
    if cands != [] {
      JoinedIff(lib, joins, idx + 1, Overlay(current, cands[0]), out);
      JoinedWithIff(lib, joins, idx, cands[1..], current, out);
      assert cands == [cands[0]] + cands[1..];
      assert out in JoinedWith(lib, joins, idx, cands, current) <==>
             JoinsVia(lib, joins, idx, current, cands[0], out) || out in JoinedWith(lib, joins, idx, cands[1..],
                      current);
      if c :| c in cands && JoinsVia(lib, joins, idx, current, c, out) {
        assert c == cands[0] || c in cands[1..];
      }
    }
  }

  // ---- The executor ----

  /** limit 0 means no limit. */
  function Cut(limit: nat, rows: seq<Row>): seq<Row> {
    if 0 < limit < |rows| then rows[..limit] else rows
  }

  predicate Full(limit: nat, count: nat) {
    limit > 0 && count >= limit
  }

  /** What a step does to the results, when `rows` is what it should deliver: it appends these
      rows as far as the limit goes. It can only fail if they cannot all be computed, and must
      fail then unless the limit is reached. */
  ghost predicate Delivers(limit: nat, rows: Result<seq<Row>>, before: seq<Row>, after: seq<Row>, ok: bool) {
    && (rows.Ok? ==> ok && after == Cut(limit, before + rows.value))
    && (ok && !Full(limit, |after|) ==> rows.Ok?)
  }

  function Append(a: Result<seq<Row>>, b: Result<seq<Row>>): Result<seq<Row>> {
    var x :- a;
    var y :- b;
    Ok(x + y)
  }

  lemma {:induction false} DeliversTwice(limit: nat, a: Result<seq<Row>>, b: Result<seq<Row>>, before: seq<Row>,
                                         mid: seq<Row>, after: seq<Row>, ok: bool)
    requires Delivers(limit, a, before, mid, true) && Delivers(limit, b, mid, after, ok)
    ensures Delivers(limit, Append(a, b), before, after, ok)
  {
    if a.Ok? && b.Ok? {
      CutTwice(limit, before + a.value, b.value);
      assert before + a.value + b.value == before + (a.value + b.value);
    }
  }

  /** The rows delivered for the first k candidates. */
  function TryFirst(lib: Library, q: Query, joins: seq<Join>, idx: nat, cands: seq<Row>, k: nat,
                    current: Row): Result<seq<Row>>
    requires idx < |joins| && k <= |cands|
  {
    if k == 0 then Ok([])
    else Append(TryFirst(lib, q, joins, idx, cands, k - 1, current), TryOne(lib, q, joins, idx, cands[k - 1], current))
  }

  lemma {:induction false} TryAllConcat(lib: Library, q: Query, joins: seq<Join>, idx: nat, a: seq<Row>, b: seq<Row>,
                                        current: Row)
    requires idx < |joins|
    ensures TryAll(lib, q, joins, idx, a + b, current).Ok? <==>
            TryAll(lib, q, joins, idx, a, current).Ok? && TryAll(lib, q, joins, idx, b, current).Ok?
    ensures TryAll(lib, q, joins, idx, a + b, current).Ok? ==>
            TryAll(lib, q, joins, idx, a + b, current).value ==
            TryAll(lib, q, joins, idx, a, current).value + TryAll(lib, q, joins, idx, b, current).value
  {
    if a == [] {
      assert a + b == b;
    } else {
      assert (a + b)[1..] == a[1..] + b;
      TryAllConcat(lib, q, joins, idx, a[1..], b, current);
    }
  }

  lemma {:induction false} TryFirstIsAll(lib: Library, q: Query, joins: seq<Join>, idx: nat, cands: seq<Row>, k: nat,
                                         current: Row)
    requires idx < |joins| && k <= |cands|
    ensures TryFirst(lib, q, joins, idx, cands, k, current).Ok? <==> TryAll(lib, q, joins, idx, cands[..k], current).Ok?
    ensures TryFirst(lib, q, joins, idx, cands, k, current).Ok? ==>
            TryFirst(lib, q, joins, idx, cands, k, current) == TryAll(lib, q, joins, idx, cands[..k], current)
  {
    if k > 0 {
      TryFirstIsAll(lib, q, joins, idx, cands, k - 1, current);
      assert cands[..k] == cands[..k - 1] + [cands[k - 1]];
      TryAllConcat(lib, q, joins, idx, cands[..k - 1], [cands[k - 1]], current);
      TryAllOfOne(lib, q, joins, idx, cands[k - 1], current);
    }
  }

  lemma {:induction false} TryAllOfOne(lib: Library, q: Query, joins: seq<Join>, idx: nat, cand: Row, current: Row)
    requires idx < |joins|
    ensures TryAll(lib, q, joins, idx, [cand], current).Ok? <==> TryOne(lib, q, joins, idx, cand, current).Ok?
    ensures TryOne(lib, q, joins, idx, cand, current).Ok? ==>
              TryAll(lib, q, joins, idx, [cand], current) == TryOne(lib, q, joins, idx, cand, current)
  {
    assert TryAll(lib, q, joins, idx, [cand][1..], current) == Ok([]);
    var one := TryOne(lib, q, joins, idx, cand, current);
    if one.Ok? { assert one.value + [] == one.value; }
  }

  lemma {:induction false} TryFirstIsPrefix(lib: Library, q: Query, joins: seq<Join>, idx: nat, cands: seq<Row>, k: nat,
                                            current: Row)
    requires idx < |joins| && k <= |cands|
    ensures TryAll(lib, q, joins, idx, cands, current).Ok? ==> TryFirst(lib, q, joins, idx, cands, k, current).Ok?
    ensures k == |cands| && TryFirst(lib, q, joins, idx, cands, k, current).Ok? ==>
              TryFirst(lib, q, joins, idx, cands, k, current) == TryAll(lib, q, joins, idx, cands, current)
  {
    assert cands == cands[..k] + cands[k..];
    TryFirstIsAll(lib, q, joins, idx, cands, k, current);
    TryAllConcat(lib, q, joins, idx, cands[..k], cands[k..], current);
    if k == |cands| { assert cands[..k] == cands; }
  }

  class Executor {
    var results: seq<Row>
    var outputCount: nat
    var processed: nat
    const lib: Library
    const q: Query
    const joins: seq<Join>
    const limit: nat

    ghost predicate Valid()
      reads this
    {
      outputCount == |results| && Cut(limit, results) == results
    }

    constructor (lib: Library, q: Query, joins: seq<Join>, limit: nat, processed: nat)
      ensures Valid() && results == [] && this.processed == processed
      ensures this.lib == lib && this.q == q && this.joins == joins && this.limit == limit
    {
      this.lib, this.q, this.joins, this.limit := lib, q, joins, limit;
      this.results, this.outputCount, this.processed := [], 0, processed;
    }

    method ProcessRow(row: Row) returns (ok: bool)
      requires Valid()
      modifies this`results, this`outputCount
      ensures Valid() && old(results) <= results
      ensures Delivers(limit, Emit(lib, q, row), old(results), results, ok)
      ensures Full(limit, |old(results)|) ==> ok && results == old(results)
      ensures !ok ==> !Showable(lib, q, row)
      ensures ok && !Full(limit, |old(results)|) ==>
                && Showable(lib, q, row)
                && ShownAll(lib, q, if Passes(lib, q.where_, row) then [row] else [], results[|old(results)|..])
    {
      if Full(limit, outputCount) { return true; }
      EmitMeans(lib, q, row);
      var emitted := Emit(lib, q, row);
      if emitted.Err? { return false; }
      results := results + emitted.value;
      outputCount := outputCount + |emitted.value|;
      ok := true;
    }

    method EvaluateJoins(idx: nat, current: Row) returns (ok: bool)
      requires Valid() && idx <= |joins|
      modifies this`results, this`outputCount
      ensures Valid() && old(results) <= results
      ensures Delivers(limit, JoinRows(lib, q, joins, idx, current), old(results), results, ok)
      decreases |joins| - idx, 1
    {
      if Full(limit, outputCount) { return true; }
      if idx == |joins| {
        ok := ProcessRow(current);
        return;
      }
      var cands := Candidates(joins[idx], current);
      ghost var delivered: Result<seq<Row>> := Ok([]);
      ok := true;
      for k := 0 to |cands|
        invariant Valid() && old(results) <= results && ok
        invariant delivered == TryFirst(lib, q, joins, idx, cands, k, current)
        invariant Delivers(limit, delivered, old(results), results, true)
      {
        ghost var before := results;
        ok := TryCandidate(idx, cands[k], current);
        ghost var one := TryOne(lib, q, joins, idx, cands[k], current);
        DeliversTwice(limit, delivered, one, old(results), before, results, ok);
        delivered := TryFirst(lib, q, joins, idx, cands, k + 1, current);
        if !ok {
          TryFirstIsPrefix(lib, q, joins, idx, cands, k + 1, current);
          return;
        }
      }
      TryFirstIsPrefix(lib, q, joins, idx, cands, |cands|, current);
    }

    /** One turn of the loops over joined rows. They run on after the limit is reached, but then
        deliver nothing. */
    method TryCandidate(idx: nat, cand: Row, current: Row) returns (ok: bool)
      requires Valid() && idx < |joins|
      modifies this`results, this`outputCount
      ensures Valid() && old(results) <= results
      ensures Delivers(limit, TryOne(lib, q, joins, idx, cand, current), old(results), results, ok)
      decreases |joins| - idx, 0
    {
      var next := Overlay(current, cand);
      var keep := EvaluateCondition(lib, joins[idx].cond, next);
      if keep.Err? { return false; }
      ok := true;
      if keep.value { ok := EvaluateJoins(idx + 1, next); }
    }

    /** The main loop over the primary rows. */
    method Execute(rows: seq<Row>, maxRows: nat) returns (ok: bool)
      requires Valid() && results == []
      modifies this
      ensures Valid()
      ensures rows == [] || old(processed) + |rows| <= maxRows ==>
                Delivers(limit, Stream(lib, q, joins, rows), [], results, ok)
      ensures ok && Stream(lib, q, joins, rows).Ok? ==> results == Cut(limit, Stream(lib, q, joins, rows).value)
      ensures ok && limit == 0 ==> Stream(lib, q, joins, rows).Ok? && (rows == [] || old(processed) + |rows| <= maxRows)
      ensures ok && limit == 0 ==> Streamable(lib, q, joins, rows)
      ensures ok && Streamable(lib, q, joins, rows) ==>
                ShownAll(lib, q, Cut(limit, Passing(lib, q.where_, AllJoined(lib, joins, rows))), results)
      ensures forall n: nat :: ReachesLimit(lib, q, joins, limit, rows, n) && old(processed) + n <= maxRows ==>
                ok && results == Cut(limit, Stream(lib, q, joins, rows[..n]).value)
    {
      CutShown(lib, q, joins, limit, rows);
      for i := 0 to |rows|
        invariant Valid() && processed == old(processed) + i && (i > 0 ==> processed <= maxRows)
        invariant Stream(lib, q, joins, rows[..i]) == Ok(results) && !Full(limit, outputCount)
      {
        NotReachedYet(lib, q, joins, limit, rows, i);
        if processed >= maxRows { return false; }
        processed := processed + 1;
        ghost var before := results;
        ok := EvaluateJoins(0, rows[i]);
        StreamTurn(lib, q, joins, rows, i, limit, before, results, ok);
        if !ok {
          NeverReached(lib, q, joins, limit, rows, i + 1);
          return;
        }
        if Full(limit, outputCount) {
          StreamTail(lib, q, joins, rows, i + 1, limit, results);
          ReachedNow(lib, q, joins, limit, rows, i + 1, results);
          return true;
        }
      }
      assert rows[..|rows|] == rows;
      NotReachedYet(lib, q, joins, limit, rows, |rows|);
      ok := true;
    }
  }

  /** What StreamMeans says of the rows up to the limit. */
  lemma {:induction false} CutShown(lib: Library, q: Query, joins: seq<Join>, limit: nat, rows: seq<Row>)
    ensures Stream(lib, q, joins, rows).Ok? <==> Streamable(lib, q, joins, rows)
    ensures Stream(lib, q, joins, rows).Ok? ==>
              ShownAll(lib, q, Cut(limit, Passing(lib, q.where_, AllJoined(lib, joins, rows))),
                       Cut(limit, Stream(lib, q, joins, rows).value))
  {
    StreamMeans(lib, q, joins, rows);
  }

  /** The first n primary rows deliver as many rows as LIMIT asks for, whatever comes after. */
  ghost predicate ReachesLimit(lib: Library, q: Query, joins: seq<Join>, limit: nat, rows: seq<Row>, n: nat) {
    n <= |rows| && Stream(lib, q, joins, rows[..n]).Ok? && Full(limit, |Stream(lib, q, joins, rows[..n]).value|)
  }

  lemma {:induction false} NotReachedYet(lib: Library, q: Query, joins: seq<Join>, limit: nat, rows: seq<Row>, i: nat)
    requires i <= |rows| && Stream(lib, q, joins, rows[..i]).Ok?
    requires !Full(limit, |Stream(lib, q, joins, rows[..i]).value|)
    ensures forall n: nat :: ReachesLimit(lib, q, joins, limit, rows, n) ==> n > i
  {
    forall n: nat | ReachesLimit(lib, q, joins, limit, rows, n) ensures n > i {
      if n <= i {
        assert rows[..i][..n] == rows[..n];
        StreamPrefix(lib, q, joins, rows[..i], n);
      }
    }
  }

  lemma {:induction false} NeverReached(lib: Library, q: Query, joins: seq<Join>, limit: nat, rows: seq<Row>, i: nat)
    requires i <= |rows| && Stream(lib, q, joins, rows[..i]).Err?
    ensures forall n: nat :: ReachesLimit(lib, q, joins, limit, rows, n) ==> n < i
  {
    forall n: nat | ReachesLimit(lib, q, joins, limit, rows, n) ensures n < i {
      if i <= n {
        assert rows[..n][..i] == rows[..i];
        StreamPrefix(lib, q, joins, rows[..n], i);
      }
    }
  }

  lemma {:induction false} ReachedNow(lib: Library, q: Query, joins: seq<Join>, limit: nat, rows: seq<Row>, i: nat,
                                      results: seq<Row>)
    requires i <= |rows| && Delivers(limit, Stream(lib, q, joins, rows[..i]), [], results, true)
    requires Full(limit, |results|)
    ensures forall n: nat :: ReachesLimit(lib, q, joins, limit, rows, n) && n >= i ==>
              results == Cut(limit, Stream(lib, q, joins, rows[..n]).value)
  {
    forall n: nat | ReachesLimit(lib, q, joins, limit, rows, n) && n >= i
      ensures results == Cut(limit, Stream(lib, q, joins, rows[..n]).value)
    {
      assert rows[..n][..i] == rows[..i];
      StreamTail(lib, q, joins, rows[..n], i, limit, results);
    }
  }

  /** One turn of the main loop. */
  lemma {:induction false} StreamTurn(lib: Library, q: Query, joins: seq<Join>, rows: seq<Row>, i: nat, limit: nat,
                                      before: seq<Row>, after: seq<Row>, ok: bool)
    requires i < |rows| && Stream(lib, q, joins, rows[..i]) == Ok(before) && !Full(limit, |before|)
    requires Delivers(limit, JoinRows(lib, q, joins, 0, rows[i]), before, after, ok)
    ensures Delivers(limit, Stream(lib, q, joins, rows[..i + 1]), [], after, ok)
    ensures ok && !Full(limit, |after|) ==> Stream(lib, q, joins, rows[..i + 1]) == Ok(after)
    ensures !ok ==> Stream(lib, q, joins, rows[..i + 1]).Err? && Stream(lib, q, joins, rows).Err?
  {
    StreamNext(lib, q, joins, rows, i);
    DeliversTwice(limit, Stream(lib, q, joins, rows[..i]), JoinRows(lib, q, joins, 0, rows[i]), [], before, after, ok);
    StreamPrefix(lib, q, joins, rows, i + 1);
  }

  /** Cutting as one goes is cutting at the end. */
  lemma CutTwice(limit: nat, a: seq<Row>, b: seq<Row>)
    ensures Cut(limit, Cut(limit, a) + b) == Cut(limit, a + b)
  {}

  lemma {:induction false} StreamNext(lib: Library, q: Query, joins: seq<Join>, rows: seq<Row>, i: nat)
    requires i < |rows|
    ensures Stream(lib, q, joins, rows[..i + 1]) ==
            Append(Stream(lib, q, joins, rows[..i]), JoinRows(lib, q, joins, 0, rows[i]))
  {
    assert rows[..i + 1][..i] == rows[..i];
  }

  lemma {:induction false} StreamPrefix(lib: Library, q: Query, joins: seq<Join>, rows: seq<Row>, i: nat)
    requires i <= |rows|
    ensures Stream(lib, q, joins, rows).Ok? ==> Stream(lib, q, joins, rows[..i]).Ok?
    ensures Stream(lib, q, joins, rows).Ok? ==>
              Stream(lib, q, joins, rows[..i]).value <= Stream(lib, q, joins, rows).value
  {
    assert rows == rows[..i] + rows[i..];
    StreamConcat(lib, q, joins, rows[..i], rows[i..]);
  }

  lemma {:induction false} StreamTail(lib: Library, q: Query, joins: seq<Join>, rows: seq<Row>, i: nat, limit: nat,
                                      results: seq<Row>)
    requires i <= |rows| && Full(limit, |results|)
    requires Stream(lib, q, joins, rows[..i]).Ok? ==> results == Cut(limit, Stream(lib, q, joins, rows[..i]).value)
    ensures Stream(lib, q, joins, rows).Ok? ==> results == Cut(limit, Stream(lib, q, joins, rows).value)
  {
    StreamPrefix(lib, q, joins, rows, i);
  }
}
