/** WITH RECURSIVE: the recursive query is run on the rows of the previous round until a round
    delivers nothing. The recursive query reads the CTE in FROM only, with no aggregate, ORDER BY
    or LIMIT. */
module Cte {
  import opened Wrappers
  import opened Rows
  import opened Evaluator
  import opened Streaming

  /** The recursive query: its clauses, its joined sources, and the rows read to build those. */
  datatype Recursion = Recursion(lib: Library, q: Query, joins: seq<Join>, joinedRows: nat)

  /** One application of the recursive query. */
  function Apply(r: Recursion, rows: seq<Row>): Result<seq<Row>> {
    Stream(r.lib, r.q, r.joins, rows)
  }

  /** The rows of round k; round 0 is the anchor. */
  function Round(r: Recursion, anchor: seq<Row>, k: nat): Result<seq<Row>> {
    if k == 0 then Ok(anchor) else
    var rows :- Round(r, anchor, k - 1);
    Apply(r, rows)
  }

  /** The rows of rounds 0, ..., k. */
  function Rounds(r: Recursion, anchor: seq<Row>, k: nat): Result<seq<Row>> {
    if k == 0 then Ok(anchor) else
    Append(Rounds(r, anchor, k - 1), Round(r, anchor, k))
  }

  /** Each round runs in a runtime of its own, with its own row limit, and reads the joined sources
      before the rows of the last round. */
  predicate WithinLimit(r: Recursion, rows: seq<Row>, maxRows: nat) {
    r.joinedRows + |rows| <= maxRows
  }

  /** Rounds 1, ..., k are computed without an error. */
  ghost predicate RoundsRun(r: Recursion, anchor: seq<Row>, k: nat, maxRows: nat) {
    Round(r, anchor, k).Ok? && forall i :: 0 <= i < k ==>
      Round(r, anchor, i).Ok? && WithinLimit(r, Round(r, anchor, i).value, maxRows)
  }

  /** The recursion stops with round k: the first empty one. */
  ghost predicate StopsAt(r: Recursion, anchor: seq<Row>, k: nat, maxRows: nat) {
    && k > 0 && RoundsRun(r, anchor, k, maxRows) && Round(r, anchor, k) == Ok([])
    && forall i :: 0 < i < k ==> Round(r, anchor, i) != Ok([])
  }

  /** The body of the loop: a fresh runtime over the rows of the last round. */
  method RunRound(r: Recursion, rows: seq<Row>, maxRows: nat) returns (res: Result<seq<Row>>)
    ensures res.Ok? <==> Apply(r, rows).Ok? && WithinLimit(r, rows, maxRows)
    ensures res.Ok? <==> Streamable(r.lib, r.q, r.joins, rows) && r.joinedRows + |rows| <= maxRows
    ensures res.Ok? ==> res == Apply(r, rows)
    ensures res.Ok? ==> ShownAll(r.lib, r.q, Passing(r.lib, r.q.where_, AllJoined(r.lib, r.joins, rows)), res.value)
  {
    StreamMeans(r.lib, r.q, r.joins, rows);
    if r.joinedRows > maxRows { return Err(SecurityError); }
    var runtime := new Executor(r.lib, r.q, r.joins, 0, r.joinedRows);
    var ok := runtime.Execute(rows, maxRows);
    res := if ok then Ok(runtime.results) else Err(RuntimeError);
  }

  method RecursiveCte(r: Recursion, anchor: seq<Row>, maxRows: nat) returns (res: Result<seq<Row>>)
    ensures res.Ok? <==> exists k :: 0 < k <= maxRows && StopsAt(r, anchor, k, maxRows)
    ensures res.Ok? ==> IsFixpoint(r, anchor, res.value)
    ensures res.Ok? ==> forall s :: IsClosed(r, anchor, s) ==> multiset(res.value) <= multiset(s)
  {
    var allRows, current := anchor, anchor;
    var iterations: nat := 0;
    while true
      invariant iterations <= maxRows && StillGoing(r, anchor, iterations, maxRows)
      invariant Round(r, anchor, iterations) == Ok(current) && Rounds(r, anchor, iterations) == Ok(allRows)
      decreases maxRows - iterations
    {
      iterations := iterations + 1;
      if iterations > maxRows {
        NoneStopped(r, anchor, maxRows);
        return Err(SecurityError);
      }
      var recRows := RunRound(r, current, maxRows);
      if recRows.Err? {
        FailedRound(r, anchor, iterations - 1, maxRows);
        return Err(recRows.error);
      }
      if recRows.value == [] {
        Finished(r, anchor, iterations, maxRows, allRows);
        return Ok(allRows);
      }
      allRows := allRows + recRows.value;
      current := recRows.value;
    }
  }

  /** Rounds 1, ..., k have run and none was empty. */
  ghost predicate StillGoing(r: Recursion, anchor: seq<Row>, k: nat, maxRows: nat) {
    RoundsRun(r, anchor, k, maxRows) && forall i :: 0 < i <= k ==> Round(r, anchor, i) != Ok([])
  }

  lemma NoneStopped(r: Recursion, anchor: seq<Row>, maxRows: nat)
    requires StillGoing(r, anchor, maxRows, maxRows)
    ensures !exists k :: 0 < k <= maxRows && StopsAt(r, anchor, k, maxRows)
  {}

  /** The round after k - 1 is empty: the rows of the rounds before it are the result. */
  lemma {:induction false} Finished(r: Recursion, anchor: seq<Row>, k: nat, maxRows: nat, rows: seq<Row>)
    requires 0 < k <= maxRows && StillGoing(r, anchor, k - 1, maxRows)
    requires WithinLimit(r, Round(r, anchor, k - 1).value, maxRows) && Round(r, anchor, k) == Ok([])
    requires Rounds(r, anchor, k - 1) == Ok(rows)
    ensures exists n :: 0 < n <= maxRows && StopsAt(r, anchor, n, maxRows)
    ensures IsFixpoint(r, anchor, rows)
    ensures forall s :: IsClosed(r, anchor, s) ==> multiset(rows) <= multiset(s)
  {
    assert StopsAt(r, anchor, k, maxRows);
    StoppedIsFixpoint(r, anchor, k);
    RoundsLeast(r, anchor, k - 1);
  }

  /** If the round after k fails there is no empty round. */
  lemma {:induction false} FailedRound(r: Recursion, anchor: seq<Row>, k: nat, maxRows: nat)
    requires StillGoing(r, anchor, k, maxRows)
    requires Apply(r, Round(r, anchor, k).value).Err? || !WithinLimit(r, Round(r, anchor, k).value, maxRows)
    ensures !exists n :: 0 < n <= maxRows && StopsAt(r, anchor, n, maxRows)
  {
    forall n: nat | StopsAt(r, anchor, n, maxRows) ensures false {
      if n > k { EarlierRoundOk(r, anchor, k + 1, n); }
    }
  }

  lemma {:induction false} RoundsLeast(r: Recursion, anchor: seq<Row>, k: nat)
    requires Round(r, anchor, k).Ok? && Rounds(r, anchor, k).Ok?
    ensures forall s :: IsClosed(r, anchor, s) ==> multiset(Rounds(r, anchor, k).value) <= multiset(s)
  {
    forall s | IsClosed(r, anchor, s) ensures multiset(Rounds(r, anchor, k).value) <= multiset(s) {
      RoundsWithinClosed(r, anchor, s, k);
    }
  }

  lemma {:induction false} EarlierRoundOk(r: Recursion, anchor: seq<Row>, i: nat, k: nat)
    requires i <= k && Round(r, anchor, k).Ok?
    ensures Round(r, anchor, i).Ok?
  {
    if i < k { EarlierRoundOk(r, anchor, i, k - 1); }
  }

  // ---- The result is the least fixpoint ----

  /** R = anchor ++ Q(R), as sequences. */
  ghost predicate IsFixpoint(r: Recursion, anchor: seq<Row>, rows: seq<Row>) {
    Apply(r, rows).Ok? && rows == anchor + Apply(r, rows).value
  }

  /** A bag that contains the anchor and all that the query makes of it. */
  ghost predicate IsClosed(r: Recursion, anchor: seq<Row>, rows: seq<Row>) {
    Apply(r, rows).Ok? && multiset(anchor) + multiset(Apply(r, rows).value) <= multiset(rows)
  }

  lemma {:induction false} FixpointIsClosed(r: Recursion, anchor: seq<Row>, rows: seq<Row>)
    requires IsFixpoint(r, anchor, rows)
    ensures IsClosed(r, anchor, rows)
  {
    assert multiset(rows) == multiset(anchor) + multiset(Apply(r, rows).value);
  }

  lemma {:induction false} ApplyConcat(r: Recursion, anchor: seq<Row>, a: seq<Row>, b: seq<Row>)
    requires Apply(r, a).Ok? && Apply(r, b).Ok?
    ensures Apply(r, a + b).Ok? && anchor + Apply(r, a).value + Apply(r, b).value == anchor + Apply(r, a + b).value
  {
    StreamConcat(r.lib, r.q, r.joins, a, b);
    assert anchor + Apply(r, a).value + Apply(r, b).value == anchor + (Apply(r, a).value + Apply(r, b).value);
  }

  /** Because the query works row by row, all rounds so far can be computed in one go. */
  lemma {:induction false} RoundsUnfold(r: Recursion, anchor: seq<Row>, k: nat)
    requires Round(r, anchor, k + 1).Ok?
    ensures Rounds(r, anchor, k).Ok? && Rounds(r, anchor, k + 1).Ok?
    ensures Apply(r, Rounds(r, anchor, k).value).Ok?
    ensures Rounds(r, anchor, k + 1).value == anchor + Apply(r, Rounds(r, anchor, k).value).value
  {
    if k > 0 {
      RoundsUnfold(r, anchor, k - 1);
      var before, last := Rounds(r, anchor, k - 1).value, Round(r, anchor, k).value;
      assert Rounds(r, anchor, k).value == before + last;
      ApplyConcat(r, anchor, before, last);
    }
  }

  lemma {:induction false} StoppedIsFixpoint(r: Recursion, anchor: seq<Row>, k: nat)
    requires k > 0 && Round(r, anchor, k) == Ok([])
    ensures Rounds(r, anchor, k - 1).Ok? && IsFixpoint(r, anchor, Rounds(r, anchor, k - 1).value)
  {
    RoundsUnfold(r, anchor, k - 1);
    var rows := Rounds(r, anchor, k - 1).value;
    assert rows + [] == rows;
  }

  lemma {:induction false} RemoveLast(a: seq<Row>, b: seq<Row>) returns (j: nat)
    requires a != [] && multiset(a) <= multiset(b)
    ensures j < |b| && b[j] == a[|a| - 1]
    ensures multiset(a[..|a| - 1]) <= multiset(b[..j] + b[j + 1..])
  {
    var front, last := a[..|a| - 1], a[|a| - 1];
    assert a == front + [last];
    assert last in multiset(a);
    assert last in multiset(b);
    j :| 0 <= j < |b| && b[j] == last;
    assert multiset(front) == multiset(a) - multiset{last};
    assert b == b[..j] + [b[j]] + b[j + 1..];
    assert multiset(b[..j] + b[j + 1..]) == multiset(b) - multiset{last};
  }

  /** The query delivers no more for a part of a bag than for the bag. */
  lemma {:induction false} StreamMonotone(r: Recursion, a: seq<Row>, b: seq<Row>)
    requires multiset(a) <= multiset(b) && Apply(r, b).Ok?
    ensures Apply(r, a).Ok? && multiset(Apply(r, a).value) <= multiset(Apply(r, b).value)
  {
    if a != [] {
      var j := RemoveLast(a, b);
      StreamWithout(r, b, j);
      StreamMonotone(r, a[..|a| - 1], b[..j] + b[j + 1..]);
      assert multiset(Apply(r, a).value) ==
             multiset(Apply(r, a[..|a| - 1]).value) + multiset(JoinRows(r.lib, r.q, r.joins, 0, a[|a| - 1]).value);
    }
  }

  lemma {:induction false} StreamWithout(r: Recursion, b: seq<Row>, j: nat)
    requires j < |b| && Apply(r, b).Ok?
    ensures Apply(r, b[..j] + b[j + 1..]).Ok? && JoinRows(r.lib, r.q, r.joins, 0, b[j]).Ok?
    ensures multiset(Apply(r, b).value) ==
            multiset(Apply(r, b[..j] + b[j + 1..]).value) + multiset(JoinRows(r.lib, r.q, r.joins, 0, b[j]).value)
  {
    assert b == b[..j + 1] + b[j + 1..] && b[..j + 1][..j] == b[..j];
    StreamConcat(r.lib, r.q, r.joins, b[..j + 1], b[j + 1..]);
    StreamConcat(r.lib, r.q, r.joins, b[..j], b[j + 1..]);
  }

  /** Every round stays inside every closed bag. */
  lemma {:induction false} RoundsWithinClosed(r: Recursion, anchor: seq<Row>, s: seq<Row>, k: nat)
    requires IsClosed(r, anchor, s) && Round(r, anchor, k).Ok?
    ensures Rounds(r, anchor, k).Ok? && multiset(Rounds(r, anchor, k).value) <= multiset(s)
  {
    if k > 0 {
      RoundsWithinClosed(r, anchor, s, k - 1);
      RoundsUnfold(r, anchor, k - 1);
      StreamMonotone(r, Rounds(r, anchor, k - 1).value, s);
    }
  }

  // ---- When the recursion ends ----

  lemma {:induction false} RoundsGrow(r: Recursion, anchor: seq<Row>, k: nat)
    requires Rounds(r, anchor, k).Ok? && Round(r, anchor, k).Ok?
    requires forall i :: 0 < i <= k ==> Round(r, anchor, i) != Ok([])
    ensures |Rounds(r, anchor, k).value| >= k
  {
    if k > 0 {
      EarlierRoundOk(r, anchor, k - 1, k);
      RoundsGrow(r, anchor, k - 1);
    }
  }

  /** A closed bag keeps every round free of errors, and one of the first |s| + 1 rounds empty. */
  lemma {:induction false} ClosedRoundOk(r: Recursion, anchor: seq<Row>, s: seq<Row>, k: nat)
    requires IsClosed(r, anchor, s)
    ensures Round(r, anchor, k).Ok?
  {
    if k > 0 {
      ClosedRoundOk(r, anchor, s, k - 1);
      RoundWithinClosed(r, anchor, s, k - 1);
      StreamMonotone(r, Round(r, anchor, k - 1).value, s);
    }
  }

  lemma {:induction false} RoundWithinClosed(r: Recursion, anchor: seq<Row>, s: seq<Row>, k: nat)
    requires IsClosed(r, anchor, s) && Round(r, anchor, k).Ok?
    ensures multiset(Round(r, anchor, k).value) <= multiset(s)
  {
    RoundsWithinClosed(r, anchor, s, k);
    RoundWithinRounds(r, anchor, k);
  }

  lemma RoundWithinRounds(r: Recursion, anchor: seq<Row>, k: nat)
    requires Round(r, anchor, k).Ok? && Rounds(r, anchor, k).Ok?
    ensures multiset(Round(r, anchor, k).value) <= multiset(Rounds(r, anchor, k).value)
  {}

  lemma {:induction false} ClosedMeansEmptyRound(r: Recursion, anchor: seq<Row>, s: seq<Row>)
    requires IsClosed(r, anchor, s)
    ensures exists k :: 0 < k <= |s| + 1 && Round(r, anchor, k) == Ok([])
  {
    var n := |s| + 1;
    if forall i :: 0 < i <= n ==> Round(r, anchor, i) != Ok([]) {
      ClosedRoundOk(r, anchor, s, n);
      RoundsWithinClosed(r, anchor, s, n);
      RoundsGrow(r, anchor, n);
      var rows := Rounds(r, anchor, n).value;
      assert |multiset(rows)| == |rows| && |multiset(s)| == |s|;
      FewerInSubBag(rows, s);
    }
  }

  lemma {:induction false} FewerInSubBag(a: seq<Row>, b: seq<Row>)
    requires multiset(a) <= multiset(b)
    ensures |a| <= |b|
  {
    assert |multiset(a)| == |a| && |multiset(b)| == |b|;
    assert multiset(b) == multiset(a) + (multiset(b) - multiset(a));
  }

  /** Some round is empty exactly when some finite bag is closed: rows that keep producing rows,
      as on a cycle, are what makes the recursion run into its limit. */
  lemma {:induction false} EndsIffClosed(r: Recursion, anchor: seq<Row>)
    ensures (exists k :: k > 0 && Round(r, anchor, k) == Ok([])) <==> exists s :: IsClosed(r, anchor, s)
  {
    if k :| k > 0 && Round(r, anchor, k) == Ok([]) {
      StoppedIsFixpoint(r, anchor, k);
      FixpointIsClosed(r, anchor, Rounds(r, anchor, k - 1).value);
    }
    if s :| IsClosed(r, anchor, s) {
      ClosedMeansEmptyRound(r, anchor, s);
    }
  }
}
