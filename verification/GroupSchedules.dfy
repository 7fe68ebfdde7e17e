/** All interleavings of the GROUP BY workers. A worker touches only its own buckets and, under
    a lock, the shared counter, so one loop iteration is one step. */
module GroupSchedules {
  import opened Wrappers
  import opened Rows
  import opened Sequences
  import opened Evaluator
  import opened Limits
  import opened GroupBy
  import opened GroupMerge
  import Csv
  import CsvSplit

  datatype Config = Config(lib: Library, q: Query, splits: seq<seq<Row>>, maxRows: nat)

  /** pos: rows read by each worker; failed: some worker has thrown, which ends the program. */
  datatype State = State(pos: seq<nat>, parts: seq<Buckets>, processed: nat, failed: bool)

  /** One iteration of a worker; timedOut is the answer of the clock, if it is asked. */
  datatype Turn = Turn(worker: nat, timedOut: bool)

  function Initial(c: Config): State {
    State(seq(|c.splits|, _ => 0), seq(|c.splits|, _ => NoBuckets), 0, false)
  }

  /** The number of times the counter has been increased. */
  function Flushes(pos: seq<nat>): nat {
    if pos == [] then 0 else Flushes(pos[..|pos| - 1]) + pos[|pos| - 1] / FLUSH
  }

  ghost predicate Inv(c: Config, s: State) {
    && |s.pos| == |s.parts| == |c.splits|
    && (forall w :: 0 <= w < |s.pos| ==> s.pos[w] <= |c.splits[w]|)
    && (forall w :: 0 <= w < |s.parts| ==> WellFormed(s.parts[w], |c.q.aggs|))
    && s.processed == FLUSH * Flushes(s.pos)
    && (!s.failed ==> forall w :: 0 <= w < |s.pos| ==> FoldOf(c.lib, c.q, c.splits[w][..s.pos[w]], s.parts[w]))
  }

  predicate Enabled(c: Config, s: State, t: Turn) {
    !s.failed && t.worker < |s.pos| && t.worker < |c.splits| && s.pos[t.worker] < |c.splits[t.worker]|
  }

  ghost function Step(c: Config, s: State, t: Turn): State
    requires Inv(c, s) && Enabled(c, s, t)
  {
    var w := t.worker;
    var row := c.splits[w][s.pos[w]];
    var k := s.pos[w] + 1;
    var processed := Counted(s.processed, k);
    var contribution := Contribution(c.lib, c.q, row);
    if Stopped(k, processed, t.timedOut, c.maxRows) || contribution.Err? then
      State(s.pos[w := k], s.parts, processed, true)
    else
      State(s.pos[w := k], s.parts[w := Absorbed(s.parts[w], contribution.value)], processed, false)
  }

  lemma {:induction false} FlushesStep(pos: seq<nat>, w: nat)
    requires w < |pos|
    ensures Flushes(pos[w := pos[w] + 1]) == Flushes(pos) + if (pos[w] + 1) % FLUSH == 0 then 1 else 0
  {
    var more := pos[w := pos[w] + 1];
    if w == |pos| - 1 {
      assert more[..w] == pos[..w];
    } else {
      assert more[..|pos| - 1] == pos[..|pos| - 1][w := pos[w] + 1];
      FlushesStep(pos[..|pos| - 1], w);
    }
  }

  /** The buckets of the worker whose turn it is. */
  lemma {:induction false} PartStep(c: Config, s: State, t: Turn)
    requires Inv(c, s) && Enabled(c, s, t) && !Step(c, s, t).failed
    ensures FoldOf(c.lib, c.q, c.splits[t.worker][..s.pos[t.worker] + 1], Step(c, s, t).parts[t.worker])
    ensures WellFormed(Step(c, s, t).parts[t.worker], |c.q.aggs|)
  {
    var rows, n := c.splits[t.worker], s.pos[t.worker];
    assert rows[..n + 1] == rows[..n] + [rows[n]];
    FoldNext(c.lib, c.q, rows[..n], rows[n], s.parts[t.worker]);
    HoldsWellFormed(Step(c, s, t).parts[t.worker], Items(c.lib, c.q, rows[..n + 1]).value, |c.q.aggs|, false);
  }

  lemma {:induction false} StepKeepsInv(c: Config, s: State, t: Turn)
    requires Inv(c, s) && Enabled(c, s, t)
    ensures Inv(c, Step(c, s, t))
  {
    FlushesStep(s.pos, t.worker);
    if !Step(c, s, t).failed { StepKeepsFolds(c, s, t); }
  }

  /** The worker whose turn it is has folded one more row, and the others are as they were. */
  lemma {:induction false} StepKeepsFolds(c: Config, s: State, t: Turn)
    requires Inv(c, s) && Enabled(c, s, t) && !Step(c, s, t).failed
    ensures var next := Step(c, s, t);
            |next.pos| == |next.parts| == |c.splits| &&
            forall w :: 0 <= w < |next.pos| ==>
              && next.pos[w] <= |c.splits[w]| && WellFormed(next.parts[w], |c.q.aggs|)
              && FoldOf(c.lib, c.q, c.splits[w][..next.pos[w]], next.parts[w])
  {
    var next := Step(c, s, t);
    PartStep(c, s, t);
    forall w | 0 <= w < |next.pos|
      ensures && next.pos[w] <= |c.splits[w]| && WellFormed(next.parts[w], |c.q.aggs|)
              && FoldOf(c.lib, c.q, c.splits[w][..next.pos[w]], next.parts[w])
    {
      if w != t.worker { assert next.pos[w] == s.pos[w] && next.parts[w] == s.parts[w]; }
    }
  }

  ghost predicate ValidRun(c: Config, s: State, turns: seq<Turn>)
    requires Inv(c, s)
    decreases turns
  {
    turns == [] ||
    (Enabled(c, s, turns[0]) && (StepKeepsInv(c, s, turns[0]); ValidRun(c, Step(c, s, turns[0]), turns[1..])))
  }

  ghost function Exec(c: Config, s: State, turns: seq<Turn>): (r: State)
    requires Inv(c, s) && ValidRun(c, s, turns)
    ensures Inv(c, r)
    decreases turns
  {
    if turns == [] then s else (StepKeepsInv(c, s, turns[0]); Exec(c, Step(c, s, turns[0]), turns[1..]))
  }

  lemma {:induction false} FlushesZero(n: nat)
    ensures Flushes(seq(n, _ => 0)) == 0
  {
    if n > 0 {
      assert seq(n, _ => 0)[..n - 1] == seq(n - 1, _ => 0);
      FlushesZero(n - 1);
    }
  }

  lemma {:induction false} InitialInv(c: Config)
    ensures Inv(c, Initial(c))
  {
    FlushesZero(|c.splits|);
    FoldEmpty(c.lib, c.q);
  }

  ghost predicate Complete(c: Config, s: State) {
    !s.failed && |s.pos| == |c.splits| && forall w :: 0 <= w < |s.pos| ==> s.pos[w] == |c.splits[w]|
  }

  // ---- The result does not depend on the schedule ----

  lemma {:induction false} ItemsConcat(lib: Library, q: Query, a: seq<Row>, b: seq<Row>)
    ensures Items(lib, q, a + b).Ok? <==> Items(lib, q, a).Ok? && Items(lib, q, b).Ok?
    ensures Items(lib, q, a + b).Ok? ==>
              Items(lib, q, a + b).value == Items(lib, q, a).value + Items(lib, q, b).value
  {
    if b == [] {
      assert a + b == a;
    } else {
      assert (a + b)[..|a + b| - 1] == a + b[..|b| - 1];
      ItemsConcat(lib, q, a, b[..|b| - 1]);
    }
  }

  /** The items of all splits, as the worker of each one sees them. */
  ghost function SplitItems(c: Config): (r: seq<seq<Item>>)
    requires forall w :: 0 <= w < |c.splits| ==> Items(c.lib, c.q, c.splits[w]).Ok?
    ensures |r| == |c.splits|
    ensures forall w :: 0 <= w < |r| ==> r[w] == Items(c.lib, c.q, c.splits[w]).value
  {
    seq(|c.splits|, w requires 0 <= w < |c.splits| => Items(c.lib, c.q, c.splits[w]).value)
  }

  lemma {:induction false} ItemsOfConcat(lib: Library, q: Query, splits: seq<seq<Row>>, items: seq<seq<Item>>)
    requires |splits| == |items|
    requires forall w :: 0 <= w < |splits| ==> Items(lib, q, splits[w]) == Ok(items[w])
    ensures Items(lib, q, Concat(splits)) == Ok(Concat(items))
  {
    if splits != [] {
      var m := |splits| - 1;
      ItemsOfConcat(lib, q, splits[..m], items[..m]);
      ItemsConcat(lib, q, Concat(splits[..m]), splits[m]);
    }
  }

  /** Whatever the interleaving, a run that finishes holds the groups of all rows in file order:
      counts, first rows, sums, minima, order of groups, and maxima as the merge delivers them. */
  lemma {:induction false} EveryScheduleGroups(c: Config, turns: seq<Turn>)
    requires Inv(c, Initial(c)) && ValidRun(c, Initial(c), turns)
    requires Complete(c, Exec(c, Initial(c), turns))
    ensures Items(c.lib, c.q, Concat(c.splits)).Ok?
    ensures var end := Exec(c, Initial(c), turns);
            Holds(MergeAll(end.parts, |c.q.aggs|), Items(c.lib, c.q, Concat(c.splits)).value, |c.q.aggs|, true)
    ensures Answers(c.lib, c.q, Concat(c.splits), MergeAll(Exec(c, Initial(c), turns).parts, |c.q.aggs|), true)
  {
    var end := Exec(c, Initial(c), turns);
    forall w | 0 <= w < |c.splits| ensures FoldOf(c.lib, c.q, c.splits[w], end.parts[w]) {
      assert c.splits[w][..end.pos[w]] == c.splits[w];
    }
    var items := SplitItems(c);
    ItemsOfConcat(c.lib, c.q, c.splits, items);
    MergeAllHolds(end.parts, items, |c.q.aggs|);
    HoldsAnswers(c.lib, c.q, Concat(c.splits), MergeAll(end.parts, |c.q.aggs|), true);
  }

  /** A single worker over all the rows, and its merge, as run when the source cannot be split. */
  ghost predicate AloneResult(lib: Library, q: Query, rows: seq<Row>, r: Buckets) {
    exists alone :: FoldOf(lib, q, rows, alone) && WellFormed(alone, |q.aggs|) && r == MergeAll([alone], |q.aggs|)
  }

  lemma {:induction false} AloneHolds(lib: Library, q: Query, rows: seq<Row>, r: Buckets)
    requires AloneResult(lib, q, rows, r)
    ensures Holds(r, Items(lib, q, rows).value, |q.aggs|, true)
  {
    var alone :| FoldOf(lib, q, rows, alone) && WellFormed(alone, |q.aggs|) && r == MergeAll([alone], |q.aggs|);
    var items := Items(lib, q, rows).value;
    MergeAllHolds([alone], [items], |q.aggs|);
    assert Concat([items]) == Concat([items][..0]) + items == items;
  }

  /** Every schedule gives the answer of one worker over the unsplit rows. */
  lemma {:induction false} ParallelEqualsSequential(c: Config, turns: seq<Turn>, r: Buckets)
    requires Inv(c, Initial(c)) && ValidRun(c, Initial(c), turns)
    requires Complete(c, Exec(c, Initial(c), turns))
    requires AloneResult(c.lib, c.q, Concat(c.splits), r)
    ensures MergeAll(Exec(c, Initial(c), turns).parts, |c.q.aggs|) == r
  {
    EveryScheduleGroups(c, turns);
    AloneHolds(c.lib, c.q, Concat(c.splits), r);
    HoldsUnique(MergeAll(Exec(c, Initial(c), turns).parts, |c.q.aggs|), r,
                Items(c.lib, c.q, Concat(c.splits)).value, |c.q.aggs|, true);
  }

  // ---- A file split into chunks ----

  ghost function Chunks(data: string, base: nat, n: nat, headers: seq<string>): (r: seq<seq<Row>>)
    requires n > 0 && base <= |data|
    ensures |r| == n && forall i :: 0 <= i < n ==> r[i] == Csv.ChildRows(data, base, n, i, headers)
  {
    seq(n, i requires 0 <= i < n => Csv.ChildRows(data, base, n, i, headers))
  }

  lemma {:induction false} ConcatChunks(data: string, base: nat, n: nat, headers: seq<string>, k: nat)
    requires n > 0 && base <= |data| && k <= n
    ensures Concat(Chunks(data, base, n, headers)[..k]) + CsvSplit.RowsOfChildren(data, base, n, headers, k) ==
            CsvSplit.RowsOfChildren(data, base, n, headers, 0)
  {
    if k > 0 {
      var chunks := Chunks(data, base, n, headers);
      ConcatChunks(data, base, n, headers, k - 1);
      NextChunk(chunks, k - 1, chunks[k - 1], CsvSplit.RowsOfChildren(data, base, n, headers, k));
    }
  }

  lemma {:induction false} NextChunk(chunks: seq<seq<Row>>, k: nat, chunk: seq<Row>, rest: seq<Row>)
    requires k < |chunks| && chunks[k] == chunk
    ensures Concat(chunks[..k + 1]) + rest == Concat(chunks[..k]) + (chunk + rest)
  {
    assert chunks[..k + 1] == chunks[..k] + [chunk];
    ConcatLast(chunks[..k], chunk);
  }

  /** GROUP BY over a ',' file without newlines inside quotes: however the file is cut into n
      chunks and the n workers interleave, the groups are those of the file's rows in order. */
  lemma {:induction false} FileGroupBy(c: Config, turns: seq<Turn>, data: string, base: nat, n: nat,
                                       headers: seq<string>)
    requires CsvSplit.AfterHeader(data, base) && CsvSplit.NewlinesUnquoted(data, base) && n > 0
    requires c.splits == Chunks(data, base, n, headers)
    requires Inv(c, Initial(c)) && ValidRun(c, Initial(c), turns)
    requires Complete(c, Exec(c, Initial(c), turns))
    ensures var rows := Csv.RowsFrom(data, base, |data|, ',', headers);
            Items(c.lib, c.q, rows).Ok? &&
            Holds(MergeAll(Exec(c, Initial(c), turns).parts, |c.q.aggs|),
                  Items(c.lib, c.q, rows).value, |c.q.aggs|, true)
    ensures Answers(c.lib, c.q, Csv.RowsFrom(data, base, |data|, ',', headers),
                    MergeAll(Exec(c, Initial(c), turns).parts, |c.q.aggs|), true)
  {
    ChunksKeepRows(data, base, n, headers);
    EveryScheduleGroups(c, turns);
  }

  lemma {:induction false} ChunksKeepRows(data: string, base: nat, n: nat, headers: seq<string>)
    requires CsvSplit.AfterHeader(data, base) && CsvSplit.NewlinesUnquoted(data, base) && n > 0
    ensures Concat(Chunks(data, base, n, headers)) == Csv.RowsFrom(data, base, |data|, ',', headers)
  {
    CsvSplit.SplitKeepsRows(data, base, n, headers);
    ConcatChunks(data, base, n, headers, n);
    assert Chunks(data, base, n, headers)[..n] == Chunks(data, base, n, headers);
  }

  // ---- When a run fails ----

  ghost predicate AllRowsOk(c: Config) {
    forall w, i :: 0 <= w < |c.splits| && 0 <= i < |c.splits[w]| ==> Computable(c.lib, c.q, c.splits[w][i])
  }

  function Lengths(splits: seq<seq<Row>>): (r: seq<nat>)
    ensures |r| == |splits| && forall w :: 0 <= w < |r| ==> r[w] == |splits[w]|
  {
    seq(|splits|, w requires 0 <= w < |splits| => |splits[w]|)
  }

  /** The counter is never increased, or its final value is below the limit. */
  predicate BelowLimit(c: Config) {
    Flushes(Lengths(c.splits)) == 0 || FLUSH * Flushes(Lengths(c.splits)) < c.maxRows
  }

  lemma {:induction false} FlushesMonotone(a: seq<nat>, b: seq<nat>)
    requires |a| == |b| && forall w :: 0 <= w < |a| ==> a[w] <= b[w]
    ensures Flushes(a) <= Flushes(b)
  {
    if a != [] {
      var m := |a| - 1;
      FlushesMonotone(a[..m], b[..m]);
      assert a[m] / FLUSH <= b[m] / FLUSH;
    }
  }

  lemma {:induction false} StepSucceeds(c: Config, s: State, t: Turn)
    requires Inv(c, s) && Enabled(c, s, t) && !t.timedOut && AllRowsOk(c) && BelowLimit(c)
    ensures !Step(c, s, t).failed
  {
    var w := t.worker;
    ContributionMeans(c.lib, c.q, c.splits[w][s.pos[w]]);
    StepKeepsInv(c, s, t);
    FlushesMonotone(Step(c, s, t).pos, Lengths(c.splits));
    FlushesStep(s.pos, w);
  }

  lemma {:induction false} RunSucceeds(c: Config, s: State, turns: seq<Turn>)
    requires Inv(c, s) && ValidRun(c, s, turns) && !s.failed && AllRowsOk(c) && BelowLimit(c)
    requires forall k :: 0 <= k < |turns| ==> !turns[k].timedOut
    ensures !Exec(c, s, turns).failed
    decreases turns
  {
    if turns != [] {
      StepKeepsInv(c, s, turns[0]);
      StepSucceeds(c, s, turns[0]);
      RunSucceeds(c, Step(c, s, turns[0]), turns[1..]);
    }
  }

  /** The last increase of the counter was checked against the limit. */
  ghost predicate Checked(c: Config, s: State) {
    !s.failed ==> s.processed == 0 || s.processed < c.maxRows
  }

  lemma {:induction false} RunChecked(c: Config, s: State, turns: seq<Turn>)
    requires Inv(c, s) && ValidRun(c, s, turns) && Checked(c, s)
    ensures Checked(c, Exec(c, s, turns))
    decreases turns
  {
    if turns != [] {
      StepKeepsInv(c, s, turns[0]);
      RunChecked(c, Step(c, s, turns[0]), turns[1..]);
    }
  }

  lemma {:induction false} ItemsOkIff(lib: Library, q: Query, rows: seq<Row>)
    ensures Items(lib, q, rows).Ok? <==> forall i :: 0 <= i < |rows| ==> Computable(lib, q, rows[i])
  {
    if rows != [] {
      ItemsOkIff(lib, q, rows[..|rows| - 1]);
      ContributionMeans(lib, q, rows[|rows| - 1]);
    }
  }

  /** Whether a run that can go no further has failed does not depend on the schedule either:
      with no timeout it succeeds exactly when every row can be evaluated and the counter, which
      ends at 10000 for every full 10000 rows of a worker, stays below the limit. */
  lemma {:induction false} RunSucceedsIff(c: Config, turns: seq<Turn>)
    requires Inv(c, Initial(c)) && ValidRun(c, Initial(c), turns)
    requires forall k :: 0 <= k < |turns| ==> !turns[k].timedOut
    requires Exec(c, Initial(c), turns).failed || Complete(c, Exec(c, Initial(c), turns))
    ensures !Exec(c, Initial(c), turns).failed <==> AllRowsOk(c) && BelowLimit(c)
    ensures !Exec(c, Initial(c), turns).failed ==>
              Exec(c, Initial(c), turns).processed == FLUSH * Flushes(Lengths(c.splits))
  {
    var end := Exec(c, Initial(c), turns);
    if end.failed {
      if AllRowsOk(c) && BelowLimit(c) { RunSucceeds(c, Initial(c), turns); }
    } else {
      RunChecked(c, Initial(c), turns);
      CompleteMeansOk(c, end);
    }
  }

  lemma {:induction false} CompleteMeansOk(c: Config, s: State)
    requires Inv(c, s) && Complete(c, s) && Checked(c, s)
    ensures AllRowsOk(c) && BelowLimit(c) && s.processed == FLUSH * Flushes(Lengths(c.splits))
  {
    assert s.pos == Lengths(c.splits);
    forall w, i | 0 <= w < |c.splits| && 0 <= i < |c.splits[w]|
      ensures Computable(c.lib, c.q, c.splits[w][i])
    {
      assert c.splits[w][..s.pos[w]] == c.splits[w];
      assert FoldOf(c.lib, c.q, c.splits[w][..s.pos[w]], s.parts[w]);
      ItemsOkIff(c.lib, c.q, c.splits[w]);
    }
  }

  // ---- The unsplit source ----

  /** No row is an error, the clock is never late, and the counter is never increased or stays below
      the limit. */
  ghost predicate Succeeds(lib: Library, q: Query, rows: seq<Row>, maxRows: nat, clock: nat -> bool) {
    && (forall i :: 0 <= i < |rows| ==> Computable(lib, q, rows[i])) && NeverLate(clock, |rows|)
    && (|rows| < 10000 || 10000 * (|rows| / 10000) < maxRows)
  }

  /** The worker loop over all rows. */
  method FoldAlone(lib: Library, q: Query, rows: seq<Row>, maxRows: nat, clock: nat -> bool)
    returns (res: Result<Buckets>, processed: nat)
    ensures res.Ok? ==> FoldOf(lib, q, rows, res.value) && WellFormed(res.value, |q.aggs|)
    ensures res.Ok? ==> processed == 10000 * (|rows| / 10000)
    ensures res.Ok? <==> Succeeds(lib, q, rows, maxRows, clock)
  {
    var worker := new Worker(q);
    processed := 0;
    FoldEmpty(lib, q);
    HoldsWellFormed(NoBuckets, [], |q.aggs|, false);
    for i := 0 to |rows|
      invariant worker.rowsRead == i && worker.q == q
      invariant GoesWell(lib, q, rows, maxRows, clock, i, processed)
      invariant FoldOf(lib, q, rows[..i], worker.View()) && WellFormed(worker.View(), |q.aggs|)
    {
      ghost var before := worker.View();
      var r, next := worker.Process(lib, rows[i], processed, clock(i + 1), maxRows);
      OneMoreRow(lib, q, rows, maxRows, clock, i, processed, r.Err?);
      processed := next;
      if r.Err? { return Err(r.error), processed; }
      assert rows[..i + 1] == rows[..i] + [rows[i]];
      FoldNext(lib, q, rows[..i], rows[i], before);
    }
    assert rows[..|rows|] == rows;
    res := Ok(Buckets(worker.states, worker.order));
  }

  /** Nothing has failed in the first i rows. */
  ghost predicate GoesWell(lib: Library, q: Query, rows: seq<Row>, maxRows: nat, clock: nat -> bool, i: nat,
                           processed: nat)
    requires i <= |rows|
  {
    && (forall k :: 0 <= k < i ==> Computable(lib, q, rows[k])) && NeverLate(clock, i)
    && processed == FLUSH * (i / FLUSH) && (i < FLUSH || processed < maxRows)
  }

  lemma {:induction false} OneMoreRow(lib: Library, q: Query, rows: seq<Row>, maxRows: nat, clock: nat -> bool, i: nat,
                                      processed: nat, failed: bool)
    requires i < |rows| && GoesWell(lib, q, rows, maxRows, clock, i, processed)
    requires failed <==> !Computable(lib, q, rows[i]) ||
                         ((i + 1) % 10000 == 0 && (clock(i + 1) || processed + 10000 >= maxRows))
    ensures failed ==> !Succeeds(lib, q, rows, maxRows, clock)
    ensures !failed ==> GoesWell(lib, q, rows, maxRows, clock, i + 1, Counted(processed, i + 1))
  {
    CountStep(i, |rows|);
  }

  lemma CountStep(i: nat, n: nat)
    requires i < n
    ensures Counted(FLUSH * (i / FLUSH), i + 1) == FLUSH * ((i + 1) / FLUSH)
    ensures (i + 1) / FLUSH <= n / FLUSH
    ensures (i + 1) % FLUSH == 0 ==> i + 1 >= FLUSH
  {}

  /** ExecuteWithGroupBy up to its output, for a source that is not split. */
  method GroupAlone(lib: Library, q: Query, rows: seq<Row>, maxRows: nat, clock: nat -> bool)
    returns (res: Result<Buckets>, processed: nat)
    ensures res.Ok? ==> Items(lib, q, rows).Ok? && Holds(res.value, Items(lib, q, rows).value, |q.aggs|, true)
    ensures res.Ok? ==> AloneResult(lib, q, rows, res.value)
    ensures res.Ok? ==> Answers(lib, q, rows, res.value, true)
    ensures res.Ok? ==> processed == 10000 * (|rows| / 10000)
    ensures res.Ok? <==> Succeeds(lib, q, rows, maxRows, clock)
  {
    var alone: Result<Buckets>;
    alone, processed := FoldAlone(lib, q, rows, maxRows, clock);
    if alone.Err? { return Err(alone.error), processed; }
    ItemsOkIff(lib, q, rows);
    var merged := Merge([alone.value], |q.aggs|);
    assert AloneResult(lib, q, rows, merged);
    AloneHolds(lib, q, rows, merged);
    HoldsAnswers(lib, q, rows, merged, true);
    res := Ok(merged);
  }
}
