/** The workers of a parallel ORDER BY and the three variables they share: a row counter, a limit
    flag and a timeout flag. Every access to a shared variable is a step of its own. */
module RowCounter {

  const BATCH := 1000

  /** Where a worker stands. Deciding and the Raise states follow a counter update. */
  datatype PC =
    | Head           // about to ask for another row
    | CheckLimit     // about to load the limit flag
    | CheckTimeout   // about to load the timeout flag
    | Reading        // about to read a row
    | Adding         // about to add its batch to the counter
    | Deciding(total: nat)
    | RaiseLimit
    | RaiseTimeout
    | Testing        // about to evaluate WHERE on the row read
    | Leaving        // about to add what is left of its batch
    | Done
    | Thrown         // WHERE has thrown

  /** pos: rows read; count: rows read and not yet added; tested: rows WHERE has judged.
      batches, left and crossed record what the worker has added: full batches, the rest on
      leaving, and whether its last batch reached the limit. */
  datatype Worker = Worker(pc: PC, pos: nat, count: nat, tested: nat, batches: nat, left: nat, crossed: bool)

  datatype State = State(counter: nat, limit: bool, timeout: bool, workers: seq<Worker>)

  /** throws(w, i): WHERE throws on row i of split w. */
  datatype Config = Config(sizes: seq<nat>, maxRows: nat, throws: (nat, nat) -> bool)

  const Idle := Worker(Head, 0, 0, 0, 0, 0, false)

  function Initial(c: Config): State {
    State(0, false, false, seq(|c.sizes|, _ => Idle))
  }

  predicate Running(c: Config, s: State, w: nat) {
    w < |s.workers| && w < |c.sizes| && s.workers[w].pc !in {Done, Thrown}
  }

  /** The next step of worker w itself; late is what the clock says, if it is asked. */
  function Advance(c: Config, s: State, w: nat, me: Worker, late: bool): Worker
    requires w < |c.sizes|
  {
    match me.pc
    case Head => me.(pc := if me.pos < c.sizes[w] then CheckLimit else Leaving)
    case CheckLimit => me.(pc := if s.limit then Leaving else CheckTimeout)
    case CheckTimeout => me.(pc := if s.timeout then Leaving else Reading)
    case Reading =>
      me.(pos := me.pos + 1, count := me.count + 1, pc := if (me.count + 1) % BATCH == 0 then Adding else Testing)
    case Adding =>
      var total := s.counter + me.count;
      me.(pc := Deciding(total), count := 0, batches := me.batches + 1, crossed := total >= c.maxRows)
    case Deciding(total) =>
      me.(pc := if total >= c.maxRows then RaiseLimit else if late then RaiseTimeout else Testing)
    case RaiseLimit | RaiseTimeout => me.(pc := Leaving)
    case Testing =>
      if me.pos > 0 && c.throws(w, me.pos - 1) then me.(pc := Thrown) else me.(pc := Head, tested := me.tested + 1)
    case Leaving => me.(pc := Done, count := 0, left := me.left + me.count)
    case Done | Thrown => me
  }

  /** What the step does to the shared variables. */
  function Share(s: State, me: Worker): State {
    match me.pc
    case Adding | Leaving => s.(counter := s.counter + me.count)
    case RaiseLimit => s.(limit := true)
    case RaiseTimeout => s.(timeout := true)
    case _ => s
  }

  function Step(c: Config, s: State, w: nat, late: bool): State
    requires Running(c, s, w)
  {
    Share(s, s.workers[w]).(workers := s.workers[w := Advance(c, s, w, s.workers[w], late)])
  }

  ghost predicate StepsTo(c: Config, s: State, s': State, w: nat, late: bool) {
    Running(c, s, w) && s' == Step(c, s, w, late)
  }

  ghost predicate Next(c: Config, s: State, s': State) {
    exists w: nat, late :: StepsTo(c, s, s', w, late)
  }

  /** A run: any workers, in any order, from any state on. */
  ghost predicate IsRun(c: Config, run: seq<State>) {
    run != [] && forall k :: 0 < k < |run| ==> Next(c, run[k - 1], run[k])
  }

  function Total(ws: seq<Worker>, f: Worker -> nat): nat {
    if ws == [] then 0 else Total(ws[..|ws| - 1], f) + f(ws[|ws| - 1])
  }

  function PosOf(w: Worker): nat { w.pos }
  function CountOf(w: Worker): nat { w.count }
  function AddedOf(w: Worker): nat { BATCH * w.batches + w.left }
  function BatchesOf(w: Worker): nat { w.batches }

  /** What a worker has added without, or in spite of, finding the counter below the limit. */
  function SurplusOf(w: Worker): nat { w.left + if w.crossed then BATCH else 0 }

  // ---- The invariant ----

  ghost predicate WorkerInv(c: Config, s: State, w: nat)
    requires w < |s.workers| && w < |c.sizes|
  {
    Accounted(c.maxRows, c.sizes[w], s.workers[w]) && Placed(c.maxRows, c.sizes[w], s, s.workers[w])
  }

  /** A worker's rows: all added or still counted, and no more than a batch of them surplus. */
  ghost predicate Accounted(maxRows: nat, size: nat, me: Worker) {
    && me.pos <= size
    && me.pos == BATCH * me.batches + me.count + me.left
    && SurplusOf(me) + me.count <= BATCH
    && (me.pc != Done ==> me.left == 0)
    && (me.crossed ==> me.pc in {RaiseLimit, Leaving, Done} || (me.pc.Deciding? && me.pc.total >= maxRows))
  }

  /** What is known at each place; s supplies the shared variables. */
  ghost predicate Placed(maxRows: nat, size: nat, s: State, me: Worker) {
    match me.pc
    case Head => me.count < BATCH && me.tested == me.pos
    case CheckLimit | CheckTimeout | Reading => me.count < BATCH && me.tested == me.pos < size
    case Adding => me.count == BATCH && me.tested + 1 == me.pos
    case Deciding(total) =>
      me.count == 0 && me.tested + 1 == me.pos && total <= s.counter && (me.crossed <==> total >= maxRows)
    case RaiseLimit => me.count == 0 && me.crossed && s.counter >= maxRows
    case RaiseTimeout => me.count == 0
    case Testing => me.count < BATCH && me.tested + 1 == me.pos
    case Leaving => me.count < BATCH && (s.limit || s.timeout || me.tested == me.pos == size)
    case Done => me.count == 0 && me.left < BATCH && (s.limit || s.timeout || me.tested == me.pos == size)
    case Thrown => me.count < BATCH
  }

  /** A worker that found the counter at the limit and has yet to say so. */
  predicate AboutToRaise(c: Config, me: Worker) {
    me.pc == RaiseLimit || (me.pc.Deciding? && me.pc.total >= c.maxRows)
  }

  ghost predicate Inv(c: Config, s: State) {
    && |s.workers| == |c.sizes|
    && (forall w :: 0 <= w < |s.workers| ==> WorkerInv(c, s, w))
    && s.counter == Total(s.workers, AddedOf)
    && (c.maxRows > 0 ==> s.counter < c.maxRows + Total(s.workers, SurplusOf))
    && (s.limit ==> s.counter >= c.maxRows)
    && (Total(s.workers, BatchesOf) == 0 || BATCH * Total(s.workers, BatchesOf) < c.maxRows || s.limit ||
        exists w :: 0 <= w < |s.workers| && AboutToRaise(c, s.workers[w]))
  }

  lemma {:induction false} TotalUpdate(ws: seq<Worker>, w: nat, me: Worker, f: Worker -> nat)
    requires w < |ws|
    ensures Total(ws[w := me], f) == Total(ws, f) - f(ws[w]) + f(me)
  {
    var n := |ws| - 1;
    if w == n {
      assert ws[w := me][..n] == ws[..n];
    } else {
      assert ws[w := me][..n] == ws[..n][w := me];
      TotalUpdate(ws[..n], w, me, f);
    }
  }

  lemma {:induction false} TotalZero(n: nat, f: Worker -> nat)
    requires f(Idle) == 0
    ensures Total(seq(n, _ => Idle), f) == 0
  {
    if n > 0 {
      assert seq(n, _ => Idle)[..n - 1] == seq(n - 1, _ => Idle);
      TotalZero(n - 1, f);
    }
  }

  lemma {:induction false} TotalAtMost(ws: seq<Worker>, f: Worker -> nat, g: Worker -> nat)
    requires forall w :: 0 <= w < |ws| ==> f(ws[w]) <= g(ws[w])
    ensures Total(ws, f) <= Total(ws, g)
  {
    if ws != [] { TotalAtMost(ws[..|ws| - 1], f, g); }
  }

  lemma {:induction false} BatchesWithinAdded(ws: seq<Worker>)
    ensures BATCH * Total(ws, BatchesOf) <= Total(ws, AddedOf)
  {
    if ws != [] { BatchesWithinAdded(ws[..|ws| - 1]); }
  }

  lemma {:induction false} InitialInv(c: Config)
    ensures Inv(c, Initial(c))
  {
    TotalZero(|c.sizes|, AddedOf);
    TotalZero(|c.sizes|, SurplusOf);
    TotalZero(|c.sizes|, BatchesOf);
  }

  /** The shared variables only go up. */
  lemma SharedGrow(c: Config, s: State, w: nat, late: bool)
    requires Running(c, s, w)
    ensures var s' := Step(c, s, w, late);
            && s.counter <= s'.counter && (s.limit ==> s'.limit) && (s.timeout ==> s'.timeout)
            && |s'.workers| == |s.workers| &&
               forall v :: 0 <= v < |s.workers| && v != w ==> s'.workers[v] == s.workers[v]
  {}

  lemma MoverAccounted(c: Config, s: State, w: nat, late: bool)
    requires Running(c, s, w) && WorkerInv(c, s, w)
    ensures Accounted(c.maxRows, c.sizes[w], Advance(c, s, w, s.workers[w], late))
  {}

  lemma MoverPlaced(c: Config, s: State, w: nat, late: bool)
    requires Running(c, s, w) && WorkerInv(c, s, w)
    ensures Placed(c.maxRows, c.sizes[w], Share(s, s.workers[w]), Advance(c, s, w, s.workers[w], late))
  {}

  lemma PlacedByShared(maxRows: nat, size: nat, s: State, s': State, me: Worker)
    requires Placed(maxRows, size, s, me)
    requires s.counter <= s'.counter && (s.limit ==> s'.limit) && (s.timeout ==> s'.timeout)
    ensures Placed(maxRows, size, s', me)
  {}

  /** The worker that moves, and the others, keep their part. */
  lemma {:induction false} StepKeepsWorkers(c: Config, s: State, w: nat, late: bool, v: nat)
    requires Inv(c, s) && Running(c, s, w) && v < |s.workers|
    ensures WorkerInv(c, Step(c, s, w, late), v)
  {
    SharedGrow(c, s, w, late);
    assert WorkerInv(c, s, w) && WorkerInv(c, s, v);
    var s' := Step(c, s, w, late);
    if v == w {
      MoverAccounted(c, s, w, late);
      MoverPlaced(c, s, w, late);
      PlacedByShared(c.maxRows, c.sizes[v], Share(s, s.workers[w]), s', s'.workers[v]);
    } else {
      PlacedByShared(c.maxRows, c.sizes[v], s, s', s.workers[v]);
    }
  }

  /** What a step adds to the counter is what its worker records. */
  lemma MoverAdds(c: Config, s: State, w: nat, late: bool)
    requires Running(c, s, w) && WorkerInv(c, s, w)
    ensures var s', me, me' := Step(c, s, w, late), s.workers[w], Step(c, s, w, late).workers[w];
            && s'.counter - s.counter == AddedOf(me') - AddedOf(me)
            && SurplusOf(me) <= SurplusOf(me')
            && (s'.counter - s.counter == SurplusOf(me') - SurplusOf(me) || s'.counter < c.maxRows)
            && (s'.limit ==> s.limit || s.counter >= c.maxRows)
            && s' == s.(counter := s'.counter, limit := s'.limit, timeout := s'.timeout, workers := s.workers[w := me'])
  {}

  lemma {:induction false} StepKeepsTotals(c: Config, s: State, w: nat, late: bool)
    requires Inv(c, s) && Running(c, s, w)
    ensures var s' := Step(c, s, w, late);
            && s'.counter == Total(s'.workers, AddedOf)
            && (c.maxRows > 0 ==> s'.counter < c.maxRows + Total(s'.workers, SurplusOf))
            && (s'.limit ==> s'.counter >= c.maxRows)
  {
    var me' := Step(c, s, w, late).workers[w];
    assert WorkerInv(c, s, w);
    MoverAdds(c, s, w, late);
    TotalUpdate(s.workers, w, me', AddedOf);
    TotalUpdate(s.workers, w, me', SurplusOf);
    SharedGrow(c, s, w, late);
  }

  lemma {:induction false} StepKeepsBatches(c: Config, s: State, w: nat, late: bool)
    requires Inv(c, s) && Running(c, s, w)
    ensures var s' := Step(c, s, w, late);
            Total(s'.workers, BatchesOf) == 0 || BATCH * Total(s'.workers, BatchesOf) < c.maxRows || s'.limit ||
            exists v :: 0 <= v < |s'.workers| && AboutToRaise(c, s'.workers[v])
  {
    var s' := Step(c, s, w, late);
    assert WorkerInv(c, s, w);
    TotalUpdate(s.workers, w, s'.workers[w], BatchesOf);
    if s.workers[w].pc == Adding {
      StepKeepsTotals(c, s, w, late);
      BatchesWithinAdded(s'.workers);
      assert s'.counter >= c.maxRows ==> AboutToRaise(c, s'.workers[w]);
    } else if v :| 0 <= v < |s.workers| && AboutToRaise(c, s.workers[v]) {
      if v != w { assert s'.workers[v] == s.workers[v]; }
      else { assert s'.limit || AboutToRaise(c, s'.workers[w]); }
    }
  }

  lemma {:induction false} StepKeepsInv(c: Config, s: State, w: nat, late: bool)
    requires Inv(c, s) && Running(c, s, w)
    ensures Inv(c, Step(c, s, w, late))
  {
    forall v | 0 <= v < |s.workers| ensures WorkerInv(c, Step(c, s, w, late), v) {
      StepKeepsWorkers(c, s, w, late, v);
    }
    StepKeepsTotals(c, s, w, late);
    StepKeepsBatches(c, s, w, late);
  }

  lemma {:induction false} RunKeepsInv(c: Config, run: seq<State>, k: nat)
    requires IsRun(c, run) && Inv(c, run[0]) && k < |run|
    ensures Inv(c, run[k])
  {
    if k > 0 {
      RunKeepsInv(c, run, k - 1);
      var w: nat, late :| StepsTo(c, run[k - 1], run[k], w, late);
      StepKeepsInv(c, run[k - 1], w, late);
    }
  }

  // ---- What holds in every reachable state ----

  lemma {:induction false} AddedPlusCount(ws: seq<Worker>)
    requires forall w :: 0 <= w < |ws| ==> ws[w].pos == AddedOf(ws[w]) + ws[w].count
    ensures Total(ws, PosOf) == Total(ws, AddedOf) + Total(ws, CountOf)
  {
    if ws != [] { AddedPlusCount(ws[..|ws| - 1]); }
  }

  /** Conservation: the counter and the rows not yet added make up the rows read. */
  lemma {:induction false} CounterConserved(c: Config, run: seq<State>, k: nat)
    requires IsRun(c, run) && run[0] == Initial(c) && k < |run|
    ensures run[k].counter + Total(run[k].workers, CountOf) == Total(run[k].workers, PosOf)
  {
    InitialInv(c);
    RunKeepsInv(c, run, k);
    var ws := run[k].workers;
    forall w | 0 <= w < |ws| ensures ws[w].pos == AddedOf(ws[w]) + ws[w].count { assert WorkerInv(c, run[k], w); }
    AddedPlusCount(ws);
  }

  lemma {:induction false} SurplusAndCount(ws: seq<Worker>)
    requires forall w :: 0 <= w < |ws| ==> SurplusOf(ws[w]) + ws[w].count <= BATCH
    ensures Total(ws, SurplusOf) + Total(ws, CountOf) <= BATCH * |ws|
  {
    if ws != [] { SurplusAndCount(ws[..|ws| - 1]); }
  }

  /** However the workers interleave, the limit is overrun by less than a batch per worker. */
  lemma {:induction false} RowsReadBounded(c: Config, run: seq<State>, k: nat)
    requires IsRun(c, run) && run[0] == Initial(c) && k < |run| && c.maxRows > 0
    ensures Total(run[k].workers, PosOf) < c.maxRows + 1000 * |c.sizes|
  {
    InitialInv(c);
    RunKeepsInv(c, run, k);
    CounterConserved(c, run, k);
    var ws := run[k].workers;
    forall w | 0 <= w < |ws| ensures SurplusOf(ws[w]) + ws[w].count <= BATCH { assert WorkerInv(c, run[k], w); }
    SurplusAndCount(ws);
  }

  /** The rows a worker can still read once a flag is up: one, if it is past the checks. */
  function StillToRead(s: State, me: Worker): nat {
    if me.pc.Reading? || (me.pc.CheckTimeout? && !s.timeout) then 1 else 0
  }

  lemma FlagStopsStep(c: Config, s: State, w: nat, late: bool, v: nat)
    requires Running(c, s, w) && v < |s.workers| && (s.limit || s.timeout)
    ensures var t := Step(c, s, w, late);
            && (t.limit || t.timeout) && (s.timeout ==> t.timeout) && |t.workers| == |s.workers|
            && t.workers[v].pos + StillToRead(t, t.workers[v]) <= s.workers[v].pos + StillToRead(s, s.workers[v])
  {}

  /** Once a flag is up no worker reads more than one row, and only if it is past the checks. */
  lemma {:induction false} FlagStopsReading(c: Config, run: seq<State>, k: nat, v: nat)
    requires IsRun(c, run) && k < |run| && (run[0].limit || run[0].timeout) && v < |run[0].workers|
    ensures (run[k].limit || run[k].timeout) && |run[k].workers| == |run[0].workers|
    ensures run[k].workers[v].pos + StillToRead(run[k], run[k].workers[v]) <=
            run[0].workers[v].pos + StillToRead(run[0], run[0].workers[v])
  {
    if k > 0 {
      FlagStopsReading(c, run, k - 1, v);
      var w: nat, late :| StepsTo(c, run[k - 1], run[k], w, late);
      FlagStopsStep(c, run[k - 1], w, late, v);
    }
  }

  ghost predicate AllDone(s: State) {
    forall w :: 0 <= w < |s.workers| ==> s.workers[w].pc == Done
  }

  lemma {:induction false} NoCounts(ws: seq<Worker>)
    requires forall w :: 0 <= w < |ws| ==> ws[w].count == 0
    ensures Total(ws, CountOf) == 0
  {
    if ws != [] { NoCounts(ws[..|ws| - 1]); }
  }

  /** When all workers are done the counter is exact, even after an early stop. */
  lemma {:induction false} CounterExactAtEnd(c: Config, run: seq<State>, k: nat)
    requires IsRun(c, run) && run[0] == Initial(c) && k < |run| && AllDone(run[k])
    ensures run[k].counter == Total(run[k].workers, PosOf)
  {
    InitialInv(c);
    RunKeepsInv(c, run, k);
    CounterConserved(c, run, k);
    forall w | 0 <= w < |run[k].workers| ensures run[k].workers[w].count == 0 { assert WorkerInv(c, run[k], w); }
    NoCounts(run[k].workers);
  }

  /** No silent truncation: if neither flag is up at the end, every worker has read its whole
      split and put every row of it to WHERE. */
  lemma {:induction false} NoErrorMeansAllRows(c: Config, run: seq<State>, k: nat, w: nat)
    requires IsRun(c, run) && run[0] == Initial(c) && k < |run| && AllDone(run[k]) && w < |c.sizes|
    requires !run[k].limit && !run[k].timeout
    ensures |run[k].workers| == |c.sizes| && run[k].workers[w].pos == run[k].workers[w].tested == c.sizes[w]
  {
    InitialInv(c);
    RunKeepsInv(c, run, k);
    assert WorkerInv(c, run[k], w);
  }

  // ---- When the limit error is raised ----

  function SizeSum(sizes: seq<nat>): nat {
    if sizes == [] then 0 else SizeSum(sizes[..|sizes| - 1]) + sizes[|sizes| - 1]
  }

  function BatchSum(sizes: seq<nat>): nat {
    if sizes == [] then 0 else BatchSum(sizes[..|sizes| - 1]) + sizes[|sizes| - 1] / BATCH
  }

  lemma {:induction false} ReadAtMostSizes(ws: seq<Worker>, sizes: seq<nat>)
    requires |ws| == |sizes| && forall w :: 0 <= w < |ws| ==> ws[w].pos <= sizes[w]
    ensures Total(ws, PosOf) <= SizeSum(sizes)
  {
    if ws != [] { ReadAtMostSizes(ws[..|ws| - 1], sizes[..|sizes| - 1]); }
  }

  /** Fewer rows than the limit never raise it. */
  lemma {:induction false} LimitNeedsRows(c: Config, run: seq<State>, k: nat)
    requires IsRun(c, run) && run[0] == Initial(c) && k < |run| && run[k].limit
    ensures c.maxRows <= SizeSum(c.sizes)
  {
    InitialInv(c);
    RunKeepsInv(c, run, k);
    CounterConserved(c, run, k);
    var ws := run[k].workers;
    forall w | 0 <= w < |ws| ensures ws[w].pos <= c.sizes[w] { assert WorkerInv(c, run[k], w); }
    ReadAtMostSizes(ws, c.sizes);
  }

  lemma {:induction false} BatchesOfSizes(ws: seq<Worker>, sizes: seq<nat>)
    requires |ws| == |sizes|
    requires forall w :: 0 <= w < |ws| ==> ws[w].batches == sizes[w] / BATCH
    ensures Total(ws, BatchesOf) == BatchSum(sizes)
  {
    if ws != [] { BatchesOfSizes(ws[..|ws| - 1], sizes[..|sizes| - 1]); }
  }

  /** Full batches that reach the limit always end in an error, of one kind or the other. */
  lemma {:induction false} BatchesForceError(c: Config, run: seq<State>, k: nat)
    requires IsRun(c, run) && run[0] == Initial(c) && k < |run| && AllDone(run[k])
    requires BatchSum(c.sizes) > 0 && 1000 * BatchSum(c.sizes) >= c.maxRows
    ensures run[k].limit || run[k].timeout
  {
    if !run[k].limit && !run[k].timeout {
      InitialInv(c);
      RunKeepsInv(c, run, k);
      var ws := run[k].workers;
      forall w | 0 <= w < |ws| ensures ws[w].batches == c.sizes[w] / BATCH { assert WorkerInv(c, run[k], w); }
      BatchesOfSizes(ws, c.sizes);
    }
  }
}
