/** Schedules of the workers that end with the limit error, or with no error. */
module RowCounterSchedules {
  import opened RowCounter
  import opened RowCounterLimits

  // ---- Schedules, a step at a time ----

  lemma {:induction false} ReachesStart(c: Config)
    ensures Reaches(c, Initial(c), Initial(c))
  {
    assert IsRun(c, [Initial(c)]) && [Initial(c)][0] == Initial(c);
  }

  lemma {:induction false} ReachesSound(c: Config, t: State)
    requires Reaches(c, Initial(c), t)
    ensures Inv(c, t) && AllSound(c, t)
  {
    var run :| IsRun(c, run) && run[0] == Initial(c) && run[|run| - 1] == t;
    RunSound(c, run, |run| - 1);
  }

  lemma {:induction false} OneStep(c: Config, t: State, w: nat, late: bool)
    requires Reaches(c, Initial(c), t) && Running(c, t, w)
    ensures Reaches(c, Initial(c), Step(c, t, w, late))
  {
    var run :| IsRun(c, run) && run[0] == Initial(c) && run[|run| - 1] == t;
    var u := Step(c, t, w, late);
    var more := run + [u];
    assert StepsTo(c, t, u, w, late);
    forall k | 0 < k < |more| ensures Next(c, more[k - 1], more[k]) {
      if k < |run| { assert Next(c, run[k - 1], run[k]); }
    }
    assert more[|more| - 1] == u;
  }

  /** Some steps of worker w lead from t to u. */
  ghost predicate Moves(c: Config, t: State, u: State, w: nat) {
    && Reaches(c, Initial(c), u) && |u.workers| == |t.workers| == |c.sizes| && w < |t.workers|
    && u.workers == t.workers[w := u.workers[w]] && (t.limit ==> u.limit) && (t.timeout ==> u.timeout)
  }

  ghost predicate At(c: Config, t: State, w: nat) {
    Reaches(c, Initial(c), t) && |t.workers| == |c.sizes| && w < |t.workers|
  }

  /** At the head of the loop with p rows behind it. */
  function HeadAt(p: nat): Worker {
    Worker(Head, p, p % BATCH, p, p / BATCH, 0, false)
  }

  /** p rows read, the last of them not yet put to WHERE. */
  function ReadAt(p: nat, count: nat, pc: PC): Worker
    requires p > 0
  {
    Worker(pc, p, count, p - 1, (p - 1) / BATCH, 0, false)
  }

  /** Having added p rows in full batches and found the counter below the limit, it has yet to look
      at the clock. */
  ghost predicate Undecided(c: Config, me: Worker, p: nat) {
    && p > 0 && p % BATCH == 0 && me.pc.Deciding? && me.pc.total < c.maxRows
    && me == Worker(me.pc, p, 0, p - 1, p / BATCH, 0, false)
  }

  /** Three steps, past both flags. */
  lemma {:induction false} Enter(c: Config, t: State, w: nat, p: nat) returns (u: State)
    requires At(c, t, w) && !t.limit && !t.timeout && t.workers[w] == HeadAt(p) && p < c.sizes[w]
    ensures Moves(c, t, u, w) && u == t.(workers := t.workers[w := HeadAt(p).(pc := Reading)])
  {
    OneStep(c, t, w, false);
    var t1 := Step(c, t, w, false);
    OneStep(c, t1, w, false);
    var t2 := Step(c, t1, w, false);
    OneStep(c, t2, w, false);
    u := Step(c, t2, w, false);
  }

  /** The last row of a full batch is read, and the batch added: below the limit, or raising it. */
  lemma {:induction false} AddBatch(c: Config, t: State, w: nat, p: nat) returns (u: State)
    requires At(c, t, w) && !t.limit && 0 < p <= c.sizes[w] && p % BATCH == 0
    requires t.workers[w] == HeadAt(p - 1).(pc := Reading)
    ensures Moves(c, t, u, w) && u.timeout == t.timeout
    ensures u.limit == (t.counter + BATCH >= c.maxRows)
    ensures if u.limit then u.workers[w].pc == Done && u.workers[w].pos == p else Undecided(c, u.workers[w], p)
  {
    OneStep(c, t, w, false);
    var t1 := Step(c, t, w, false);
    assert t1.workers[w] == ReadAt(p, BATCH, Adding);
    OneStep(c, t1, w, false);
    u := Step(c, t1, w, false);
    if t.counter + BATCH >= c.maxRows { u := Raise(c, u, w); }
  }

  lemma {:induction false} Raise(c: Config, t: State, w: nat) returns (u: State)
    requires At(c, t, w) && t.workers[w].pc.Deciding? && t.workers[w].pc.total >= c.maxRows
    ensures Moves(c, t, u, w) && u.limit && u.timeout == t.timeout && u.workers[w].pc == Done
    ensures u.workers[w].pos == t.workers[w].pos
  {
    OneStep(c, t, w, false);
    var t1 := Step(c, t, w, false);
    OneStep(c, t1, w, false);
    var t2 := Step(c, t1, w, false);
    OneStep(c, t2, w, false);
    u := Step(c, t2, w, false);
  }

  /** One more row, if WHERE does not throw on it: back at the head, or raising the limit. */
  lemma {:induction false} NextRow(c: Config, t: State, w: nat, p: nat) returns (u: State)
    requires At(c, t, w) && !t.limit && !t.timeout && t.workers[w] == HeadAt(p) && p < c.sizes[w] && !c.throws(w, p)
    ensures Moves(c, t, u, w) && !u.timeout
    ensures if u.limit then u.workers[w].pc == Done && u.workers[w].pos == p + 1 && (p + 1) % BATCH == 0
            else u.workers[w] == HeadAt(p + 1)
  {
    u := Enter(c, t, w, p);
    if (p + 1) % BATCH == 0 {
      u := AddBatch(c, u, w, p + 1);
      if !u.limit {
        OneStep(c, u, w, false);
        u := Step(c, u, w, false);
      }
    } else {
      OneStep(c, u, w, false);
      u := Step(c, u, w, false);
    }
    if !u.limit {
      OneStep(c, u, w, false);
      u := Step(c, u, w, false);
    }
  }

  lemma {:induction false} ReadTo(c: Config, t: State, w: nat, q: nat, p: nat) returns (u: State)
    requires At(c, t, w) && !t.limit && !t.timeout && t.workers[w] == HeadAt(q) && q <= p <= c.sizes[w]
    requires forall i :: q <= i < p ==> !c.throws(w, i)
    ensures Moves(c, t, u, w) && !u.timeout
    ensures if u.limit then u.workers[w].pc == Done && q < u.workers[w].pos <= p && u.workers[w].pos % BATCH == 0
            else u.workers[w] == HeadAt(p)
    decreases p
  {
    if p == q {
      u := t;
    } else {
      u := ReadTo(c, t, w, q, p - 1);
      if !u.limit { u := NextRow(c, u, w, p - 1); }
    }
  }

  /** At the end of its split, or on seeing a flag, a worker adds what is left of its batch. */
  lemma {:induction false} Leave(c: Config, t: State, w: nat) returns (u: State)
    requires At(c, t, w) && t.workers[w].pc == Head
    requires t.limit || t.timeout || t.workers[w].pos >= c.sizes[w]
    ensures Moves(c, t, u, w) && u.limit == t.limit && u.timeout == t.timeout
    ensures u.workers[w] == t.workers[w].(pc := Done, count := 0, left := t.workers[w].left + t.workers[w].count)
  {
    OneStep(c, t, w, false);
    u := Step(c, t, w, false);
    if u.workers[w].pc == CheckLimit {
      OneStep(c, u, w, false);
      u := Step(c, u, w, false);
    }
    if u.workers[w].pc == CheckTimeout {
      OneStep(c, u, w, false);
      u := Step(c, u, w, false);
    }
    OneStep(c, u, w, false);
    u := Step(c, u, w, false);
  }

  /** A worker that has yet to look at the clock finds it late. */
  lemma {:induction false} TimeOut(c: Config, t: State, w: nat) returns (u: State)
    requires At(c, t, w) && t.workers[w].pc.Deciding? && t.workers[w].pc.total < c.maxRows
    ensures Moves(c, t, u, w) && u.limit == t.limit && u.timeout
    ensures u.workers[w] == t.workers[w].(pc := Done, count := 0, left := t.workers[w].left + t.workers[w].count)
  {
    OneStep(c, t, w, true);
    var t1 := Step(c, t, w, true);
    OneStep(c, t1, w, false);
    var t2 := Step(c, t1, w, false);
    OneStep(c, t2, w, false);
    u := Step(c, t2, w, false);
  }

  // ---- Once the limit is up ----

  /** A worker that will be done, and not fail, once the limit is up. */
  predicate Resting(c: Config, me: Worker) {
    || me.pc == Done || me.pc == Head
    || (me.pc.Deciding? && me.pc.total < c.maxRows)
    || (me.pc == Reading && (me.count + 1) % BATCH == 0)
  }

  predicate AllResting(c: Config, t: State) {
    |t.workers| == |c.sizes| && forall v :: 0 <= v < |t.workers| ==> Resting(c, t.workers[v])
  }

  lemma RestingKept(c: Config, t: State, u: State, w: nat)
    requires AllResting(c, t) && Moves(c, t, u, w) && Resting(c, u.workers[w])
    ensures AllResting(c, u) && forall v :: 0 <= v < |c.sizes| && v != w ==> u.workers[v] == t.workers[v]
  {}

  lemma {:induction false} Clean(c: Config, t: State, w: nat) returns (u: State)
    requires At(c, t, w) && t.limit && Resting(c, t.workers[w])
    ensures Moves(c, t, u, w) && u.workers[w].pc == Done
  {
    ReachesSound(c, t);
    if t.workers[w].pc == Done {
      u := t;
    } else if t.workers[w].pc == Head {
      u := Leave(c, t, w);
    } else if t.workers[w].pc.Deciding? {
      u := TimeOut(c, t, w);
    } else {
      OneStep(c, t, w, false);
      u := Step(c, t, w, false);
      OneStep(c, u, w, false);
      u := Step(c, u, w, false);
      u := Raise(c, u, w);
    }
  }

  lemma {:induction false} CleanAll(c: Config, t: State, i: nat)
    requires Reaches(c, Initial(c), t) && t.limit && AllResting(c, t) && i <= |c.sizes|
    requires forall v :: 0 <= v < i ==> t.workers[v].pc == Done
    ensures SomeRunRaises(c)
    decreases |c.sizes| - i
  {
    if i == |c.sizes| {
      assert AllDone(t);
    } else {
      var u := Clean(c, t, i);
      CleanAll(c, u, i + 1);
    }
  }

  // ---- A schedule that raises the limit ----

  /** A split as far as its worker can go without meeting a row on which WHERE throws: with its last
      full batch not yet decided if that ends with such a row. */
  ghost predicate Waits(c: Config, v: nat, me: Worker)
    requires v < |c.sizes|
  {
    if Last(c, v) <= Safe(c, v) then me == HeadAt(Safe(c, v)) else Undecided(c, me, Last(c, v))
  }

  lemma {:induction false} RunToWait(c: Config, t: State, v: nat) returns (u: State)
    requires At(c, t, v) && !t.limit && !t.timeout && t.workers[v] == Idle
    ensures Moves(c, t, u, v) && !u.timeout
    ensures if u.limit then u.workers[v].pc == Done else Waits(c, v, u.workers[v])
  {
    assert Idle == HeadAt(0);
    u := ReadTo(c, t, v, 0, Safe(c, v));
    if !u.limit && Last(c, v) > Safe(c, v) {
      assert Last(c, v) == Safe(c, v) + 1;
      u := Enter(c, u, v, Safe(c, v));
      u := AddBatch(c, u, v, Last(c, v));
    }
  }

  /** The workers before i, except w and u, wait, and the others have not begun; or the limit is up. */
  ghost predicate OthersWait(c: Config, t: State, w: nat, u: nat, i: nat) {
    && Reaches(c, Initial(c), t) && AllResting(c, t)
    && (forall v :: i <= v < |c.sizes| ==> t.workers[v] == Idle)
    && (!t.limit ==> !t.timeout && forall v :: 0 <= v < |c.sizes| && v < i ==>
          if v == w || v == u then t.workers[v] == Idle else Waits(c, v, t.workers[v]))
  }

  lemma {:induction false} RunOthers(c: Config, w: nat, u: nat, i: nat) returns (t: State)
    requires i <= |c.sizes|
    ensures OthersWait(c, t, w, u, i)
  {
    if i == 0 {
      ReachesStart(c);
      t := Initial(c);
    } else {
      t := RunOthers(c, w, u, i - 1);
      if !t.limit && i - 1 != w && i - 1 != u { t := RunToWait(c, t, i - 1); }
    }
  }

  /** A waiting worker at the end of its split finishes; any other stays. */
  lemma {:induction false} FinishIfWhole(c: Config, t: State, v: nat) returns (u: State)
    requires At(c, t, v) && !t.limit && !t.timeout && Waits(c, v, t.workers[v])
    ensures Moves(c, t, u, v) && !u.limit && !u.timeout && Resting(c, u.workers[v])
    ensures AddedOf(u.workers[v]) == Most(c, v)
  {
    u := t;
    if Safe(c, v) == c.sizes[v] { u := Leave(c, t, v); }
  }

  ghost predicate WholeAt(c: Config, v: nat, me: Worker, finished: bool)
    requires v < |c.sizes|
  {
    if finished then AddedOf(me) == Most(c, v) else Waits(c, v, me)
  }

  lemma {:induction false} FinishWhole(c: Config, w: nat, i: nat) returns (t: State)
    requires i <= |c.sizes| && w < |c.sizes|
    ensures Reaches(c, Initial(c), t) && AllResting(c, t)
    ensures !t.limit ==> !t.timeout && t.workers[w] == Idle
    ensures !t.limit ==> forall v :: 0 <= v < |c.sizes| && v != w ==> WholeAt(c, v, t.workers[v], v < i)
  {
    if i == 0 {
      t := RunOthers(c, w, w, |c.sizes|);
    } else {
      var r := FinishWhole(c, w, i - 1);
      t := r;
      if !r.limit && i - 1 != w {
        var v0 := i - 1;
        assert WholeAt(c, v0, r.workers[v0], false);
        t := FinishIfWhole(c, r, v0);
        RestingKept(c, r, t, v0);
      }
      forall v | 0 <= v < |c.sizes| && v != w && !t.limit ensures WholeAt(c, v, t.workers[v], v < i) {
        assert WholeAt(c, v, r.workers[v], v < i - 1);
      }
    }
  }

  /** All but w stand at what they have added, and w at what precedes its last full batch. */
  lemma {:induction false} TotalIs(ws: seq<Worker>, most: seq<nat>, w: nat)
    requires |ws| == |most| && w < |ws| && forall v :: 0 <= v < |ws| && v != w ==> AddedOf(ws[v]) == most[v]
    ensures Total(ws, AddedOf) - AddedOf(ws[w]) == SizeSum(most) - most[w]
  {
    var n := |ws| - 1;
    if w == n {
      TotalAll(ws[..n], most[..n]);
    } else {
      TotalIs(ws[..n], most[..n], w);
    }
  }

  lemma {:induction false} TotalAll(ws: seq<Worker>, most: seq<nat>)
    requires |ws| == |most| && forall v :: 0 <= v < |ws| ==> AddedOf(ws[v]) == most[v]
    ensures Total(ws, AddedOf) == SizeSum(most)
  {
    if ws != [] { TotalAll(ws[..|ws| - 1], most[..|most| - 1]); }
  }

  /** To the last row of the last full batch. */
  lemma {:induction false} RunToLast(c: Config, t: State, w: nat) returns (u: State)
    requires At(c, t, w) && !t.limit && !t.timeout && t.workers[w] == Idle && Last(c, w) > 0
    ensures Moves(c, t, u, w) && !u.timeout && Resting(c, u.workers[w])
    ensures if u.limit then u.workers[w].pc == Done else u.workers[w] == HeadAt(Last(c, w) - 1).(pc := Reading)
  {
    assert Idle == HeadAt(0);
    BeforeLast(c, w);
    u := ReadTo(c, t, w, 0, Last(c, w) - 1);
    if !u.limit { u := Enter(c, u, w, Last(c, w) - 1); }
  }

  lemma BeforeLast(c: Config, w: nat)
    requires w < |c.sizes| && Last(c, w) > 0
    ensures 0 < Last(c, w) <= c.sizes[w] && Last(c, w) % BATCH == 0
    ensures AddedOf(HeadAt(Last(c, w) - 1)) + BATCH == Last(c, w)
    ensures HeadAt(Last(c, w) - 1).count == BATCH - 1
  {}

  /** The last full batch of w, when the others have added what they can. */
  lemma {:induction false} LastBatch(c: Config, t: State, w: nat, most: seq<nat>)
    requires Reaches(c, Initial(c), t) && AllResting(c, t) && !t.limit && |most| == |c.sizes|
    requires w < |c.sizes| && Last(c, w) > 0 && t.workers[w] == HeadAt(Last(c, w) - 1).(pc := Reading)
    requires forall v :: 0 <= v < |c.sizes| && v != w ==> AddedOf(t.workers[v]) == most[v]
    requires Last(c, w) + SizeSum(most) - most[w] >= c.maxRows
    ensures SomeRunRaises(c)
  {
    ReachesSound(c, t);
    TotalIs(t.workers, most, w);
    BeforeLast(c, w);
    var u := AddBatch(c, t, w, Last(c, w));
    CleanAll(c, u, 0);
  }

  lemma {:induction false} RaiseLast(c: Config, w: nat)
    requires RaisesLast(c, w)
    ensures SomeRunRaises(c)
  {
    var t := FinishWhole(c, w, |c.sizes|);
    if t.limit {
      CleanAll(c, t, 0);
    } else {
      var u := RunToLast(c, t, w);
      RestingKept(c, t, u, w);
      if u.limit { CleanAll(c, u, 0); } else { LastBatch(c, u, w, Mosts(c)); }
    }
  }

  /** After the timeout the workers before i that wait at the head of their loops leave. */
  ghost predicate LeftBefore(c: Config, t: State, w: nat, u: nat, i: nat) {
    && Reaches(c, Initial(c), t) && AllResting(c, t) && w < |c.sizes| && u < |c.sizes| && w != u
    && Last(c, w) > 0
    && (!t.limit ==>
          && t.timeout && t.workers[w] == HeadAt(Last(c, w) - 1).(pc := Reading)
          && AddedOf(t.workers[u]) == Last(c, u)
          && forall v :: 0 <= v < |c.sizes| && v != w && v != u ==> LateAt(c, v, t.workers[v], v < i))
  }

  ghost predicate LateAt(c: Config, v: nat, me: Worker, left: bool)
    requires v < |c.sizes|
  {
    if left then AddedOf(me) == MostLate(c, v) else Waits(c, v, me)
  }

  /** Everyone waits, w before the last row of its last full batch. */
  lemma {:induction false} AllWait(c: Config, w: nat, u: nat) returns (t: State)
    requires RaisesLate(c, w, u)
    ensures Reaches(c, Initial(c), t) && AllResting(c, t)
    ensures !t.limit ==>
      && !t.timeout && t.workers[w] == HeadAt(Last(c, w) - 1).(pc := Reading) && t.workers[u] == Idle
      && forall v :: 0 <= v < |c.sizes| && v != w && v != u ==> LateAt(c, v, t.workers[v], false)
  {
    var r := RunOthers(c, w, u, |c.sizes|);
    t := r;
    if !r.limit {
      t := RunToLast(c, r, w);
      RestingKept(c, r, t, w);
      forall v | 0 <= v < |c.sizes| && v != w && v != u && !t.limit ensures LateAt(c, v, t.workers[v], false) {
        assert Waits(c, v, r.workers[v]);
      }
    }
  }

  /** Then u adds its last full batch and meets the timeout. */
  lemma {:induction false} MeetTimeout(c: Config, w: nat, u: nat) returns (t: State)
    requires RaisesLate(c, w, u)
    ensures LeftBefore(c, t, w, u, 0)
  {
    var r := AllWait(c, w, u);
    t := r;
    if !r.limit {
      t := LastThenLate(c, r, u);
      RestingKept(c, r, t, u);
    }
  }

  /** The last full batch of u, and the timeout, unless the limit is raised before. */
  lemma {:induction false} LastThenLate(c: Config, t: State, u: nat) returns (r: State)
    requires At(c, t, u) && !t.limit && !t.timeout && t.workers[u] == Idle && Last(c, u) > 0
    ensures Moves(c, t, r, u) && r.workers[u].pc == Done
    ensures !r.limit ==> r.timeout && AddedOf(r.workers[u]) == Last(c, u)
  {
    BeforeLast(c, u);
    r := RunToLast(c, t, u);
    if !r.limit { r := AddBatch(c, r, u, Last(c, u)); }
    if !r.limit { r := TimeOut(c, r, u); }
  }

  /** A waiting worker leaves, if it is at the head of its loop. */
  lemma {:induction false} LeaveIfHead(c: Config, t: State, v: nat) returns (u: State)
    requires At(c, t, v) && !t.limit && t.timeout && Waits(c, v, t.workers[v])
    ensures Moves(c, t, u, v) && !u.limit && u.timeout && Resting(c, u.workers[v])
    ensures AddedOf(u.workers[v]) == MostLate(c, v)
  {
    u := t;
    if Last(c, v) <= Safe(c, v) { u := Leave(c, t, v); }
  }

  lemma {:induction false} LeaveLate(c: Config, w: nat, u: nat, i: nat) returns (t: State)
    requires RaisesLate(c, w, u) && i <= |c.sizes|
    ensures LeftBefore(c, t, w, u, i)
  {
    if i == 0 {
      t := MeetTimeout(c, w, u);
    } else {
      var r := LeaveLate(c, w, u, i - 1);
      t := r;
      if !r.limit && i - 1 != w && i - 1 != u {
        var v0 := i - 1;
        assert LateAt(c, v0, r.workers[v0], false);
        t := LeaveIfHead(c, r, v0);
        RestingKept(c, r, t, v0);
      }
      forall v | 0 <= v < |c.sizes| && v != w && v != u && !t.limit ensures LateAt(c, v, t.workers[v], v < i) {
        assert LateAt(c, v, r.workers[v], v < i - 1);
      }
    }
  }

  lemma {:induction false} RaiseLate(c: Config, w: nat, u: nat)
    requires RaisesLate(c, w, u)
    ensures SomeRunRaises(c)
  {
    var t := LeaveLate(c, w, u, |c.sizes|);
    if t.limit {
      CleanAll(c, t, 0);
    } else {
      var most := MostsLate(c)[u := Last(c, u)];
      SumUpdate(MostsLate(c), u, Last(c, u));
      LastBatch(c, t, w, most);
    }
  }

  // ---- A schedule without errors ----

  /** Where a worker stands with all its full batches added. */
  function Parked(c: Config, v: nat): Worker
    requires v < |c.sizes|
  {
    HeadAt(FullBatches(c.sizes[v]))
  }

  lemma {:induction false} AddedInBatches(ws: seq<Worker>, sizes: seq<nat>)
    requires |ws| == |sizes| && forall v :: 0 <= v < |ws| ==> AddedOf(ws[v]) <= FullBatches(sizes[v])
    ensures Total(ws, AddedOf) <= BATCH * BatchSum(sizes)
  {
    if ws != [] { AddedInBatches(ws[..|ws| - 1], sizes[..|sizes| - 1]); }
  }

  lemma {:induction false} BatchSumAtLeast(sizes: seq<nat>, v: nat)
    requires v < |sizes|
    ensures BatchSum(sizes) >= sizes[v] / BATCH
  {
    if v < |sizes| - 1 { BatchSumAtLeast(sizes[..|sizes| - 1], v); }
  }

  /** No worker that has added full batches only finds the limit reached. */
  lemma {:induction false} BatchesAreQuiet(c: Config, t: State, w: nat)
    requires CanStayQuiet(c) && At(c, t, w)
    requires forall v :: 0 <= v < |c.sizes| && v != w ==> t.workers[v] == Idle || t.workers[v] == Parked(c, v)
    requires t.workers[w].pos <= FullBatches(c.sizes[w]) && t.workers[w].pos > 0
    ensures !t.limit
  {
    ReachesSound(c, t);
    forall v | 0 <= v < |c.sizes|
      ensures AddedOf(t.workers[v]) <= FullBatches(c.sizes[v])
    {
      assert WorkerInv(c, t, v);
    }
    AddedInBatches(t.workers, c.sizes);
    BatchSumAtLeast(c.sizes, w);
  }

  /** All full batches first. */
  lemma {:induction false} RunBatches(c: Config, i: nat) returns (t: State)
    requires NeverThrows(c) && CanStayQuiet(c) && i <= |c.sizes|
    ensures Reaches(c, Initial(c), t) && |t.workers| == |c.sizes| && !t.limit && !t.timeout
    ensures forall v :: 0 <= v < |c.sizes| ==> t.workers[v] == if v < i then Parked(c, v) else Idle
  {
    if i == 0 {
      ReachesStart(c);
      t := Initial(c);
    } else {
      var r := RunBatches(c, i - 1);
      t := ReadTo(c, r, i - 1, 0, FullBatches(c.sizes[i - 1]));
      if t.limit { BatchesAreQuiet(c, t, i - 1); }
    }
  }

  /** Then what is left of each split. */
  lemma {:induction false} RunRests(c: Config, i: nat) returns (t: State)
    requires NeverThrows(c) && CanStayQuiet(c) && i <= |c.sizes|
    ensures Reaches(c, Initial(c), t) && |t.workers| == |c.sizes| && !t.limit && !t.timeout
    ensures forall v :: 0 <= v < |c.sizes| ==> if v < i then t.workers[v].pc == Done else t.workers[v] == Parked(c, v)
  {
    if i == 0 {
      t := RunBatches(c, |c.sizes|);
    } else {
      var r := RunRests(c, i - 1);
      t := ReadTo(c, r, i - 1, FullBatches(c.sizes[i - 1]), c.sizes[i - 1]);
      t := Leave(c, t, i - 1);
    }
  }
}
