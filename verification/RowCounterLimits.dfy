/** What a run needs that ends with the limit error, or with no error. */
module RowCounterLimits {
  import opened RowCounter

  ghost predicate Reaches(c: Config, s: State, t: State) {
    exists run :: IsRun(c, run) && run[0] == s && run[|run| - 1] == t
  }

  /** Some schedule ends with the limit error. */
  ghost predicate SomeRunRaises(c: Config) {
    exists t :: Reaches(c, Initial(c), t) && AllDone(t) && t.limit
  }

  /** Some schedule ends without any error. */
  ghost predicate SomeRunIsQuiet(c: Config) {
    exists t :: Reaches(c, Initial(c), t) && AllDone(t) && !t.limit && !t.timeout
  }

  /** WHERE accepts or rejects every row. */
  ghost predicate NeverThrows(c: Config) {
    forall w, i :: 0 <= w < |c.sizes| && 0 <= i < c.sizes[w] ==> !c.throws(w, i)
  }

  /** The full batches alone stay below the limit: they can come first. */
  predicate CanStayQuiet(c: Config) {
    BatchSum(c.sizes) == 0 || BATCH * BatchSum(c.sizes) < c.maxRows
  }

  // ---- How much a split can add before the limit is reached ----

  /** The rows from i on before the first on which WHERE throws. */
  function SafeFrom(c: Config, w: nat, i: nat): (n: nat)
    requires w < |c.sizes| && i <= c.sizes[w]
    ensures i <= n <= c.sizes[w] && (n < c.sizes[w] ==> c.throws(w, n))
    ensures forall k :: i <= k < n ==> !c.throws(w, k)
    decreases c.sizes[w] - i
  {
    if i == c.sizes[w] || c.throws(w, i) then i else SafeFrom(c, w, i + 1)
  }

  function Safe(c: Config, w: nat): nat
    requires w < |c.sizes|
  {
    SafeFrom(c, w, 0)
  }

  /** The rows that can be read: the one on which WHERE throws is read before. */
  function Readable(c: Config, w: nat): (n: nat)
    requires w < |c.sizes|
    ensures Safe(c, w) <= n <= c.sizes[w]
  {
    if Safe(c, w) < c.sizes[w] then Safe(c, w) + 1 else c.sizes[w]
  }

  function FullBatches(n: nat): nat { n - n % BATCH }

  /** The full batches of these. */
  function Last(c: Config, w: nat): nat
    requires w < |c.sizes|
  {
    FullBatches(Readable(c, w))
  }

  /** What a worker can add while no timeout stops it: everything, if WHERE does not throw. */
  function Most(c: Config, w: nat): nat
    requires w < |c.sizes|
  {
    if Safe(c, w) == c.sizes[w] then c.sizes[w] else Last(c, w)
  }

  /** What it can add when another worker's timeout lets it leave before a row on which WHERE throws. */
  function MostLate(c: Config, w: nat): nat
    requires w < |c.sizes|
  {
    if Last(c, w) <= Safe(c, w) then Safe(c, w) else Last(c, w)
  }

  function Mosts(c: Config): (r: seq<nat>)
    ensures |r| == |c.sizes| && forall v :: 0 <= v < |r| ==> r[v] == Most(c, v)
  {
    seq(|c.sizes|, v requires 0 <= v < |c.sizes| => Most(c, v))
  }

  function MostsLate(c: Config): (r: seq<nat>)
    ensures |r| == |c.sizes| && forall v :: 0 <= v < |r| ==> r[v] == MostLate(c, v)
  {
    seq(|c.sizes|, v requires 0 <= v < |c.sizes| => MostLate(c, v))
  }

  /** The last full batch of split w, added after all that the others can add, reaches the limit. */
  predicate RaisesLast(c: Config, w: nat) {
    w < |c.sizes| && Last(c, w) > 0 && Last(c, w) + SizeSum(Mosts(c)) - Most(c, w) >= c.maxRows
  }

  /** The same if the worker of split u meets the timeout after its own last full batch. */
  predicate RaisesLate(c: Config, w: nat, u: nat) {
    && w < |c.sizes| && u < |c.sizes| && w != u && Last(c, w) > 0 && Last(c, u) > 0
    && Last(c, w) + Last(c, u) + SizeSum(MostsLate(c)) - MostLate(c, w) - MostLate(c, u) >= c.maxRows
  }

  ghost predicate CanRaise(c: Config) {
    (exists w :: RaisesLast(c, w)) || exists w, u :: RaisesLate(c, w, u)
  }

  // ---- What a run that raises the limit needs ----

  lemma {:induction false} AddedElsewhere(ws: seq<Worker>, most: seq<nat>, w: nat)
    requires |ws| == |most| && w < |ws| && forall v :: 0 <= v < |ws| && v != w ==> AddedOf(ws[v]) <= most[v]
    ensures Total(ws, AddedOf) - AddedOf(ws[w]) <= SizeSum(most) - most[w]
  {
    var n := |ws| - 1;
    if w == n {
      AddedAtMost(ws[..n], most[..n]);
    } else {
      AddedElsewhere(ws[..n], most[..n], w);
    }
  }

  lemma {:induction false} AddedAtMost(ws: seq<Worker>, most: seq<nat>)
    requires |ws| == |most| && forall v :: 0 <= v < |ws| ==> AddedOf(ws[v]) <= most[v]
    ensures Total(ws, AddedOf) <= SizeSum(most)
  {
    if ws != [] { AddedAtMost(ws[..|ws| - 1], most[..|most| - 1]); }
  }

  lemma {:induction false} SumUpdate(ns: seq<nat>, u: nat, n: nat)
    requires u < |ns|
    ensures SizeSum(ns[u := n]) == SizeSum(ns) - ns[u] + n
  {
    var m := |ns| - 1;
    if u == m {
      assert ns[u := n][..m] == ns[..m];
    } else {
      assert ns[u := n][..m] == ns[..m][u := n];
      SumUpdate(ns[..m], u, n);
    }
  }

  /** What a worker has put to WHERE has not thrown, and is all it has read, or all but the last;
      only a full batch makes it look at the limits, and then it leaves with nothing to add. */
  ghost predicate Sound(c: Config, v: nat, me: Worker) {
    && me.tested <= me.pos <= me.tested + 1 && (forall i :: 0 <= i < me.tested ==> !c.throws(v, i))
    && (me.pc.Deciding? || me.pc.RaiseLimit? || me.pc.RaiseTimeout? ==> me.batches > 0 && me.tested < me.pos)
    && (me.pc.Leaving? || me.pc.Done? ==> me.tested == me.pos || Stopped(me))
  }

  /** It has left after a full batch, with nothing to add. */
  predicate Stopped(me: Worker) {
    (me.pc.Leaving? || me.pc.Done?) && me.batches > 0 && me.count == 0 && me.left == 0
  }

  ghost predicate AllSound(c: Config, s: State) {
    && |s.workers| == |c.sizes|
    && (forall v :: 0 <= v < |s.workers| ==> Sound(c, v, s.workers[v]))
    && (s.timeout ==> exists u :: 0 <= u < |s.workers| && Stopped(s.workers[u]))
  }

  lemma {:induction false} MoverSound(c: Config, s: State, w: nat, late: bool)
    requires Inv(c, s) && Running(c, s, w) && Sound(c, w, s.workers[w])
    ensures Sound(c, w, Advance(c, s, w, s.workers[w], late))
    ensures Stopped(s.workers[w]) || s.workers[w].pc.RaiseTimeout? ==> Stopped(Advance(c, s, w, s.workers[w], late))
  {
    assert WorkerInv(c, s, w);
  }

  lemma {:induction false} StepSound(c: Config, s: State, w: nat, late: bool)
    requires Inv(c, s) && Running(c, s, w) && AllSound(c, s)
    ensures AllSound(c, Step(c, s, w, late))
  {
    var s' := Step(c, s, w, late);
    MoverSound(c, s, w, late);
    if s.timeout {
      var u :| 0 <= u < |s.workers| && Stopped(s.workers[u]);
      assert Stopped(s'.workers[u]);
    } else if s'.timeout {
      assert Stopped(s'.workers[w]);
    }
  }

  lemma {:induction false} RunSound(c: Config, run: seq<State>, k: nat)
    requires IsRun(c, run) && run[0] == Initial(c) && k < |run|
    ensures Inv(c, run[k]) && AllSound(c, run[k])
  {
    InitialInv(c);
    RunKeepsInv(c, run, k);
    if k > 0 {
      RunSound(c, run, k - 1);
      assert Next(c, run[k - 1], run[k]);
      var w: nat, late :| StepsTo(c, run[k - 1], run[k], w, late);
      StepSound(c, run[k - 1], w, late);
    }
  }

  /** What a worker can have read, and have added. */
  lemma {:induction false} AddedBy(c: Config, s: State, v: nat)
    requires Inv(c, s) && AllSound(c, s) && v < |s.workers|
    ensures s.workers[v].tested <= Safe(c, v) && s.workers[v].pos <= Readable(c, v)
    ensures BATCH * s.workers[v].batches <= Last(c, v)
    ensures AddedOf(s.workers[v]) <= MostLate(c, v)
    ensures !s.limit && !s.timeout ==> AddedOf(s.workers[v]) <= Most(c, v)
  {
    var me := s.workers[v];
    assert WorkerInv(c, s, v) && Sound(c, v, me);
    assert Safe(c, v) < c.sizes[v] ==> c.throws(v, Safe(c, v));
    MultiplesBelow(me.batches, Readable(c, v));
  }

  lemma {:induction false} MultiplesBelow(k: nat, n: nat)
    requires BATCH * k <= n
    ensures BATCH * k <= FullBatches(n)
  {}

  /** A batch that reaches the limit. */
  lemma {:induction false} CrossingNeeds(c: Config, s: State, w: nat)
    requires Inv(c, s) && AllSound(c, s) && w < |s.workers| && !s.limit
    requires s.workers[w].pc == Adding && s.counter + s.workers[w].count >= c.maxRows
    ensures CanRaise(c)
  {
    forall v | 0 <= v < |s.workers|
      ensures AddedOf(s.workers[v]) <= MostLate(c, v) && (!s.timeout ==> AddedOf(s.workers[v]) <= Most(c, v))
    {
      AddedBy(c, s, v);
    }
    assert WorkerInv(c, s, w);
    AddedBy(c, s, w);
    MultiplesBelow(s.workers[w].batches + 1, Readable(c, w));
    if s.timeout {
      var u :| 0 <= u < |s.workers| && Stopped(s.workers[u]);
      AddedBy(c, s, u);
      var most := MostsLate(c)[u := Last(c, u)];
      SumUpdate(MostsLate(c), u, Last(c, u));
      AddedElsewhere(s.workers, most, w);
      assert RaisesLate(c, w, u);
    } else {
      AddedElsewhere(s.workers, Mosts(c), w);
      assert RaisesLast(c, w);
    }
  }

  ghost predicate Raising(c: Config, s: State) {
    s.limit || exists w :: 0 <= w < |s.workers| && AboutToRaise(c, s.workers[w])
  }

  lemma {:induction false} RaisingNeeds(c: Config, run: seq<State>, k: nat)
    requires IsRun(c, run) && run[0] == Initial(c) && k < |run| && Raising(c, run[k])
    ensures CanRaise(c)
  {
    if k > 0 {
      var s := run[k - 1];
      RunSound(c, run, k - 1);
      assert Next(c, s, run[k]);
      var w: nat, late :| StepsTo(c, s, run[k], w, late);
      if Raising(c, s) {
        RaisingNeeds(c, run, k - 1);
      } else {
        assert WorkerInv(c, s, w) && !AboutToRaise(c, s.workers[w]);
        var v :| 0 <= v < |s.workers| && AboutToRaise(c, run[k].workers[v]);
        assert v == w;
        CrossingNeeds(c, s, w);
      }
    }
  }

  // ---- What a quiet run needs ----

  lemma {:induction false} QuietNeeds(c: Config, t: State)
    requires Reaches(c, Initial(c), t) && AllDone(t) && !t.limit && !t.timeout
    ensures NeverThrows(c) && CanStayQuiet(c)
  {
    var run :| IsRun(c, run) && run[0] == Initial(c) && run[|run| - 1] == t;
    var k := |run| - 1;
    RunSound(c, run, k);
    forall w, i | 0 <= w < |c.sizes| && 0 <= i < c.sizes[w] ensures !c.throws(w, i) {
      NoErrorMeansAllRows(c, run, k, w);
      assert Sound(c, w, t.workers[w]);
    }
    if !CanStayQuiet(c) { BatchesForceError(c, run, k); }
  }
}
