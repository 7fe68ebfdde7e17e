/** When the row limit is reported. The limit check looks at the counter only when a full batch is
    added, but a worker that finishes adds the rest of its rows unchecked. Whether the error is
    raised can therefore depend on who finishes first: exactly when it does, for any splits. */
module RowCounterRace {
  import opened RowCounter
  import opened RowCounterLimits
  import opened RowCounterSchedules

  /** Some schedule ends with the limit error if and only if a last full batch can reach the limit. */
  lemma {:induction false} RaisesIff(c: Config)
    ensures SomeRunRaises(c) <==> CanRaise(c)
  {
    if t :| Reaches(c, Initial(c), t) && AllDone(t) && t.limit {
      var run :| IsRun(c, run) && run[0] == Initial(c) && run[|run| - 1] == t;
      RaisingNeeds(c, run, |run| - 1);
    }
    if w :| RaisesLast(c, w) { RaiseLast(c, w); }
    if w, u :| RaisesLate(c, w, u) { RaiseLate(c, w, u); }
  }

  /** Some schedule ends without an error if and only if WHERE never throws and the full batches
      stay below the limit. */
  lemma {:induction false} QuietIff(c: Config)
    ensures SomeRunIsQuiet(c) <==> NeverThrows(c) && CanStayQuiet(c)
  {
    if t :| Reaches(c, Initial(c), t) && AllDone(t) && !t.limit && !t.timeout { QuietNeeds(c, t); }
    if NeverThrows(c) && CanStayQuiet(c) {
      var t := RunRests(c, |c.sizes|);
      assert AllDone(t);
    }
  }

  /** All rows, less the last incomplete batch of a split that has a full one, reach the limit. */
  predicate ReachesAllBut(c: Config, w: nat) {
    w < |c.sizes| && c.sizes[w] >= BATCH && SizeSum(c.sizes) - c.sizes[w] % BATCH >= c.maxRows
  }

  /** If WHERE never throws, the condition is about the sizes of the splits only. */
  lemma {:induction false} RaisesWithoutThrowing(c: Config)
    requires NeverThrows(c)
    ensures CanRaise(c) <==> exists w :: ReachesAllBut(c, w)
  {
    assert Mosts(c) == c.sizes && MostsLate(c) == c.sizes;
    forall w: nat | w < |c.sizes| ensures RaisesLast(c, w) <==> ReachesAllBut(c, w) { assert Most(c, w) == c.sizes[w]; }
    if w :| ReachesAllBut(c, w) { assert RaisesLast(c, w); }
    if w :| RaisesLast(c, w) { assert ReachesAllBut(c, w); }
    if w: nat, u: nat :| RaisesLate(c, w, u) {
      assert Last(c, u) <= c.sizes[u] == MostLate(c, u);
      assert RaisesLast(c, w) && ReachesAllBut(c, w);
    }
  }

  /** The schedule decides whether the limit error is raised exactly when both are possible. */
  lemma {:induction false} ScheduleDecidesIff(c: Config)
    ensures SomeRunRaises(c) && SomeRunIsQuiet(c) <==>
            NeverThrows(c) && CanStayQuiet(c) && exists w :: ReachesAllBut(c, w)
  {
    RaisesIff(c);
    QuietIff(c);
    if NeverThrows(c) { RaisesWithoutThrowing(c); }
  }

  /** Two workers: 600 rows and 1000 rows, against a limit of 1500. */
  const RACE := Config([600, 1000], 1500, (w, i) => false)

  /** An instance: the large split first is let through with 1000, the small split first makes it
      1600. */
  lemma {:induction false} LimitErrorDependsOnSchedule()
    ensures SomeRunRaises(RACE) && SomeRunIsQuiet(RACE)
  {
    var sizes := RACE.sizes;
    assert sizes[..1] == [600] && sizes[..1][..0] == [];
    assert SizeSum([600]) == 600 && BatchSum([600]) == 0;
    assert SizeSum(sizes) == 1600 && BatchSum(sizes) == 1;
    assert ReachesAllBut(RACE, 1);
    ScheduleDecidesIff(RACE);
  }
}
