/** Parallel ORDER BY from the file to the merged rows: whatever the schedule of the workers, a run
    that ends without an error delivers what the sequential path delivers, up to ties. */
module OrderSchedules {
  import opened Wrappers
  import opened Rows
  import opened Sequences
  import opened Ast
  import opened Evaluator
  import opened Sorting
  import opened MergeSorter
  import opened OrderBy
  import opened RowCounter
  import opened RowCounterLimits
  import RowCounterRace
  import Csv
  import CsvSplit
  import GroupSchedules

  /** The workers over some splits: WHERE throws where its evaluation fails. */
  function Counting(lib: Library, where_: Option<Expr>, splits: seq<seq<Row>>, maxRows: nat): Config {
    Config(GroupSchedules.Lengths(splits), maxRows,
           (w: nat, i: nat) => w < |splits| && i < |splits[w]| && Keeps(lib, where_, splits[w][i]).Err?)
  }

  /** A worker's rows when it is done: those WHERE kept of the rows put to it, sorted. */
  ghost predicate WorkerRows(lib: Library, field: string, desc: bool, where_: Option<Expr>, split: seq<Row>, me: Worker,
                             sorted: seq<Row>)
  {
    && me.tested <= |split| && Matching(lib, where_, split[..me.tested]).Ok?
    && AloneOrder(lib, field, desc, Matching(lib, where_, split[..me.tested]).value, sorted)
  }

  /** The rows of the workers, merged. */
  ghost predicate Merged(lib: Library, field: string, desc: bool, sorted: seq<seq<Row>>, r: seq<Row>) {
    exists trace ::
      && Interleaving(sorted, trace, r)
      && (SortableColumn(lib, field, Concat(sorted)) &&
          (forall i :: 0 <= i < |sorted| ==> Sorted(desc, MakeItems(lib, field, sorted[i]))) ==>
            Sorted(desc, MakeItems(lib, field, r)))
  }

  /** What the parallel path delivers when its workers end in a given state. */
  ghost predicate Delivers(lib: Library, field: string, desc: bool, where_: Option<Expr>, splits: seq<seq<Row>>,
                           end: State, r: seq<Row>)
  {
    exists sorted :: HaveSorted(lib, field, desc, where_, splits, end, sorted) && Merged(lib, field, desc, sorted, r)
  }

  ghost predicate HaveSorted(lib: Library, field: string, desc: bool, where_: Option<Expr>, splits: seq<seq<Row>>,
                             end: State, sorted: seq<seq<Row>>)
  {
    && |sorted| == |splits| == |end.workers|
    && forall w :: 0 <= w < |splits| ==> WorkerRows(lib, field, desc, where_, splits[w], end.workers[w], sorted[w])
  }

  lemma {:induction false} AllMatch(lib: Library, where_: Option<Expr>, rows: seq<Row>)
    requires forall i :: 0 <= i < |rows| ==> Keeps(lib, where_, rows[i]).Ok?
    ensures Matching(lib, where_, rows).Ok?
  {
    if rows != [] { AllMatch(lib, where_, rows[..|rows| - 1]); }
  }

  lemma {:induction false} AllSplitsMatch(lib: Library, where_: Option<Expr>, splits: seq<seq<Row>>, maxRows: nat)
    requires NeverThrows(Counting(lib, where_, splits, maxRows))
    ensures forall w :: 0 <= w < |splits| ==> Matching(lib, where_, splits[w]).Ok?
  {
    var c := Counting(lib, where_, splits, maxRows);
    forall w | 0 <= w < |splits| ensures Matching(lib, where_, splits[w]).Ok? {
      forall i | 0 <= i < |splits[w]| ensures Keeps(lib, where_, splits[w][i]).Ok? { assert !c.throws(w, i); }
      AllMatch(lib, where_, splits[w]);
    }
  }

  /** No WHERE throws exactly if the matching rows of the whole can be computed. */
  lemma {:induction false} NeverThrowsIff(lib: Library, where_: Option<Expr>, splits: seq<seq<Row>>, maxRows: nat)
    ensures NeverThrows(Counting(lib, where_, splits, maxRows)) <==> Matching(lib, where_, Concat(splits)).Ok?
  {
    var c := Counting(lib, where_, splits, maxRows);
    if NeverThrows(c) {
      AllSplitsMatch(lib, where_, splits, maxRows);
      MatchingOfSplits(lib, where_, splits);
    } else {
      var w, i :| 0 <= w < |c.sizes| && 0 <= i < c.sizes[w] && c.throws(w, i);
      ConcatMember(splits, w, i);
      var k :| 0 <= k < |Concat(splits)| && Concat(splits)[k] == splits[w][i];
      MatchingFails(lib, where_, Concat(splits), k);
    }
  }

  function Kept(lib: Library, where_: Option<Expr>, splits: seq<seq<Row>>): (r: seq<seq<Row>>)
    requires forall w :: 0 <= w < |splits| ==> Matching(lib, where_, splits[w]).Ok?
    ensures |r| == |splits| && forall w :: 0 <= w < |r| ==> r[w] == Matching(lib, where_, splits[w]).value
  {
    seq(|splits|, w requires 0 <= w < |splits| => Matching(lib, where_, splits[w]).value)
  }

  lemma {:induction false} MatchingOfSplits(lib: Library, where_: Option<Expr>, splits: seq<seq<Row>>)
    requires forall w :: 0 <= w < |splits| ==> Matching(lib, where_, splits[w]).Ok?
    ensures Matching(lib, where_, Concat(splits)) == Ok(Concat(Kept(lib, where_, splits)))
  {
    if splits != [] {
      var m := |splits| - 1;
      MatchingOfSplits(lib, where_, splits[..m]);
      assert Kept(lib, where_, splits)[..m] == Kept(lib, where_, splits[..m]);
      MatchingConcat(lib, where_, Concat(splits[..m]), splits[m]);
    }
  }

  /** Every schedule that ends without an error delivers the matching rows of all splits, in order if
      the column allows. */
  lemma {:induction false} EveryScheduleOrders(lib: Library, field: string, desc: bool, where_: Option<Expr>,
                                               splits: seq<seq<Row>>, maxRows: nat, end: State, r: seq<Row>)
    requires Reaches(Counting(lib, where_, splits, maxRows), Initial(Counting(lib, where_, splits, maxRows)), end)
    requires AllDone(end) && !end.limit && !end.timeout && Delivers(lib, field, desc, where_, splits, end, r)
    ensures Matching(lib, where_, Concat(splits)).Ok?
    ensures SplitOrder(lib, field, desc, Matching(lib, where_, Concat(splits)).value, r)
    ensures AllJudged(lib, where_, Concat(splits))
    ensures Ordered(lib, field, desc, Passing(lib, where_, Concat(splits)), r)
  {
    var c := Counting(lib, where_, splits, maxRows);
    AllTested(c, end);
    var sorted :| HaveSorted(lib, field, desc, where_, splits, end, sorted) && Merged(lib, field, desc, sorted, r);
    forall w | 0 <= w < |splits| ensures SortedSplit(lib, field, desc, where_, splits[w], sorted[w]) {
      assert splits[w][..|splits[w]|] == splits[w];
      assert WorkerRows(lib, field, desc, where_, splits[w], end.workers[w], sorted[w]);
    }
    MatchingOfSplits(lib, where_, splits);
    MergedSplits(lib, field, desc, Kept(lib, where_, splits), sorted, r);
    MatchingMeans(lib, where_, Concat(splits));
    SplitInOrder(lib, field, desc, Matching(lib, where_, Concat(splits)).value, r);
  }

  /** Every run that ends without an error delivers something. */
  lemma {:induction false} QuietRunDelivers(lib: Library, field: string, desc: bool, where_: Option<Expr>,
                                            splits: seq<seq<Row>>, maxRows: nat, end: State) returns (r: seq<Row>)
    requires Reaches(Counting(lib, where_, splits, maxRows), Initial(Counting(lib, where_, splits, maxRows)), end)
    requires AllDone(end) && !end.limit && !end.timeout
    ensures Delivers(lib, field, desc, where_, splits, end, r)
  {
    var c := Counting(lib, where_, splits, maxRows);
    AllTested(c, end);
    QuietNeeds(c, end);
    AllSplitsMatch(lib, where_, splits, maxRows);
    var sorted := SortedSplits(lib, field, desc, Kept(lib, where_, splits));
    forall w | 0 <= w < |splits| ensures WorkerRows(lib, field, desc, where_, splits[w], end.workers[w], sorted[w]) {
      assert splits[w][..|splits[w]|] == splits[w];
    }
    assert HaveSorted(lib, field, desc, where_, splits, end, sorted);
    var trace;
    r, trace := MergedRowsExist(lib, field, desc, sorted);
    assert Merged(lib, field, desc, sorted, r);
  }

  lemma {:induction false} SortedSplits(lib: Library, field: string, desc: bool, kept: seq<seq<Row>>)
    returns (sorted: seq<seq<Row>>)
    ensures |sorted| == |kept| && forall w :: 0 <= w < |kept| ==> AloneOrder(lib, field, desc, kept[w], sorted[w])
  {
    if kept == [] {
      sorted := [];
    } else {
      var front := SortedSplits(lib, field, desc, kept[..|kept| - 1]);
      var last := SortedRowsExist(lib, field, desc, kept[|kept| - 1]);
      sorted := front + [last];
    }
  }

  ghost predicate SortedSplit(lib: Library, field: string, desc: bool, where_: Option<Expr>, split: seq<Row>,
                              sorted: seq<Row>)
  {
    Matching(lib, where_, split).Ok? && AloneOrder(lib, field, desc, Matching(lib, where_, split).value, sorted)
  }

  lemma {:induction false} AllTested(c: Config, end: State)
    requires Reaches(c, Initial(c), end) && AllDone(end) && !end.limit && !end.timeout
    ensures |end.workers| == |c.sizes| && forall w :: 0 <= w < |c.sizes| ==> end.workers[w].tested == c.sizes[w]
  {
    var run :| IsRun(c, run) && run[0] == Initial(c) && run[|run| - 1] == end;
    RunSound(c, run, |run| - 1);
    forall w | 0 <= w < |c.sizes|
      ensures end.workers[w].tested == c.sizes[w]
    {
      NoErrorMeansAllRows(c, run, |run| - 1, w);
    }
  }

  lemma {:induction false} MergedSplits(lib: Library, field: string, desc: bool, kept: seq<seq<Row>>,
                                        sorted: seq<seq<Row>>, r: seq<Row>)
    requires |kept| == |sorted| && Merged(lib, field, desc, sorted, r)
    requires forall k :: 0 <= k < |kept| ==> AloneOrder(lib, field, desc, kept[k], sorted[k])
    ensures SplitOrder(lib, field, desc, Concat(kept), r)
  {
    var trace :|
      && Interleaving(sorted, trace, r)
      && (SortableColumn(lib, field, Concat(sorted)) &&
          (forall i :: 0 <= i < |sorted| ==> Sorted(desc, MakeItems(lib, field, sorted[i]))) ==>
            Sorted(desc, MakeItems(lib, field, r)));
    MergedOrder(lib, field, desc, kept, sorted, trace, r);
  }

  /** ORDER BY over a ',' file without newlines inside quotes, on a sortable column: every schedule
      that ends without an error delivers the rows of the sequential path, with keys that compare
      equal at every index. */
  lemma {:induction false} FileOrderBy(lib: Library, field: string, desc: bool, where_: Option<Expr>, data: string,
                                       base: nat, n: nat, headers: seq<string>, maxRows: nat, end: State,
                                       parallel: seq<Row>, alone: seq<Row>)
    requires CsvSplit.AfterHeader(data, base) && CsvSplit.NewlinesUnquoted(data, base) && n > 0
    requires var splits := GroupSchedules.Chunks(data, base, n, headers);
             var c := Counting(lib, where_, splits, maxRows);
             Reaches(c, Initial(c), end) && Delivers(lib, field, desc, where_, splits, end, parallel)
    requires AllDone(end) && !end.limit && !end.timeout
    ensures Matching(lib, where_, Csv.RowsFrom(data, base, |data|, ',', headers)).Ok?
    ensures Ordered(lib, field, desc, Passing(lib, where_, Csv.RowsFrom(data, base, |data|, ',', headers)), parallel)
    ensures var matching := Matching(lib, where_, Csv.RowsFrom(data, base, |data|, ',', headers)).value;
            AloneOrder(lib, field, desc, matching, alone) && SortableColumn(lib, field, matching) ==>
              && |parallel| == |alone|
              && multiset(MakeItems(lib, field, parallel)) == multiset(MakeItems(lib, field, alone))
              && forall k :: 0 <= k < |alone| ==>
                   Equivalent(desc, MakeItem(lib, field, parallel[k]), MakeItem(lib, field, alone[k]))
  {
    var splits := GroupSchedules.Chunks(data, base, n, headers);
    var rows := Csv.RowsFrom(data, base, |data|, ',', headers);
    GroupSchedules.ChunksKeepRows(data, base, n, headers);
    EveryScheduleOrders(lib, field, desc, where_, splits, maxRows, end, parallel);
    var matching := Matching(lib, where_, rows).value;
    if AloneOrder(lib, field, desc, matching, alone) && SortableColumn(lib, field, matching) {
      PathsAgree(lib, field, desc, matching, parallel, alone);
    }
  }

  /** Some schedule ends without an error exactly if the matching rows can be computed and the full
      batches of the splits stay below the limit. */
  lemma {:induction false} SplitsSucceedIff(lib: Library, where_: Option<Expr>, splits: seq<seq<Row>>, maxRows: nat)
    ensures var c := Counting(lib, where_, splits, maxRows);
            SomeRunIsQuiet(c) <==> AllJudged(lib, where_, Concat(splits)) && CanStayQuiet(c)
  {
    MatchingMeans(lib, where_, Concat(splits));
    NeverThrowsIff(lib, where_, splits, maxRows);
    RowCounterRace.QuietIff(Counting(lib, where_, splits, maxRows));
  }
}
