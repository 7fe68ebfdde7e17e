/** ORDER BY: sort everything, or sort each split and merge. */
module OrderBy {
  import opened Wrappers
  import opened Rows
  import opened Ast
  import opened Evaluator
  import opened Limits
  import opened Sequences
  import opened Sorting
  import opened MergeSorter

  function MakeItems(lib: Library, field: string, rows: seq<Row>): (r: seq<SortItem>)
    ensures |r| == |rows| && forall k :: 0 <= k < |r| ==> r[k] == MakeItem(lib, field, rows[k])
  {
    seq(|rows|, k requires 0 <= k < |rows| => MakeItem(lib, field, rows[k]))
  }

  function RowsOf(items: seq<SortItem>): (r: seq<Row>)
    ensures |r| == |items| && forall k :: 0 <= k < |r| ==> r[k] == items[k].row
  {
    seq(|items|, k requires 0 <= k < |items| => items[k].row)
  }

  /** The key column of these rows can be sorted on: where the text of a key that is no number
      lies between those of two numbers, these are in the order of their texts. */
  ghost predicate SortableColumn(lib: Library, field: string, rows: seq<Row>) {
    TextsFollowNumbers(Members(MakeItems(lib, field, rows)))
  }

  /** These are exactly the columns on which the comparator is a strict weak order. */
  lemma {:induction false} SortableIff(lib: Library, field: string, desc: bool, rows: seq<Row>)
    ensures SortableColumn(lib, field, rows) <==> Coherent(desc, Members(MakeItems(lib, field, rows)))
  {
    var u := Members(MakeItems(lib, field, rows));
    forall a | a in u ensures Keyed(lib, a) {
      var k :| 0 <= k < |rows| && MakeItems(lib, field, rows)[k] == a;
      assert a == MakeItem(lib, field, rows[k]);
    }
    CoherentIff(lib, desc, u);
  }

  /** The rows in order, with ties as they were. */
  function SortedRows(lib: Library, field: string, desc: bool, rows: seq<Row>): seq<Row> {
    RowsOf(StableSort(desc, MakeItems(lib, field, rows)))
  }

  // ---- What ORDER BY promises, in terms of the rows ----

  /** The number in a row's key column, if its text is one. */
  function KeyNumber(lib: Library, field: string, row: Row): Option<real> {
    match Find(row, field)
    case Some(text) => TryParseDouble(lib, text)
    case None => None
  }

  /** Every key is a number. */
  ghost predicate AllNumbers(lib: Library, field: string, rows: seq<Row>) {
    forall i :: 0 <= i < |rows| ==> KeyNumber(lib, field, rows[i]).Some?
  }

  /** No key is a number. */
  ghost predicate NoNumbers(lib: Library, field: string, rows: seq<Row>) {
    forall i :: 0 <= i < |rows| ==> KeyNumber(lib, field, rows[i]).None?
  }

  /** Numbers go up from row to row, or down for DESC; a pair that is not two numbers goes by the
      texts, a missing column reading as "". */
  ghost predicate InOrder(lib: Library, field: string, desc: bool, r: seq<Row>) {
    forall i, j :: 0 <= i < j < |r| ==> PairInOrder(lib, field, desc, r[i], r[j])
  }

  predicate PairInOrder(lib: Library, field: string, desc: bool, a: Row, b: Row) {
    var x, y := KeyNumber(lib, field, a), KeyNumber(lib, field, b);
    if x.Some? && y.Some? then (if desc then x.value >= y.value else x.value <= y.value)
    else
      var s, t := TextOf(a, field), TextOf(b, field);
      s == t || (if desc then StrLess(t, s) else StrLess(s, t))
  }

  /** The promise: the same rows, and in order if the comparator is a strict weak order on the
      column, in particular if all keys are numbers or none is. */
  ghost predicate Ordered(lib: Library, field: string, desc: bool, rows: seq<Row>, r: seq<Row>) {
    && multiset(r) == multiset(rows)
    && (SortableColumn(lib, field, rows) || AllNumbers(lib, field, rows) || NoNumbers(lib, field, rows) ==>
          InOrder(lib, field, desc, r))
  }

  lemma {:induction false} CountOfRow(lib: Library, field: string, rows: seq<Row>, x: Row)
    ensures multiset(MakeItems(lib, field, rows))[MakeItem(lib, field, x)] == multiset(rows)[x]
  {
    if rows != [] {
      var front, last := rows[..|rows| - 1], rows[|rows| - 1];
      CountOfRow(lib, field, front, x);
      assert rows == front + [last];
      assert MakeItems(lib, field, rows) == MakeItems(lib, field, front) + [MakeItem(lib, field, last)];
    }
  }

  lemma {:induction false} SameRows(lib: Library, field: string, a: seq<Row>, b: seq<Row>)
    requires multiset(MakeItems(lib, field, a)) == multiset(MakeItems(lib, field, b))
    ensures multiset(a) == multiset(b)
  {
    forall x ensures multiset(a)[x] == multiset(b)[x] {
      CountOfRow(lib, field, a, x);
      CountOfRow(lib, field, b, x);
    }
  }

  lemma {:induction false} InOrderIff(lib: Library, field: string, desc: bool, r: seq<Row>)
    ensures Sorted(desc, MakeItems(lib, field, r)) <==> InOrder(lib, field, desc, r)
  {
    var items := MakeItems(lib, field, r);
    SortedMeans(desc, items);
    forall i, j | 0 <= i < j < |r|
      ensures KeysInOrder(desc, items[i], items[j]) <==> PairInOrder(lib, field, desc, r[i], r[j])
    {}
    if InOrder(lib, field, desc, r) {
      forall i, j | 0 <= i < j < |items| ensures KeysInOrder(desc, items[i], items[j]) {
        assert PairInOrder(lib, field, desc, r[i], r[j]);
      }
    }
  }

  lemma {:induction false} PlainIsSortable(lib: Library, field: string, rows: seq<Row>)
    requires AllNumbers(lib, field, rows) || NoNumbers(lib, field, rows)
    ensures SortableColumn(lib, field, rows)
  {
    var u := Members(MakeItems(lib, field, rows));
    forall a | a in u ensures exists i :: 0 <= i < |rows| && a == MakeItem(lib, field, rows[i]) {
      var i :| 0 <= i < |rows| && MakeItems(lib, field, rows)[i] == a;
    }
    forall a | a in u ensures a.isNum <==> AllNumbers(lib, field, rows) && rows != [] {
      var i :| 0 <= i < |rows| && a == MakeItem(lib, field, rows[i]);
      assert KeyNumber(lib, field, rows[i]).Some? <==> a.isNum;
    }
    HomogeneousIsCoherent(false, u);
  }

  /** Stands in for std::stable_sort, which promises an order only for a strict weak order. */
  method StdStableSort(desc: bool, s: seq<SortItem>) returns (r: seq<SortItem>)
    ensures multiset(r) == multiset(s)
    ensures Coherent(desc, Members(s)) ==> StablySorted(desc, s, r)
  {
    r := [];
    var i := |s|;
    while i > 0
      invariant 0 <= i <= |s| && r == StableSort(desc, s[i..])
    {
      i := i - 1;
      r := Insert(desc, s[i], r);
      assert s[i..][1..] == s[i + 1..];
    }
    assert s[0..] == s;
    StableSortPermutes(desc, s);
    if Coherent(desc, Members(s)) { StableSortIsStable(desc, s); }
  }

  method KeyRows(lib: Library, field: string, rows: seq<Row>) returns (items: seq<SortItem>)
    ensures items == MakeItems(lib, field, rows)
  {
    items := [];
    for i := 0 to |rows|
      invariant items == MakeItems(lib, field, rows)[..i]
    {
      items := items + [MakeItem(lib, field, rows[i])];
    }
    assert items == MakeItems(lib, field, rows);
  }

  method TakeRows(items: seq<SortItem>) returns (r: seq<Row>)
    ensures r == RowsOf(items)
  {
    r := [];
    for i := 0 to |items|
      invariant r == RowsOf(items)[..i]
    {
      r := r + [items[i].row];
    }
    assert r == RowsOf(items);
  }

  /** What a sequential sort delivers: a permutation, stably sorted if the column allows it. */
  ghost predicate AloneOrder(lib: Library, field: string, desc: bool, rows: seq<Row>, r: seq<Row>) {
    && multiset(MakeItems(lib, field, r)) == multiset(MakeItems(lib, field, rows))
    && (SortableColumn(lib, field, rows) ==> r == SortedRows(lib, field, desc, rows))
  }

  lemma {:induction false} AloneInOrder(lib: Library, field: string, desc: bool, rows: seq<Row>, r: seq<Row>)
    requires AloneOrder(lib, field, desc, rows, r)
    ensures Ordered(lib, field, desc, rows, r)
  {
    SameRows(lib, field, r, rows);
    if AllNumbers(lib, field, rows) || NoNumbers(lib, field, rows) { PlainIsSortable(lib, field, rows); }
    if SortableColumn(lib, field, rows) {
      SortableIff(lib, field, desc, rows);
      SortedRowsItems(lib, field, desc, rows);
      StableSortIsStable(desc, MakeItems(lib, field, rows));
      InOrderIff(lib, field, desc, r);
    }
  }

  method SortRows(lib: Library, field: string, desc: bool, rows: seq<Row>) returns (r: seq<Row>)
    ensures multiset(MakeItems(lib, field, r)) == multiset(MakeItems(lib, field, rows))
    ensures SortableColumn(lib, field, rows) ==> r == SortedRows(lib, field, desc, rows)
    ensures Ordered(lib, field, desc, rows, r)
  {
    var items := KeyRows(lib, field, rows);
    var sorted := StdStableSort(desc, items);
    r := TakeRows(sorted);
    ItemsBack(lib, field, rows, sorted);
    SortableIff(lib, field, desc, rows);
    if SortableColumn(lib, field, rows) { StablySortedIsStableSort(desc, items, sorted); }
    AloneInOrder(lib, field, desc, rows, r);
  }

  /** Taking the rows out of items and keying them again gives the items back. */
  lemma {:induction false} ItemsBack(lib: Library, field: string, rows: seq<Row>, items: seq<SortItem>)
    requires multiset(items) == multiset(MakeItems(lib, field, rows))
    ensures MakeItems(lib, field, RowsOf(items)) == items
  {
    MembersOf(items, MakeItems(lib, field, rows));
    forall k | 0 <= k < |items| ensures MakeItem(lib, field, items[k].row) == items[k] {
      assert items[k] in MakeItems(lib, field, rows);
    }
  }

  lemma {:induction false} SortedRowsItems(lib: Library, field: string, desc: bool, rows: seq<Row>)
    ensures MakeItems(lib, field, SortedRows(lib, field, desc, rows)) == StableSort(desc, MakeItems(lib, field, rows))
  {
    StableSortPermutes(desc, MakeItems(lib, field, rows));
    ItemsBack(lib, field, rows, StableSort(desc, MakeItems(lib, field, rows)));
  }

  // ---- Merging rows ----

  function ItemSplits(lib: Library, field: string, splits: seq<seq<Row>>): (r: seq<seq<SortItem>>)
    ensures |r| == |splits| && forall i :: 0 <= i < |r| ==> r[i] == MakeItems(lib, field, splits[i])
  {
    seq(|splits|, i requires 0 <= i < |splits| => MakeItems(lib, field, splits[i]))
  }

  /** MergeSorter::Merge: key every row once, merge, take the rows out. */
  method Merge(lib: Library, field: string, desc: bool, splits: seq<seq<Row>>)
    returns (r: seq<Row>, ghost trace: seq<nat>)
    ensures Interleaving(splits, trace, r)
    ensures SortableColumn(lib, field, Concat(splits)) &&
            (forall i :: 0 <= i < |splits| ==> Sorted(desc, MakeItems(lib, field, splits[i]))) ==>
              Sorted(desc, MakeItems(lib, field, r)) && InOrder(lib, field, desc, r)
  {
    var items: seq<seq<SortItem>> := [];
    for i := 0 to |splits|
      invariant items == ItemSplits(lib, field, splits)[..i]
    {
      var keyed := KeyRows(lib, field, splits[i]);
      items := items + [keyed];
    }
    assert items == ItemSplits(lib, field, splits);
    ghost var u := Members(MakeItems(lib, field, Concat(splits)));
    SortableIff(lib, field, desc, Concat(splits));
    forall i | 0 <= i < |items| ensures Within(items[i], u) { SplitWithin(lib, field, splits, i); }
    var out;
    out, trace := MergeItems(desc, items, u);
    r := TakeRows(out);
    RowsInterleave(lib, field, splits, trace, out);
    InOrderIff(lib, field, desc, r);
  }

  /** What Merge promises can always be had. */
  lemma {:induction false} MergedRowsExist(lib: Library, field: string, desc: bool, splits: seq<seq<Row>>)
    returns (r: seq<Row>, trace: seq<nat>)
    ensures Interleaving(splits, trace, r)
    ensures SortableColumn(lib, field, Concat(splits)) &&
            (forall i :: 0 <= i < |splits| ==> Sorted(desc, MakeItems(lib, field, splits[i]))) ==>
              Sorted(desc, MakeItems(lib, field, r))
  {
    var items, u := ItemSplits(lib, field, splits), Members(MakeItems(lib, field, Concat(splits)));
    SortableIff(lib, field, desc, Concat(splits));
    forall i | 0 <= i < |items| ensures Within(items[i], u) { SplitWithin(lib, field, splits, i); }
    var out;
    trace, out := MergeExists(desc, items, u);
    r := RowsOf(out);
    RowsInterleave(lib, field, splits, trace, out);
  }

  lemma {:induction false} ConcatMember<T>(parts: seq<seq<T>>, i: nat, k: nat)
    requires i < |parts| && k < |parts[i]|
    ensures parts[i][k] in Concat(parts)
  {
    if i < |parts| - 1 { ConcatMember(parts[..|parts| - 1], i, k); }
  }

  lemma {:induction false} SplitWithin(lib: Library, field: string, splits: seq<seq<Row>>, i: nat)
    requires i < |splits|
    ensures Within(MakeItems(lib, field, splits[i]), Members(MakeItems(lib, field, Concat(splits))))
  {
    var all := MakeItems(lib, field, Concat(splits));
    forall k | 0 <= k < |splits[i]| ensures MakeItem(lib, field, splits[i][k]) in all {
      ConcatMember(splits, i, k);
      var j :| 0 <= j < |Concat(splits)| && Concat(splits)[j] == splits[i][k];
      assert all[j] == MakeItem(lib, field, splits[i][k]);
    }
  }

  lemma {:induction false} RowsInterleave(lib: Library, field: string, splits: seq<seq<Row>>, trace: seq<nat>,
                                          out: seq<SortItem>)
    requires Interleaving(ItemSplits(lib, field, splits), trace, out)
    ensures Interleaving(splits, trace, RowsOf(out))
    ensures MakeItems(lib, field, RowsOf(out)) == out
  {
    var items := ItemSplits(lib, field, splits);
    forall k | 0 <= k < |trace|
      ensures TakesAt(splits, trace, RowsOf(out), k)
      ensures out[k] == MakeItem(lib, field, splits[trace[k]][Count(trace[..k], trace[k])])
    {
      assert TakesAt(items, trace, out, k);
    }
  }

  // ---- The two execution paths ----

  /** The rows WHERE keeps. */
  function Matching(lib: Library, where_: Option<Expr>, rows: seq<Row>): Result<seq<Row>> {
    if rows == [] then Ok([]) else
    var front :- Matching(lib, where_, rows[..|rows| - 1]);
    var keep :- Keeps(lib, where_, rows[|rows| - 1]);
    Ok(if keep then front + [rows[|rows| - 1]] else front)
  }

  lemma {:induction false} MatchingMeans(lib: Library, where_: Option<Expr>, rows: seq<Row>)
    ensures Matching(lib, where_, rows).Ok? <==> AllJudged(lib, where_, rows)
    ensures Matching(lib, where_, rows).Ok? ==> Matching(lib, where_, rows).value == Passing(lib, where_, rows)
  {
    if rows != [] {
      var front := rows[..|rows| - 1];
      MatchingMeans(lib, where_, front);
      assert AllJudged(lib, where_, rows) <==>
             AllJudged(lib, where_, front) && Judged(lib, where_, rows[|rows| - 1]) by {
        if AllJudged(lib, where_, rows) { assert forall i :: 0 <= i < |front| ==> front[i] == rows[i]; }
        if AllJudged(lib, where_, front) { assert forall i :: 0 <= i < |front| ==> rows[i] == front[i]; }
      }
    }
  }

  lemma {:induction false} MatchingConcat(lib: Library, where_: Option<Expr>, a: seq<Row>, b: seq<Row>)
    ensures Matching(lib, where_, a + b).Ok? <==> Matching(lib, where_, a).Ok? && Matching(lib, where_, b).Ok?
    ensures Matching(lib, where_, a + b).Ok? ==>
              Matching(lib, where_, a + b).value == Matching(lib, where_, a).value + Matching(lib, where_, b).value
  {
    if b == [] {
      assert a + b == a;
    } else {
      assert (a + b)[..|a + b| - 1] == a + b[..|b| - 1];
      MatchingConcat(lib, where_, a, b[..|b| - 1]);
    }
  }

  lemma {:induction false} MatchingFails(lib: Library, where_: Option<Expr>, rows: seq<Row>, i: nat)
    requires i < |rows| && Keeps(lib, where_, rows[i]).Err?
    ensures Matching(lib, where_, rows).Err?
  {
    if i < |rows| - 1 { MatchingFails(lib, where_, rows[..|rows| - 1], i); }
  }

  method Filter(lib: Library, where_: Option<Expr>, rows: seq<Row>) returns (r: Result<seq<Row>>)
    ensures r.Ok? <==> Matching(lib, where_, rows).Ok?
    ensures r.Ok? ==> r == Matching(lib, where_, rows)
    ensures r.Ok? <==> AllJudged(lib, where_, rows)
    ensures r.Ok? ==> r.value == Passing(lib, where_, rows)
  {
    MatchingMeans(lib, where_, rows);
    var kept: seq<Row> := [];
    for i := 0 to |rows|
      invariant Matching(lib, where_, rows[..i]) == Ok(kept)
    {
      var keep := Keeps(lib, where_, rows[i]);
      if keep.Err? {
        MatchingFails(lib, where_, rows, i);
        return Err(keep.error);
      }
      assert rows[..i + 1][..i] == rows[..i];
      if keep.value { kept := kept + [rows[i]]; }
    }
    assert rows[..|rows|] == rows;
    r := Ok(kept);
  }

  /** A worker of the split path, apart from its counters: filter, then sort. */
  method FilterAndSort(lib: Library, field: string, desc: bool, where_: Option<Expr>, rows: seq<Row>)
    returns (r: Result<seq<Row>>)
    ensures r.Ok? <==> Matching(lib, where_, rows).Ok?
    ensures r.Ok? ==> AloneOrder(lib, field, desc, Matching(lib, where_, rows).value, r.value)
    ensures r.Ok? ==> AllJudged(lib, where_, rows) && Ordered(lib, field, desc, Passing(lib, where_, rows), r.value)
  {
    var kept := Filter(lib, where_, rows);
    if kept.Err? { return Err(kept.error); }
    var sorted := SortRows(lib, field, desc, kept.value);
    r := Ok(sorted);
  }

  const CLOCK_INTERVAL := 10000

  /** The path for a source that is not split. */
  method OrderAlone(lib: Library, field: string, desc: bool, where_: Option<Expr>, rows: seq<Row>, maxRows: nat,
                    clock: nat -> bool)
    returns (r: Result<seq<Row>>)
    ensures r.Ok? <==> |rows| <= maxRows && NeverLate(clock, |rows|) && AllJudged(lib, where_, rows)
    ensures r.Ok? ==> Matching(lib, where_, rows).Ok?
    ensures r.Ok? ==> AloneOrder(lib, field, desc, Matching(lib, where_, rows).value, r.value)
    ensures r.Ok? ==> AllJudged(lib, where_, rows) && Ordered(lib, field, desc, Passing(lib, where_, rows), r.value)
  {
    MatchingMeans(lib, where_, rows);
    var kept: seq<Row> := [];
    for i := 0 to |rows|
      invariant i <= maxRows && NeverLate(clock, i)
      invariant Matching(lib, where_, rows[..i]) == Ok(kept)
    {
      if i >= maxRows { return Err(SecurityError); }
      if (i + 1) % CLOCK_INTERVAL == 0 && clock(i + 1) { return Err(SecurityError); }
      var keep := Keeps(lib, where_, rows[i]);
      if keep.Err? {
        MatchingFails(lib, where_, rows, i);
        return Err(keep.error);
      }
      assert rows[..i + 1][..i] == rows[..i];
      if keep.value { kept := kept + [rows[i]]; }
    }
    assert rows[..|rows|] == rows;
    var sorted := SortRows(lib, field, desc, kept);
    r := Ok(sorted);
  }

  /** Any rows can be sorted as the worker promises. */
  lemma {:induction false} SortedRowsExist(lib: Library, field: string, desc: bool, rows: seq<Row>)
    returns (r: seq<Row>)
    ensures AloneOrder(lib, field, desc, rows, r)
  {
    r := SortedRows(lib, field, desc, rows);
    SortedRowsItems(lib, field, desc, rows);
    StableSortPermutes(desc, MakeItems(lib, field, rows));
  }

  /** The path for a split source: each worker filters and sorts its rows, then they are merged. */
  method OrderSplits(lib: Library, field: string, desc: bool, where_: Option<Expr>, splits: seq<seq<Row>>)
    returns (r: Result<seq<Row>>)
    ensures r.Ok? <==> Matching(lib, where_, Concat(splits)).Ok?
    ensures r.Ok? ==> SplitOrder(lib, field, desc, Matching(lib, where_, Concat(splits)).value, r.value)
    ensures r.Ok? <==> AllJudged(lib, where_, Concat(splits))
    ensures r.Ok? ==> Ordered(lib, field, desc, Passing(lib, where_, Concat(splits)), r.value)
  {
    MatchingMeans(lib, where_, Concat(splits));
    ghost var kept;
    var sorted;
    sorted, kept := SortSplits(lib, field, desc, where_, splits);
    if sorted.Err? { return Err(sorted.error); }
    var merged := MergeSorted(lib, field, desc, kept, sorted.value);
    r := Ok(merged);
  }

  /** The workers: each filters and sorts its own split. */
  method SortSplits(lib: Library, field: string, desc: bool, where_: Option<Expr>, splits: seq<seq<Row>>)
    returns (r: Result<seq<seq<Row>>>, ghost kept: seq<seq<Row>>)
    ensures r.Ok? <==> Matching(lib, where_, Concat(splits)).Ok?
    ensures r.Ok? ==> Matching(lib, where_, Concat(splits)) == Ok(Concat(kept))
    ensures r.Ok? ==> |kept| == |r.value| &&
                      forall k :: 0 <= k < |kept| ==> AloneOrder(lib, field, desc, kept[k], r.value[k])
  {
    var sorted: seq<seq<Row>> := [];
    kept := [];
    for i := 0 to |splits|
      invariant |sorted| == |kept| == i
      invariant Matching(lib, where_, Concat(splits[..i])) == Ok(Concat(kept))
      invariant forall k :: 0 <= k < i ==> AloneOrder(lib, field, desc, kept[k], sorted[k])
    {
      OneMoreSplit(lib, where_, splits, i, kept);
      var mine := FilterAndSort(lib, field, desc, where_, splits[i]);
      if mine.Err? { return Err(mine.error), kept; }
      sorted := sorted + [mine.value];
      kept := kept + [Matching(lib, where_, splits[i]).value];
    }
    assert splits[..|splits|] == splits;
    r := Ok(sorted);
  }

  method MergeSorted(lib: Library, field: string, desc: bool, ghost kept: seq<seq<Row>>, sorted: seq<seq<Row>>)
    returns (r: seq<Row>)
    requires |kept| == |sorted| && forall k :: 0 <= k < |kept| ==> AloneOrder(lib, field, desc, kept[k], sorted[k])
    ensures SplitOrder(lib, field, desc, Concat(kept), r) && Ordered(lib, field, desc, Concat(kept), r)
  {
    ghost var trace;
    r, trace := Merge(lib, field, desc, sorted);
    MergedOrder(lib, field, desc, kept, sorted, trace, r);
    SplitInOrder(lib, field, desc, Concat(kept), r);
  }

  /** What the next split adds, or that its failure is a failure of the whole. */
  lemma {:induction false} OneMoreSplit(lib: Library, where_: Option<Expr>, splits: seq<seq<Row>>, i: nat,
                                        kept: seq<seq<Row>>)
    requires i < |splits| && Matching(lib, where_, Concat(splits[..i])) == Ok(Concat(kept))
    ensures Matching(lib, where_, splits[i]).Err? ==> Matching(lib, where_, Concat(splits)).Err?
    ensures Matching(lib, where_, splits[i]).Ok? ==>
              Matching(lib, where_, Concat(splits[..i + 1])) ==
              Ok(Concat(kept + [Matching(lib, where_, splits[i]).value]))
  {
    assert splits[..i + 1] == splits[..i] + [splits[i]];
    ConcatLast(splits[..i], splits[i]);
    MatchingConcat(lib, where_, Concat(splits[..i]), splits[i]);
    if Matching(lib, where_, splits[i]).Ok? {
      ConcatLast(kept, Matching(lib, where_, splits[i]).value);
    } else {
      FailsInAll(lib, where_, splits, i + 1);
    }
  }

  lemma {:induction false} FailsInAll(lib: Library, where_: Option<Expr>, splits: seq<seq<Row>>, i: nat)
    requires i <= |splits| && Matching(lib, where_, Concat(splits[..i])).Err?
    ensures Matching(lib, where_, Concat(splits)).Err?
  {
    if i == |splits| {
      assert splits[..i] == splits;
    } else {
      var m := |splits| - 1;
      assert splits[..m][..i] == splits[..i];
      FailsInAll(lib, where_, splits[..m], i);
      assert Concat(splits) == Concat(splits[..m]) + splits[m];
      MatchingConcat(lib, where_, Concat(splits[..m]), splits[m]);
    }
  }

  /** What the split path delivers: the same rows, in order if the column allows it. */
  ghost predicate SplitOrder(lib: Library, field: string, desc: bool, rows: seq<Row>, r: seq<Row>) {
    && multiset(MakeItems(lib, field, r)) == multiset(MakeItems(lib, field, rows))
    && (SortableColumn(lib, field, rows) ==> Sorted(desc, MakeItems(lib, field, r)))
  }

  lemma {:induction false} SplitInOrder(lib: Library, field: string, desc: bool, rows: seq<Row>, r: seq<Row>)
    requires SplitOrder(lib, field, desc, rows, r)
    ensures Ordered(lib, field, desc, rows, r)
  {
    SameRows(lib, field, r, rows);
    if AllNumbers(lib, field, rows) || NoNumbers(lib, field, rows) { PlainIsSortable(lib, field, rows); }
    InOrderIff(lib, field, desc, r);
  }

  lemma {:induction false} BagOfSplits(lib: Library, field: string, kept: seq<seq<Row>>, sorted: seq<seq<Row>>)
    requires |kept| == |sorted|
    requires forall k :: 0 <= k < |kept| ==>
               multiset(MakeItems(lib, field, sorted[k])) == multiset(MakeItems(lib, field, kept[k]))
    ensures Bag(ItemSplits(lib, field, sorted)) == multiset(MakeItems(lib, field, Concat(kept)))
  {
    if kept != [] {
      var m := |kept| - 1;
      BagOfSplits(lib, field, kept[..m], sorted[..m]);
      assert ItemSplits(lib, field, sorted)[..m] == ItemSplits(lib, field, sorted[..m]);
      assert MakeItems(lib, field, Concat(kept)) ==
             MakeItems(lib, field, Concat(kept[..m])) + MakeItems(lib, field, kept[m]);
    }
  }

  lemma {:induction false} MergedOrder(lib: Library, field: string, desc: bool, kept: seq<seq<Row>>,
                                       sorted: seq<seq<Row>>, trace: seq<nat>, r: seq<Row>)
    requires |kept| == |sorted| && Interleaving(sorted, trace, r)
    requires forall k :: 0 <= k < |kept| ==> AloneOrder(lib, field, desc, kept[k], sorted[k])
    requires SortableColumn(lib, field, Concat(sorted)) &&
             (forall i :: 0 <= i < |sorted| ==> Sorted(desc, MakeItems(lib, field, sorted[i]))) ==>
               Sorted(desc, MakeItems(lib, field, r))
    ensures SplitOrder(lib, field, desc, Concat(kept), r)
  {
    ItemsInterleave(lib, field, sorted, trace, r);
    InterleavingPermutes(ItemSplits(lib, field, sorted), trace, MakeItems(lib, field, r));
    BagOfSplits(lib, field, kept, sorted);
    if SortableColumn(lib, field, Concat(kept)) {
      BagOfSplits(lib, field, sorted, sorted);
      SameMembers(MakeItems(lib, field, Concat(kept)), MakeItems(lib, field, Concat(sorted)));
      forall k | 0 <= k < |kept| ensures Sorted(desc, MakeItems(lib, field, sorted[k])) {
        SplitWithin(lib, field, kept, k);
        SortableIff(lib, field, desc, kept[k]);
        assert SortableColumn(lib, field, kept[k]);
        SortedRowsItems(lib, field, desc, kept[k]);
        StableSortIsStable(desc, MakeItems(lib, field, kept[k]));
      }
    }
  }

  lemma {:induction false} SameMembers(a: seq<SortItem>, b: seq<SortItem>)
    requires multiset(a) == multiset(b)
    ensures Members(a) == Members(b)
  {
    MembersOf(a, b);
  }

  lemma ItemsInterleave(lib: Library, field: string, splits: seq<seq<Row>>, trace: seq<nat>, r: seq<Row>)
    requires Interleaving(splits, trace, r)
    ensures Interleaving(ItemSplits(lib, field, splits), trace, MakeItems(lib, field, r))
  {
    forall k | 0 <= k < |trace|
      ensures TakesAt(ItemSplits(lib, field, splits), trace, MakeItems(lib, field, r), k)
    {
      assert TakesAt(splits, trace, r, k);
    }
  }

  /** Parallel and sequential ORDER BY agree: the same rows, with keys that compare equal at every
      index, so they can differ only among ties. */
  lemma {:induction false} PathsAgree(lib: Library, field: string, desc: bool, rows: seq<Row>, parallel: seq<Row>,
                                      alone: seq<Row>)
    requires SplitOrder(lib, field, desc, rows, parallel) && AloneOrder(lib, field, desc, rows, alone)
    requires SortableColumn(lib, field, rows)
    ensures |parallel| == |alone| == |rows|
    ensures forall k :: 0 <= k < |rows| ==>
              Equivalent(desc, MakeItem(lib, field, parallel[k]), MakeItem(lib, field, alone[k]))
    ensures multiset(MakeItems(lib, field, parallel)) == multiset(MakeItems(lib, field, alone))
    ensures forall y :: y in MakeItems(lib, field, rows) ==>
              Ties(desc, MakeItems(lib, field, alone), y) == Ties(desc, MakeItems(lib, field, rows), y)
  {
    var p, a, all := MakeItems(lib, field, parallel), MakeItems(lib, field, alone), MakeItems(lib, field, rows);
    SortedRowsItems(lib, field, desc, rows);
    SortableIff(lib, field, desc, rows);
    StableSortIsStable(desc, all);
    MembersOf(p, all);
    SameMembers(p, all);
    SortedAgree(desc, p, a);
  }
}
