/** GROUP BY: each worker folds its rows into private buckets, and the buckets of all workers
    are then merged in worker order. */
module GroupBy {
  import opened Wrappers
  import opened Rows
  import opened Ast
  import opened Evaluator

  const FLUSH := 10000

  /** aggs are the aggregate calls of the SELECT list. */
  datatype Query = Query(where_: Option<Expr>, groupField: Option<string>, aggs: seq<Expr>)

  /** One aggregate of one group. The source keeps four maps keyed by the aggregate's address;
      an absent entry is the default value written here. */
  datatype Cell = Cell(sum: real, min: real, max: real, has: bool)

  const NoValue := Cell(0.0, 0.0, 0.0, false)

  datatype AggState = AggState(count: nat, first: Row, cells: seq<Cell>)

  datatype Buckets = Buckets(states: map<string, AggState>, order: seq<string>)

  const NoBuckets := Buckets(map[], [])

  /** What an included row contributes: its group, itself, and a number per aggregate if any. */
  datatype Item = Item(key: string, row: Row, vals: seq<Option<real>>)

  // ---- One row ----

  function AggValues(lib: Library, aggs: seq<Expr>, row: Row): (res: Result<seq<Option<real>>>)
    ensures res.Ok? ==> |res.value| == |aggs|
  {
    if aggs == [] then Ok([]) else
    var v :- AggValue(lib, aggs[0], row);
    var rest :- AggValues(lib, aggs[1..], row);
    Ok([v] + rest)
  }

  function AggValue(lib: Library, agg: Expr, row: Row): Result<Option<real>> {
    if agg.token.value == "count" then Ok(None)
    else if !agg.Call? || agg.args == [] then Err(RuntimeError)
    else
      var text :- EvaluateExpression(lib, agg.args[0], row);
      Ok(TryParseDouble(lib, text))
  }

  function KeyOf(q: Query, row: Row): string {
    if q.groupField.Some? then TextOf(row, q.groupField.value) else ""
  }

  /** None for a row that WHERE rejects. */
  function Contribution(lib: Library, q: Query, row: Row): (res: Result<Option<Item>>)
    ensures res.Ok? && res.value.Some? ==> |res.value.value.vals| == |q.aggs|
  {
    var included :- Keeps(lib, q.where_, row);
    if !included then Ok(None) else
    var vals :- AggValues(lib, q.aggs, row);
    Ok(Some(Item(KeyOf(q, row), row, vals)))
  }

  /** The included rows of a row sequence, in order. */
  function Items(lib: Library, q: Query, rows: seq<Row>): (res: Result<seq<Item>>)
    ensures res.Ok? ==> forall k :: 0 <= k < |res.value| ==> |res.value[k].vals| == |q.aggs|
  {
    if rows == [] then Ok([]) else
    var items :- Items(lib, q, rows[..|rows| - 1]);
    var c :- Contribution(lib, q, rows[|rows| - 1]);
    Ok(if c.Some? then items + [c.value] else items)
  }

  // ---- The incremental fold ----

  function AddValue(c: Cell, val: Option<real>): Cell {
    if val.None? then c
    else if !c.has then Cell(c.sum + val.value, val.value, val.value, true)
    else Cell(c.sum + val.value,
              if val.value < c.min then val.value else c.min,
              if val.value > c.max then val.value else c.max, true)
  }

  function AddValues(cells: seq<Cell>, vals: seq<Option<real>>): (r: seq<Cell>)
    requires |cells| == |vals|
    ensures |r| == |cells| && forall a :: 0 <= a < |r| ==> r[a] == AddValue(cells[a], vals[a])
  {
    seq(|cells|, a requires 0 <= a < |cells| => AddValue(cells[a], vals[a]))
  }

  function FreshCells(n: nat): (r: seq<Cell>)
    ensures |r| == n && forall a :: 0 <= a < n ==> r[a] == NoValue
  {
    seq(n, _ => NoValue)
  }

  /** Every state has one cell per aggregate, and the order lists the keys once each. */
  ghost predicate WellFormed(b: Buckets, n: nat) {
    && (forall k :: k in b.states ==> |b.states[k].cells| == n)
    && (forall k :: k in b.states <==> k in b.order)
    && (forall i, j :: 0 <= i < j < |b.order| ==> b.order[i] != b.order[j])
  }

  class Worker {
    var states: map<string, AggState>
    var order: seq<string>
    var rowsRead: nat
    const q: Query

    ghost function View(): Buckets
      reads this
    {
      Buckets(states, order)
    }

    constructor (q: Query)
      ensures View() == NoBuckets && rowsRead == 0 && this.q == q
    {
      this.q := q;
      states, order, rowsRead := map[], [], 0;
    }

    /** Adds an included row to its bucket. */
    method Absorb(item: Item)
      requires WellFormed(View(), |q.aggs|) && |item.vals| == |q.aggs|
      modifies this`states, this`order
      ensures WellFormed(View(), |q.aggs|)
      ensures View() == AbsorbItem(old(View()), item)
    {
      if item.key !in states {
        order := order + [item.key];
        states := states[item.key := AggState(0, item.row, FreshCells(|q.aggs|))];
      }
      var state := states[item.key];
      var cells := state.cells;
      for a := 0 to |cells|
        invariant |cells| == |state.cells|
        invariant forall i :: 0 <= i < a ==> cells[i] == AddValue(state.cells[i], item.vals[i])
        invariant forall i :: a <= i < |cells| ==> cells[i] == state.cells[i]
      {
        if item.vals[a].Some? {
          var val := item.vals[a].value;
          var c := cells[a];
          c := c.(sum := c.sum + val);
          if !c.has {
            c := c.(min := val, max := val, has := true);
          } else {
            if val < c.min { c := c.(min := val); }
            if val > c.max { c := c.(max := val); }
          }
          cells := cells[a := c];
        }
      }
      assert cells == AddValues(state.cells, item.vals);
      states := states[item.key := AggState(state.count + 1, state.first, cells)];
    }

    /** One iteration of the worker loop, under the lock where it touches the shared counter. */
    method Process(lib: Library, row: Row, processed: nat, timedOut: bool, maxRows: nat)
      returns (res: Result<()>, newProcessed: nat)
      requires WellFormed(View(), |q.aggs|)
      modifies this
      ensures WellFormed(View(), |q.aggs|)
      ensures rowsRead == old(rowsRead) + 1
      ensures newProcessed == Counted(processed, rowsRead)
      ensures res.Err? <==>
              (rowsRead % 10000 == 0 && (timedOut || processed + 10000 >= maxRows)) || !Computable(lib, q, row)
      ensures res.Err? <==> Stopped(rowsRead, newProcessed, timedOut, maxRows) || Contribution(lib, q, row).Err?
      ensures res.Ok? ==> View() == Absorbed(old(View()), Contribution(lib, q, row).value)
    {
      ContributionMeans(lib, q, row);
      rowsRead := rowsRead + 1;
      newProcessed := processed;
      if rowsRead % FLUSH == 0 {
        newProcessed := processed + FLUSH;
        if timedOut || newProcessed >= maxRows { return Err(SecurityError), newProcessed; }
      }
      var c := Contribution(lib, q, row);
      if c.Err? { return Err(c.error), newProcessed; }
      if c.value.Some? { Absorb(c.value.value); }
      res := Ok(());
    }
  }

  /** The shared counter after a worker has read its k-th row. */
  function Counted(processed: nat, k: nat): nat {
    if k % FLUSH == 0 then processed + FLUSH else processed
  }

  /** The limits are looked at only when the counter is touched. */
  predicate Stopped(k: nat, processed: nat, timedOut: bool, maxRows: nat) {
    k % FLUSH == 0 && (timedOut || processed >= maxRows)
  }

  function AbsorbItem(b: Buckets, item: Item): Buckets
    requires item.key in b.states ==> |b.states[item.key].cells| == |item.vals|
  {
    var (order, state) :=
      if item.key in b.states then (b.order, b.states[item.key])
      else (b.order + [item.key], AggState(0, item.row, FreshCells(|item.vals|)));
    Buckets(b.states[item.key := AggState(state.count + 1, state.first, AddValues(state.cells, item.vals))], order)
  }

  function Absorbed(b: Buckets, c: Option<Item>): Buckets
    requires c.Some? && c.value.key in b.states ==> |b.states[c.value.key].cells| == |c.value.vals|
  {
    if c.Some? then AbsorbItem(b, c.value) else b
  }

  // ---- What the fold means: groups of the included rows ----

  /** The items of one group, in order. */
  function Group(items: seq<Item>, key: string): seq<Item> {
    if items == [] then []
    else Group(items[..|items| - 1], key) + if items[|items| - 1].key == key then [items[|items| - 1]] else []
  }

  /** The keys in order of first appearance. */
  function FirstKeys(items: seq<Item>): seq<string> {
    if items == [] then []
    else
      var keys := FirstKeys(items[..|items| - 1]);
      if items[|items| - 1].key in keys then keys else keys + [items[|items| - 1].key]
  }

  /** The numbers aggregate a finds in a group. */
  function Values(items: seq<Item>, a: nat): seq<real>
    requires forall i :: 0 <= i < |items| ==> a < |items[i].vals|
  {
    if items == [] then []
    else Values(items[..|items| - 1], a) +
         if items[|items| - 1].vals[a].Some? then [items[|items| - 1].vals[a].value] else []
  }

  function Sum(vs: seq<real>): real {
    if vs == [] then 0.0 else Sum(vs[..|vs| - 1]) + vs[|vs| - 1]
  }

  ghost predicate IsMin(vs: seq<real>, m: real) {
    m in vs && forall i :: 0 <= i < |vs| ==> m <= vs[i]
  }

  ghost predicate IsMax(vs: seq<real>, m: real) {
    m in vs && forall i :: 0 <= i < |vs| ==> vs[i] <= m
  }

  function MinOf(vs: seq<real>): (m: real)
    ensures vs != [] ==> IsMin(vs, m)
  {
    if vs == [] then 0.0
    else if |vs| == 1 then vs[0]
    else
      var m := MinOf(vs[..|vs| - 1]);
      if vs[|vs| - 1] < m then vs[|vs| - 1] else m
  }

  function MaxOf(vs: seq<real>): (m: real)
    ensures vs != [] ==> IsMax(vs, m)
  {
    if vs == [] then 0.0
    else if |vs| == 1 then vs[0]
    else
      var m := MaxOf(vs[..|vs| - 1]);
      if vs[|vs| - 1] > m then vs[|vs| - 1] else m
  }

  function Max0(x: real): real {
    if x > 0.0 then x else 0.0
  }

  /** The exact aggregate of some numbers. */
  function ExactCell(vs: seq<real>): Cell {
    Cell(Sum(vs), MinOf(vs), MaxOf(vs), vs != [])
  }

  /** What the merge delivers instead: its maximum is never below zero. */
  function MergedCell(vs: seq<real>): Cell {
    ExactCell(vs).(max := Max0(MaxOf(vs)))
  }

  ghost predicate Uniform(items: seq<Item>, n: nat) {
    forall i :: 0 <= i < |items| ==> |items[i].vals| == n
  }

  function First(items: seq<Item>): Row {
    if items == [] then [] else items[0].row
  }

  lemma {:induction false} GroupUniform(items: seq<Item>, key: string, n: nat)
    requires Uniform(items, n)
    ensures Uniform(Group(items, key), n)
    ensures Group(items, key) != [] <==> key in FirstKeys(items)
  {
    if items != [] { GroupUniform(items[..|items| - 1], key, n); }
  }

  /** Cells of a group, exact or as merged. */
  function GroupCells(group: seq<Item>, n: nat, merged: bool): (r: seq<Cell>)
    requires Uniform(group, n)
    ensures |r| == n
    ensures forall a :: 0 <= a < n ==>
              r[a] == if merged then MergedCell(Values(group, a)) else ExactCell(Values(group, a))
  {
    seq(n, a requires 0 <= a < n => if merged then MergedCell(Values(group, a)) else ExactCell(Values(group, a)))
  }

  function GroupState(group: seq<Item>, n: nat, merged: bool): AggState
    requires Uniform(group, n)
  {
    AggState(|group|, First(group), GroupCells(group, n, merged))
  }

  /** The buckets hold exactly the groups of the items, in order of first appearance. */
  ghost predicate Holds(b: Buckets, items: seq<Item>, n: nat, merged: bool)
    requires Uniform(items, n)
  {
    && b.order == FirstKeys(items)
    && (forall k :: k in b.states <==> k in b.order)
    && (forall k :: k in b.states ==>
         (GroupUniform(items, k, n); b.states[k] == GroupState(Group(items, k), n, merged)))
  }

  lemma {:induction false} HoldsUnique(b: Buckets, c: Buckets, items: seq<Item>, n: nat, merged: bool)
    requires Uniform(items, n) && Holds(b, items, n, merged) && Holds(c, items, n, merged)
    ensures b == c
  {
    assert b.states.Keys == c.states.Keys;
  }

  lemma {:induction false} FirstKeysDistinct(items: seq<Item>)
    ensures forall i, j :: 0 <= i < j < |FirstKeys(items)| ==> FirstKeys(items)[i] != FirstKeys(items)[j]
  {
    if items != [] { FirstKeysDistinct(items[..|items| - 1]); }
  }

  lemma {:induction false} HoldsWellFormed(b: Buckets, items: seq<Item>, n: nat, merged: bool)
    requires Uniform(items, n) && Holds(b, items, n, merged)
    ensures WellFormed(b, n)
  {
    FirstKeysDistinct(items);
    forall k | k in b.states ensures |b.states[k].cells| == n { GroupUniform(items, k, n); }
  }

  /** The incremental update of a cell is the exact aggregate of one more number. */
  lemma {:induction false} AddValueExact(vs: seq<real>, x: real)
    ensures AddValue(ExactCell(vs), Some(x)) == ExactCell(vs + [x])
  {
    assert (vs + [x])[..|vs|] == vs;
  }

  /** One more item: the buckets still hold the groups. */
  lemma {:induction false} AbsorbHolds(b: Buckets, items: seq<Item>, item: Item, n: nat)
    requires Uniform(items, n) && |item.vals| == n && Holds(b, items, n, false)
    ensures Uniform(items + [item], n)
    ensures item.key in b.states ==> |b.states[item.key].cells| == n
    ensures Holds(AbsorbItem(b, item), items + [item], n, false)
  {
    var more, r := items + [item], AbsorbItem(b, item);
    assert more[..|items|] == items;
    GroupUniform(items, item.key, n);
    forall k | k in r.states
      ensures (GroupUniform(more, k, n); r.states[k] == GroupState(Group(more, k), n, false))
    {
      GroupUniform(more, k, n);
      GroupUniform(items, k, n);
      if k == item.key {
        var group := Group(items, k);
        StateGrows(group, item, n);
        assert Group(more, k) == group + [item];
        assert First(group + [item]) == if group == [] then item.row else First(group);
      } else {
        assert Group(more, k) == Group(items, k);
        assert k in b.states;
      }
    }
  }

  lemma {:induction false} StateGrows(group: seq<Item>, item: Item, n: nat)
    requires Uniform(group, n) && |item.vals| == n
    ensures Uniform(group + [item], n)
    ensures AddValues(GroupCells(group, n, false), item.vals) == GroupCells(group + [item], n, false)
    ensures group == [] ==> GroupCells(group, n, false) == FreshCells(n)
  {
    var more := group + [item];
    assert more[..|group|] == group;
    forall a | 0 <= a < n
      ensures AddValue(ExactCell(Values(group, a)), item.vals[a]) == ExactCell(Values(more, a))
    {
      if item.vals[a].Some? { AddValueExact(Values(group, a), item.vals[a].value); }
      else { assert Values(more, a) == Values(group, a); }
    }
  }

  // ---- The groups in terms of the rows ----

  /** The text that names a row's group: that of the grouping column, "" where it is missing, and
      "" for every row without GROUP BY. */
  predicate HasKey(q: Query, row: Row, k: string) {
    match q.groupField
    case Some(f) => Find(row, f) == Some(k) || (Find(row, f).None? && k == "")
    case None => k == ""
  }

  /** WHERE is true of the row, and it belongs to group k. */
  predicate Belongs(lib: Library, q: Query, row: Row, k: string) {
    Passes(lib, q.where_, row) && HasKey(q, row, k)
  }

  /** The rows of group k, in order. */
  function GroupRows(lib: Library, q: Query, rows: seq<Row>, k: string): seq<Row> {
    if rows == [] then []
    else
      GroupRows(lib, q, rows[..|rows| - 1], k) +
      if Belongs(lib, q, rows[|rows| - 1], k) then [rows[|rows| - 1]] else []
  }

  /** The place of the first row of group k, or the number of rows if there is none. */
  function FirstRow(lib: Library, q: Query, rows: seq<Row>, k: string): (n: nat)
    ensures n <= |rows|
  {
    if rows == [] then 0
    else
      var n := FirstRow(lib, q, rows[..|rows| - 1], k);
      if n < |rows| - 1 || Belongs(lib, q, rows[|rows| - 1], k) then n else |rows|
  }

  /** The number an aggregate other than count finds in a row, if its argument is one. */
  function NumberIn(lib: Library, agg: Expr, row: Row): Option<real> {
    if agg.token.value == "count" || !agg.Call? || agg.args == [] then None
    else
      match EvaluateExpression(lib, agg.args[0], row)
      case Ok(text) => TryParseDouble(lib, text)
      case Err(_) => None
  }

  function NumbersIn(lib: Library, agg: Expr, rows: seq<Row>): seq<real> {
    if rows == [] then []
    else
      var x := NumberIn(lib, agg, rows[|rows| - 1]);
      NumbersIn(lib, agg, rows[..|rows| - 1]) + if x.Some? then [x.value] else []
  }

  /** WHERE can be judged, and if it is true every aggregate has its argument. */
  ghost predicate Computable(lib: Library, q: Query, row: Row) {
    && Judged(lib, q.where_, row)
    && (Passes(lib, q.where_, row) ==> forall a :: 0 <= a < |q.aggs| ==> HasArgument(lib, q.aggs[a], row))
  }

  predicate HasArgument(lib: Library, agg: Expr, row: Row) {
    agg.token.value == "count" || (agg.Call? && agg.args != [] && EvaluateExpression(lib, agg.args[0], row).Ok?)
  }

  /** Sum, least and greatest of some numbers; the merge delivers zero instead of a negative
      greatest. */
  ghost predicate CellFor(c: Cell, vs: seq<real>, merged: bool) {
    && c.sum == Sum(vs) && c.has == (vs != [])
    && (vs == [] ==> c.min == 0.0 && c.max == 0.0)
    && (vs != [] ==> IsMin(vs, c.min))
    && (vs != [] ==> if merged && forall i :: 0 <= i < |vs| ==> vs[i] < 0.0 then c.max == 0.0 else IsMax(vs, c.max))
  }

  ghost predicate StateFor(lib: Library, q: Query, group: seq<Row>, s: AggState, merged: bool) {
    && group != [] && s.count == |group| && s.first == group[0] && |s.cells| == |q.aggs|
    && forall a :: 0 <= a < |q.aggs| ==> CellFor(s.cells[a], NumbersIn(lib, q.aggs[a], group), merged)
  }

  /** The answer to GROUP BY over some rows: there is a group for exactly the keys some row belongs
      to, in the order of their first rows, and each group has what its rows make of it. */
  ghost predicate Answers(lib: Library, q: Query, rows: seq<Row>, b: Buckets, merged: bool) {
    && (forall k :: k in b.states <==> exists i :: 0 <= i < |rows| && Belongs(lib, q, rows[i], k))
    && (forall k :: k in b.states <==> k in b.order)
    && (forall i, j :: 0 <= i < j < |b.order| ==>
          FirstRow(lib, q, rows, b.order[i]) < FirstRow(lib, q, rows, b.order[j]))
    && (forall k :: k in b.states ==> StateFor(lib, q, GroupRows(lib, q, rows, k), b.states[k], merged))
  }

  lemma {:induction false} AggValuesMean(lib: Library, aggs: seq<Expr>, row: Row)
    ensures AggValues(lib, aggs, row).Ok? <==> forall a :: 0 <= a < |aggs| ==> HasArgument(lib, aggs[a], row)
    ensures AggValues(lib, aggs, row).Ok? ==>
              forall a :: 0 <= a < |aggs| ==> AggValues(lib, aggs, row).value[a] == NumberIn(lib, aggs[a], row)
    decreases |aggs|
  {
    if aggs != [] {
      AggValuesMean(lib, aggs[1..], row);
      assert forall a :: 0 < a < |aggs| ==> aggs[a] == aggs[1..][a - 1];
      assert forall a :: 0 <= a < |aggs| - 1 ==> aggs[1..][a] == aggs[a + 1];
    }
  }

  /** What one row contributes. */
  lemma {:induction false} ContributionMeans(lib: Library, q: Query, row: Row)
    ensures var c := Contribution(lib, q, row);
            && (c.Ok? <==> Computable(lib, q, row))
            && (c.Ok? ==> (c.value.Some? <==> Passes(lib, q.where_, row)))
            && (c.Ok? && c.value.Some? ==> Contributes(lib, q, row, c.value.value))
  {
    AggValuesMean(lib, q.aggs, row);
  }

  ghost predicate Contributes(lib: Library, q: Query, row: Row, item: Item) {
    && item.row == row && |item.vals| == |q.aggs|
    && (forall k :: HasKey(q, row, k) <==> k == item.key)
    && forall a :: 0 <= a < |q.aggs| ==> item.vals[a] == NumberIn(lib, q.aggs[a], row)
  }

  /** The last row adds its item, if it has one. */
  lemma {:induction false} ItemsNext(lib: Library, q: Query, rows: seq<Row>)
    returns (before: seq<Item>, c: Option<Item>)
    requires rows != [] && Items(lib, q, rows).Ok?
    ensures Items(lib, q, rows[..|rows| - 1]) == Ok(before) && Computable(lib, q, rows[|rows| - 1])
    ensures Items(lib, q, rows).value == if c.Some? then before + [c.value] else before
    ensures c.Some? <==> Passes(lib, q.where_, rows[|rows| - 1])
    ensures c.Some? ==> Contributes(lib, q, rows[|rows| - 1], c.value)
  {
    ContributionMeans(lib, q, rows[|rows| - 1]);
    before, c := Items(lib, q, rows[..|rows| - 1]).value, Contribution(lib, q, rows[|rows| - 1]).value;
  }

  function RowsIn(items: seq<Item>): (r: seq<Row>)
    ensures |r| == |items|
  {
    if items == [] then [] else RowsIn(items[..|items| - 1]) + [items[|items| - 1].row]
  }

  lemma {:induction false} RowsInNext(items: seq<Item>, x: Item)
    ensures RowsIn(items + [x]) == RowsIn(items) + [x.row]
  {
    assert (items + [x])[..|items|] == items;
  }

  lemma {:induction false} GroupNext(items: seq<Item>, x: Item, k: string)
    ensures Group(items + [x], k) == Group(items, k) + if x.key == k then [x] else []
  {
    assert (items + [x])[..|items|] == items;
  }

  lemma {:induction false} KeysNext(items: seq<Item>, x: Item)
    ensures FirstKeys(items + [x]) == FirstKeys(items) + if x.key in FirstKeys(items) then [] else [x.key]
  {
    assert (items + [x])[..|items|] == items;
  }

  lemma {:induction false} ValuesNext(items: seq<Item>, x: Item, a: nat)
    requires a < |x.vals| && forall i :: 0 <= i < |items| ==> a < |items[i].vals|
    ensures Values(items + [x], a) == Values(items, a) + if x.vals[a].Some? then [x.vals[a].value] else []
  {
    assert (items + [x])[..|items|] == items;
  }

  /** The rows of a group's items are the rows of the group. */
  lemma {:induction false} GroupMeans(lib: Library, q: Query, rows: seq<Row>, items: seq<Item>, k: string)
    requires Items(lib, q, rows) == Ok(items)
    ensures RowsIn(Group(items, k)) == GroupRows(lib, q, rows, k)
    decreases rows
  {
    if rows != [] {
      var before, c := ItemsNext(lib, q, rows);
      GroupMeans(lib, q, rows[..|rows| - 1], before, k);
      if c.Some? {
        GroupNext(before, c.value, k);
        if c.value.key == k {
          RowsInNext(Group(before, k), c.value);
        } else {
          assert Group(before, k) + [] == Group(before, k);
        }
      }
    }
  }

  /** What is found in them are the numbers in these rows. */
  lemma {:induction false} ValuesMean(lib: Library, q: Query, rows: seq<Row>, items: seq<Item>, k: string, a: nat)
    requires Items(lib, q, rows) == Ok(items) && a < |q.aggs| && Uniform(Group(items, k), |q.aggs|)
    ensures Values(Group(items, k), a) == NumbersIn(lib, q.aggs[a], GroupRows(lib, q, rows, k))
    decreases rows
  {
    if rows != [] {
      var front, last := rows[..|rows| - 1], rows[|rows| - 1];
      var before, c := ItemsNext(lib, q, rows);
      GroupUniform(before, k, |q.aggs|);
      ValuesMean(lib, q, front, before, k, a);
      assert GroupRows(lib, q, front, k) + [] == GroupRows(lib, q, front, k);
      if c.Some? {
        GroupNext(before, c.value, k);
        if c.value.key == k {
          ValuesNext(Group(before, k), c.value, a);
          NumbersNext(lib, q.aggs[a], GroupRows(lib, q, front, k), last);
        } else {
          assert Group(before, k) + [] == Group(before, k);
        }
      }
    }
  }

  lemma {:induction false} NumbersNext(lib: Library, agg: Expr, rows: seq<Row>, row: Row)
    ensures var x := NumberIn(lib, agg, row);
            NumbersIn(lib, agg, rows + [row]) == NumbersIn(lib, agg, rows) + if x.Some? then [x.value] else []
  {
    assert (rows + [row])[..|rows|] == rows;
  }

  lemma {:induction false} SomeBelongs(lib: Library, q: Query, rows: seq<Row>, k: string)
    ensures FirstRow(lib, q, rows, k) < |rows| <==> exists i :: 0 <= i < |rows| && Belongs(lib, q, rows[i], k)
  {
    if rows != [] {
      var front := rows[..|rows| - 1];
      SomeBelongs(lib, q, front, k);
      if i :| 0 <= i < |rows| && Belongs(lib, q, rows[i], k) {
        assert i < |front| ==> front[i] == rows[i];
      }
      if i :| 0 <= i < |front| && Belongs(lib, q, front[i], k) {
        assert rows[i] == front[i];
      }
    }
  }

  /** The keys of the items are those of the groups, in the order of their first rows. */
  lemma {:induction false} KeysMean(lib: Library, q: Query, rows: seq<Row>, items: seq<Item>)
    requires Items(lib, q, rows) == Ok(items)
    ensures forall k :: k in FirstKeys(items) <==> FirstRow(lib, q, rows, k) < |rows|
    ensures forall i, j :: 0 <= i < j < |FirstKeys(items)| ==>
              FirstRow(lib, q, rows, FirstKeys(items)[i]) < FirstRow(lib, q, rows, FirstKeys(items)[j])
    decreases rows
  {
    if rows != [] {
      var front, last := rows[..|rows| - 1], rows[|rows| - 1];
      var before, c := ItemsNext(lib, q, rows);
      KeysMean(lib, q, front, before);
      if c.Some? {
        KeysNext(before, c.value);
        forall k ensures Belongs(lib, q, last, k) <==> k == c.value.key {}
      }
    }
  }

  /** Holding the groups of the items is answering in terms of the rows. */
  lemma {:induction false} HoldsAnswers(lib: Library, q: Query, rows: seq<Row>, b: Buckets, merged: bool)
    requires Items(lib, q, rows).Ok? && Holds(b, Items(lib, q, rows).value, |q.aggs|, merged)
    ensures Answers(lib, q, rows, b, merged)
  {
    var items := Items(lib, q, rows).value;
    KeysMean(lib, q, rows, items);
    forall k ensures k in b.states <==> exists i :: 0 <= i < |rows| && Belongs(lib, q, rows[i], k) {
      SomeBelongs(lib, q, rows, k);
    }
    forall k | k in b.states ensures StateFor(lib, q, GroupRows(lib, q, rows, k), b.states[k], merged) {
      GroupUniform(items, k, |q.aggs|);
      GroupAnswers(lib, q, rows, items, k, b.states[k], merged);
    }
  }

  lemma {:induction false} GroupAnswers(lib: Library, q: Query, rows: seq<Row>, items: seq<Item>, k: string,
                                        s: AggState, merged: bool)
    requires Items(lib, q, rows) == Ok(items) && k in FirstKeys(items) && Uniform(Group(items, k), |q.aggs|)
    requires s == GroupState(Group(items, k), |q.aggs|, merged)
    ensures StateFor(lib, q, GroupRows(lib, q, rows, k), s, merged)
  {
    var group := Group(items, k);
    GroupUniform(items, k, |q.aggs|);
    GroupMeans(lib, q, rows, items, k);
    FirstOfRows(group);
    forall a | 0 <= a < |q.aggs|
      ensures CellFor(s.cells[a], NumbersIn(lib, q.aggs[a], GroupRows(lib, q, rows, k)), merged)
    {
      ValuesMean(lib, q, rows, items, k, a);
      CellAnswers(Values(group, a), merged);
    }
  }

  lemma {:induction false} FirstOfRows(items: seq<Item>)
    requires items != []
    ensures RowsIn(items)[0] == First(items)
  {
    if |items| > 1 { FirstOfRows(items[..|items| - 1]); }
  }

  lemma {:induction false} CellAnswers(vs: seq<real>, merged: bool)
    ensures CellFor(if merged then MergedCell(vs) else ExactCell(vs), vs, merged)
  {
    if vs != [] {
      var i :| 0 <= i < |vs| && vs[i] == MaxOf(vs);
    }
  }

  /** What a worker's buckets are after reading some rows. */
  ghost predicate FoldOf(lib: Library, q: Query, rows: seq<Row>, b: Buckets) {
    Items(lib, q, rows).Ok? && Holds(b, Items(lib, q, rows).value, |q.aggs|, false)
  }

  lemma FoldEmpty(lib: Library, q: Query)
    ensures FoldOf(lib, q, [], NoBuckets)
  {}

  lemma {:induction false} FoldNext(lib: Library, q: Query, rows: seq<Row>, row: Row, b: Buckets)
    requires FoldOf(lib, q, rows, b) && Contribution(lib, q, row).Ok?
    ensures var c := Contribution(lib, q, row).value;
            c.Some? && c.value.key in b.states ==> |b.states[c.value.key].cells| == |q.aggs|
    ensures FoldOf(lib, q, rows + [row], Absorbed(b, Contribution(lib, q, row).value))
    ensures Answers(lib, q, rows + [row], Absorbed(b, Contribution(lib, q, row).value), false)
  {
    assert (rows + [row])[..|rows|] == rows;
    var c := Contribution(lib, q, row).value;
    if c.Some? { AbsorbHolds(b, Items(lib, q, rows).value, c.value, |q.aggs|); }
    HoldsAnswers(lib, q, rows + [row], Absorbed(b, c), false);
  }
}
