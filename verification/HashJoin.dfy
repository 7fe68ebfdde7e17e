/** The hash join against the nested loop it stands for: look up by key text and then test the
    condition, or test the condition on every joined row. */
module HashJoin {
  import opened Wrappers
  import opened Rows
  import opened Ast
  import opened Evaluator
  import opened Streaming

  /** The same joins with every joined row tried. */
  function Nested(joins: seq<Join>): (r: seq<Join>)
    ensures |r| == |joins| && forall i :: 0 <= i < |r| ==> r[i] == joins[i].(hashed := false)
  {
    seq(|joins|, i requires 0 <= i < |joins| => joins[i].(hashed := false))
  }

  /** The index of every hashed join holds its rows. */
  ghost predicate Indexed(joins: seq<Join>) {
    forall i :: 0 <= i < |joins| && joins[i].hashed ==> IndexOf(joins[i].index, joins[i].rows, joins[i].secondary)
  }

  // ---- Sub-bags ----

  lemma {:induction false} RemoveOne(cands: seq<Row>, more: seq<Row>) returns (j: nat)
    requires cands != [] && multiset(cands) <= multiset(more)
    ensures j < |more| && more[j] == cands[0]
    ensures multiset(cands[1..]) <= multiset(more[..j] + more[j + 1..])
    ensures multiset(cands) == multiset(more) ==> multiset(cands[1..]) == multiset(more[..j] + more[j + 1..])
  {
    assert cands[0] in multiset(cands);
    assert cands[0] in multiset(more);
    j :| 0 <= j < |more| && more[j] == cands[0];
    assert cands == [cands[0]] + cands[1..];
    assert multiset(cands[1..]) == multiset(cands) - multiset{cands[0]};
    assert more == more[..j] + [more[j]] + more[j + 1..];
    assert multiset(more[..j] + more[j + 1..]) == multiset(more) - multiset{more[j]};
  }

  lemma {:induction false} KeyRowsWithin(rows: seq<Row>, name: string, key: string)
    ensures multiset(RowsWithKey(rows, name, key)) <= multiset(rows)
  {
    if rows != [] {
      KeyRowsWithin(rows[..|rows| - 1], name, key);
      assert rows == rows[..|rows| - 1] + [rows[|rows| - 1]];
    }
  }

  /** The rows found by lookup are among the joined rows. */
  lemma {:induction false} CandidatesWithin(j: Join, current: Row)
    requires j.hashed ==> IndexOf(j.index, j.rows, j.secondary)
    ensures multiset(Candidates(j, current)) <= multiset(j.rows)
  {
    if j.hashed {
      KeyRowsWithin(j.rows, j.secondary, TextOf(current, j.primary));
      assert multiset(Bucket(j.index, TextOf(current, j.primary))) ==
             multiset(RowsWithKey(j.rows, j.secondary, TextOf(current, j.primary)));
    }
  }

  /** Taking one candidate out of the loop. */
  lemma {:induction false} TryWithout(lib: Library, q: Query, joins: seq<Join>, idx: nat, cands: seq<Row>, j: nat,
                                      current: Row)
    requires idx < |joins| && j < |cands|
    ensures TryAll(lib, q, joins, idx, cands, current).Ok? <==>
            TryOne(lib, q, joins, idx, cands[j], current).Ok? &&
            TryAll(lib, q, joins, idx, cands[..j] + cands[j + 1..], current).Ok?
    ensures TryAll(lib, q, joins, idx, cands, current).Ok? ==>
            multiset(TryAll(lib, q, joins, idx, cands, current).value) ==
            multiset(TryOne(lib, q, joins, idx, cands[j], current).value) +
            multiset(TryAll(lib, q, joins, idx, cands[..j] + cands[j + 1..], current).value)
  {
    assert cands == cands[..j] + cands[j..] && cands[j..][1..] == cands[j + 1..];
    TryAllConcat(lib, q, joins, idx, cands[..j], cands[j..], current);
    TryAllConcat(lib, q, joins, idx, cands[..j], cands[j + 1..], current);
  }

  /** a delivers no row that b does not, and fails only if b does. */
  ghost predicate SubBag(a: Result<seq<Row>>, b: Result<seq<Row>>) {
    b.Ok? ==> a.Ok? && multiset(a.value) <= multiset(b.value)
  }

  ghost predicate SameBag(a: Result<seq<Row>>, b: Result<seq<Row>>) {
    a.Ok? && b.Ok? && multiset(a.value) == multiset(b.value)
  }

  // ---- The hash join never delivers a wrong row ----

  /** For any chain of joins, and any order of rows in the hash buckets. */
  lemma {:induction false} HashWithinNested(lib: Library, q: Query, joins: seq<Join>, idx: nat, current: Row)
    requires Indexed(joins) && idx <= |joins|
    ensures SubBag(JoinRows(lib, q, joins, idx, current), JoinRows(lib, q, Nested(joins), idx, current))
    decreases |joins| - idx, 1, 0
  {
    if idx < |joins| {
      CandidatesWithin(joins[idx], current);
      LoopWithinLoop(lib, q, joins, idx, Candidates(joins[idx], current), joins[idx].rows, current);
    }
  }

  lemma {:induction false} LoopWithinLoop(lib: Library, q: Query, joins: seq<Join>, idx: nat, cands: seq<Row>,
                                          more: seq<Row>, current: Row)
    requires Indexed(joins) && idx < |joins| && multiset(cands) <= multiset(more)
    ensures SubBag(TryAll(lib, q, joins, idx, cands, current), TryAll(lib, q, Nested(joins), idx, more, current))
    decreases |joins| - idx, 0, |cands|
  {
    if cands != [] {
      var j := RemoveOne(cands, more);
      TryWithout(lib, q, Nested(joins), idx, more, j, current);
      LoopWithinLoop(lib, q, joins, idx, cands[1..], more[..j] + more[j + 1..], current);
      OneWithinOne(lib, q, joins, idx, cands[0], current);
    }
  }

  lemma {:induction false} OneWithinOne(lib: Library, q: Query, joins: seq<Join>, idx: nat, cand: Row, current: Row)
    requires Indexed(joins) && idx < |joins|
    ensures SubBag(TryOne(lib, q, joins, idx, cand, current), TryOne(lib, q, Nested(joins), idx, cand, current))
    decreases |joins| - idx, 0, 0
  {
    HashWithinNested(lib, q, joins, idx + 1, Overlay(current, cand));
  }

  /** Over a whole stream of primary rows. */
  lemma {:induction false} HashStreamWithinNested(lib: Library, q: Query, joins: seq<Join>, rows: seq<Row>)
    requires Indexed(joins)
    ensures SubBag(Stream(lib, q, joins, rows), Stream(lib, q, Nested(joins), rows))
  {
    if rows != [] {
      HashStreamWithinNested(lib, q, joins, rows[..|rows| - 1]);
      HashWithinNested(lib, q, joins, 0, rows[|rows| - 1]);
    }
  }

  // ---- When it delivers all of them ----

  /** The joined rows at the given places, one for each join from idx on, meet the conditions in
      turn, and a row is delivered for them. */
  ghost predicate Delivered(lib: Library, q: Query, joins: seq<Join>, idx: nat, current: Row, path: seq<nat>)
    requires idx <= |joins|
    decreases |joins| - idx
  {
    if idx == |joins| then path == [] && Passes(lib, q.where_, current)
    else
      && path != [] && path[0] < |joins[idx].rows|
      && Accepts(lib, joins[idx], current, path[0])
      && Delivered(lib, q, joins, idx + 1, Overlay(current, joins[idx].rows[path[0]]), path[1..])
  }

  ghost predicate Delivers(lib: Library, q: Query, joins: seq<Join>, idx: nat, current: Row)
    requires idx <= |joins|
  {
    exists path :: Delivered(lib, q, joins, idx, current, path)
  }

  ghost predicate Accepts(lib: Library, j: Join, current: Row, k: nat)
    requires k < |j.rows|
  {
    EvaluateCondition(lib, j.cond, Overlay(current, j.rows[k])) == Ok(true)
  }

  /** The lookup with the current row's key text comes upon row k. */
  ghost predicate Finds(j: Join, current: Row, k: nat)
    requires k < |j.rows|
  {
    j.hashed ==> TextOf(j.rows[k], j.secondary) == TextOf(current, j.primary)
  }

  /** Every lookup on the way comes upon its row. */
  ghost predicate Found(joins: seq<Join>, idx: nat, current: Row, path: seq<nat>)
    requires idx <= |joins|
    decreases |joins| - idx
  {
    idx < |joins| && path != [] && path[0] < |joins[idx].rows| ==>
      && Finds(joins[idx], current, path[0])
      && Found(joins, idx + 1, Overlay(current, joins[idx].rows[path[0]]), path[1..])
  }

  /** Every combination of joined rows for which a row is delivered is found. */
  ghost predicate Complete(lib: Library, q: Query, joins: seq<Join>, idx: nat, current: Row)
    requires idx <= |joins|
  {
    forall path :: Delivered(lib, q, joins, idx, current, path) ==> Found(joins, idx, current, path)
  }

  /** The part of this that begins with row k of the next join. */
  ghost predicate CompleteFrom(lib: Library, q: Query, joins: seq<Join>, idx: nat, current: Row, k: nat)
    requires idx < |joins| && k < |joins[idx].rows|
  {
    Accepts(lib, joins[idx], current, k) ==>
      var next := Overlay(current, joins[idx].rows[k]);
      if Finds(joins[idx], current, k) then Complete(lib, q, joins, idx + 1, next)
      else !Delivers(lib, q, joins, idx + 1, next)
  }

  lemma {:induction false} CompleteByRow(lib: Library, q: Query, joins: seq<Join>, idx: nat, current: Row)
    requires idx < |joins|
    ensures Complete(lib, q, joins, idx, current) <==>
            forall k :: 0 <= k < |joins[idx].rows| ==> CompleteFrom(lib, q, joins, idx, current, k)
  {
    if Complete(lib, q, joins, idx, current) {
      forall k | 0 <= k < |joins[idx].rows| ensures CompleteFrom(lib, q, joins, idx, current, k) {
        var next, rest := Overlay(current, joins[idx].rows[k]), idx + 1;
        forall path | Accepts(lib, joins[idx], current, k) && Delivered(lib, q, joins, rest, next, path)
          ensures Finds(joins[idx], current, k) && Found(joins, rest, next, path)
        {
          assert ([k] + path)[1..] == path;
          assert Delivered(lib, q, joins, idx, current, [k] + path);
        }
      }
    }
    if forall k :: 0 <= k < |joins[idx].rows| ==> CompleteFrom(lib, q, joins, idx, current, k) {
      forall path | Delivered(lib, q, joins, idx, current, path) ensures Found(joins, idx, current, path) {
        assert CompleteFrom(lib, q, joins, idx, current, path[0]);
        assert Delivered(lib, q, joins, idx + 1, Overlay(current, joins[idx].rows[path[0]]), path[1..]);
      }
    }
  }

  /** The nested loop delivers something exactly when there is such a combination. */
  lemma {:induction false} NestedDelivers(lib: Library, q: Query, joins: seq<Join>, idx: nat, current: Row)
    requires idx <= |joins| && JoinRows(lib, q, Nested(joins), idx, current).Ok?
    ensures JoinRows(lib, q, Nested(joins), idx, current).value != [] <==>
            Delivers(lib, q, joins, idx, current)
    decreases |joins| - idx, 1
  {
    if idx < |joins| {
      var rows := joins[idx].rows;
      assert rows[..|rows|] == rows;
      FirstDeliver(lib, q, joins, idx, |rows|, current);
      if k :| 0 <= k < |rows| && DeliversFrom(lib, q, joins, idx, current, k) {
        var path :| Delivered(lib, q, joins, idx + 1, Overlay(current, rows[k]), path);
        assert ([k] + path)[1..] == path;
        assert Delivered(lib, q, joins, idx, current, [k] + path);
      }
      if path :| Delivered(lib, q, joins, idx, current, path) {
        assert Delivered(lib, q, joins, idx + 1, Overlay(current, rows[path[0]]), path[1..]);
        assert DeliversFrom(lib, q, joins, idx, current, path[0]);
      }
    } else {
      EmitMeans(lib, q, current);
      assert Delivered(lib, q, joins, idx, current, []) <==> Passes(lib, q.where_, current);
    }
  }

  ghost predicate DeliversFrom(lib: Library, q: Query, joins: seq<Join>, idx: nat, current: Row, k: nat)
    requires idx < |joins| && k < |joins[idx].rows|
  {
    Accepts(lib, joins[idx], current, k) && Delivers(lib, q, joins, idx + 1, Overlay(current, joins[idx].rows[k]))
  }

  lemma {:induction false} FirstDeliver(lib: Library, q: Query, joins: seq<Join>, idx: nat, m: nat, current: Row)
    requires idx < |joins| && m <= |joins[idx].rows|
    requires TryAll(lib, q, Nested(joins), idx, joins[idx].rows[..m], current).Ok?
    ensures TryAll(lib, q, Nested(joins), idx, joins[idx].rows[..m], current).value != [] <==>
            exists k :: 0 <= k < m && DeliversFrom(lib, q, joins, idx, current, k)
    decreases |joins| - idx, 0, m
  {
    if m > 0 {
      OneMoreRow(lib, q, Nested(joins), idx, joins[idx].rows, m - 1, current);
      FirstDeliver(lib, q, joins, idx, m - 1, current);
      var next := Overlay(current, joins[idx].rows[m - 1]);
      if Accepts(lib, joins[idx], current, m - 1) { NestedDelivers(lib, q, joins, idx + 1, next); }
      assert (exists k :: 0 <= k < m && DeliversFrom(lib, q, joins, idx, current, k)) <==>
             (exists k :: 0 <= k < m - 1 && DeliversFrom(lib, q, joins, idx, current, k)) ||
             DeliversFrom(lib, q, joins, idx, current, m - 1);
    }
  }

  lemma {:induction false} OneMoreRow(lib: Library, q: Query, joins: seq<Join>, idx: nat, rows: seq<Row>, m: nat,
                                      current: Row)
    requires idx < |joins| && m < |rows| && TryAll(lib, q, joins, idx, rows[..m + 1], current).Ok?
    ensures TryAll(lib, q, joins, idx, rows[..m], current).Ok? && TryOne(lib, q, joins, idx, rows[m], current).Ok?
    ensures TryAll(lib, q, joins, idx, rows[..m + 1], current).value ==
            TryAll(lib, q, joins, idx, rows[..m], current).value + TryOne(lib, q, joins, idx, rows[m], current).value
  {
    assert rows[..m + 1] == rows[..m] + [rows[m]];
    TryAllConcat(lib, q, joins, idx, rows[..m], [rows[m]], current);
    TryAllOfOne(lib, q, joins, idx, rows[m], current);
  }

  // ---- Counting ----

  /** Delivering a sub-bag of the same size is delivering the same bag. */
  lemma {:induction false} SameSize(a: Result<seq<Row>>, b: Result<seq<Row>>)
    requires b.Ok? && SubBag(a, b)
    ensures |a.value| <= |b.value| && (SameBag(a, b) <==> |a.value| == |b.value|)
  {
    var x, y := multiset(a.value), multiset(b.value);
    assert |x| == |a.value| && |y| == |b.value| && y == x + (y - x);
    if |x| == |y| { assert y - x == multiset{}; }
  }

  lemma {:induction false} SizeOfBag(lib: Library, q: Query, joins: seq<Join>, idx: nat, a: seq<Row>, b: seq<Row>,
                                     current: Row)
    requires idx < |joins| && multiset(a) == multiset(b) && TryAll(lib, q, joins, idx, a, current).Ok?
    ensures TryAll(lib, q, joins, idx, b, current).Ok?
    ensures |TryAll(lib, q, joins, idx, a, current).value| == |TryAll(lib, q, joins, idx, b, current).value|
  {
    assert |multiset(a)| == |a| && |multiset(b)| == |b|;
    if a != [] {
      var k := RemoveOne(a, b);
      TryWithout(lib, q, joins, idx, b, k, current);
      SizeOfBag(lib, q, joins, idx, a[1..], b[..k] + b[k + 1..], current);
      var one := TryOne(lib, q, joins, idx, a[0], current).value;
      var rest := TryAll(lib, q, joins, idx, b[..k] + b[k + 1..], current).value;
      assert |multiset(TryAll(lib, q, joins, idx, b, current).value)| == |one| + |rest|;
    }
  }

  /** Of the first m joined rows, those the lookup comes upon. */
  function Lookup(j: Join, m: nat, current: Row): seq<Row>
    requires m <= |j.rows|
  {
    if j.hashed then RowsWithKey(j.rows[..m], j.secondary, TextOf(current, j.primary)) else j.rows[..m]
  }

  lemma {:induction false} LookupNext(j: Join, m: nat, current: Row)
    requires m < |j.rows|
    ensures Lookup(j, m + 1, current) == Lookup(j, m, current) + if Finds(j, current, m) then [j.rows[m]] else []
  {
    assert j.rows[..m + 1][..m] == j.rows[..m];
  }

  lemma {:induction false} LookupWithin(j: Join, m: nat, current: Row)
    requires m <= |j.rows|
    ensures multiset(Lookup(j, m, current)) <= multiset(j.rows[..m])
  {
    if j.hashed { KeyRowsWithin(j.rows[..m], j.secondary, TextOf(current, j.primary)); }
  }

  lemma {:induction false} JoinCount(lib: Library, q: Query, joins: seq<Join>, idx: nat, current: Row)
    requires Indexed(joins) && idx <= |joins| && JoinRows(lib, q, Nested(joins), idx, current).Ok?
    ensures JoinRows(lib, q, joins, idx, current).Ok?
    ensures |JoinRows(lib, q, joins, idx, current).value| == |JoinRows(lib, q, Nested(joins), idx, current).value|
            <==> Complete(lib, q, joins, idx, current)
    decreases |joins| - idx, 1
  {
    HashWithinNested(lib, q, joins, idx, current);
    if idx < |joins| {
      var j := joins[idx];
      assert j.rows[..|j.rows|] == j.rows;
      FirstCount(lib, q, joins, idx, |j.rows|, current);
      assert multiset(Candidates(j, current)) == multiset(Lookup(j, |j.rows|, current));
      SizeOfBag(lib, q, joins, idx, Candidates(j, current), Lookup(j, |j.rows|, current), current);
      CompleteByRow(lib, q, joins, idx, current);
    }
  }

  lemma {:induction false} FirstCount(lib: Library, q: Query, joins: seq<Join>, idx: nat, m: nat, current: Row)
    requires Indexed(joins) && idx < |joins| && m <= |joins[idx].rows|
    requires TryAll(lib, q, Nested(joins), idx, joins[idx].rows[..m], current).Ok?
    ensures TryAll(lib, q, joins, idx, Lookup(joins[idx], m, current), current).Ok?
    ensures |TryAll(lib, q, joins, idx, Lookup(joins[idx], m, current), current).value| <=
            |TryAll(lib, q, Nested(joins), idx, joins[idx].rows[..m], current).value|
    ensures |TryAll(lib, q, joins, idx, Lookup(joins[idx], m, current), current).value| ==
            |TryAll(lib, q, Nested(joins), idx, joins[idx].rows[..m], current).value|
            <==> forall k :: 0 <= k < m ==> CompleteFrom(lib, q, joins, idx, current, k)
    decreases |joins| - idx, 0, m
  {
    var j := joins[idx];
    LookupWithin(j, m, current);
    LoopWithinLoop(lib, q, joins, idx, Lookup(j, m, current), j.rows[..m], current);
    if m > 0 {
      CountNext(lib, q, joins, idx, m - 1, current);
      FirstCount(lib, q, joins, idx, m - 1, current);
      OneCount(lib, q, joins, idx, m - 1, current);
      assert (forall k :: 0 <= k < m ==> CompleteFrom(lib, q, joins, idx, current, k)) <==>
             (forall k :: 0 <= k < m - 1 ==> CompleteFrom(lib, q, joins, idx, current, k)) &&
             CompleteFrom(lib, q, joins, idx, current, m - 1);
    }
  }

  /** One more joined row, in both loops. */
  lemma {:induction false} CountNext(lib: Library, q: Query, joins: seq<Join>, idx: nat, m: nat, current: Row)
    requires idx < |joins| && m < |joins[idx].rows|
    requires TryAll(lib, q, joins, idx, Lookup(joins[idx], m + 1, current), current).Ok?
    requires TryAll(lib, q, Nested(joins), idx, joins[idx].rows[..m + 1], current).Ok?
    ensures var j := joins[idx];
      && TryAll(lib, q, joins, idx, Lookup(j, m, current), current).Ok?
      && (Finds(j, current, m) ==> TryOne(lib, q, joins, idx, j.rows[m], current).Ok?)
      && |TryAll(lib, q, joins, idx, Lookup(j, m + 1, current), current).value| ==
         |TryAll(lib, q, joins, idx, Lookup(j, m, current), current).value| +
         (if Finds(j, current, m) then |TryOne(lib, q, joins, idx, j.rows[m], current).value| else 0)
      && TryAll(lib, q, Nested(joins), idx, j.rows[..m], current).Ok?
      && TryOne(lib, q, Nested(joins), idx, j.rows[m], current).Ok?
      && |TryAll(lib, q, Nested(joins), idx, j.rows[..m + 1], current).value| ==
         |TryAll(lib, q, Nested(joins), idx, j.rows[..m], current).value| +
         |TryOne(lib, q, Nested(joins), idx, j.rows[m], current).value|
  {
    var j := joins[idx];
    OneMoreRow(lib, q, Nested(joins), idx, j.rows, m, current);
    LookupNext(j, m, current);
    if Finds(j, current, m) {
      TryAllConcat(lib, q, joins, idx, Lookup(j, m, current), [j.rows[m]], current);
      TryAllOfOne(lib, q, joins, idx, j.rows[m], current);
    } else {
      assert Lookup(j, m + 1, current) == Lookup(j, m, current);
    }
  }

  /** What row k contributes to either count. */
  lemma {:induction false} OneCount(lib: Library, q: Query, joins: seq<Join>, idx: nat, k: nat, current: Row)
    requires Indexed(joins) && idx < |joins| && k < |joins[idx].rows|
    requires TryOne(lib, q, Nested(joins), idx, joins[idx].rows[k], current).Ok?
    ensures TryOne(lib, q, joins, idx, joins[idx].rows[k], current).Ok?
    ensures var h, n := |TryOne(lib, q, joins, idx, joins[idx].rows[k], current).value|,
                        |TryOne(lib, q, Nested(joins), idx, joins[idx].rows[k], current).value|;
            h <= n && ((if Finds(joins[idx], current, k) then h else 0) == n <==>
                       CompleteFrom(lib, q, joins, idx, current, k))
    decreases |joins| - idx, 0, 0
  {
    var next := Overlay(current, joins[idx].rows[k]);
    if Accepts(lib, joins[idx], current, k) {
      HashWithinNested(lib, q, joins, idx + 1, next);
      SameSize(JoinRows(lib, q, joins, idx + 1, next), JoinRows(lib, q, Nested(joins), idx + 1, next));
      JoinCount(lib, q, joins, idx + 1, next);
      NestedDelivers(lib, q, joins, idx + 1, next);
    }
  }

  // ---- The results ----

  /** For any query and any chain of joins: the hash join delivers exactly what the nested loop
      delivers if and only if every combination for which a row is delivered is found. */
  lemma {:induction false} HashEqualsNested(lib: Library, q: Query, joins: seq<Join>, idx: nat, current: Row)
    requires Indexed(joins) && idx <= |joins| && JoinRows(lib, q, Nested(joins), idx, current).Ok?
    ensures SameBag(JoinRows(lib, q, joins, idx, current), JoinRows(lib, q, Nested(joins), idx, current))
            <==> Complete(lib, q, joins, idx, current)
  {
    HashWithinNested(lib, q, joins, idx, current);
    SameSize(JoinRows(lib, q, joins, idx, current), JoinRows(lib, q, Nested(joins), idx, current));
    JoinCount(lib, q, joins, idx, current);
  }

  lemma {:induction false} StreamCount(lib: Library, q: Query, joins: seq<Join>, rows: seq<Row>)
    requires Indexed(joins) && Stream(lib, q, Nested(joins), rows).Ok?
    ensures Stream(lib, q, joins, rows).Ok?
    ensures |Stream(lib, q, joins, rows).value| == |Stream(lib, q, Nested(joins), rows).value|
            <==> forall i :: 0 <= i < |rows| ==> Complete(lib, q, joins, 0, rows[i])
  {
    if rows != [] {
      var front, last := rows[..|rows| - 1], rows[|rows| - 1];
      StreamCount(lib, q, joins, front);
      JoinCount(lib, q, joins, 0, last);
      CountsAdd(lib, q, joins, rows);
      CompleteFront(lib, q, joins, rows, front);
    }
  }

  lemma {:induction false} CompleteFront(lib: Library, q: Query, joins: seq<Join>, rows: seq<Row>, front: seq<Row>)
    requires rows != [] && front == rows[..|rows| - 1]
    ensures (forall i :: 0 <= i < |rows| ==> Complete(lib, q, joins, 0, rows[i])) <==>
            (forall i :: 0 <= i < |front| ==> Complete(lib, q, joins, 0, front[i])) &&
            Complete(lib, q, joins, 0, rows[|rows| - 1])
  {
    assert forall i :: 0 <= i < |front| ==> front[i] == rows[i];
  }

  /** The last primary row falls short exactly if the rows before it or it alone do. */
  lemma {:induction false} CountsAdd(lib: Library, q: Query, joins: seq<Join>, rows: seq<Row>)
    requires Indexed(joins) && rows != [] && Stream(lib, q, Nested(joins), rows).Ok?
    ensures var front, last := rows[..|rows| - 1], rows[|rows| - 1];
      && Stream(lib, q, joins, rows).Ok? && Stream(lib, q, joins, front).Ok? && JoinRows(lib, q, joins, 0, last).Ok?
      && Stream(lib, q, Nested(joins), front).Ok? && JoinRows(lib, q, Nested(joins), 0, last).Ok?
      && (|Stream(lib, q, joins, rows).value| == |Stream(lib, q, Nested(joins), rows).value| <==>
            && |Stream(lib, q, joins, front).value| == |Stream(lib, q, Nested(joins), front).value|
            && |JoinRows(lib, q, joins, 0, last).value| == |JoinRows(lib, q, Nested(joins), 0, last).value|)
  {
    var front, last := rows[..|rows| - 1], rows[|rows| - 1];
    HashStreamWithinNested(lib, q, joins, front);
    SameSize(Stream(lib, q, joins, front), Stream(lib, q, Nested(joins), front));
    HashWithinNested(lib, q, joins, 0, last);
    SameSize(JoinRows(lib, q, joins, 0, last), JoinRows(lib, q, Nested(joins), 0, last));
  }

  /** The same over all primary rows. */
  lemma {:induction false} HashStreamEqualsNested(lib: Library, q: Query, joins: seq<Join>, rows: seq<Row>)
    requires Indexed(joins) && Stream(lib, q, Nested(joins), rows).Ok?
    ensures SameBag(Stream(lib, q, joins, rows), Stream(lib, q, Nested(joins), rows))
            <==> forall i :: 0 <= i < |rows| ==> Complete(lib, q, joins, 0, rows[i])
  {
    HashStreamWithinNested(lib, q, joins, rows);
    SameSize(Stream(lib, q, joins, rows), Stream(lib, q, Nested(joins), rows));
    StreamCount(lib, q, joins, rows);
  }

  /** With one join and SELECT *: every joined row that meets the condition is found by its key. */
  ghost predicate FindsAll(lib: Library, j: Join, current: Row) {
    forall k :: 0 <= k < |j.rows| && Accepts(lib, j, current, k) ==> Finds(j, current, k)
  }

  const SelectAll := Query(None, None)

  lemma {:induction false} SingleComplete(lib: Library, j: Join, current: Row)
    ensures Complete(lib, SelectAll, [j], 0, current) <==> FindsAll(lib, j, current)
  {
    if Complete(lib, SelectAll, [j], 0, current) {
      forall k | 0 <= k < |j.rows| && Accepts(lib, j, current, k) ensures Finds(j, current, k) {
        assert [k][1..] == [] && Delivered(lib, SelectAll, [j], 1, Overlay(current, j.rows[k]), []);
        assert Delivered(lib, SelectAll, [j], 0, current, [k]);
      }
    }
    if FindsAll(lib, j, current) {
      forall path | Delivered(lib, SelectAll, [j], 0, current, path) ensures Found([j], 0, current, path) {
        assert Accepts(lib, j, current, path[0]);
      }
    }
  }

  lemma {:induction false} SingleJoinEqualIff(lib: Library, j: Join, rows: seq<Row>)
    requires Indexed([j]) && Stream(lib, SelectAll, Nested([j]), rows).Ok?
    ensures SameBag(Stream(lib, SelectAll, [j], rows), Stream(lib, SelectAll, Nested([j]), rows))
            <==> forall i :: 0 <= i < |rows| ==> FindsAll(lib, j, rows[i])
  {
    HashStreamEqualsNested(lib, SelectAll, [j], rows);
    forall i | 0 <= i < |rows| ensures Complete(lib, SelectAll, [j], 0, rows[i]) <==> FindsAll(lib, j, rows[i]) {
      SingleComplete(lib, j, rows[i]);
    }
  }

  // ---- The exact condition on the data ----

  /** The usual shape of a join: every joined row has its own key column and no column named like
      the other side's, which the current row has. */
  ghost predicate UsualShape(j: Join, current: Row) {
    && Distinct(current) && Has(current, j.primary)
    && forall k :: 0 <= k < |j.rows| ==>
         Distinct(j.rows[k]) && Has(j.rows[k], j.secondary) && !Has(j.rows[k], j.primary)
  }

  /** Keys that compare equal are the same text. */
  ghost predicate NoAliases(lib: Library, j: Join, current: Row) {
    forall k :: 0 <= k < |j.rows| && Same(lib, TextOf(current, j.primary), TextOf(j.rows[k], j.secondary)) ==>
      TextOf(current, j.primary) == TextOf(j.rows[k], j.secondary)
  }

  lemma {:induction false} ConditionOnKeys(lib: Library, j: Join, cond: Expr, rows: seq<Row>, current: Row, k: nat)
    requires BuiltFrom(j, cond, rows) && j.hashed && UsualShape(j, current) && k < |rows|
    ensures EvaluateCondition(lib, j.cond, Overlay(current, rows[k])) ==
            Ok(Same(lib, TextOf(current, j.primary), TextOf(rows[k], j.secondary)))
  {
    FindOverlay(current, rows[k], j.primary);
    FindOverlay(current, rows[k], j.secondary);
  }

  /** For a join of the usual shape, lookup by key finds exactly what the condition accepts if and
      only if no two keys are equal as numbers but written differently. */
  lemma {:induction false} FindsAllIff(lib: Library, j: Join, cond: Expr, rows: seq<Row>, current: Row)
    requires BuiltFrom(j, cond, rows) && j.hashed && UsualShape(j, current)
    ensures FindsAll(lib, j, current) <==> NoAliases(lib, j, current)
  {
    forall k | 0 <= k < |j.rows|
      ensures Accepts(lib, j, current, k) <==>
              Same(lib, TextOf(current, j.primary), TextOf(j.rows[k], j.secondary))
    {
      ConditionOnKeys(lib, j, cond, rows, current, k);
    }
    if FindsAll(lib, j, current) {
      forall k | 0 <= k < |j.rows| && Same(lib, TextOf(current, j.primary), TextOf(j.rows[k], j.secondary))
        ensures TextOf(current, j.primary) == TextOf(j.rows[k], j.secondary)
      {
        assert Accepts(lib, j, current, k) && Finds(j, current, k);
      }
    }
  }

  /** Every join in the chain has the usual shape for the rows that get to it. */
  ghost predicate ChainUsual(lib: Library, joins: seq<Join>, idx: nat, current: Row)
    requires idx <= |joins|
    decreases |joins| - idx
  {
    idx < |joins| ==>
      && (joins[idx].hashed ==>
           BuiltFrom(joins[idx], joins[idx].cond, joins[idx].rows) && UsualShape(joins[idx], current))
      && forall k :: 0 <= k < |joins[idx].rows| && Accepts(lib, joins[idx], current, k) ==>
           ChainUsual(lib, joins, idx + 1, Overlay(current, joins[idx].rows[k]))
  }

  /** Somewhere on the way two keys are equal, but not the same text. */
  ghost predicate UsesAlias(lib: Library, joins: seq<Join>, idx: nat, current: Row, path: seq<nat>)
    requires idx <= |joins|
    decreases |joins| - idx
  {
    && idx < |joins| && path != [] && path[0] < |joins[idx].rows|
    && (|| (joins[idx].hashed &&
            IsAlias(lib, TextOf(current, joins[idx].primary), TextOf(joins[idx].rows[path[0]], joins[idx].secondary)))
        || UsesAlias(lib, joins, idx + 1, Overlay(current, joins[idx].rows[path[0]]), path[1..]))
  }

  ghost predicate IsAlias(lib: Library, a: string, b: string) {
    Same(lib, a, b) && a != b
  }

  lemma {:induction false} FoundIff(lib: Library, q: Query, joins: seq<Join>, idx: nat, current: Row, path: seq<nat>)
    requires idx <= |joins| && ChainUsual(lib, joins, idx, current) && Delivered(lib, q, joins, idx, current, path)
    ensures Found(joins, idx, current, path) <==> !UsesAlias(lib, joins, idx, current, path)
    decreases |joins| - idx
  {
    if idx < |joins| {
      var j := joins[idx];
      if j.hashed { ConditionOnKeys(lib, j, j.cond, j.rows, current, path[0]); }
      FoundIff(lib, q, joins, idx + 1, Overlay(current, j.rows[path[0]]), path[1..]);
    }
  }

  /** No combination of rows that is delivered uses an alias. */
  ghost predicate NoAliasDelivered(lib: Library, q: Query, joins: seq<Join>, current: Row) {
    forall path :: Delivered(lib, q, joins, 0, current, path) ==> !UsesAlias(lib, joins, 0, current, path)
  }

  lemma {:induction false} UsualComplete(lib: Library, q: Query, joins: seq<Join>, current: Row)
    requires ChainUsual(lib, joins, 0, current)
    ensures Complete(lib, q, joins, 0, current) <==> NoAliasDelivered(lib, q, joins, current)
  {
    forall path | Delivered(lib, q, joins, 0, current, path)
      ensures Found(joins, 0, current, path) <==> !UsesAlias(lib, joins, 0, current, path)
    {
      FoundIff(lib, q, joins, 0, current, path);
    }
  }

  /** A chain of joins of the usual shape, over all primary rows: the hash join delivers exactly
      what the nested loop delivers if and only if no delivered combination of rows has two keys
      that are equal as numbers but written differently. */
  lemma {:induction false} UsualChainEqualIff(lib: Library, q: Query, joins: seq<Join>, rows: seq<Row>)
    requires Indexed(joins) && Stream(lib, q, Nested(joins), rows).Ok?
    requires forall i :: 0 <= i < |rows| ==> ChainUsual(lib, joins, 0, rows[i])
    ensures SameBag(Stream(lib, q, joins, rows), Stream(lib, q, Nested(joins), rows)) <==>
            forall i :: 0 <= i < |rows| ==> NoAliasDelivered(lib, q, joins, rows[i])
  {
    HashStreamEqualsNested(lib, q, joins, rows);
    forall i | 0 <= i < |rows|
      ensures Complete(lib, q, joins, 0, rows[i]) <==> NoAliasDelivered(lib, q, joins, rows[i])
    {
      UsualComplete(lib, q, joins, rows[i]);
    }
  }

  // ---- Examples of the two ways to miss a row ----

  function IdToken(name: string): Expr { Literal(Token(IDENTIFIER, name, 1, 1)) }

  function KeyCondition(l: string, r: string): Expr { Binary(Token(EQUALS, "==", 1, 1), IdToken(l), IdToken(r)) }

  /** "1" and "1.0" are equal as numbers, so the condition holds, but the lookup is by text. */
  lemma {:induction false} AliasIsMissed(lib: Library, j: Join)
    requires lib.parse("1") == Some(1.0) && lib.parse("1.0") == Some(1.0)
    requires BuiltFrom(j, KeyCondition("id", "uid"), [[("uid", "1.0")]])
    ensures JoinRows(lib, SelectAll, [j], 0, [("id", "1")]) == Ok([])
    ensures JoinRows(lib, SelectAll, Nested([j]), 0, [("id", "1")]) == Ok([[("id", "1"), ("uid", "1.0")]])
  {
    var rows, current: Row := [[("uid", "1.0")]], [("id", "1")];
    var joined: Row := [("id", "1"), ("uid", "1.0")];
    AliasLookup(j, rows);
    assert Put(current, "uid", "1.0") == joined;
    assert rows[0][1..] == [] && Overlay(current, rows[0]) == joined;
    assert Find(joined[1..], "uid") == Some("1.0") && Find(joined, "uid") == Some("1.0") &&
           Find(joined, "id") == Some("1");
    assert EvaluateCondition(lib, j.cond, joined) == Ok(true);
    TryAllOfOne(lib, SelectAll, Nested([j]), 0, rows[0], current);
    assert TryOne(lib, SelectAll, Nested([j]), 0, rows[0], current) == Ok([joined]);
  }

  lemma {:induction false} AliasLookup(j: Join, rows: seq<Row>)
    requires rows == [[("uid", "1.0")]] && BuiltFrom(j, KeyCondition("id", "uid"), rows)
    ensures Candidates(j, [("id", "1")]) == []
  {
    assert Find(rows[0], "uid") == Some("1.0") && !Has(rows[0], "id") && Has([("id", "1")], "id");
    assert j.secondary == "uid" && j.primary == "id";
    assert RowsWithKey(rows[..0], "uid", "1") == [];
    assert multiset(Bucket(j.index, "1")) == multiset(RowsWithKey(rows, "uid", "1"));
    assert |multiset(Bucket(j.index, "1"))| == 0;
  }

  /** With the same name on both sides the joined row's value hides the primary row's, the
      condition compares it with itself, and the nested loop accepts every row. */
  lemma {:induction false} SameNameAcceptsAll(lib: Library, j: Join, name: string, rows: seq<Row>, current: Row, k: nat)
    requires BuiltFrom(j, KeyCondition(name, name), rows)
    requires k < |rows| && Distinct(rows[k]) && Has(rows[k], name)
    ensures EvaluateCondition(lib, j.cond, Overlay(current, rows[k])) == Ok(true)
  {
    FindOverlay(current, rows[k], name);
  }
}
