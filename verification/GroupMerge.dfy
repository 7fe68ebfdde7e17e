/** The merge of the workers' buckets into one result. */
module GroupMerge {
  import opened Wrappers
  import opened Sequences
  import opened GroupBy

  /** The effect on one aggregate of the three merge loops. The minimum loop sets `has` before
      the maximum loop tests it, so the maximum is always compared with the old entry. */
  function MergeCell(d: Cell, v: Cell): Cell {
    if !v.has then d
    else Cell(d.sum + v.sum,
              if !d.has || v.min < d.min then v.min else d.min,
              if v.max > d.max then v.max else d.max, true)
  }

  function MergeCells(d: seq<Cell>, v: seq<Cell>): (r: seq<Cell>)
    requires |d| == |v|
    ensures |r| == |d| && forall a :: 0 <= a < |r| ==> r[a] == MergeCell(d[a], v[a])
  {
    seq(|d|, a requires 0 <= a < |d| => MergeCell(d[a], v[a]))
  }

  function MergeState(d: AggState, v: AggState): AggState
    requires |d.cells| == |v.cells|
  {
    AggState(d.count + v.count, d.first, MergeCells(d.cells, v.cells))
  }

  function MergeKey(acc: Buckets, k: string, v: AggState): Buckets
    requires k in acc.states ==> |acc.states[k].cells| == |v.cells|
  {
    if k in acc.states then acc.(states := acc.states[k := MergeState(acc.states[k], v)])
    else Buckets(acc.states[k := MergeState(AggState(0, v.first, FreshCells(|v.cells|)), v)], acc.order + [k])
  }

  /** Merges the first j keys of b, in its order. */
  function MergeFirst(acc: Buckets, b: Buckets, j: nat, n: nat): (r: Buckets)
    requires WellFormed(acc, n) && WellFormed(b, n) && j <= |b.order|
    ensures WellFormed(r, n)
  {
    if j == 0 then acc
    else MergeKey(MergeFirst(acc, b, j - 1, n), b.order[j - 1], b.states[b.order[j - 1]])
  }

  function MergeAll(parts: seq<Buckets>, n: nat): (r: Buckets)
    requires forall i :: 0 <= i < |parts| ==> WellFormed(parts[i], n)
    ensures WellFormed(r, n)
  {
    if parts == [] then NoBuckets
    else
      var b := parts[|parts| - 1];
      MergeFirst(MergeAll(parts[..|parts| - 1], n), b, |b.order|, n)
  }

  method MergeStates(d: AggState, v: AggState) returns (r: AggState)
    requires |d.cells| == |v.cells|
    ensures r == MergeState(d, v)
  {
    var n := |d.cells|;
    var cells := d.cells;
    for a := 0 to n
      invariant |cells| == n
      invariant forall i :: 0 <= i < a && v.cells[i].has ==>
                  cells[i] == d.cells[i].(sum := d.cells[i].sum + v.cells[i].sum)
      invariant forall i :: 0 <= i < n && (a <= i || !v.cells[i].has) ==> cells[i] == d.cells[i]
    {
      if v.cells[a].has { cells := cells[a := cells[a].(sum := cells[a].sum + v.cells[a].sum)]; }
    }
    ghost var summed := cells;
    for a := 0 to n
      invariant |cells| == n
      invariant forall i :: 0 <= i < a && v.cells[i].has ==>
        cells[i] == summed[i].(
          min := if !d.cells[i].has || v.cells[i].min < d.cells[i].min then v.cells[i].min else d.cells[i].min,
          has := true)
      invariant forall i :: 0 <= i < n && (a <= i || !v.cells[i].has) ==> cells[i] == summed[i]
    {
      if v.cells[a].has {
        if !cells[a].has || v.cells[a].min < cells[a].min { cells := cells[a := cells[a].(min := v.cells[a].min)]; }
        cells := cells[a := cells[a].(has := true)];
      }
    }
    ghost var mins := cells;
    for a := 0 to n
      invariant |cells| == n
      invariant forall i :: 0 <= i < a && v.cells[i].has ==>
        cells[i] == mins[i].(max := if v.cells[i].max > d.cells[i].max then v.cells[i].max else d.cells[i].max)
      invariant forall i :: 0 <= i < n && (a <= i || !v.cells[i].has) ==> cells[i] == mins[i]
    {
      if v.cells[a].has {
        if !cells[a].has || v.cells[a].max > cells[a].max { cells := cells[a := cells[a].(max := v.cells[a].max)]; }
        cells := cells[a := cells[a].(has := true)];
      }
    }
    assert cells == MergeCells(d.cells, v.cells);
    r := AggState(d.count + v.count, d.first, cells);
  }

  /** Adds one worker's bucket for key k to the result. */
  method MergeOne(acc: Buckets, k: string, v: AggState) returns (r: Buckets)
    requires k in acc.states ==> |acc.states[k].cells| == |v.cells|
    ensures r == MergeKey(acc, k, v)
  {
    var states, order := acc.states, acc.order;
    if k !in states {
      order := order + [k];
      states := states[k := AggState(0, v.first, FreshCells(|v.cells|))];
    }
    var merged := MergeStates(states[k], v);
    r := Buckets(states[k := merged], order);
  }

  lemma {:induction false} SameWidth(acc: Buckets, b: Buckets, j: nat, n: nat)
    requires WellFormed(acc, n) && WellFormed(b, n) && j < |b.order|
    ensures var m, k := MergeFirst(acc, b, j, n), b.order[j];
            k in b.states && (k in m.states ==> |m.states[k].cells| == |b.states[k].cells|)
  {
    assert b.order[j] in b.order;
  }

  /** Adds one worker's buckets to the result, in the order of its keys. */
  method MergeBuckets(acc: Buckets, b: Buckets, n: nat) returns (m: Buckets)
    requires WellFormed(acc, n) && WellFormed(b, n)
    ensures m == MergeFirst(acc, b, |b.order|, n)
  {
    m := acc;
    for j := 0 to |b.order|
      invariant m == MergeFirst(acc, b, j, n)
    {
      SameWidth(acc, b, j, n);
      m := MergeOne(m, b.order[j], b.states[b.order[j]]);
    }
  }

  method Merge(parts: seq<Buckets>, n: nat) returns (m: Buckets)
    requires forall i :: 0 <= i < |parts| ==> WellFormed(parts[i], n)
    ensures m == MergeAll(parts, n)
  {
    m := NoBuckets;
    for i := 0 to |parts|
      invariant m == MergeAll(parts[..i], n)
    {
      assert parts[..i + 1][..i] == parts[..i];
      m := MergeBuckets(m, parts[i], n);
    }
    assert parts[..|parts|] == parts;
  }

  // ---- The merge is a homomorphism ----

  lemma {:induction false} SumConcat(vs: seq<real>, ws: seq<real>)
    ensures Sum(vs + ws) == Sum(vs) + Sum(ws)
  {
    if ws == [] {
      assert vs + ws == vs;
    } else {
      assert (vs + ws)[..|vs + ws| - 1] == vs + ws[..|ws| - 1];
      SumConcat(vs, ws[..|ws| - 1]);
    }
  }

  lemma MinUnique(vs: seq<real>, m: real)
    requires IsMin(vs, m)
    ensures m == MinOf(vs)
  {}

  lemma MaxUnique(vs: seq<real>, m: real)
    requires IsMax(vs, m)
    ensures m == MaxOf(vs)
  {}

  lemma {:induction false} MinConcat(vs: seq<real>, ws: seq<real>)
    requires vs != [] && ws != []
    ensures MinOf(vs + ws) == if MinOf(ws) < MinOf(vs) then MinOf(ws) else MinOf(vs)
  {
    MinUnique(vs + ws, if MinOf(ws) < MinOf(vs) then MinOf(ws) else MinOf(vs));
  }

  lemma {:induction false} MaxConcat(vs: seq<real>, ws: seq<real>)
    requires vs != [] && ws != []
    ensures MaxOf(vs + ws) == if MaxOf(ws) > MaxOf(vs) then MaxOf(ws) else MaxOf(vs)
  {
    MaxUnique(vs + ws, if MaxOf(ws) > MaxOf(vs) then MaxOf(ws) else MaxOf(vs));
  }

  /** Merging a worker's exact cell of ws into a merged cell of vs gives the merged cell of both. */
  lemma {:induction false} MergeCellConcat(vs: seq<real>, ws: seq<real>)
    ensures MergeCell(MergedCell(vs), ExactCell(ws)) == MergedCell(vs + ws)
  {
    SumConcat(vs, ws);
    if ws == [] {
      assert vs + ws == vs;
    } else if vs == [] {
      assert vs + ws == ws;
    } else {
      MinConcat(vs, ws);
      MaxConcat(vs, ws);
    }
  }

  /** The maximum delivered for some numbers is the true one exactly when that is not negative. */
  lemma {:induction false} MergedMaxExactIff(vs: seq<real>)
    requires vs != []
    ensures MergedCell(vs).max == MaxOf(vs) <==> MaxOf(vs) >= 0.0
    ensures MergedCell(vs) == ExactCell(vs) <==> exists i :: 0 <= i < |vs| && vs[i] >= 0.0
  {
    var i :| 0 <= i < |vs| && vs[i] == MaxOf(vs);
  }

  lemma {:induction false} GroupConcat(a: seq<Item>, b: seq<Item>, k: string)
    ensures Group(a + b, k) == Group(a, k) + Group(b, k)
  {
    if b == [] {
      assert a + b == a;
    } else {
      assert (a + b)[..|a + b| - 1] == a + b[..|b| - 1];
      GroupConcat(a, b[..|b| - 1], k);
    }
  }

  lemma {:induction false} ValuesConcat(a: seq<Item>, b: seq<Item>, i: nat)
    requires forall k :: 0 <= k < |a| ==> i < |a[k].vals|
    requires forall k :: 0 <= k < |b| ==> i < |b[k].vals|
    ensures Values(a + b, i) == Values(a, i) + Values(b, i)
  {
    if b == [] {
      assert a + b == a;
    } else {
      assert (a + b)[..|a + b| - 1] == a + b[..|b| - 1];
      ValuesConcat(a, b[..|b| - 1], i);
    }
  }

  /** The keys of `more` that `keys` does not have. */
  function NewKeys(keys: seq<string>, more: seq<string>): seq<string> {
    if more == [] then []
    else NewKeys(keys, more[..|more| - 1]) + if more[|more| - 1] in keys then [] else [more[|more| - 1]]
  }

  lemma {:induction false} NewKeysIn(keys: seq<string>, more: seq<string>)
    ensures forall k :: k in NewKeys(keys, more) <==> k in more && k !in keys
  {
    if more != [] {
      NewKeysIn(keys, more[..|more| - 1]);
      assert more == more[..|more| - 1] + [more[|more| - 1]];
    }
  }

  lemma {:induction false} NewKeysLast(keys: seq<string>, more: seq<string>, last: string)
    ensures NewKeys(keys, more + [last]) == NewKeys(keys, more) + if last in keys then [] else [last]
  {
    assert (more + [last])[..|more|] == more;
  }

  lemma {:induction false} FirstKeysConcat(a: seq<Item>, b: seq<Item>)
    ensures FirstKeys(a + b) == FirstKeys(a) + NewKeys(FirstKeys(a), FirstKeys(b))
  {
    if b == [] {
      assert a + b == a;
    } else {
      var front, last := b[..|b| - 1], b[|b| - 1].key;
      assert (a + b)[..|a + b| - 1] == a + front;
      FirstKeysConcat(a, front);
      NewKeysIn(FirstKeys(a), FirstKeys(front));
      NewKeysLast(FirstKeys(a), FirstKeys(front), last);
    }
  }

  /** The groups complete after j keys of b: a's items, and those of b with one of these keys. */
  function SoFar(a: seq<Item>, b: seq<Item>, j: nat, k: string): seq<Item>
    requires j <= |FirstKeys(b)|
  {
    if k in FirstKeys(b)[..j] then Group(a, k) + Group(b, k) else Group(a, k)
  }

  lemma {:induction false} SoFarUniform(a: seq<Item>, b: seq<Item>, j: nat, k: string, n: nat)
    requires Uniform(a, n) && Uniform(b, n) && j <= |FirstKeys(b)|
    ensures Uniform(SoFar(a, b, j, k), n)
  {
    GroupUniform(a, k, n);
    GroupUniform(b, k, n);
  }

  ghost predicate StateSoFar(acc: Buckets, a: seq<Item>, b: seq<Item>, j: nat, n: nat, k: string)
    requires Uniform(a, n) && Uniform(b, n) && j <= |FirstKeys(b)| && k in acc.states
  {
    SoFarUniform(a, b, j, k, n);
    acc.states[k] == GroupState(SoFar(a, b, j, k), n, true)
  }

  /** Where the merge of a worker's buckets stands after j of its keys. */
  ghost predicate Halfway(acc: Buckets, a: seq<Item>, b: seq<Item>, j: nat, n: nat)
    requires Uniform(a, n) && Uniform(b, n) && j <= |FirstKeys(b)|
  {
    && acc.order == FirstKeys(a) + NewKeys(FirstKeys(a), FirstKeys(b)[..j])
    && (forall k :: k in acc.states ==> StateSoFar(acc, a, b, j, n, k))
  }

  lemma {:induction false} MergeStateConcat(a: seq<Item>, b: seq<Item>, n: nat)
    requires Uniform(a, n) && Uniform(b, n) && b != []
    ensures Uniform(a + b, n)
    ensures a != [] ==> MergeState(GroupState(a, n, true), GroupState(b, n, false)) == GroupState(a + b, n, true)
    ensures a == [] ==>
              MergeState(AggState(0, First(b), FreshCells(n)), GroupState(b, n, false)) == GroupState(b, n, true)
  {
    forall i | 0 <= i < n
      ensures MergeCell(MergedCell(Values(a, i)), ExactCell(Values(b, i))) == MergedCell(Values(a + b, i))
    {
      MergeCellConcat(Values(a, i), Values(b, i));
      ValuesConcat(a, b, i);
    }
    if a == [] {
      assert a + b == b;
      assert forall i :: 0 <= i < n ==> MergedCell(Values(a, i)) == NoValue;
      assert MergeCells(FreshCells(n), GroupCells(b, n, false)) == GroupCells(b, n, true);
    } else {
      assert MergeCells(GroupCells(a, n, true), GroupCells(b, n, false)) == GroupCells(a + b, n, true);
    }
  }

  lemma {:induction false} HalfwayStep(acc: Buckets, a: seq<Item>, b: seq<Item>, part: Buckets, j: nat, n: nat)
    requires Uniform(a, n) && Uniform(b, n) && j < |FirstKeys(b)|
    requires WellFormed(acc, n) && Halfway(acc, a, b, j, n) && Holds(part, b, n, false)
    ensures part.order[j] in part.states
    ensures part.order[j] in acc.states ==> |acc.states[part.order[j]].cells| == |part.states[part.order[j]].cells|
    ensures Halfway(MergeKey(acc, part.order[j], part.states[part.order[j]]), a, b, j + 1, n)
  {
    StateStep(acc, a, b, part, j, n);
    MergeKeyFrame(acc, a, b, part.states[FirstKeys(b)[j]], j, n);
    HalfwayKey(acc, MergeKey(acc, FirstKeys(b)[j], part.states[FirstKeys(b)[j]]), a, b, FirstKeys(b)[j], j, n);
  }

  lemma {:induction false} HalfwayKey(acc: Buckets, r: Buckets, a: seq<Item>, b: seq<Item>, k: string, j: nat, n: nat)
    requires Uniform(a, n) && Uniform(b, n) && j < |FirstKeys(b)| && k == FirstKeys(b)[j]
    requires r.order == FirstKeys(a) + NewKeys(FirstKeys(a), FirstKeys(b)[..j + 1])
    requires forall x :: x in acc.states ==> StateSoFar(acc, a, b, j, n, x)
    requires forall x :: x in r.states && x != k ==> x in acc.states && r.states[x] == acc.states[x]
    requires k in r.states && StateSoFar(r, a, b, j + 1, n, k)
    ensures Halfway(r, a, b, j + 1, n)
  {
    forall x | x in r.states ensures StateSoFar(r, a, b, j + 1, n, x) {
      if x != k { StateKept(acc, r, a, b, j, n, x); }
    }
  }

  /** Merging a key extends the order if the key is new, and leaves the other keys alone. */
  lemma {:induction false} MergeKeyFrame(acc: Buckets, a: seq<Item>, b: seq<Item>, v: AggState, j: nat, n: nat)
    requires Uniform(a, n) && Uniform(b, n) && j < |FirstKeys(b)| && WellFormed(acc, n)
    requires acc.order == FirstKeys(a) + NewKeys(FirstKeys(a), FirstKeys(b)[..j])
    requires FirstKeys(b)[j] in acc.states ==> |acc.states[FirstKeys(b)[j]].cells| == |v.cells|
    ensures MergeKey(acc, FirstKeys(b)[j], v).order == FirstKeys(a) + NewKeys(FirstKeys(a), FirstKeys(b)[..j + 1])
    ensures forall x :: x in MergeKey(acc, FirstKeys(b)[j], v).states && x != FirstKeys(b)[j] ==>
              x in acc.states && MergeKey(acc, FirstKeys(b)[j], v).states[x] == acc.states[x]
  {
    FirstKeysDistinct(b);
    NewKeysNext(acc.order, FirstKeys(a), FirstKeys(b), j);
  }

  lemma {:induction false} NewKeysNext(order: seq<string>, keys: seq<string>, more: seq<string>, j: nat)
    requires j < |more| && forall i, k :: 0 <= i < k < |more| ==> more[i] != more[k]
    requires order == keys + NewKeys(keys, more[..j])
    ensures more[j] in order <==> more[j] in keys
    ensures keys + NewKeys(keys, more[..j + 1]) == order + if more[j] in order then [] else [more[j]]
  {
    assert more[..j + 1][..j] == more[..j];
    NewKeysIn(keys, more[..j]);
  }

  lemma {:induction false} StateKept(acc: Buckets, r: Buckets, a: seq<Item>, b: seq<Item>, j: nat, n: nat, x: string)
    requires Uniform(a, n) && Uniform(b, n) && j < |FirstKeys(b)| && x != FirstKeys(b)[j]
    requires x in acc.states && x in r.states && r.states[x] == acc.states[x]
    requires StateSoFar(acc, a, b, j, n, x)
    ensures StateSoFar(r, a, b, j + 1, n, x)
  {
    InLongerPrefix(FirstKeys(b), j, x);
    SoFarUniform(a, b, j, x, n);
  }

  lemma {:induction false} InLongerPrefix(keys: seq<string>, j: nat, x: string)
    requires j < |keys| && x != keys[j]
    ensures x in keys[..j + 1] <==> x in keys[..j]
  {
    assert keys[..j + 1] == keys[..j] + [keys[j]];
  }

  /** The state of the key merged last. */
  lemma {:induction false} StateStep(acc: Buckets, a: seq<Item>, b: seq<Item>, part: Buckets, j: nat, n: nat)
    requires Uniform(a, n) && Uniform(b, n) && j < |FirstKeys(b)|
    requires WellFormed(acc, n) && Halfway(acc, a, b, j, n) && Holds(part, b, n, false)
    ensures var k := part.order[j];
            k in part.states && (k in acc.states ==> |acc.states[k].cells| == |part.states[k].cells|) &&
            StateSoFar(MergeKey(acc, k, part.states[k]), a, b, j + 1, n, k)
  {
    var k := part.order[j];
    FirstKeysDistinct(b);
    assert k !in FirstKeys(b)[..j] && k in FirstKeys(b)[..j + 1];
    assert k in part.order;
    GroupUniform(a, k, n);
    GroupUniform(b, k, n);
    NewKeysIn(FirstKeys(a), FirstKeys(b)[..j]);
    MergeStateConcat(Group(a, k), Group(b, k), n);
    if k in acc.states {
      assert StateSoFar(acc, a, b, j, n, k);
    } else {
      assert Group(a, k) + Group(b, k) == Group(b, k);
    }
  }

  lemma {:induction false} MergeFirstHalfway(acc: Buckets, a: seq<Item>, b: seq<Item>, part: Buckets, j: nat, n: nat)
    requires Uniform(a, n) && Uniform(b, n) && j <= |FirstKeys(b)|
    requires WellFormed(acc, n) && WellFormed(part, n)
    requires Holds(acc, a, n, true) && Holds(part, b, n, false)
    ensures Halfway(MergeFirst(acc, part, j, n), a, b, j, n)
  {
    if j == 0 {
      assert FirstKeys(b)[..0] == [];
    } else {
      MergeFirstHalfway(acc, a, b, part, j - 1, n);
      HalfwayStep(MergeFirst(acc, part, j - 1, n), a, b, part, j - 1, n);
    }
  }

  /** Merging the buckets of b into the merged buckets of a gives those of a and b together. */
  lemma {:induction false} MergeHolds(acc: Buckets, a: seq<Item>, part: Buckets, b: seq<Item>, n: nat)
    requires Uniform(a, n) && Uniform(b, n)
    requires WellFormed(acc, n) && WellFormed(part, n)
    requires Holds(acc, a, n, true) && Holds(part, b, n, false)
    ensures Uniform(a + b, n)
    ensures Holds(MergeFirst(acc, part, |part.order|, n), a + b, n, true)
  {
    var j := |FirstKeys(b)|;
    var r := MergeFirst(acc, part, j, n);
    MergeFirstHalfway(acc, a, b, part, j, n);
    HalfwayDone(r, a, b, n);
  }

  lemma {:induction false} HalfwayDone(r: Buckets, a: seq<Item>, b: seq<Item>, n: nat)
    requires Uniform(a, n) && Uniform(b, n) && WellFormed(r, n) && Halfway(r, a, b, |FirstKeys(b)|, n)
    ensures Uniform(a + b, n) && Holds(r, a + b, n, true)
  {
    var j := |FirstKeys(b)|;
    assert FirstKeys(b)[..j] == FirstKeys(b);
    FirstKeysConcat(a, b);
    forall k | k in r.states
      ensures (GroupUniform(a + b, k, n); r.states[k] == GroupState(Group(a + b, k), n, true))
    {
      assert StateSoFar(r, a, b, j, n, k);
      AllSoFar(a, b, k, n);
      GroupUniform(a + b, k, n);
    }
  }

  lemma {:induction false} AllSoFar(a: seq<Item>, b: seq<Item>, k: string, n: nat)
    requires Uniform(b, n)
    ensures SoFar(a, b, |FirstKeys(b)|, k) == Group(a + b, k)
  {
    assert FirstKeys(b)[..|FirstKeys(b)|] == FirstKeys(b);
    GroupUniform(b, k, n);
    GroupConcat(a, b, k);
    if k !in FirstKeys(b) { assert Group(a, k) + Group(b, k) == Group(a, k); }
  }

  /** Folding consecutive parts separately and merging gives the groups of the whole. */
  lemma {:induction false} MergeAllHolds(parts: seq<Buckets>, items: seq<seq<Item>>, n: nat)
    requires |parts| == |items|
    requires forall i :: 0 <= i < |items| ==> Uniform(items[i], n) && Holds(parts[i], items[i], n, false)
    ensures forall i :: 0 <= i < |parts| ==> WellFormed(parts[i], n)
    ensures Uniform(Concat(items), n)
    ensures Holds(MergeAll(parts, n), Concat(items), n, true)
  {
    forall i | 0 <= i < |parts| ensures WellFormed(parts[i], n) { HoldsWellFormed(parts[i], items[i], n, false); }
    if parts != [] {
      var m := |parts| - 1;
      MergeAllHolds(parts[..m], items[..m], n);
      MergeHolds(MergeAll(parts[..m], n), Concat(items[..m]), parts[m], items[m], n);
    }
  }

  /** The division into parts does not show: any two divisions of the same items, one worker
      included, merge to the same buckets. */
  lemma {:induction false} DivisionDoesNotMatter(parts: seq<Buckets>, items: seq<seq<Item>>, parts': seq<Buckets>,
                                                 items': seq<seq<Item>>, n: nat)
    requires |parts| == |items| && |parts'| == |items'| && Concat(items) == Concat(items')
    requires forall i :: 0 <= i < |items| ==> Uniform(items[i], n) && Holds(parts[i], items[i], n, false)
    requires forall i :: 0 <= i < |items'| ==> Uniform(items'[i], n) && Holds(parts'[i], items'[i], n, false)
    ensures forall i :: 0 <= i < |parts| ==> WellFormed(parts[i], n)
    ensures forall i :: 0 <= i < |parts'| ==> WellFormed(parts'[i], n)
    ensures MergeAll(parts, n) == MergeAll(parts', n)
  {
    MergeAllHolds(parts, items, n);
    MergeAllHolds(parts', items', n);
    HoldsUnique(MergeAll(parts, n), MergeAll(parts', n), Concat(items), n, true);
  }

  // ---- When the merged result is exact ----

  /** A number that aggregate a finds in an item of group k. */
  ghost predicate Finds(items: seq<Item>, k: string, a: nat, x: real)
    requires forall i :: 0 <= i < |items| ==> a < |items[i].vals|
  {
    exists i :: 0 <= i < |items| && items[i].key == k && items[i].vals[a] == Some(x)
  }

  lemma {:induction false} FindsLast(items: seq<Item>, k: string, a: nat, x: real)
    requires items != [] && forall i :: 0 <= i < |items| ==> a < |items[i].vals|
    ensures var last := items[|items| - 1];
            Finds(items, k, a, x) <==>
            Finds(items[..|items| - 1], k, a, x) || (last.key == k && last.vals[a] == Some(x))
  {
    var front, last := items[..|items| - 1], items[|items| - 1];
    if Finds(front, k, a, x) {
      var i :| 0 <= i < |front| && front[i].key == k && front[i].vals[a] == Some(x);
      assert items[i] == front[i];
    }
    if Finds(items, k, a, x) {
      var i :| 0 <= i < |items| && items[i].key == k && items[i].vals[a] == Some(x);
      assert i < |items| - 1 ==> front[i] == items[i];
    }
  }

  lemma {:induction false} ValuesAreFound(items: seq<Item>, k: string, a: nat, n: nat, x: real)
    requires Uniform(items, n) && a < n && Uniform(Group(items, k), n)
    ensures x in Values(Group(items, k), a) <==> Finds(items, k, a, x)
  {
    if items != [] {
      var front, last := items[..|items| - 1], items[|items| - 1];
      GroupUniform(front, k, n);
      ValuesAreFound(front, k, a, n, x);
      FindsLast(items, k, a, x);
      if last.key == k {
        assert Group(items, k)[..|Group(items, k)| - 1] == Group(front, k);
        assert Values(Group(items, k), a) ==
               Values(Group(front, k), a) + if last.vals[a].Some? then [last.vals[a].value] else [];
      } else {
        assert Group(items, k) == Group(front, k);
      }
    }
  }

  /** The numbers that aggregate a finds in group k, if there are any, are not all negative. */
  ghost predicate NotAllNegative(items: seq<Item>, k: string, a: nat)
    requires forall i :: 0 <= i < |items| ==> a < |items[i].vals|
  {
    (exists x :: Finds(items, k, a, x)) ==> exists x :: Finds(items, k, a, x) && x >= 0.0
  }

  lemma {:induction false} CellExactIff(items: seq<Item>, k: string, a: nat, n: nat)
    requires Uniform(items, n) && a < n && Uniform(Group(items, k), n)
    ensures MergedCell(Values(Group(items, k), a)) == ExactCell(Values(Group(items, k), a))
            <==> NotAllNegative(items, k, a)
  {
    var vs := Values(Group(items, k), a);
    forall x ensures x in vs <==> Finds(items, k, a, x) { ValuesAreFound(items, k, a, n, x); }
    if vs != [] {
      MergedMaxExactIff(vs);
      assert vs[0] in vs;
      if i :| 0 <= i < |vs| && vs[i] >= 0.0 { assert vs[i] in vs; }
    }
  }

  lemma {:induction false} GroupExactIff(items: seq<Item>, k: string, n: nat)
    requires Uniform(items, n) && Uniform(Group(items, k), n)
    ensures GroupState(Group(items, k), n, true) == GroupState(Group(items, k), n, false)
            <==> forall a :: 0 <= a < n ==> NotAllNegative(items, k, a)
  {
    var m, e := GroupCells(Group(items, k), n, true), GroupCells(Group(items, k), n, false);
    forall a | 0 <= a < n ensures m[a] == e[a] <==> NotAllNegative(items, k, a) { CellExactIff(items, k, a, n); }
    assert m == e <==> forall a :: 0 <= a < n ==> m[a] == e[a];
  }

  /** Merged buckets are the exact groups of all rows if and only if in every group every aggregate
      that finds numbers finds one that is not negative. */
  lemma {:induction false} MergedExactIff(b: Buckets, items: seq<Item>, n: nat)
    requires Uniform(items, n) && Holds(b, items, n, true)
    ensures Holds(b, items, n, false)
            <==> forall k, a :: k in FirstKeys(items) && 0 <= a < n ==> NotAllNegative(items, k, a)
  {
    forall k | k in b.states
      ensures Uniform(Group(items, k), n)
      ensures b.states[k] == GroupState(Group(items, k), n, false)
              <==> forall a :: 0 <= a < n ==> NotAllNegative(items, k, a)
    {
      GroupUniform(items, k, n);
      GroupExactIff(items, k, n);
    }
  }

  /** The whole merge: however the rows are divided, its result is exact under that condition only. */
  lemma {:induction false} MergeExactIff(parts: seq<Buckets>, items: seq<seq<Item>>, n: nat)
    requires |parts| == |items|
    requires forall i :: 0 <= i < |items| ==> Uniform(items[i], n) && Holds(parts[i], items[i], n, false)
    ensures forall i :: 0 <= i < |parts| ==> WellFormed(parts[i], n)
    ensures Uniform(Concat(items), n)
    ensures Holds(MergeAll(parts, n), Concat(items), n, false)
            <==> forall k, a :: k in FirstKeys(Concat(items)) && 0 <= a < n ==> NotAllNegative(Concat(items), k, a)
  {
    MergeAllHolds(parts, items, n);
    MergedExactIff(MergeAll(parts, n), Concat(items), n);
  }

  const NEGATIVE := Cell(-1.0, -1.0, -1.0, true)

  /** A single worker that has seen a single number, and that negative: the merge delivers a maximum
      of zero. */
  lemma {:induction false} NegativeMaximumLost(part: Buckets)
    requires part == Buckets(map["" := AggState(1, [], [NEGATIVE])], [""])
    ensures NEGATIVE == ExactCell([-1.0])
    ensures WellFormed(part, 1) && MergeAll([part], 1).states.Keys == {""}
    ensures MergeAll([part], 1).states[""].cells == [Cell(-1.0, -1.0, 0.0, true)]
  {
    assert [part][..0] == [];
    assert MergeAll([part], 1) == MergeKey(NoBuckets, "", part.states[""]) by {
      assert MergeFirst(NoBuckets, part, 0, 1) == NoBuckets;
    }
  }
}
