/** The k-way merge of sorted splits through a priority queue of cursors. */
module MergeSorter {
  import opened Sorting

  datatype Element = Element(split: nat, row: nat)

  /** How often split i occurs in a trace. */
  function Count(trace: seq<nat>, i: nat): nat {
    if trace == [] then 0
    else Count(trace[..|trace| - 1], i) + if trace[|trace| - 1] == i then 1 else 0
  }

  /** Step k takes the next unread element of split trace[k]. */
  ghost predicate TakesAt<T>(splits: seq<seq<T>>, trace: seq<nat>, out: seq<T>, k: nat)
    requires k < |trace| == |out|
  {
    && trace[k] < |splits|
    && Count(trace[..k], trace[k]) < |splits[trace[k]]|
    && out[k] == splits[trace[k]][Count(trace[..k], trace[k])]
  }

  ghost predicate TakesNext<T>(splits: seq<seq<T>>, trace: seq<nat>, out: seq<T>) {
    |trace| == |out| && forall k :: 0 <= k < |trace| ==> TakesAt(splits, trace, out, k)
  }

  ghost predicate Exhausts<T>(splits: seq<seq<T>>, trace: seq<nat>) {
    forall i :: 0 <= i < |splits| ==> Count(trace, i) == |splits[i]|
  }

  /** out is an interleaving of the splits: every element of every split, once, in split order. */
  ghost predicate Interleaving<T>(splits: seq<seq<T>>, trace: seq<nat>, out: seq<T>) {
    TakesNext(splits, trace, out) && Exhausts(splits, trace)
  }

  lemma {:induction false} CountNext(trace: seq<nat>, w: nat, i: nat)
    ensures Count(trace + [w], i) == Count(trace, i) + if w == i then 1 else 0
  {
    assert (trace + [w])[..|trace|] == trace;
  }

  lemma {:induction false} TakesOneMore<T>(splits: seq<seq<T>>, trace: seq<nat>, out: seq<T>, w: nat)
    requires TakesNext(splits, trace, out)
    requires w < |splits| && Count(trace, w) < |splits[w]|
    ensures TakesNext(splits, trace + [w], out + [splits[w][Count(trace, w)]])
  {
    var t, o := trace + [w], out + [splits[w][Count(trace, w)]];
    forall k | 0 <= k < |t| ensures TakesAt(splits, t, o, k) {
      assert t[..k] == trace[..k];
      if k == |trace| { assert t[..k] == trace; } else { assert TakesAt(splits, trace, out, k); }
    }
  }

  // ---- What an interleaving keeps ----

  /** The elements of out that came from split i. */
  function Select<T>(trace: seq<nat>, out: seq<T>, i: nat): (r: seq<T>)
    requires |trace| == |out|
    ensures |r| == Count(trace, i)
  {
    if trace == [] then []
    else Select(trace[..|trace| - 1], out[..|out| - 1], i) + if trace[|trace| - 1] == i then [out[|out| - 1]] else []
  }

  lemma {:induction false} TakesOneLess<T>(splits: seq<seq<T>>, trace: seq<nat>, out: seq<T>, t: seq<nat>, o: seq<T>,
                                           w: nat, x: T)
    requires TakesNext(splits, trace, out) && |t| == |o| && trace == t + [w] && out == o + [x]
    ensures TakesNext(splits, t, o)
    ensures w < |splits| && Count(t, w) < |splits[w]| && x == splits[w][Count(t, w)]
  {
    assert TakesAt(splits, trace, out, |t|) && trace[..|t|] == t;
    forall k | 0 <= k < |t| ensures TakesAt(splits, t, o, k) {
      assert TakesAt(splits, trace, out, k) && t[..k] == trace[..k];
    }
  }

  lemma {:induction false} SelectNext<T>(trace: seq<nat>, out: seq<T>, t: seq<nat>, o: seq<T>, w: nat, x: T, i: nat)
    requires |t| == |o| && trace == t + [w] && out == o + [x]
    ensures Count(trace, i) == Count(t, i) + if w == i then 1 else 0
    ensures Select(trace, out, i) == Select(t, o, i) + if w == i then [x] else []
  {
    assert trace[..|trace| - 1] == t && out[..|out| - 1] == o;
  }

  lemma {:induction false} SelectPrefixNext<T>(s: seq<T>, trace: seq<nat>, out: seq<T>, t: seq<nat>, o: seq<T>, w: nat,
                                               x: T, i: nat)
    requires |t| == |o| && trace == t + [w] && out == o + [x]
    requires Count(t, i) <= |s| && Select(t, o, i) == s[..Count(t, i)]
    requires w == i ==> Count(t, i) < |s| && x == s[Count(t, i)]
    ensures Count(trace, i) <= |s| && Select(trace, out, i) == s[..Count(trace, i)]
  {
    SelectNext(trace, out, t, o, w, x, i);
  }

  lemma {:induction false} SelectIsPrefix<T>(splits: seq<seq<T>>, trace: seq<nat>, out: seq<T>, i: nat)
    requires TakesNext(splits, trace, out) && i < |splits|
    ensures Count(trace, i) <= |splits[i]| && Select(trace, out, i) == splits[i][..Count(trace, i)]
  {
    if trace != [] {
      var t, o, w, x := trace[..|trace| - 1], out[..|out| - 1], trace[|trace| - 1], out[|out| - 1];
      assert trace == t + [w] && out == o + [x];
      TakesOneLess(splits, trace, out, t, o, w, x);
      SelectIsPrefix(splits, t, o, i);
      SelectPrefixNext(splits[i], trace, out, t, o, w, x, i);
    }
  }

  /** Each split is a subsequence of an interleaving. */
  lemma {:induction false} InterleavingKeepsSplits<T>(splits: seq<seq<T>>, trace: seq<nat>, out: seq<T>, i: nat)
    requires Interleaving(splits, trace, out) && i < |splits|
    ensures Select(trace, out, i) == splits[i]
  {
    SelectIsPrefix(splits, trace, out, i);
  }

  /** All the elements of all the parts. */
  function Bag<T>(parts: seq<seq<T>>): multiset<T> {
    if parts == [] then multiset{} else Bag(parts[..|parts| - 1]) + multiset(parts[|parts| - 1])
  }

  lemma {:induction false} BagOfEmpty<T>(parts: seq<seq<T>>)
    requires forall i :: 0 <= i < |parts| ==> parts[i] == []
    ensures Bag(parts) == multiset{}
  {
    if parts != [] { BagOfEmpty(parts[..|parts| - 1]); }
  }

  lemma Regroup<T>(a: multiset<T>, b: multiset<T>, last: multiset<T>, was: multiset<T>, now: multiset<T>)
    requires a + was == b + now
    ensures (a + last) + was == (b + last) + now
  {
    assert (a + last) + was == (a + was) + last;
    assert (b + last) + now == (b + now) + last;
  }

  lemma Cancel<T>(a: multiset<T>, b: multiset<T>, s: multiset<T>, x: T)
    requires a + (s + multiset{x}) == b + s
    ensures b == a + multiset{x}
  {
    assert (a + multiset{x}) + s == b + s;
    assert (a + multiset{x}) + s - s == a + multiset{x} && b + s - s == b;
  }

  /** Replacing one part replaces its elements. */
  lemma {:induction false} BagUpdate<T>(parts: seq<seq<T>>, w: nat, s: seq<T>)
    requires w < |parts|
    ensures Bag(parts[w := s]) + multiset(parts[w]) == Bag(parts) + multiset(s)
  {
    var n := |parts| - 1;
    if w == n {
      assert parts[w := s][..n] == parts[..n];
    } else {
      BagUpdate(parts[..n], w, s);
      assert parts[w := s][..n] == parts[..n][w := s];
      Regroup(Bag(parts[..n][w := s]), Bag(parts[..n]), multiset(parts[n]), multiset(parts[w]), multiset(s));
    }
  }

  lemma {:induction false} BagNext<T>(parts: seq<seq<T>>, w: nat, s: seq<T>, x: T, o: seq<T>)
    requires w < |parts| && parts[w] == s + [x] && Bag(parts[w := s]) == multiset(o)
    ensures Bag(parts) == multiset(o + [x])
  {
    BagUpdate(parts, w, s);
    Cancel(multiset(o), Bag(parts), multiset(s), x);
  }

  /** The elements selected for the parts of a trace are together all the elements. */
  lemma {:induction false} SelectedAreAll<T>(parts: seq<seq<T>>, trace: seq<nat>, out: seq<T>)
    requires |trace| == |out| && forall k :: 0 <= k < |trace| ==> trace[k] < |parts|
    requires forall i :: 0 <= i < |parts| ==> parts[i] == Select(trace, out, i)
    ensures Bag(parts) == multiset(out)
    decreases |trace|
  {
    if trace == [] {
      BagOfEmpty(parts);
    } else {
      var t, o, w, x := trace[..|trace| - 1], out[..|out| - 1], trace[|trace| - 1], out[|out| - 1];
      assert trace == t + [w] && out == o + [x];
      var before := parts[w := Select(t, o, w)];
      forall i | 0 <= i < |parts| ensures before[i] == Select(t, o, i) { SelectNext(trace, out, t, o, w, x, i); }
      SelectedAreAll(before, t, o);
      SelectNext(trace, out, t, o, w, x, w);
      BagNext(parts, w, Select(t, o, w), x, o);
    }
  }

  /** An interleaving is a permutation of all the elements. */
  lemma {:induction false} InterleavingPermutes<T>(splits: seq<seq<T>>, trace: seq<nat>, out: seq<T>)
    requires Interleaving(splits, trace, out)
    ensures multiset(out) == Bag(splits)
  {
    forall i | 0 <= i < |splits| ensures splits[i] == Select(trace, out, i) {
      InterleavingKeepsSplits(splits, trace, out, i);
    }
    forall k | 0 <= k < |trace| ensures trace[k] < |splits| { assert TakesAt(splits, trace, out, k); }
    SelectedAreAll(splits, trace, out);
  }

  // ---- The queue ----

  ghost predicate ValidCursor(splits: seq<seq<SortItem>>, e: Element) {
    e.split < |splits| && e.row < |splits[e.split]|
  }

  function ItemAt(splits: seq<seq<SortItem>>, e: Element): SortItem
    requires ValidCursor(splits, e)
  {
    splits[e.split][e.row]
  }

  /** Stands in for std::priority_queue::top: when the comparator is a strict weak order on the
      items, no element of the queue comes before the one returned. */
  method PickTop(desc: bool, splits: seq<seq<SortItem>>, pq: seq<Element>, ghost u: set<SortItem>) returns (t: nat)
    requires pq != [] && forall p :: 0 <= p < |pq| ==> ValidCursor(splits, pq[p]) && ItemAt(splits, pq[p]) in u
    ensures t < |pq|
    ensures Coherent(desc, u) ==>
              forall p :: 0 <= p < |pq| ==> !Less(desc, ItemAt(splits, pq[p]), ItemAt(splits, pq[t]))
  {
    t := 0;
    LessAsymmetric(desc, ItemAt(splits, pq[0]), ItemAt(splits, pq[0]));
    for k := 1 to |pq|
      invariant t < |pq|
      invariant Coherent(desc, u) ==>
                  forall p :: 0 <= p < k ==> !Less(desc, ItemAt(splits, pq[p]), ItemAt(splits, pq[t]))
    {
      var best, x := ItemAt(splits, pq[t]), ItemAt(splits, pq[k]);
      if Less(desc, x, best) {
        LessAsymmetric(desc, x, best);
        t := k;
      }
    }
  }

  /** One cursor for every split not yet exhausted, at its first unread element. */
  ghost predicate QueueInv(splits: seq<seq<SortItem>>, trace: seq<nat>, pq: seq<Element>) {
    && (forall p :: 0 <= p < |pq| ==> ValidCursor(splits, pq[p]) && pq[p].row == Count(trace, pq[p].split))
    && (forall p, q :: 0 <= p < q < |pq| ==> pq[p].split != pq[q].split)
    && (forall i :: 0 <= i < |splits| ==> Count(trace, i) <= |splits[i]|)
    && (forall i :: 0 <= i < |splits| && Count(trace, i) < |splits[i]| ==>
         exists p :: 0 <= p < |pq| && pq[p].split == i)
  }

  /** Nothing still to come is less than something already delivered. */
  ghost predicate Ahead(desc: bool, splits: seq<seq<SortItem>>, trace: seq<nat>, out: seq<SortItem>) {
    forall k, i, j :: 0 <= k < |out| && 0 <= i < |splits| && Count(trace, i) <= j < |splits[i]| ==>
      !Less(desc, splits[i][j], out[k])
  }

  ghost predicate AllWithin(splits: seq<seq<SortItem>>, u: set<SortItem>) {
    forall i :: 0 <= i < |splits| ==> Within(splits[i], u)
  }

  ghost predicate AllSorted(desc: bool, splits: seq<seq<SortItem>>) {
    forall i :: 0 <= i < |splits| ==> Sorted(desc, splits[i])
  }

  /** The least first unread element is the least of everything unread. */
  lemma {:induction false} TopIsLeast(desc: bool, splits: seq<seq<SortItem>>, trace: seq<nat>, pq: seq<Element>, t: nat,
                                      u: set<SortItem>)
    requires QueueInv(splits, trace, pq) && t < |pq| && Coherent(desc, u) && AllWithin(splits, u)
    requires AllSorted(desc, splits)
    requires forall p :: 0 <= p < |pq| ==> !Less(desc, ItemAt(splits, pq[p]), ItemAt(splits, pq[t]))
    ensures forall i, j :: 0 <= i < |splits| && Count(trace, i) <= j < |splits[i]| ==>
              !Less(desc, splits[i][j], ItemAt(splits, pq[t]))
  {
    var top := ItemAt(splits, pq[t]);
    assert Within(splits[pq[t].split], u) && top in u;
    forall i, j | 0 <= i < |splits| && Count(trace, i) <= j < |splits[i]|
      ensures !Less(desc, splits[i][j], top)
    {
      var p :| 0 <= p < |pq| && pq[p].split == i;
      var head := ItemAt(splits, pq[p]);
      assert Within(splits[i], u) && Sorted(desc, splits[i]);
      assert head == splits[i][Count(trace, i)] && !Less(desc, head, top);
      if j > Count(trace, i) { assert !Less(desc, splits[i][j], head); }
    }
  }

  /** Delivering such an element keeps the output sorted and ahead of the rest. */
  lemma {:induction false} DeliverLeast(desc: bool, splits: seq<seq<SortItem>>, trace: seq<nat>, out: seq<SortItem>,
                                        w: nat)
    requires Sorted(desc, out) && Ahead(desc, splits, trace, out)
    requires w < |splits| && Count(trace, w) < |splits[w]|
    requires forall i, j :: 0 <= i < |splits| && Count(trace, i) <= j < |splits[i]| ==>
               !Less(desc, splits[i][j], splits[w][Count(trace, w)])
    ensures Sorted(desc, out + [splits[w][Count(trace, w)]])
    ensures Ahead(desc, splits, trace + [w], out + [splits[w][Count(trace, w)]])
  {
    forall i ensures Count(trace + [w], i) >= Count(trace, i) { CountNext(trace, w, i); }
  }

  /** The queue without the cursor taken, and with the next one of its split, if any. */
  function NextQueue(splits: seq<seq<SortItem>>, pq: seq<Element>, t: nat): seq<Element>
    requires t < |pq| && ValidCursor(splits, pq[t])
  {
    var rest := pq[..t] + pq[t + 1..];
    if pq[t].row + 1 < |splits[pq[t].split]| then rest + [Element(pq[t].split, pq[t].row + 1)] else rest
  }

  lemma NextQueueAt(splits: seq<seq<SortItem>>, pq: seq<Element>, t: nat, p: nat)
    requires t < |pq| && ValidCursor(splits, pq[t]) && p < |NextQueue(splits, pq, t)|
    ensures |pq| - 1 <= |NextQueue(splits, pq, t)| <= |pq|
    ensures NextQueue(splits, pq, t)[p] ==
            if p < t then pq[p] else if p < |pq| - 1 then pq[p + 1] else Element(pq[t].split, pq[t].row + 1)
    ensures p == |pq| - 1 ==> pq[t].row + 1 < |splits[pq[t].split]|
  {}

  lemma {:induction false} QueueStep(splits: seq<seq<SortItem>>, trace: seq<nat>, pq: seq<Element>, t: nat)
    requires QueueInv(splits, trace, pq) && t < |pq|
    ensures QueueInv(splits, trace + [pq[t].split], NextQueue(splits, pq, t))
  {
    var w, next := pq[t].split, NextQueue(splits, pq, t);
    forall i ensures Count(trace + [w], i) == Count(trace, i) + if w == i then 1 else 0 { CountNext(trace, w, i); }
    QueueCursors(splits, trace, pq, t);
    forall i | 0 <= i < |splits| && Count(trace + [w], i) < |splits[i]|
      ensures exists p :: 0 <= p < |next| && next[p].split == i
    {
      QueueCovers(splits, trace, pq, t, i);
    }
  }

  lemma {:induction false} QueueCursors(splits: seq<seq<SortItem>>, trace: seq<nat>, pq: seq<Element>, t: nat)
    requires QueueInv(splits, trace, pq) && t < |pq|
    ensures var w, next := pq[t].split, NextQueue(splits, pq, t);
            && (forall p :: 0 <= p < |next| ==>
                 ValidCursor(splits, next[p]) && next[p].row == Count(trace + [w], next[p].split))
            && (forall p, q :: 0 <= p < q < |next| ==> next[p].split != next[q].split)
  {
    var w, next := pq[t].split, NextQueue(splits, pq, t);
    forall p | 0 <= p < |next|
      ensures ValidCursor(splits, next[p]) && next[p].row == Count(trace + [w], next[p].split)
    {
      NextQueueAt(splits, pq, t, p);
      CountNext(trace, w, next[p].split);
    }
    forall p, q | 0 <= p < q < |next| ensures next[p].split != next[q].split {
      NextQueueAt(splits, pq, t, p);
      NextQueueAt(splits, pq, t, q);
    }
  }

  lemma {:induction false} QueueCovers(splits: seq<seq<SortItem>>, trace: seq<nat>, pq: seq<Element>, t: nat, i: nat)
    requires QueueInv(splits, trace, pq) && t < |pq|
    requires i < |splits| && Count(trace + [pq[t].split], i) < |splits[i]|
    ensures var next := NextQueue(splits, pq, t); exists p :: 0 <= p < |next| && next[p].split == i
  {
    var w, next := pq[t].split, NextQueue(splits, pq, t);
    CountNext(trace, w, i);
    if i == w {
      assert next[|next| - 1].split == i;
    } else {
      var p :| 0 <= p < |pq| && pq[p].split == i;
      NextQueueAt(splits, pq, t, if p < t then p else p - 1);
      assert next[if p < t then p else p - 1].split == i;
    }
  }

  function Remaining<T>(splits: seq<seq<T>>, trace: seq<nat>, n: nat): int
    requires n <= |splits|
  {
    if n == 0 then 0 else Remaining(splits, trace, n - 1) + |splits[n - 1]| - Count(trace, n - 1)
  }

  lemma {:induction false} RemainingStep<T>(splits: seq<seq<T>>, trace: seq<nat>, w: nat, n: nat)
    requires n <= |splits|
    ensures Remaining(splits, trace + [w], n) == Remaining(splits, trace, n) - if w < n then 1 else 0
  {
    if n > 0 {
      RemainingStep(splits, trace, w, n - 1);
      CountNext(trace, w, n - 1);
    }
  }

  lemma {:induction false} RemainingNonNegative<T>(splits: seq<seq<T>>, trace: seq<nat>, n: nat)
    requires n <= |splits| && forall i :: 0 <= i < n ==> Count(trace, i) <= |splits[i]|
    ensures Remaining(splits, trace, n) >= 0
  {
    if n > 0 { RemainingNonNegative(splits, trace, n - 1); }
  }

  // ---- The merge ----

  /** The cursors of the first n splits, before anything is read. */
  function FirstQueue(splits: seq<seq<SortItem>>, n: nat): seq<Element>
    requires n <= |splits|
  {
    if n == 0 then []
    else FirstQueue(splits, n - 1) + if splits[n - 1] != [] then [Element(n - 1, 0)] else []
  }

  ghost predicate HasCursor(pq: seq<Element>, i: nat) {
    exists p :: 0 <= p < |pq| && pq[p].split == i
  }

  /** The cursors stand at the first elements of different splits that are not empty. */
  ghost predicate FirstElements(splits: seq<seq<SortItem>>, pq: seq<Element>, n: nat) {
    && (forall p :: 0 <= p < |pq| ==> pq[p].split < n && pq[p].row == 0)
    && (forall p :: 0 <= p < |pq| ==> pq[p].split < |splits| && splits[pq[p].split] != [])
    && (forall p, q :: 0 <= p < q < |pq| ==> pq[p].split != pq[q].split)
  }

  lemma {:induction false} FirstCursors(splits: seq<seq<SortItem>>, n: nat)
    requires n <= |splits|
    ensures FirstElements(splits, FirstQueue(splits, n), n)
  {
    if n > 0 {
      FirstCursors(splits, n - 1);
      assert FirstElements(splits, FirstQueue(splits, n - 1), n);
    }
  }

  lemma {:induction false} FirstCursorOf(splits: seq<seq<SortItem>>, n: nat, i: nat)
    requires i < n <= |splits| && splits[i] != []
    ensures HasCursor(FirstQueue(splits, n), i)
    decreases n
  {
    var before, pq := FirstQueue(splits, n - 1), FirstQueue(splits, n);
    if i == n - 1 {
      assert pq[|pq| - 1].split == i;
    } else {
      FirstCursorOf(splits, n - 1, i);
      var p :| 0 <= p < |before| && before[p].split == i;
      assert pq[p] == before[p];
    }
  }

  method FillQueue(splits: seq<seq<SortItem>>) returns (pq: seq<Element>)
    ensures pq == FirstQueue(splits, |splits|) && QueueInv(splits, [], pq)
  {
    pq := [];
    for i := 0 to |splits|
      invariant pq == FirstQueue(splits, i)
    {
      if splits[i] != [] { pq := pq + [Element(i, 0)]; }
    }
    FirstQueueInv(splits);
  }

  lemma {:induction false} FirstQueueInv(splits: seq<seq<SortItem>>)
    ensures QueueInv(splits, [], FirstQueue(splits, |splits|))
  {
    FirstCursors(splits, |splits|);
    forall i | 0 <= i < |splits| && splits[i] != []
      ensures exists p :: 0 <= p < |FirstQueue(splits, |splits|)| && FirstQueue(splits, |splits|)[p].split == i
    {
      FirstCursorOf(splits, |splits|, i);
    }
  }

  ghost predicate SortedSoFar(desc: bool, splits: seq<seq<SortItem>>, trace: seq<nat>, out: seq<SortItem>,
                              u: set<SortItem>)
  {
    Coherent(desc, u) && AllSorted(desc, splits) ==> Sorted(desc, out) && Ahead(desc, splits, trace, out)
  }

  lemma {:induction false} DeliverTop(desc: bool, splits: seq<seq<SortItem>>, trace: seq<nat>, out: seq<SortItem>,
                                      pq: seq<Element>, t: nat, u: set<SortItem>)
    requires QueueInv(splits, trace, pq) && t < |pq| && AllWithin(splits, u)
    requires TakesNext(splits, trace, out) && SortedSoFar(desc, splits, trace, out, u)
    requires Coherent(desc, u) ==>
               forall p :: 0 <= p < |pq| ==> !Less(desc, ItemAt(splits, pq[p]), ItemAt(splits, pq[t]))
    ensures TakesNext(splits, trace + [pq[t].split], out + [ItemAt(splits, pq[t])])
    ensures SortedSoFar(desc, splits, trace + [pq[t].split], out + [ItemAt(splits, pq[t])], u)
    ensures 0 <= Remaining(splits, trace + [pq[t].split], |splits|) < Remaining(splits, trace, |splits|)
  {
    var w := pq[t].split;
    TakesOneMore(splits, trace, out, w);
    if Coherent(desc, u) && AllSorted(desc, splits) {
      TopIsLeast(desc, splits, trace, pq, t, u);
      DeliverLeast(desc, splits, trace, out, w);
    }
    RemainingStep(splits, trace, w, |splits|);
    QueueStep(splits, trace, pq, t);
    RemainingNonNegative(splits, trace + [w], |splits|);
  }

  method MergeItems(desc: bool, splits: seq<seq<SortItem>>, ghost u: set<SortItem>)
    returns (out: seq<SortItem>, ghost trace: seq<nat>)
    requires AllWithin(splits, u)
    ensures Interleaving(splits, trace, out)
    ensures Coherent(desc, u) && AllSorted(desc, splits) ==> Sorted(desc, out)
    ensures Coherent(desc, u) && AllSorted(desc, splits) ==>
              forall i, j :: 0 <= i < j < |out| ==> KeysInOrder(desc, out[i], out[j])
  {
    var pq := FillQueue(splits);
    out, trace := [], [];
    while pq != []
      invariant QueueInv(splits, trace, pq)
      invariant TakesNext(splits, trace, out) && SortedSoFar(desc, splits, trace, out, u)
      decreases Remaining(splits, trace, |splits|)
    {
      CursorsWithin(splits, trace, pq, u);
      var t := PickTop(desc, splits, pq, u);
      DeliverTop(desc, splits, trace, out, pq, t, u);
      QueueStep(splits, trace, pq, t);
      trace := trace + [pq[t].split];
      out := out + [ItemAt(splits, pq[t])];
      pq := NextQueue(splits, pq, t);
    }
    SortedMeans(desc, out);
  }

  lemma {:induction false} CursorsWithin(splits: seq<seq<SortItem>>, trace: seq<nat>, pq: seq<Element>,
                                         u: set<SortItem>)
    requires QueueInv(splits, trace, pq) && AllWithin(splits, u)
    ensures forall p :: 0 <= p < |pq| ==> ValidCursor(splits, pq[p]) && ItemAt(splits, pq[p]) in u
  {
    forall p | 0 <= p < |pq| ensures ItemAt(splits, pq[p]) in u { assert Within(splits[pq[p].split], u); }
  }

  // ---- A merge is always possible ----

  /** Every queue has a top as PickTop promises it. */
  lemma {:induction false} TopExists(desc: bool, splits: seq<seq<SortItem>>, pq: seq<Element>, n: nat, u: set<SortItem>)
    returns (t: nat)
    requires 0 < n <= |pq| && forall p :: 0 <= p < |pq| ==> ValidCursor(splits, pq[p]) && ItemAt(splits, pq[p]) in u
    ensures t < n
    ensures Coherent(desc, u) ==>
              forall p :: 0 <= p < n ==> !Less(desc, ItemAt(splits, pq[p]), ItemAt(splits, pq[t]))
  {
    if n == 1 {
      t := 0;
      LessAsymmetric(desc, ItemAt(splits, pq[0]), ItemAt(splits, pq[0]));
    } else {
      t := TopExists(desc, splits, pq, n - 1, u);
      var best, x := ItemAt(splits, pq[t]), ItemAt(splits, pq[n - 1]);
      LessAsymmetric(desc, x, best);
      if Less(desc, x, best) { t := n - 1; }
    }
  }

  lemma {:induction false} MergeGoesOn(desc: bool, splits: seq<seq<SortItem>>, trace: seq<nat>, out: seq<SortItem>,
                                       pq: seq<Element>, u: set<SortItem>) returns (t: seq<nat>, o: seq<SortItem>)
    requires QueueInv(splits, trace, pq) && AllWithin(splits, u)
    requires TakesNext(splits, trace, out) && SortedSoFar(desc, splits, trace, out, u)
    ensures Interleaving(splits, t, o)
    ensures Coherent(desc, u) && AllSorted(desc, splits) ==> Sorted(desc, o)
    decreases Remaining(splits, trace, |splits|)
  {
    if pq == [] {
      t, o := trace, out;
    } else {
      CursorsWithin(splits, trace, pq, u);
      var top := TopExists(desc, splits, pq, |pq|, u);
      DeliverTop(desc, splits, trace, out, pq, top, u);
      QueueStep(splits, trace, pq, top);
      t, o := MergeGoesOn(desc, splits, trace + [pq[top].split], out + [ItemAt(splits, pq[top])],
                          NextQueue(splits, pq, top), u);
    }
  }

  /** Any splits have an interleaving, and a sorted one if they are sorted by a strict weak order. */
  lemma {:induction false} MergeExists(desc: bool, splits: seq<seq<SortItem>>, u: set<SortItem>)
    returns (trace: seq<nat>, out: seq<SortItem>)
    requires AllWithin(splits, u)
    ensures Interleaving(splits, trace, out)
    ensures Coherent(desc, u) && AllSorted(desc, splits) ==> Sorted(desc, out)
  {
    FirstQueueInv(splits);
    trace, out := MergeGoesOn(desc, splits, [], [], FirstQueue(splits, |splits|), u);
  }
}
