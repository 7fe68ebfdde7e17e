/** The sort key of a row, its comparator, and stable sorting. */
module Sorting {
  import opened Wrappers
  import opened Rows
  import opened Evaluator

  datatype SortItem = SortItem(num: real, str: string, isNum: bool, row: Row)

  /** The key is computed once per row; a missing column reads as "". */
  function MakeItem(lib: Library, field: string, row: Row): SortItem {
    var val := TextOf(row, field);
    var num := TryParseDouble(lib, val);
    SortItem(if num.Some? then num.value else 0.0, val, num.Some?, row)
  }

  /** Numbers when both are numbers, texts otherwise. */
  predicate Less(desc: bool, a: SortItem, b: SortItem) {
    if a.isNum && b.isNum then (if desc then a.num > b.num else a.num < b.num)
    else if desc then StrLess(b.str, a.str) else StrLess(a.str, b.str)
  }

  predicate Equivalent(desc: bool, a: SortItem, b: SortItem) {
    !Less(desc, a, b) && !Less(desc, b, a)
  }

  /** Nothing is less than something before it. */
  ghost predicate Sorted(desc: bool, s: seq<SortItem>) {
    forall i, j :: 0 <= i < j < |s| ==> !Less(desc, s[j], s[i])
  }

  /** What that means for two keys, the first of which comes earlier: two numbers do not go down, or
      for DESC not up, and neither do their texts when one of them is no number. */
  predicate KeysInOrder(desc: bool, a: SortItem, b: SortItem) {
    if a.isNum && b.isNum then (if desc then a.num >= b.num else a.num <= b.num)
    else a.str == b.str || (if desc then StrLess(b.str, a.str) else StrLess(a.str, b.str))
  }

  lemma {:induction false} SortedMeans(desc: bool, s: seq<SortItem>)
    ensures Sorted(desc, s) <==> forall i, j :: 0 <= i < j < |s| ==> KeysInOrder(desc, s[i], s[j])
  {
    forall i, j | 0 <= i < j < |s| ensures Less(desc, s[j], s[i]) <==> !KeysInOrder(desc, s[i], s[j]) {
      StrLessTotal(s[i].str, s[j].str);
      StrLessIrreflexive(s[i].str);
    }
  }

  /** The comparator is a strict weak order on these items. (It is irreflexive and asymmetric on
      any items; this is the remaining law.) */
  ghost predicate Coherent(desc: bool, u: set<SortItem>) {
    forall a, b, c :: a in u && b in u && c in u && Less(desc, a, c) ==> Less(desc, a, b) || Less(desc, b, c)
  }

  ghost function Members(s: seq<SortItem>): set<SortItem> {
    set x | x in s
  }

  ghost predicate Within(s: seq<SortItem>, u: set<SortItem>) {
    forall k :: 0 <= k < |s| ==> s[k] in u
  }

  /** All keys are numbers, or none is. */
  ghost predicate Homogeneous(u: set<SortItem>) {
    (forall a :: a in u ==> a.isNum) || (forall a :: a in u ==> !a.isNum)
  }

  lemma {:induction false} LessAsymmetric(desc: bool, a: SortItem, b: SortItem)
    ensures !(Less(desc, a, b) && Less(desc, b, a))
    ensures !Less(desc, a, a)
  {
    StrLessTotal(a.str, b.str);
    StrLessIrreflexive(a.str);
  }

  lemma {:induction false} StrLessNegative(a: string, b: string, c: string)
    requires StrLess(a, c)
    ensures StrLess(a, b) || StrLess(b, c)
  {
    StrLessTotal(a, b);
    if StrLess(b, a) { StrLessTransitive(b, a, c); }
  }

  /** The text of every item decides its number, as MakeItem has it. */
  ghost predicate KeyedBy(lib: Library, u: set<SortItem>) {
    forall a :: a in u ==> Keyed(lib, a)
  }

  ghost predicate Keyed(lib: Library, a: SortItem) {
    var num := TryParseDouble(lib, a.str);
    a.isNum == num.Some? && (a.isNum ==> a.num == num.value)
  }

  /** z is no number, and its text lies between those of the numbers x and y. */
  predicate Between(x: SortItem, z: SortItem, y: SortItem) {
    x.isNum && !z.isNum && y.isNum && StrLess(x.str, z.str) && StrLess(z.str, y.str)
  }

  /** Two numbers with a text that is no number between their texts are in the order of their
      texts. */
  ghost predicate TextsFollowNumbers(u: set<SortItem>) {
    forall x, y, z :: x in u && y in u && z in u && Between(x, z, y) ==> x.num < y.num
  }

  lemma {:induction false} CoherentBetween(desc: bool, u: set<SortItem>, x: SortItem, y: SortItem, z: SortItem)
    requires Coherent(desc, u) && x in u && y in u && z in u && Between(x, z, y)
    ensures x.num < y.num
  {
    StrLessTotal(x.str, z.str);
    StrLessTotal(z.str, y.str);
    assert if desc then Less(desc, z, x) && !Less(desc, z, y) else Less(desc, x, z) && !Less(desc, y, z);
  }

  lemma {:induction false} CoherentWhere(lib: Library, desc: bool, u: set<SortItem>, a: SortItem, b: SortItem,
                                         c: SortItem)
    requires KeyedBy(lib, u) && TextsFollowNumbers(u) && a in u && b in u && c in u && Less(desc, a, c)
    ensures Less(desc, a, b) || Less(desc, b, c)
  {
    var lo, hi := if desc then c else a, if desc then a else c;
    assert Keyed(lib, a) && Keyed(lib, b) && Keyed(lib, c);
    StrLessTotal(lo.str, b.str);
    StrLessTotal(b.str, hi.str);
    if a.isNum && c.isNum && !b.isNum {
      assert !Between(hi, b, lo);
    } else if !(a.isNum && c.isNum) {
      StrLessNegative(lo.str, b.str, hi.str);
    }
  }

  /** When the comparator is a strict weak order, for either direction: exactly on the columns in
      which every text that is no number stands on the right side of the numbers. */
  lemma {:induction false} CoherentIff(lib: Library, desc: bool, u: set<SortItem>)
    requires KeyedBy(lib, u)
    ensures Coherent(desc, u) <==> TextsFollowNumbers(u)
  {
    if Coherent(desc, u) {
      forall x, y, z | x in u && y in u && z in u && Between(x, z, y)
        ensures x.num < y.num
      {
        CoherentBetween(desc, u, x, y, z);
      }
    }
    if TextsFollowNumbers(u) {
      forall a, b, c | a in u && b in u && c in u && Less(desc, a, c) ensures Less(desc, a, b) || Less(desc, b, c) {
        CoherentWhere(lib, desc, u, a, b, c);
      }
    }
  }

  /** In particular on keys that are all numbers, or of which none is. */
  lemma {:induction false} HomogeneousIsCoherent(desc: bool, u: set<SortItem>)
    requires Homogeneous(u)
    ensures TextsFollowNumbers(u) && Coherent(desc, u)
  {
    forall a, b, c | a in u && b in u && c in u && Less(desc, a, c)
      ensures Less(desc, a, b) || Less(desc, b, c)
    {
      if !a.isNum {
        if desc { StrLessNegative(c.str, b.str, a.str); } else { StrLessNegative(a.str, b.str, c.str); }
      }
    }
  }

  /** On a mixed column the comparator can go round in a circle: "9" < "10" < "5x" < "9". */
  lemma {:induction false} MixedKeysGoRound(lib: Library, field: string)
    requires lib.parse("9") == Some(9.0) && lib.parse("10") == Some(10.0) && lib.parse("5x") == None
    ensures var a, b, c := MakeItem(lib, field, [(field, "9")]), MakeItem(lib, field, [(field, "10")]),
                           MakeItem(lib, field, [(field, "5x")]);
            Less(false, a, b) && Less(false, b, c) && Less(false, c, a) && !Coherent(false, {a, b, c})
  {
    var a, b, c := MakeItem(lib, field, [(field, "9")]), MakeItem(lib, field, [(field, "10")]),
                   MakeItem(lib, field, [(field, "5x")]);
    assert StrLess("10", "5x") && StrLess("5x", "9");
    var u := {a, b, c};
    assert a in u && b in u && c in u;
    assert Less(false, b, c) && !Less(false, b, a) && !Less(false, a, c) by {
      LessAsymmetric(false, a, b);
      LessAsymmetric(false, a, c);
    }
  }

  // ---- Stable sorting ----

  /** Stands in for std::stable_sort: each item goes before the first that is not less than it. */
  function Insert(desc: bool, x: SortItem, s: seq<SortItem>): seq<SortItem> {
    if s != [] && Less(desc, s[0], x) then [s[0]] + Insert(desc, x, s[1..]) else [x] + s
  }

  function StableSort(desc: bool, s: seq<SortItem>): seq<SortItem> {
    if s == [] then [] else Insert(desc, s[0], StableSort(desc, s[1..]))
  }

  /** The items of s that compare equal to x, in order. */
  function Ties(desc: bool, s: seq<SortItem>, x: SortItem): seq<SortItem> {
    if s == [] then []
    else (if Equivalent(desc, s[0], x) then [s[0]] else []) + Ties(desc, s[1..], x)
  }

  /** The same items, in order, with ties in their original order. */
  ghost predicate StablySorted(desc: bool, s: seq<SortItem>, r: seq<SortItem>) {
    && multiset(r) == multiset(s)
    && Sorted(desc, r)
    && (forall x :: x in s ==> Ties(desc, r, x) == Ties(desc, s, x))
  }

  lemma {:induction false} InsertPermutes(desc: bool, x: SortItem, s: seq<SortItem>)
    ensures multiset(Insert(desc, x, s)) == multiset{x} + multiset(s)
  {
    if s != [] && Less(desc, s[0], x) {
      InsertPermutes(desc, x, s[1..]);
      assert s == [s[0]] + s[1..];
    }
  }

  lemma {:induction false} StableSortPermutes(desc: bool, s: seq<SortItem>)
    ensures multiset(StableSort(desc, s)) == multiset(s)
  {
    if s != [] {
      StableSortPermutes(desc, s[1..]);
      InsertPermutes(desc, s[0], StableSort(desc, s[1..]));
      assert s == [s[0]] + s[1..];
    }
  }

  lemma {:induction false} MembersOf(a: seq<SortItem>, b: seq<SortItem>)
    requires multiset(a) == multiset(b)
    ensures |a| == |b| && forall x :: x in a <==> x in b
  {
    assert |multiset(a)| == |a| && |multiset(b)| == |b|;
    forall x ensures x in a <==> x in b { assert x in multiset(a) <==> x in multiset(b); }
  }

  lemma {:induction false} PermutationWithin(a: seq<SortItem>, b: seq<SortItem>, u: set<SortItem>)
    requires multiset(a) == multiset(b) && Within(a, u)
    ensures Within(b, u)
  {
    MembersOf(a, b);
    forall k | 0 <= k < |b| ensures b[k] in u { assert b[k] in a; }
  }

  /** What the first of a sorted sequence is not less than, nothing in it is less than. */
  lemma {:induction false} BeforeAll(desc: bool, x: SortItem, s: seq<SortItem>, u: set<SortItem>)
    requires Coherent(desc, u) && Within(s, u) && x in u
    requires Sorted(desc, s) && s != [] && !Less(desc, s[0], x)
    ensures forall k :: 0 <= k < |s| ==> !Less(desc, s[k], x)
  {
    forall k | 0 <= k < |s| ensures !Less(desc, s[k], x) {
      assert s[k] in u && s[0] in u;
      if k > 0 { assert !Less(desc, s[k], s[0]); }
    }
  }

  lemma {:induction false} SortedCons(desc: bool, x: SortItem, s: seq<SortItem>)
    requires Sorted(desc, s) && forall y :: y in s ==> !Less(desc, y, x)
    ensures Sorted(desc, [x] + s)
  {
    var r := [x] + s;
    forall i, j | 0 <= i < j < |r| ensures !Less(desc, r[j], r[i]) {
      assert r[j] == s[j - 1] && s[j - 1] in s;
    }
  }

  lemma {:induction false} InsertSorted(desc: bool, x: SortItem, s: seq<SortItem>, u: set<SortItem>)
    requires Coherent(desc, u) && Within(s, u) && x in u && Sorted(desc, s)
    ensures Sorted(desc, Insert(desc, x, s))
  {
    if s == [] {
    } else if Less(desc, s[0], x) {
      var rest := Insert(desc, x, s[1..]);
      InsertSorted(desc, x, s[1..], u);
      InsertPermutes(desc, x, s[1..]);
      LessAsymmetric(desc, s[0], x);
      forall y | y in rest ensures !Less(desc, y, s[0]) {
        assert y in multiset(rest);
        if y != x { assert y in s[1..]; }
      }
      SortedCons(desc, s[0], rest);
    } else {
      BeforeAll(desc, x, s, u);
      SortedCons(desc, x, s);
    }
  }

  lemma {:induction false} StableSortSorted(desc: bool, s: seq<SortItem>, u: set<SortItem>)
    requires Coherent(desc, u) && Within(s, u)
    ensures Sorted(desc, StableSort(desc, s))
  {
    if s != [] {
      StableSortSorted(desc, s[1..], u);
      StableSortPermutes(desc, s[1..]);
      PermutationWithin(s[1..], StableSort(desc, s[1..]), u);
      InsertSorted(desc, s[0], StableSort(desc, s[1..]), u);
    }
  }

  /** Inserting x does not reorder the ties of any y: what x is moved past is less than x. */
  lemma {:induction false} InsertTies(desc: bool, x: SortItem, s: seq<SortItem>, y: SortItem, u: set<SortItem>)
    requires Coherent(desc, u) && Within(s, u) && x in u && y in u
    ensures Ties(desc, Insert(desc, x, s), y) == (if Equivalent(desc, x, y) then [x] else []) + Ties(desc, s, y)
  {
    if s != [] && Less(desc, s[0], x) {
      InsertTies(desc, x, s[1..], y, u);
      assert Insert(desc, x, s)[1..] == Insert(desc, x, s[1..]);
      assert !(Equivalent(desc, x, y) && Equivalent(desc, s[0], y));
    } else {
      assert Insert(desc, x, s)[1..] == s;
    }
  }

  lemma {:induction false} StableSortTies(desc: bool, s: seq<SortItem>, y: SortItem, u: set<SortItem>)
    requires Coherent(desc, u) && Within(s, u) && y in u
    ensures Ties(desc, StableSort(desc, s), y) == Ties(desc, s, y)
  {
    if s != [] {
      var rest := StableSort(desc, s[1..]);
      StableSortTies(desc, s[1..], y, u);
      StableSortPermutes(desc, s[1..]);
      PermutationWithin(s[1..], rest, u);
      InsertTies(desc, s[0], rest, y, u);
    }
  }

  lemma {:induction false} StableSortIsStable(desc: bool, s: seq<SortItem>)
    requires Coherent(desc, Members(s))
    ensures StablySorted(desc, s, StableSort(desc, s))
  {
    StableSortPermutes(desc, s);
    StableSortSorted(desc, s, Members(s));
    forall y | y in s ensures Ties(desc, StableSort(desc, s), y) == Ties(desc, s, y) {
      StableSortTies(desc, s, y, Members(s));
    }
  }

  /** The first items of two sorted arrangements with the same ties are the same. */
  lemma {:induction false} SameFirst(desc: bool, a: seq<SortItem>, b: seq<SortItem>)
    requires a != [] && multiset(a) == multiset(b)
    requires Sorted(desc, a) && Sorted(desc, b)
    requires Ties(desc, a, a[0]) == Ties(desc, b, a[0])
    ensures b != [] && a[0] == b[0]
  {
    MembersOf(a, b);
    assert a[0] in b && b[0] in a;
    LessAsymmetric(desc, a[0], a[0]);
    LessAsymmetric(desc, b[0], b[0]);
    assert Equivalent(desc, b[0], a[0]);
    assert Ties(desc, a, a[0])[0] == a[0] && Ties(desc, b, a[0])[0] == b[0];
  }

  lemma {:induction false} TiesTail(desc: bool, a: seq<SortItem>, b: seq<SortItem>, x: SortItem)
    requires a != [] && b != [] && a[0] == b[0] && Ties(desc, a, x) == Ties(desc, b, x)
    ensures Ties(desc, a[1..], x) == Ties(desc, b[1..], x)
  {
    var n := if Equivalent(desc, a[0], x) then 1 else 0;
    assert Ties(desc, a, x)[n..] == Ties(desc, a[1..], x);
    assert Ties(desc, b, x)[n..] == Ties(desc, b[1..], x);
  }

  /** There is only one stable sort, so any correct algorithm gives this one. */
  lemma {:induction false} StableSortUnique(desc: bool, a: seq<SortItem>, b: seq<SortItem>)
    requires multiset(a) == multiset(b) && Sorted(desc, a) && Sorted(desc, b)
    requires forall x :: x in a ==> Ties(desc, a, x) == Ties(desc, b, x)
    ensures a == b
  {
    MembersOf(a, b);
    if a != [] {
      SameFirst(desc, a, b);
      TailPermutes(a, b);
      forall x | x in a[1..] ensures Ties(desc, a[1..], x) == Ties(desc, b[1..], x) {
        assert x in a;
        TiesTail(desc, a, b, x);
      }
      StableSortUnique(desc, a[1..], b[1..]);
      assert a == [a[0]] + a[1..] && b == [b[0]] + b[1..];
    }
  }

  lemma {:induction false} TailPermutes(a: seq<SortItem>, b: seq<SortItem>)
    requires a != [] && b != [] && a[0] == b[0] && multiset(a) == multiset(b)
    ensures multiset(a[1..]) == multiset(b[1..])
  {
    TailBag(a);
    TailBag(b);
  }

  lemma {:induction false} StablySortedIsStableSort(desc: bool, s: seq<SortItem>, r: seq<SortItem>)
    requires Coherent(desc, Members(s)) && StablySorted(desc, s, r)
    ensures r == StableSort(desc, s)
  {
    StableSortIsStable(desc, s);
    MembersOf(r, s);
    MembersOf(StableSort(desc, s), s);
    StableSortUnique(desc, StableSort(desc, s), r);
  }

  // ---- Two sorted arrangements of the same items ----

  /** How many items are not above y. */
  function NotAbove(desc: bool, s: seq<SortItem>, y: SortItem): nat {
    if s == [] then 0 else (if Less(desc, y, s[0]) then 0 else 1) + NotAbove(desc, s[1..], y)
  }

  lemma {:induction false} NotAboveConcat(desc: bool, a: seq<SortItem>, b: seq<SortItem>, y: SortItem)
    ensures NotAbove(desc, a + b, y) == NotAbove(desc, a, y) + NotAbove(desc, b, y)
  {
    if a == [] {
      assert a + b == b;
    } else {
      assert (a + b)[1..] == a[1..] + b;
      NotAboveConcat(desc, a[1..], b, y);
    }
  }

  lemma {:induction false} NotAboveWithout(desc: bool, b: seq<SortItem>, j: nat, y: SortItem)
    requires j < |b|
    ensures NotAbove(desc, b, y) == (if Less(desc, y, b[j]) then 0 else 1) + NotAbove(desc, b[..j] + b[j + 1..], y)
    ensures multiset(b[..j] + b[j + 1..]) == multiset(b) - multiset{b[j]}
  {
    assert b == b[..j] + b[j..] && b[j..][1..] == b[j + 1..];
    NotAboveConcat(desc, b[..j], b[j..], y);
    NotAboveConcat(desc, b[..j], b[j + 1..], y);
    assert b[j..] == [b[j]] + b[j + 1..];
    assert multiset(b) == multiset(b[..j]) + multiset{b[j]} + multiset(b[j + 1..]);
  }

  lemma {:induction false} NotAbovePermutes(desc: bool, a: seq<SortItem>, b: seq<SortItem>, y: SortItem)
    requires multiset(a) == multiset(b)
    ensures NotAbove(desc, a, y) == NotAbove(desc, b, y)
    decreases |a|
  {
    MembersOf(a, b);
    if a != [] {
      var j := IndexOf(b, a[0]);
      var rest := b[..j] + b[j + 1..];
      NotAboveWithout(desc, b, j, y);
      TailBag(a);
      NotAbovePermutes(desc, a[1..], rest, y);
    }
  }

  lemma {:induction false} IndexOf(s: seq<SortItem>, x: SortItem) returns (j: nat)
    requires x in s
    ensures j < |s| && s[j] == x
  {
    j :| 0 <= j < |s| && s[j] == x;
  }

  lemma {:induction false} TailBag(a: seq<SortItem>)
    requires a != []
    ensures multiset(a[1..]) == multiset(a) - multiset{a[0]}
  {
    assert a == [a[0]] + a[1..];
  }

  lemma {:induction false} NotAboveBounds(desc: bool, s: seq<SortItem>, y: SortItem)
    ensures NotAbove(desc, s, y) <= |s|
    ensures (forall k :: 0 <= k < |s| ==> !Less(desc, y, s[k])) ==> NotAbove(desc, s, y) == |s|
    ensures (forall k :: 0 <= k < |s| ==> Less(desc, y, s[k])) ==> NotAbove(desc, s, y) == 0
  {
    if s != [] {
      NotAboveBounds(desc, s[1..], y);
      assert forall k :: 0 <= k < |s[1..]| ==> s[1..][k] == s[k + 1];
    }
  }

  /** Split at k: everything up to a[k] is not above it; nothing from b[k] on would be. */
  lemma {:induction false} SortedNotBelow(desc: bool, a: seq<SortItem>, b: seq<SortItem>, k: nat)
    requires multiset(a) == multiset(b) && Coherent(desc, Members(a))
    requires Sorted(desc, a) && Sorted(desc, b) && k < |a| && k < |b|
    ensures !Less(desc, a[k], b[k])
  {
    if Less(desc, a[k], b[k]) {
      AtLeast(desc, a, k);
      PermutationWithin(a, b, Members(a));
      AtMost(desc, b, a[k], k, Members(a));
      NotAbovePermutes(desc, a, b, a[k]);
    }
  }

  lemma {:induction false} AtLeast(desc: bool, a: seq<SortItem>, k: nat)
    requires Sorted(desc, a) && k < |a|
    ensures NotAbove(desc, a, a[k]) > k
  {
    LessAsymmetric(desc, a[k], a[k]);
    NotAboveBounds(desc, a[..k + 1], a[k]);
    NotAboveConcat(desc, a[..k + 1], a[k + 1..], a[k]);
    assert a == a[..k + 1] + a[k + 1..];
  }

  lemma {:induction false} AtMost(desc: bool, b: seq<SortItem>, y: SortItem, k: nat, u: set<SortItem>)
    requires Coherent(desc, u) && Within(b, u) && y in u
    requires Sorted(desc, b) && k < |b| && Less(desc, y, b[k])
    ensures NotAbove(desc, b, y) <= k
  {
    var tail := b[k..];
    forall i | 0 <= i < |tail| ensures Less(desc, y, tail[i]) {
      LessAsymmetric(desc, b[k], b[k]);
      assert tail[i] == b[k + i] && !Less(desc, b[k + i], b[k]);
      assert b[k + i] in u && b[k] in u;
    }
    NotAboveBounds(desc, tail, y);
    NotAboveBounds(desc, b[..k], y);
    NotAboveConcat(desc, b[..k], tail, y);
    assert b == b[..k] + tail;
  }

  /** They can differ only among ties: at every index the two items compare equal. */
  lemma {:induction false} SortedAgree(desc: bool, a: seq<SortItem>, b: seq<SortItem>)
    requires multiset(a) == multiset(b) && Coherent(desc, Members(a))
    requires Sorted(desc, a) && Sorted(desc, b)
    ensures |a| == |b| && forall k :: 0 <= k < |a| ==> Equivalent(desc, a[k], b[k])
  {
    MembersOf(a, b);
    assert Members(a) == Members(b);
    forall k | 0 <= k < |a| ensures Equivalent(desc, a[k], b[k]) {
      SortedNotBelow(desc, a, b, k);
      SortedNotBelow(desc, b, a, k);
    }
  }
}
