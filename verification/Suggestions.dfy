/** Typo suggestions: the edit-distance table and the choice of a field to suggest. */
module Suggestions {

  function Min3(a: nat, b: nat, c: nat): nat {
    if a <= b && a <= c then a else if b <= c then b else c
  }

  function Init(s: string): string
    requires s != ""
  {
    s[..|s| - 1]
  }

  function Last(s: string): char
    requires s != ""
  {
    s[|s| - 1]
  }

  function Cost(a: char, b: char): nat {
    if a == b then 0 else 1
  }

  /** The recurrence the table tabulates. */
  function Dist(a: string, b: string): nat
    decreases |a| + |b|
  {
    if a == "" then |b|
    else if b == "" then |a|
    else Min3(Dist(Init(a), b) + 1, Dist(a, Init(b)) + 1, Dist(Init(a), Init(b)) + Cost(Last(a), Last(b)))
  }

  /** The entry of the table at (i, j): the distance of two prefixes. */
  ghost function At(s1: string, s2: string, i: nat, j: nat): nat
    requires i <= |s1| && j <= |s2|
  {
    Dist(s1[..i], s2[..j])
  }

  lemma {:induction false} TableRecurrence(s1: string, s2: string, i: nat, j: nat)
    requires 0 < i <= |s1| && 0 < j <= |s2|
    ensures At(s1, s2, i, j) ==
            Min3(At(s1, s2, i - 1, j) + 1, At(s1, s2, i, j - 1) + 1,
                 At(s1, s2, i - 1, j - 1) + Cost(s1[i - 1], s2[j - 1]))
  {
    assert Init(s1[..i]) == s1[..i - 1] && Init(s2[..j]) == s2[..j - 1];
  }

  /** The entries of row m up to column n are right. */
  ghost predicate RowDone(d: array2<nat>, s1: string, s2: string, m: nat, n: nat)
    requires d.Length0 == |s1| + 1 && d.Length1 == |s2| + 1 && m <= |s1| && n <= |s2|
    reads d
  {
    forall k {:trigger d[m, k]} :: 0 <= k <= n ==> d[m, k] == At(s1, s2, m, k)
  }

  /** Fills the (|s1|+1) by (|s2|+1) table row by row. */
  method LevenshteinDistance(s1: string, s2: string) returns (r: nat)
    ensures r == Dist(s1, s2)
  {
    var len1, len2 := |s1|, |s2|;
    var d := new nat[len1 + 1, len2 + 1];
    for i := 0 to len1 + 1
      invariant forall k :: 0 <= k < i ==> d[k, 0] == k
    {
      d[i, 0] := i;
    }
    for j := 0 to len2 + 1
      invariant forall k :: 0 <= k <= len1 ==> d[k, 0] == k
      invariant forall k :: 0 <= k < j ==> d[0, k] == k
    {
      d[0, j] := j;
    }
    for i := 1 to len1 + 1
      invariant forall k :: i <= k <= len1 ==> d[k, 0] == k
      invariant forall m :: 0 <= m < i ==> RowDone(d, s1, s2, m, len2)
    {
      for j := 1 to len2 + 1
        invariant forall k :: i < k <= len1 ==> d[k, 0] == k
        invariant forall m :: 0 <= m < i ==> RowDone(d, s1, s2, m, len2)
        invariant RowDone(d, s1, s2, i, j - 1)
      {
        var cost := if s1[i - 1] == s2[j - 1] then 0 else 1;
        assert RowDone(d, s1, s2, i - 1, len2);
        TableRecurrence(s1, s2, i, j);
        label before:
        d[i, j] := Min3(d[i - 1, j] + 1, d[i, j - 1] + 1, d[i - 1, j - 1] + cost);
        forall m | 0 <= m < i ensures RowDone(d, s1, s2, m, len2) {
          assert old@before(RowDone(d, s1, s2, m, len2));
        }
      }
    }
    assert RowDone(d, s1, s2, len1, len2);
    assert s1[..len1] == s1 && s2[..len2] == s2;
    r := d[len1, len2];
  }

  // ---- The distance is a metric ----

  lemma {:induction false} DistSelf(a: string)
    ensures Dist(a, a) == 0
  {
    if a != "" { DistSelf(Init(a)); }
  }

  lemma {:induction false} DistZero(a: string, b: string)
    ensures Dist(a, b) == 0 <==> a == b
    decreases |a| + |b|
  {
    if a == b {
      DistSelf(a);
    } else if a != "" && b != "" {
      DistZero(Init(a), Init(b));
      assert a == Init(a) + [Last(a)] && b == Init(b) + [Last(b)];
    }
  }

  lemma {:induction false} DistSymmetric(a: string, b: string)
    ensures Dist(a, b) == Dist(b, a)
    decreases |a| + |b|
  {
    if a != "" && b != "" {
      DistSymmetric(Init(a), b);
      DistSymmetric(a, Init(b));
      DistSymmetric(Init(a), Init(b));
    }
  }

  lemma {:induction false} DistBounds(a: string, b: string)
    ensures |a| <= |b| + Dist(a, b) && |b| <= |a| + Dist(a, b) && Dist(a, b) <= |a| + |b|
    decreases |a| + |b|
  {
    if a != "" && b != "" {
      DistBounds(Init(a), b);
      DistBounds(a, Init(b));
      DistBounds(Init(a), Init(b));
    }
  }

  lemma {:induction false} Triangle(a: string, b: string, c: string)
    ensures Dist(a, c) <= Dist(a, b) + Dist(b, c)
    decreases |a| + |b| + |c|
  {
    if a == "" || b == "" || c == "" {
      DistBounds(a, b);
      DistBounds(b, c);
      DistBounds(a, c);
    } else if Dist(a, b) == Dist(Init(a), b) + 1 {
      Triangle(Init(a), b, c);
    } else if Dist(b, c) == Dist(b, Init(c)) + 1 {
      Triangle(a, b, Init(c));
    } else if Dist(a, b) == Dist(a, Init(b)) + 1 {
      if Dist(b, c) == Dist(Init(b), c) + 1 {
        Triangle(a, Init(b), c);
      } else {
        Triangle(a, Init(b), Init(c));
      }
    } else if Dist(b, c) == Dist(Init(b), c) + 1 {
      Triangle(Init(a), Init(b), c);
    } else {
      Triangle(Init(a), Init(b), Init(c));
    }
  }

  // ---- The distance is the length of a shortest edit script ----

  ghost predicate Inserts(x: string, y: string, i: nat) {
    i <= |x| && |y| == |x| + 1 && y == x[..i] + [y[i]] + x[i..]
  }

  ghost predicate Replaces(x: string, y: string, i: nat) {
    i < |x| == |y| && y == x[i := y[i]]
  }

  /** One insertion, deletion or replacement of a character, anywhere. */
  ghost predicate OneEdit(x: string, y: string) {
    exists i: nat :: Inserts(x, y, i) || Inserts(y, x, i) || Replaces(x, y, i)
  }

  /** A script is the list of strings an edit at a time passes through. */
  ghost predicate IsScript(script: seq<string>, a: string, b: string) {
    && script != [] && script[0] == a && script[|script| - 1] == b
    && forall k :: 0 < k < |script| ==> OneEdit(script[k - 1], script[k])
  }

  lemma {:induction false} InsertsDist(x: string, y: string, i: nat)
    requires Inserts(x, y, i)
    ensures Dist(x, y) <= 1
  {
    if i == |x| {
      assert Init(y) == x;
      DistSelf(x);
    } else {
      assert Last(x) == Last(y);
      assert Init(y) == Init(x)[..i] + [y[i]] + Init(x)[i..];
      InsertsDist(Init(x), Init(y), i);
    }
  }

  lemma {:induction false} ReplacesDist(x: string, y: string, i: nat)
    requires Replaces(x, y, i)
    ensures Dist(x, y) <= 1
  {
    if i == |x| - 1 {
      assert Init(x) == Init(y);
      DistSelf(Init(x));
    } else {
      assert Last(x) == Last(y);
      assert Init(y) == Init(x)[i := Init(y)[i]];
      ReplacesDist(Init(x), Init(y), i);
    }
  }

  lemma {:induction false} OneEditDist(x: string, y: string)
    requires OneEdit(x, y)
    ensures Dist(x, y) <= 1
  {
    var i: nat :| Inserts(x, y, i) || Inserts(y, x, i) || Replaces(x, y, i);
    if Inserts(x, y, i) {
      InsertsDist(x, y, i);
    } else if Inserts(y, x, i) {
      InsertsDist(y, x, i);
      DistSymmetric(x, y);
    } else {
      ReplacesDist(x, y, i);
    }
  }

  /** No script is shorter than the distance. */
  lemma {:induction false} ScriptAtLeastDist(script: seq<string>, a: string, b: string)
    requires IsScript(script, a, b)
    ensures |script| - 1 >= Dist(a, b)
    decreases |script|
  {
    if |script| == 1 {
      DistSelf(a);
    } else {
      var n := |script| - 1;
      ScriptAtLeastDist(script[..n], a, script[n - 1]);
      OneEditDist(script[n - 1], b);
      Triangle(a, script[n - 1], b);
    }
  }

  function Extend(script: seq<string>, c: char): (r: seq<string>)
    ensures |r| == |script| && forall k :: 0 <= k < |r| ==> r[k] == script[k] + [c]
  {
    seq(|script|, k requires 0 <= k < |script| => script[k] + [c])
  }

  lemma {:induction false} ExtendKeepsScript(script: seq<string>, a: string, b: string, c: char)
    requires IsScript(script, a, b)
    ensures IsScript(Extend(script, c), a + [c], b + [c])
  {
    var r := Extend(script, c);
    forall k | 0 < k < |r| ensures OneEdit(r[k - 1], r[k]) {
      var x, y := script[k - 1], script[k];
      var i: nat :| Inserts(x, y, i) || Inserts(y, x, i) || Replaces(x, y, i);
      assert Inserts(x, y, i) ==> Inserts(r[k - 1], r[k], i) by {
        if Inserts(x, y, i) { assert y + [c] == (x + [c])[..i] + [(y + [c])[i]] + (x + [c])[i..]; }
      }
      assert Inserts(y, x, i) ==> Inserts(r[k], r[k - 1], i) by {
        if Inserts(y, x, i) { assert x + [c] == (y + [c])[..i] + [(x + [c])[i]] + (y + [c])[i..]; }
      }
      assert Replaces(x, y, i) ==> Replaces(r[k - 1], r[k], i) by {
        if Replaces(x, y, i) { assert y + [c] == (x + [c])[i := (y + [c])[i]]; }
      }
    }
  }

  /** How a shortest script ends: by dropping the last character of a, by adding the last
      character of b, or by pairing the two. */
  datatype Ending = Nothing | DropLast | AddLast | PairLast

  lemma {:induction false} DistEnding(a: string, b: string) returns (e: Ending)
    ensures match e
            case Nothing => a == b == "" && Dist(a, b) == 0
            case DropLast => a != "" && Dist(a, b) == Dist(Init(a), b) + 1
            case AddLast => b != "" && Dist(a, b) == Dist(a, Init(b)) + 1
            case PairLast => a != "" && b != "" && Dist(a, b) == Dist(Init(a), Init(b)) + Cost(Last(a), Last(b))
  {
    if a == "" {
      e := if b == "" then Nothing else AddLast;
    } else if b == "" || Dist(a, b) == Dist(Init(a), b) + 1 {
      e := DropLast;
    } else {
      e := if Dist(a, b) == Dist(a, Init(b)) + 1 then AddLast else PairLast;
    }
  }

  /** Some script is as short as the distance. */
  lemma {:induction false} ShortestScript(a: string, b: string) returns (script: seq<string>)
    ensures IsScript(script, a, b) && |script| - 1 == Dist(a, b)
    decreases |a| + |b|
  {
    var e := DistEnding(a, b);
    match e
    case Nothing =>
      script := [""];
    case DropLast =>
      assert Inserts(Init(a), a, |a| - 1);
      script := ShortestScript(Init(a), b);
      script := Prepend(a, script, Init(a), b);
    case AddLast =>
      assert Inserts(Init(b), b, |b| - 1);
      script := ShortestScript(a, Init(b));
      script := Append(script, a, Init(b), b);
    case PairLast =>
      script := ShortestScript(Init(a), Init(b));
      script := AfterLastPair(script, a, b);
  }

  lemma {:induction false} Prepend(a: string, rest: seq<string>, next: string, b: string) returns (script: seq<string>)
    requires IsScript(rest, next, b) && OneEdit(a, next)
    ensures IsScript(script, a, b) && |script| == |rest| + 1
  {
    script := [a] + rest;
    forall k | 0 < k < |script| ensures OneEdit(script[k - 1], script[k]) {
      if k > 1 { assert OneEdit(rest[k - 2], rest[k - 1]); }
    }
  }

  lemma {:induction false} Append(rest: seq<string>, a: string, previous: string, b: string)
    returns (script: seq<string>)
    requires IsScript(rest, a, previous) && OneEdit(previous, b)
    ensures IsScript(script, a, b) && |script| == |rest| + 1
  {
    script := rest + [b];
    forall k | 0 < k < |script| ensures OneEdit(script[k - 1], script[k]) {
      if k < |rest| { assert OneEdit(rest[k - 1], rest[k]); }
    }
  }

  lemma {:induction false} AfterLastPair(rest: seq<string>, a: string, b: string) returns (script: seq<string>)
    requires a != "" && b != "" && IsScript(rest, Init(a), Init(b))
    ensures IsScript(script, a, b) && |script| == |rest| + Cost(Last(a), Last(b))
  {
    ExtendKeepsScript(rest, Init(a), Init(b), Last(b));
    script := Extend(rest, Last(b));
    assert Init(b) + [Last(b)] == b && Init(a) + [Last(a)] == a;
    if Last(a) != Last(b) {
      var first := Init(a) + [Last(b)];
      assert Replaces(a, first, |a| - 1);
      script := Prepend(a, script, first, b);
    }
  }

  /** LevenshteinDistance is the length of a shortest edit script. */
  lemma {:induction false} DistIsShortest(a: string, b: string)
    ensures exists script :: IsScript(script, a, b) && |script| - 1 == Dist(a, b)
    ensures forall script :: IsScript(script, a, b) ==> |script| - 1 >= Dist(a, b)
  {
    var script := ShortestScript(a, b);
    forall script | IsScript(script, a, b) ensures |script| - 1 >= Dist(a, b) {
      ScriptAtLeastDist(script, a, b);
    }
  }

  // ---- Choosing a suggestion ----

  function Message(best: string): string {
    if best == "" then "" else " (Did you mean '" + best + "'?)"
  }

  predicate Admits(skipEmpty: bool, field: string) {
    !skipEmpty || field != ""
  }

  /** Field k is the first of those at the least distance, with or without the empty fields, and
      is at distance at most 2. */
  ghost predicate FirstNearest(unknown: string, fields: seq<string>, k: nat, skipEmpty: bool) {
    && k < |fields| && Admits(skipEmpty, fields[k]) && Dist(unknown, fields[k]) <= 2
    && (forall i :: 0 <= i < |fields| && Admits(skipEmpty, fields[i]) ==>
         Dist(unknown, fields[k]) <= Dist(unknown, fields[i]))
    && (forall i :: 0 <= i < k && Admits(skipEmpty, fields[i]) ==> Dist(unknown, fields[k]) < Dist(unknown, fields[i]))
  }

  ghost predicate NoneNear(unknown: string, fields: seq<string>) {
    forall i :: 0 <= i < |fields| ==> Dist(unknown, fields[i]) > 2
  }

  /** What SuggestField promises: the message names the first nearest field of all. */
  ghost predicate SuggestionFor(unknown: string, fields: seq<string>, r: string) {
    || (NoneNear(unknown, fields) && r == "")
    || (exists k: nat :: FirstNearest(unknown, fields, k, false) && r == Message(fields[k]))
  }

  method SuggestField(unknown: string, available: seq<string>) returns (r: string)
    ensures SuggestionFor(unknown, available, r)
    ensures r != "" ==> exists k: nat :: FirstNearest(unknown, available, k, false) && available[k] != "" &&
                                         r == " (Did you mean '" + available[k] + "'?)"
  {
    var bestMatch := "";
    var minDist := 3;
    ghost var best: nat := 0;
    for n := 0 to |available|
      invariant minDist <= 3
      invariant minDist == 3 ==> bestMatch == "" && NoneNear(unknown, available[..n])
      invariant minDist != 3 ==> FirstNearest(unknown, available[..n], best, false)
                                 && bestMatch == available[best] && minDist == Dist(unknown, bestMatch)
    {
      var dist := LevenshteinDistance(unknown, available[n]);
      ChoiceStep(unknown, available[..n], available[n], best);
      assert available[..n + 1] == available[..n] + [available[n]];
      if dist < minDist {
        minDist := dist;
        bestMatch := available[n];
        best := n;
      }
    }
    assert available[..|available|] == available;
    r := Message(bestMatch);
  }

  /** One more field: it takes over exactly when it is strictly nearer. */
  lemma ChoiceStep(unknown: string, fields: seq<string>, field: string, best: nat)
    ensures NoneNear(unknown, fields) && Dist(unknown, field) > 2 ==> NoneNear(unknown, fields + [field])
    ensures NoneNear(unknown, fields) && Dist(unknown, field) <= 2 ==>
              FirstNearest(unknown, fields + [field], |fields|, false)
    ensures FirstNearest(unknown, fields, best, false) ==>
              FirstNearest(unknown, fields + [field],
                           if Dist(unknown, field) < Dist(unknown, fields[best]) then |fields| else best, false)
  {}

  /** The suggestion is the nearest non-empty field, except when an empty field name is in the
      list and wins: it is at distance |unknown|, and then nothing is suggested at all. */
  lemma {:induction false} SuggestsNonEmptyIff(unknown: string, fields: seq<string>, k: nat, r: string)
    requires SuggestionFor(unknown, fields, r)
    requires FirstNearest(unknown, fields, k, true)
    ensures r == Message(fields[k]) <==>
            !exists i :: 0 <= i < |fields| && fields[i] == "" &&
              (|unknown| < Dist(unknown, fields[k]) || (|unknown| == Dist(unknown, fields[k]) && i < k))
  {
    EmptyDist(unknown);
    var m: nat :| FirstNearest(unknown, fields, m, false) && r == Message(fields[m]);
    if fields[m] == "" {
      assert |unknown| < Dist(unknown, fields[k]) || (|unknown| == Dist(unknown, fields[k]) && m < k);
      assert r != Message(fields[k]);
    } else {
      BothNearest(unknown, fields, m, k);
    }
  }

  lemma EmptyDist(unknown: string)
    ensures Dist(unknown, "") == |unknown|
  {}

  lemma {:induction false} BothNearest(unknown: string, fields: seq<string>, m: nat, k: nat)
    requires FirstNearest(unknown, fields, m, false) && FirstNearest(unknown, fields, k, true)
    requires fields[m] != ""
    ensures m == k
  {
    assert Admits(true, fields[m]) && Admits(false, fields[k]);
  }

  /** An example of the exception: "a" is one edit away from "c", but the empty name before it is
      just as near, and no suggestion is made. */
  lemma {:induction false} EmptyFieldHidesSuggestion()
    ensures FirstNearest("c", ["", "a"], 1, true)
    ensures forall r :: SuggestionFor("c", ["", "a"], r) ==> r == ""
  {
    assert Init("c") == "" && Init("a") == "";
    assert Dist("c", "") == 1 && Dist("", "a") == 1 && Dist("c", "a") == 1;
    var fields := ["", "a"];
    forall r | SuggestionFor("c", fields, r) ensures r == "" {
      SuggestsNonEmptyIff("c", fields, 1, r);
      assert fields[0] == "";
      assert !NoneNear("c", fields) by { assert Dist("c", fields[1]) <= 2; }
      var m: nat :| FirstNearest("c", fields, m, false) && r == Message(fields[m]);
    }
  }
}
