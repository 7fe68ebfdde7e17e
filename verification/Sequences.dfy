/** Concatenation, and parts of sequences at given positions. */
module Sequences {
  function Concat<T>(parts: seq<seq<T>>): seq<T> {
    if parts == [] then [] else Concat(parts[..|parts| - 1]) + parts[|parts| - 1]
  }

  lemma {:induction false} ConcatLast<T>(parts: seq<seq<T>>, last: seq<T>)
    ensures Concat(parts + [last]) == Concat(parts) + last
  {
    assert (parts + [last])[..|parts|] == parts;
  }

  lemma Associative<T>(a: seq<T>, b: seq<T>, c: seq<T>)
    ensures a + b + c == a + (b + c)
  {}

  lemma {:induction false} ConsEqual<T>(a: T, s: seq<T>, b: T, t: seq<T>)
    ensures [a] + s == [b] + t <==> a == b && s == t
  {
    var l, r := [a] + s, [b] + t;
    assert l[1..] == s && r[1..] == t && l[0] == a && r[0] == b;
  }

  /** w stands at position o of data, from its k-th element on. */
  predicate HereFrom<T(==)>(data: seq<T>, o: nat, w: seq<T>, k: nat)
    decreases |w| - k
  {
    k >= |w| || (o + k < |data| && data[o + k] == w[k] && HereFrom(data, o, w, k + 1))
  }

  predicate Here<T(==)>(data: seq<T>, o: nat, w: seq<T>) {
    HereFrom(data, o, w, 0)
  }

  lemma {:induction false} HereFromAt<T>(data: seq<T>, o: nat, w: seq<T>, i: nat, k: nat)
    requires i <= k < |w| && HereFrom(data, o, w, i)
    ensures o + k < |data| && data[o + k] == w[k]
    decreases k - i
  {
    if i < k { HereFromAt(data, o, w, i + 1, k); }
  }

  lemma {:induction false} HereAt<T>(data: seq<T>, o: nat, w: seq<T>, k: nat)
    requires Here(data, o, w) && k < |w|
    ensures o + k < |data| && data[o + k] == w[k]
  {
    HereFromAt(data, o, w, 0, k);
  }

  lemma {:induction false} HereIntro<T>(data: seq<T>, o: nat, w: seq<T>, k: nat)
    requires o + |w| <= |data| && forall i :: k <= i < |w| ==> data[o + i] == w[i]
    ensures HereFrom(data, o, w, k)
    decreases |w| - k
  {
    if k < |w| { HereIntro(data, o, w, k + 1); }
  }

  lemma {:induction false} HereParts<T>(data: seq<T>, o: nat, a: seq<T>, b: seq<T>)
    requires Here(data, o, a + b)
    ensures Here(data, o, a) && Here(data, o + |a|, b)
  {
    if a + b == [] {
      assert a == [] && b == [];
    } else {
      HereAt(data, o, a + b, |a + b| - 1);
      forall i | 0 <= i < |a| ensures data[o + i] == a[i] { HereAt(data, o, a + b, i); }
      HereIntro(data, o, a, 0);
      forall i | 0 <= i < |b| ensures data[o + |a| + i] == b[i] { HereAt(data, o, a + b, |a| + i); }
      HereIntro(data, o + |a|, b, 0);
    }
  }

  lemma {:induction false} HereNext<T>(data: seq<T>, o: nat, a: seq<T>, b: seq<T>, c: seq<T>)
    requires Here(data, o, a + b + c)
    ensures Here(data, o, a) && Here(data, o + |a|, b + c)
  {
    Associative(a, b, c);
    HereParts(data, o, a, b + c);
  }

  lemma {:induction false} HereAll<T>(data: seq<T>)
    ensures Here(data, 0, data)
  {
    HereIntro(data, 0, data, 0);
  }
}
