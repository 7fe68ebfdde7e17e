/** Character classes of the C locale, lower-casing, and slices. */
module Text {
  predicate IsSpace(c: char) {
    c == ' ' || '\t' <= c <= '\r'
  }

  predicate IsDigit(c: char) {
    '0' <= c <= '9'
  }

  predicate IsAlpha(c: char) {
    'a' <= c <= 'z' || 'A' <= c <= 'Z'
  }

  function LowerChar(c: char): char {
    if 'A' <= c <= 'Z' then c - 'A' + 'a' else c
  }

  function ToLower(s: string): (r: string)
    ensures |r| == |s|
  {
    if s == "" then "" else [LowerChar(s[0])] + ToLower(s[1..])
  }

  lemma {:induction false} LowerAt(s: string, k: nat)
    requires k < |s|
    ensures ToLower(s)[k] == LowerChar(s[k])
    decreases |s|
  {
    if k > 0 { LowerAt(s[1..], k - 1); }
  }

  lemma {:induction false} LowerTwice(s: string)
    ensures ToLower(ToLower(s)) == ToLower(s)
    decreases |s|
  {
    if s != "" {
      LowerTwice(s[1..]);
      assert ToLower(s)[1..] == ToLower(s[1..]);
    }
  }

  lemma {:induction false} SliceOfSlice(s: string, o: nat, e: nat, a: nat, b: nat)
    requires o <= a <= b <= e <= |s|
    ensures s[o..e][a - o..b - o] == s[a..b]
  {
    var l, r := s[o..e][a - o..b - o], s[a..b];
    assert |l| == |r| && forall k :: 0 <= k < |r| ==> l[k] == r[k];
  }

  function Occurrences(s: string, c: char): nat {
    if s == "" then 0 else (if s[0] == c then 1 else 0) + Occurrences(s[1..], c)
  }

  lemma {:induction false} OccurrencesConcat(s: string, t: string, c: char)
    ensures Occurrences(s + t, c) == Occurrences(s, c) + Occurrences(t, c)
    decreases |s|
  {
    if s == "" {
      assert s + t == t;
    } else {
      assert (s + t)[1..] == s[1..] + t;
      OccurrencesConcat(s[1..], t, c);
    }
  }

  lemma {:induction false} NoOccurrence(s: string, c: char)
    ensures Occurrences(s, c) == 0 <==> forall k :: 0 <= k < |s| ==> s[k] != c
    decreases |s|
  {
    if s != "" {
      NoOccurrence(s[1..], c);
      if s[0] != c {
        assert forall k :: 0 <= k < |s| - 1 ==> s[1..][k] == s[k + 1];
        if Occurrences(s[1..], c) == 0 {
          forall k | 0 <= k < |s| ensures s[k] != c { if k > 0 { assert s[1..][k - 1] != c; } }
        }
      }
    }
  }
}
