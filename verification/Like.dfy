/** The LIKE matcher: a greedy scan that remembers only the last '%' and is cut off after
    MAX_STEPS iterations. It appears twice in the source, in the row evaluator and in the
    columnar evaluator, with the same body. */
module Like {
  import opened Wrappers

  const MAX_STEPS := 10000

  /** The LIKE predicate without ESCAPE (section 8.5 of ISO/IEC 9075:1992): '%' stands for any
      string, '_' for any one character, and every other character for itself. */
  ghost predicate Matches(text: string, pattern: string)
    decreases pattern
  {
    if pattern == "" then text == ""
    else if pattern[0] == '%' then exists k :: 0 <= k <= |text| && Matches(text[k..], pattern[1..])
    else text != "" && MatchesOne(text[0], pattern[0]) && Matches(text[1..], pattern[1..])
  }

  predicate MatchesOne(c: char, p: char) {
    p == '_' || c == p
  }

  /** The local variables of the matcher; `star` is None where the source stores npos. */
  datatype Cursor = Cursor(t: nat, p: nat, star: Option<nat>, matchIdx: nat, steps: nat)

  const Start := Cursor(0, 0, None, 0, 0)

  function AtStar(s: Cursor): Cursor {
    Cursor(s.t, s.p + 1, Some(s.p), s.t, s.steps + 1)
  }

  function AtMatch(s: Cursor): Cursor {
    s.(t := s.t + 1, p := s.p + 1, steps := s.steps + 1)
  }

  function AtMismatch(s: Cursor): Cursor
    requires s.star.Some?
  {
    Cursor(s.matchIdx + 1, s.star.value + 1, s.star, s.matchIdx + 1, s.steps + 1)
  }

  /** The rest of a run of the matcher from a given cursor. */
  function Run(text: string, pattern: string, s: Cursor): Result<bool>
    requires s.t <= |text| && s.p <= |pattern|
    requires s.star.Some? ==> s.star.value < |pattern|
    requires s.matchIdx <= s.t
    requires s.steps <= MAX_STEPS
    decreases MAX_STEPS - s.steps
  {
    if s.t == |text| then
      Ok(forall i :: s.p <= i < |pattern| ==> pattern[i] == '%')
    else if s.steps == MAX_STEPS then
      Err(SecurityError)
    else if s.p < |pattern| && pattern[s.p] == '%' then
      Run(text, pattern, AtStar(s))
    else if s.p < |pattern| && MatchesOne(text[s.t], pattern[s.p]) then
      Run(text, pattern, AtMatch(s))
    else if s.star.Some? then
      Run(text, pattern, AtMismatch(s))
    else
      Ok(false)
  }

  function MatchLike(text: string, pattern: string): Result<bool> {
    Run(text, pattern, Start)
  }

  /** What the scan knows at a cursor: since the last '%' it has consumed one character of text
      for each character of the pattern, and none of those pattern characters is '%'. */
  ghost predicate Inv(text: string, pattern: string, s: Cursor) {
    && s.matchIdx <= s.t <= |text| && s.p <= |pattern| && s.steps <= MAX_STEPS
    && (s.star.None? ==> s.matchIdx == 0)
    && var from := Anchor(s);
    && from <= s.p
    && s.t - s.matchIdx == s.p - from
    && (s.star.Some? ==> pattern[s.star.value] == '%')
    && (forall j :: from <= j < s.p ==>
          pattern[j] != '%' && MatchesOne(text[s.matchIdx + j - from], pattern[j]))
  }

  /** The pattern position just after the last '%' seen, or the start. */
  function Anchor(s: Cursor): nat {
    if s.star.Some? then s.star.value + 1 else 0
  }

  /** The question still open at a cursor: without a '%', whether the rest matches here; with
      one, whether the pattern after it matches at matchIdx or anywhere further right. */
  ghost predicate Open(text: string, pattern: string, s: Cursor)
    requires Inv(text, pattern, s)
  {
    if s.star.None? then Matches(text, pattern)
    else exists k :: s.matchIdx <= k <= |text| && Matches(text[k..], pattern[Anchor(s)..])
  }

  /** A stretch of pattern without '%' consumes exactly as many characters as it has. */
  lemma {:induction false} FixedStretch(text: string, pattern: string, n: nat)
    requires n <= |pattern| && forall i :: 0 <= i < n ==> pattern[i] != '%'
    ensures Matches(text, pattern) <==>
            n <= |text| && (forall i :: 0 <= i < n ==> MatchesOne(text[i], pattern[i])) &&
            Matches(text[n..], pattern[n..])
  {
    if n == 0 {
      assert text[0..] == text && pattern[0..] == pattern;
    } else if text != "" {
      FixedStretch(text[1..], pattern[1..], n - 1);
      if n <= |text| {
        assert text[1..][n - 1..] == text[n..] && pattern[1..][n - 1..] == pattern[n..];
        assert (forall i :: 0 <= i < n ==> MatchesOne(text[i], pattern[i])) <==>
               MatchesOne(text[0], pattern[0]) &&
               forall i :: 0 <= i < n - 1 ==> MatchesOne(text[1..][i], pattern[1..][i])
        by {
          if MatchesOne(text[0], pattern[0]) &&
             forall i :: 0 <= i < n - 1 ==> MatchesOne(text[1..][i], pattern[1..][i]) {
            forall i | 0 <= i < n ensures MatchesOne(text[i], pattern[i]) {
              if i > 0 { assert MatchesOne(text[1..][i - 1], pattern[1..][i - 1]); }
            }
          }
        }
      }
    }
  }

  lemma {:induction false} EmptyText(pattern: string)
    ensures Matches("", pattern) <==> forall i :: 0 <= i < |pattern| ==> pattern[i] == '%'
  {
    if pattern != "" {
      EmptyText(pattern[1..]);
      assert forall i :: 1 <= i < |pattern| ==> pattern[i] == pattern[1..][i - 1];
      if pattern[0] == '%' {
        assert ""[0..] == "";
      }
    }
  }

  /** The attempt under way succeeds exactly when the rest matches at the cursor. */
  lemma {:induction false} AttemptAt(text: string, pattern: string, s: Cursor)
    requires Inv(text, pattern, s)
    ensures Matches(text[s.matchIdx..], pattern[Anchor(s)..]) <==> Matches(text[s.t..], pattern[s.p..])
  {
    var from := Anchor(s);
    FixedStretch(text[s.matchIdx..], pattern[from..], s.p - from);
    assert text[s.matchIdx..][s.p - from..] == text[s.t..];
    assert pattern[from..][s.p - from..] == pattern[s.p..];
  }

  /** Remembering only the last '%' is enough: on meeting a new one, every way of matching from
      the previous '%' on is still available from the new one. */
  lemma {:induction false} OnlyLastStarMatters(text: string, pattern: string, s: Cursor)
    requires Inv(text, pattern, s) && s.p < |pattern| && pattern[s.p] == '%'
    ensures Open(text, pattern, s) <==> exists k :: s.t <= k <= |text| && Matches(text[k..], pattern[s.p + 1..])
  {
    var from := Anchor(s);
    var n := s.p - from;
    var rest := pattern[s.p..];
    assert rest[1..] == pattern[s.p + 1..];
    AttemptAt(text, pattern, s);
    if k :| s.t <= k <= |text| && Matches(text[k..], pattern[s.p + 1..]) {
      assert text[s.t..][k - s.t..] == text[k..];
      assert Matches(text[s.t..], rest);
      assert text[0..] == text && pattern[0..] == pattern;
      assert Open(text, pattern, s);
    }
    if Open(text, pattern, s) {
      var k := if s.star.None? then 0 else
        var k :| s.matchIdx <= k <= |text| && Matches(text[k..], pattern[from..]); k;
      assert text[0..] == text && pattern[0..] == pattern;
      FixedStretch(text[k..], pattern[from..], n);
      assert text[k..][n..] == text[k + n..] && pattern[from..][n..] == rest;
      var j :| 0 <= j <= |text[k + n..]| && Matches(text[k + n..][j..], rest[1..]);
      assert text[k + n..][j..] == text[k + n + j..];
    }
  }

  /** The three kinds of iteration keep the invariant. */
  lemma StepsKeepInv(text: string, pattern: string, s: Cursor)
    requires Inv(text, pattern, s) && s.t < |text| && s.steps < MAX_STEPS
    ensures s.p < |pattern| && pattern[s.p] == '%' ==> Inv(text, pattern, AtStar(s))
    ensures s.p < |pattern| && pattern[s.p] != '%' && MatchesOne(text[s.t], pattern[s.p]) ==>
              Inv(text, pattern, AtMatch(s))
    ensures s.star.Some? ==> Inv(text, pattern, AtMismatch(s))
  {}

  /** The main result: a run that is not cut off answers the open question. */
  lemma {:induction false} RunDecides(text: string, pattern: string, s: Cursor)
    requires Inv(text, pattern, s)
    requires Run(text, pattern, s).Ok?
    ensures Run(text, pattern, s).value <==> Open(text, pattern, s)
    decreases MAX_STEPS - s.steps
  {
    if s.t == |text| {
      AtEndOfText(text, pattern, s);
    } else {
      StepsKeepInv(text, pattern, s);
      if s.p < |pattern| && pattern[s.p] == '%' {
        OnlyLastStarMatters(text, pattern, s);
        RunDecides(text, pattern, AtStar(s));
      } else if s.p < |pattern| && MatchesOne(text[s.t], pattern[s.p]) {
        RunDecides(text, pattern, AtMatch(s));
      } else {
        AttemptFails(text, pattern, s);
        if s.star.Some? { RunDecides(text, pattern, AtMismatch(s)); }
      }
    }
  }

  /** A mismatch rules out the position under trial and no other. */
  lemma {:induction false} AttemptFails(text: string, pattern: string, s: Cursor)
    requires Inv(text, pattern, s) && s.t < |text| && s.steps < MAX_STEPS
    requires s.p < |pattern| ==> pattern[s.p] != '%' && !MatchesOne(text[s.t], pattern[s.p])
    ensures s.star.None? ==> !Open(text, pattern, s)
    ensures s.star.Some? ==> Inv(text, pattern, AtMismatch(s)) &&
                             (Open(text, pattern, s) <==> Open(text, pattern, AtMismatch(s)))
  {
    AttemptAt(text, pattern, s);
    assert text[0..] == text && pattern[0..] == pattern;
    assert !Matches(text[s.t..], pattern[s.p..]);
    if s.star.Some? && Open(text, pattern, s) {
      var k :| s.matchIdx <= k <= |text| && Matches(text[k..], pattern[Anchor(s)..]);
      assert k != s.matchIdx;
    }
  }

  lemma {:induction false} AtEndOfText(text: string, pattern: string, s: Cursor)
    requires Inv(text, pattern, s) && s.t == |text|
    ensures (forall i :: s.p <= i < |pattern| ==> pattern[i] == '%') <==> Open(text, pattern, s)
  {
    var from := Anchor(s);
    AttemptAt(text, pattern, s);
    assert text[s.t..] == "" && text[0..] == text && pattern[0..] == pattern;
    EmptyText(pattern[s.p..]);
    assert (forall i :: 0 <= i < |pattern[s.p..]| ==> pattern[s.p..][i] == '%') <==>
           forall i :: s.p <= i < |pattern| ==> pattern[i] == '%'
    by {
      forall i | s.p <= i < |pattern| ensures pattern[i] == pattern[s.p..][i - s.p] {}
    }
    if s.star.Some? {
      forall k | s.matchIdx < k <= |text| ensures !Matches(text[k..], pattern[from..]) {
        FixedStretch(text[k..], pattern[from..], s.p - from);
      }
    }
  }

  /** LIKE is decided correctly on every text and pattern, unless the budget runs out. */
  lemma {:induction false} MatchLikeCorrect(text: string, pattern: string)
    requires MatchLike(text, pattern).Ok?
    ensures MatchLike(text, pattern).value <==> Matches(text, pattern)
  {
    RunDecides(text, pattern, Start);
  }

  /** An upper bound on the iterations made on reaching pattern position p with the attempt
      starting at matchIdx, for a pattern of length n. */
  function Spent(matchIdx: nat, n: nat, p: nat): nat {
    matchIdx + matchIdx * n + p
  }

  lemma {:induction false} SpentGrows(m: nat, m': nat, n: nat, p: nat)
    requires m < m' && p <= n
    ensures Spent(m, n, p) < Spent(m', n, 0)
  {
    assert (m' - m - 1) * n >= 0;
    assert (m' - m - 1) * n == m' * n - m * n - n;
  }

  /** Each iteration moves (matchIdx, p) up lexicographically, with p at most |pattern|. */
  lemma {:induction false} RunWithinBudget(text: string, pattern: string, s: Cursor)
    requires Inv(text, pattern, s)
    requires s.steps <= Spent(s.matchIdx, |pattern|, s.p)
    requires Spent(|text|, |pattern|, |pattern|) <= MAX_STEPS
    ensures Run(text, pattern, s).Ok?
    decreases MAX_STEPS - s.steps
  {
    if s.t < |text| {
      var n := |pattern|;
      SpentGrows(s.matchIdx, |text|, n, s.p);
      StepsKeepInv(text, pattern, s);
      if s.p < n && pattern[s.p] == '%' {
        if s.matchIdx < s.t { SpentGrows(s.matchIdx, s.t, n, s.p); }
        RunWithinBudget(text, pattern, AtStar(s));
      } else if s.p < n && MatchesOne(text[s.t], pattern[s.p]) {
        RunWithinBudget(text, pattern, AtMatch(s));
      } else if s.star.Some? {
        SpentGrows(s.matchIdx, s.matchIdx + 1, n, s.p);
        RunWithinBudget(text, pattern, AtMismatch(s));
      }
    }
  }

  /** The step limit can only be hit when |text| + (|text| + 1) * |pattern| exceeds it. */
  lemma {:induction false} BudgetSuffices(text: string, pattern: string)
    requires |text| + (|text| + 1) * |pattern| <= 10000
    ensures MatchLike(text, pattern) == Ok(Matches(text, pattern))
  {
    assert (|text| + 1) * |pattern| == |text| * |pattern| + |pattern|;
    RunWithinBudget(text, pattern, Start);
    MatchLikeCorrect(text, pattern);
  }

  /** The loop itself. */
  method MatchLikeLoop(text: string, pattern: string) returns (r: Result<bool>)
    ensures r == MatchLike(text, pattern)
    ensures r.Ok? ==> (r.value <==> Matches(text, pattern))
  {
    var t: nat, p: nat, star: Option<nat> := 0, 0, None;
    var matchIdx: nat, steps: nat := 0, 0;
    ghost var spec := MatchLike(text, pattern);
    assert spec.Ok? ==> (spec.value <==> Matches(text, pattern)) by {
      if spec.Ok? { MatchLikeCorrect(text, pattern); }
    }
    while t < |text|
      invariant matchIdx <= t <= |text| && p <= |pattern| && steps <= MAX_STEPS
      invariant star.Some? ==> star.value < |pattern|
      invariant Run(text, pattern, Cursor(t, p, star, matchIdx, steps)) == spec
      decreases MAX_STEPS - steps
    {
      if steps == MAX_STEPS { return Err(SecurityError); }
      steps := steps + 1;
      if p < |pattern| && pattern[p] == '%' {
        star := Some(p);
        matchIdx := t;
        p := p + 1;
      } else if p < |pattern| && MatchesOne(text[t], pattern[p]) {
        t := t + 1;
        p := p + 1;
      } else if star.Some? {
        p := star.value + 1;
        matchIdx := matchIdx + 1;
        t := matchIdx;
      } else {
        return Ok(false);
      }
    }
    ghost var q := p;
    while p < |pattern| && pattern[p] == '%'
      invariant q <= p <= |pattern|
      invariant forall i :: q <= i < p ==> pattern[i] == '%'
    {
      p := p + 1;
    }
    r := Ok(p == |pattern|);
  }

  // ---- The relation, taken apart ----

  /** The text is cut into one part for each character of the pattern: any part for '%', any single
      character for '_', and the character itself for any other. */
  ghost predicate Parts(text: string, pattern: string, parts: seq<string>) {
    && |parts| == |pattern| && Joined(parts) == text
    && forall i :: 0 <= i < |pattern| ==>
         pattern[i] == '%' || (pattern[i] == '_' && |parts[i]| == 1) || parts[i] == [pattern[i]]
  }

  function Joined(parts: seq<string>): string {
    if parts == [] then "" else parts[0] + Joined(parts[1..])
  }

  lemma {:induction false} PartsTail(text: string, pattern: string, parts: seq<string>)
    requires pattern != "" && Parts(text, pattern, parts)
    ensures |parts[0]| <= |text| && Parts(text[|parts[0]|..], pattern[1..], parts[1..])
    ensures text[..|parts[0]|] == parts[0]
  {
    assert text == parts[0] + Joined(parts[1..]);
    assert forall i :: 0 <= i < |pattern| - 1 ==> pattern[1..][i] == pattern[i + 1] && parts[1..][i] == parts[i + 1];
  }

  lemma {:induction false} PartsCons(head: string, text: string, pattern: string, parts: seq<string>)
    requires pattern != "" && Parts(text, pattern[1..], parts)
    requires pattern[0] == '%' || (pattern[0] == '_' && |head| == 1) || head == [pattern[0]]
    ensures Parts(head + text, pattern, [head] + parts)
  {
    var all := [head] + parts;
    assert all[1..] == parts;
    forall i | 0 <= i < |pattern|
      ensures pattern[i] == '%' || (pattern[i] == '_' && |all[i]| == 1) || all[i] == [pattern[i]]
    {
      if i > 0 { assert all[i] == parts[i - 1] && pattern[i] == pattern[1..][i - 1]; }
    }
  }

  /** A text matches exactly if it can be cut up like this. */
  lemma {:induction false} MatchesIff(text: string, pattern: string)
    ensures Matches(text, pattern) <==> exists parts :: Parts(text, pattern, parts)
    decreases pattern
  {
    if pattern == "" {
      if text == "" { assert Parts(text, pattern, []); }
    } else {
      if parts :| Parts(text, pattern, parts) {
        PartsTail(text, pattern, parts);
        MatchesIff(text[|parts[0]|..], pattern[1..]);
      }
      if Matches(text, pattern) {
        var k := 1;
        if pattern[0] == '%' { k :| 0 <= k <= |text| && Matches(text[k..], pattern[1..]); }
        MatchesIff(text[k..], pattern[1..]);
        var parts :| Parts(text[k..], pattern[1..], parts);
        PartsCons(text[..k], text[k..], pattern, parts);
        assert text[..k] + text[k..] == text;
      }
    }
  }
}
