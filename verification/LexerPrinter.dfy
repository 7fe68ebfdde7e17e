/** Printing tokens with single spaces between them, which lexing undoes. */
module LexerPrinter {
  import opened Wrappers
  import opened Text
  import opened Ast
  import opened Lexer
  import opened LexerMeaning

  /** A text for a token. Strings have no escapes, so the quote is one that the string does not
      contain. */
  function Spelling(t: Token): string {
    if t.kind.STRING? then Quoted(t.value, if '"' in t.value then '\'' else '"') else t.value
  }

  function Quoted(value: string, quote: char): string {
    [quote] + value + [quote]
  }

  /** Some text has this token. */
  predicate Lexable(t: Token) {
    Reading(Spelling(t)) == Some((t.kind, t.value))
  }

  predicate AllLexable(ts: seq<Token>) {
    ts == [] || (Lexable(ts[0]) && AllLexable(ts[1..]))
  }

  function Spellings(ts: seq<Token>): seq<string> {
    if ts == [] then [] else [Spelling(ts[0])] + Spellings(ts[1..])
  }

  /** Words with single spaces between them. */
  function Join(ws: seq<string>): string {
    if ws == [] then "" else if |ws| == 1 then ws[0] else ws[0] + " " + Join(ws[1..])
  }

  function PrintTokens(ts: seq<Token>): string {
    Join(Spellings(ts))
  }

  /** The same kinds and values, and the end marker. */
  ghost predicate Same(out: seq<Token>, ts: seq<Token>) {
    && |out| == |ts| + 1 && out[|ts|].kind.END_OF_FILE?
    && forall i :: 0 <= i < |ts| ==> out[i].kind == ts[i].kind && out[i].value == ts[i].value
  }

  lemma {:induction false} SameCons(before: seq<Token>, token: Token, rest: seq<Token>, ts: seq<Token>)
    requires ts != [] && token.kind == ts[0].kind && token.value == ts[0].value && Same(rest, ts[1..])
    ensures Same([token] + rest, ts) && before + [token] + rest == before + ([token] + rest)
  {
    forall i | 0 < i < |ts| ensures ([token] + rest)[i].kind == ts[i].kind && ([token] + rest)[i].value == ts[i].value {
      assert ts[i] == ts[1..][i - 1] && ([token] + rest)[i] == rest[i - 1];
    }
  }

  // ---- Every token of the lexer has a spelling ----

  lemma {:induction false} NoQuoteInside(w: string, i: nat, quote: char)
    requires 0 < i < |w| && w[|w| - 1] == quote
    ensures FirstIsLast(w, i, quote) <==> quote !in w[i..|w| - 1]
    decreases |w| - i
  {
    if i < |w| - 1 {
      NoQuoteInside(w, i + 1, quote);
      assert w[i..|w| - 1] == [w[i]] + w[i + 1..|w| - 1];
    }
  }

  lemma {:induction false} LastIsQuote(w: string, i: nat, quote: char)
    requires FirstIsLast(w, i, quote)
    ensures i < |w| && w[|w| - 1] == quote
    decreases |w| - i
  {
    if w[i] != quote { LastIsQuote(w, i + 1, quote); }
  }

  lemma {:induction false} QuotedIsRead(value: string, quote: char)
    requires IsQuote(quote) && quote !in value && |value| <= MAX_STRING_LENGTH
    ensures Reading(Quoted(value, quote)) == Some((STRING, value))
  {
    var w := Quoted(value, quote);
    assert w[0] == quote && w[1..|w| - 1] == value;
    NoQuoteInside(w, 1, quote);
  }

  lemma {:induction false} LoweredWord(w: string, i: nat)
    requires WordFrom(w, i)
    ensures WordFrom(ToLower(w), i)
    decreases |w| - i
  {
    if i < |w| {
      LowerAt(w, i);
      LoweredWord(w, i + 1);
    }
  }

  lemma {:induction false} SpellingIsRead(w: string, t: Token)
    requires Reading(w) == Some((t.kind, t.value))
    ensures Lexable(t)
  {
    if IsWord(w) {
      LowerAt(w, 0);
      LoweredWord(w, 1);
      LowerTwice(w);
      KeywordIsNoString(ToLower(w), 0);
    } else if IsQuoted(w) {
      LastIsQuote(w, 1, w[0]);
      NoQuoteInside(w, 1, w[0]);
      QuotedIsRead(t.value, if '"' in t.value then '\'' else '"');
    } else {
      SymbolIsNoString(w);
    }
  }

  lemma {:induction false} KeywordIsNoString(w: string, i: nat)
    ensures Keyword(w, i).Some? ==> !Keyword(w, i).value.STRING? && !Keyword(w, i).value.END_OF_FILE?
    decreases |KEYWORDS| - i
  {
    if i < |KEYWORDS| { KeywordIsNoString(w, i + 1); }
  }

  lemma SymbolIsNoString(w: string)
    ensures SymbolOf(w).Some? ==> !SymbolOf(w).value.STRING? && !SymbolOf(w).value.END_OF_FILE?
  {}

  lemma {:induction false} LexableIsNoEnd(t: Token)
    requires Lexable(t)
    ensures !t.kind.END_OF_FILE?
  {
    KeywordIsNoString(ToLower(Spelling(t)), 0);
    SymbolIsNoString(Spelling(t));
  }

  // ---- A space ends every lexeme ----

  lemma {:induction false} SpaceEnds(src: string, a: nat, b: nat, c: nat)
    requires a < b < c <= |src| && Reading(src[a..b]).Some? && src[b] == ' '
    ensures Reading(src[a..c]).None?
  {
    var v, w := src[a..b], src[a..c];
    assert w[b - a] == ' ' && w[0] == v[0] == src[a];
    if IsWordStart(w[0]) {
      WordStops(w, 1, b - a);
      FirstIsWordStart(w);
    } else if IsDigit(w[0]) {
      NumeralStops(w, 1, b - a, false);
      FirstIsDigit(w);
    } else if IsQuote(w[0]) {
      QuotedEnds(src, a, b);
      QuotedEnds(src, a, c);
    } else {
      SymbolHasNoSpace(w, b - a);
    }
  }

  lemma SymbolHasNoSpace(w: string, k: nat)
    requires 0 < k < |w| && w[k] == ' ' && !IsWordStart(w[0]) && !IsDigit(w[0]) && !IsQuote(w[0])
    ensures Reading(w).None?
  {}

  lemma {:induction false} WordStops(w: string, i: nat, j: nat)
    requires i <= j < |w| && w[j] == ' '
    ensures !WordFrom(w, i)
    decreases j - i
  {
    if i < j { WordStops(w, i + 1, j); }
  }

  lemma {:induction false} NumeralStops(w: string, i: nat, j: nat, pointSeen: bool)
    requires i <= j < |w| && w[j] == ' '
    ensures !NumeralFrom(w, i, pointSeen)
    decreases j - i
  {
    if i < j {
      NumeralStops(w, i + 1, j, pointSeen);
      NumeralStops(w, i + 1, j, true);
    }
  }

  // ---- Lexing words with spaces between them ----

  /** The words are lexemes of the tokens. */
  predicate AreRead(ws: seq<string>, ts: seq<Token>)
    decreases |ws|
  {
    && |ws| == |ts|
    && (ws != [] ==> Reading(ws[0]) == Some((ts[0].kind, ts[0].value)) && AreRead(ws[1..], ts[1..]))
  }

  /** From a on, the text is lexemes of the tokens at the given ends, with a space between each two. */
  predicate Placed(src: string, a: nat, ends: seq<nat>, ts: seq<Token>)
    decreases |ends|
  {
    && |ends| == |ts|
    && (ends != [] ==>
        && a <= ends[0] <= |src| && Reading(src[a..ends[0]]) == Some((ts[0].kind, ts[0].value))
        && if |ends| == 1 then ends[0] == |src|
           else ends[0] < |src| && src[ends[0]] == ' ' && Placed(src, ends[0] + 1, ends[1..], ts[1..]))
  }

  lemma {:induction false} JoinParts(src: string, a: nat, b: nat, ws: seq<string>)
    requires a <= |src| && ws != [] && src[a..] == Join(ws) && b == a + |ws[0]|
    ensures b <= |src| && src[a..b] == ws[0]
    ensures if |ws| == 1 then b == |src| else b < |src| && src[b] == ' ' && src[b + 1..] == Join(ws[1..])
  {
    var s, n := src[a..], |ws[0]|;
    assert src[a..b] == s[..n];
    if |ws| > 1 { assert src[b] == s[n] && src[b + 1..] == s[n + 1..]; }
  }

  lemma {:induction false} PlacedCons(src: string, a: nat, b: nat, rest: seq<nat>, ts: seq<Token>)
    requires a <= b <= |src| && |ts| == |rest| + 1 && Reading(src[a..b]) == Some((ts[0].kind, ts[0].value))
    requires if rest == [] then b == |src| else b < |src| && src[b] == ' ' && Placed(src, b + 1, rest, ts[1..])
    ensures Placed(src, a, [b] + rest, ts)
  {
    assert ([b] + rest)[1..] == rest;
  }

  lemma {:induction false} JoinedIsPlaced(src: string, a: nat, ws: seq<string>, ts: seq<Token>) returns (ends: seq<nat>)
    requires a <= |src| && src[a..] == Join(ws) && AreRead(ws, ts)
    ensures Placed(src, a, ends, ts)
    decreases |ws|
  {
    if ws == [] {
      ends := [];
    } else {
      var b := a + |ws[0]|;
      JoinParts(src, a, b, ws);
      var rest: seq<nat> := [];
      if |ws| > 1 { rest := JoinedIsPlaced(src, b + 1, ws[1..], ts[1..]); }
      ends := [b] + rest;
      PlacedCons(src, a, b, rest, ts);
    }
  }

  lemma {:induction false} WordIsNext(src: string, before: seq<Token>, from: nat, a: nat, b: nat, t: Token,
                                      r: Result<seq<Token>>)
    requires from <= a <= b <= |src| && Blank(src, from, a) && |before| < MAX_TOKENS
    requires r == TokensFrom(src, from, before)
    requires Reading(src[a..b]) == Some((t.kind, t.value)) && (b == |src| || src[b] == ' ')
    ensures r == TokensFrom(src, b, before + [TokenAt(src, a, t.kind, t.value)])
  {
    forall c | b < c <= |src| ensures Reading(src[a..c]).None? { SpaceEnds(src, a, b, c); }
    SpannedIsNext(src, before, from, (a, b), TokenAt(src, a, t.kind, t.value));
  }

  lemma NothingLeft(src: string, before: seq<Token>)
    ensures TokensFrom(src, |src|, before) == Ok(before + [TokenAt(src, |src|, END_OF_FILE, "")])
  {}

  lemma {:induction false} PlacedIsLexed(src: string, from: nat, a: nat, ends: seq<nat>, before: seq<Token>,
                                         ts: seq<Token>, r: Result<seq<Token>>)
    returns (out: seq<Token>)
    requires from <= a <= |src| && Blank(src, from, a) && Placed(src, a, ends, ts)
    requires ends != [] && |before| + |ends| <= MAX_TOKENS && r == TokensFrom(src, from, before)
    ensures r == Ok(before + out) && Same(out, ts)
    decreases |ends|
  {
    var b := ends[0];
    WordIsNext(src, before, from, a, b, ts[0], r);
    var token := TokenAt(src, a, ts[0].kind, ts[0].value);
    var rest := [TokenAt(src, |src|, END_OF_FILE, "")];
    if |ends| == 1 {
      NothingLeft(src, before + [token]);
    } else {
      rest := PlacedIsLexed(src, b, b + 1, ends[1..], before + [token], ts[1..], r);
    }
    out := [token] + rest;
    SameCons(before, token, rest, ts);
  }

  lemma {:induction false} JoinedLength(ws: seq<string>, ts: seq<Token>)
    requires AreRead(ws, ts)
    ensures |ws| <= |Join(ws)|
    decreases |ws|
  {
    if ws != [] { JoinedLength(ws[1..], ts[1..]); }
  }

  /** Words with spaces between them are read one by one, if and only if their text is within the
      size limit. */
  lemma {:induction false} WordsAreLexed(ws: seq<string>, ts: seq<Token>)
    requires AreRead(ws, ts)
    ensures TokensOf(Join(ws)).Ok? <==> |Join(ws)| <= MAX_QUERY_SIZE
    ensures TokensOf(Join(ws)).Ok? ==> Same(TokensOf(Join(ws)).value, ts)
  {
    var src := Join(ws);
    JoinedLength(ws, ts);
    if |src| <= MAX_QUERY_SIZE && ws != [] {
      assert src[0..] == src;
      var ends := JoinedIsPlaced(src, 0, ws, ts);
      var out := PlacedIsLexed(src, 0, 0, ends, [], ts, TokensOf(src));
      assert [] + out == out;
    }
  }

  lemma {:induction false} SpellingsAreRead(ts: seq<Token>)
    requires AllLexable(ts)
    ensures AreRead(Spellings(ts), ts)
    decreases |ts|
  {
    if ts != [] { SpellingsAreRead(ts[1..]); }
  }

  /** Lexing undoes printing: the printed tokens are read back with the same kinds and values, if
      and only if their text is within the size limit. */
  lemma {:induction false} LexUndoesPrint(ts: seq<Token>)
    requires AllLexable(ts)
    ensures TokensOf(PrintTokens(ts)).Ok? <==> |PrintTokens(ts)| <= MAX_QUERY_SIZE
    ensures TokensOf(PrintTokens(ts)).Ok? ==> Same(TokensOf(PrintTokens(ts)).value, ts)
  {
    SpellingsAreRead(ts);
    WordsAreLexed(Spellings(ts), ts);
  }

  lemma {:induction false} AllAreLexable(ts: seq<Token>)
    requires forall i :: 0 <= i < |ts| ==> Lexable(ts[i])
    ensures AllLexable(ts)
    decreases |ts|
  {
    if ts != [] { AllAreLexable(ts[1..]); }
  }

  /** What the lexer returns can be printed. */
  lemma {:induction false} LexedIsLexable(src: string, ts: seq<Token>)
    requires TokensOf(src) == Ok(ts)
    ensures ts != [] && AllLexable(ts[..|ts| - 1])
  {
    LexesTheDivision(src, ts);
    var spans: seq<(nat, nat)> :| Divides(src, spans, ts);
    forall i | 0 <= i < |spans| ensures Lexable(ts[i]) {
      assert SpannedAt(src, spans, ts, i);
      SpellingIsRead(src[spans[i].0..spans[i].1], ts[i]);
    }
    AllAreLexable(ts[..|ts| - 1]);
  }

  /** Printing what was lexed and lexing it again changes only positions. */
  lemma {:induction false} RelexKeepsTokens(src: string, ts: seq<Token>)
    requires TokensOf(src) == Ok(ts) && ts != [] && |PrintTokens(ts[..|ts| - 1])| <= MAX_QUERY_SIZE
    ensures TokensOf(PrintTokens(ts[..|ts| - 1])).Ok?
    ensures Same(TokensOf(PrintTokens(ts[..|ts| - 1])).value, ts[..|ts| - 1])
  {
    LexedIsLexable(src, ts);
    LexUndoesPrint(ts[..|ts| - 1]);
  }
}
