/** What the lexer finds: the one division of the text into longest lexemes with whitespace
    between them. */
module LexerMeaning {
  import opened Wrappers
  import opened Text
  import opened Ast
  import opened Lexer

  // ---- Lexemes as texts ----

  predicate IsWord(w: string) {
    w != "" && IsWordStart(w[0]) && WordFrom(w, 1)
  }

  predicate WordFrom(w: string, i: nat)
    decreases |w| - i
  {
    i >= |w| || (IsWordChar(w[i]) && WordFrom(w, i + 1))
  }

  /** Digits, with at most one point after the first. */
  predicate IsNumeral(w: string) {
    w != "" && IsDigit(w[0]) && NumeralFrom(w, 1, false)
  }

  predicate NumeralFrom(w: string, i: nat, pointSeen: bool)
    decreases |w| - i
  {
    || i >= |w|
    || (IsDigit(w[i]) && NumeralFrom(w, i + 1, pointSeen))
    || (w[i] == '.' && !pointSeen && NumeralFrom(w, i + 1, true))
  }

  /** Between two quotes of one kind, anything but that quote. */
  predicate IsQuoted(w: string) {
    |w| >= 2 && IsQuote(w[0]) && FirstIsLast(w, 1, w[0]) && |w| - 2 <= 8192
  }

  /** From i on, the only such character is the last. */
  predicate FirstIsLast(w: string, i: nat, c: char)
    decreases |w| - i
  {
    i < |w| && if w[i] == c then i == |w| - 1 else FirstIsLast(w, i + 1, c)
  }

  function SymbolOf(w: string): Option<TokenType> {
    if |w| == 1 then Symbol(w[0]) else if |w| == 2 && w[1] == '=' then SymbolWithEquals(w[0]) else None
  }

  /** The kind and value that a whole text stands for, if it is a lexeme. */
  function Reading(w: string): Option<(TokenType, string)> {
    if IsWord(w) then Some((Word(w, 0).kind, Word(w, 0).value))
    else if IsNumeral(w) then Some((NUMBER, w))
    else if IsQuoted(w) then Some((STRING, w[1..|w| - 1]))
    else if SymbolOf(w).Some? then Some((SymbolOf(w).value, w))
    else None
  }

  /** A lexeme that no longer one extends. */
  ghost predicate Longest(src: string, a: nat, b: nat, r: (TokenType, string)) {
    && a < b <= |src| && Reading(src[a..b]) == Some(r)
    && forall c :: b < c <= |src| ==> Reading(src[a..c]).None?
  }

  lemma {:induction false} ScanClass(src: string, pos: nat, chars: CharClass)
    requires pos <= |src|
    ensures forall k :: pos <= k < Scan(src, pos, chars) ==> In(src[k], chars)
    ensures Scan(src, pos, chars) < |src| ==> !In(src[Scan(src, pos, chars)], chars)
    decreases |src| - pos
  {
    if pos < |src| && In(src[pos], chars) { ScanClass(src, pos + 1, chars); }
  }

  lemma {:induction false} ScanStops(src: string, pos: nat, end: nat, chars: CharClass)
    requires pos <= end <= |src| && forall k :: pos <= k < end ==> In(src[k], chars)
    requires end < |src| ==> !In(src[end], chars)
    ensures Scan(src, pos, chars) == end
    decreases end - pos
  {
    if pos < end { ScanStops(src, pos + 1, end, chars); }
  }

  lemma {:induction false} WordRun(w: string, i: nat, j: nat)
    requires i <= j <= |w| && forall k :: i <= k < j ==> IsWordChar(w[k])
    ensures WordFrom(w, i) == WordFrom(w, j)
    decreases j - i
  {
    if i < j { WordRun(w, i + 1, j); }
  }

  /** From where the word characters stop on, only the text up to there is a word. */
  lemma {:induction false} WordEnds(src: string, pos: nat, c: nat)
    requires pos < |src| && IsWordStart(src[pos]) && Scan(src, pos, WordChars) <= c <= |src|
    ensures c > pos && (IsWord(src[pos..c]) <==> c == Scan(src, pos, WordChars))
  {
    var end, w := Scan(src, pos, WordChars), src[pos..c];
    ScanClass(src, pos, WordChars);
    assert forall k :: 0 <= k < c - pos ==> w[k] == src[pos + k];
    WordRun(w, 1, end - pos);
  }

  lemma {:induction false} WordIsLongest(src: string, pos: nat)
    requires pos < |src| && IsWordStart(src[pos])
    ensures var end := Scan(src, pos, WordChars); var x := Word(src[pos..end], end);
            Longest(src, pos, end, (x.kind, x.value))
  {
    WordEnds(src, pos, Scan(src, pos, WordChars));
    forall c | Scan(src, pos, WordChars) < c <= |src| ensures Reading(src[pos..c]).None? {
      WordEnds(src, pos, c);
      FirstIsWordStart(src[pos..c]);
    }
  }

  lemma FirstIsWordStart(w: string)
    requires w != "" && IsWordStart(w[0]) && !IsWord(w)
    ensures Reading(w).None?
  {}

  /** A run of digits leaves the question where it stops. */
  lemma {:induction false} NumeralRun(w: string, i: nat, j: nat, pointSeen: bool)
    requires i <= j <= |w| && forall k :: i <= k < j ==> IsDigit(w[k])
    ensures NumeralFrom(w, i, pointSeen) == NumeralFrom(w, j, pointSeen)
    decreases j - i
  {
    if i < j { NumeralRun(w, i + 1, j, pointSeen); }
  }

  /** From where NumberEnd stops on, only the text up to there is a numeral. */
  lemma {:induction false} NumeralEnds(src: string, pos: nat, c: nat)
    requires pos < |src| && IsDigit(src[pos]) && NumberEnd(src, pos) <= c <= |src|
    ensures c > pos && (IsNumeral(src[pos..c]) <==> c == NumberEnd(src, pos))
  {
    var whole, end, w := Scan(src, pos, Digits), NumberEnd(src, pos), src[pos..c];
    ScanClass(src, pos, Digits);
    assert forall k :: 0 <= k < c - pos ==> w[k] == src[pos + k];
    NumeralRun(w, 1, whole - pos, false);
    if whole < end {
      ScanClass(src, whole + 1, Digits);
      NumeralRun(w, whole - pos + 1, end - pos, true);
    }
  }

  lemma FirstIsDigit(w: string)
    requires w != "" && IsDigit(w[0]) && !IsNumeral(w)
    ensures Reading(w).None?
  {}

  lemma FirstIsQuote(w: string)
    requires w != "" && IsQuote(w[0])
    ensures Reading(w) == if IsQuoted(w) then Some((STRING, w[1..|w| - 1])) else None
  {}

  lemma {:induction false} NumberIsLongest(src: string, pos: nat)
    requires pos < |src| && IsDigit(src[pos])
    ensures Longest(src, pos, NumberEnd(src, pos), (NUMBER, src[pos..NumberEnd(src, pos)]))
  {
    NumeralEnds(src, pos, NumberEnd(src, pos));
    forall c | NumberEnd(src, pos) < c <= |src| ensures Reading(src[pos..c]).None? {
      NumeralEnds(src, pos, c);
      FirstIsDigit(src[pos..c]);
    }
  }

  lemma {:induction false} QuoteEnds(src: string, pos: nat, i: nat, c: nat, quote: char)
    requires pos <= i <= c <= |src|
    ensures FirstIsLast(src[pos..c], i - pos, quote) <==>
            i < c && src[c - 1] == quote && FindQuote(src, i, quote) == c - 1
    decreases c - i
  {
    if i < c {
      assert src[pos..c][i - pos] == src[i];
      if src[i] != quote { QuoteEnds(src, pos, i + 1, c, quote); }
    }
  }

  /** A string literal ends at the first quote like its own. */
  lemma {:induction false} QuotedEnds(src: string, pos: nat, c: nat)
    requires pos < c <= |src| && IsQuote(src[pos])
    ensures Reading(src[pos..c]).Some? <==> StringAt(src, pos).Ok? && c == StringAt(src, pos).value.end
    ensures Reading(src[pos..c]).Some? ==> Reading(src[pos..c]).value == (STRING, StringAt(src, pos).value.value)
  {
    var w := src[pos..c];
    assert w[0] == src[pos];
    QuoteEnds(src, pos, pos + 1, c, src[pos]);
    FirstIsQuote(w);
    QuoteIsThere(src, pos + 1, src[pos]);
    if c >= pos + 2 { SliceOfSlice(src, pos, c, pos + 1, c - 1); }
  }

  lemma {:induction false} QuoteIsThere(src: string, pos: nat, quote: char)
    requires pos <= |src|
    ensures FindQuote(src, pos, quote) < |src| ==> src[FindQuote(src, pos, quote)] == quote
    decreases |src| - pos
  {
    if pos < |src| && src[pos] != quote { QuoteIsThere(src, pos + 1, quote); }
  }

  lemma {:induction false} StringIsLongest(src: string, pos: nat)
    requires pos < |src| && IsQuote(src[pos])
    ensures match StringAt(src, pos)
            case Ok(x) => Longest(src, pos, x.end, (x.kind, x.value))
            case Err(_) => forall c :: pos < c <= |src| ==> Reading(src[pos..c]).None?
  {
    forall c | pos < c <= |src| && Reading(src[pos..c]).Some?
      ensures StringAt(src, pos).Ok? && c == StringAt(src, pos).value.end
    {
      QuotedEnds(src, pos, c);
    }
    if StringAt(src, pos).Ok? { QuotedEnds(src, pos, StringAt(src, pos).value.end); }
  }

  lemma {:induction false} SymbolIsLongest(src: string, pos: nat)
    requires pos < |src| && !IsWordStart(src[pos]) && !IsDigit(src[pos]) && !IsQuote(src[pos])
    ensures match SymbolAt(src, pos)
            case Ok(x) => Longest(src, pos, x.end, (x.kind, x.value))
            case Err(_) => forall c :: pos < c <= |src| ==> Reading(src[pos..c]).None?
  {
    forall c | pos < c <= |src|
      ensures Reading(src[pos..c]) ==
              match SymbolOf(src[pos..c]) case Some(k) => Some((k, src[pos..c])) case None => None
      ensures SymbolOf(src[pos..c]) == if c == pos + 1 then Symbol(src[pos])
                                       else if c == pos + 2 && src[pos + 1] == '='
                                       then SymbolWithEquals(src[pos]) else None
    {
      var w := src[pos..c];
      assert w[0] == src[pos] && (|w| > 1 ==> w[1] == src[pos + 1]);
    }
    assert src[pos..pos + 1] == [src[pos]];
    if pos + 1 < |src| { assert src[pos..pos + 2] == [src[pos], src[pos + 1]]; }
  }

  /** NextToken takes the longest lexeme, and fails exactly when there is none. */
  lemma {:induction false} LexemeAtIsLongest(src: string, pos: nat)
    requires pos < |src|
    ensures match LexemeAt(src, pos)
            case Ok(x) => Longest(src, pos, x.end, (x.kind, x.value))
            case Err(_) => forall c :: pos < c <= |src| ==> Reading(src[pos..c]).None?
  {
    if IsWordStart(src[pos]) { WordIsLongest(src, pos); }
    else if IsDigit(src[pos]) { NumberIsLongest(src, pos); }
    else if IsQuote(src[pos]) { StringIsLongest(src, pos); }
    else { SymbolIsLongest(src, pos); }
  }

  lemma {:induction false} LongestIsLexemeAt(src: string, a: nat, b: nat, r: (TokenType, string))
    requires Longest(src, a, b, r)
    ensures LexemeAt(src, a) == Ok(Lexeme(r.0, r.1, b))
  {
    LexemeAtIsLongest(src, a);
  }

  // ---- Dividing the whole text ----

  predicate Blank(src: string, a: nat, b: nat)
    requires b <= |src|
  {
    forall k :: a <= k < b ==> IsSpace(src[k])
  }

  /** Where the i-th gap begins. */
  function EndBefore(spans: seq<(nat, nat)>, i: nat): nat
    requires i <= |spans|
  {
    if i == 0 then 0 else spans[i - 1].1
  }

  /** The token is the longest lexeme of its span, which only whitespace separates from the end of
      the one before, and has the line and column of its first character. */
  ghost predicate Spanned(src: string, from: nat, span: (nat, nat), t: Token) {
    && from <= span.0 && Longest(src, span.0, span.1, (t.kind, t.value)) && Blank(src, from, span.0)
    && t.line == LineAt(src, span.0) && t.col == ColAt(src, span.0)
  }

  ghost predicate SpannedAt(src: string, spans: seq<(nat, nat)>, ts: seq<Token>, i: nat)
    requires i < |spans| && i < |ts|
  {
    Spanned(src, EndBefore(spans, i), spans[i], ts[i])
  }

  /** The text is divided into the lexemes of the tokens, in order, and whitespace. */
  ghost predicate Divides(src: string, spans: seq<(nat, nat)>, ts: seq<Token>) {
    && |ts| == |spans| + 1
    && (forall i :: 0 <= i < |spans| ==> SpannedAt(src, spans, ts, i))
    && EndBefore(spans, |spans|) <= |src| && Blank(src, EndBefore(spans, |spans|), |src|)
    && ts[|spans|] == TokenAt(src, |src|, END_OF_FILE, "")
  }

  lemma {:induction false} NoLeadingSpace(src: string, a: nat, b: nat)
    requires a < b <= |src| && Reading(src[a..b]).Some?
    ensures !IsSpace(src[a])
  {
    assert src[a..b][0] == src[a];
  }

  /** No text has more lexemes than characters. */
  lemma {:induction false} SpansWithin(src: string, spans: seq<(nat, nat)>, ts: seq<Token>, i: nat)
    requires Divides(src, spans, ts) && i <= |spans|
    ensures i <= EndBefore(spans, i) <= |src|
    decreases i
  {
    if i > 0 {
      SpansWithin(src, spans, ts, i - 1);
      assert SpannedAt(src, spans, ts, i - 1);
    }
  }

  /** Reading on from a gap finds the next token. */
  lemma {:induction false} SpannedIsNext(src: string, before: seq<Token>, from: nat, span: (nat, nat), t: Token)
    requires Spanned(src, from, span, t) && |before| < MAX_TOKENS
    ensures from <= span.0 < span.1 <= |src|
    ensures TokensFrom(src, from, before) == TokensFrom(src, span.1, before + [t])
  {
    NoLeadingSpace(src, span.0, span.1);
    ScanStops(src, from, span.0, Spaces);
    LongestIsLexemeAt(src, span.0, span.1, (t.kind, t.value));
    assert t == TokenAt(src, span.0, t.kind, t.value);
  }

  lemma {:induction false} NextIsSpanned(src: string, from: nat, x: Lexeme)
    requires from <= |src| && Scan(src, from, Spaces) < |src| && LexemeAt(src, Scan(src, from, Spaces)) == Ok(x)
    ensures var a := Scan(src, from, Spaces); Spanned(src, from, (a, x.end), TokenAt(src, a, x.kind, x.value))
  {
    ScanClass(src, from, Spaces);
    LexemeAtIsLongest(src, Scan(src, from, Spaces));
  }

  lemma {:induction false} DividedEnd(src: string, spans: seq<(nat, nat)>, ts: seq<Token>)
    requires Divides(src, spans, ts) && |spans| <= MAX_TOKENS
    ensures EndBefore(spans, |spans|) <= |src|
    ensures TokensFrom(src, EndBefore(spans, |spans|), ts[..|spans|]) == Ok(ts)
  {
    ScanStops(src, EndBefore(spans, |spans|), |src|, Spaces);
    assert ts == ts[..|spans|] + [ts[|spans|]];
  }

  lemma {:induction false} DividedIsRead(src: string, spans: seq<(nat, nat)>, ts: seq<Token>, i: nat)
    requires Divides(src, spans, ts) && i <= |spans| <= MAX_TOKENS
    ensures EndBefore(spans, i) <= |src| && TokensFrom(src, EndBefore(spans, i), ts[..i]) == Ok(ts)
    decreases |spans| - i
  {
    if i == |spans| {
      DividedEnd(src, spans, ts);
    } else {
      var from, t := EndBefore(spans, i), ts[i];
      assert SpannedAt(src, spans, ts, i);
      SpannedIsNext(src, ts[..i], from, spans[i], t);
      assert ts[..i + 1] == ts[..i] + [t];
      DividedIsRead(src, spans, ts, i + 1);
    }
  }

  lemma {:induction false} ReadIsDivided(src: string, done: seq<(nat, nat)>, before: seq<Token>, ts: seq<Token>)
    returns (spans: seq<(nat, nat)>)
    requires |done| == |before| && EndBefore(done, |done|) <= |src|
    requires forall i :: 0 <= i < |done| ==> SpannedAt(src, done, before, i)
    requires TokensFrom(src, EndBefore(done, |done|), before) == Ok(ts)
    ensures Divides(src, spans, ts)
    decreases |src| - EndBefore(done, |done|)
  {
    var from := EndBefore(done, |done|);
    var start := Scan(src, from, Spaces);
    if start == |src| {
      ScanClass(src, from, Spaces);
      spans := done;
      forall i | 0 <= i < |spans| ensures SpannedAt(src, spans, ts, i) { assert SpannedAt(src, done, before, i); }
    } else {
      var x := LexemeAt(src, start).value;
      NextIsSpanned(src, from, x);
      var more, tokens := done + [(start, x.end)], before + [TokenAt(src, start, x.kind, x.value)];
      forall i | 0 <= i < |more| ensures SpannedAt(src, more, tokens, i) {
        assert EndBefore(more, i) == EndBefore(done, i);
        if i < |done| { assert SpannedAt(src, done, before, i); }
      }
      spans := ReadIsDivided(src, more, tokens, ts);
    }
  }

  /** The lexer succeeds exactly when the text is within the size limit and has such a division,
      and returns its tokens. The token limit of 100000 never matters. */
  lemma {:induction false} LexesTheDivision(src: string, ts: seq<Token>)
    ensures TokensOf(src) == Ok(ts) <==> |src| <= 65536 && exists spans :: Divides(src, spans, ts)
  {
    if TokensOf(src) == Ok(ts) {
      var spans := ReadIsDivided(src, [], [], ts);
    }
    if |src| <= MAX_QUERY_SIZE && exists spans :: Divides(src, spans, ts) {
      var spans :| Divides(src, spans, ts);
      SpansWithin(src, spans, ts, |spans|);
      DividedIsRead(src, spans, ts, 0);
    }
  }

  /** A line number counts the newlines before it. */
  lemma {:induction false} LinesCountNewlines(src: string, pos: nat)
    requires pos <= |src|
    ensures LineAt(src, pos) == 1 + multiset(src[..pos])['\n']
  {
    if pos > 0 {
      LinesCountNewlines(src, pos - 1);
      assert src[..pos] == src[..pos - 1] + [src[pos - 1]];
    }
  }

  /** A column counts the characters since the last newline. */
  lemma {:induction false} ColumnsSinceNewline(src: string, pos: nat)
    requires pos <= |src|
    ensures 1 <= ColAt(src, pos) <= pos + 1
    ensures forall k :: pos + 1 - ColAt(src, pos) <= k < pos ==> src[k] != '\n'
    ensures ColAt(src, pos) <= pos ==> src[pos - ColAt(src, pos)] == '\n'
  {
    if pos > 0 { ColumnsSinceNewline(src, pos - 1); }
  }

  // ---- What the tables say ----

  /** The keyword of a kind, or "" for a kind that has none. */
  function Spelling(k: TokenType): string {
    match k
    case WITH => "with" case AS => "as" case HAVING => "having" case FROM => "from"
    case WHERE => "where" case SELECT => "select" case LIMIT => "limit" case ORDER => "order"
    case BY => "by" case GROUP => "group" case ASC => "asc" case DESC => "desc"
    case JOIN => "join" case ON => "on" case LIKE => "like" case INTO => "into"
    case RECURSIVE => "recursive" case UNION => "union" case ALL => "all"
    case AND => "and" case OR => "or"
    case _ => ""
  }

  /** The symbol of a kind, or "". */
  function SymbolText(k: TokenType): string {
    match k
    case COMMA => "," case STAR => "*" case LEFT_PAREN => "(" case RIGHT_PAREN => ")"
    case GREATER_THAN => ">" case LESS_THAN => "<" case GREATER_EQUALS => ">=" case LESS_EQUALS => "<="
    case EQUALS => "==" case NOT_EQUALS => "!="
    case _ => ""
  }

  /** The table lists each keyword once. */
  lemma {:induction false} KeywordTable(i: nat)
    requires i < |KEYWORDS|
    ensures KEYWORDS[i].0 == Spelling(KEYWORDS[i].1) != ""
  {
    assert |KEYWORDS| == 21;
  }

  lemma {:induction false} KeywordFrom(w: string, i: nat, j: nat)
    requires i <= j < |KEYWORDS| && KEYWORDS[j].0 == w
    ensures Keyword(w, i).Some? && Spelling(Keyword(w, i).value) == w
    decreases j - i
  {
    KeywordTable(i);
    if KEYWORDS[i].0 != w { KeywordFrom(w, i + 1, j); }
  }

  lemma {:induction false} KeywordIsSpelled(w: string, i: nat)
    requires Keyword(w, i).Some?
    ensures Spelling(Keyword(w, i).value) == w != ""
    decreases |KEYWORDS| - i
  {
    KeywordTable(i);
    if KEYWORDS[i].0 != w { KeywordIsSpelled(w, i + 1); }
  }

  /** Where the table has the keyword of a kind. */
  function Place(k: TokenType): (j: nat)
    ensures j < |KEYWORDS|
    ensures Spelling(k) != "" ==> KEYWORDS[j] == (Spelling(k), k)
  {
    match k
    case WITH => 0 case AS => 1 case HAVING => 2 case FROM => 3 case WHERE => 4 case SELECT => 5
    case LIMIT => 6 case ORDER => 7 case BY => 8 case GROUP => 9 case ASC => 10 case DESC => 11
    case JOIN => 12 case ON => 13 case LIKE => 14 case INTO => 15 case RECURSIVE => 16 case UNION => 17
    case ALL => 18 case AND => 19 case OR => 20
    case _ => 0
  }

  /** No two kinds have the same keyword. */
  lemma {:induction false} SpellingsDiffer(k: TokenType, l: TokenType)
    requires Spelling(k) == Spelling(l) != ""
    ensures k == l
  {}

  /** A word is looked up without regard to case: it is a keyword of the kind it spells. */
  lemma {:induction false} KeywordIff(w: string, k: TokenType)
    ensures Keyword(w, 0) == Some(k) <==> w != "" && w == Spelling(k)
  {
    if w != "" && w == Spelling(k) {
      KeywordFrom(w, 0, Place(k));
      SpellingsDiffer(k, Keyword(w, 0).value);
    }
    if Keyword(w, 0) == Some(k) { KeywordIsSpelled(w, 0); }
  }

  /** What a word reads as: the keyword it spells when its letters are made small, with these as its
      value, and otherwise a name. */
  lemma {:induction false} WordMeans(w: string, k: TokenType, value: string)
    requires IsWord(w)
    ensures Reading(w) == Some((k, value)) <==>
            || (Spelling(k) == ToLower(w) && value == ToLower(w))
            || (k.IDENTIFIER? && value == w && forall l :: Spelling(l) != ToLower(w))
  {
    assert |ToLower(w)| == |w| > 0;
    forall l ensures Keyword(ToLower(w), 0) == Some(l) <==> Spelling(l) == ToLower(w) { KeywordIff(ToLower(w), l); }
  }

  /** A text reads as a symbol exactly if it is the text of that symbol. */
  lemma {:induction false} SymbolMeans(w: string, k: TokenType)
    ensures SymbolOf(w) == Some(k) <==> w != "" && w == SymbolText(k)
  {}

  /** The characters of gaps, names, numbers and strings. */
  lemma {:induction false} CharactersListed(c: char)
    ensures IsSpace(c) <==> c in {' ', '\t', '\n', '\U{0B}', '\U{0C}', '\r'}
    ensures IsDigit(c) <==> c in {'0', '1', '2', '3', '4', '5', '6', '7', '8', '9'}
    ensures IsWordStart(c) <==> 'a' <= c <= 'z' || 'A' <= c <= 'Z' || c == '_'
    ensures IsWordChar(c) <==> IsWordStart(c) || IsDigit(c) || c in {'.', '/'}
    ensures IsQuote(c) <==> c in {'"', '\''}
  {}

  /** Making letters small turns each capital, and nothing else, into the letter 32 places on. */
  lemma {:induction false} LowerMeans(s: string, k: nat)
    requires k < |s|
    ensures ToLower(s)[k] as int == s[k] as int + if 65 <= s[k] as int <= 90 then 32 else 0
  {
    LowerAt(s, k);
  }
}
