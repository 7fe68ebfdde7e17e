/** The lexer. */
module Lexer {
  import opened Wrappers
  import opened Text
  import opened Ast

  const MAX_QUERY_SIZE := 65536
  const MAX_TOKENS := 100000
  const MAX_STRING_LENGTH := 8192

  predicate IsWordStart(c: char) {
    IsAlpha(c) || c == '_'
  }

  predicate IsWordChar(c: char) {
    IsAlpha(c) || IsDigit(c) || c == '_' || c == '.' || c == '/'
  }

  predicate IsQuote(c: char) {
    c == '"' || c == '\''
  }

  // ---- Positions ----

  /** Lines and columns count from 1. */
  function LineAt(src: string, pos: nat): nat
    requires pos <= |src|
  {
    if pos == 0 then 1 else LineAt(src, pos - 1) + if src[pos - 1] == '\n' then 1 else 0
  }

  function ColAt(src: string, pos: nat): nat
    requires pos <= |src|
  {
    if pos == 0 || src[pos - 1] == '\n' then 1 else ColAt(src, pos - 1) + 1
  }

  // ---- Lexemes ----

  const KEYWORDS: seq<(string, TokenType)> := [
    ("with", WITH), ("as", AS), ("having", HAVING), ("from", FROM),
    ("where", WHERE), ("select", SELECT), ("limit", LIMIT),
    ("order", ORDER), ("by", BY), ("group", GROUP), ("asc", ASC),
    ("desc", DESC), ("join", JOIN), ("on", ON), ("like", LIKE),
    ("into", INTO), ("recursive", RECURSIVE), ("union", UNION), ("all", ALL), ("and", AND), ("or", OR)]

  function Keyword(w: string, i: nat): Option<TokenType>
    decreases |KEYWORDS| - i
  {
    if i >= |KEYWORDS| then None else if KEYWORDS[i].0 == w then Some(KEYWORDS[i].1) else Keyword(w, i + 1)
  }

  /** Symbols of one character, and those of two, which all end in '='. */
  function Symbol(c: char): Option<TokenType> {
    match c
    case ',' => Some(COMMA)
    case '*' => Some(STAR)
    case '(' => Some(LEFT_PAREN)
    case ')' => Some(RIGHT_PAREN)
    case '>' => Some(GREATER_THAN)
    case '<' => Some(LESS_THAN)
    case _ => None
  }

  function SymbolWithEquals(c: char): Option<TokenType> {
    match c
    case '>' => Some(GREATER_EQUALS)
    case '<' => Some(LESS_EQUALS)
    case '=' => Some(EQUALS)
    case '!' => Some(NOT_EQUALS)
    case _ => None
  }

  /** What a token says, and where its text ends. */
  datatype Lexeme = Lexeme(kind: TokenType, value: string, end: nat)

  datatype CharClass = Spaces | Digits | WordChars

  predicate In(c: char, chars: CharClass) {
    match chars
    case Spaces => IsSpace(c)
    case Digits => IsDigit(c)
    case WordChars => IsWordChar(c)
  }

  /** Where the characters of a class stop. */
  function Scan(src: string, pos: nat, chars: CharClass): (end: nat)
    requires pos <= |src|
    ensures pos <= end <= |src|
    decreases |src| - pos
  {
    if pos < |src| && In(src[pos], chars) then Scan(src, pos + 1, chars) else pos
  }

  /** The next occurrence of a quote, or the end of the text. */
  function FindQuote(src: string, pos: nat, quote: char): (end: nat)
    requires pos <= |src|
    ensures pos <= end <= |src|
    decreases |src| - pos
  {
    if pos < |src| && src[pos] != quote then FindQuote(src, pos + 1, quote) else pos
  }

  function Word(w: string, end: nat): Lexeme {
    match Keyword(ToLower(w), 0)
    case Some(kind) => Lexeme(kind, ToLower(w), end)
    case None => Lexeme(IDENTIFIER, w, end)
  }

  function NumberEnd(src: string, pos: nat): (end: nat)
    requires pos <= |src|
    ensures pos <= end <= |src|
  {
    var whole := Scan(src, pos, Digits);
    if whole < |src| && src[whole] == '.' then Scan(src, whole + 1, Digits) else whole
  }

  function StringAt(src: string, pos: nat): (r: Result<Lexeme>)
    requires pos < |src|
    ensures r.Ok? ==> pos < r.value.end <= |src|
  {
    var close := FindQuote(src, pos + 1, src[pos]);
    if close - (pos + 1) > MAX_STRING_LENGTH then Err(SecurityError)
    else if close == |src| then Err(LexerError)
    else Ok(Lexeme(STRING, src[pos + 1..close], close + 1))
  }

  function SymbolAt(src: string, pos: nat): (r: Result<Lexeme>)
    requires pos < |src|
    ensures r.Ok? ==> pos < r.value.end <= |src|
  {
    if pos + 1 < |src| && src[pos + 1] == '=' && SymbolWithEquals(src[pos]).Some? then
      Ok(Lexeme(SymbolWithEquals(src[pos]).value, [src[pos], '='], pos + 2))
    else if Symbol(src[pos]).Some? then
      Ok(Lexeme(Symbol(src[pos]).value, [src[pos]], pos + 1))
    else Err(LexerError)
  }

  function LexemeAt(src: string, pos: nat): (r: Result<Lexeme>)
    requires pos < |src|
    ensures r.Ok? ==> pos < r.value.end <= |src|
  {
    if IsWordStart(src[pos]) then
      var end := Scan(src, pos, WordChars);
      Ok(Word(src[pos..end], end))
    else if IsDigit(src[pos]) then
      Ok(Lexeme(NUMBER, src[pos..NumberEnd(src, pos)], NumberEnd(src, pos)))
    else if IsQuote(src[pos]) then StringAt(src, pos)
    else SymbolAt(src, pos)
  }

  function TokenAt(src: string, pos: nat, kind: TokenType, value: string): Token
    requires pos <= |src|
  {
    Token(kind, value, LineAt(src, pos), ColAt(src, pos))
  }

  /** The tokens read so far and those from a position on. */
  function TokensFrom(src: string, pos: nat, tokens: seq<Token>): Result<seq<Token>>
    requires pos <= |src|
    decreases |src| - pos
  {
    var start := Scan(src, pos, Spaces);
    if start == |src| then Ok(tokens + [TokenAt(src, start, END_OF_FILE, "")])
    else
      var x :- LexemeAt(src, start);
      if |tokens| + 1 > MAX_TOKENS then Err(SecurityError)
      else TokensFrom(src, x.end, tokens + [TokenAt(src, start, x.kind, x.value)])
  }

  /** The whole lexer, with the check its constructor makes. */
  function TokensOf(src: string): Result<seq<Token>> {
    if |src| > MAX_QUERY_SIZE then Err(SecurityError) else TokensFrom(src, 0, [])
  }

  /** r is the token that starts at a position, or its error, and end the position after it. */
  ghost predicate Yields(src: string, start: nat, r: Result<Token>, end: nat)
    requires start < |src|
  {
    match LexemeAt(src, start)
    case Err(e) => r == Err(e)
    case Ok(x) => r == Ok(TokenAt(src, start, x.kind, x.value)) && end == x.end
  }

  // ---- The lexer object ----

  class Lexer {
    const source: string
    var pos: nat
    var line: nat
    var col: nat

    ghost predicate Valid()
      reads this
    {
      pos <= |source| && line == LineAt(source, pos) && col == ColAt(source, pos)
    }

    constructor (source: string)
      ensures Valid() && this.source == source && pos == 0
    {
      this.source := source;
      pos, line, col := 0, 1, 1;
    }

    predicate AtEnd()
      reads this
    {
      pos >= |source|
    }

    /** The current character. At the end the source yields '\0'. */
    function Peek(): char
      reads this
    {
      if pos < |source| then source[pos] else '\0'
    }

    method Advance() returns (c: char)
      requires Valid()
      modifies this
      ensures Valid() && c == old(Peek()) && pos == if old(AtEnd()) then old(pos) else old(pos) + 1
    {
      if AtEnd() { return '\0'; }
      c := source[pos];
      pos := pos + 1;
      if c == '\n' {
        line, col := line + 1, 1;
      } else {
        col := col + 1;
      }
    }

    method SkipWhitespace()
      requires Valid()
      modifies this
      ensures Valid() && pos == Scan(source, old(pos), Spaces)
    {
      while !AtEnd()
        invariant Valid() && Scan(source, pos, Spaces) == Scan(source, old(pos), Spaces)
        decreases |source| - pos
      {
        if !IsSpace(Peek()) { break; }
        var _ := Advance();
      }
    }

    method Tokenize() returns (r: Result<seq<Token>>)
      requires Valid() && pos == 0
      modifies this
      ensures Valid() && r == TokensFrom(source, 0, [])
    {
      var tokens: seq<Token> := [];
      while !AtEnd()
        invariant Valid() && |tokens| <= MAX_TOKENS
        invariant TokensFrom(source, pos, tokens) == TokensFrom(source, 0, [])
        decreases |source| - pos
      {
        SkipWhitespace();
        if AtEnd() { break; }
        var token := NextToken();
        if token.Err? { return Err(token.error); }
        tokens := tokens + [token.value];
        if |tokens| > MAX_TOKENS { return Err(SecurityError); }
      }
      r := Ok(tokens + [Token(END_OF_FILE, "", line, col)]);
    }

    method NextToken() returns (r: Result<Token>)
      requires Valid() && !AtEnd()
      modifies this
      ensures Valid() && Yields(source, old(pos), r, pos)
    {
      var c, startLine, startCol := Peek(), line, col;
      if IsAlpha(c) || c == '_' {
        r := ReadIdentifierOrKeyword();
        return;
      }
      if IsDigit(c) {
        r := ReadNumber();
        return;
      }
      if c == '"' || c == '\'' {
        r := ReadString();
        return;
      }
      var _ := Advance();
      if c == ',' { return Ok(Token(COMMA, ",", startLine, startCol)); }
      if c == '*' { return Ok(Token(STAR, "*", startLine, startCol)); }
      if c == '(' { return Ok(Token(LEFT_PAREN, "(", startLine, startCol)); }
      if c == ')' { return Ok(Token(RIGHT_PAREN, ")", startLine, startCol)); }
      if c != '>' && c != '<' && c != '=' && c != '!' { return Err(LexerError); }
      if Peek() == '=' {
        var _ := Advance();
        var kind := if c == '>' then GREATER_EQUALS
                    else if c == '<' then LESS_EQUALS
                    else if c == '=' then EQUALS
                    else NOT_EQUALS;
        return Ok(Token(kind, [c, '='], startLine, startCol));
      }
      if c == '>' { return Ok(Token(GREATER_THAN, ">", startLine, startCol)); }
      if c == '<' { return Ok(Token(LESS_THAN, "<", startLine, startCol)); }
      return Err(LexerError);
    }

    method ReadIdentifierOrKeyword() returns (r: Result<Token>)
      requires Valid() && !AtEnd() && IsWordStart(Peek())
      modifies this
      ensures Valid() && Yields(source, old(pos), r, pos)
    {
      var start, startLine, startCol := pos, line, col;
      while !AtEnd() && IsWordChar(Peek())
        invariant Valid() && start <= pos && Scan(source, pos, WordChars) == Scan(source, start, WordChars)
        decreases |source| - pos
      {
        var _ := Advance();
      }
      var value := source[start..pos];
      var lower := ToLower(value);
      var keyword := Keyword(lower, 0);
      r := Ok(if keyword.Some? then Token(keyword.value, lower, startLine, startCol)
              else Token(IDENTIFIER, value, startLine, startCol));
    }

    method ReadNumber() returns (r: Result<Token>)
      requires Valid() && !AtEnd() && IsDigit(Peek())
      modifies this
      ensures Valid() && Yields(source, old(pos), r, pos)
    {
      var start, startLine, startCol := pos, line, col;
      while !AtEnd() && IsDigit(Peek())
        invariant Valid() && start <= pos && Scan(source, pos, Digits) == Scan(source, start, Digits)
        decreases |source| - pos
      {
        var _ := Advance();
      }
      if !AtEnd() && Peek() == '.' {
        var _ := Advance();
        ghost var point := pos;
        while !AtEnd() && IsDigit(Peek())
          invariant Valid() && point <= pos && Scan(source, pos, Digits) == Scan(source, point, Digits)
          decreases |source| - pos
        {
          var _ := Advance();
        }
      }
      r := Ok(Token(NUMBER, source[start..pos], startLine, startCol));
    }

    method ReadString() returns (r: Result<Token>)
      requires Valid() && !AtEnd() && IsQuote(Peek())
      modifies this
      ensures Valid() && Yields(source, old(pos), r, pos)
    {
      var startLine, startCol := line, col;
      var quote := Advance();
      var start, length := pos, 0;
      while !AtEnd() && Peek() != quote
        invariant Valid() && pos == start + length && length <= MAX_STRING_LENGTH
        invariant FindQuote(source, pos, quote) == FindQuote(source, start, quote)
        decreases |source| - pos
      {
        var _ := Advance();
        length := length + 1;
        if length > MAX_STRING_LENGTH { return Err(SecurityError); }
      }
      var value := source[start..start + length];
      if AtEnd() { return Err(LexerError); }
      var _ := Advance();
      r := Ok(Token(STRING, value, startLine, startCol));
    }
  }

  method Lex(source: string) returns (r: Result<seq<Token>>)
    ensures r == TokensOf(source)
  {
    if |source| > MAX_QUERY_SIZE { return Err(SecurityError); }
    var lexer := new Lexer(source);
    r := lexer.Tokenize();
  }
}
