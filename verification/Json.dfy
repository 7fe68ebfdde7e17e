/** The JSON reader: an array of flat objects whose values are strings or numbers, read in one
    piece. */
module Json {
  import opened Wrappers
  import opened Rows
  import opened Text
  import opened Limits

  /** Something read, and the position after it. */
  datatype Parsed<T> = Parsed(value: T, end: nat)

  // ---- What the parse methods read at a position ----

  function SkipSpace(data: string, pos: nat): (end: nat)
    ensures pos <= end && (pos <= |data| ==> end <= |data|)
    decreases |data| - pos
  {
    if pos < |data| && IsSpace(data[pos]) then SkipSpace(data, pos + 1) else pos
  }

  /** The first quote that no backslash precedes, or a position past the end. A backslash takes the
      character after it along. */
  function FindClose(data: string, pos: nat): (end: nat)
    ensures pos <= end
    ensures end < |data| ==> data[end] == '"'
    decreases |data| - pos
  {
    if pos >= |data| || data[pos] == '"' then pos
    else FindClose(data, if data[pos] == '\\' then pos + 2 else pos + 1)
  }

  /** text and what follows it up to close, without the backslashes that take a character along. */
  function Unescape(data: string, pos: nat, close: nat, text: string): string
    requires close <= |data|
    decreases |data| - pos
  {
    if pos >= close then text
    else if data[pos] != '\\' then Unescape(data, pos + 1, close, text + [data[pos]])
    else if pos + 1 < close then Unescape(data, pos + 2, close, text + [data[pos + 1]])
    else text
  }

  /** No backslash between two positions. */
  predicate Plain(data: string, pos: nat, close: nat)
    requires close <= |data|
  {
    forall k :: pos <= k < close ==> data[k] != '\\'
  }

  function StringAt(data: string, pos: nat): (r: Result<Parsed<string>>)
    ensures r.Ok? ==> pos < r.value.end <= |data|
  {
    var open := SkipSpace(data, pos);
    if open >= |data| || data[open] != '"' then Err(RuntimeError)
    else
      var close := FindClose(data, open + 1);
      if close >= |data| then Err(RuntimeError)
      else Ok(Parsed(Unescape(data, open + 1, close, ""), close + 1))
  }

  function CharAt(data: string, pos: nat, expected: char): (r: Result<nat>)
    ensures r.Ok? ==> pos < r.value <= |data|
  {
    var p := SkipSpace(data, pos);
    if p < |data| && data[p] == expected then Ok(p + 1) else Err(RuntimeError)
  }

  predicate IsNumberChar(c: char) {
    IsDigit(c) || c == '.' || c == '-'
  }

  function NumberEnd(data: string, pos: nat): (end: nat)
    ensures pos <= end && (pos <= |data| ==> end <= |data|)
    decreases |data| - pos
  {
    if pos < |data| && IsNumberChar(data[pos]) then NumberEnd(data, pos + 1) else pos
  }

  /** A string, or a run of digits, points and minus signs that begins like a number. */
  function ValueAt(data: string, pos: nat): (r: Result<Parsed<string>>)
    ensures r.Ok? ==> pos < r.value.end <= |data|
  {
    var p := SkipSpace(data, pos);
    if p >= |data| then Err(RuntimeError)
    else if data[p] == '"' then StringAt(data, p)
    else if IsDigit(data[p]) || data[p] == '-' then
      var end := NumberEnd(data, p);
      assert end == NumberEnd(data, p + 1);
      Ok(Parsed(data[p..end], end))
    else Err(RuntimeError)
  }

  /** The members from pos on, stored in row, up to and with the closing brace. */
  function MembersAt(data: string, pos: nat, row: Row): (r: Result<Parsed<Row>>)
    ensures r.Ok? ==> pos < r.value.end <= |data|
    decreases |data| - pos, 1
  {
    var p := SkipSpace(data, pos);
    if p >= |data| then Err(RuntimeError)
    else if data[p] == '}' then Ok(Parsed(row, p + 1))
    else MemberAt(data, p, row)
  }

  /** A member, the comma after it if there is one, and the members that follow. */
  function MemberAt(data: string, pos: nat, row: Row): (r: Result<Parsed<Row>>)
    ensures r.Ok? ==> pos < r.value.end <= |data|
    decreases |data| - pos, 0
  {
    var key :- StringAt(data, pos);
    var colon :- CharAt(data, key.end, ':');
    var val :- ValueAt(data, colon);
    var next := SkipSpace(data, val.end);
    if next < |data| && data[next] == ',' then MembersAt(data, next + 1, Put(row, key.value, val.value))
    else if next < |data| && data[next] != '}' then Err(RuntimeError)
    else MembersAt(data, next, Put(row, key.value, val.value))
  }

  function ObjectAt(data: string, pos: nat): (r: Result<Parsed<Row>>)
    ensures r.Ok? ==> pos < r.value.end <= |data|
  {
    var open :- CharAt(data, pos, '{');
    MembersAt(data, open, [])
  }

  /** Where the search for the next object stops: after whitespace and at most one comma. */
  function NextStart(data: string, pos: nat): (p: nat)
    ensures pos <= p && (pos <= |data| ==> p <= |data|)
  {
    var p := SkipSpace(data, pos);
    if p < |data| && data[p] == ',' then SkipSpace(data, p + 1) else p
  }

  /** The rows read so far and those that repeating `while HasNext() { Next(); }` adds from pos on. */
  function RowsAt(data: string, pos: nat, rows: seq<Row>): Result<seq<Row>>
    decreases |data| - pos
  {
    var p := NextStart(data, pos);
    if p >= |data| || data[p] != '{' then Ok(rows)
    else
      var first :- ObjectAt(data, p);
      RowsAt(data, first.end, rows + [first.value])
  }

  /** The position after the opening bracket. */
  function ArrayStart(data: string): Result<nat> {
    var p := SkipSpace(data, 0);
    if p < |data| && data[p] == '[' then Ok(p + 1) else Err(RuntimeError)
  }

  /** All rows of a file. */
  function RowsOf(data: string): Result<seq<Row>> {
    var start :- ArrayStart(data);
    RowsAt(data, start, [])
  }

  // ---- The adapter ----

  class JsonAdapter {
    var data: string
    var pos: nat
    var endOffset: nat

    /** An adapter that was not split reads to the end of the file. */
    ghost predicate Valid()
      reads this
    {
      endOffset == |data|
    }

    constructor ()
      ensures Valid() && data == "" && pos == 0
    {
      data, pos, endOffset := "", 0, 0;
    }

    method Open(content: string) returns (r: Result<()>)
      requires Valid() && pos == 0
      modifies this
      ensures Valid()
      ensures |content| > 104857600 ==> r == Err(SecurityError)
      ensures |content| <= 104857600 ==>
                data == content && (r.Ok? <==> ArrayStart(content).Ok?) && (r.Err? ==> r.error == RuntimeError)
      ensures r.Ok? ==> pos == ArrayStart(content).value
    {
      if |content| > MAX_FILE_SIZE { return Err(SecurityError); }
      data, endOffset := content, |content|;
      SkipWhitespace();
      if pos < |data| && data[pos] == '[' {
        pos := pos + 1;
        return Ok(());
      }
      r := Err(RuntimeError);
    }

    method SkipWhitespace()
      modifies this`pos
      ensures pos == SkipSpace(data, old(pos))
    {
      while pos < |data| && IsSpace(data[pos])
        invariant SkipSpace(data, pos) == SkipSpace(data, old(pos))
      {
        pos := pos + 1;
      }
    }

    method Match(expected: char) returns (ok: bool)
      modifies this`pos
      ensures ok <==> CharAt(data, old(pos), expected).Ok?
      ensures ok ==> pos == CharAt(data, old(pos), expected).value
    {
      SkipWhitespace();
      ok := pos < |data| && data[pos] == expected;
      if ok { pos := pos + 1; }
    }

    /** r is what spec says is read, and the position is after it. */
    ghost predicate Yields<T>(r: Result<T>, spec: Result<Parsed<T>>)
      reads this
    {
      match spec
      case Ok(p) => r == Ok(p.value) && pos == p.end
      case Err(e) => r == Err(e)
    }

    method ParseString() returns (r: Result<string>)
      modifies this`pos
      ensures Yields(r, StringAt(data, old(pos)))
    {
      SkipWhitespace();
      if pos >= |data| || data[pos] != '"' { return Err(RuntimeError); }
      pos := pos + 1;
      var start := pos;
      var hasEscape := ScanString();
      if pos >= |data| { return Err(RuntimeError); }
      if hasEscape {
        var text := CopyUnescaped(start);
        r := Ok(text);
      } else {
        PlainIsCopied(data, start, pos);
        r := Ok(data[start..pos]);
      }
      pos := pos + 1;
    }

    /** Moves to the closing quote, or past the end. */
    method ScanString() returns (hasEscape: bool)
      modifies this`pos
      ensures pos == FindClose(data, old(pos))
      ensures !hasEscape && pos < |data| ==> Plain(data, old(pos), pos)
    {
      ghost var start := pos;
      hasEscape := false;
      while pos < |data| && data[pos] != '"'
        invariant start <= pos && FindClose(data, pos) == FindClose(data, start)
        invariant !hasEscape && pos <= |data| ==> Plain(data, start, pos)
        decreases |data| - pos
      {
        if data[pos] == '\\' {
          hasEscape := true;
          pos := pos + 1;
        }
        pos := pos + 1;
      }
    }

    /** Copies a string with escapes, from start to its closing quote. */
    method CopyUnescaped(start: nat) returns (text: string)
      requires start <= pos <= |data|
      ensures text == Unescape(data, start, pos, "")
    {
      text := "";
      var p := start;
      while p < pos
        invariant start <= p && Unescape(data, p, pos, text) == Unescape(data, start, pos, "")
      {
        if data[p] == '\\' {
          p := p + 1;
          if p < pos {
            text := text + [data[p]];
            p := p + 1;
          }
        } else {
          text := text + [data[p]];
          p := p + 1;
        }
      }
    }

    /** The value of a member. */
    method ParseValue() returns (r: Result<string>)
      modifies this`pos
      ensures Yields(r, ValueAt(data, old(pos)))
    {
      SkipWhitespace();
      if pos >= |data| { return Err(RuntimeError); }
      if data[pos] == '"' {
        r := ParseString();
      } else if IsDigit(data[pos]) || data[pos] == '-' {
        var start := pos;
        while pos < |data| && IsNumberChar(data[pos])
          invariant start <= pos <= |data| && NumberEnd(data, pos) == NumberEnd(data, start)
        {
          pos := pos + 1;
        }
        r := Ok(data[start..pos]);
      } else {
        r := Err(RuntimeError);
      }
    }

    /** One turn of the loop of ParseObject. */
    method ParseMember(row: Row) returns (r: Result<Row>)
      modifies this`pos
      ensures match r
              case Err(e) => MemberAt(data, old(pos), row) == Err(e)
              case Ok(row') => && MemberAt(data, old(pos), row) == MembersAt(data, pos, row')
                               && old(pos) < pos && SkipSpace(data, pos) == pos
    {
      var key := ParseString();
      if key.Err? { return Err(RuntimeError); }
      var ok := Match(':');
      if !ok { return Err(RuntimeError); }
      var val := ParseValue();
      if val.Err? { return Err(RuntimeError); }
      SkipTwice(data, pos);
      SkipWhitespace();
      if pos < |data| && data[pos] == ',' {
        pos := pos + 1;
        AfterSpace(data, pos, Put(row, key.value, val.value));
        SkipWhitespace();
      } else if pos < |data| && data[pos] != '}' {
        return Err(RuntimeError);
      }
      r := Ok(Put(row, key.value, val.value));
    }

    method ParseObject() returns (r: Result<Row>)
      modifies this`pos
      ensures Yields(r, ObjectAt(data, old(pos)))
    {
      var row: Row := [];
      var ok := Match('{');
      if !ok { return Err(RuntimeError); }
      ghost var spec := MembersAt(data, pos, []);
      AfterSpace(data, pos, []);
      SkipWhitespace();
      while pos < |data| && data[pos] != '}'
        invariant SkipSpace(data, pos) == pos && MembersAt(data, pos, row) == spec
        decreases |data| - pos
      {
        var more := ParseMember(row);
        if more.Err? { return more; }
        row := more.value;
      }
      ok := Match('}');
      r := if ok then Ok(row) else Err(RuntimeError);
    }

    /** Called twice, it may step over two commas: it is not idempotent between objects. */
    method MoveToNextObject() returns (found: bool)
      requires Valid()
      modifies this`pos
      ensures pos == NextStart(data, old(pos))
      ensures found <==> pos < |data| && data[pos] == '{'
    {
      if pos >= endOffset { return false; }
      SkipWhitespace();
      if pos >= endOffset { return false; }
      if pos < |data| && data[pos] == ',' {
        pos := pos + 1;
        SkipWhitespace();
      }
      found := pos < |data| && data[pos] == '{';
    }

    method HasNext() returns (found: bool)
      requires Valid()
      modifies this`pos
      ensures pos == NextStart(data, old(pos))
      ensures found <==> pos < |data| && data[pos] == '{'
    {
      found := MoveToNextObject();
    }

    method Next() returns (r: Result<Row>)
      requires Valid()
      modifies this`pos
      ensures var p := NextStart(data, old(pos));
              if p < |data| && data[p] == '{' then Yields(r, ObjectAt(data, p)) else r == Err(RuntimeError)
    {
      var found := HasNext();
      if !found { return Err(RuntimeError); }
      r := ParseObject();
    }

    /** The loop of every executor. */
    method ReadRows() returns (r: Result<seq<Row>>)
      requires Valid()
      modifies this`pos
      ensures r == RowsAt(data, old(pos), [])
    {
      var rows: seq<Row> := [];
      var found := HasNext();
      while found
        invariant found <==> pos < |data| && data[pos] == '{'
        invariant !found ==> RowsAt(data, old(pos), []) == Ok(rows)
        invariant found ==> RowsAt(data, old(pos), []) == RowsAt(data, pos, rows)
        decreases |data| - pos, found
      {
        var row := Next();
        if row.Err? { return Err(row.error); }
        rows := rows + [row.value];
        found := HasNext();
      }
      r := Ok(rows);
    }
  }

  lemma {:induction false} UnescapePlain(data: string, pos: nat, close: nat, text: string)
    requires pos <= close <= |data| && Plain(data, pos, close)
    ensures Unescape(data, pos, close, text) == text + data[pos..close]
    decreases close - pos
  {
    if pos < close {
      UnescapePlain(data, pos + 1, close, text + [data[pos]]);
      assert data[pos..close] == [data[pos]] + data[pos + 1..close];
    }
  }

  lemma {:induction false} PlainIsCopied(data: string, pos: nat, close: nat)
    requires pos <= close <= |data| && Plain(data, pos, close)
    ensures Unescape(data, pos, close, "") == data[pos..close]
  {
    UnescapePlain(data, pos, close, "");
    assert "" + data[pos..close] == data[pos..close];
  }

  lemma {:induction false} SkipTwice(data: string, pos: nat)
    ensures SkipSpace(data, SkipSpace(data, pos)) == SkipSpace(data, pos)
    decreases |data| - pos
  {
    if pos < |data| && IsSpace(data[pos]) { SkipTwice(data, pos + 1); }
  }

  lemma {:induction false} AfterSpace(data: string, pos: nat, row: Row)
    ensures SkipSpace(data, SkipSpace(data, pos)) == SkipSpace(data, pos)
    ensures MembersAt(data, SkipSpace(data, pos), row) == MembersAt(data, pos, row)
  {
    SkipTwice(data, pos);
  }
}
