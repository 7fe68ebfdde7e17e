/** The CSV reader: a file held in memory, a read offset, and chunks handed out to threads.
    All columns are projected, as the runtime always leaves them. */
module Csv {
  import opened Wrappers
  import opened Rows
  import opened Text
  import opened Limits

  // ---- What a row is ----

  /** The first newline outside quotes at or after i, or the end of the file. */
  function ScanEnd(data: string, i: nat, inQuotes: bool): (e: nat)
    requires i <= |data|
    ensures i <= e <= |data|
    ensures e < |data| ==> data[e] == '\n'
    decreases |data| - i
  {
    if i == |data| then i
    else if data[i] == '"' then ScanEnd(data, i + 1, !inQuotes)
    else if data[i] == '\n' && !inQuotes then i
    else ScanEnd(data, i + 1, inQuotes)
  }

  /** Where reading continues after a row or line that ends at e. */
  function After(data: string, e: nat): nat
    requires e <= |data|
  {
    if e < |data| then e + 1 else |data|
  }

  function NextOffset(data: string, o: nat): (next: nat)
    requires o <= |data|
    ensures o <= next <= |data|
    ensures o < |data| ==> o < next
  {
    After(data, ScanEnd(data, o, false))
  }

  /** The cells of a line, separated by delimiters outside quotes. */
  function SplitFrom(line: string, start: nat, i: nat, inQuotes: bool, delim: char): (cells: seq<string>)
    requires start <= i <= |line|
    ensures cells != []
    decreases |line| - i
  {
    if i == |line| then [line[start..]]
    else if line[i] == '"' then SplitFrom(line, start, i + 1, !inQuotes, delim)
    else if line[i] == delim && !inQuotes then [line[start..i]] + SplitFrom(line, i + 1, i + 1, false, delim)
    else SplitFrom(line, start, i + 1, inQuotes, delim)
  }

  /** Drops one trailing carriage return, then one pair of enclosing quotes. */
  function Clean(cell: string): string {
    Unquote(if cell != "" && cell[|cell| - 1] == '\r' then cell[..|cell| - 1] else cell)
  }

  function Unquote(cell: string): string {
    if |cell| >= 2 && cell[0] == '"' && cell[|cell| - 1] == '"' then cell[1..|cell| - 1] else cell
  }

  /** Stores cells under the headers from column col on; surplus cells are ignored. */
  function Fill(headers: seq<string>, cells: seq<string>, col: nat, row: Row): Row
    decreases cells
  {
    if cells == [] then row
    else Fill(headers, cells[1..], col + 1, PutCell(headers, cells[0], col, row))
  }

  function PutCell(headers: seq<string>, cell: string, col: nat, row: Row): Row {
    if col < |headers| then Put(row, headers[col], Clean(cell)) else row
  }

  /** A last line without newline loses an empty last cell. */
  function Trim(cells: seq<string>, atEnd: bool): seq<string>
    requires cells != []
  {
    if atEnd && cells[|cells| - 1] == "" then cells[..|cells| - 1] else cells
  }

  /** The cells of the row at o. */
  function RowCells(data: string, o: nat, delim: char): seq<string>
    requires o <= |data|
  {
    var e := ScanEnd(data, o, false);
    Trim(SplitFrom(data[o..e], 0, 0, false, delim), e == |data|)
  }

  function RowAt(data: string, o: nat, delim: char, headers: seq<string>): Row
    requires o <= |data|
  {
    Fill(headers, RowCells(data, o, delim), 0, [])
  }

  /** The offsets of the rows read from o by repeating `while HasNext() { Next(); }`. */
  function RowStarts(data: string, o: nat, end: nat): seq<nat>
    requires o <= |data| && end <= |data|
    decreases |data| - o
  {
    if o < end then [o] + RowStarts(data, NextOffset(data, o), end) else []
  }

  function RowsAt(data: string, starts: seq<nat>, delim: char, headers: seq<string>): (rows: seq<Row>)
    requires forall k :: 0 <= k < |starts| ==> starts[k] <= |data|
    ensures |rows| == |starts|
    ensures forall k :: 0 <= k < |starts| ==> rows[k] == RowAt(data, starts[k], delim, headers)
  {
    if starts == [] then [] else
      [RowAt(data, starts[0], delim, headers)] + RowsAt(data, starts[1..], delim, headers)
  }

  lemma {:induction false} RowStartsInRange(data: string, o: nat, end: nat)
    requires o <= |data| && end <= |data|
    ensures forall k :: 0 <= k < |RowStarts(data, o, end)| ==> o <= RowStarts(data, o, end)[k] < end
    decreases |data| - o
  {
    if o < end { RowStartsInRange(data, NextOffset(data, o), end); }
  }

  /** All rows from o up to end. */
  function RowsFrom(data: string, o: nat, end: nat, delim: char, headers: seq<string>): seq<Row>
    requires o <= |data| && end <= |data|
  {
    RowStartsInRange(data, o, end);
    RowsAt(data, RowStarts(data, o, end), delim, headers)
  }

  // ---- Headers ----

  /** The first newline at or after i, quoted or not, or the end of the file. */
  function FirstNewline(data: string, i: nat): (e: nat)
    requires i <= |data|
    ensures i <= e <= |data|
    ensures e < |data| ==> data[e] == '\n'
    ensures forall k :: i <= k < e ==> data[k] != '\n'
    decreases |data| - i
  {
    if i == |data| || data[i] == '\n' then i else FirstNewline(data, i + 1)
  }

  /** The pieces of a line between delimiters; quotes have no effect here. */
  function Pieces(line: string, start: nat, i: nat, delim: char): seq<string>
    requires start <= i <= |line|
    decreases |line| - i
  {
    if i == |line| then [line[start..]]
    else if line[i] == delim then [line[start..i]] + Pieces(line, i + 1, i + 1, delim)
    else Pieces(line, start, i + 1, delim)
  }

  function CleanAll(cells: seq<string>): (r: seq<string>)
    ensures |r| == |cells| && forall k :: 0 <= k < |r| ==> r[k] == Clean(cells[k])
  {
    seq(|cells|, k requires 0 <= k < |cells| => Clean(cells[k]))
  }

  function HeadersOf(data: string, delim: char): seq<string> {
    if data == "" then []
    else CleanAll(Pieces(data[..FirstNewline(data, 0)], 0, 0, delim))
  }

  function DataStart(data: string): nat {
    if data == "" then 0 else After(data, FirstNewline(data, 0))
  }

  // ---- Chunks ----

  function ChunkStart(data: string, base: nat, n: nat, i: nat): nat
    requires n > 0 && base <= |data|
  {
    base + i * ((|data| - base) / n)
  }

  function ChunkEnd(data: string, base: nat, n: nat, i: nat): nat
    requires n > 0 && base <= |data|
  {
    if i == n - 1 then |data| else ChunkStart(data, base, n, i + 1)
  }

  lemma {:induction false} ChunkBounds(data: string, base: nat, n: nat, i: nat)
    requires n > 0 && base <= |data| && i < n
    ensures base <= ChunkStart(data, base, n, i) <= ChunkEnd(data, base, n, i) <= |data|
  {
    var size := (|data| - base) / n;
    assert (i + 1) * size == i * size + size;
    MulMonotone(i + 1, n, size);
    MulMonotone(0, i, size);
  }

  lemma {:induction false} MulMonotone(a: nat, b: nat, c: nat)
    requires a <= b
    ensures a * c <= b * c
  {
    assert (b - a) * c >= 0;
    assert (b - a) * c == b * c - a * c;
  }

  /** Where a chunk that begins at start really starts reading. */
  function Align(data: string, start: nat): nat
    requires start <= |data|
  {
    if start > 0 && data[start - 1] != '\n' then After(data, FirstNewline(data, start)) else start
  }

  /** The offsets and the rows that child i of n reads. */
  function ChildStarts(data: string, base: nat, n: nat, i: nat): seq<nat>
    requires n > 0 && base <= |data| && i < n
  {
    ChunkBounds(data, base, n, i);
    RowStarts(data, Align(data, ChunkStart(data, base, n, i)), ChunkEnd(data, base, n, i))
  }

  function ChildRows(data: string, base: nat, n: nat, i: nat, headers: seq<string>): seq<Row>
    requires n > 0 && base <= |data| && i < n
  {
    ChunkBounds(data, base, n, i);
    RowsFrom(data, Align(data, ChunkStart(data, base, n, i)), ChunkEnd(data, base, n, i), ',', headers)
  }

  // ---- The adapter ----

  class CsvAdapter {
    var data: string
    var offset: nat
    var endOffset: nat
    var headers: seq<string>
    const delimiter: char

    ghost predicate Valid()
      reads this
    {
      offset <= |data| && endOffset <= |data| && delimiter in {',', '\t'}
    }

    /** The rows still to come. */
    ghost function Remaining(): seq<Row>
      requires Valid()
      reads this
    {
      RowsFrom(data, offset, endOffset, delimiter, headers)
    }

    constructor (delimiter: char)
      requires delimiter in {',', '\t'}
      ensures Valid() && this.delimiter == delimiter
      ensures data == "" && offset == 0 && endOffset == 0 && headers == []
    {
      this.delimiter := delimiter;
      data, offset, endOffset, headers := "", 0, 0, [];
    }

    method Open(content: string) returns (r: Result<()>)
      requires Valid() && offset == 0 && headers == []
      modifies this
      ensures Valid()
      ensures r.Err? <==> |content| > 104857600
      ensures r.Ok? ==> data == content && headers == HeadersOf(content, delimiter)
                        && offset == DataStart(content) && endOffset == |content|
    {
      if |content| > MAX_FILE_SIZE { return Err(SecurityError); }
      data := content;
      endOffset := |content|;
      ReadHeaders();
      return Ok(());
    }

    method ReadHeaders()
      requires Valid() && offset == 0 && headers == []
      modifies this`offset, this`headers
      ensures Valid() && headers == HeadersOf(data, delimiter) && offset == DataStart(data)
    {
      if offset >= |data| { return; }
      var end := offset;
      while end < |data| && data[end] != '\n'
        invariant end <= |data|
        invariant FirstNewline(data, end) == FirstNewline(data, 0)
      {
        end := end + 1;
      }
      var line := data[offset..end];
      offset := if end < |data| then end + 1 else |data|;
      var start, i := 0, 0;
      var found: seq<string> := [];
      while i < |line|
        invariant start <= i <= |line|
        invariant found + Pieces(line, start, i, delimiter) == Pieces(line, 0, 0, delimiter)
      {
        if line[i] == delimiter {
          found := found + [line[start..i]];
          start := i + 1;
        }
        i := i + 1;
      }
      found := found + [line[start..]];
      headers := CleanAll(found);
    }

    predicate HasNext()
      reads this
    {
      offset < endOffset
    }

    method Next() returns (r: Result<Row>)
      requires Valid()
      modifies this`offset
      ensures Valid()
      ensures r.Err? <==> old(Remaining()) == []
      ensures r.Ok? ==> [r.value] + Remaining() == old(Remaining())
      ensures r.Ok? ==> offset == NextOffset(data, old(offset))
      ensures r.Err? ==> offset == old(offset)
    {
      if !HasNext() { return Err(RuntimeError); }
      RowsFromStep(data, offset, endOffset, delimiter, headers);
      var row := ReadRow();
      r := Ok(row);
    }

    /** The scan in Next: one pass over the bytes, cutting cells as it goes. */
    method ReadRow() returns (row: Row)
      requires Valid()
      modifies this`offset
      ensures row == RowAt(data, old(offset), delimiter, headers)
      ensures offset == NextOffset(data, old(offset))
    {
      row := [];
      var text, delim, names := data, delimiter, headers;
      var o := offset;
      var col: nat, cellStart: nat, inQuotes := 0, o, false;
      ghost var e := ScanEnd(text, o, false);
      ghost var spec := RowAt(text, o, delim, names);
      var i := o;
      while i < |text|
        invariant o <= cellStart <= i <= e && offset == o
        invariant ScanEnd(text, i, inQuotes) == e
        invariant RestOfRow(text, o, e, cellStart, i, inQuotes, delim, names, col, row) == spec
      {
        var c := text[i];
        RestStep(text, o, e, cellStart, i, inQuotes, delim, names, col, row);
        if c == '"' {
          inQuotes := !inQuotes;
        } else if c == delim && !inQuotes {
          row := PutCell(names, text[cellStart..i], col, row);
          col := col + 1;
          cellStart := i + 1;
        } else if c == '\n' && !inQuotes {
          row := PutCell(names, text[cellStart..i], col, row);
          offset := i + 1;
          return;
        }
        i := i + 1;
      }
      RestEnd(text, o, e, cellStart, inQuotes, delim, names, col, row);
      if cellStart < |text| { row := PutCell(names, text[cellStart..], col, row); }
      offset := |text|;
    }

    /** Hands out n adapters over consecutive byte ranges. They are built with the default
        delimiter, whatever the parent's is. */
    method Split(n: nat) returns (children: seq<CsvAdapter>)
      requires Valid()
      ensures |data| == 0 || n <= 1 ==> children == []
      ensures |data| != 0 && n > 1 ==> |children| == n
      ensures forall i :: 0 <= i < |children| ==>
        && fresh(children[i]) && children[i].Valid()
        && children[i].data == data && children[i].headers == headers && children[i].delimiter == ','
        && children[i].endOffset == ChunkEnd(data, offset, n, i)
        && ChunkStart(data, offset, n, i) <= |data|
        && children[i].offset == Align(data, ChunkStart(data, offset, n, i))
        && children[i].Remaining() == ChildRows(data, offset, n, i, headers)
    {
      children := [];
      if |data| == 0 || n <= 1 { return; }
      var dataStart := offset;
      var chunkSize := (|data| - dataStart) / n;
      for i := 0 to n
        invariant |children| == i
        invariant forall k :: 0 <= k < i ==>
          && fresh(children[k]) && children[k].Valid()
          && children[k].data == data && children[k].headers == headers && children[k].delimiter == ','
          && children[k].endOffset == ChunkEnd(data, dataStart, n, k)
          && ChunkStart(data, dataStart, n, k) <= |data|
          && children[k].offset == Align(data, ChunkStart(data, dataStart, n, k))
      {
        ChunkBounds(data, dataStart, n, i);
        var child := new CsvAdapter(',');
        child.data, child.headers := data, headers;
        var start := dataStart + i * chunkSize;
        var end := if i == n - 1 then |data| else dataStart + (i + 1) * chunkSize;
        child.SetChunk(start, end);
        children := children + [child];
      }
    }

    method SetChunk(start: nat, end: nat)
      requires start <= |data| && end <= |data| && delimiter in {',', '\t'}
      modifies this`offset, this`endOffset
      ensures Valid() && endOffset == end && offset == Align(data, start)
    {
      endOffset := end;
      var cur := start;
      if cur > 0 && data[cur - 1] != '\n' {
        while cur < |data| && data[cur] != '\n'
          invariant start <= cur <= |data|
          invariant FirstNewline(data, cur) == FirstNewline(data, start)
        {
          cur := cur + 1;
        }
        if cur < |data| { cur := cur + 1; }
      }
      offset := cur;
    }
  }

  /** One character of the scan for the end of a row and its cells. */
  lemma {:induction false} ScanStep(data: string, o: nat, e: nat, start: nat, i: nat, inQuotes: bool, delim: char)
    requires o <= start <= i <= e <= |data| && i < |data| && e == ScanEnd(data, i, inQuotes)
    requires delim != '\n'
    ensures data[i] == '\n' && !inQuotes <==> i == e
    ensures i < e ==> ScanEnd(data, i + 1, if data[i] == '"' then !inQuotes else inQuotes) == e
    ensures i < e ==>
      SplitFrom(data[o..e], start - o, i - o, inQuotes, delim) ==
      if data[i] == '"' then SplitFrom(data[o..e], start - o, i + 1 - o, !inQuotes, delim)
      else if data[i] == delim && !inQuotes then
        [data[start..i]] + SplitFrom(data[o..e], i + 1 - o, i + 1 - o, false, delim)
      else SplitFrom(data[o..e], start - o, i + 1 - o, inQuotes, delim)
  {
    if i < e {
      assert data[o..e][i - o] == data[i];
      SliceOfSlice(data, o, e, start, i);
    }
  }

  lemma {:induction false} RowsFromStep(data: string, o: nat, end: nat, delim: char, headers: seq<string>)
    requires o < end <= |data|
    ensures RowsFrom(data, o, end, delim, headers) ==
            [RowAt(data, o, delim, headers)] + RowsFrom(data, NextOffset(data, o), end, delim, headers)
  {
    var rest := RowStarts(data, NextOffset(data, o), end);
    RowStartsInRange(data, NextOffset(data, o), end);
    RowStartsInRange(data, o, end);
    assert RowStarts(data, o, end)[1..] == rest;
  }

  /** The row, when column col has been reached with the cells before it stored and the rest, from
      start on, scanned up to i. */
  function RestOfRow(data: string, o: nat, e: nat, start: nat, i: nat, inQuotes: bool, delim: char,
                     headers: seq<string>, col: nat, row: Row): Row
    requires o <= start <= i <= e <= |data|
  {
    Fill(headers, Trim(SplitFrom(data[o..e], start - o, i - o, inQuotes, delim), e == |data|), col, row)
  }

  lemma {:induction false} RestStep(data: string, o: nat, e: nat, start: nat, i: nat, inQuotes: bool, delim: char,
                 headers: seq<string>, col: nat, row: Row)
    requires o <= start <= i <= e <= |data| && i < |data| && e == ScanEnd(data, i, inQuotes)
    requires delim != '\n' && delim != '"'
    ensures data[i] == '\n' && !inQuotes <==> i == e
    ensures i < e ==> ScanEnd(data, i + 1, if data[i] == '"' then !inQuotes else inQuotes) == e
    ensures RestOfRow(data, o, e, start, i, inQuotes, delim, headers, col, row) ==
            if i == e then PutCell(headers, data[start..i], col, row)
            else if data[i] == '"' then RestOfRow(data, o, e, start, i + 1, !inQuotes, delim, headers, col, row)
            else if data[i] == delim && !inQuotes then
              RestOfRow(data, o, e, i + 1, i + 1, false, delim, headers, col + 1,
                        PutCell(headers, data[start..i], col, row))
            else RestOfRow(data, o, e, start, i + 1, inQuotes, delim, headers, col, row)
  {
    ScanStep(data, o, e, start, i, inQuotes, delim);
    if i == e {
      FillEnd(data, o, e, start, inQuotes, delim, headers, false, col, row);
    } else if data[i] == delim && !inQuotes {
      FillStep(headers, data[start..i], SplitFrom(data[o..e], i + 1 - o, i + 1 - o, false, delim), e == |data|, col,
               row);
    }
  }

  lemma {:induction false} RestEnd(data: string, o: nat, e: nat, start: nat, inQuotes: bool, delim: char,
                                   headers: seq<string>, col: nat, row: Row)
    requires o <= start <= e == |data|
    ensures RestOfRow(data, o, e, start, e, inQuotes, delim, headers, col, row) ==
            if start < |data| then PutCell(headers, data[start..], col, row) else row
  {
    FillEnd(data, o, e, start, inQuotes, delim, headers, true, col, row);
    assert data[start..] == data[start..e];
  }

  /** A cell that is complete is stored, and the rest are stored from the next column on. */
  lemma {:induction false} FillStep(headers: seq<string>, cell: string, rest: seq<string>, atEnd: bool, col: nat,
                                    row: Row)
    requires rest != []
    ensures Fill(headers, Trim([cell] + rest, atEnd), col, row) ==
            Fill(headers, Trim(rest, atEnd), col + 1, PutCell(headers, cell, col, row))
  {
    var cells := [cell] + rest;
    assert Trim(cells, atEnd) == [cell] + Trim(rest, atEnd);
    assert ([cell] + Trim(rest, atEnd))[1..] == Trim(rest, atEnd);
  }

  /** The last cell of a row. */
  lemma {:induction false} FillEnd(data: string, o: nat, e: nat, start: nat, inQuotes: bool, delim: char,
                headers: seq<string>, atEnd: bool, col: nat, row: Row)
    requires o <= start <= e <= |data|
    ensures Fill(headers, Trim(SplitFrom(data[o..e], start - o, e - o, inQuotes, delim), atEnd), col, row) ==
            if atEnd && start == e then row else PutCell(headers, data[start..e], col, row)
  {
    var cell := data[o..e][start - o..];
    assert cell == data[start..e];
    assert [cell][..0] == [] && [cell][1..] == [];
  }
}
