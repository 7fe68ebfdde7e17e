/** Reading back what the writer wrote as CSV or TSV: exactly which names and values come back. */
module CsvRoundTrip {
  import opened Wrappers
  import opened Rows
  import opened Sequences
  import opened Csv
  import opened CsvCells
  import opened Formatter

  // ---- The header line ----

  /** A name comes back when it has no delimiter and no newline, quoted or not, and cleaning leaves
      it alone. */
  predicate KeptName(s: string, delim: char) {
    delim !in s && '\n' !in s && Clean(s) == s
  }

  predicate NamesKept(names: seq<string>, i: nat, delim: char)
    decreases |names| - i
  {
    i >= |names| || (KeptName(names[i], delim) && NamesKept(names, i + 1, delim))
  }

  lemma {:induction false} NamesKeptIff(names: seq<string>, i: nat, delim: char)
    ensures NamesKept(names, i, delim) <==> forall k :: i <= k < |names| ==> KeptName(names[k], delim)
    decreases |names| - i
  {
    if i < |names| { NamesKeptIff(names, i + 1, delim); }
  }

  /** The text of a line from cell i on is the cell, what ends it, and the rest. */
  lemma {:induction false} LineParts(cells: seq<string>, i: nat, delim: char)
    requires i < |cells|
    ensures CellsText(cells, i, delim) + "\n" ==
            cells[i] + if i + 1 == |cells| then "\n" else [delim] + (CellsText(cells, i + 1, delim) + "\n")
  {
    if i + 1 == |cells| {
      assert CellText(cells, i, delim) + "" == cells[i] + "" == cells[i];
    } else {
      var rest := CellsText(cells, i + 1, delim);
      Associative(cells[i], [delim], rest);
      Associative(cells[i], [delim] + rest, "\n");
      Associative([delim], rest, "\n");
    }
  }

  /** Where the i-th cell of a written line stands, and what follows it. */
  lemma {:induction false} CellStands(data: string, o: nat, cells: seq<string>, i: nat, delim: char)
    requires i < |cells| && Here(data, o, CellsText(cells, i, delim) + "\n")
    ensures Here(data, o, cells[i]) && o + |cells[i]| < |data|
    ensures data[o + |cells[i]|] == if i + 1 == |cells| then '\n' else delim
    ensures i + 1 < |cells| ==> Here(data, o + |cells[i]| + 1, CellsText(cells, i + 1, delim) + "\n")
  {
    var rest := if i + 1 == |cells| then "\n" else [delim] + (CellsText(cells, i + 1, delim) + "\n");
    LineParts(cells, i, delim);
    HereParts(data, o, cells[i], rest);
    HereAt(data, o + |cells[i]|, rest, 0);
    if i + 1 < |cells| { HereParts(data, o + |cells[i]|, [delim], CellsText(cells, i + 1, delim) + "\n"); }
  }

  lemma {:induction false} TextLength(cells: seq<string>, i: nat, delim: char)
    requires i < |cells|
    ensures |CellsText(cells, i, delim)| ==
            |cells[i]| + if i + 1 == |cells| then 0 else 1 + |CellsText(cells, i + 1, delim)|
  {}

  /** The first piece of the header line ends at the first delimiter or newline. */
  lemma {:induction false} FirstPiece(text: string, line: string, start: nat, i: nat, delim: char) returns (p: nat)
    requires start <= i <= |line| && line <= text && FirstNewline(text, i) == |line|
    ensures i <= p <= |line| && (forall k :: i <= k < p ==> text[k] !in {delim, '\n'})
    ensures p < |line| ==> text[p] == delim
    ensures Pieces(line, start, i, delim) ==
            [line[start..p]] + if p < |line| then Pieces(line, p + 1, p + 1, delim) else []
    decreases |line| - i
  {
    if i == |line| || line[i] == delim {
      p := i;
      assert i == |line| ==> line[start..] == line[start..i];
    } else {
      p := FirstPiece(text, line, start, i + 1, delim);
    }
  }

  /** A written name is read back from the header line if and only if it is kept. */
  lemma {:induction false} NameComesBackIff(text: string, o: nat, p: nat, name: string, delim: char)
    requires Here(text, o, name) && o + |name| < |text| && text[o + |name|] in {delim, '\n'}
    requires o <= p <= |text| && (p < |text| ==> text[p] in {delim, '\n'})
    requires forall k :: o <= k < p ==> text[k] !in {delim, '\n'}
    ensures p <= o + |name| && (Clean(text[o..p]) == name <==> KeptName(name, delim))
    ensures KeptName(name, delim) ==> p == o + |name|
  {
    var b := o + |name|;
    if p < b {
      HereAt(text, o, name, p - o);
      CleanKeeps(text[o..p], 'x');
    } else {
      HereSlice(text, o, name, 0, |name|);
      assert text[o..b] == name;
      forall k | 0 <= k < |name| ensures name[k] !in {delim, '\n'} { HereAt(text, o, name, k); }
    }
  }

  lemma {:induction false} NewlineBeyond(text: string, o: nat, p: nat)
    requires o <= |text| && o <= p < FirstNewline(text, o)
    ensures FirstNewline(text, p + 1) == FirstNewline(text, o)
    decreases p - o
  {
    if o < p { NewlineBeyond(text, o + 1, p); }
  }

  /** The first header read where the i-th name was written, and the pieces after it. */
  lemma {:induction false} FirstName(text: string, line: string, o: nat, names: seq<string>, i: nat, delim: char)
    returns (head: string, rest: seq<string>)
    requires i < |names| && Here(text, o, CellsText(names, i, delim) + "\n") && delim != '\n'
    requires o <= |line| && line <= text && FirstNewline(text, o) == |line|
    ensures CleanAll(Pieces(line, o, o, delim)) == [head] + CleanAll(rest)
    ensures head == names[i] <==> KeptName(names[i], delim)
    ensures KeptName(names[i], delim) ==>
              var p := o + |names[i]|;
              if i + 1 == |names| then p == |line| && rest == []
              else p < |line| && FirstNewline(text, p + 1) == |line| && rest == Pieces(line, p + 1, p + 1, delim)
  {
    CellStands(text, o, names, i, delim);
    var p := FirstPiece(text, line, o, o, delim);
    rest := if p < |line| then Pieces(line, p + 1, p + 1, delim) else [];
    head := Clean(line[o..p]);
    assert line[o..p] == text[o..p];
    NameComesBackIff(text, o, p, names[i], delim);
    if p < |line| { NewlineBeyond(text, o, p); }
  }

  /** The headers read where the names from the i-th on were written are those names if and only if
      they are kept. */
  lemma {:induction false} NamesComeBackIff(text: string, line: string, o: nat, names: seq<string>, i: nat, delim: char)
    requires i < |names| && Here(text, o, CellsText(names, i, delim) + "\n") && delim != '\n'
    requires o <= |line| && line <= text && FirstNewline(text, o) == |line|
    ensures CleanAll(Pieces(line, o, o, delim)) == names[i..] <==> NamesKept(names, i, delim)
    ensures NamesKept(names, i, delim) ==> |line| == o + |CellsText(names, i, delim)|
    decreases |names| - i
  {
    var head, rest := FirstName(text, line, o, names, i, delim);
    CellStands(text, o, names, i, delim);
    TextLength(names, i, delim);
    assert names[i..] == [names[i]] + names[i + 1..];
    ConsEqual(head, CleanAll(rest), names[i], names[i + 1..]);
    if KeptName(names[i], delim) && i + 1 < |names| {
      NamesComeBackIff(text, line, o + |names[i]| + 1, names, i + 1, delim);
    }
  }

  /** The headers of a written file are the names written if and only if every name is kept. */
  lemma {:induction false} HeadersComeBackIff(text: string, names: seq<string>, delim: char)
    requires Here(text, 0, Line(names, delim)) && delim in {',', '\t'}
    ensures HeadersOf(text, delim) == names <==> names != [] && NamesKept(names, 0, delim)
    ensures names != [] && NamesKept(names, 0, delim) ==> DataStart(text) == |Line(names, delim)| <= |text|
  {
    HereAt(text, 0, Line(names, delim), |Line(names, delim)| - 1);
    if names != [] {
      var line := text[..FirstNewline(text, 0)];
      NamesComeBackIff(text, line, 0, names, 0, delim);
      assert names[0..] == names;
    }
  }

  // ---- One row ----

  /** Every value from the i-th on comes back. */
  predicate AllKept(values: seq<string>, i: nat, delim: char)
    decreases |values| - i
  {
    i >= |values| || (Kept(values[i], delim) && AllKept(values, i + 1, delim))
  }

  lemma {:induction false} AllKeptIff(values: seq<string>, i: nat, delim: char)
    ensures AllKept(values, i, delim) <==> forall k :: i <= k < |values| ==> Kept(values[k], delim)
    decreases |values| - i
  {
    if i < |values| { AllKeptIff(values, i + 1, delim); }
  }

  /** The cells from the j-th on are read as the values from the i-th on; surplus cells are ignored. */
  predicate ReadAs(cells: seq<string>, j: nat, values: seq<string>, i: nat)
    decreases |values| - i
  {
    i >= |values| || (j < |cells| && Clean(cells[j]) == values[i] && ReadAs(cells, j + 1, values, i + 1))
  }

  lemma {:induction false} ReadAsIff(cells: seq<string>, values: seq<string>, i: nat)
    requires i <= |cells| && i <= |values|
    ensures ReadAs(cells, i, values, i) <==>
            |values| <= |cells| && forall k :: i <= k < |values| ==> Clean(cells[k]) == values[k]
    decreases |values| - i
  {
    if i < |values| && i < |cells| { ReadAsIff(cells, values, i + 1); }
  }

  lemma {:induction false} ReadAsLater(cell: string, rest: seq<string>, j: nat, values: seq<string>, i: nat)
    ensures ReadAs([cell] + rest, j + 1, values, i) <==> ReadAs(rest, j, values, i)
    decreases |values| - i
  {
    if i < |values| && j < |rest| { ReadAsLater(cell, rest, j + 1, values, i + 1); }
  }

  /** The same for cells where they stand. */
  predicate CellsReadAs(cells: Cells, values: seq<string>, i: nat) {
    i >= |values| ||
    (Clean(cells.cell) == values[i] && (i + 1 < |values| ==> cells.More? && CellsReadAs(cells.rest, values, i + 1)))
  }

  lemma {:induction false} CellsReadAsIff(cells: Cells, values: seq<string>, i: nat)
    ensures ReadAs(ListOf(cells), 0, values, i) <==> CellsReadAs(cells, values, i)
    decreases cells
  {
    if cells.More? {
      ReadAsLater(cells.cell, ListOf(cells.rest), 0, values, i + 1);
      CellsReadAsIff(cells.rest, values, i + 1);
    }
  }

  /** Where a kept value was written, a cell ends where the value does. */
  lemma {:induction false} KeptCellEnds(data: string, o: nat, values: seq<string>, i: nat, delim: char)
    requires i < |values| && Here(data, o, CellsText(values, i, delim) + "\n") && delim in {',', '\t'}
    requires o <= |data| && Kept(values[i], delim)
    ensures o + |values[i]| < |data|
    ensures ScanEnd(data, o, false) ==
            if i + 1 < |values| then ScanEnd(data, o + |values[i]| + 1, false) else o + |values[i]|
  {
    CellStands(data, o, values, i, delim);
    CellComesBackIff(data, o, values[i], delim);
    ScanPastCell(data, o, false, delim);
  }

  /** A line of kept values ends where it was written to end. */
  lemma {:induction false} KeptLineEnds(data: string, o: nat, values: seq<string>, i: nat, delim: char)
    requires i < |values| && Here(data, o, CellsText(values, i, delim) + "\n") && delim in {',', '\t'}
    requires o <= |data| && AllKept(values, i, delim)
    ensures ScanEnd(data, o, false) == o + |CellsText(values, i, delim)| < |data|
    decreases |values| - i
  {
    CellStands(data, o, values, i, delim);
    TextLength(values, i, delim);
    KeptCellEnds(data, o, values, i, delim);
    if i + 1 < |values| { KeptLineEnds(data, o + |values[i]| + 1, values, i + 1, delim); }
  }

  /** The first cell read where the i-th value was written, and the cells after it. */
  lemma {:induction false} FirstCell(data: string, o: nat, values: seq<string>, i: nat, delim: char)
    requires i < |values| && Here(data, o, CellsText(values, i, delim) + "\n") && delim in {',', '\t'} && o <= |data|
    ensures o + |values[i]| < |data|
    ensures Clean(CellsAt(data, o, delim).cell) == values[i] <==> Kept(values[i], delim)
    ensures Kept(values[i], delim) && i + 1 < |values| ==>
              CellsAt(data, o, delim) == More(CellsAt(data, o, delim).cell, CellsAt(data, o + |values[i]| + 1, delim))
  {
    CellStands(data, o, values, i, delim);
    CellComesBackIff(data, o, values[i], delim);
  }

  /** A written line is read as its values if and only if every value is kept. */
  lemma {:induction false} LineComesBackIff(data: string, o: nat, values: seq<string>, i: nat, delim: char)
    requires i < |values| && Here(data, o, CellsText(values, i, delim) + "\n") && delim in {',', '\t'} && o <= |data|
    ensures CellsReadAs(CellsAt(data, o, delim), values, i) <==> AllKept(values, i, delim)
    decreases |values| - i
  {
    FirstCell(data, o, values, i, delim);
    if Kept(values[i], delim) && i + 1 < |values| {
      CellStands(data, o, values, i, delim);
      LineComesBackIff(data, o + |values[i]| + 1, values, i + 1, delim);
    }
  }

  /** Names and values, side by side. */
  function Pairs(names: seq<string>, values: seq<string>, n: nat): Row
    requires n <= |names| && n <= |values|
  {
    if n == 0 then [] else Pairs(names, values, n - 1) + [(names[n - 1], values[n - 1])]
  }

  lemma {:induction false} PairsAt(names: seq<string>, values: seq<string>, n: nat)
    requires n <= |names| && n <= |values|
    ensures |Pairs(names, values, n)| == n
    ensures forall k :: 0 <= k < n ==> Pairs(names, values, n)[k] == (names[k], values[k])
    decreases n
  {
    if n > 0 { PairsAt(names, values, n - 1); }
  }

  predicate AllDistinct(names: seq<string>) {
    forall i, j :: 0 <= i < j < |names| ==> names[i] != names[j]
  }

  lemma {:induction false} FillLast(headers: seq<string>, cells: seq<string>, cell: string, col: nat, row: Row)
    ensures Fill(headers, cells + [cell], col, row) ==
            PutCell(headers, cell, col + |cells|, Fill(headers, cells, col, row))
    decreases cells
  {
    if cells != [] {
      assert (cells + [cell])[1..] == cells[1..] + [cell];
      FillLast(headers, cells[1..], cell, col + 1, PutCell(headers, cells[0], col, row));
    }
  }

  lemma {:induction false} PairsNext(names: seq<string>, values: seq<string>, n: nat)
    requires 0 < n <= |names| && n <= |values| && AllDistinct(names)
    ensures Put(Pairs(names, values, n - 1), names[n - 1], values[n - 1]) == Pairs(names, values, n)
  {
    PairsAt(names, values, n - 1);
    PutNew(Pairs(names, values, n - 1), names[n - 1], values[n - 1]);
  }

  /** Any number of cells become the pairs of names and cleaned values, up to the shorter count. */
  lemma {:induction false} FillIsPairs(names: seq<string>, cells: seq<string>, n: nat)
    requires n <= |cells| && AllDistinct(names)
    ensures Fill(names, cells[..n], 0, []) == Pairs(names, CleanAll(cells), Least(|names|, n))
    decreases n
  {
    if n > 0 {
      FillIsPairs(names, cells, n - 1);
      assert cells[..n] == cells[..n - 1] + [cells[n - 1]];
      FillLast(names, cells[..n - 1], cells[n - 1], 0, []);
      if n <= |names| { PairsNext(names, CleanAll(cells), n); }
    }
  }

  lemma {:induction false} FillDistinct(headers: seq<string>, cells: seq<string>, col: nat, row: Row)
    requires Distinct(row)
    ensures Distinct(Fill(headers, cells, col, row))
    decreases cells
  {
    if cells != [] {
      if col < |headers| { PutDistinct(row, headers[col], Clean(cells[0])); }
      FillDistinct(headers, cells[1..], col + 1, PutCell(headers, cells[0], col, row));
    }
  }

  /** The row as it was printed: the values of the fields, in their order. */
  function Printed(row: Row, fields: seq<string>): Row {
    Pairs(fields, ValuesOf(row, fields), |fields|)
  }

  function AllPrinted(rows: seq<Row>, i: nat, fields: seq<string>): seq<Row>
    requires i <= |rows|
    decreases |rows| - i
  {
    if i == |rows| then [] else [Printed(rows[i], fields)] + AllPrinted(rows, i + 1, fields)
  }

  lemma {:induction false} PairsEqualIff(names: seq<string>, a: seq<string>, n: nat, b: seq<string>, m: nat)
    requires n <= |names| && n <= |a| && m <= |names| && m <= |b|
    ensures Pairs(names, a, n) == Pairs(names, b, m) <==> n == m && forall k :: 0 <= k < n ==> a[k] == b[k]
  {
    var l, r := Pairs(names, a, n), Pairs(names, b, m);
    PairsAt(names, a, n);
    PairsAt(names, b, m);
    if l == r {
      forall k | 0 <= k < n ensures a[k] == b[k] { assert l[k] == r[k]; }
    }
  }

  lemma {:induction false} FilledIff(names: seq<string>, cells: seq<string>, values: seq<string>)
    requires AllDistinct(names) && |names| == |values|
    ensures Fill(names, cells, 0, []) == Pairs(names, values, |names|) <==> ReadAs(cells, 0, values, 0)
  {
    assert cells[..|cells|] == cells;
    FillIsPairs(names, cells, |cells|);
    PairsEqualIff(names, CleanAll(cells), Least(|names|, |cells|), values, |names|);
    ReadAsIff(cells, values, 0);
  }

  ghost predicate RowKept(row: Row, fields: seq<string>, delim: char) {
    AllKept(ValuesOf(row, fields), 0, delim)
  }

  /** The row read where a row was printed is that row if and only if all its values are kept; and
      then the next row is read where the next one was printed. */
  lemma {:induction false} RowComesBackIff(data: string, o: nat, row: Row, fields: seq<string>, delim: char)
    requires fields != [] && AllDistinct(fields) && delim in {',', '\t'} && o <= |data|
    requires Here(data, o, Line(ValuesOf(row, fields), delim))
    ensures RowAt(data, o, delim, fields) == Printed(row, fields) <==> RowKept(row, fields, delim)
    ensures RowKept(row, fields, delim) ==> NextOffset(data, o) == o + |Line(ValuesOf(row, fields), delim)|
  {
    var values, cells := ValuesOf(row, fields), CellsAt(data, o, delim);
    LineComesBackIff(data, o, values, 0, delim);
    CellsReadAsIff(cells, values, 0);
    if RowKept(row, fields, delim) { KeptLineEnds(data, o, values, 0, delim); }
    RowCellsAt(data, o, delim);
    FilledIff(fields, RowCells(data, o, delim), values);
    ReadAsIff(ListOf(cells), values, 0);
    ReadAsIff(RowCells(data, o, delim), values, 0);
  }

  // ---- All rows ----

  ghost predicate RowsKept(rows: seq<Row>, i: nat, fields: seq<string>, delim: char)
    decreases |rows| - i
  {
    i >= |rows| || (RowKept(rows[i], fields, delim) && RowsKept(rows, i + 1, fields, delim))
  }

  /** Exactly the printed rows from the i-th on are read from o. */
  ghost predicate RowsReadAt(data: string, o: nat, rows: seq<Row>, i: nat, fields: seq<string>, delim: char)
    requires o <= |data| && i <= |rows|
    decreases |rows| - i
  {
    if i == |rows| then o == |data|
    else
      && o < |data|
      && RowAt(data, o, delim, fields) == Printed(rows[i], fields)
      && RowsReadAt(data, NextOffset(data, o), rows, i + 1, fields, delim)
  }

  lemma {:induction false} RowsReadIff(data: string, o: nat, rows: seq<Row>, i: nat, fields: seq<string>, delim: char)
    requires o <= |data| && i <= |rows|
    ensures RowsFrom(data, o, |data|, delim, fields) == AllPrinted(rows, i, fields)
            <==> RowsReadAt(data, o, rows, i, fields, delim)
    decreases |rows| - i
  {
    if o < |data| { RowsFromStep(data, o, |data|, delim, fields); }
    if i < |rows| && o < |data| {
      RowsReadIff(data, NextOffset(data, o), rows, i + 1, fields, delim);
      ConsEqual(RowAt(data, o, delim, fields), RowsFrom(data, NextOffset(data, o), |data|, delim, fields),
                Printed(rows[i], fields), AllPrinted(rows, i + 1, fields));
    }
  }

  /** The rows read from where the rows from the i-th on were written are those rows if and only if
      all their values are kept. */
  lemma {:induction false} RowsComeBackIff(data: string, o: nat, rows: seq<Row>, i: nat, fields: seq<string>,
                                           format: Format)
    requires i <= |rows| && fields != [] && AllDistinct(fields) && !format.JSON?
    requires Here(data, o, RowsText(rows, fields, format, i)) && o + |RowsText(rows, fields, format, i)| == |data|
    ensures RowsReadAt(data, o, rows, i, fields, Delimiter(format)) <==> RowsKept(rows, i, fields, Delimiter(format))
    decreases |rows| - i
  {
    if i < |rows| {
      var line := Line(ValuesOf(rows[i], fields), Delimiter(format));
      HereParts(data, o, line, RowsText(rows, fields, format, i + 1));
      RowComesBackIff(data, o, rows[i], fields, Delimiter(format));
      if RowKept(rows[i], fields, Delimiter(format)) { RowsComeBackIff(data, o + |line|, rows, i + 1, fields, format); }
    }
  }

  /** A row that is read has no name twice. */
  lemma {:induction false} ReadRowDistinct(data: string, o: nat, delim: char, headers: seq<string>)
    requires o < |data|
    ensures RowsFrom(data, o, |data|, delim, headers) != []
    ensures Distinct(RowsFrom(data, o, |data|, delim, headers)[0])
  {
    RowsFromStep(data, o, |data|, delim, headers);
    FillDistinct(headers, RowCells(data, o, delim), 0, []);
  }

  /** So a row printed under repeated names never comes back. */
  lemma {:induction false} PrintedDistinctIff(rows: seq<Row>, fields: seq<string>)
    requires rows != []
    ensures Distinct(AllPrinted(rows, 0, fields)[0]) <==> AllDistinct(fields)
  {
    var row := Printed(rows[0], fields);
    assert AllPrinted(rows, 0, fields)[0] == row;
    PairsAt(fields, ValuesOf(rows[0], fields), |fields|);
    if Distinct(row) {
      forall i, j | 0 <= i < j < |fields| ensures fields[i] != fields[j] {
        assert row[i].0 == fields[i] && row[j].0 == fields[j];
      }
    }
  }

  // ---- The round trip ----

  /** The reader of the written text has the printed names as headers and reads the printed rows. */
  ghost predicate ComesBack(fields: seq<string>, rows: seq<Row>, format: Format) {
    var text, delim := FileText(fields, rows, format), Delimiter(format);
    && HeadersOf(text, delim) == fields
    && RowsFrom(text, DataStart(text), |text|, delim, fields) == AllPrinted(rows, 0, fields)
  }

  /** Reading undoes writing, for CSV and for TSV, if and only if there are fields, every name and
      every printed value is kept, and no name is repeated above a row. */
  lemma {:induction false} CsvRoundTrip(fields: seq<string>, rows: seq<Row>, format: Format)
    requires !format.JSON?
    ensures ComesBack(fields, rows, format) <==>
            && fields != []
            && (forall k :: 0 <= k < |fields| ==> KeptName(fields[k], Delimiter(format)))
            && (rows != [] ==> AllDistinct(fields))
            && (forall j, k :: 0 <= j < |rows| && 0 <= k < |fields| ==>
                  Kept(TextOf(rows[j], fields[k]), Delimiter(format)))
  {
    var text, delim, body := FileText(fields, rows, format), Delimiter(format), RowsText(rows, fields, format, 0);
    assert body + EndText(format) == body;
    HereAll(text);
    HereParts(text, 0, Line(fields, delim), body);
    HeadersComeBackIff(text, fields, delim);
    NamesKeptIff(fields, 0, delim);
    if fields != [] && NamesKept(fields, 0, delim) {
      if AllDistinct(fields) {
        RowsReadIff(text, DataStart(text), rows, 0, fields, delim);
        RowsComeBackIff(text, DataStart(text), rows, 0, fields, format);
        RowsKeptIff(rows, 0, fields, delim);
      } else if rows != [] {
        ReadRowDistinct(text, DataStart(text), delim, fields);
        PrintedDistinctIff(rows, fields);
      }
    }
  }

  lemma {:induction false} RowsKeptIff(rows: seq<Row>, i: nat, fields: seq<string>, delim: char)
    ensures RowsKept(rows, i, fields, delim) <==>
            (forall j, k :: i <= j < |rows| && 0 <= k < |fields| ==> Kept(TextOf(rows[j], fields[k]), delim))
    decreases |rows| - i
  {
    if i < |rows| {
      RowKeptIff(rows[i], fields, delim);
      RowsKeptIff(rows, i + 1, fields, delim);
    }
  }

  lemma {:induction false} RowKeptIff(row: Row, fields: seq<string>, delim: char)
    ensures RowKept(row, fields, delim) <==>
            forall k :: 0 <= k < |fields| ==> Kept(TextOf(row, fields[k]), delim)
  {
    var values := ValuesOf(row, fields);
    AllKeptIff(values, 0, delim);
    if RowKept(row, fields, delim) {
      forall k | 0 <= k < |fields| ensures Kept(TextOf(row, fields[k]), delim) { assert Kept(values[k], delim); }
    }
  }

  // ---- What is printed ----

  /** A printed row has, under each field, the text the row has there, or "". */
  lemma {:induction false} FindPrinted(row: Row, fields: seq<string>, k: nat)
    requires AllDistinct(fields) && k < |fields|
    ensures Find(row, fields[k]).Some? ==> Find(Printed(row, fields), fields[k]) == Find(row, fields[k])
    ensures Find(row, fields[k]).None? ==> Find(Printed(row, fields), fields[k]) == Some("")
    ensures |Printed(row, fields)| == |fields| && Printed(row, fields)[k].0 == fields[k]
  {
    var printed := Printed(row, fields);
    PairsAt(fields, ValuesOf(row, fields), |fields|);
    assert printed[k] == (fields[k], TextOf(row, fields[k]));
    FindEach(printed, k);
  }

  /** A row with distinct names, printed under these, is itself. */
  lemma {:induction false} PrintedSelf(row: Row)
    requires Distinct(row)
    ensures Printed(row, NamesOf(row)) == row
    ensures forall k :: 0 <= k < |row| ==> TextOf(row, row[k].0) == row[k].1
  {
    var names := NamesOf(row);
    PairsAt(names, ValuesOf(row, names), |names|);
    forall k | 0 <= k < |row| ensures TextOf(row, row[k].0) == row[k].1 && Printed(row, names)[k] == row[k] {
      FindEach(row, k);
    }
  }

  /** Every row has these names, in this order. */
  ghost predicate AllNamed(rows: seq<Row>, names: seq<string>) {
    forall j :: 0 <= j < |rows| ==> NamesOf(rows[j]) == names
  }

  lemma {:induction false} AllPrintedSelf(rows: seq<Row>, i: nat, names: seq<string>)
    requires i <= |rows| && AllNamed(rows, names) && AllDistinct(names)
    ensures AllPrinted(rows, i, names) == rows[i..]
    decreases |rows| - i
  {
    if i < |rows| {
      assert NamesOf(rows[i]) == names;
      PrintedSelf(rows[i]);
      AllPrintedSelf(rows, i + 1, names);
    }
  }

  /** Rows written under their own names are read back, as CSV or TSV, as these same rows, if and
      only if there are names, every name and every text is kept, and no row has a name twice. */
  lemma {:induction false} OwnRowsComeBackIff(names: seq<string>, rows: seq<Row>, format: Format)
    requires !format.JSON? && AllNamed(rows, names)
    ensures var text, delim := FileText(names, rows, format), Delimiter(format);
            && HeadersOf(text, delim) == names
            && RowsFrom(text, DataStart(text), |text|, delim, names) == rows
            <==>
            && names != [] && (forall k :: 0 <= k < |names| ==> KeptName(names[k], delim))
            && (forall j :: 0 <= j < |rows| ==> Distinct(rows[j]))
            && (forall j, k :: 0 <= j < |rows| && 0 <= k < |rows[j]| ==> Kept(rows[j][k].1, delim))
  {
    var text, delim := FileText(names, rows, format), Delimiter(format);
    if rows == [] || AllDistinct(names) {
      OwnRowsPrinted(names, rows);
      CsvRoundTrip(names, rows, format);
    } else {
      OwnRowsRepeated(names, rows, format);
    }
  }

  lemma {:induction false} OwnRowsPrinted(names: seq<string>, rows: seq<Row>)
    requires AllNamed(rows, names) && (rows == [] || AllDistinct(names))
    ensures AllPrinted(rows, 0, names) == rows
    ensures forall j :: 0 <= j < |rows| ==> Distinct(rows[j]) && |rows[j]| == |names|
    ensures forall j, k :: 0 <= j < |rows| && 0 <= k < |names| ==> TextOf(rows[j], names[k]) == rows[j][k].1
  {
    if rows != [] {
      AllPrintedSelf(rows, 0, names);
      forall j | 0 <= j < |rows|
        ensures Distinct(rows[j]) && |rows[j]| == |names|
        ensures forall k :: 0 <= k < |names| ==> TextOf(rows[j], names[k]) == rows[j][k].1
      {
        assert NamesOf(rows[j]) == names;
        PrintedSelf(rows[j]);
      }
    }
  }

  lemma {:induction false} OwnRowsRepeated(names: seq<string>, rows: seq<Row>, format: Format)
    requires !format.JSON? && AllNamed(rows, names) && rows != [] && !AllDistinct(names)
    ensures !Distinct(rows[0])
    ensures var text, delim := FileText(names, rows, format), Delimiter(format);
            HeadersOf(text, delim) == names ==> RowsFrom(text, DataStart(text), |text|, delim, names) != rows
  {
    var text, delim := FileText(names, rows, format), Delimiter(format);
    assert NamesOf(rows[0]) == names;
    var i, j :| 0 <= i < j < |names| && names[i] == names[j];
    assert rows[0][i].0 == rows[0][j].0;
    HereAll(text);
    HereParts(text, 0, Line(names, delim), RowsText(rows, names, format, 0) + EndText(format));
    HeadersComeBackIff(text, names, delim);
    if HeadersOf(text, delim) == names {
      assert |text| > |Line(names, delim)|;
      ReadRowDistinct(text, DataStart(text), delim, names);
    }
  }

  // ---- Which text comes back ----

  /** Text that has no delimiter, no newline and no quote comes back unless it ends in a carriage
      return. */
  lemma {:induction false} OrdinaryKept(s: string, i: nat, delim: char)
    requires i <= |s| && forall k :: i <= k < |s| ==> s[k] !in {delim, '\n', '"'}
    ensures Closed(s, i, false, delim)
    ensures i == 0 ==> (Kept(s, delim) <==> s == "" || s[|s| - 1] != '\r')
    decreases |s| - i
  {
    if i < |s| { OrdinaryKept(s, i + 1, delim); }
    if i == 0 && s != "" && s[|s| - 1] == '\r' { assert |Clean(s)| < |s|; }
  }

  const COMMA_VALUE := "a,b"
  const QUOTED_VALUE := "\"a\""
  const INNER_QUOTES := "a\"b,c\"d"

  /** A value with a comma comes back from a TSV file only, one in quotes from neither; a comma
      between quotes inside a value does no harm. */
  lemma {:induction false} KeptInstances()
    ensures !Kept(COMMA_VALUE, ',') && Kept(COMMA_VALUE, '\t')
    ensures !Kept(QUOTED_VALUE, ',') && !Kept(QUOTED_VALUE, '\t')
    ensures Kept(INNER_QUOTES, ',') && Kept(INNER_QUOTES, '\t')
  {
    OrdinaryKept(COMMA_VALUE, 0, '\t');
    assert !Closed(COMMA_VALUE, 1, false, ',');
    assert |Clean(QUOTED_VALUE)| == 1;
    InnerQuotesClosed(',');
    InnerQuotesClosed('\t');
  }

  lemma {:induction false} InnerQuotesClosed(delim: char)
    requires delim in {',', '\t'}
    ensures Closed(INNER_QUOTES, 0, false, delim)
  {
    var v := INNER_QUOTES;
    assert Closed(v, 7, false, delim) && Closed(v, 6, false, delim) && Closed(v, 5, true, delim);
    assert Closed(v, 4, true, delim) && Closed(v, 3, true, delim) && Closed(v, 2, true, delim);
  }

  /** One row of one column; the value decides what comes back. */
  lemma {:induction false} FileInstances()
    ensures !ComesBack(["n"], [[("n", COMMA_VALUE)]], CSV) && ComesBack(["n"], [[("n", COMMA_VALUE)]], TSV)
    ensures !ComesBack(["n"], [[("n", QUOTED_VALUE)]], CSV) && ComesBack(["n"], [[("n", INNER_QUOTES)]], CSV)
  {
    KeptInstances();
    OneValueComesBack(COMMA_VALUE, CSV);
    OneValueComesBack(COMMA_VALUE, TSV);
    OneValueComesBack(QUOTED_VALUE, CSV);
    OneValueComesBack(INNER_QUOTES, CSV);
  }

  lemma {:induction false} OneValueComesBack(v: string, format: Format)
    requires !format.JSON?
    ensures ComesBack(["n"], [[("n", v)]], format) <==> Kept(v, Delimiter(format))
  {
    var fields, rows := ["n"], [[("n", v)]];
    CsvRoundTrip(fields, rows, format);
    assert KeptName(fields[0], Delimiter(format));
    assert TextOf(rows[0], fields[0]) == v;
  }
}
