/** The output writer, for its CSV, TSV and JSON formats. The stream is the text written so far. */
module Formatter {
  import opened Rows
  import opened Sequences

  datatype Format = CSV | TSV | JSON

  function Delimiter(format: Format): char {
    if format.CSV? then ',' else '\t'
  }

  /** A missing column is written as an empty value. */
  function ValuesOf(row: Row, fields: seq<string>): (r: seq<string>)
    ensures |r| == |fields|
    ensures forall k :: 0 <= k < |r| ==> r[k] == TextOf(row, fields[k])
  {
    seq(|fields|, k requires 0 <= k < |fields| => TextOf(row, fields[k]))
  }

  // ---- The text of a result. Nothing is quoted or escaped. ----

  function CellText(cells: seq<string>, i: nat, delim: char): string
    requires i < |cells|
  {
    cells[i] + if i + 1 == |cells| then "" else [delim]
  }

  /** The cells of a line from i on, with delimiters between them. */
  function CellsText(cells: seq<string>, i: nat, delim: char): string
    requires i <= |cells|
    decreases |cells| - i
  {
    if i == |cells| then "" else CellText(cells, i, delim) + CellsText(cells, i + 1, delim)
  }

  function Line(cells: seq<string>, delim: char): string {
    CellsText(cells, 0, delim) + "\n"
  }

  function Quoted(s: string): string {
    "\"" + (s + "\"")
  }

  function MemberEnd(last: bool): string {
    if last then "\n" else ", \n"
  }

  function MemberText(fields: seq<string>, values: seq<string>, i: nat): string
    requires i < |fields| == |values|
  {
    "    " + (Quoted(fields[i]) + (": " + (Quoted(values[i]) + MemberEnd(i + 1 == |fields|))))
  }

  /** The members of an object from the i-th on. */
  function MembersText(fields: seq<string>, values: seq<string>, i: nat): string
    requires i <= |fields| == |values|
    decreases |fields| - i
  {
    if i == |fields| then "" else MemberText(fields, values, i) + MembersText(fields, values, i + 1)
  }

  function ObjectText(row: Row, fields: seq<string>): string {
    "  {\n" + (MembersText(fields, ValuesOf(row, fields), 0) + "  }")
  }

  function HeaderText(fields: seq<string>, format: Format): string {
    if format.JSON? then "[\n" else Line(fields, Delimiter(format))
  }

  function RowText(row: Row, fields: seq<string>, format: Format, first: bool): string {
    if format.JSON? then (if first then "" else ",\n") + ObjectText(row, fields)
    else Line(ValuesOf(row, fields), Delimiter(format))
  }

  /** The rows from the i-th on. */
  function RowsText(rows: seq<Row>, fields: seq<string>, format: Format, i: nat): string
    requires i <= |rows|
    decreases |rows| - i
  {
    if i == |rows| then "" else RowText(rows[i], fields, format, i == 0) + RowsText(rows, fields, format, i + 1)
  }

  function EndText(format: Format): string {
    if format.JSON? then "\n]\n" else ""
  }

  function FileText(fields: seq<string>, rows: seq<Row>, format: Format): string {
    HeaderText(fields, format) + (RowsText(rows, fields, format, 0) + EndText(format))
  }

  // ---- The writer ----

  class Formatter {
    var out: string
    var firstJsonRow: bool

    constructor ()
      ensures out == "" && firstJsonRow
    {
      out, firstJsonRow := "", true;
    }

    method WriteCells(cells: seq<string>, delim: char)
      modifies this`out
      ensures out == old(out) + Line(cells, delim)
    {
      ghost var start, done := out, "";
      for i := 0 to |cells|
        invariant out == start + done && done + CellsText(cells, i, delim) == CellsText(cells, 0, delim)
      {
        Associative(done, CellText(cells, i, delim), CellsText(cells, i + 1, delim));
        Associative(start, done, CellText(cells, i, delim));
        done := done + CellText(cells, i, delim);
        out := out + (cells[i] + if i + 1 == |cells| then "" else [delim]);
      }
      assert done + "" == done;
      Associative(start, done, "\n");
      out := out + "\n";
    }

    method PrintHeader(fields: seq<string>, format: Format)
      modifies this
      ensures out == old(out) + HeaderText(fields, format)
      ensures format.JSON? ==> firstJsonRow
    {
      if format.JSON? {
        out := out + "[\n";
        firstJsonRow := true;
      } else {
        WriteCells(fields, Delimiter(format));
      }
    }

    method PrintRow(row: Row, fields: seq<string>, format: Format)
      modifies this
      ensures out == old(out) + RowText(row, fields, format, old(firstJsonRow))
      ensures format.JSON? ==> !firstJsonRow
    {
      if format.JSON? {
        if !firstJsonRow { out := out + ",\n"; }
        firstJsonRow := false;
        WriteObject(fields, ValuesOf(row, fields));
        Associative(old(out), if old(firstJsonRow) then "" else ",\n", ObjectText(row, fields));
      } else {
        WriteCells(ValuesOf(row, fields), Delimiter(format));
      }
    }

    method WriteObject(fields: seq<string>, values: seq<string>)
      requires |fields| == |values|
      modifies this`out
      ensures out == old(out) + ("  {\n" + (MembersText(fields, values, 0) + "  }"))
    {
      out := out + "  {\n";
      ghost var start, done := out, "";
      for i := 0 to |fields|
        invariant out == start + done && done + MembersText(fields, values, i) == MembersText(fields, values, 0)
      {
        Associative(done, MemberText(fields, values, i), MembersText(fields, values, i + 1));
        Associative(start, done, MemberText(fields, values, i));
        done := done + MemberText(fields, values, i);
        out := out + MemberText(fields, values, i);
      }
      assert done + "" == done;
      Associative(start, done, "  }");
      Associative(old(out), "  {\n", done + "  }");
      out := out + "  }";
    }

    method Flush(format: Format)
      modifies this`out
      ensures out == old(out) + EndText(format)
    {
      if format.JSON? { out := out + "\n]\n"; }
    }
  }

  /** One more row moves from what is left to write to what is written. */
  lemma {:induction false} RowWritten(start: string, done: string, piece: string, left: string, text: string)
    requires done + (piece + left) == text
    ensures (done + piece) + left == text
    ensures (start + done) + piece == start + (done + piece)
  {
    Associative(done, piece, left);
    Associative(start, done, piece);
  }

  /** The calls an executor makes for its result rows. */
  method WriteRows(f: Formatter, fields: seq<string>, rows: seq<Row>, format: Format)
    requires format.JSON? ==> f.firstJsonRow
    modifies f
    ensures f.out == old(f.out) + RowsText(rows, fields, format, 0)
  {
    ghost var start, done := f.out, "";
    for i := 0 to |rows|
      invariant format.JSON? ==> f.firstJsonRow == (i == 0)
      invariant f.out == start + done && done + RowsText(rows, fields, format, i) == RowsText(rows, fields, format, 0)
    {
      ghost var piece := RowText(rows[i], fields, format, i == 0);
      RowWritten(start, done, piece, RowsText(rows, fields, format, i + 1), RowsText(rows, fields, format, 0));
      f.PrintRow(rows[i], fields, format);
      done := done + piece;
    }
    assert done + "" == done;
  }

  method WriteFile(fields: seq<string>, rows: seq<Row>, format: Format) returns (text: string)
    ensures text == FileText(fields, rows, format)
  {
    var f := new Formatter();
    f.PrintHeader(fields, format);
    assert "" + HeaderText(fields, format) == HeaderText(fields, format);
    WriteRows(f, fields, rows, format);
    f.Flush(format);
    Associative(HeaderText(fields, format), RowsText(rows, fields, format, 0), EndText(format));
    text := f.out;
  }

  /** Two columns and one row in each format. */
  lemma {:induction false} WriterInstance(a: string, b: string, x: string, y: string)
    requires a != b
    ensures FileText([a, b], [[(a, x), (b, y)]], CSV) == (a + "," + b + "\n") + (x + "," + y + "\n")
    ensures FileText([a, b], [[(a, x), (b, y)]], TSV) == (a + "\t" + b + "\n") + (x + "\t" + y + "\n")
    ensures FileText([a, b], [[(a, x), (b, y)]], JSON) ==
            "[\n" + ("  {\n" + (("    \"" + a + "\": \"" + x + "\", \n") + ("    \"" + b + "\": \"" + y + "\"\n"))
                    + "  }" + "\n]\n")
  {
    var fields, row := [a, b], [(a, x), (b, y)];
    assert row[1..] == [(b, y)] && Find(row[1..], b).Some? && Find(row, b) == Find(row[1..], b);
    assert TextOf(row, a) == x && TextOf(row, b) == y;
    assert ValuesOf(row, fields) == [x, y];
    TwoCells(a, b, ',');
    TwoCells(x, y, ',');
    TwoCells(a, b, '\t');
    TwoCells(x, y, '\t');
    OneRow(fields, row, CSV);
    OneRow(fields, row, TSV);
    OneRow(fields, row, JSON);
    TwoMembers(a, b, x, y);
  }

  lemma {:induction false} TwoCells(a: string, b: string, delim: char)
    ensures Line([a, b], delim) == a + [delim] + b + "\n"
  {
    var cells := [a, b];
    assert CellsText(cells, 2, delim) == "" && CellText(cells, 1, delim) == b + "" == b;
    assert CellsText(cells, 1, delim) == b + "" == b;
    assert CellsText(cells, 0, delim) == CellText(cells, 0, delim) + b;
  }

  lemma {:induction false} TwoMembers(a: string, b: string, x: string, y: string)
    ensures MembersText([a, b], [x, y], 0) ==
            ("    \"" + a + "\": \"" + x + "\", \n") + ("    \"" + b + "\": \"" + y + "\"\n")
  {
    var fields, values := [a, b], [x, y];
    assert MembersText(fields, values, 2) == "";
    assert MembersText(fields, values, 1) == MemberText(fields, values, 1) + "" == MemberText(fields, values, 1);
    assert MemberText(fields, values, 0) == "    \"" + a + "\": \"" + x + "\", \n";
    assert MemberText(fields, values, 1) == "    \"" + b + "\": \"" + y + "\"\n";
  }

  lemma {:induction false} OneRow(fields: seq<string>, row: Row, format: Format)
    ensures FileText(fields, [row], format) ==
            HeaderText(fields, format) + (RowText(row, fields, format, true) + EndText(format))
  {
    assert RowsText([row], fields, format, 1) == "";
    assert RowText(row, fields, format, true) + "" == RowText(row, fields, format, true);
  }
}
