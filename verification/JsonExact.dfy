/** Exactly which results come back from a JSON file. The writer does not escape, and what the
    reader makes of a file with quotes and backslashes in it can be anything; but every quote and
    every backslash in a string that is read costs a backslash in the file. */
module JsonExact {
  import opened Wrappers
  import opened Rows
  import opened Text
  import opened Formatter
  import opened Json
  import opened JsonRoundTrip
  import opened CsvRoundTrip

  // ---- What a string costs ----

  /** The backslashes of the text a string is read from: one for each quote, two for each backslash. */
  function Cost(s: string): nat {
    Occurrences(s, '"') + 2 * Occurrences(s, '\\')
  }

  function RowCost(row: Row): nat {
    if row == [] then 0 else Cost(row[0].0) + Cost(row[0].1) + RowCost(row[1..])
  }

  function RowsCost(rows: seq<Row>): nat {
    if rows == [] then 0 else RowCost(rows[0]) + RowsCost(rows[1..])
  }

  lemma {:induction false} CostNext(s: string, c: char)
    ensures Cost(s + [c]) == Cost(s) + if c == '"' then 1 else if c == '\\' then 2 else 0
  {
    OccurrencesConcat(s, [c], '"');
    OccurrencesConcat(s, [c], '\\');
  }

  lemma {:induction false} RowCostConcat(a: Row, b: Row)
    ensures RowCost(a + b) == RowCost(a) + RowCost(b)
  {
    if a == [] {
      assert a + b == b;
    } else {
      assert (a + b)[1..] == a[1..] + b;
      RowCostConcat(a[1..], b);
    }
  }

  lemma {:induction false} PutCost(row: Row, key: string, val: string)
    ensures RowCost(Put(row, key, val)) <= RowCost(row) + Cost(key) + Cost(val)
  {
    if row != [] && row[0].0 != key { PutCost(row[1..], key, val); }
  }

  lemma {:induction false} RowsCostLast(rows: seq<Row>, row: Row)
    ensures RowsCost(rows + [row]) == RowsCost(rows) + RowCost(row)
  {
    if rows == [] {
      assert rows + [row] == [row];
    } else {
      assert (rows + [row])[1..] == rows[1..] + [row];
      RowsCostLast(rows[1..], row);
    }
  }

  // ---- Reading pays ----

  /** The backslashes still to come. */
  function Left(data: string, pos: nat): nat
    requires pos <= |data|
  {
    Occurrences(data[pos..], '\\')
  }

  lemma {:induction false} LeftNext(data: string, pos: nat)
    requires pos < |data|
    ensures Left(data, pos) == Left(data, pos + 1) + if data[pos] == '\\' then 1 else 0
  {
    assert data[pos..] == [data[pos]] + data[pos + 1..];
  }

  lemma {:induction false} LeftLater(data: string, pos: nat, later: nat)
    requires pos <= later <= |data|
    ensures Left(data, later) <= Left(data, pos)
    decreases later - pos
  {
    if pos < later {
      LeftNext(data, pos);
      LeftLater(data, pos + 1, later);
    }
  }

  lemma {:induction false} UnescapePays(data: string, pos: nat, close: nat, text: string)
    requires pos <= close < |data| && FindClose(data, pos) == close
    ensures Cost(Unescape(data, pos, close, text)) + Left(data, close) <= Cost(text) + Left(data, pos)
    decreases close - pos
  {
    if pos < close {
      LeftNext(data, pos);
      if data[pos] != '\\' {
        CostNext(text, data[pos]);
        UnescapePays(data, pos + 1, close, text + [data[pos]]);
      } else {
        LeftNext(data, pos + 1);
        CostNext(text, data[pos + 1]);
        UnescapePays(data, pos + 2, close, text + [data[pos + 1]]);
      }
    }
  }

  lemma {:induction false} StringPays(data: string, pos: nat)
    requires pos <= |data| && StringAt(data, pos).Ok?
    ensures var s := StringAt(data, pos).value; Cost(s.value) + Left(data, s.end) <= Left(data, pos)
  {
    var open := SkipSpace(data, pos);
    var close := FindClose(data, open + 1);
    UnescapePays(data, open + 1, close, "");
    LeftLater(data, pos, open + 1);
    LeftLater(data, close, close + 1);
  }

  lemma {:induction false} NumberIsFree(data: string, pos: nat, c: char)
    requires pos <= |data| && !IsNumberChar(c)
    ensures Occurrences(data[pos..NumberEnd(data, pos)], c) == 0
    decreases |data| - pos
  {
    if pos < |data| && IsNumberChar(data[pos]) {
      NumberIsFree(data, pos + 1, c);
      assert data[pos..NumberEnd(data, pos)] == [data[pos]] + data[pos + 1..NumberEnd(data, pos)];
    }
  }

  lemma {:induction false} ValuePays(data: string, pos: nat)
    requires pos <= |data| && ValueAt(data, pos).Ok?
    ensures var v := ValueAt(data, pos).value; Cost(v.value) + Left(data, v.end) <= Left(data, pos)
  {
    var p := SkipSpace(data, pos);
    LeftLater(data, pos, p);
    if data[p] == '"' {
      StringPays(data, p);
    } else {
      NumberIsFree(data, p, '"');
      NumberIsFree(data, p, '\\');
      LeftLater(data, p, NumberEnd(data, p));
    }
  }

  lemma {:induction false} MembersPay(data: string, pos: nat, row: Row)
    requires pos <= |data| && MembersAt(data, pos, row).Ok?
    ensures var r := MembersAt(data, pos, row).value;
            RowCost(r.value) + Left(data, r.end) <= RowCost(row) + Left(data, pos)
    ensures Distinct(row) ==> Distinct(MembersAt(data, pos, row).value.value)
    decreases |data| - pos, 1
  {
    var p := SkipSpace(data, pos);
    LeftLater(data, pos, p);
    if data[p] == '}' { LeftLater(data, p, p + 1); } else { MemberPays(data, p, row); }
  }

  lemma {:induction false} MemberPays(data: string, pos: nat, row: Row)
    requires pos <= |data| && MemberAt(data, pos, row).Ok?
    ensures var r := MemberAt(data, pos, row).value;
            RowCost(r.value) + Left(data, r.end) <= RowCost(row) + Left(data, pos)
    ensures Distinct(row) ==> Distinct(MemberAt(data, pos, row).value.value)
    decreases |data| - pos, 0
  {
    var key := StringAt(data, pos).value;
    var colon := CharAt(data, key.end, ':').value;
    var val := ValueAt(data, colon).value;
    var next := SkipSpace(data, val.end);
    var start := if next < |data| && data[next] == ',' then next + 1 else next;
    StringPays(data, pos);
    LeftLater(data, key.end, colon);
    ValuePays(data, colon);
    LeftLater(data, val.end, start);
    PutCost(row, key.value, val.value);
    if Distinct(row) { PutDistinct(row, key.value, val.value); }
    MembersPay(data, start, Put(row, key.value, val.value));
  }

  lemma {:induction false} ObjectPays(data: string, pos: nat)
    requires pos <= |data| && ObjectAt(data, pos).Ok?
    ensures var r := ObjectAt(data, pos).value;
            RowCost(r.value) + Left(data, r.end) <= Left(data, pos) && Distinct(r.value)
  {
    var open := CharAt(data, pos, '{').value;
    LeftLater(data, pos, open);
    MembersPay(data, open, []);
  }

  ghost predicate AllRowsDistinct(rows: seq<Row>) {
    forall k :: 0 <= k < |rows| ==> Distinct(rows[k])
  }

  lemma {:induction false} RowsPay(data: string, pos: nat, rows: seq<Row>)
    requires pos <= |data| && RowsAt(data, pos, rows).Ok?
    ensures RowsCost(RowsAt(data, pos, rows).value) <= RowsCost(rows) + Left(data, pos)
    ensures AllRowsDistinct(rows) ==> AllRowsDistinct(RowsAt(data, pos, rows).value)
    decreases |data| - pos
  {
    var p := NextStart(data, pos);
    LeftLater(data, pos, p);
    if p < |data| && data[p] == '{' {
      var first := ObjectAt(data, p).value;
      ObjectPays(data, p);
      RowsCostLast(rows, first.value);
      RowsPay(data, first.end, rows + [first.value]);
    }
  }

  /** Whatever a file is read as, the strings in it cost no more backslashes than the file has, and
      no row has a name twice. */
  lemma {:induction false} FilePays(data: string)
    requires RowsOf(data).Ok?
    ensures RowsCost(RowsOf(data).value) <= Occurrences(data, '\\') && AllRowsDistinct(RowsOf(data).value)
  {
    var start := ArrayStart(data).value;
    assert data[0..] == data;
    LeftLater(data, 0, start);
    RowsPay(data, start, []);
  }

  // ---- What the writer pays ----

  /** The backslashes in the first n names and values. */
  function Paid(fields: seq<string>, values: seq<string>, n: nat): nat
    requires n <= |fields| && n <= |values|
  {
    if n == 0 then 0
    else Paid(fields, values, n - 1) + Occurrences(fields[n - 1], '\\') + Occurrences(values[n - 1], '\\')
  }

  /** What the writer still owes for them: it does not escape. */
  function Owed(fields: seq<string>, values: seq<string>, n: nat): nat
    requires n <= |fields| && n <= |values|
  {
    if n == 0 then 0 else Owed(fields, values, n - 1) + Marks(fields[n - 1]) + Marks(values[n - 1])
  }

  function Marks(s: string): nat {
    Occurrences(s, '"') + Occurrences(s, '\\')
  }

  lemma {:induction false} NoMarksIff(s: string)
    ensures Marks(s) == 0 <==> Unquoted(s)
  {
    UnquotedIff(s, 0);
    NoOccurrence(s, '"');
    NoOccurrence(s, '\\');
  }

  lemma {:induction false} PairsCost(fields: seq<string>, values: seq<string>, n: nat)
    requires n <= |fields| && n <= |values|
    ensures RowCost(Pairs(fields, values, n)) == Paid(fields, values, n) + Owed(fields, values, n)
    decreases n
  {
    if n > 0 {
      PairsCost(fields, values, n - 1);
      RowCostConcat(Pairs(fields, values, n - 1), [(fields[n - 1], values[n - 1])]);
    }
  }

  lemma {:induction false} MemberPaid(fields: seq<string>, values: seq<string>, i: nat)
    requires i < |fields| == |values|
    ensures Occurrences(MemberText(fields, values, i), '\\') ==
            Occurrences(fields[i], '\\') + Occurrences(values[i], '\\')
  {
    var f, v, end := Quoted(fields[i]), Quoted(values[i]), MemberEnd(i + 1 == |fields|);
    QuotedPaid(fields[i]);
    QuotedPaid(values[i]);
    NoOccurrence("    ", '\\');
    NoOccurrence(": ", '\\');
    NoOccurrence(end, '\\');
    OccurrencesConcat("    ", f + (": " + (v + end)), '\\');
    OccurrencesConcat(f, ": " + (v + end), '\\');
    OccurrencesConcat(": ", v + end, '\\');
    OccurrencesConcat(v, end, '\\');
  }

  lemma {:induction false} QuotedPaid(s: string)
    ensures Occurrences(Quoted(s), '\\') == Occurrences(s, '\\')
  {
    OccurrencesConcat("\"", s + "\"", '\\');
    OccurrencesConcat(s, "\"", '\\');
  }

  lemma {:induction false} MembersPaid(fields: seq<string>, values: seq<string>, i: nat)
    requires i <= |fields| == |values|
    ensures Paid(fields, values, i) + Occurrences(MembersText(fields, values, i), '\\') ==
            Paid(fields, values, |fields|)
    decreases |fields| - i
  {
    if i < |fields| {
      MemberPaid(fields, values, i);
      OccurrencesConcat(MemberText(fields, values, i), MembersText(fields, values, i + 1), '\\');
      MembersPaid(fields, values, i + 1);
    }
  }

  lemma {:induction false} RowPaid(row: Row, fields: seq<string>, first: bool)
    ensures Occurrences(RowText(row, fields, JSON, first), '\\') == Paid(fields, ValuesOf(row, fields), |fields|)
  {
    var members := MembersText(fields, ValuesOf(row, fields), 0);
    MembersPaid(fields, ValuesOf(row, fields), 0);
    NoOccurrence(",\n", '\\');
    NoOccurrence("  {\n", '\\');
    NoOccurrence("  }", '\\');
    OccurrencesConcat(if first then "" else ",\n", ObjectText(row, fields), '\\');
    OccurrencesConcat("  {\n", members + "  }", '\\');
    OccurrencesConcat(members, "  }", '\\');
  }

  /** The backslashes in what is printed of the rows from the i-th on. */
  function RowsPaid(rows: seq<Row>, i: nat, fields: seq<string>): nat
    requires i <= |rows|
    decreases |rows| - i
  {
    if i == |rows| then 0 else Paid(fields, ValuesOf(rows[i], fields), |fields|) + RowsPaid(rows, i + 1, fields)
  }

  function RowsOwed(rows: seq<Row>, i: nat, fields: seq<string>): nat
    requires i <= |rows|
    decreases |rows| - i
  {
    if i == |rows| then 0 else Owed(fields, ValuesOf(rows[i], fields), |fields|) + RowsOwed(rows, i + 1, fields)
  }

  lemma {:induction false} TextPaid(rows: seq<Row>, i: nat, fields: seq<string>)
    requires i <= |rows|
    ensures Occurrences(RowsText(rows, fields, JSON, i), '\\') == RowsPaid(rows, i, fields)
    decreases |rows| - i
  {
    if i < |rows| {
      RowPaid(rows[i], fields, i == 0);
      OccurrencesConcat(RowText(rows[i], fields, JSON, i == 0), RowsText(rows, fields, JSON, i + 1), '\\');
      TextPaid(rows, i + 1, fields);
    }
  }

  lemma {:induction false} FilePaid(rows: seq<Row>, fields: seq<string>)
    ensures Occurrences(FileText(fields, rows, JSON), '\\') == RowsPaid(rows, 0, fields)
  {
    var body := RowsText(rows, fields, JSON, 0);
    NoOccurrence("[\n", '\\');
    NoOccurrence("\n]\n", '\\');
    OccurrencesConcat("[\n", body + "\n]\n", '\\');
    OccurrencesConcat(body, "\n]\n", '\\');
    TextPaid(rows, 0, fields);
  }

  lemma {:induction false} PrintedCost(rows: seq<Row>, i: nat, fields: seq<string>)
    requires i <= |rows|
    ensures RowsCost(AllPrinted(rows, i, fields)) == RowsPaid(rows, i, fields) + RowsOwed(rows, i, fields)
    decreases |rows| - i
  {
    if i < |rows| {
      PairsCost(fields, ValuesOf(rows[i], fields), |fields|);
      PrintedCost(rows, i + 1, fields);
      assert AllPrinted(rows, i, fields)[1..] == AllPrinted(rows, i + 1, fields);
    }
  }

  // ---- Nothing is owed ----

  lemma {:induction false} NothingOwed(fields: seq<string>, values: seq<string>, n: nat, k: nat)
    requires k < n <= |fields| && n <= |values| && Owed(fields, values, n) == 0
    ensures Unquoted(fields[k]) && Unquoted(values[k])
    decreases n
  {
    if k == n - 1 {
      NoMarksIff(fields[k]);
      NoMarksIff(values[k]);
    } else {
      NothingOwed(fields, values, n - 1, k);
    }
  }

  lemma {:induction false} NothingOwedByRow(rows: seq<Row>, i: nat, fields: seq<string>, j: nat)
    requires i <= j < |rows| && RowsOwed(rows, i, fields) == 0
    ensures AllUnquoted(fields) && AllUnquoted(ValuesOf(rows[j], fields))
    decreases j - i
  {
    if i < j {
      NothingOwedByRow(rows, i + 1, fields, j);
    } else {
      var values := ValuesOf(rows[j], fields);
      forall k | 0 <= k < |fields| ensures Unquoted(fields[k]) && Unquoted(values[k]) {
        NothingOwed(fields, values, |fields|, k);
      }
    }
  }

  lemma {:induction false} PrintedOnce(rows: seq<Row>, fields: seq<string>)
    requires rows != [] && AllRowsDistinct(AllPrinted(rows, 0, fields))
    ensures AllDistinct(fields)
  {
    var row := Printed(rows[0], fields);
    assert AllPrinted(rows, 0, fields)[0] == row;
    PairsAt(fields, ValuesOf(rows[0], fields), |fields|);
    forall i, j | 0 <= i < j < |fields| ensures fields[i] != fields[j] {
      assert row[i].0 == fields[i] && row[j].0 == fields[j];
    }
  }

  /** Reading undoes writing, for JSON, if and only if there is no row, or no name is repeated and no
      name and no printed value has a quote or a backslash. */
  lemma {:induction false} JsonComesBackIff(fields: seq<string>, rows: seq<Row>)
    ensures RowsOf(FileText(fields, rows, JSON)) == Ok(AllPrinted(rows, 0, fields))
            <==> rows == [] || (AllDistinct(fields) && AllUnquoted(fields) && RowsUnquoted(rows, fields))
  {
    var text, printed := FileText(fields, rows, JSON), AllPrinted(rows, 0, fields);
    if RowsOf(text) == Ok(printed) && rows != [] {
      FilePays(text);
      FilePaid(rows, fields);
      PrintedCost(rows, 0, fields);
      PrintedOnce(rows, fields);
      forall j | 0 <= j < |rows| ensures AllUnquoted(fields) && AllUnquoted(ValuesOf(rows[j], fields)) {
        NothingOwedByRow(rows, 0, fields, j);
      }
      assert AllUnquoted(ValuesOf(rows[0], fields));
    }
    if rows == [] {
      JsonRoundTrip.JsonRoundTrip([], []);
    } else if AllDistinct(fields) && AllUnquoted(fields) && RowsUnquoted(rows, fields) {
      JsonRoundTrip.JsonRoundTrip(fields, rows);
    }
  }

  /** Rows written under their own names are read back, as JSON, as these same rows, if and only if
      there are none, or no row has a name twice and no name and no text has a quote or a
      backslash. */
  lemma {:induction false} OwnRowsComeBackIff(names: seq<string>, rows: seq<Row>)
    requires AllNamed(rows, names)
    ensures RowsOf(FileText(names, rows, JSON)) == Ok(rows) <==>
            || rows == []
            || (&& AllRowsDistinct(rows) && AllUnquoted(names)
                && forall j, k :: 0 <= j < |rows| && 0 <= k < |rows[j]| ==> Unquoted(rows[j][k].1))
  {
    if rows == [] || AllDistinct(names) {
      OwnRowsPrinted(names, rows);
      JsonComesBackIff(names, rows);
      OwnTexts(names, rows);
    } else {
      assert NamesOf(rows[0]) == names;
      var i, j :| 0 <= i < j < |names| && names[i] == names[j];
      assert rows[0][i].0 == rows[0][j].0;
      if RowsOf(FileText(names, rows, JSON)).Ok? { FilePays(FileText(names, rows, JSON)); }
    }
  }

  lemma {:induction false} OwnTexts(names: seq<string>, rows: seq<Row>)
    requires AllNamed(rows, names) && (rows == [] || AllDistinct(names))
    ensures RowsUnquoted(rows, names) <==>
            forall j, k :: 0 <= j < |rows| && 0 <= k < |rows[j]| ==> Unquoted(rows[j][k].1)
  {
    OwnRowsPrinted(names, rows);
    if RowsUnquoted(rows, names) {
      forall j, k | 0 <= j < |rows| && 0 <= k < |rows[j]| ensures Unquoted(rows[j][k].1) {
        assert AllUnquoted(ValuesOf(rows[j], names));
        assert ValuesOf(rows[j], names)[k] == rows[j][k].1;
      }
    }
  }
}
