/** The cells of a row where they stand in the file, and what cleaning can change about a cell. */
module CsvCells {
  import opened Sequences
  import opened Text
  import opened Csv

  /** Where the cell that is being read at i ends: at the first delimiter or newline outside quotes,
      or at the end of the file. */
  function CellEnd(data: string, i: nat, inQuotes: bool, delim: char): (e: nat)
    requires i <= |data|
    ensures i <= e <= |data|
    decreases |data| - i
  {
    if i == |data| then i
    else if data[i] == '"' then CellEnd(data, i + 1, !inQuotes, delim)
    else if data[i] in {delim, '\n'} && !inQuotes then i
    else CellEnd(data, i + 1, inQuotes, delim)
  }

  datatype Cells = Last(cell: string) | More(cell: string, rest: Cells)

  function ListOf(cells: Cells): (list: seq<string>)
    ensures list != []
  {
    match cells
    case Last(cell) => [cell]
    case More(cell, rest) => [cell] + ListOf(rest)
  }

  /** The cells from the one that begins at `start` up to the end of its row. */
  function CellsAt(data: string, start: nat, delim: char): Cells
    requires start <= |data|
    decreases |data| - start
  {
    var e := CellEnd(data, start, false, delim);
    if e < |data| && data[e] == delim then More(data[start..e], CellsAt(data, e + 1, delim)) else Last(data[start..e])
  }

  lemma {:induction false} HereSlice(data: string, o: nat, w: string, a: nat, b: nat)
    requires Here(data, o, w) && a <= b <= |w| && o + |w| <= |data|
    ensures data[o + a..o + b] == w[a..b]
  {
    forall k | 0 <= k < b - a ensures data[o + a..o + b][k] == w[a..b][k] { HereAt(data, o, w, a + k); }
  }

  /** The first cut of a line is where the first cell of the row it stands for ends. */
  lemma {:induction false} FirstCut(data: string, o: nat, line: string, start: nat, i: nat, inQuotes: bool,
                                    delim: char) returns (cut: nat)
    requires start <= i <= |line| && o + |line| <= |data| && Here(data, o, line) && delim !in {'"', '\n'}
    requires o + |line| == ScanEnd(data, o + i, inQuotes)
    ensures i <= cut <= |line| && CellEnd(data, o + i, inQuotes, delim) == o + cut
    ensures cut == |line| ==> SplitFrom(line, start, i, inQuotes, delim) == [line[start..]]
    ensures cut == |line| && o + cut < |data| ==> data[o + cut] == '\n'
    ensures cut < |line| ==> data[o + cut] == delim && ScanEnd(data, o + (cut + 1), false) == o + |line|
    ensures cut < |line| ==> SplitFrom(line, start, i, inQuotes, delim) ==
                             [line[start..cut]] + SplitFrom(line, cut + 1, cut + 1, false, delim)
    decreases |line| - i
  {
    if i == |line| {
      cut := i;
    } else if line[i] == delim && !inQuotes {
      HereAt(data, o, line, i);
      cut := i;
    } else {
      HereAt(data, o, line, i);
      cut := FirstCut(data, o, line, start, i + 1, if line[i] == '"' then !inQuotes else inQuotes, delim);
    }
  }

  /** Finding the end of the row and then cutting the row at its delimiters gives these cells. */
  lemma {:induction false} CutsAreCells(data: string, o: nat, line: string, start: nat, delim: char)
    requires start <= |line| && o + |line| <= |data| && Here(data, o, line) && delim !in {'"', '\n'}
    requires o + |line| == ScanEnd(data, o + start, false)
    ensures SplitFrom(line, start, start, false, delim) == ListOf(CellsAt(data, o + start, delim))
    decreases |line| - start
  {
    var cut := FirstCut(data, o, line, start, start, false, delim);
    HereSlice(data, o, line, start, cut);
    if cut < |line| {
      CutsAreCells(data, o, line, cut + 1, delim);
      assert CellsAt(data, o + start, delim) == More(line[start..cut], CellsAt(data, o + (cut + 1), delim));
    } else {
      assert CellsAt(data, o + start, delim) == Last(line[start..cut]);
      assert line[start..] == line[start..cut];
    }
  }

  /** The cells of a row, of which a last line without newline loses an empty last one. */
  lemma {:induction false} RowCellsAt(data: string, o: nat, delim: char)
    requires o <= |data| && delim !in {'"', '\n'}
    ensures var all := ListOf(CellsAt(data, o, delim));
            RowCells(data, o, delim) ==
            if ScanEnd(data, o, false) == |data| && all[|all| - 1] == "" then all[..|all| - 1] else all
  {
    var end := ScanEnd(data, o, false);
    HereIntro(data, o, data[o..end], 0);
    CutsAreCells(data, o, data[o..end], 0, delim);
  }

  // ---- What cleaning keeps ----

  function Least(a: nat, b: nat): nat {
    if a <= b then a else b
  }

  /** Cleaning removes carriage returns and quotes only. */
  lemma {:induction false} CleanKeeps(s: string, c: char)
    requires c !in {'"', '\r'}
    ensures Occurrences(Clean(s), c) == Occurrences(s, c) && |Clean(s)| <= |s|
  {
    var t := if s != "" && s[|s| - 1] == '\r' then s[..|s| - 1] else s;
    if |t| < |s| {
      assert s == t + ['\r'];
      OccurrencesConcat(t, ['\r'], c);
    }
    if |t| >= 2 && t[0] == '"' && t[|t| - 1] == '"' {
      var inner := t[1..|t| - 1];
      assert t == ['"'] + (inner + ['"']);
      OccurrencesConcat(['"'], inner + ['"'], c);
      OccurrencesConcat(inner, ['"'], c);
    }
  }

  predicate Enclosed(s: string) {
    |s| >= 2 && s[0] == '"' && s[|s| - 1] == '"'
  }

  /** Cleaning, for every cell: the cell is w, quoted w, or one of these with a carriage return. */
  lemma {:induction false} CleanMeans(w: string)
    ensures Clean("\"" + w + "\"") == w && Clean("\"" + w + "\"\r") == w
    ensures !Enclosed(w) ==> Clean(w + "\r") == w
    ensures !Enclosed(w) && (w == "" || w[|w| - 1] != '\r') ==> Clean(w) == w
  {
    var q := "\"" + w + "\"";
    assert q[1..|q| - 1] == w;
    assert "\"" + w + "\"\r" == q + "\r" && (q + "\r")[..|q|] == q;
    assert (w + "\r")[..|w|] == w;
  }

  /** A cell that runs over a character, where another ends, does not clean to the same value. */
  lemma {:induction false} LongerCellDiffers(data: string, o: nat, short: nat, long: nat)
    requires o <= short < long <= |data| && data[short] !in {'"', '\r'}
    ensures Occurrences(data[o..short], data[short]) < Occurrences(Clean(data[o..long]), data[short])
  {
    var c := data[short];
    assert data[o..long] == data[o..short] + ([c] + data[short + 1..long]);
    OccurrencesConcat(data[o..short], [c] + data[short + 1..long], c);
    OccurrencesConcat([c], data[short + 1..long], c);
    CleanKeeps(data[o..long], c);
  }

  // ---- Values that stand in a line ----

  /** Read from outside quotes, the value meets no delimiter and no newline outside quotes, and it
      ends outside quotes. */
  predicate Closed(v: string, i: nat, inQuotes: bool, delim: char)
    decreases |v| - i
  {
    if i >= |v| then !inQuotes
    else if v[i] == '"' then Closed(v, i + 1, !inQuotes, delim)
    else !(v[i] in {delim, '\n'} && !inQuotes) && Closed(v, i + 1, inQuotes, delim)
  }

  /** The value comes back when it is written as a cell: it is closed, and cleaning leaves it alone. */
  predicate Kept(v: string, delim: char) {
    Closed(v, 0, false, delim) && Clean(v) == v
  }

  /** A cell ends where the value written there ends if and only if the value is closed. */
  lemma {:induction false} CellEndsIff(data: string, o: nat, v: string, i: nat, inQuotes: bool, delim: char)
    requires i <= |v| && Here(data, o, v) && o + |v| < |data| && data[o + |v|] in {delim, '\n'} && delim != '"'
    ensures CellEnd(data, o + i, inQuotes, delim) == o + |v| <==> Closed(v, i, inQuotes, delim)
    decreases |v| - i
  {
    if i < |v| {
      HereAt(data, o, v, i);
      CellEndsIff(data, o, v, i + 1, if v[i] == '"' then !inQuotes else inQuotes, delim);
    }
  }

  /** A row ends where its first cell ends, or where the rest of it ends. */
  lemma {:induction false} ScanPastCell(data: string, i: nat, inQuotes: bool, delim: char)
    requires i <= |data| && delim !in {'"', '\n'}
    ensures var e := CellEnd(data, i, inQuotes, delim);
            ScanEnd(data, i, inQuotes) == if e < |data| && data[e] == delim then ScanEnd(data, e + 1, false) else e
    decreases |data| - i
  {
    if i < |data| && !(data[i] in {delim, '\n'} && !inQuotes) {
      ScanPastCell(data, i + 1, if data[i] == '"' then !inQuotes else inQuotes, delim);
    }
  }

  /** A written value is read back, by whatever cell begins where it was written, if and only if it
      is kept. */
  lemma {:induction false} CellComesBackIff(data: string, o: nat, v: string, delim: char)
    requires Here(data, o, v) && o + |v| < |data| && data[o + |v|] in {delim, '\n'} && delim in {',', '\t'}
    ensures Clean(data[o..CellEnd(data, o, false, delim)]) == v <==> Kept(v, delim)
    ensures Kept(v, delim) ==> CellEnd(data, o, false, delim) == o + |v|
  {
    var e, b := CellEnd(data, o, false, delim), o + |v|;
    CellEndsIff(data, o, v, 0, false, delim);
    HereSlice(data, o, v, 0, |v|);
    assert data[o..b] == v;
    if e < b {
      CleanKeeps(data[o..e], 'x');
    } else if b < e {
      LongerCellDiffers(data, o, b, e);
    }
  }
}
