/** When the chunks handed out by Split read the rows of the file, each once and in order. */
module CsvSplit {
  import opened Rows
  import opened Sequences
  import opened Text
  import opened Csv
  import opened CsvCells

  /** Where the offset stands after Open: at the end, or just after a newline. */
  ghost predicate AfterHeader(data: string, base: nat) {
    0 < base <= |data| && (base == |data| || data[base - 1] == '\n')
  }

  lemma OpenLeavesAfterHeader(data: string)
    requires data != ""
    ensures AfterHeader(data, DataStart(data))
  {}

  /** The rows of the file read without splitting. */
  function ParentStarts(data: string, base: nat): seq<nat>
    requires base <= |data|
  {
    RowStarts(data, base, |data|)
  }

  /** The rows of children lo, lo+1, ..., n-1, one after the other. */
  function StartsOfChildren(data: string, base: nat, n: nat, lo: nat): seq<nat>
    requires n > 0 && base <= |data| && lo <= n
    decreases n - lo
  {
    if lo == n then [] else ChildStarts(data, base, n, lo) + StartsOfChildren(data, base, n, lo + 1)
  }

  function RowsOfChildren(data: string, base: nat, n: nat, headers: seq<string>, lo: nat): seq<Row>
    requires n > 0 && base <= |data| && lo <= n
    decreases n - lo
  {
    if lo == n then [] else ChildRows(data, base, n, lo, headers) + RowsOfChildren(data, base, n, headers, lo + 1)
  }

  /** Child i begins at a row of the file, or reads nothing. */
  ghost predicate Aligned(data: string, base: nat, n: nat, i: nat)
    requires n > 0 && base <= |data| && i < n
  {
    ChunkBounds(data, base, n, i);
    var from := Align(data, ChunkStart(data, base, n, i));
    from < ChunkEnd(data, base, n, i) ==> from in ParentStarts(data, base)
  }

  // ---- Rows of the file that begin in a byte range ----

  function Window(data: string, o: nat, lo: nat, hi: nat): seq<nat>
    requires o <= |data|
    decreases |data| - o
  {
    if o == |data| then []
    else (if lo <= o < hi then [o] else []) + Window(data, NextOffset(data, o), lo, hi)
  }

  lemma {:induction false} WindowAll(data: string, o: nat, lo: nat)
    requires lo <= o <= |data|
    ensures Window(data, o, lo, |data|) == RowStarts(data, o, |data|)
    decreases |data| - o
  {
    if o < |data| { WindowAll(data, NextOffset(data, o), lo); }
  }

  lemma {:induction false} WindowEmpty(data: string, o: nat, lo: nat, hi: nat)
    requires o <= |data|
    requires hi <= lo || hi <= o
    ensures Window(data, o, lo, hi) == []
    decreases |data| - o
  {
    if o < |data| { WindowEmpty(data, NextOffset(data, o), lo, hi); }
  }

  lemma {:induction false} WindowLower(data: string, o: nat, lo: nat, mid: nat, hi: nat)
    requires lo <= mid <= o <= |data|
    ensures Window(data, o, mid, hi) == Window(data, o, lo, hi)
    decreases |data| - o
  {
    if o < |data| { WindowLower(data, NextOffset(data, o), lo, mid, hi); }
  }

  lemma {:induction false} WindowSplit(data: string, o: nat, lo: nat, mid: nat, hi: nat)
    requires o <= |data| && lo <= mid <= hi
    ensures Window(data, o, lo, mid) + Window(data, o, mid, hi) == Window(data, o, lo, hi)
    decreases |data| - o
  {
    if o < |data| {
      var next := NextOffset(data, o);
      if o < mid {
        WindowSplit(data, next, lo, mid, hi);
        Associative(if lo <= o then [o] else [], Window(data, next, lo, mid), Window(data, next, mid, hi));
        assert Window(data, o, mid, hi) == Window(data, next, mid, hi);
      } else {
        WindowEmpty(data, o, lo, mid);
        WindowLower(data, o, lo, mid, hi);
      }
    }
  }

  /** From a row that begins at `from`, reading up to hi yields the rows beginning in [from, hi). */
  lemma {:induction false} WindowFrom(data: string, o: nat, from: nat, hi: nat)
    requires o <= |data| && from in RowStarts(data, o, |data|) && hi <= |data|
    ensures from <= |data| && Window(data, o, from, hi) == RowStarts(data, from, hi)
    decreases |data| - o
  {
    RowStartsInRange(data, o, |data|);
    if o == from {
      WindowIsReading(data, o, from, hi);
    } else {
      WindowFrom(data, NextOffset(data, o), from, hi);
    }
  }

  lemma {:induction false} WindowIsReading(data: string, o: nat, lo: nat, hi: nat)
    requires lo <= o <= |data| && hi <= |data|
    ensures Window(data, o, lo, hi) == RowStarts(data, o, hi)
    decreases |data| - o
  {
    if o < hi {
      WindowIsReading(data, NextOffset(data, o), lo, hi);
    } else {
      WindowEmpty(data, o, lo, hi);
    }
  }

  /** Nothing that follows a newline lies between the start of a chunk and where it is aligned. */
  lemma {:induction false} AlignSkipsNothing(data: string, base: nat, lo: nat, o: nat)
    requires AfterHeader(data, base) && base <= lo <= |data|
    requires o < |data| && (o == base || (o > 0 && data[o - 1] == '\n'))
    ensures lo <= o <==> Align(data, lo) <= o
  {
    if lo <= o && data[lo - 1] != '\n' {
      assert FirstNewline(data, lo) <= o - 1;
    }
  }

  /** No row of the file begins between the start of a chunk and the place it is aligned to. */
  lemma {:induction false} NoRowBeforeAlign(data: string, base: nat, o: nat, lo: nat, hi: nat)
    requires AfterHeader(data, base) && base <= lo <= |data|
    requires o <= |data| && (o == base || o == |data| || (o > 0 && data[o - 1] == '\n'))
    ensures Window(data, o, lo, hi) == Window(data, o, Align(data, lo), hi)
    decreases |data| - o
  {
    if o < |data| {
      AlignSkipsNothing(data, base, lo, o);
      NoRowBeforeAlign(data, base, NextOffset(data, o), lo, hi);
    }
  }

  /** An aligned child reads exactly the rows of the file that begin in its byte range. */
  lemma {:induction false} ChildReadsWindow(data: string, base: nat, n: nat, i: nat)
    requires AfterHeader(data, base) && n > 0 && i < n && Aligned(data, base, n, i)
    ensures ChildStarts(data, base, n, i) ==
            Window(data, base, ChunkStart(data, base, n, i), ChunkEnd(data, base, n, i))
  {
    ChunkBounds(data, base, n, i);
    var lo, hi := ChunkStart(data, base, n, i), ChunkEnd(data, base, n, i);
    NoRowBeforeAlign(data, base, base, lo, hi);
    if Align(data, lo) < hi {
      WindowFrom(data, base, Align(data, lo), hi);
    } else {
      WindowEmpty(data, base, Align(data, lo), hi);
    }
  }

  lemma {:induction false} ChildrenReadWindow(data: string, base: nat, n: nat, lo: nat)
    requires AfterHeader(data, base) && n > 0 && lo < n
    requires forall i :: lo <= i < n ==> Aligned(data, base, n, i)
    ensures StartsOfChildren(data, base, n, lo) == Window(data, base, ChunkStart(data, base, n, lo), |data|)
    decreases n - lo
  {
    ChildReadsWindow(data, base, n, lo);
    ChunkBounds(data, base, n, lo);
    if lo + 1 < n {
      ChildrenReadWindow(data, base, n, lo + 1);
      ChunkBounds(data, base, n, lo + 1);
      WindowSplit(data, base, ChunkStart(data, base, n, lo), ChunkEnd(data, base, n, lo), |data|);
    } else {
      assert StartsOfChildren(data, base, n, n) == [];
    }
  }

  lemma {:induction false} ChildInChildren(data: string, base: nat, n: nat, lo: nat, i: nat, x: nat)
    requires n > 0 && base <= |data| && lo <= i < n && x in ChildStarts(data, base, n, i)
    ensures x in StartsOfChildren(data, base, n, lo)
    decreases n - lo
  {
    if lo < i { ChildInChildren(data, base, n, lo + 1, i, x); }
  }

  /** The split is a partition of the file's rows exactly when every chunk that reads anything
      is aligned to the beginning of a row. */
  lemma {:induction false} SplitIsPartitionIff(data: string, base: nat, n: nat)
    requires AfterHeader(data, base) && n > 0
    ensures StartsOfChildren(data, base, n, 0) == ParentStarts(data, base)
            <==> forall i :: 0 <= i < n ==> Aligned(data, base, n, i)
  {
    if forall i :: 0 <= i < n ==> Aligned(data, base, n, i) {
      ChildrenReadWindow(data, base, n, 0);
      WindowAll(data, base, base);
    }
    if StartsOfChildren(data, base, n, 0) == ParentStarts(data, base) {
      forall i | 0 <= i < n ensures Aligned(data, base, n, i) {
        ChunkBounds(data, base, n, i);
        var from := Align(data, ChunkStart(data, base, n, i));
        if from < ChunkEnd(data, base, n, i) {
          assert from in ChildStarts(data, base, n, i);
          ChildInChildren(data, base, n, 0, i, from);
        }
      }
    }
  }

  // ---- Files without newlines inside quotes ----

  ghost predicate LineStart(data: string, base: nat, a: nat) {
    base <= a <= |data| && (a == base || (a > 0 && data[a - 1] == '\n'))
  }

  /** Every newline comes after an even number of quotes on its line. */
  ghost predicate NewlinesUnquoted(data: string, base: nat) {
    forall a: nat :: LineStart(data, base, a) ==>
      var e := FirstNewline(data, a);
      e < |data| ==> Occurrences(data[a..e], '"') % 2 == 0
  }

  /** The row scan stops at the first newline when the quotes before it are balanced. */
  lemma {:induction false} ScanStopsAtNewline(data: string, i: nat, inQuotes: bool)
    requires i <= |data|
    requires FirstNewline(data, i) < |data| ==>
               (Occurrences(data[i..FirstNewline(data, i)], '"') % 2 == 1) == inQuotes
    ensures FirstNewline(data, i) < |data| ==> ScanEnd(data, i, inQuotes) == FirstNewline(data, i)
    ensures FirstNewline(data, i) == |data| ==> ScanEnd(data, i, inQuotes) == |data|
    decreases |data| - i
  {
    if i < |data| && data[i] != '\n' {
      var e := FirstNewline(data, i);
      assert data[i..e][0] == data[i] && data[i..e][1..] == data[i + 1..e];
      ScanStopsAtNewline(data, i + 1, if data[i] == '"' then !inQuotes else inQuotes);
    } else if i < |data| {
      assert data[i..i] == "";
    }
  }

  lemma {:induction false} LineStartsAreRows(data: string, base: nat, o: nat, x: nat)
    requires NewlinesUnquoted(data, base)
    requires LineStart(data, base, o) && LineStart(data, base, x) && o <= x < |data|
    ensures x in RowStarts(data, o, |data|)
    decreases |data| - o
  {
    if o < x {
      ScanStopsAtNewline(data, o, false);
      assert FirstNewline(data, o) <= x - 1;
      LineStartsAreRows(data, base, NextOffset(data, o), x);
    }
  }

  lemma {:induction false} UnquotedMeansAligned(data: string, base: nat, n: nat, i: nat)
    requires AfterHeader(data, base) && NewlinesUnquoted(data, base) && n > 0 && i < n
    ensures Aligned(data, base, n, i)
  {
    ChunkBounds(data, base, n, i);
    var from := Align(data, ChunkStart(data, base, n, i));
    if from < ChunkEnd(data, base, n, i) {
      assert LineStart(data, base, from);
      LineStartsAreRows(data, base, base, from);
    }
  }

  /** Every split of a file without newlines inside quotes is a partition of its rows. */
  lemma {:induction false} SplitIsPartition(data: string, base: nat, n: nat)
    requires AfterHeader(data, base) && NewlinesUnquoted(data, base) && n > 0
    ensures StartsOfChildren(data, base, n, 0) == ParentStarts(data, base)
  {
    forall i | 0 <= i < n ensures Aligned(data, base, n, i) { UnquotedMeansAligned(data, base, n, i); }
    SplitIsPartitionIff(data, base, n);
  }

  // ---- Row contents ----

  lemma {:induction false} RowsAtConcat(data: string, a: seq<nat>, b: seq<nat>, delim: char, headers: seq<string>)
    requires forall k :: 0 <= k < |a| ==> a[k] <= |data|
    requires forall k :: 0 <= k < |b| ==> b[k] <= |data|
    ensures forall k :: 0 <= k < |a + b| ==> (a + b)[k] <= |data|
    ensures RowsAt(data, a + b, delim, headers) == RowsAt(data, a, delim, headers) + RowsAt(data, b, delim, headers)
  {
    var l, r := RowsAt(data, a + b, delim, headers), RowsAt(data, a, delim, headers) + RowsAt(data, b, delim, headers);
    forall k | 0 <= k < |a + b| ensures l[k] == r[k] {
      if k < |a| { assert (a + b)[k] == a[k]; } else { assert (a + b)[k] == b[k - |a|]; }
    }
  }

  lemma {:induction false} ChildrenRowsAreRowsAt(data: string, base: nat, n: nat, headers: seq<string>, lo: nat)
    requires n > 0 && base <= |data| && lo <= n
    ensures forall k :: 0 <= k < |StartsOfChildren(data, base, n, lo)| ==>
              StartsOfChildren(data, base, n, lo)[k] <= |data|
    ensures RowsOfChildren(data, base, n, headers, lo) ==
            RowsAt(data, StartsOfChildren(data, base, n, lo), ',', headers)
    decreases n - lo
  {
    if lo < n {
      ChildrenRowsAreRowsAt(data, base, n, headers, lo + 1);
      ChunkBounds(data, base, n, lo);
      RowStartsInRange(data, Align(data, ChunkStart(data, base, n, lo)), ChunkEnd(data, base, n, lo));
      RowsAtConcat(data, ChildStarts(data, base, n, lo), StartsOfChildren(data, base, n, lo + 1), ',', headers);
    }
  }

  /** The children's rows, one after the other, are the rows of the unsplit ',' file. */
  lemma {:induction false} SplitKeepsRows(data: string, base: nat, n: nat, headers: seq<string>)
    requires AfterHeader(data, base) && n > 0
    requires NewlinesUnquoted(data, base) || forall i :: 0 <= i < n ==> Aligned(data, base, n, i)
    ensures RowsOfChildren(data, base, n, headers, 0) == RowsFrom(data, base, |data|, ',', headers)
  {
    if NewlinesUnquoted(data, base) {
      SplitIsPartition(data, base, n);
    } else {
      SplitIsPartitionIff(data, base, n);
    }
    ChildrenRowsAreRowsAt(data, base, n, headers, 0);
  }

  // ---- Where the promise does not hold ----

  const QUOTED_FILE := "h\n\"a\nb\"\n"

  /** A newline inside quotes: the second of two chunks starts in the middle of the only row. */
  lemma {:induction false} QuotedNewlineBreaksSplit()
    ensures AfterHeader(QUOTED_FILE, 2)
    ensures ParentStarts(QUOTED_FILE, 2) == [2]
    ensures StartsOfChildren(QUOTED_FILE, 2, 2, 0) == [2, 5]
  {
    var d := QUOTED_FILE;
    assert |d| == 8;
    assert ScanEnd(d, 7, false) == 7 && ScanEnd(d, 6, true) == 7 && ScanEnd(d, 5, true) == 7 &&
           ScanEnd(d, 4, true) == 7;
    assert ScanEnd(d, 3, true) == 7 && NextOffset(d, 2) == 8;
    assert ScanEnd(d, 8, true) == 8 && ScanEnd(d, 7, true) == 8 && ScanEnd(d, 6, false) == 8 && NextOffset(d, 5) == 8;
    assert ChunkStart(d, 2, 2, 1) == 5 && Align(d, 5) == 5;
    assert ChildStarts(d, 2, 2, 0) == [2] && ChildStarts(d, 2, 2, 1) == [5];
    assert StartsOfChildren(d, 2, 2, 1) == [5] + StartsOfChildren(d, 2, 2, 2);
  }

  // ---- Children of a .tsv adapter ----

  /** No comma and no tab stands outside quotes before the row ends. */
  predicate OneCell(data: string, i: nat, inQuotes: bool)
    requires i <= |data|
    decreases |data| - i
  {
    if i == |data| then true
    else if data[i] == '"' then OneCell(data, i + 1, !inQuotes)
    else if data[i] == '\n' && !inQuotes then true
    else !(data[i] in {',', '\t'} && !inQuotes) && OneCell(data, i + 1, inQuotes)
  }

  /** The two delimiters cut the row into the same single cell, or one of them stands where the cell
      that the other one cuts goes on. */
  lemma {:induction false} FirstCellsDiffer(data: string, i: nat, inQuotes: bool)
    requires i <= |data|
    ensures var c, t := CellEnd(data, i, inQuotes, ','), CellEnd(data, i, inQuotes, '\t');
            if OneCell(data, i, inQuotes) then c == t == ScanEnd(data, i, inQuotes)
            else c != t && Least(c, t) < |data| && data[Least(c, t)] == (if c < t then ',' else '\t')
    decreases |data| - i
  {
    if i < |data| && !(data[i] in {',', '\t', '\n'} && !inQuotes) {
      FirstCellsDiffer(data, i + 1, if data[i] == '"' then !inQuotes else inQuotes);
    }
  }

  /** No row from o on has a comma or a tab outside quotes. */
  predicate NoSeparators(data: string, o: nat)
    requires o <= |data|
    decreases |data| - o
  {
    o == |data| || (OneCell(data, o, false) && NoSeparators(data, NextOffset(data, o)))
  }

  /** There are columns, and no other column has the name of the first. */
  predicate FirstNameOnce(headers: seq<string>) {
    headers != [] && forall k :: 0 < k < |headers| ==> headers[k] != headers[0]
  }

  /** The first column is never overwritten when no other column has its name. */
  lemma {:induction false} FirstColumnStays(headers: seq<string>, cells: seq<string>, col: nat, row: Row)
    requires FirstNameOnce(headers) && row != [] && row[0].0 == headers[0] && col > 0
    ensures var r := Fill(headers, cells, col, row); r != [] && r[0] == row[0]
    decreases cells
  {
    if cells != [] { FirstColumnStays(headers, cells[1..], col + 1, PutCell(headers, cells[0], col, row)); }
  }

  /** The first column of a row that has a separator is its first cell. */
  lemma {:induction false} FirstColumn(data: string, o: nat, delim: char, headers: seq<string>)
    requires o < |data| && delim in {',', '\t'} && FirstNameOnce(headers)
    requires var e := CellEnd(data, o, false, delim); o < e || (e < |data| && data[e] == delim)
    ensures var row := RowAt(data, o, delim, headers);
            row != [] && row[0] == (headers[0], Clean(data[o..CellEnd(data, o, false, delim)]))
  {
    RowCellsAt(data, o, delim);
    var cells := RowCells(data, o, delim);
    assert cells != [] && cells[0] == data[o..CellEnd(data, o, false, delim)];
    FirstColumnStays(headers, cells[1..], 1, PutCell(headers, cells[0], 0, []));
  }

  /** A row is the same under both delimiters if and only if neither of them stands in it outside
      quotes. */
  lemma {:induction false} SameRowIff(data: string, o: nat, headers: seq<string>)
    requires o < |data| && FirstNameOnce(headers)
    ensures RowAt(data, o, ',', headers) == RowAt(data, o, '\t', headers) <==> OneCell(data, o, false)
  {
    var c, t := CellEnd(data, o, false, ','), CellEnd(data, o, false, '\t');
    FirstCellsDiffer(data, o, false);
    if OneCell(data, o, false) {
      RowCellsAt(data, o, ',');
      RowCellsAt(data, o, '\t');
    } else {
      FirstColumn(data, o, ',', headers);
      FirstColumn(data, o, '\t', headers);
      LongerCellDiffers(data, o, Least(c, t), if c < t then t else c);
      CleanKeeps(data[o..Least(c, t)], data[Least(c, t)]);
    }
  }

  lemma {:induction false} SameRowsIff(data: string, o: nat, headers: seq<string>)
    requires o <= |data| && FirstNameOnce(headers)
    ensures RowsFrom(data, o, |data|, ',', headers) == RowsFrom(data, o, |data|, '\t', headers)
            <==> NoSeparators(data, o)
    decreases |data| - o
  {
    if o < |data| {
      RowsFromStep(data, o, |data|, ',', headers);
      RowsFromStep(data, o, |data|, '\t', headers);
      SameRowIff(data, o, headers);
      SameRowsIff(data, NextOffset(data, o), headers);
      ConsEqual(RowAt(data, o, ',', headers), RowsFrom(data, NextOffset(data, o), |data|, ',', headers),
                RowAt(data, o, '\t', headers), RowsFrom(data, NextOffset(data, o), |data|, '\t', headers));
    }
  }

  /** The children of a .tsv adapter look for commas. Their rows are nevertheless the rows of this
      file if and only if no row of it has a comma or a tab outside quotes. */
  lemma {:induction false} TabFileSplitIff(data: string, base: nat, n: nat, headers: seq<string>)
    requires AfterHeader(data, base) && n > 0
    requires NewlinesUnquoted(data, base) || forall i :: 0 <= i < n ==> Aligned(data, base, n, i)
    requires FirstNameOnce(headers)
    ensures RowsOfChildren(data, base, n, headers, 0) == RowsFrom(data, base, |data|, '\t', headers)
            <==> NoSeparators(data, base)
  {
    SplitKeepsRows(data, base, n, headers);
    SameRowsIff(data, base, headers);
  }

  /** Splitting gives the rows of every file without newlines inside quotes. */
  ghost predicate SplitFaithful(delim: char) {
    forall data, base, n, headers :: AfterHeader(data, base) && NewlinesUnquoted(data, base) && n > 1 ==>
      RowsOfChildren(data, base, n, headers, 0) == RowsFrom(data, base, |data|, delim, headers)
  }

  const TAB_FILE := "a\tb\n1\t2\n"

  /** Of the two delimiters the runtime uses, splitting is faithful for the comma only: the
      children of a .tsv adapter look for commas. */
  lemma {:induction false} SplitFaithfulIff(delim: char)
    requires delim in {',', '\t'}
    ensures SplitFaithful(delim) <==> delim == ','
  {
    if delim == ',' {
      forall data, base, n, headers | AfterHeader(data, base) && NewlinesUnquoted(data, base) && n > 1
        ensures RowsOfChildren(data, base, n, headers, 0) == RowsFrom(data, base, |data|, delim, headers)
      {
        SplitKeepsRows(data, base, n, headers);
      }
    } else {
      TabFileSplit();
    }
  }

  lemma {:induction false} TabFileSplit()
    ensures AfterHeader(TAB_FILE, 4) && NewlinesUnquoted(TAB_FILE, 4)
    ensures RowsOfChildren(TAB_FILE, 4, 2, ["a", "b"], 0) != RowsFrom(TAB_FILE, 4, |TAB_FILE|, '\t', ["a", "b"])
  {
    TabFileUnquoted(TAB_FILE);
    TabFileSplitIff(TAB_FILE, 4, 2, ["a", "b"]);
    assert TAB_FILE[5] == '\t' && !OneCell(TAB_FILE, 5, false);
  }

  lemma {:induction false} TabFileUnquoted(d: string)
    requires d == TAB_FILE
    ensures NewlinesUnquoted(d, 4)
  {
    assert |d| == 8 && d[4..7] == "1\t2";
    NoOccurrence("1\t2", '"');
    forall a: nat | LineStart(d, 4, a)
      ensures var e := FirstNewline(d, a); e < |d| ==> Occurrences(d[a..e], '"') % 2 == 0
    {
      assert a == 4 || a == 8;
      assert FirstNewline(d, 7) == 7 && FirstNewline(d, 6) == 7 && FirstNewline(d, 5) == 7 && FirstNewline(d, 4) == 7;
    }
  }
}
