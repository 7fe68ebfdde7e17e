/** Reading back what was written as JSON. */
module JsonRoundTrip {
  import opened Wrappers
  import opened Rows
  import opened Sequences
  import opened Text
  import opened Formatter
  import opened Json
  import CsvRoundTrip

  // ---- Strings ----

  /** A backslash before every quote and every backslash. */
  function Escape(s: string): string {
    if s == "" then "" else EscapeChar(s[0]) + Escape(s[1..])
  }

  function EscapeChar(c: char): string {
    if c == '"' || c == '\\' then ['\\', c] else [c]
  }

  lemma {:induction false} EscapedIsScanned(data: string, pos: nat, close: nat, s: string, text: string)
    requires close == pos + |Escape(s)| < |data| && Here(data, pos, Escape(s)) && data[close] == '"'
    ensures FindClose(data, pos) == close && Unescape(data, pos, close, text) == text + s
    decreases |s|
  {
    if s != "" {
      var head := EscapeChar(s[0]);
      HereParts(data, pos, head, Escape(s[1..]));
      HereAt(data, pos, head, 0);
      if |head| == 2 { HereAt(data, pos, head, 1); }
      EscapedIsScanned(data, pos + |head|, close, s[1..], text + [s[0]]);
      assert text + [s[0]] + s[1..] == text + s;
    }
  }

  lemma {:induction false} QuotedParts(data: string, q: nat, s: string)
    requires Here(data, q, Quoted(s))
    ensures var close := q + 1 + |s|; close < |data| && data[q] == '"' && Here(data, q + 1, s) && data[close] == '"'
  {
    HereParts(data, q, "\"", s + "\"");
    HereParts(data, q + 1, s, "\"");
  }

  /** ParseString undoes escaping, for every string, wherever it stands. */
  lemma {:induction false} ParseUndoesEscape(data: string, q: nat, s: string)
    requires Here(data, q, Quoted(Escape(s)))
    ensures StringAt(data, q) == Ok(Parsed(s, q + |Escape(s)| + 2))
  {
    QuotedParts(data, q, Escape(s));
    EscapedIsScanned(data, q + 1, q + 1 + |Escape(s)|, s, "");
    assert "" + s == s;
  }

  /** No quotes and no backslashes. */
  predicate Unquoted(s: string) {
    UnquotedFrom(s, 0)
  }

  predicate UnquotedFrom(s: string, k: nat)
    decreases |s| - k
  {
    k >= |s| || (s[k] != '"' && s[k] != '\\' && UnquotedFrom(s, k + 1))
  }

  lemma {:induction false} UnquotedIff(s: string, i: nat)
    ensures UnquotedFrom(s, i) <==> forall k :: i <= k < |s| ==> s[k] != '"' && s[k] != '\\'
    decreases |s| - i
  {
    if i < |s| { UnquotedIff(s, i + 1); }
  }

  lemma {:induction false} NothingToEscape(s: string)
    requires forall k :: 0 <= k < |s| ==> s[k] != '"' && s[k] != '\\'
    ensures Escape(s) == s
  {
    if s != "" { NothingToEscape(s[1..]); }
  }

  lemma {:induction false} UnescapeLength(data: string, pos: nat, close: nat, text: string)
    requires pos <= close <= |data|
    ensures |Unescape(data, pos, close, text)| <= |text| + close - pos
    ensures !Plain(data, pos, close) ==> |Unescape(data, pos, close, text)| < |text| + close - pos
    decreases close - pos
  {
    if pos < close {
      if data[pos] != '\\' {
        UnescapeLength(data, pos + 1, close, text + [data[pos]]);
      } else if pos + 1 < close {
        UnescapeLength(data, pos + 2, close, text + [data[pos + 1]]);
      }
    }
  }

  lemma {:induction false} CloseIsFirstQuote(data: string, pos: nat, close: nat, k: nat)
    requires pos <= k < close <= |data| && Plain(data, pos, close) && FindClose(data, pos) == close
    ensures data[k] != '"'
    decreases k - pos
  {
    if pos < k { CloseIsFirstQuote(data, pos + 1, close, k); }
  }

  /** The writer does not escape: a written string is read back, and to its end, if and only if it
      has no quote and no backslash. */
  lemma {:induction false} WrittenComesBackIff(data: string, q: nat, s: string)
    requires Here(data, q, Quoted(s))
    ensures StringAt(data, q) == Ok(Parsed(s, q + |s| + 2)) <==> Unquoted(s)
  {
    var close := q + 1 + |s|;
    QuotedParts(data, q, s);
    UnquotedIff(s, 0);
    if Unquoted(s) {
      NothingToEscape(s);
      ParseUndoesEscape(data, q, s);
    } else if StringAt(data, q) == Ok(Parsed(s, close + 1)) {
      UnescapeLength(data, q + 1, close, "");
      forall k | 0 <= k < |s| ensures s[k] != '"' && s[k] != '\\' {
        HereAt(data, q + 1, s, k);
        CloseIsFirstQuote(data, q + 1, close, q + 1 + k);
      }
      assert false;
    }
  }

  // ---- Members ----

  lemma {:induction false} SpacesAreSkipped(data: string, o: nat, e: nat)
    requires o <= e < |data| && !IsSpace(data[e]) && forall k :: o <= k < e ==> IsSpace(data[k])
    ensures SkipSpace(data, o) == e
    decreases e - o
  {
    if o < e { SpacesAreSkipped(data, o + 1, e); }
  }

  lemma {:induction false} QuotedIsRead(data: string, q: nat, s: string)
    requires Here(data, q, Quoted(s)) && Unquoted(s)
    ensures q + |s| + 2 <= |data| && data[q] == '"' && StringAt(data, q) == Ok(Parsed(s, q + |s| + 2))
  {
    QuotedParts(data, q, s);
    WrittenComesBackIff(data, q, s);
  }

  /** A written member, in the pieces the reader takes. */
  ghost predicate MemberHere(data: string, o: nat, field: string, val: string, last: bool) {
    var colon := o + |field| + 6;
    && Here(data, o, "    ") && Here(data, o + 4, Quoted(field)) && Here(data, colon, ": ")
    && Here(data, colon + 2, Quoted(val)) && Here(data, colon + |val| + 4, MemberEnd(last))
  }

  lemma {:induction false} MemberParts(data: string, o: nat, fields: seq<string>, values: seq<string>, i: nat)
    requires i < |fields| == |values| && Here(data, o, MembersText(fields, values, i))
    ensures var last := i + 1 == |fields|; var next := o + |fields[i]| + |values[i]| + if last then 11 else 13;
            && MemberHere(data, o, fields[i], values[i], last)
            && Here(data, next, MembersText(fields, values, i + 1))
            && o + |MembersText(fields, values, i)| == next + |MembersText(fields, values, i + 1)|
  {
    var f, v, text := Quoted(fields[i]), Quoted(values[i]), MemberEnd(i + 1 == |fields|);
    var q := o + 4;
    var colon := q + |f|;
    HereParts(data, o, MemberText(fields, values, i), MembersText(fields, values, i + 1));
    HereParts(data, o, "    ", f + (": " + (v + text)));
    HereParts(data, q, f, ": " + (v + text));
    HereParts(data, colon, ": ", v + text);
    HereParts(data, colon + 2, v, text);
  }

  lemma {:induction false} IndentIsSkipped(data: string, o: nat, field: string, val: string, last: bool)
    requires MemberHere(data, o, field, val, last)
    ensures SkipSpace(data, o) == o + 4 < |data| && data[o + 4] == '"'
  {
    QuotedParts(data, o + 4, field);
    forall k | o <= k < o + 4 ensures k < |data| && IsSpace(data[k]) { HereAt(data, o, "    ", k - o); }
    SpacesAreSkipped(data, o, o + 4);
  }

  lemma {:induction false} NameIsRead(data: string, o: nat, field: string, val: string, last: bool)
    requires MemberHere(data, o, field, val, last) && Unquoted(field)
    ensures var colon := o + |field| + 6;
            StringAt(data, o + 4) == Ok(Parsed(field, colon)) && CharAt(data, colon, ':') == Ok(colon + 1)
  {
    QuotedIsRead(data, o + 4, field);
    HereAt(data, o + |field| + 6, ": ", 0);
  }

  lemma {:induction false} ValueIsRead(data: string, o: nat, field: string, val: string, last: bool)
    requires MemberHere(data, o, field, val, last) && Unquoted(val)
    ensures var colon := o + |field| + 6; ValueAt(data, colon + 1) == Ok(Parsed(val, colon + |val| + 4))
  {
    var colon := o + |field| + 6;
    QuotedIsRead(data, colon + 2, val);
    HereAt(data, colon, ": ", 1);
    SpacesAreSkipped(data, colon + 1, colon + 2);
    StringAfterSpace(data, colon + 1, colon + 2);
  }

  lemma StringAfterSpace(data: string, o: nat, q: nat)
    requires SkipSpace(data, o) == q < |data| && data[q] == '"'
    ensures ValueAt(data, o) == StringAt(data, q)
  {}

  /** A member that is not the last ends with a comma. */
  lemma {:induction false} CommaIsRead(data: string, o: nat, field: string, val: string)
    requires MemberHere(data, o, field, val, false)
    ensures var end := o + |field| + |val| + 10;
            end + 3 <= |data| && SkipSpace(data, end) == end && data[end] == ',' &&
            SkipSpace(data, end + 1) == SkipSpace(data, end + 3)
  {
    var end := o + |field| + |val| + 10;
    HereAt(data, end, ", \n", 0);
    HereAt(data, end, ", \n", 1);
    HereAt(data, end, ", \n", 2);
  }

  /** After the last comes the closing brace. */
  lemma {:induction false} NoCommaIsRead(data: string, o: nat, field: string, val: string)
    requires MemberHere(data, o, field, val, true) && Here(data, o + |field| + |val| + 11, "  }")
    ensures var end := o + |field| + |val| + 10;
            end + 3 < |data| && SkipSpace(data, end) == end + 3 && data[end + 3] == '}'
  {
    var end := o + |field| + |val| + 10;
    HereAt(data, end, "\n", 0);
    BraceIsThere(data, end + 1);
    SpacesAreSkipped(data, end, end + 3);
  }

  lemma {:induction false} BraceIsThere(data: string, o: nat)
    requires Here(data, o, "  }")
    ensures o + 2 < |data| && data[o] == ' ' && data[o + 1] == ' ' && data[o + 2] == '}'
  {
    HereAt(data, o, "  }", 0);
    HereAt(data, o, "  }", 1);
    HereAt(data, o, "  }", 2);
  }

  lemma {:induction false} BraceIsRead(data: string, o: nat, row: Row)
    requires Here(data, o, "  }")
    ensures MembersAt(data, o, row) == MembersAt(data, o + 2, row) == Ok(Parsed(row, o + 3))
  {
    BraceIsThere(data, o);
    SpacesAreSkipped(data, o, o + 2);
  }

  /** MemberAt, from what it reads one after the other. */
  lemma MemberFromParts(data: string, q: nat, field: string, colon: nat, val: string, end: nat, next: nat, row: Row)
    requires StringAt(data, q) == Ok(Parsed(field, colon)) && CharAt(data, colon, ':') == Ok(colon + 1)
    requires ValueAt(data, colon + 1) == Ok(Parsed(val, end)) && SkipSpace(data, end) == next < |data|
    requires data[next] == ',' || data[next] == '}'
    ensures MemberAt(data, q, row) ==
            MembersAt(data, if data[next] == ',' then next + 1 else next, Put(row, field, val))
  {}

  lemma SameSkip(data: string, a: nat, b: nat, row: Row)
    requires SkipSpace(data, a) == SkipSpace(data, b)
    ensures MembersAt(data, a, row) == MembersAt(data, b, row)
  {}

  lemma NextMember(data: string, o: nat, q: nat, row: Row)
    requires SkipSpace(data, o) == q < |data| && data[q] == '"'
    ensures MembersAt(data, o, row) == MemberAt(data, q, row)
  {}

  lemma {:induction false} NameAndValueAreRead(data: string, o: nat, field: string, val: string, last: bool, next: nat,
                                               row: Row)
    requires MemberHere(data, o, field, val, last) && Unquoted(field) && Unquoted(val)
    requires SkipSpace(data, o + |field| + |val| + 10) == next < |data| && (data[next] == ',' || data[next] == '}')
    ensures MembersAt(data, o, row) ==
            MembersAt(data, if data[next] == ',' then next + 1 else next, Put(row, field, val))
  {
    var colon := o + |field| + 6;
    IndentIsSkipped(data, o, field, val, last);
    NextMember(data, o, o + 4, row);
    NameIsRead(data, o, field, val, last);
    ValueIsRead(data, o, field, val, last);
    MemberFromParts(data, o + 4, field, colon, val, colon + |val| + 4, next, row);
  }

  lemma {:induction false} MemberIsStored(data: string, o: nat, field: string, val: string, row: Row)
    requires MemberHere(data, o, field, val, false) && Unquoted(field) && Unquoted(val)
    ensures MembersAt(data, o, row) == MembersAt(data, o + |field| + |val| + 13, Put(row, field, val))
  {
    var end := o + |field| + |val| + 10;
    CommaIsRead(data, o, field, val);
    NameAndValueAreRead(data, o, field, val, false, end, row);
    SameSkip(data, end + 1, end + 3, Put(row, field, val));
  }

  lemma {:induction false} LastIsStored(data: string, o: nat, field: string, val: string, row: Row)
    requires MemberHere(data, o, field, val, true) && Here(data, o + |field| + |val| + 11, "  }") && Unquoted(field)
    requires Unquoted(val)
    ensures MembersAt(data, o, row) == Ok(Parsed(Put(row, field, val), o + |field| + |val| + 14))
  {
    var end := o + |field| + |val| + 10;
    NoCommaIsRead(data, o, field, val);
    NameAndValueAreRead(data, o, field, val, true, end + 3, row);
    BraceIsRead(data, end + 1, Put(row, field, val));
  }

  ghost predicate AllUnquoted(cells: seq<string>) {
    forall k :: 0 <= k < |cells| ==> Unquoted(cells[k])
  }

  lemma {:induction false} PairsGrow(fields: seq<string>, values: seq<string>, i: nat)
    requires i < |fields| == |values| && CsvRoundTrip.AllDistinct(fields)
    ensures Put(CsvRoundTrip.Pairs(fields, values, i), fields[i], values[i]) ==
            CsvRoundTrip.Pairs(fields, values, i + 1)
  {
    CsvRoundTrip.PairsAt(fields, values, i);
    PutNew(CsvRoundTrip.Pairs(fields, values, i), fields[i], values[i]);
  }

  /** Where the k-th member begins. */
  function MemberStart(o: nat, fields: seq<string>, values: seq<string>, k: nat): nat
    requires k <= |fields| == |values|
  {
    if k == 0 then o
    else MemberStart(o, fields, values, k - 1) + |fields[k - 1]| + |values[k - 1]| + if k == |fields| then 11 else 13
  }

  ghost predicate MemberHereAt(data: string, o: nat, fields: seq<string>, values: seq<string>, k: nat)
    requires k < |fields| == |values|
  {
    MemberHere(data, MemberStart(o, fields, values, k), fields[k], values[k], k + 1 == |fields|)
  }

  /** The members, one after the other, and the closing brace. */
  ghost predicate MembersHere(data: string, o: nat, fields: seq<string>, values: seq<string>)
    requires |fields| == |values|
  {
    && Here(data, MemberStart(o, fields, values, |fields|), "  }")
    && forall k {:trigger MemberHereAt(data, o, fields, values, k)} :: 0 <= k < |fields| ==>
         MemberHereAt(data, o, fields, values, k)
  }

  lemma {:induction false} MembersTextStep(data: string, o: nat, fields: seq<string>, values: seq<string>, k: nat)
    requires k < |fields| == |values| && Here(data, o, MembersText(fields, values, k) + "  }")
    ensures var next := o + |fields[k]| + |values[k]| + if k + 1 == |fields| then 11 else 13;
            && Here(data, next, MembersText(fields, values, k + 1) + "  }")
            && o + |MembersText(fields, values, k)| == next + |MembersText(fields, values, k + 1)|
  {
    var text, rest := MemberText(fields, values, k), MembersText(fields, values, k + 1);
    assert |text| == |fields[k]| + |values[k]| + if k + 1 == |fields| then 11 else 13;
    HereNext(data, o, text, rest, "  }");
  }

  lemma {:induction false} MembersTextAt(data: string, o: nat, fields: seq<string>, values: seq<string>, k: nat)
    requires k <= |fields| == |values| && Here(data, o, MembersText(fields, values, 0) + "  }")
    ensures Here(data, MemberStart(o, fields, values, k), MembersText(fields, values, k) + "  }")
    ensures MemberStart(o, fields, values, k) + |MembersText(fields, values, k)| == o + |MembersText(fields, values, 0)|
    decreases k
  {
    if k > 0 {
      MembersTextAt(data, o, fields, values, k - 1);
      MembersTextStep(data, MemberStart(o, fields, values, k - 1), fields, values, k - 1);
    }
  }

  lemma {:induction false} MemberIsHere(data: string, o: nat, fields: seq<string>, values: seq<string>, k: nat)
    requires k < |fields| == |values| && Here(data, o, MembersText(fields, values, 0) + "  }")
    ensures MemberHereAt(data, o, fields, values, k)
  {
    MembersTextAt(data, o, fields, values, k);
    HereParts(data, MemberStart(o, fields, values, k), MembersText(fields, values, k), "  }");
    MemberParts(data, MemberStart(o, fields, values, k), fields, values, k);
  }

  lemma {:induction false} TextIsMembers(data: string, o: nat, fields: seq<string>, values: seq<string>)
    requires |fields| == |values| && Here(data, o, MembersText(fields, values, 0) + "  }")
    ensures MembersHere(data, o, fields, values)
    ensures MemberStart(o, fields, values, |fields|) == o + |MembersText(fields, values, 0)|
  {
    forall k | 0 <= k < |fields|
      ensures MemberHereAt(data, o, fields, values, k)
    {
      MemberIsHere(data, o, fields, values, k);
    }
    MembersTextAt(data, o, fields, values, |fields|);
    assert "" + "  }" == "  }";
  }

  ghost predicate Members(fields: seq<string>, values: seq<string>) {
    |fields| == |values| && CsvRoundTrip.AllDistinct(fields) && AllUnquoted(fields) && AllUnquoted(values)
  }

  lemma {:induction false} MiddleStep(data: string, o: nat, fields: seq<string>, values: seq<string>, i: nat)
    requires Members(fields, values) && i + 1 < |fields| && MembersHere(data, o, fields, values)
    ensures MembersAt(data, MemberStart(o, fields, values, i), CsvRoundTrip.Pairs(fields, values, i)) ==
            MembersAt(data, MemberStart(o, fields, values, i + 1), CsvRoundTrip.Pairs(fields, values, i + 1))
  {
    assert MemberHereAt(data, o, fields, values, i);
    PairsGrow(fields, values, i);
    MemberIsStored(data, MemberStart(o, fields, values, i), fields[i], values[i],
                   CsvRoundTrip.Pairs(fields, values, i));
  }

  lemma {:induction false} LastStep(data: string, o: nat, fields: seq<string>, values: seq<string>, i: nat)
    requires Members(fields, values) && i + 1 == |fields| && MembersHere(data, o, fields, values)
    ensures MembersAt(data, MemberStart(o, fields, values, i), CsvRoundTrip.Pairs(fields, values, i)) ==
            Ok(Parsed(CsvRoundTrip.Pairs(fields, values, i + 1), MemberStart(o, fields, values, i + 1) + 3))
  {
    assert MemberHereAt(data, o, fields, values, i);
    PairsGrow(fields, values, i);
    LastIsStored(data, MemberStart(o, fields, values, i), fields[i], values[i], CsvRoundTrip.Pairs(fields, values, i));
  }

  lemma {:induction false} NoMembers(data: string, o: nat, fields: seq<string>, values: seq<string>)
    requires fields == [] && values == [] && MembersHere(data, o, fields, values)
    ensures MembersAt(data, o, []) == Ok(Parsed([], o + 3))
  {
    BraceIsRead(data, o, []);
  }

  /** The members from the i-th on. */
  lemma {:induction false} MembersAreRead(data: string, o: nat, fields: seq<string>, values: seq<string>, i: nat)
    requires Members(fields, values) && i < |fields| && MembersHere(data, o, fields, values)
    ensures MembersAt(data, MemberStart(o, fields, values, i), CsvRoundTrip.Pairs(fields, values, i)) ==
            Ok(Parsed(CsvRoundTrip.Pairs(fields, values, |fields|), MemberStart(o, fields, values, |fields|) + 3))
    decreases |fields| - i
  {
    if i + 1 == |fields| {
      LastStep(data, o, fields, values, i);
    } else {
      MiddleStep(data, o, fields, values, i);
      MembersAreRead(data, o, fields, values, i + 1);
    }
  }

  // ---- Objects and files ----

  lemma {:induction false} ObjectOpens(data: string, o: nat)
    requires Here(data, o, "  {\n")
    ensures SkipSpace(data, o) == o + 2 < |data| && data[o + 2] == '{'
    ensures ObjectAt(data, o + 2) == MembersAt(data, o + 4, [])
  {
    HereAt(data, o, "  {\n", 0);
    HereAt(data, o, "  {\n", 1);
    HereAt(data, o, "  {\n", 2);
    HereAt(data, o, "  {\n", 3);
    SpacesAreSkipped(data, o, o + 2);
    SameSkip(data, o + 3, o + 4, []);
  }

  lemma {:induction false} ObjectParts(data: string, o: nat, end: nat, row: Row, fields: seq<string>,
                                       values: seq<string>)
    requires values == ValuesOf(row, fields) && Here(data, o, ObjectText(row, fields))
    requires end == o + |ObjectText(row, fields)|
    ensures Here(data, o, "  {\n") && MembersHere(data, o + 4, fields, values)
    ensures MemberStart(o + 4, fields, values, |fields|) + 3 == end
  {
    HereParts(data, o, "  {\n", MembersText(fields, values, 0) + "  }");
    TextIsMembers(data, o + 4, fields, values);
  }

  /** A written object with its indentation is read from its brace on. */
  lemma {:induction false} ObjectIsRead(data: string, o: nat, end: nat, fields: seq<string>, values: seq<string>)
    requires Members(fields, values) && Here(data, o, "  {\n") && MembersHere(data, o + 4, fields, values)
    requires MemberStart(o + 4, fields, values, |fields|) + 3 == end
    ensures SkipSpace(data, o) == o + 2 < |data| && data[o + 2] == '{'
    ensures ObjectAt(data, o + 2) == Ok(Parsed(CsvRoundTrip.Pairs(fields, values, |fields|), end))
  {
    AllMembersAreRead(data, o + 4, fields, values);
    ObjectOpens(data, o);
  }

  lemma {:induction false} AllMembersAreRead(data: string, o: nat, fields: seq<string>, values: seq<string>)
    requires Members(fields, values) && MembersHere(data, o, fields, values)
    ensures MembersAt(data, o, []) ==
            Ok(Parsed(CsvRoundTrip.Pairs(fields, values, |fields|), MemberStart(o, fields, values, |fields|) + 3))
  {
    if fields == [] { NoMembers(data, o, fields, values); } else { MembersAreRead(data, o, fields, values, 0); }
  }

  lemma {:induction false} CommaBeforeObject(data: string, o: nat)
    requires Here(data, o, ",\n") && SkipSpace(data, o + 2) == o + 4
    ensures NextStart(data, o) == o + 4
  {
    HereAt(data, o, ",\n", 0);
    HereAt(data, o, ",\n", 1);
  }

  lemma RowIsAdded(data: string, o: nat, p: nat, done: seq<Row>, row: Parsed<Row>)
    requires NextStart(data, o) == p < |data| && data[p] == '{' && ObjectAt(data, p) == Ok(row)
    ensures RowsAt(data, o, done) == RowsAt(data, row.end, done + [row.value])
  {}

  lemma {:induction false} RowParts(data: string, o: nat, row: Row, fields: seq<string>, first: bool)
    requires Here(data, o, RowText(row, fields, JSON, first))
    ensures Here(data, o + if first then 0 else 2, ObjectText(row, fields)) && (!first ==> Here(data, o, ",\n"))
    ensures |RowText(row, fields, JSON, first)| == |ObjectText(row, fields)| + if first then 0 else 2
  {
    HereParts(data, o, if first then "" else ",\n", ObjectText(row, fields));
  }

  lemma {:induction false} RowIsRead(data: string, o: nat, next: nat, row: Row, fields: seq<string>, first: bool,
                                     done: seq<Row>)
    requires Members(fields, ValuesOf(row, fields)) && Here(data, o, RowText(row, fields, JSON, first))
    requires next == o + |RowText(row, fields, JSON, first)|
    ensures RowsAt(data, o, done) == RowsAt(data, next, done + [CsvRoundTrip.Printed(row, fields)])
  {
    var start := o + if first then 0 else 2;
    RowParts(data, o, row, fields, first);
    ObjectParts(data, start, next, row, fields, ValuesOf(row, fields));
    ObjectIsRead(data, start, next, fields, ValuesOf(row, fields));
    if !first { CommaBeforeObject(data, o); }
    RowIsAdded(data, o, start + 2, done, Parsed(CsvRoundTrip.Printed(row, fields), next));
  }

  /** Where the k-th row begins. */
  function RowStart(o: nat, rows: seq<Row>, fields: seq<string>, k: nat): nat
    requires k <= |rows|
  {
    if k == 0 then o else RowStart(o, rows, fields, k - 1) + |RowText(rows[k - 1], fields, JSON, k == 1)|
  }

  lemma {:induction false} RowsTextStep(data: string, o: nat, rows: seq<Row>, fields: seq<string>, tail: string, k: nat)
    requires k < |rows| && Here(data, RowStart(o, rows, fields, k), RowsText(rows, fields, JSON, k) + tail)
    ensures Here(data, RowStart(o, rows, fields, k), RowText(rows[k], fields, JSON, k == 0))
    ensures Here(data, RowStart(o, rows, fields, k + 1), RowsText(rows, fields, JSON, k + 1) + tail)
  {
    var text, start := RowText(rows[k], fields, JSON, k == 0), RowStart(o, rows, fields, k);
    HereNext(data, start, text, RowsText(rows, fields, JSON, k + 1), tail);
    assert RowStart(o, rows, fields, k + 1) == start + |text|;
  }

  lemma {:induction false} RowsTextAt(data: string, o: nat, rows: seq<Row>, fields: seq<string>, tail: string, k: nat)
    requires k <= |rows| && Here(data, o, RowsText(rows, fields, JSON, 0) + tail)
    ensures Here(data, RowStart(o, rows, fields, k), RowsText(rows, fields, JSON, k) + tail)
    decreases k
  {
    if k > 0 {
      RowsTextAt(data, o, rows, fields, tail, k - 1);
      RowsTextStep(data, o, rows, fields, tail, k - 1);
    }
  }

  lemma {:induction false} RowTextAt(data: string, o: nat, rows: seq<Row>, fields: seq<string>, tail: string, k: nat)
    requires k < |rows| && Here(data, o, RowsText(rows, fields, JSON, 0) + tail)
    ensures Here(data, RowStart(o, rows, fields, k), RowText(rows[k], fields, JSON, k == 0))
  {
    RowsTextAt(data, o, rows, fields, tail, k);
    RowsTextStep(data, o, rows, fields, tail, k);
  }

  ghost predicate RowsUnquoted(rows: seq<Row>, fields: seq<string>) {
    forall k :: 0 <= k < |rows| ==> AllUnquoted(ValuesOf(rows[k], fields))
  }

  lemma {:induction false} BracketEnds(data: string, o: nat, done: seq<Row>)
    requires Here(data, o, "\n]\n")
    ensures RowsAt(data, o, done) == Ok(done)
  {
    HereAt(data, o, "\n]\n", 0);
    HereAt(data, o, "\n]\n", 1);
    SpacesAreSkipped(data, o, o + 1);
  }

  lemma {:induction false} RowStep(data: string, o: nat, rows: seq<Row>, fields: seq<string>, i: nat, done: seq<Row>)
    requires i < |rows| && CsvRoundTrip.AllDistinct(fields) && AllUnquoted(fields) && RowsUnquoted(rows, fields)
    requires Here(data, o, RowsText(rows, fields, JSON, 0) + "\n]\n")
    ensures RowsAt(data, RowStart(o, rows, fields, i), done) ==
            RowsAt(data, RowStart(o, rows, fields, i + 1), done + [CsvRoundTrip.Printed(rows[i], fields)])
  {
    assert Here(data, RowStart(o, rows, fields, i), RowText(rows[i], fields, JSON, i == 0)) by {
      RowTextAt(data, o, rows, fields, "\n]\n", i);
    }
    RowIsRead(data, RowStart(o, rows, fields, i), RowStart(o, rows, fields, i + 1), rows[i], fields, i == 0, done);
  }

  lemma {:induction false} RowsEnd(data: string, o: nat, rows: seq<Row>, fields: seq<string>, done: seq<Row>)
    requires Here(data, o, RowsText(rows, fields, JSON, 0) + "\n]\n")
    ensures RowsAt(data, RowStart(o, rows, fields, |rows|), done) == Ok(done)
  {
    RowsTextAt(data, o, rows, fields, "\n]\n", |rows|);
    assert "" + "\n]\n" == "\n]\n";
    BracketEnds(data, RowStart(o, rows, fields, |rows|), done);
  }

  /** The rows from the i-th on, and the closing bracket. */
  lemma {:induction false} RowsAreRead(data: string, o: nat, rows: seq<Row>, i: nat, fields: seq<string>,
                                       done: seq<Row>)
    requires i <= |rows| && CsvRoundTrip.AllDistinct(fields) && AllUnquoted(fields) && RowsUnquoted(rows, fields)
    requires Here(data, o, RowsText(rows, fields, JSON, 0) + "\n]\n")
    ensures RowsAt(data, RowStart(o, rows, fields, i), done) == Ok(done + CsvRoundTrip.AllPrinted(rows, i, fields))
    decreases |rows| - i
  {
    if i == |rows| {
      RowsEnd(data, o, rows, fields, done);
      assert done + [] == done;
    } else {
      var row, rest := CsvRoundTrip.Printed(rows[i], fields), CsvRoundTrip.AllPrinted(rows, i + 1, fields);
      RowStep(data, o, rows, fields, i, done);
      RowsAreRead(data, o, rows, i + 1, fields, done + [row]);
      Associative(done, [row], rest);
    }
  }

  /** The array begins after the bracket and a newline. */
  lemma {:induction false} BracketIsRead(data: string)
    requires Here(data, 0, "[\n")
    ensures RowsOf(data) == RowsAt(data, 2, [])
  {
    HereAt(data, 0, "[\n", 0);
    HereAt(data, 0, "[\n", 1);
    assert SkipSpace(data, 1) == SkipSpace(data, 2);
    assert ArrayStart(data) == Ok(1);
  }

  /** Reading undoes writing, for JSON: for distinct names, and names and values without quotes and
      backslashes, the reader of the text returns the printed rows. */
  lemma {:induction false} JsonRoundTrip(fields: seq<string>, rows: seq<Row>)
    requires CsvRoundTrip.AllDistinct(fields) && AllUnquoted(fields) && RowsUnquoted(rows, fields)
    ensures RowsOf(FileText(fields, rows, JSON)) == Ok(CsvRoundTrip.AllPrinted(rows, 0, fields))
  {
    var body := RowsText(rows, fields, JSON, 0);
    FileIsRead("[\n" + (body + "\n]\n"), body, fields, rows);
  }

  lemma {:induction false} FileIsRead(data: string, body: string, fields: seq<string>, rows: seq<Row>)
    requires CsvRoundTrip.AllDistinct(fields) && AllUnquoted(fields) && RowsUnquoted(rows, fields)
    requires body == RowsText(rows, fields, JSON, 0) && data == "[\n" + (body + "\n]\n")
    ensures RowsOf(data) == Ok(CsvRoundTrip.AllPrinted(rows, 0, fields))
  {
    HereAll(data);
    HereParts(data, 0, "[\n", body + "\n]\n");
    BracketIsRead(data);
    RowsAreRead(data, 2, rows, 0, fields, []);
    assert [] + CsvRoundTrip.AllPrinted(rows, 0, fields) == CsvRoundTrip.AllPrinted(rows, 0, fields);
  }
}
