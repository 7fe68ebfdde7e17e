/** The files the JSON reader accepts, and what they say: an array of objects, laid out piece by
    piece, without the functions that read it. */
module JsonMeaning {
  import opened Wrappers
  import opened Rows
  import opened Text
  import opened Json

  // ---- Whitespace, strings and values ----

  /** Whitespace from a on, which ends at b. */
  ghost predicate Gap(data: string, a: nat, b: nat) {
    && a <= b <= |data| && (forall k :: a <= k < b ==> IsSpace(data[k])) && (b < |data| ==> !IsSpace(data[b]))
  }

  lemma {:induction false} GapIff(data: string, a: nat, b: nat)
    requires a <= |data|
    ensures Gap(data, a, b) <==> SkipSpace(data, a) == b
    decreases |data| - a
  {
    if a < |data| && IsSpace(data[a]) { GapIff(data, a + 1, b); }
  }

  /** What stands between two quotes spells s: a backslash stands for the character after it, any
      other character but a quote for itself. */
  ghost predicate Spells(data: string, a: nat, b: nat, s: string)
    requires b <= |data|
    decreases b - a
  {
    if a >= b then a == b && s == ""
    else if data[a] == '\\' then a + 1 < b && s != "" && s[0] == data[a + 1] && Spells(data, a + 2, b, s[1..])
    else data[a] != '"' && s != "" && s[0] == data[a] && Spells(data, a + 1, b, s[1..])
  }

  lemma {:induction false} SpelledIsRead(data: string, a: nat, b: nat, s: string, text: string)
    requires b < |data| && data[b] == '"' && Spells(data, a, b, s)
    ensures FindClose(data, a) == b && Unescape(data, a, b, text) == text + s
    decreases b - a
  {
    if a == b {
      assert text + s == text;
    } else {
      SpelledIsRead(data, if data[a] == '\\' then a + 2 else a + 1, b, s[1..], text + [s[0]]);
      assert text + [s[0]] + s[1..] == text + s;
    }
  }

  lemma {:induction false} ReadIsSpelled(data: string, a: nat, text: string) returns (s: string)
    requires FindClose(data, a) < |data|
    ensures Spells(data, a, FindClose(data, a), s) && Unescape(data, a, FindClose(data, a), text) == text + s
    decreases |data| - a
  {
    if data[a] == '"' {
      s := "";
    } else {
      var escaped := data[a] == '\\';
      var c, after := data[if escaped then a + 1 else a], if escaped then a + 2 else a + 1;
      var rest := ReadIsSpelled(data, after, text + [c]);
      s := [c] + rest;
      assert text + [c] + rest == text + s;
    }
  }

  /** A string in quotes from a to b. */
  ghost predicate StringIs(data: string, a: nat, b: nat, s: string) {
    a + 2 <= b <= |data| && data[a] == '"' && data[b - 1] == '"' && Spells(data, a + 1, b - 1, s)
  }

  lemma {:induction false} StringIff(data: string, pos: nat, b: nat, s: string)
    ensures StringAt(data, pos) == Ok(Parsed(s, b)) <==> StringIs(data, SkipSpace(data, pos), b, s)
  {
    var a := SkipSpace(data, pos);
    if StringIs(data, a, b, s) {
      SpelledIsRead(data, a + 1, b - 1, s, "");
      assert "" + s == s;
    }
    if StringAt(data, pos) == Ok(Parsed(s, b)) {
      var t := ReadIsSpelled(data, a + 1, "");
      assert "" + t == t;
    }
  }

  ghost predicate NumberChar(c: char) {
    '0' <= c <= '9' || c == '.' || c == '-'
  }

  /** A number from a to b, taken as it stands: the longest run of digits, points and minus signs
      from a digit or a minus sign on. */
  ghost predicate NumberIs(data: string, a: nat, b: nat, s: string) {
    && a < b <= |data| && ('0' <= data[a] <= '9' || data[a] == '-')
    && (forall k :: a <= k < b ==> NumberChar(data[k])) && (b < |data| ==> !NumberChar(data[b]))
    && s == data[a..b]
  }

  lemma {:induction false} NumberEndIff(data: string, a: nat, b: nat)
    requires a <= |data|
    ensures NumberEnd(data, a) == b <==>
            && a <= b <= |data| && (forall k :: a <= k < b ==> NumberChar(data[k]))
            && (b < |data| ==> !NumberChar(data[b]))
    decreases |data| - a
  {
    if a < |data| && IsNumberChar(data[a]) { NumberEndIff(data, a + 1, b); }
  }

  ghost predicate ValueIs(data: string, a: nat, b: nat, s: string) {
    StringIs(data, a, b, s) || NumberIs(data, a, b, s)
  }

  lemma {:induction false} ValueIff(data: string, pos: nat, b: nat, s: string)
    ensures ValueAt(data, pos) == Ok(Parsed(s, b)) <==> ValueIs(data, SkipSpace(data, pos), b, s)
  {
    var a := SkipSpace(data, pos);
    StringIff(data, a, b, s);
    if a < |data| {
      SkipTwice(data, pos);
      NumberEndIff(data, a, b);
    }
  }

  lemma {:induction false} SkipTwice(data: string, pos: nat)
    ensures SkipSpace(data, SkipSpace(data, pos)) == SkipSpace(data, pos)
    decreases |data| - pos
  {
    if pos < |data| && IsSpace(data[pos]) { SkipTwice(data, pos + 1); }
  }

  // ---- Members ----

  /** A member: where its parts stand, what they say, and where the gap after it ends. */
  datatype Member = Member(nameAt: nat, nameEnd: nat, name: string, colonAt: nat,
                           valueAt: nat, valueEnd: nat, value: string, next: nat)

  ghost predicate MemberIs(data: string, pos: nat, m: Member) {
    && Gap(data, pos, m.nameAt) && StringIs(data, m.nameAt, m.nameEnd, m.name)
    && Gap(data, m.nameEnd, m.colonAt) && m.colonAt < |data| && data[m.colonAt] == ':'
    && Gap(data, m.colonAt + 1, m.valueAt) && ValueIs(data, m.valueAt, m.valueEnd, m.value)
    && Gap(data, m.valueEnd, m.next) && m.next < |data|
  }

  /** Members from pos on, up to and with the brace before end. A comma follows every member but the
      last, and may follow the last. */
  ghost predicate MembersAre(data: string, pos: nat, ms: seq<Member>, end: nat)
    decreases |ms|
  {
    if ms == [] then 0 < end <= |data| && Gap(data, pos, end - 1) && data[end - 1] == '}'
    else
      && MemberIs(data, pos, ms[0])
      && if data[ms[0].next] == ',' then MembersAre(data, ms[0].next + 1, ms[1..], end)
         else data[ms[0].next] == '}' && |ms| == 1 && end == ms[0].next + 1
  }

  function PairsOf(ms: seq<Member>): Row {
    if ms == [] then [] else [(ms[0].name, ms[0].value)] + PairsOf(ms[1..])
  }

  lemma {:induction false} OverlayFirst(row: Row, ms: seq<Member>)
    requires ms != []
    ensures Overlay(row, PairsOf(ms)) == Overlay(Put(row, ms[0].name, ms[0].value), PairsOf(ms[1..]))
  {
    assert PairsOf(ms)[1..] == PairsOf(ms[1..]);
  }

  lemma {:induction false} PartsAreRead(data: string, pos: nat, m: Member)
    requires pos <= |data| && MemberIs(data, pos, m)
    ensures SkipSpace(data, pos) == m.nameAt < |data| && data[m.nameAt] == '"'
    ensures StringAt(data, m.nameAt) == Ok(Parsed(m.name, m.nameEnd))
    ensures CharAt(data, m.nameEnd, ':') == Ok(m.colonAt + 1)
    ensures ValueAt(data, m.colonAt + 1) == Ok(Parsed(m.value, m.valueEnd))
    ensures SkipSpace(data, m.valueEnd) == m.next < |data|
  {
    GapIff(data, pos, m.nameAt);
    SkipTwice(data, pos);
    StringIff(data, m.nameAt, m.nameEnd, m.name);
    GapIff(data, m.nameEnd, m.colonAt);
    GapIff(data, m.colonAt + 1, m.valueAt);
    ValueIff(data, m.colonAt + 1, m.valueEnd, m.value);
    GapIff(data, m.valueEnd, m.next);
  }

  /** One member that stands there is read as it stands. */
  lemma {:induction false} MemberIsRead(data: string, pos: nat, row: Row, m: Member)
    requires pos <= |data| && MemberIs(data, pos, m)
    ensures data[m.next] == ',' ==> MembersAt(data, pos, row) == MembersAt(data, m.next + 1, Put(row, m.name, m.value))
    ensures data[m.next] == '}' ==> MembersAt(data, pos, row) == Ok(Parsed(Put(row, m.name, m.value), m.next + 1))
  {
    PartsAreRead(data, pos, m);
    ReadFromParts(data, pos, row, m);
  }

  lemma {:induction false} ReadFromParts(data: string, pos: nat, row: Row, m: Member)
    requires SkipSpace(data, pos) == m.nameAt < |data| && data[m.nameAt] == '"'
    requires StringAt(data, m.nameAt) == Ok(Parsed(m.name, m.nameEnd))
    requires CharAt(data, m.nameEnd, ':') == Ok(m.colonAt + 1)
    requires ValueAt(data, m.colonAt + 1) == Ok(Parsed(m.value, m.valueEnd))
    requires SkipSpace(data, m.valueEnd) == m.next < |data|
    ensures data[m.next] == ',' ==> MembersAt(data, pos, row) == MembersAt(data, m.next + 1, Put(row, m.name, m.value))
    ensures data[m.next] == '}' ==> MembersAt(data, pos, row) == Ok(Parsed(Put(row, m.name, m.value), m.next + 1))
  {
    assert MembersAt(data, pos, row) == MemberAt(data, m.nameAt, row);
    BraceEnds(data, m.next, Put(row, m.name, m.value));
  }

  lemma {:induction false} BraceEnds(data: string, pos: nat, row: Row)
    requires pos < |data|
    ensures data[pos] == '}' ==> MembersAt(data, pos, row) == Ok(Parsed(row, pos + 1))
  {
    if data[pos] == '}' { assert SkipSpace(data, pos) == pos; }
  }

  lemma {:induction false} MembersAreRead(data: string, pos: nat, row: Row, ms: seq<Member>, end: nat)
    requires pos <= |data| && MembersAre(data, pos, ms, end)
    ensures MembersAt(data, pos, row) == Ok(Parsed(Overlay(row, PairsOf(ms)), end))
    decreases |ms|
  {
    if ms == [] {
      GapIff(data, pos, end - 1);
    } else {
      MemberIsRead(data, pos, row, ms[0]);
      OverlayFirst(row, ms);
      if data[ms[0].next] == ',' {
        MembersAreRead(data, ms[0].next + 1, Put(row, ms[0].name, ms[0].value), ms[1..], end);
      }
    }
  }

  /** Where a member is read one stands, with a comma or the closing brace after it. */
  lemma {:induction false} ReadIsMember(data: string, pos: nat, row: Row) returns (m: Member)
    requires pos <= |data| && MembersAt(data, pos, row).Ok?
    requires data[SkipSpace(data, pos)] != '}'
    ensures MemberIs(data, pos, m) && data[m.next] in {',', '}'}
  {
    var p := SkipSpace(data, pos);
    SkipTwice(data, pos);
    GapIff(data, pos, p);
    var name := StringAt(data, p).value;
    StringIff(data, p, name.end, name.value);
    var colon := SkipSpace(data, name.end);
    GapIff(data, name.end, colon);
    var val := ValueAt(data, colon + 1).value;
    ValueIff(data, colon + 1, val.end, val.value);
    var at, next := SkipSpace(data, colon + 1), SkipSpace(data, val.end);
    GapIff(data, colon + 1, at);
    GapIff(data, val.end, next);
    SkipTwice(data, val.end);
    m := Member(p, name.end, name.value, colon, at, val.end, val.value, next);
  }

  lemma {:induction false} FirstMember(data: string, pos: nat, row: Row, all: Parsed<Row>) returns (m: Member)
    requires pos <= |data| && MembersAt(data, pos, row) == Ok(all) && data[SkipSpace(data, pos)] != '}'
    ensures MemberIs(data, pos, m) && data[m.next] in {',', '}'} && pos <= m.next
    ensures data[m.next] == ',' ==> MembersAt(data, m.next + 1, Put(row, m.name, m.value)) == Ok(all)
    ensures data[m.next] == '}' ==> all == Parsed(Put(row, m.name, m.value), m.next + 1)
  {
    m := ReadIsMember(data, pos, row);
    MemberIsRead(data, pos, row, m);
  }

  lemma {:induction false} OneMoreMember(data: string, pos: nat, m: Member, rest: seq<Member>, end: nat, row: Row)
    requires MemberIs(data, pos, m)
    requires if data[m.next] == ',' then MembersAre(data, m.next + 1, rest, end)
             else data[m.next] == '}' && rest == [] && end == m.next + 1
    ensures MembersAre(data, pos, [m] + rest, end)
    ensures Overlay(row, PairsOf([m] + rest)) == Overlay(Put(row, m.name, m.value), PairsOf(rest))
  {
    assert ([m] + rest)[1..] == rest;
    OverlayFirst(row, [m] + rest);
  }

  lemma {:induction false} ReadAreMembers(data: string, pos: nat, row: Row, all: Parsed<Row>) returns (ms: seq<Member>)
    requires pos <= |data| && MembersAt(data, pos, row) == Ok(all)
    ensures MembersAre(data, pos, ms, all.end) && all.value == Overlay(row, PairsOf(ms))
    decreases |data| - pos, 1
  {
    var p := SkipSpace(data, pos);
    if data[p] == '}' {
      GapIff(data, pos, p);
      ms := [];
    } else {
      var m := FirstMember(data, pos, row, all);
      var rest := ReadAreMore(data, pos, row, m, all);
      OneMoreMember(data, pos, m, rest, all.end, row);
      ms := [m] + rest;
    }
  }

  lemma {:induction false} ReadAreMore(data: string, pos: nat, row: Row, m: Member, all: Parsed<Row>)
    returns (ms: seq<Member>)
    requires pos <= m.next < |data| && data[m.next] in {',', '}'}
    requires data[m.next] == ',' ==> MembersAt(data, m.next + 1, Put(row, m.name, m.value)) == Ok(all)
    requires data[m.next] == '}' ==> all == Parsed(Put(row, m.name, m.value), m.next + 1)
    ensures if data[m.next] == ',' then MembersAre(data, m.next + 1, ms, all.end)
            else ms == [] && all.end == m.next + 1
    ensures all.value == Overlay(Put(row, m.name, m.value), PairsOf(ms))
    decreases |data| - pos, 0
  {
    ms := [];
    if data[m.next] == ',' { ms := ReadAreMembers(data, m.next + 1, Put(row, m.name, m.value), all); }
  }

  // ---- Objects and files ----

  datatype Object = Object(at: nat, members: seq<Member>, end: nat)

  /** Whitespace and at most one comma from a on, which end at b. */
  ghost predicate Between(data: string, a: nat, b: nat) {
    || (Gap(data, a, b) && (b < |data| ==> data[b] != ','))
    || exists c :: CommaBetween(data, a, c, b)
  }

  ghost predicate CommaBetween(data: string, a: nat, c: nat, b: nat) {
    Gap(data, a, c) && c < |data| && data[c] == ',' && Gap(data, c + 1, b)
  }

  lemma {:induction false} BetweenIff(data: string, a: nat, b: nat)
    requires a <= |data|
    ensures Between(data, a, b) <==> NextStart(data, a) == b
  {
    var c := SkipSpace(data, a);
    GapIff(data, a, c);
    if c < |data| && data[c] == ',' {
      GapIff(data, c + 1, b);
      assert CommaBetween(data, a, c, b) <==> NextStart(data, a) == b;
    }
    forall d | Gap(data, a, d) ensures d == c { GapIff(data, a, d); }
  }

  ghost predicate ObjectIs(data: string, pos: nat, o: Object) {
    && Between(data, pos, o.at) && o.at < |data| && data[o.at] == '{'
    && MembersAre(data, o.at + 1, o.members, o.end)
  }

  /** No object begins after the gap at pos. */
  ghost predicate NoObject(data: string, pos: nat) {
    exists b: nat :: Between(data, pos, b) && (b < |data| ==> data[b] != '{')
  }

  /** Objects from pos on; what follows the last is not the start of one. */
  ghost predicate ObjectsAre(data: string, pos: nat, os: seq<Object>)
    decreases |os|
  {
    if os == [] then NoObject(data, pos)
    else ObjectIs(data, pos, os[0]) && ObjectsAre(data, os[0].end, os[1..])
  }

  /** An array of objects. Whatever follows them is not looked at, not even for a bracket. */
  ghost predicate FileIs(data: string, open: nat, os: seq<Object>) {
    Gap(data, 0, open) && open < |data| && data[open] == '[' && ObjectsAre(data, open + 1, os)
  }

  /** The rows of the objects: a name that is repeated has its last value, at its first place. */
  function RowsIn(os: seq<Object>): seq<Row> {
    if os == [] then [] else [Overlay([], PairsOf(os[0].members))] + RowsIn(os[1..])
  }

  lemma {:induction false} NoObjectIff(data: string, pos: nat, rows: seq<Row>)
    requires pos <= |data|
    ensures NoObject(data, pos) <==> var p := NextStart(data, pos); p >= |data| || data[p] != '{'
    ensures NoObject(data, pos) ==> RowsAt(data, pos, rows) == Ok(rows)
  {
    BetweenIff(data, pos, NextStart(data, pos));
    forall b: nat | Between(data, pos, b) ensures b == NextStart(data, pos) { BetweenIff(data, pos, b); }
  }

  /** One object that stands there is read as it stands. */
  lemma {:induction false} ObjectIsRead(data: string, pos: nat, o: Object, rows: seq<Row>)
    requires pos <= |data| && ObjectIs(data, pos, o)
    ensures pos < o.end <= |data|
    ensures RowsAt(data, pos, rows) == RowsAt(data, o.end, rows + [Overlay([], PairsOf(o.members))])
  {
    BetweenIff(data, pos, o.at);
    StandingIsRead(data, pos, o, rows);
  }

  lemma {:induction false} StandingIsRead(data: string, pos: nat, o: Object, rows: seq<Row>)
    requires pos <= |data| && NextStart(data, pos) == o.at < |data| && data[o.at] == '{'
    requires MembersAre(data, o.at + 1, o.members, o.end)
    ensures pos < o.end <= |data|
    ensures RowsAt(data, pos, rows) == RowsAt(data, o.end, rows + [Overlay([], PairsOf(o.members))])
  {
    MembersAreRead(data, o.at + 1, [], o.members, o.end);
    ObjectFromParts(data, pos, o.at, Overlay([], PairsOf(o.members)), o.end, rows);
  }

  lemma {:induction false} ObjectFromParts(data: string, pos: nat, at: nat, row: Row, end: nat, rows: seq<Row>)
    requires pos <= |data| && NextStart(data, pos) == at < |data| && data[at] == '{'
    requires MembersAt(data, at + 1, []) == Ok(Parsed(row, end))
    ensures pos < end <= |data| && RowsAt(data, pos, rows) == RowsAt(data, end, rows + [row])
  {
    ObjectStarts(data, at);
  }

  lemma {:induction false} ObjectStarts(data: string, at: nat)
    requires at < |data| && data[at] == '{'
    ensures ObjectAt(data, at) == MembersAt(data, at + 1, [])
  {}

  lemma {:induction false} ReadIsObject(data: string, pos: nat, rows: seq<Row>) returns (o: Object)
    requires pos <= |data| && RowsAt(data, pos, rows).Ok? && !NoObject(data, pos)
    ensures ObjectIs(data, pos, o)
  {
    NoObjectIff(data, pos, rows);
    var p := NextStart(data, pos);
    BetweenIff(data, pos, p);
    ObjectStarts(data, p);
    var all := ObjectAt(data, p).value;
    var ms := ReadAreMembers(data, p + 1, [], all);
    o := Object(p, ms, all.end);
  }

  lemma {:induction false} ObjectsAreRead(data: string, pos: nat, os: seq<Object>, rows: seq<Row>)
    requires pos <= |data| && ObjectsAre(data, pos, os)
    ensures RowsAt(data, pos, rows) == Ok(rows + RowsIn(os))
    decreases |os|
  {
    if os == [] {
      NoObjectIff(data, pos, rows);
      assert rows + RowsIn(os) == rows;
    } else {
      var first := Overlay([], PairsOf(os[0].members));
      ObjectIsRead(data, pos, os[0], rows);
      ObjectsAreRead(data, os[0].end, os[1..], rows + [first]);
      assert rows + [first] + RowsIn(os[1..]) == rows + RowsIn(os);
    }
  }

  lemma {:induction false} OneMoreObject(data: string, pos: nat, o: Object, rest: seq<Object>, rows: seq<Row>)
    requires ObjectIs(data, pos, o) && ObjectsAre(data, o.end, rest)
    ensures ObjectsAre(data, pos, [o] + rest)
    ensures rows + [Overlay([], PairsOf(o.members))] + RowsIn(rest) == rows + RowsIn([o] + rest)
  {
    assert ([o] + rest)[1..] == rest;
  }

  lemma {:induction false} ReadAreObjects(data: string, pos: nat, rows: seq<Row>, all: seq<Row>)
    returns (os: seq<Object>)
    requires pos <= |data| && RowsAt(data, pos, rows) == Ok(all)
    ensures ObjectsAre(data, pos, os) && all == rows + RowsIn(os)
    decreases |data| - pos
  {
    if NoObject(data, pos) {
      NoObjectIff(data, pos, rows);
      os := [];
    } else {
      var o := ReadIsObject(data, pos, rows);
      ObjectIsRead(data, pos, o, rows);
      var rest := ReadAreObjects(data, o.end, rows + [Overlay([], PairsOf(o.members))], all);
      OneMoreObject(data, pos, o, rest, rows);
      os := [o] + rest;
    }
  }

  /** The reader accepts exactly these files, and returns the rows of their objects. */
  lemma {:induction false} AcceptsExactly(data: string, rows: seq<Row>)
    ensures RowsOf(data) == Ok(rows) <==> exists open, os :: FileIs(data, open, os) && rows == RowsIn(os)
  {
    if RowsOf(data) == Ok(rows) { ReadIsFile(data, rows); }
    forall open: nat, os | FileIs(data, open, os) && rows == RowsIn(os) ensures RowsOf(data) == Ok(rows) {
      FileIsRead(data, open, os);
    }
  }

  lemma {:induction false} ReadIsFile(data: string, rows: seq<Row>)
    requires RowsOf(data) == Ok(rows)
    ensures exists open, os :: FileIs(data, open, os) && rows == RowsIn(os)
  {
    var open := SkipSpace(data, 0);
    GapIff(data, 0, open);
    var os := ReadAreObjects(data, open + 1, [], rows);
    assert FileIs(data, open, os) && [] + RowsIn(os) == RowsIn(os);
  }

  lemma {:induction false} FileIsRead(data: string, open: nat, os: seq<Object>)
    requires FileIs(data, open, os)
    ensures RowsOf(data) == Ok(RowsIn(os))
  {
    GapIff(data, 0, open);
    ObjectsAreRead(data, open + 1, os, []);
    assert [] + RowsIn(os) == RowsIn(os);
  }

  const LOOSE_FILE := "[{\"a\":1,}{}"

  const LOOSE_MEMBER := Member(2, 5, "a", 5, 6, 7, "1", 7)

  lemma {:induction false} LooseName()
    ensures StringIs(LOOSE_FILE, 2, 5, "a")
  {
    assert Spells(LOOSE_FILE, 4, 4, "a"[1..]);
  }

  lemma {:induction false} LooseMembers()
    ensures MembersAre(LOOSE_FILE, 2, [LOOSE_MEMBER], 9)
  {
    LooseName();
    assert LOOSE_FILE[6..7] == "1";
    assert NumberIs(LOOSE_FILE, 6, 7, "1");
    assert MembersAre(LOOSE_FILE, 8, [], 9);
    assert [LOOSE_MEMBER][1..] == [];
  }

  /** A comma after the last member, no comma between objects and no closing bracket: all of this is
      accepted. */
  lemma {:induction false} LooseFileIsRead()
    ensures RowsOf(LOOSE_FILE) == Ok([[("a", "1")], []])
  {
    var a, b := Object(1, [LOOSE_MEMBER], 9), Object(9, [], 11);
    LooseMembers();
    assert ObjectIs(LOOSE_FILE, 1, a) && ObjectIs(LOOSE_FILE, 9, b);
    assert Between(LOOSE_FILE, 11, 11);
    LooseRows(a, b);
    OneMoreObject(LOOSE_FILE, 9, b, [], []);
    OneMoreObject(LOOSE_FILE, 1, a, [b], []);
    FileIsRead(LOOSE_FILE, 0, [a] + [b]);
  }

  lemma LooseRows(a: Object, b: Object)
    requires a.members == [LOOSE_MEMBER] && b.members == []
    ensures RowsIn([a] + [b]) == [[("a", "1")], []]
  {
    assert ([a] + [b])[1..] == [b] && [LOOSE_MEMBER][1..] == [];
    assert PairsOf([LOOSE_MEMBER]) == [("a", "1")];
    assert Overlay([], [("a", "1")]) == [("a", "1")] && Overlay([], PairsOf([])) == [];
    assert RowsIn([b]) == [[]];
  }
}
