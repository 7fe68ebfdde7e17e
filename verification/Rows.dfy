/** A row: name/value pairs in insertion order, looked up by linear search. */
module Rows {
  import opened Wrappers

  type Row = seq<(string, string)>

  /** The value of the first pair with the given name. */
  function Find(row: Row, key: string): Option<string> {
    if row == [] then None
    else if row[0].0 == key then Some(row[0].1)
    else Find(row[1..], key)
  }

  /** The text in a column; a missing column reads as "". */
  function TextOf(row: Row, key: string): (text: string)
    ensures Find(row, key) == Some(text) || (Find(row, key).None? && text == "")
  {
    var found := Find(row, key);
    if found.Some? then found.value else ""
  }

  /** `row[key] = val`: overwrite the first pair with that name, or append a new pair. */
  function Put(row: Row, key: string, val: string): Row {
    if row == [] then [(key, val)]
    else if row[0].0 == key then [(key, val)] + row[1..]
    else [row[0]] + Put(row[1..], key, val)
  }

  /** Copies every pair of `over` onto `row`, in order. */
  function Overlay(row: Row, over: Row): Row
    decreases over
  {
    if over == [] then row else Overlay(Put(row, over[0].0, over[0].1), over[1..])
  }

  /** No name occurs twice; every row built with `Put` has this property. */
  ghost predicate Distinct(row: Row) {
    forall i, j :: 0 <= i < j < |row| ==> row[i].0 != row[j].0
  }

  predicate Has(row: Row, key: string) {
    Find(row, key).Some?
  }

  lemma {:induction false} FindPut(row: Row, key: string, val: string, k: string)
    ensures Find(Put(row, key, val), k) == if k == key then Some(val) else Find(row, k)
  {
    if row != [] && row[0].0 != key { FindPut(row[1..], key, val, k); }
  }

  lemma {:induction false} PutNew(row: Row, key: string, val: string)
    requires forall k :: 0 <= k < |row| ==> row[k].0 != key
    ensures Put(row, key, val) == row + [(key, val)]
    decreases row
  {
    if row != [] { PutNew(row[1..], key, val); }
  }

  lemma {:induction false} FindNone(row: Row, k: string)
    ensures Find(row, k).None? <==> forall i :: 0 <= i < |row| ==> row[i].0 != k
  {
    if row != [] {
      FindNone(row[1..], k);
      assert forall i :: 1 <= i < |row| ==> row[i] == row[1..][i - 1];
      if row[0].0 != k && Find(row[1..], k).Some? {
        var i :| 0 <= i < |row[1..]| && row[1..][i].0 == k;
        assert row[i + 1].0 == k;
      }
    }
  }

  lemma {:induction false} PutDistinct(row: Row, key: string, val: string)
    requires Distinct(row)
    ensures Distinct(Put(row, key, val))
    ensures forall k :: Has(Put(row, key, val), k) <==> k == key || Has(row, k)
  {
    forall k ensures Has(Put(row, key, val), k) <==> k == key || Has(row, k) { FindPut(row, key, val, k); }
    if row != [] && row[0].0 != key {
      PutDistinct(row[1..], key, val);
      FindNone(row[1..], row[0].0);
      FindPut(row[1..], key, val, row[0].0);
      FindNone(Put(row[1..], key, val), row[0].0);
    }
  }

  /** After copying a row with distinct names over another, its names have its values and the
      other names keep theirs. */
  lemma {:induction false} FindOverlay(row: Row, over: Row, k: string)
    requires Distinct(over)
    ensures Find(Overlay(row, over), k) == if Has(over, k) then Find(over, k) else Find(row, k)
    decreases over
  {
    if over != [] {
      FindOverlay(Put(row, over[0].0, over[0].1), over[1..], k);
      FindPut(row, over[0].0, over[0].1, k);
      FindNone(over[1..], over[0].0);
    }
  }

  lemma {:induction false} OverlayDistinct(row: Row, over: Row)
    requires Distinct(row)
    ensures Distinct(Overlay(row, over))
    decreases over
  {
    if over != [] {
      PutDistinct(row, over[0].0, over[0].1);
      OverlayDistinct(Put(row, over[0].0, over[0].1), over[1..]);
    }
  }

  /** Each pair of a row with distinct names is found under its name. */
  lemma {:induction false} FindEach(row: Row, k: nat)
    requires Distinct(row) && k < |row|
    ensures Find(row, row[k].0) == Some(row[k].1)
    decreases |row|
  {
    if k > 0 {
      assert row[0].0 != row[k].0 && row[1..][k - 1] == row[k];
      FindEach(row[1..], k - 1);
    }
  }

  function NamesOf(row: Row): (names: seq<string>)
    ensures |names| == |row| && forall k :: 0 <= k < |row| ==> names[k] == row[k].0
  {
    seq(|row|, k requires 0 <= k < |row| => row[k].0)
  }
}
