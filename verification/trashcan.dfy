/**
 * forensics/trashcan_COMPLETE/solve.py: every recycle-bin row whose file
 * name starts with `$R` hides one character in its size; sorted by deletion
 * time, the characters spell a run-length encoded text.
 *
 * The CSV rows are given as strings, and `datetime.strptime` is the
 * parameter parseTime, which maps a timestamp string to an ordered key or
 * to None where it raises.
 */
module Trashcan {
  import opened Outcomes
  import opened PyText
  import opened PyInt
  import opened Sorting
  import opened RunLength

  /** The three columns of results.csv the script reads, as text. */
  datatype CsvRow = CsvRow(fileName: string, size: string, timestamp: string)

  /** A kept row: its deletion time and the character its size encodes. */
  datatype Record = Record(time: int, ch: char)

  /**
   * What the loop body does with one row: keep it when the name starts with
   * `$R`, `int()` reads the size, the stripped timestamp parses and the size
   * is a byte.  Any exception skips the row.
   */
  function Keep(row: CsvRow, parseTime: string -> Option<int>): Option<Record> {
    if !StartsWith(row.fileName, "$R") then None
    else
      match (ParseInt(row.size, 10), parseTime(Strip(row.timestamp)))
      case (Some(size), Some(time)) =>
        if 0 <= size <= 255 then Some(Record(time, size as char)) else None
      case _ => None
  }

  /** What each row yields, in file order. */
  function RowOutcomes(rows: seq<CsvRow>, parseTime: string -> Option<int>): (os: seq<Option<Record>>)
    ensures |os| == |rows| && forall i :: 0 <= i < |rows| ==> os[i] == Keep(rows[i], parseTime)
  {
    seq(|rows|, i requires 0 <= i < |rows| => Keep(rows[i], parseTime))
  }

  /** The values of the present outcomes, in order. */
  function Somes<T>(os: seq<Option<T>>): seq<T> {
    if os == [] then []
    else
      var last := os[|os| - 1];
      Somes(os[..|os| - 1]) + (if last.Some? then [last.value] else [])
  }

  /** The records of the kept rows, in file order. */
  function KeptRows(rows: seq<CsvRow>, parseTime: string -> Option<int>): seq<Record> {
    Somes(RowOutcomes(rows, parseTime))
  }

  /** A record is kept exactly for a `$R` row whose size is a byte and whose time parses. */
  lemma KeepMeaning(row: CsvRow, parseTime: string -> Option<int>, rec: Record)
    ensures Keep(row, parseTime) == Some(rec) <==>
      StartsWith(row.fileName, "$R") && parseTime(Strip(row.timestamp)) == Some(rec.time)
      && rec.ch as int <= 255 && ParseInt(row.size, 10) == Some(rec.ch as int)
  {
    var size, time := ParseInt(row.size, 10), parseTime(Strip(row.timestamp));
    if StartsWith(row.fileName, "$R") && size.Some? && time.Some? && 0 <= size.value <= 255 {
      assert Keep(row, parseTime) == Some(Record(time.value, size.value as char));
      assert (size.value as char) as int == size.value;
    } else {
      assert Keep(row, parseTime) == None;
    }
  }

  /** The loop of lines 9-18: one record per kept row, in file order. */
  method FilterRows(rows: seq<CsvRow>, parseTime: string -> Option<int>) returns (records: seq<Record>)
    ensures records == KeptRows(rows, parseTime)
    ensures forall rec :: rec in records <==> exists i :: 0 <= i < |rows| && Keep(rows[i], parseTime) == Some(rec)
  {
    ghost var os := RowOutcomes(rows, parseTime);
    records := [];
    var i := 0;
    while i < |rows|
      invariant 0 <= i <= |rows|
      invariant records == Somes(os[..i])
    {
      var k := Keep(rows[i], parseTime);
      if k.Some? {
        records := records + [k.value];
      }
      SomesStep(os, i);
      i := i + 1;
    }
    assert os[..i] == os;
    KeptRowsMembers(rows, parseTime);
  }

  /** One more outcome adds its value, if it has one. */
  lemma SomesStep<T>(os: seq<Option<T>>, i: nat)
    requires i < |os|
    ensures Somes(os[..i + 1]) == Somes(os[..i]) + (if os[i].Some? then [os[i].value] else [])
  {
    assert os[..i + 1][..i] == os[..i];
  }

  /** A value is kept exactly when some outcome carries it. */
  lemma {:induction false} SomesMembers<T>(os: seq<Option<T>>)
    ensures forall x :: x in Somes(os) <==> Some(x) in os
  {
    if os != [] {
      var init := os[..|os| - 1];
      SomesMembers(init);
      assert os == init + [os[|os| - 1]];
    }
  }

  /** The records kept are those some row yields. */
  lemma KeptRowsMembers(rows: seq<CsvRow>, parseTime: string -> Option<int>)
    ensures forall rec :: rec in KeptRows(rows, parseTime) <==>
      exists i :: 0 <= i < |rows| && Keep(rows[i], parseTime) == Some(rec)
  {
    var os := RowOutcomes(rows, parseTime);
    SomesMembers(os);
    forall rec
      ensures Some(rec) in os <==> exists i :: 0 <= i < |rows| && Keep(rows[i], parseTime) == Some(rec)
    {
      if Some(rec) in os {
        var i :| 0 <= i < |os| && os[i] == Some(rec);
        assert Keep(rows[i], parseTime) == Some(rec);
      }
    }
  }

  // ---------------------------------------------------------------------
  // rows.sort()

  /** Python's order on the pairs (time, ch): by time, then by character. */
  predicate TimeThenChar(a: Record, b: Record) {
    a.time < b.time || (a.time == b.time && a.ch <= b.ch)
  }

  /** One past the largest code point. */
  const CodeSpace: int := 0x11_0000

  /** An integer key that orders records as the pairs are ordered. */
  function RecordKey(r: Record): int {
    r.time * CodeSpace + r.ch as int
  }

  /** The key orders the records by (time, ch), and only equal records share a key. */
  lemma RecordKeyOrder(a: Record, b: Record)
    ensures RecordKey(a) <= RecordKey(b) <==> TimeThenChar(a, b)
    ensures RecordKey(a) == RecordKey(b) ==> a == b
  {
    if a.time < b.time {
      assert a.time * CodeSpace + CodeSpace <= b.time * CodeSpace;
    } else if a.time > b.time {
      assert b.time * CodeSpace + CodeSpace <= a.time * CodeSpace;
    }
  }

  /**
   * The order of the sorted rows is determined: whatever algorithm sorts
   * them, an ordered permutation of the records is SortBy's result.
   */
  lemma SortedRecordsUnique(xs: seq<Record>, ys: seq<Record>)
    requires multiset(ys) == multiset(xs)
    requires forall i, j :: 0 <= i < j < |ys| ==> TimeThenChar(ys[i], ys[j])
    ensures ys == SortBy(xs, RecordKey)
  {
    forall a, b | RecordKey(a) == RecordKey(b)
      ensures a == b
    {
      RecordKeyOrder(a, b);
    }
    forall i, j | 0 <= i < j < |ys|
      ensures RecordKey(ys[i]) <= RecordKey(ys[j])
    {
      RecordKeyOrder(ys[i], ys[j]);
    }
    SortedPermutationUnique(xs, ys, RecordKey);
  }

  // ---------------------------------------------------------------------
  // The whole script

  /** `''.join(ch for _, ch in rows)`. */
  function Chars(records: seq<Record>): (raw: string)
    ensures |raw| == |records| && forall i :: 0 <= i < |records| ==> raw[i] == records[i].ch
  {
    seq(|records|, i requires 0 <= i < |records| => records[i].ch)
  }

  /**
   * Lines 9-26: filter the rows, sort them by (time, character), join the
   * characters and run-length decode them.
   */
  method Solve(rows: seq<CsvRow>, parseTime: string -> Option<int>)
    returns (sorted: seq<Record>, raw: string, decoded: string)
    ensures sorted == SortBy(KeptRows(rows, parseTime), RecordKey)
    ensures multiset(sorted) == multiset(KeptRows(rows, parseTime))
    ensures forall i, j :: 0 <= i < j < |sorted| ==> TimeThenChar(sorted[i], sorted[j])
    ensures raw == Chars(sorted) && decoded == Decode(raw)
    ensures 3 * |decoded| <= |raw|
  {
    var records := FilterRows(rows, parseTime);
    sorted := SortBy(records, RecordKey);
    SortBySorted(records, RecordKey);
    forall i, j | 0 <= i < j < |sorted|
      ensures TimeThenChar(sorted[i], sorted[j])
    {
      RecordKeyOrder(sorted[i], sorted[j]);
    }
    raw := Chars(sorted);
    decoded := Decode(raw);
    DecodeLength(raw);
  }
}
