/**
 * forensics/puzzle_pieces_redux_COMPLETE/sort.py: read the TimeDateStamp
 * of the COFF header of every `.bin` file in a directory and list the
 * files newest first.
 *
 * A PE image keeps the offset of its `PE\0\0` signature as a little-endian
 * 32-bit word at 0x3C; the COFF header follows the signature, and its
 * TimeDateStamp is the little-endian 32-bit word 8 bytes after the
 * signature's start.
 */
module PeTimestamps {
  import opened Outcomes
  import opened Sorting

  type Byte = b: int | 0 <= b < 256

  const Word: nat := 0x1_0000_0000

  /** Where the DOS header keeps the offset of the PE signature. */
  const PeOffsetField: nat := 0x3C

  /** `b'PE\x00\x00'`. */
  const PeSignature: seq<Byte> := [0x50, 0x45, 0x00, 0x00]

  /** `struct.unpack("<I", data[i:i+4])[0]`. */
  function U32LE(data: seq<Byte>, i: nat): (v: nat)
    requires i + 4 <= |data|
    ensures v < Word
  {
    var b0, b1, b2, b3: int := data[i], data[i + 1], data[i + 2], data[i + 3];
    b0 + 0x100 * (b1 + 0x100 * (b2 + 0x100 * b3))
  }

  /** `struct.pack("<I", v)`: the base-256 digits of v, least significant first. */
  function LeBytes(v: nat): (b: seq<Byte>)
    requires v < Word
    ensures |b| == 4
  {
    var q1 := v / 0x100;
    var q2 := q1 / 0x100;
    [v % 0x100, q1 % 0x100, q2 % 0x100, q2 / 0x100]
  }

  /** Division by 256 of 256 q + r with r a byte. */
  lemma ByteDivMod(n: int, q: int, r: int)
    requires 0 <= r < 0x100 && n == 0x100 * q + r
    ensures n / 0x100 == q && n % 0x100 == r
  {
  }

  lemma ByteSplit(n: int)
    ensures n == 0x100 * (n / 0x100) + n % 0x100 && 0 <= n % 0x100 < 0x100
  {
  }

  /** Packing then unpacking a word gives it back. */
  lemma UnpackPack(v: nat)
    requires v < Word
    ensures U32LE(LeBytes(v), 0) == v
  {
    ReadBack(LeBytes(v), 0, v);
  }

  /** Unpacking then packing four bytes gives them back. */
  lemma PackUnpack(data: seq<Byte>, i: nat)
    requires i + 4 <= |data|
    ensures LeBytes(U32LE(data, i)) == data[i..i + 4]
  {
    var b0, b1, b2, b3: int := data[i], data[i + 1], data[i + 2], data[i + 3];
    var v := U32LE(data, i);
    var q2 := b2 + 0x100 * b3;
    var q1 := b1 + 0x100 * q2;
    ByteDivMod(v, q1, b0);
    ByteDivMod(q1, q2, b1);
    ByteDivMod(q2, b3, b2);
  }

  /**
   * `get_timedatestamp` on the bytes of a file: None when the file is too
   * short for the offset field or for the COFF header it points to, or when
   * no `PE\0\0` signature sits at that offset.
   */
  function TimeDateStamp(data: seq<Byte>): (r: Option<nat>)
    ensures r.Some? ==> |data| >= PeOffsetField + 4 && r.value < Word
  {
    if |data| < PeOffsetField + 4 then None
    else
      var peOffset := U32LE(data, PeOffsetField);
      if |data| < peOffset + 8 + 4 then None
      else if data[peOffset..peOffset + 4] != PeSignature then None
      else Some(U32LE(data, peOffset + 8))
  }

  /**
   * data is a PE image whose signature is at offset and whose COFF header
   * carries stamp: the offset field, the signature and the stamp are where
   * the format puts them.
   */
  ghost predicate PeImage(data: seq<Byte>, offset: nat, stamp: nat) {
    offset < Word && stamp < Word
    && |data| >= PeOffsetField + 4 && |data| >= offset + 12
    && data[PeOffsetField..PeOffsetField + 4] == LeBytes(offset)
    && data[offset..offset + 4] == PeSignature
    && data[offset + 8..offset + 12] == LeBytes(stamp)
  }

  /** The stamp is read exactly from the files laid out as PE images. */
  lemma TimeDateStampIffImage(data: seq<Byte>, stamp: nat)
    ensures TimeDateStamp(data) == Some(stamp) <==> exists offset :: PeImage(data, offset, stamp)
  {
    if TimeDateStamp(data) == Some(stamp) {
      ImageOfStamp(data, stamp);
    }
    if exists offset :: PeImage(data, offset, stamp) {
      var offset :| PeImage(data, offset, stamp);
      StampOfImage(data, offset, stamp);
    }
  }

  lemma ImageOfStamp(data: seq<Byte>, stamp: nat)
    requires TimeDateStamp(data) == Some(stamp)
    ensures PeImage(data, U32LE(data, PeOffsetField), stamp)
  {
    var offset := U32LE(data, PeOffsetField);
    PackUnpack(data, PeOffsetField);
    PackUnpack(data, offset + 8);
  }

  lemma StampOfImage(data: seq<Byte>, offset: nat, stamp: nat)
    requires PeImage(data, offset, stamp)
    ensures TimeDateStamp(data) == Some(stamp)
  {
    ReadBack(data, PeOffsetField, offset);
    ReadBack(data, offset + 8, stamp);
  }

  lemma ReadBack(data: seq<Byte>, i: nat, v: nat)
    requires v < Word && i + 4 <= |data| && data[i..i + 4] == LeBytes(v)
    ensures U32LE(data, i) == v
  {
    var q1 := v / 0x100;
    var q2 := q1 / 0x100;
    assert data[i] == v % 0x100 && data[i + 1] == q1 % 0x100;
    assert data[i + 2] == q2 % 0x100 && data[i + 3] == q2 / 0x100;
    ByteSplit(v);
    ByteSplit(q1);
    ByteSplit(q2);
  }

  // ---------------------------------------------------------------------
  // main

  /** ASCII lowercase of one character. */
  function AsciiLower(c: char): char {
    if 'A' <= c <= 'Z' then (c as int + 32) as char else c
  }

  /** `f.lower().endswith('.bin')`. */
  predicate IsBin(name: string) {
    |name| >= 4 && forall k :: 0 <= k < 4 ==> AsciiLower(name[|name| - 4 + k]) == ".bin"[k]
  }

  /** `[f for f in names if f.lower().endswith('.bin')]`. */
  function Bins(names: seq<string>): (bins: seq<string>)
    ensures forall f :: f in bins <==> f in names && IsBin(f)
  {
    if names == [] then []
    else Bins(names[..|names| - 1]) + (if IsBin(names[|names| - 1]) then [names[|names| - 1]] else [])
  }

  /** One row of the listing: a file name and its TimeDateStamp. */
  datatype Entry = Entry(name: string, stamp: nat)

  /**
   * The entries the loop appends, in directory order: the files whose
   * stamp is present and nonzero (`if tds:` drops 0 as well as None).
   */
  function Stamped(bins: seq<string>, contents: string -> seq<Byte>): seq<Entry> {
    if bins == [] then []
    else
      var f := bins[|bins| - 1];
      var tds := TimeDateStamp(contents(f));
      Stamped(bins[..|bins| - 1], contents)
        + (if tds.Some? && tds.value != 0 then [Entry(f, tds.value)] else [])
  }

  /** An entry is listed exactly for a file of bins whose stamp is present and nonzero. */
  lemma {:induction false} StampedMembers(bins: seq<string>, contents: string -> seq<Byte>)
    ensures forall e :: e in Stamped(bins, contents) <==>
      e.name in bins && e.stamp != 0 && TimeDateStamp(contents(e.name)) == Some(e.stamp)
  {
    if bins != [] {
      var init := bins[..|bins| - 1];
      StampedMembers(init, contents);
      assert bins == init + [bins[|bins| - 1]];
    }
  }

  /**
   * `results.sort(key=lambda x: x[1], reverse=True)` as an ascending sort:
   * Python's `reverse=True` keeps entries with equal stamps in their input
   * order, which is the stable ascending sort by the negated stamp.
   */
  function NewestKey(e: Entry): int {
    -(e.stamp as int)
  }

  /**
   * `main` without the printing: stamp the `.bin` files among names, whose
   * bytes are given by contents, and sort them newest first.
   */
  method NewestFirst(names: seq<string>, contents: string -> seq<Byte>) returns (results: seq<Entry>)
    ensures results == SortBy(Stamped(Bins(names), contents), NewestKey)
    ensures forall i, j :: 0 <= i < j < |results| ==> results[i].stamp >= results[j].stamp
    ensures multiset(results) == multiset(Stamped(Bins(names), contents))
    ensures forall e :: e in results <==>
      e.name in names && IsBin(e.name) && e.stamp != 0 && TimeDateStamp(contents(e.name)) == Some(e.stamp)
    ensures forall k :: WithKey(results, NewestKey, k) == WithKey(Stamped(Bins(names), contents), NewestKey, k)
  {
    var bins := Bins(names);
    var stamped: seq<Entry> := [];
    var i := 0;
    while i < |bins|
      invariant 0 <= i <= |bins|
      invariant stamped == Stamped(bins[..i], contents)
    {
      var tds := TimeDateStamp(contents(bins[i]));
      if tds.Some? && tds.value != 0 {
        stamped := stamped + [Entry(bins[i], tds.value)];
      }
      StampedStep(bins, i, contents);
      i := i + 1;
    }
    assert bins[..i] == bins;
    results := SortBy(stamped, NewestKey);
    SortBySorted(stamped, NewestKey);
    SameMembers(results, stamped);
    StampedMembers(bins, contents);
    forall k
      ensures WithKey(results, NewestKey, k) == WithKey(stamped, NewestKey, k)
    {
      SortByStable(stamped, NewestKey, k);
    }
  }

  /** One more file adds its entry, if it has a nonzero stamp. */
  lemma StampedStep(bins: seq<string>, i: nat, contents: string -> seq<Byte>)
    requires i < |bins|
    ensures Stamped(bins[..i + 1], contents) == Stamped(bins[..i], contents)
      + (var tds := TimeDateStamp(contents(bins[i]));
         if tds.Some? && tds.value != 0 then [Entry(bins[i], tds.value)] else [])
  {
    assert bins[..i + 1][..i] == bins[..i];
  }

  /** Permutations have the same members. */
  lemma SameMembers(a: seq<Entry>, b: seq<Entry>)
    requires multiset(a) == multiset(b)
    ensures forall e :: e in a <==> e in b
  {
    forall e
      ensures e in a <==> e in b
    {
      assert e in a <==> e in multiset(a);
      assert e in b <==> e in multiset(b);
    }
  }
}
