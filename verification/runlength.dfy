/**
 * The run-length decode of forensics/trashcan_COMPLETE/solve.py: the
 * string is cut into maximal runs of one character (`itertools.groupby`),
 * and a run of length L becomes L // 3 copies of its character.
 */
module RunLength {
  import opened PyText

  /** len copies of ch: one group of `groupby`. */
  datatype Run = Run(ch: char, len: nat)

  /** The string a sequence of runs spells out. */
  function Expand(rs: seq<Run>): string {
    if rs == [] then [] else Repeat(rs[0].ch, rs[0].len) + Expand(rs[1..])
  }

  /** Every run is nonempty and differs in character from the next one. */
  predicate Maximal(rs: seq<Run>) {
    (forall i :: 0 <= i < |rs| ==> rs[i].len >= 1)
    && forall i :: 0 <= i < |rs| - 1 ==> rs[i].ch != rs[i + 1].ch
  }

  /** `[(k, len(list(g))) for k, g in groupby(s)]`: the maximal runs of s. */
  function Runs(s: string): (rs: seq<Run>)
    ensures Maximal(rs) && Expand(rs) == s
    ensures s != [] ==> rs != [] && rs[0].ch == s[0]
  {
    if s == [] then []
    else
      var rest := Runs(s[1..]);
      if rest != [] && rest[0].ch == s[0] then
        var rs := [Run(s[0], rest[0].len + 1)] + rest[1..];
        RepeatCons(s[0], rest[0].len);
        assert Expand(rest) == Repeat(s[0], rest[0].len) + Expand(rest[1..]);
        assert rs[1..] == rest[1..];
        assert s == [s[0]] + s[1..];
        rs
      else
        var rs := [Run(s[0], 1)] + rest;
        assert Repeat(s[0], 1) == [s[0]];
        assert rs[1..] == rest;
        assert s == [s[0]] + s[1..];
        rs
  }

  /** One more copy of c in front. */
  lemma RepeatCons(c: char, n: nat)
    ensures [c] + Repeat(c, n) == Repeat(c, n + 1)
  {
    assert forall i :: 0 <= i < n + 1 ==> ([c] + Repeat(c, n))[i] == c;
  }

  /** The decode of solve.py lines 24-26, run by run. */
  function DecodeRuns(rs: seq<Run>): string {
    if rs == [] then [] else Repeat(rs[0].ch, rs[0].len / 3) + DecodeRuns(rs[1..])
  }

  /** `''.join(ch * (L // 3) for each run)` over the runs of s. */
  function Decode(s: string): string {
    DecodeRuns(Runs(s))
  }

  // ---------------------------------------------------------------------
  // The runs are the only maximal cut

  /** A block of n copies of c followed by text not starting with c is one run. */
  lemma {:induction false} RunsOfBlock(c: char, n: nat, t: string)
    requires n >= 1 && (t == [] || t[0] != c)
    ensures Runs(Repeat(c, n) + t) == [Run(c, n)] + Runs(t)
  {
    var s := Repeat(c, n) + t;
    assert s[0] == c;
    if n == 1 {
      assert s[1..] == t;
    } else {
      RepeatCons(c, n - 1);
      assert s[1..] == Repeat(c, n - 1) + t;
      RunsOfBlock(c, n - 1, t);
    }
  }

  /** Any maximal cut of s into runs is the one `groupby` finds. */
  lemma {:induction false} RunsUnique(rs: seq<Run>)
    requires Maximal(rs)
    ensures Runs(Expand(rs)) == rs
  {
    if rs != [] {
      var rest := rs[1..];
      assert Maximal(rest);
      RunsUnique(rest);
      var t := Expand(rest);
      if rest != [] {
        assert t == Repeat(rest[0].ch, rest[0].len) + Expand(rest[1..]);
        assert t[0] == rest[0].ch;
      }
      RunsOfBlock(rs[0].ch, rs[0].len, t);
      assert rs == [Run(rs[0].ch, rs[0].len)] + rest;
    }
  }

  // ---------------------------------------------------------------------
  // Properties of the decode

  /** The decode is empty exactly when every run is shorter than 3; in particular for "". */
  lemma DecodeEmptyIffShortRuns(s: string)
    ensures Decode(s) == [] <==> forall r :: r in Runs(s) ==> r.len < 3
  {
    DecodeRunsEmpty(Runs(s));
  }

  lemma {:induction false} DecodeRunsEmpty(rs: seq<Run>)
    ensures DecodeRuns(rs) == [] <==> forall r :: r in rs ==> r.len < 3
  {
    if rs != [] {
      DecodeRunsEmpty(rs[1..]);
      assert forall r :: r in rs <==> r == rs[0] || r in rs[1..];
    }
  }

  /** Each character of s written three times. */
  function Triple(s: string): (t: string)
    ensures |t| == 3 * |s|
  {
    if s == [] then [] else [s[0], s[0], s[0]] + Triple(s[1..])
  }

  /** The runs with their lengths tripled. */
  function TripleRuns(rs: seq<Run>): (ts: seq<Run>)
    ensures |ts| == |rs|
    ensures forall i :: 0 <= i < |rs| ==> ts[i] == Run(rs[i].ch, 3 * rs[i].len)
  {
    if rs == [] then [] else [Run(rs[0].ch, 3 * rs[0].len)] + TripleRuns(rs[1..])
  }

  lemma {:induction false} TripleConcat(a: string, b: string)
    ensures Triple(a + b) == Triple(a) + Triple(b)
  {
    if a == [] {
      assert a + b == b;
    } else {
      assert (a + b)[0] == a[0] && (a + b)[1..] == a[1..] + b;
      TripleConcat(a[1..], b);
    }
  }

  lemma {:induction false} TripleRepeat(c: char, n: nat)
    ensures Triple(Repeat(c, n)) == Repeat(c, 3 * n)
  {
    if n > 0 {
      RepeatCons(c, n - 1);
      var r := Repeat(c, n);
      assert r[0] == c && r[1..] == Repeat(c, n - 1);
      TripleRepeat(c, n - 1);
      RepeatCons(c, 3 * n - 3);
      RepeatCons(c, 3 * n - 2);
      RepeatCons(c, 3 * n - 1);
    }
  }

  lemma {:induction false} ExpandTriple(rs: seq<Run>)
    ensures Expand(TripleRuns(rs)) == Triple(Expand(rs))
  {
    if rs != [] {
      ExpandTriple(rs[1..]);
      TripleRepeat(rs[0].ch, rs[0].len);
      TripleConcat(Repeat(rs[0].ch, rs[0].len), Expand(rs[1..]));
      assert TripleRuns(rs)[1..] == TripleRuns(rs[1..]);
    }
  }

  lemma {:induction false} DecodeTripleRuns(rs: seq<Run>)
    ensures DecodeRuns(TripleRuns(rs)) == Expand(rs)
  {
    if rs != [] {
      DecodeTripleRuns(rs[1..]);
      assert TripleRuns(rs)[1..] == TripleRuns(rs[1..]);
      assert 3 * rs[0].len / 3 == rs[0].len;
    }
  }

  /** Writing every character three times and decoding gives the text back. */
  lemma DecodeTriple(s: string)
    ensures Decode(Triple(s)) == s
  {
    var rs := Runs(s);
    ExpandTriple(rs);
    assert Maximal(TripleRuns(rs));
    RunsUnique(TripleRuns(rs));
    DecodeTripleRuns(rs);
  }

  // ---------------------------------------------------------------------
  // Length

  /** The total length of the runs. */
  function Lengths(rs: seq<Run>): nat {
    if rs == [] then 0 else rs[0].len + Lengths(rs[1..])
  }

  /** The number of copies the decode writes: the sum of L // 3. */
  function Thirds(rs: seq<Run>): nat {
    if rs == [] then 0 else rs[0].len / 3 + Thirds(rs[1..])
  }

  lemma {:induction false} RunLengths(rs: seq<Run>)
    ensures |Expand(rs)| == Lengths(rs)
    ensures |DecodeRuns(rs)| == Thirds(rs)
    ensures 3 * Thirds(rs) <= Lengths(rs)
  {
    if rs != [] {
      RunLengths(rs[1..]);
    }
  }

  /** The decode has sum(L // 3) characters, so at most a third of the input. */
  lemma DecodeLength(s: string)
    ensures |Decode(s)| == Thirds(Runs(s))
    ensures 3 * |Decode(s)| <= |s|
  {
    RunLengths(Runs(s));
  }
}
