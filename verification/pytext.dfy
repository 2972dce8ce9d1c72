/**
 * The pieces of Python's `str` that the scripts rely on: `isspace`,
 * `strip()`, `split(sep, 1)`, `startswith` and `rjust`.  Strings are
 * sequences of Unicode code points, as in Python.
 */
module PyText {
  import opened Outcomes

  /**
   * `str.isspace()` for one character: the characters Python treats as
   * whitespace (bidirectional class WS, B or S, or general category Zs).
   */
  predicate IsSpace(c: char) {
    c == ' ' || ('\t' <= c <= '\r') || ('\U{1C}' <= c <= '\U{1F}')
    || c == '\U{85}' || c == '\U{A0}' || c == '\U{1680}'
    || ('\U{2000}' <= c <= '\U{200A}') || c == '\U{2028}' || c == '\U{2029}'
    || c == '\U{202F}' || c == '\U{205F}' || c == '\U{3000}'
  }

  /** s without its longest prefix of characters satisfying ws. */
  function TrimLeft(s: string, ws: char -> bool): (t: string)
    ensures |t| <= |s| && t == s[|s| - |t|..]
    ensures t == [] || !ws(t[0])
    ensures forall i :: 0 <= i < |s| - |t| ==> ws(s[i])
    ensures forall c :: !ws(c) ==> (c in t <==> c in s)
  {
    if s != [] && ws(s[0]) then TrimLeft(s[1..], ws) else s
  }

  /** s without its longest suffix of characters satisfying ws. */
  function TrimRight(s: string, ws: char -> bool): (t: string)
    ensures |t| <= |s| && t == s[..|t|]
    ensures t == [] || !ws(t[|t| - 1])
    ensures forall i :: |t| <= i < |s| ==> ws(s[i])
    ensures forall c :: !ws(c) ==> (c in t <==> c in s)
  {
    if s != [] && ws(s[|s| - 1]) then TrimRight(s[..|s| - 1], ws) else s
  }

  /** `s.strip()`: leading and trailing whitespace removed. */
  function Strip(s: string): (t: string)
    ensures t == [] <==> forall i :: 0 <= i < |s| ==> IsSpace(s[i])
    ensures t != [] ==> !IsSpace(t[0]) && !IsSpace(t[|t| - 1])
    ensures forall c :: !IsSpace(c) ==> (c in t <==> c in s)
  {
    TrimRight(TrimLeft(s, IsSpace), IsSpace)
  }

  /** Every character of s is whitespace. */
  predicate AllSpace(s: string) {
    forall i :: 0 <= i < |s| ==> IsSpace(s[i])
  }

  /**
   * Strip removes nothing but a run of whitespace at each end: s is that
   * run, the stripped text unchanged, and the other run.
   */
  lemma StripRemovesEnds(s: string)
    ensures exists i, j :: 0 <= i <= j <= |s| && Strip(s) == s[i..j] && AllSpace(s[..i]) && AllSpace(s[j..])
  {
    var l := TrimLeft(s, IsSpace);
    assert Strip(s) == TrimRight(l, IsSpace);
    SpaceAround(s, l, Strip(s));
  }

  /** s is whitespace, then l, where l is t and then whitespace. */
  lemma SpaceAround(s: string, l: string, t: string)
    requires |l| <= |s| && l == s[|s| - |l|..] && forall k :: 0 <= k < |s| - |l| ==> IsSpace(s[k])
    requires |t| <= |l| && t == l[..|t|] && forall k :: |t| <= k < |l| ==> IsSpace(l[k])
    ensures var i := |s| - |l|; t == s[i..i + |t|] && AllSpace(s[..i]) && AllSpace(s[i + |t|..])
  {
    var post := s[|s| - |l| + |t|..];
    assert AllSpace(post) by {
      forall k | 0 <= k < |post| ensures IsSpace(post[k]) {
        assert post[k] == l[|t| + k];
      }
    }
  }

  /** Strip leaves a string alone that begins and ends with non-whitespace. */
  lemma StripNothing(s: string)
    requires |s| >= 1 && !IsSpace(s[0]) && !IsSpace(s[|s| - 1])
    ensures Strip(s) == s
  {
    assert TrimLeft(s, IsSpace) == s;
  }

  /**
   * `s.split(sep, 1)` when sep occurs in s: the text before the first sep
   * and the text after it; None when sep does not occur.
   */
  function SplitFirst(s: string, sep: char): (r: Option<(string, string)>)
    ensures r.None? <==> sep !in s
    ensures r.Some? ==> s == r.value.0 + [sep] + r.value.1 && sep !in r.value.0
  {
    if s == [] then None
    else if s[0] == sep then Some(([], s[1..]))
    else match SplitFirst(s[1..], sep)
      case None => None
      case Some((before, after)) => Some(([s[0]] + before, after))
  }

  /** There is only one way to cut s at the first occurrence of sep. */
  lemma {:induction false} SplitFirstUnique(s: string, sep: char, before: string, after: string)
    requires s == before + [sep] + after && sep !in before
    ensures SplitFirst(s, sep) == Some((before, after))
  {
    if before == [] {
      assert s[1..] == after;
    } else {
      assert s[0] == before[0] && s[0] != sep;
      assert s[1..] == before[1..] + [sep] + after;
      SplitFirstUnique(s[1..], sep, before[1..], after);
      assert [s[0]] + before[1..] == before;
    }
  }

  /** `s.startswith(prefix)`. */
  predicate StartsWith(s: string, prefix: string) {
    |prefix| <= |s| && s[..|prefix|] == prefix
  }

  /** n copies of c. */
  function Repeat(c: char, n: nat): (r: string)
    ensures |r| == n && forall i :: 0 <= i < n ==> r[i] == c
  {
    if n == 0 then [] else Repeat(c, n - 1) + [c]
  }

  /** `s.rjust(width, fill)`: s padded on the left to width characters. */
  function RightJustify(s: string, width: nat, fill: char): (r: string)
    ensures |r| == (if |s| < width then width else |s|)
    ensures r[|r| - |s|..] == s
    ensures forall i :: 0 <= i < |r| - |s| ==> r[i] == fill
  {
    if |s| < width then Repeat(fill, width - |s|) + s else s
  }
}
