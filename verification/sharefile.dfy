/**
 * The share file and the reconstruction driver of
 * miscellaneous/vx_underground_COMPLETE/decrypt.py: `parse_shares`, the
 * two-share minimum of `main`, and the fixed-width hex rendering of the
 * recovered secret.
 *
 * A share line is `<x>-<y>`: the line is stripped, skipped when it is empty
 * or has no '-', and otherwise cut at its first '-' into a decimal x and a
 * hexadecimal y, both read by Python's `int()`.  A part `int()` rejects
 * raises `ValueError`, which aborts the whole run; the model returns the
 * index of that line.
 */
module ShareFile {
  import opened Outcomes
  import opened FieldArithmetic
  import opened Polynomial
  import opened Interpolator
  import opened LagrangeRecovery
  import opened PyText
  import opened PyInt

  /** What `parse_shares` does with one line. */
  datatype LineOutcome = Skipped | Malformed | Parsed(share: Share)

  function ParseShareLine(line: string): LineOutcome {
    var t := Strip(line);
    if t == [] || '-' !in t then Skipped
    else
      var parts := SplitFirst(t, '-').value;
      ParseFields(parts.0, parts.1)
  }

  /** `int(x_str)` and `int(y_str, 16)` on the two parts of a line. */
  function ParseFields(before: string, after: string): LineOutcome {
    match (ParseInt(before, 10), ParseInt(after, 16))
    case (Some(x), Some(y)) => Parsed(Share(x, y))
    case _ => Malformed
  }

  /** A line is skipped exactly when it is blank or has no '-'. */
  lemma SkippedExactly(line: string)
    ensures ParseShareLine(line).Skipped? <==> Strip(line) == [] || '-' !in line
  {
    assert !IsSpace('-');
    assert '-' in Strip(line) <==> '-' in line;
  }

  /**
   * x is read from the text before the first '-', which has no '-' for
   * `int()` to take as a sign, so a parsed x is never negative.
   */
  lemma ParsedXNatural(line: string)
    ensures ParseShareLine(line).Parsed? ==> ParseShareLine(line).share.x >= 0
  {
    var t := Strip(line);
    if t != [] && '-' in t {
      var parts := SplitFirst(t, '-').value;
      UnsignedNatural(parts.0, 10);
    }
  }

  /** f applied to each element of xs, in order. */
  function MapSeq<A, B>(f: A -> B, xs: seq<A>): (ys: seq<B>)
    ensures |ys| == |xs|
  {
    if xs == [] then [] else [f(xs[0])] + MapSeq(f, xs[1..])
  }

  lemma {:induction false} MapSeqAt<A, B>(f: A -> B, xs: seq<A>, i: nat)
    requires i < |xs|
    ensures MapSeq(f, xs)[i] == f(xs[i])
  {
    if i > 0 {
      MapSeqAt(f, xs[1..], i - 1);
    }
  }

  lemma {:induction false} MapSeqConcat<A, B>(f: A -> B, a: seq<A>, b: seq<A>)
    ensures MapSeq(f, a + b) == MapSeq(f, a) + MapSeq(f, b)
  {
    if a == [] {
      assert a + b == b;
    } else {
      assert (a + b)[0] == a[0] && (a + b)[1..] == a[1..] + b;
      MapSeqConcat(f, a[1..], b);
    }
  }

  /** What `parse_shares` does with each line of the file. */
  function LineOutcomes(lines: seq<string>): (os: seq<LineOutcome>)
    ensures |os| == |lines|
  {
    MapSeq(ParseShareLine, lines)
  }

  /**
   * The loop of `parse_shares` over the outcomes of the lines: the shares in
   * line order, or the index of the first line whose x or y `int()` rejects.
   */
  function Collect(os: seq<LineOutcome>): Result<seq<Share>, nat> {
    if os == [] then Ok([])
    else
      match Collect(os[..|os| - 1])
      case Err(i) => Err(i)
      case Ok(shares) =>
        match os[|os| - 1]
        case Skipped => Ok(shares)
        case Malformed => Err(|os| - 1)
        case Parsed(s) => Ok(shares + [s])
  }

  /** What `parse_shares` returns for the lines of a file, or where it raises. */
  function ParseAll(lines: seq<string>): Result<seq<Share>, nat> {
    Collect(LineOutcomes(lines))
  }

  /** `parse_shares`: the loop that appends one share per kept line. */
  method ParseShares(lines: seq<string>) returns (r: Result<seq<Share>, nat>)
    ensures r == ParseAll(lines)
  {
    ghost var os := LineOutcomes(lines);
    var shares: seq<Share> := [];
    var i := 0;
    while i < |lines|
      invariant 0 <= i <= |lines|
      invariant Collect(os[..i]) == Ok(shares)
    {
      var outcome := ParseShareLine(lines[i]);
      assert outcome == os[i] by { MapSeqAt(ParseShareLine, lines, i); }
      CollectStep(os, i);
      match outcome {
        case Skipped =>
        case Malformed =>
          CollectStopsAtError(os, i + 1);
          return Err(i);
        case Parsed(s) =>
          shares := shares + [s];
      }
      i := i + 1;
    }
    assert os[..i] == os;
    return Ok(shares);
  }

  /** One more line: skipped, the error at its index, or one more share. */
  lemma CollectStep(os: seq<LineOutcome>, i: nat)
    requires i < |os| && Collect(os[..i]).Ok?
    ensures os[i].Skipped? ==> Collect(os[..i + 1]) == Collect(os[..i])
    ensures os[i].Malformed? ==> Collect(os[..i + 1]) == Err(i)
    ensures os[i].Parsed? ==> Collect(os[..i + 1]) == Ok(Collect(os[..i]).value + [os[i].share])
  {
    assert os[..i + 1][..i] == os[..i];
  }

  // ---------------------------------------------------------------------
  // What the parse keeps

  /** The shares of the lines that parse, in line order. */
  function Kept(os: seq<LineOutcome>): seq<Share> {
    if os == [] then []
    else if os[0].Parsed? then [os[0].share] + Kept(os[1..])
    else Kept(os[1..])
  }

  /** No line of the file is malformed. */
  predicate NoneMalformed(os: seq<LineOutcome>) {
    forall i :: 0 <= i < |os| ==> !os[i].Malformed?
  }

  lemma {:induction false} KeptConcat(a: seq<LineOutcome>, b: seq<LineOutcome>)
    ensures Kept(a + b) == Kept(a) + Kept(b)
  {
    if a == [] {
      assert a + b == b;
    } else {
      assert (a + b)[1..] == a[1..] + b;
      KeptConcat(a[1..], b);
    }
  }

  /**
   * The parse fails exactly at the first malformed line; otherwise it
   * returns the shares of the kept lines, in order.
   */
  lemma {:induction false} CollectMeaning(os: seq<LineOutcome>)
    ensures NoneMalformed(os) ==> Collect(os) == Ok(Kept(os))
    ensures !NoneMalformed(os) ==> Collect(os).Err?
    ensures Collect(os).Err? ==>
      (var i := Collect(os).error;
       i < |os| && os[i].Malformed? && forall j :: 0 <= j < i ==> !os[j].Malformed?)
  {
    if os != [] {
      var init, last := os[..|os| - 1], os[|os| - 1];
      CollectMeaning(init);
      assert os == init + [last];
      KeptConcat(init, [last]);
      assert Kept([last]) == if last.Parsed? then [last.share] else [];
      assert forall j :: 0 <= j < |init| ==> init[j] == os[j];
      if NoneMalformed(os) {
        assert NoneMalformed(init);
        assert !last.Malformed?;
        assert Kept(os) == Kept(init) + Kept([last]);
        if last.Skipped? {
          assert Kept(init) + [] == Kept(init);
        }
      }
      if !NoneMalformed(os) && NoneMalformed(init) {
        assert last.Malformed?;
      }
    }
  }

  /** Once the parse has failed on a prefix of the file, it fails there. */
  lemma {:induction false} CollectStopsAtError(os: seq<LineOutcome>, k: nat)
    requires k <= |os| && Collect(os[..k]).Err?
    ensures Collect(os) == Collect(os[..k])
    decreases |os| - k
  {
    if k < |os| {
      assert os[..k + 1][..k] == os[..k];
      CollectStopsAtError(os, k + 1);
    } else {
      assert os[..k] == os;
    }
  }

  /** A line that the parse skips can be added anywhere without effect. */
  lemma SkippedLineIrrelevant(lines: seq<string>, k: nat, line: string)
    requires k <= |lines| && (Strip(line) == [] || '-' !in line)
    ensures Kept(LineOutcomes(lines[..k] + [line] + lines[k..])) == Kept(LineOutcomes(lines))
  {
    SkippedOutcome(line);
    InsertSkipped(lines, k, line);
  }

  lemma InsertSkipped(lines: seq<string>, k: nat, line: string)
    requires k <= |lines| && LineOutcomes([line]) == [Skipped]
    ensures Kept(LineOutcomes(lines[..k] + [line] + lines[k..])) == Kept(LineOutcomes(lines))
  {
    var pre, post := lines[..k], lines[k..];
    var a, b := LineOutcomes(pre), LineOutcomes(post);
    calc {
      Kept(LineOutcomes(pre + [line] + post));
      { OutcomesConcat(pre + [line], post); }
      Kept(LineOutcomes(pre + [line]) + b);
      { OutcomesConcat(pre, [line]); }
      Kept(a + [Skipped] + b);
      { KeptSkipped(a, b); }
      Kept(a + b);
      { OutcomesConcat(pre, post); assert pre + post == lines; }
      Kept(LineOutcomes(lines));
    }
  }

  lemma SkippedOutcome(line: string)
    requires Strip(line) == [] || '-' !in line
    ensures LineOutcomes([line]) == [Skipped]
  {
    SkippedExactly(line);
    assert [line][1..] == [];
  }

  lemma KeptSkipped(a: seq<LineOutcome>, b: seq<LineOutcome>)
    ensures Kept(a + [Skipped] + b) == Kept(a + b)
  {
    KeptConcat(a + [Skipped], b);
    KeptConcat(a, [Skipped]);
    KeptConcat(a, b);
    assert Kept([Skipped]) == [];
  }

  lemma OutcomesConcat(a: seq<string>, b: seq<string>)
    ensures LineOutcomes(a + b) == LineOutcomes(a) + LineOutcomes(b)
  {
    MapSeqConcat(ParseShareLine, a, b);
  }

  // ---------------------------------------------------------------------
  // The line format, written and read back

  /** The line `<x>-<y>` for x in decimal and y in lowercase hex. */
  function FormatShare(x: nat, y: nat): string {
    ToDigits(x, 10) + "-" + ToDigits(y, 16)
  }

  /** Every line written by `FormatShare` parses back to its share. */
  lemma FormatShareRoundTrip(x: nat, y: nat)
    ensures ParseShareLine(FormatShare(x, y)) == Parsed(Share(x, y))
  {
    var dx, dy := ToDigits(x, 10), ToDigits(y, 16);
    var line := FormatShare(x, y);
    assert line == dx + ['-'] + dy;
    ToDigitsAreDigits(x, 10);
    ToDigitsAreDigits(y, 16);
    NoDash(dx);
    DigitEnds(dx, dy);
    StripNothing(line);
    SplitFirstUnique(line, '-', dx, dy);
    ParseToDigits(x, 10);
    ParseToDigits(y, 16);
    SplitLine(line, dx, dy);
    ParsedFields(dx, dy, x, y);
  }

  /** A stripped line that has a '-' is read as the two parts around its first '-'. */
  lemma SplitLine(line: string, before: string, after: string)
    requires Strip(line) == line && SplitFirst(line, '-') == Some((before, after))
    ensures ParseShareLine(line) == ParseFields(before, after)
  {
    assert '-' in line;
  }

  /** Two parts `int()` reads are parsed to that share. */
  lemma ParsedFields(before: string, after: string, x: int, y: int)
    requires ParseInt(before, 10) == Some(x) && ParseInt(after, 16) == Some(y)
    ensures ParseFields(before, after) == Parsed(Share(x, y))
  {
  }

  lemma DigitEnds(dx: string, dy: string)
    requires |dx| >= 1 && |dy| >= 1
    requires IsDigit(dx[0], 10) && IsDigit(dy[|dy| - 1], 16)
    ensures (var line := dx + ['-'] + dy; !IsSpace(line[0]) && !IsSpace(line[|line| - 1]))
  {
  }

  lemma NoDash(d: string)
    requires forall i :: 0 <= i < |d| ==> IsDigit(d[i], 10)
    ensures '-' !in d
  {
    forall i | 0 <= i < |d|
      ensures d[i] != '-'
    {
      assert IsDigit(d[i], 10);
    }
  }

  // ---------------------------------------------------------------------
  // The recovered secret in hex

  /** `hex(n)[2:].rjust(width, '0')`. */
  function PadHex(n: nat, width: nat): string {
    RightJustify(ToDigits(n, 16), width, '0')
  }

  /**
   * Below 16^width the padded hex has exactly width characters, and in all
   * cases it reads back as n.
   */
  lemma PadHexProperties(n: nat, width: nat)
    ensures width >= 1 && n < Pow(16, width) ==> |PadHex(n, width)| == width
    ensures ParseInt(PadHex(n, width), 16) == Some(n)
  {
    if width >= 1 && n < Pow(16, width) {
      ToDigitsLength(n, 16, width);
    }
    ParsePadded(n, 16, width);
  }

  // ---------------------------------------------------------------------
  // main

  /** Why the script stops without printing a secret. */
  datatype Failure =
    | MalformedLine(index: nat)   // `int()` raised `ValueError` on this line
    | InsufficientShares          // fewer than two shares were parsed
    | ZeroDenominator             // `modinv` raised `ZeroDivisionError`

  /** The secret as an integer and as the padded hex string the script prints. */
  datatype Recovered = Recovered(secret: int, hex: string)

  /**
   * `main` after the file is read: parse the lines, insist on two shares,
   * interpolate at 0 and render the secret as `width` hex digits.
   */
  method RecoverSecret(lines: seq<string>, prime: int, width: nat) returns (r: Result<Recovered, Failure>)
    requires prime > 1
    ensures ParseAll(lines).Err? ==> r == Err(MalformedLine(ParseAll(lines).error))
    ensures ParseAll(lines).Ok? && |ParseAll(lines).value| < 2 ==> r == Err(InsufficientShares)
    ensures ParseAll(lines).Ok? && |ParseAll(lines).value| >= 2 ==>
      (Interpolate(ParseAll(lines).value, prime).Err? ==> r == Err(ZeroDenominator))
    ensures ParseAll(lines).Ok? && |ParseAll(lines).value| >= 2 ==>
      (Interpolate(ParseAll(lines).value, prime).Ok? ==>
         var secret := Interpolate(ParseAll(lines).value, prime).value;
         r == Ok(Recovered(secret, PadHex(secret, width))))
    ensures r.Ok? ==> 0 <= r.value.secret < prime && ParseInt(r.value.hex, 16) == Some(r.value.secret)
    ensures r.Ok? && width >= 1 && prime <= Pow(16, width) ==> |r.value.hex| == width
  {
    var parsed := ParseShares(lines);
    if parsed.Err? {
      return Err(MalformedLine(parsed.error));
    }
    var shares := parsed.value;
    if |shares| < 2 {
      return Err(InsufficientShares);
    }
    var secret := LagrangeInterpolateAtZero(shares, prime);
    if secret.Err? {
      return Err(ZeroDenominator);
    }
    PadHexProperties(secret.value, width);
    return Ok(Recovered(secret.value, PadHex(secret.value, width)));
  }

  /**
   * End to end: a well-formed file of at least two shares at distinct
   * points modulo a prime, lying on a polynomial with no more coefficients
   * than there are shares, yields that polynomial's constant term.
   */
  lemma RecoverSecretFromFile(lines: seq<string>, prime: int, c: seq<int>)
    requires IsPrime(prime) && NoneMalformed(LineOutcomes(lines))
    requires (var s := Kept(LineOutcomes(lines));
      |s| >= 2 && DistinctPoints(s, prime) && |c| <= |s|
      && forall m :: 0 <= m < |s| ==> Eval(c, s[m].x) % prime == s[m].y % prime)
    ensures ParseAll(lines) == Ok(Kept(LineOutcomes(lines)))
    ensures Interpolate(Kept(LineOutcomes(lines)), prime) == Ok(ConstantTerm(c) % prime)
  {
    CollectMeaning(LineOutcomes(lines));
    RecoversConstantTerm(Kept(LineOutcomes(lines)), c, prime);
  }
}
