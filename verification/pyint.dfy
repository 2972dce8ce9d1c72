/**
 * Python's `int(s, base)` on a string, for the two bases the scripts use
 * (10 and 16), and the digit strings of `str(n)` and `hex(n)`.
 *
 * `int()` accepts surrounding whitespace, one sign, in base 16 an optional
 * `0x`/`0X` prefix that one underscore may follow, and single underscores
 * between digits; anything else raises `ValueError`, modelled as None.
 */
module PyInt {
  import opened Outcomes
  import opened PyText

  /**
   * The whitespace `int()` skips around a number.  `int()` first turns every
   * non-ASCII whitespace character into a space, then skips the ASCII
   * characters space, \t, \n, \v, \f and \r; the separators \x1c..\x1f,
   * which `str.isspace()` accepts, are rejected.
   */
  predicate IntSpace(c: char) {
    IsSpace(c) && !('\U{1C}' <= c <= '\U{1F}')
  }

  predicate ValidBase(base: nat) {
    base == 10 || base == 16
  }

  /** c is a digit in base (ASCII digits; letters of either case in base 16). */
  predicate IsDigit(c: char, base: nat)
    requires ValidBase(base)
  {
    ('0' <= c <= '9') || (base == 16 && (('a' <= c <= 'f') || ('A' <= c <= 'F')))
  }

  function DigitValue(c: char, base: nat): (d: nat)
    requires ValidBase(base) && IsDigit(c, base)
    ensures d < base
  {
    if '0' <= c <= '9' then c as int - '0' as int
    else if 'a' <= c <= 'f' then c as int - 'a' as int + 10
    else c as int - 'A' as int + 10
  }

  /** Every character is a digit or an underscore. */
  predicate DigitsOrUnderscores(b: string, base: nat)
    requires ValidBase(base)
  {
    forall i :: 0 <= i < |b| ==> b[i] == '_' || IsDigit(b[i], base)
  }

  /**
   * The digit part `int()` accepts: at least one digit, underscores only
   * singly and only between digits.
   */
  predicate WellFormedDigits(b: string, base: nat)
    requires ValidBase(base)
  {
    |b| > 0 && b[0] != '_' && b[|b| - 1] != '_' && DigitsOrUnderscores(b, base)
    && forall i :: 0 <= i < |b| - 1 ==> (b[i] == '_' ==> b[i + 1] != '_')
  }

  /** The value of a digit string, underscores ignored. */
  function DigitsValue(b: string, base: nat): nat
    requires ValidBase(base) && DigitsOrUnderscores(b, base)
  {
    if b == [] then 0
    else if b[|b| - 1] == '_' then DigitsValue(b[..|b| - 1], base)
    else DigitsValue(b[..|b| - 1], base) * base + DigitValue(b[|b| - 1], base)
  }

  /** What is left of a stripped, unsigned numeral once `int()` drops its base prefix. */
  function DropPrefix(u: string, base: nat): string {
    if base == 16 && |u| >= 2 && u[0] == '0' && (u[1] == 'x' || u[1] == 'X') then
      if |u| >= 3 && u[2] == '_' then u[3..] else u[2..]
    else u
  }

  /** `int(s, base)`, or None where Python raises `ValueError`. */
  function ParseInt(s: string, base: nat): Option<int>
    requires ValidBase(base)
  {
    var t := TrimRight(TrimLeft(s, IntSpace), IntSpace);
    var negative := |t| > 0 && t[0] == '-';
    var u := if |t| > 0 && (t[0] == '+' || t[0] == '-') then t[1..] else t;
    var b := DropPrefix(u, base);
    if WellFormedDigits(b, base) then
      var v: int := DigitsValue(b, base);
      Some(if negative then -v else v)
    else
      None
  }

  /** Without a '-' in it, a numeral that `int()` accepts is not negative. */
  lemma UnsignedNatural(s: string, base: nat)
    requires ValidBase(base) && '-' !in s
    ensures ParseInt(s, base).Some? ==> ParseInt(s, base).value >= 0
  {
    var t := TrimRight(TrimLeft(s, IntSpace), IntSpace);
    assert !IntSpace('-');
    assert '-' !in t;
  }

  // ---------------------------------------------------------------------
  // Writing numbers

  /** The lowercase digit for d. */
  function DigitChar(d: nat): (c: char)
    requires d < 16
    ensures IsDigit(c, 16) && DigitValue(c, 16) == d
    ensures d < 10 ==> IsDigit(c, 10) && DigitValue(c, 10) == d
  {
    "0123456789abcdef"[d]
  }

  /**
   * The digits of n in base without leading zeros (a single "0" for 0):
   * `str(n)` in base 10, `hex(n)[2:]` in base 16.
   */
  function ToDigits(n: nat, base: nat): (s: string)
    requires ValidBase(base)
    ensures |s| >= 1
    decreases n
  {
    if n < base then [DigitChar(n)]
    else ToDigits(n / base, base) + [DigitChar(n % base)]
  }

  function Pow(b: nat, e: nat): nat {
    if e == 0 then 1 else b * Pow(b, e - 1)
  }

  /** ToDigits writes only digits. */
  lemma {:induction false} ToDigitsAreDigits(n: nat, base: nat)
    requires ValidBase(base)
    ensures forall i :: 0 <= i < |ToDigits(n, base)| ==> IsDigit(ToDigits(n, base)[i], base)
    decreases n
  {
    if n >= base {
      ToDigitsAreDigits(n / base, base);
    }
  }

  /** Reading the digits of n back gives n. */
  lemma {:induction false} ToDigitsValue(n: nat, base: nat)
    requires ValidBase(base)
    ensures DigitsOrUnderscores(ToDigits(n, base), base)
    ensures DigitsValue(ToDigits(n, base), base) == n
    decreases n
  {
    if n < base {
      var s := ToDigits(n, base);
      assert s[..0] == [];
    } else {
      var init, last := ToDigits(n / base, base), DigitChar(n % base);
      ToDigitsValue(n / base, base);
      assert ToDigits(n, base) == init + [last];
      DigitsValueAppend(init, last, base);
      DivMod(n, base);
    }
  }

  lemma ZeroTimesBase(base: nat)
    ensures 0 * base + 0 == 0
  {
  }

  /** One more digit at the end multiplies the value by the base and adds the digit. */
  lemma DigitsValueAppend(b: string, c: char, base: nat)
    requires ValidBase(base) && DigitsOrUnderscores(b, base) && IsDigit(c, base)
    ensures DigitsOrUnderscores(b + [c], base)
    ensures DigitsValue(b + [c], base) == DigitsValue(b, base) * base + DigitValue(c, base)
  {
    var s := b + [c];
    assert s[..|s| - 1] == b && s[|s| - 1] == c;
  }

  lemma DivMod(n: nat, base: nat)
    requires base > 0
    ensures n == (n / base) * base + n % base
  {
  }

  /** Below base^w the digits of n fit in w places. */
  lemma {:induction false} ToDigitsLength(n: nat, base: nat, w: nat)
    requires ValidBase(base) && w >= 1 && n < Pow(base, w)
    ensures |ToDigits(n, base)| <= w
    decreases w
  {
    if n >= base {
      assert Pow(base, 1) == base;
      assert w != 1;
      DivBelowPow(n, base, w);
      ToDigitsLength(n / base, base, w - 1);
    }
  }

  lemma DivBelowPow(n: nat, base: nat, w: nat)
    requires base > 1 && w >= 1 && n < Pow(base, w)
    ensures n / base < Pow(base, w - 1)
  {
    var pw, q := Pow(base, w - 1), n / base;
    assert Pow(base, w) == base * pw;
    DivMod(n, base);
    assert q * base < pw * base;
    MulCancelLess(q, pw, base);
  }

  lemma MulCancelLess(x: int, y: int, c: int)
    requires c > 0 && x * c < y * c
    ensures x < y
  {
  }

  /** Leading zeros do not change the value of a digit string. */
  lemma {:induction false} LeadingZeros(k: nat, b: string, base: nat)
    requires ValidBase(base) && DigitsOrUnderscores(b, base)
    ensures DigitsOrUnderscores(Repeat('0', k) + b, base)
    ensures DigitsValue(Repeat('0', k) + b, base) == DigitsValue(b, base)
    decreases |b|
  {
    var z := Repeat('0', k);
    if b == [] {
      assert z + b == z;
      Zeros(k, base);
    } else {
      var s := z + b;
      assert s[..|s| - 1] == z + b[..|b| - 1];
      LeadingZeros(k, b[..|b| - 1], base);
    }
  }

  lemma {:induction false} Zeros(k: nat, base: nat)
    requires ValidBase(base)
    ensures DigitsOrUnderscores(Repeat('0', k), base)
    ensures DigitsValue(Repeat('0', k), base) == 0
  {
    if k > 0 {
      Zeros(k - 1, base);
      DigitsValueAppend(Repeat('0', k - 1), '0', base);
      assert Repeat('0', k) == Repeat('0', k - 1) + ['0'];
      ZeroTimesBase(base);
    }
  }

  /**
   * A nonempty string of digits, with no sign, space, prefix or underscore,
   * is read by `int()` as its digit value.
   */
  lemma ParsePlainDigits(d: string, base: nat)
    requires ValidBase(base) && |d| >= 1
    requires forall i :: 0 <= i < |d| ==> IsDigit(d[i], base)
    ensures ParseInt(d, base) == Some(DigitsValue(d, base))
  {
    assert IsDigit(d[0], base) && IsDigit(d[|d| - 1], base);
    NothingToTrim(d);
    NoPrefix(d, base);
    PlainDigitsWellFormed(d, base);
    var t := TrimRight(TrimLeft(d, IntSpace), IntSpace);
    assert t == d && t[0] != '+' && t[0] != '-';
  }

  lemma NoPrefix(d: string, base: nat)
    requires ValidBase(base) && |d| >= 1
    requires forall i :: 0 <= i < |d| ==> IsDigit(d[i], base)
    ensures d[0] != '+' && d[0] != '-' && DropPrefix(d, base) == d
  {
    assert IsDigit(d[0], base);
    if |d| >= 2 {
      assert IsDigit(d[1], base);
    }
  }

  lemma PlainDigitsWellFormed(d: string, base: nat)
    requires ValidBase(base) && |d| >= 1
    requires forall i :: 0 <= i < |d| ==> IsDigit(d[i], base)
    ensures WellFormedDigits(d, base)
  {
    assert IsDigit(d[0], base) && IsDigit(d[|d| - 1], base);
  }

  lemma NothingToTrim(d: string)
    requires |d| >= 1 && '0' <= d[0] <= 'f' && '0' <= d[|d| - 1] <= 'f'
    ensures TrimRight(TrimLeft(d, IntSpace), IntSpace) == d
  {
    assert !IntSpace(d[0]) && !IntSpace(d[|d| - 1]);
    assert TrimLeft(d, IntSpace) == d;
  }

  /** `int(str(n)) == n` and `int(hex(n)[2:], 16) == n`. */
  lemma ParseToDigits(n: nat, base: nat)
    requires ValidBase(base)
    ensures ParseInt(ToDigits(n, base), base) == Some(n)
  {
    ToDigitsAreDigits(n, base);
    ToDigitsValue(n, base);
    ParsePlainDigits(ToDigits(n, base), base);
  }

  /** Digits left-padded with zeros still read back as n. */
  lemma ParsePadded(n: nat, base: nat, width: nat)
    requires ValidBase(base)
    ensures ParseInt(RightJustify(ToDigits(n, base), width, '0'), base) == Some(n)
  {
    var d := ToDigits(n, base);
    ToDigitsAreDigits(n, base);
    ToDigitsValue(n, base);
    if |d| < width {
      var k := width - |d|;
      assert RightJustify(d, width, '0') == Repeat('0', k) + d;
      LeadingZeros(k, d, base);
      ZerosThenDigits(k, d, base);
      ParsePlainDigits(Repeat('0', k) + d, base);
    } else {
      ParsePlainDigits(d, base);
    }
  }

  /** Zeros in front of digits leave only digits. */
  lemma ZerosThenDigits(k: nat, d: string, base: nat)
    requires ValidBase(base) && forall i :: 0 <= i < |d| ==> IsDigit(d[i], base)
    ensures forall i :: 0 <= i < k + |d| ==> IsDigit((Repeat('0', k) + d)[i], base)
  {
    var r := Repeat('0', k) + d;
    forall i | 0 <= i < k + |d|
      ensures IsDigit(r[i], base)
    {
      if i >= k {
        assert r[i] == d[i - k];
      }
    }
  }
}
