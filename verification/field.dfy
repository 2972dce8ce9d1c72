/**
 * Arithmetic modulo a positive modulus p, and the modular inverse of
 * miscellaneous/vx_underground_COMPLETE/decrypt.py (`modinv`).
 *
 * Every `%` in the source has the modulus (a positive number) on its right,
 * where Python's floor remainder and Dafny's Euclidean remainder coincide;
 * every `//` has two positive operands, where floor and Euclidean division
 * coincide too.
 */
module FieldArithmetic {
  import opened Outcomes

  /** The error the source raises as `ZeroDivisionError`. */
  datatype ArithError = DivisionByZero

  /** d divides n. */
  predicate Divides(d: int, n: int)
    requires d > 0
  {
    n % d == 0
  }

  /** p is a prime number. */
  ghost predicate IsPrime(p: int) {
    p > 1 && forall d :: 1 < d < p ==> !Divides(d, p)
  }

  /** The greatest common divisor, by Euclid's remainder sequence. */
  function Gcd(a: nat, b: nat): nat
    decreases a
  {
    if a == 0 then b else Gcd(b % a, a)
  }

  /**
   * The remainder sequence that the loop of `modinv` walks: while low > 1,
   * (lm, low, hm, high) becomes (hm - lm * q, high - low * q, lm, low) with
   * q = high / low; the result is the final lm.
   */
  function EuclidLoop(lm: int, low: int, hm: int, high: int): int
    requires 0 <= low < high
    decreases low
  {
    if low > 1 then
      RemainderStep(high, low);
      EuclidLoop(hm - lm * (high / low), high - low * (high / low), lm, low)
    else
      lm
  }

  lemma RemainderStep(high: int, low: int)
    requires 0 < low
    ensures high - low * (high / low) == high % low
    ensures 0 <= high - low * (high / low) < low
  {
    assert high == (high / low) * low + high % low;
  }

  /** The value `modinv(a, p)` returns when a is nonzero. */
  function EuclidInverse(a: int, p: int): int
    requires p > 1
  {
    EuclidLoop(1, a % p, 0, p) % p
  }

  /** What `modinv(a, p)` returns, or the error it raises. */
  function ModInverse(a: int, p: int): (r: Result<int, ArithError>)
    requires p > 1
    ensures r.Err? <==> a == 0
    ensures r.Ok? ==> 0 <= r.value < p
    ensures a != 0 && a % p == 0 ==> r == Ok(1)
    ensures a % p != 0 && Gcd(a % p, p) == 1 ==> (a * r.value) % p == 1
  {
    if a == 0 then Err(DivisionByZero)
    else
      EuclidInverseCorrect(a, p);
      Ok(EuclidInverse(a, p))
  }

  // ---------------------------------------------------------------------
  // Remainder facts (each lemma proves one small step; nonlinear goals are
  // kept apart so that the solver sees few products at a time)

  lemma MulAtLeast(k: int, p: int)
    requires k >= 1 && p > 0
    ensures k * p >= p
  {
  }

  lemma MulAtMost(k: int, p: int)
    requires k <= -1 && p > 0
    ensures k * p <= -p
  {
  }

  lemma MulAssoc(a: int, b: int, c: int)
    ensures a * (b * c) == (a * b) * c
  {
  }

  /** Euclidean division is unique. */
  lemma ModUnique(n: int, p: int, q: int, r: int)
    requires p > 0 && n == q * p + r && 0 <= r < p
    ensures n % p == r && n / p == q
  {
    var k := q - n / p;
    assert n == (n / p) * p + n % p;
    assert k * p == q * p - (n / p) * p;
    assert k * p == n % p - r;
    if k > 0 {
      MulAtLeast(k, p);
    } else if k < 0 {
      MulAtMost(k, p);
    }
  }

  lemma ModAddMultiple(x: int, k: int, p: int)
    requires p > 0
    ensures (x + k * p) % p == x % p
  {
    var q := x / p;
    assert x == q * p + x % p;
    assert x + k * p == (q + k) * p + x % p;
    ModUnique(x + k * p, p, q + k, x % p);
  }

  lemma ModMulLeft(a: int, b: int, p: int)
    requires p > 0
    ensures ((a % p) * b) % p == (a * b) % p
  {
    var q, m := a / p, a % p;
    assert a == q * p + m;
    assert a * b == m * b + (q * b) * p;
    ModAddMultiple(m * b, q * b, p);
  }

  lemma ModMulRight(a: int, b: int, p: int)
    requires p > 0
    ensures (a * (b % p)) % p == (a * b) % p
  {
    ModMulLeft(b, a, p);
    assert (b % p) * a == a * (b % p);
    assert b * a == a * b;
  }

  lemma ModAddLeft(a: int, b: int, p: int)
    requires p > 0
    ensures ((a % p) + b) % p == (a + b) % p
  {
    var q := a / p;
    assert a == q * p + a % p;
    ModAddMultiple((a % p) + b, q, p);
  }

  // ---------------------------------------------------------------------
  // Divisibility

  lemma DividesCombination(d: int, u: int, v: int, s: int, t: int)
    requires d > 0 && Divides(d, u) && Divides(d, v)
    ensures Divides(d, s * u + t * v)
  {
    var ku, kv := u / d, v / d;
    assert u == ku * d;
    assert v == kv * d;
    assert s * u == (s * ku) * d;
    assert t * v == (t * kv) * d;
    assert s * u + t * v == (s * ku + t * kv) * d + 0;
    ModUnique(s * u + t * v, d, s * ku + t * kv, 0);
  }

  /** A positive multiple of d is at least d. */
  lemma DivisorBound(d: int, n: int)
    requires d > 0 && n > 0 && Divides(d, n)
    ensures d <= n
  {
    var k := n / d;
    assert n == k * d;
    assert k >= 1;
    MulAtLeast(k, d);
  }

  /** Gcd(a, b) is a common divisor of a and b. */
  lemma {:induction false} GcdDivides(a: nat, b: nat)
    requires a > 0 || b > 0
    ensures Gcd(a, b) > 0 && Divides(Gcd(a, b), a) && Divides(Gcd(a, b), b)
    decreases a
  {
    if a == 0 {
      assert Divides(b, 0);
    } else {
      var g := Gcd(b % a, a);
      GcdDivides(b % a, a);
      assert b == (b / a) * a + b % a;
      DividesCombination(g, a, b % a, b / a, 1);
    }
  }

  /** Every common divisor of a and b divides Gcd(a, b). */
  lemma {:induction false} GcdGreatest(a: nat, b: nat, d: int)
    requires d > 0 && Divides(d, a) && Divides(d, b)
    ensures Divides(d, Gcd(a, b))
    decreases a
  {
    if a != 0 {
      var q, r := b / a, b % a;
      DivModParts(b, a);
      DividesCombination(d, b, a, 1, -q);
      assert 1 * b + (-q) * a == r;
      GcdGreatest(r, a, d);
    }
  }

  /** b is its quotient by a times a, plus its remainder. */
  lemma DivModParts(b: int, a: int)
    requires a != 0
    ensures b == (b / a) * a + b % a
  {
  }

  /** A nonzero residue is coprime to a prime modulus. */
  lemma PrimeCoprime(a: int, p: int)
    requires IsPrime(p) && a % p != 0
    ensures Gcd(a % p, p) == 1
  {
    var g := Gcd(a % p, p);
    GcdDivides(a % p, p);
    DivisorBound(g, p);
    DivisorBound(g, a % p);
    assert !(1 < g < p);
  }

  /** Euclid's lemma: a prime dividing a product divides one of the factors. */
  lemma PrimeDividesProduct(a: int, b: int, p: int)
    requires IsPrime(p) && (a * b) % p == 0
    ensures a % p == 0 || b % p == 0
  {
    if a % p != 0 {
      PrimeCoprime(a, p);
      EuclidInverseCorrect(a, p);
      var inv := EuclidInverse(a, p);
      CancelLeft(a, b % p, inv, p);
      assert ((b % p) * (a * inv)) % p == b % p;
      ProductVanishes(a, b, inv, p);
    }
  }

  lemma ProductVanishes(a: int, b: int, c: int, p: int)
    requires p > 1 && (a * b) % p == 0
    ensures ((b % p) * (a * c)) % p == 0
  {
    var ab, ac := a * b, a * c;
    calc {
      ((b % p) * ac) % p;
      { ModMulLeft(b, ac, p); }
      (b * ac) % p;
      { MulRotate(a, b, c); }
      (ab * c) % p;
      { ModMulLeft(ab, c, p); }
      ((ab % p) * c) % p;
      { ZeroTimes(c); }
      0 % p;
    }
  }

  lemma MulRotate(a: int, b: int, c: int)
    ensures b * (a * c) == (a * b) * c
  {
    MulAssoc(b, a, c);
    assert b * a == a * b;
  }

  lemma ZeroTimes(c: int)
    ensures 0 * c == 0
  {
  }

  /** A residue has at most one inverse in [0, p). */
  lemma InverseUnique(a: int, b: int, c: int, p: int)
    requires p > 1 && 0 <= b < p && 0 <= c < p
    requires (a * b) % p == 1 && (a * c) % p == 1
    ensures b == c
  {
    CancelLeft(a, b, c, p);
    CancelRight(a, b, c, p);
  }

  lemma CancelLeft(a: int, b: int, c: int, p: int)
    requires p > 1 && 0 <= b < p && (a * c) % p == 1
    ensures (b * (a * c)) % p == b
  {
    var ac := a * c;
    ModMulRight(b, ac, p);
    assert b * (ac % p) == b;
    ModUnique(b, p, 0, b);
  }

  lemma CancelRight(a: int, b: int, c: int, p: int)
    requires p > 1 && 0 <= c < p && (a * b) % p == 1
    ensures (b * (a * c)) % p == c
  {
    MulAssoc(b, a, c);
    assert b * a == a * b;
    ModMulLeft(a * b, c, p);
  }

  // ---------------------------------------------------------------------
  // modinv

  /**
   * The source's `modinv`: an iterative extended Euclid over the remainder
   * sequence of (a % p, p), tracking the coefficient of a.  Only a literal
   * zero is rejected; a nonzero multiple of p skips the loop and yields 1.
   */
  method ModInv(a: int, p: int) returns (r: Result<int, ArithError>)
    requires p > 1
    ensures r == ModInverse(a, p)
    ensures r.Err? <==> a == 0
    ensures r.Ok? ==> 0 <= r.value < p
    ensures a != 0 && a % p == 0 ==> r == Ok(1)
    ensures a % p != 0 && Gcd(a % p, p) == 1 ==> (a * r.value) % p == 1
  {
    if a == 0 {
      return Err(DivisionByZero);
    }
    var lm, hm := 1, 0;
    var low, high := a % p, p;
    while low > 1
      invariant 0 <= low < high
      invariant EuclidLoop(lm, low, hm, high) == EuclidLoop(1, a % p, 0, p)
      decreases low
    {
      var q := high / low;
      var nm, next := hm - lm * q, high - low * q;
      RemainderStep(high, low);
      assert EuclidLoop(lm, low, hm, high) == EuclidLoop(nm, next, lm, low);
      lm, low, hm, high := nm, next, lm, low;
    }
    EuclidInverseCorrect(a, p);
    return Ok(lm % p);
  }

  /**
   * What `modinv` computes: 1 for a multiple of p, and otherwise, whenever
   * a is coprime to p, the inverse of a modulo p.
   */
  lemma EuclidInverseCorrect(a: int, p: int)
    requires p > 1
    ensures 0 <= EuclidInverse(a, p) < p
    ensures a % p == 0 ==> EuclidInverse(a, p) == 1
    ensures a % p != 0 && Gcd(a % p, p) == 1 ==> (a * EuclidInverse(a, p)) % p == 1
  {
    if a % p == 0 {
      ModUnique(1, p, 0, 1);
    } else if Gcd(a % p, p) == 1 {
      EuclidStart(a, p);
      EuclidLoopInverse(a, p, 1, a % p, 0, p);
    }
  }

  /**
   * The loop of `modinv` keeps lm * a = low and hm * a = high modulo p, and
   * the gcd of (low, high); when that gcd is 1 it stops at low = 1, where lm
   * is an inverse of a.
   */
  lemma {:induction false} EuclidLoopInverse(a: int, p: int, lm: int, low: int, hm: int, high: int)
    requires p > 1 && 1 <= low < high && Gcd(low, high) == 1
    requires Divides(p, lm * a - low) && Divides(p, hm * a - high)
    ensures (a * (EuclidLoop(lm, low, hm, high) % p)) % p == 1
    decreases low
  {
    if low > 1 {
      var q := high / low;
      EuclidStep(a, p, lm, hm, low, high, q);
      RemainderStep(high, low);
      assert Gcd(high % low, low) == 1;
      assert high % low != 0 by {
        assert Gcd(0, low) == low;
      }
      assert EuclidLoop(lm, low, hm, high) == EuclidLoop(hm - lm * q, high - low * q, lm, low);
      EuclidLoopInverse(a, p, hm - lm * q, high - low * q, lm, low);
    } else {
      EuclidFinish(a, p, lm);
    }
  }

  /** The congruences of `EuclidLoopInverse` hold on entry to the loop. */
  lemma EuclidStart(a: int, p: int)
    requires p > 1
    ensures Divides(p, 1 * a - a % p) && Divides(p, 0 * a - p)
  {
    assert a == (a / p) * p + a % p;
    DividesCombination(p, p, p, a / p, 0);
    DividesCombination(p, p, p, -1, 0);
  }

  /** One step of the remainder sequence keeps the two congruences, whatever the quotient q. */
  lemma EuclidStep(a: int, p: int, lm: int, hm: int, low: int, high: int, q: int)
    requires p > 0
    requires Divides(p, lm * a - low) && Divides(p, hm * a - high)
    ensures Divides(p, (hm - lm * q) * a - (high - low * q))
  {
    var u, v := hm * a - high, lm * a - low;
    DividesCombination(p, u, v, 1, -q);
    StepAlgebra(a, lm, hm, low, high, q, u, v);
  }

  lemma StepAlgebra(a: int, lm: int, hm: int, low: int, high: int, q: int, u: int, v: int)
    requires u == hm * a - high && v == lm * a - low
    ensures (hm - lm * q) * a - (high - low * q) == 1 * u + (-q) * v
  {
    assert (hm - lm * q) * a == hm * a - (lm * q) * a;
    assert (lm * q) * a == q * (lm * a);
    assert low * q == q * low;
  }

  /** When the remainder sequence stops at 1, lm is an inverse of a. */
  lemma EuclidFinish(a: int, p: int, lm: int)
    requires p > 1 && Divides(p, lm * a - 1)
    ensures (a * (lm % p)) % p == 1
  {
    var n := lm * a - 1;
    var k := n / p;
    DivExact(n, p);
    assert a * lm == 1 + k * p by {
      assert a * lm == lm * a;
    }
    calc {
      (a * (lm % p)) % p;
      { ModMulRight(a, lm, p); }
      (a * lm) % p;
      (1 + k * p) % p;
      { ModAddMultiple(1, k, p); }
      1 % p;
    }
  }

  lemma DivExact(n: int, p: int)
    requires p > 0 && n % p == 0
    ensures n == (n / p) * p
  {
  }
}
