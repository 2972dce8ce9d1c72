/**
 * Polynomials with integer coefficients, as coefficient lists with the
 * constant term first.  They are the mathematical side of Shamir's scheme:
 * a secret is the constant term of a polynomial, and a share is the value of
 * that polynomial at a point.  The central fact is `Vanishing`: modulo a
 * prime, a polynomial with fewer coefficients than it has distinct roots is
 * zero everywhere.
 */
module Polynomial {
  import opened FieldArithmetic

  type Poly = seq<int>

  /** The value of c at x (Horner's rule). */
  function Eval(c: Poly, x: int): int
    decreases |c|
  {
    if c == [] then 0 else c[0] + x * Eval(c[1..], x)
  }

  /** Coefficient-wise sum. */
  function Add(a: Poly, b: Poly): (r: Poly)
    ensures |r| == (if |a| < |b| then |b| else |a|)
  {
    if a == [] then b
    else if b == [] then a
    else [a[0] + b[0]] + Add(a[1..], b[1..])
  }

  /** Every coefficient multiplied by k. */
  function Scale(k: int, a: Poly): (r: Poly)
    ensures |r| == |a|
  {
    if a == [] then [] else [k * a[0]] + Scale(k, a[1..])
  }

  /** The product (X - r) * a. */
  function MulLinear(a: Poly, r: int): (m: Poly)
    ensures |m| == |a| + 1
  {
    Add([0] + a, Scale(-r, a))
  }

  /** a - b. */
  function Sub(a: Poly, b: Poly): (r: Poly)
    ensures |r| == (if |a| < |b| then |b| else |a|)
  {
    Add(a, Scale(-1, b))
  }

  /** The quotient of c by (X - a), by synthetic division. */
  function Quotient(c: Poly, a: int): (q: Poly)
    ensures |q| == (if c == [] then 0 else |c| - 1)
  {
    if |c| <= 1 then [] else Add(c[1..], Scale(a, Quotient(c[1..], a)))
  }

  lemma {:induction false} EvalAdd(a: Poly, b: Poly, x: int)
    ensures Eval(Add(a, b), x) == Eval(a, x) + Eval(b, x)
  {
    if a != [] && b != [] {
      var s := Add(a, b);
      assert s[1..] == Add(a[1..], b[1..]);
      EvalAdd(a[1..], b[1..], x);
      Distribute(x, Eval(a[1..], x), Eval(b[1..], x));
    }
  }

  lemma {:induction false} EvalScale(k: int, a: Poly, x: int)
    ensures Eval(Scale(k, a), x) == k * Eval(a, x)
  {
    if a != [] {
      var s := Scale(k, a);
      assert s[1..] == Scale(k, a[1..]);
      EvalScale(k, a[1..], x);
      ScaleStep(k, a[0], x, Eval(a[1..], x));
    }
  }

  lemma EvalMulLinear(a: Poly, r: int, x: int)
    ensures Eval(MulLinear(a, r), x) == (x - r) * Eval(a, x)
  {
    var shifted := [0] + a;
    assert shifted[1..] == a;
    EvalAdd(shifted, Scale(-r, a), x);
    EvalScale(-r, a, x);
    Distribute(Eval(a, x), x, -r);
  }

  lemma EvalSub(a: Poly, b: Poly, x: int)
    ensures Eval(Sub(a, b), x) == Eval(a, x) - Eval(b, x)
  {
    EvalAdd(a, Scale(-1, b), x);
    EvalScale(-1, b, x);
  }

  /** Synthetic division leaves the value at a as remainder. */
  lemma {:induction false} EvalQuotient(c: Poly, a: int, x: int)
    ensures Eval(c, x) == (x - a) * Eval(Quotient(c, a), x) + Eval(c, a)
  {
    if |c| == 1 {
      assert c[1..] == [];
    } else if |c| > 1 {
      var rest := c[1..];
      var q' := Quotient(rest, a);
      EvalQuotient(rest, a, x);
      EvalAdd(rest, Scale(a, q'), x);
      EvalScale(a, q', x);
      QuotientStep(c[0], x, a, Eval(rest, x), Eval(rest, a), Eval(q', x));
    }
  }

  lemma Distribute(x: int, u: int, v: int)
    ensures x * (u + v) == x * u + x * v
  {
  }

  lemma ScaleStep(k: int, c: int, x: int, e: int)
    ensures k * c + x * (k * e) == k * (c + x * e)
  {
  }

  lemma QuotientStep(c0: int, x: int, a: int, ex: int, ea: int, eq: int)
    requires ex == (x - a) * eq + ea
    ensures c0 + x * ex == (x - a) * (ex + a * eq) + (c0 + a * ea)
  {
    calc {
      (x - a) * (ex + a * eq) + (c0 + a * ea);
      (x - a) * ex + a * ((x - a) * eq) + c0 + a * ea;
      (x - a) * ex + a * (ex - ea) + c0 + a * ea;
      c0 + x * ex;
    }
  }

  // ---------------------------------------------------------------------
  // Roots modulo a prime

  /** The entries of xs are pairwise distinct modulo p. */
  ghost predicate DistinctModulo(xs: seq<int>, p: int)
    requires p > 0
  {
    forall i, j :: 0 <= i < j < |xs| ==> xs[i] % p != xs[j] % p
  }

  /**
   * Modulo a prime, a polynomial of degree below n that vanishes at n points
   * distinct modulo p vanishes everywhere.
   */
  lemma {:induction false} Vanishing(c: Poly, xs: seq<int>, p: int)
    requires IsPrime(p) && |c| <= |xs| && DistinctModulo(xs, p)
    requires forall i :: 0 <= i < |xs| ==> Eval(c, xs[i]) % p == 0
    ensures forall x :: Eval(c, x) % p == 0
    decreases |xs|
  {
    if c == [] {
      return;
    }
    var n := |xs|;
    var a := xs[n - 1];
    var q := Quotient(c, a);
    var init := xs[..n - 1];
    assert Eval(c, a) % p == 0;
    forall i | 0 <= i < |init|
      ensures Eval(q, init[i]) % p == 0
    {
      assert init[i] == xs[i];
      QuotientRoot(c, a, xs[i], p);
    }
    Vanishing(q, init, p);
    forall x
      ensures Eval(c, x) % p == 0
    {
      QuotientVanishes(c, a, x, p);
    }
  }

  /** A root of c other than a, modulo a prime, is a root of c / (X - a). */
  lemma QuotientRoot(c: Poly, a: int, x: int, p: int)
    requires IsPrime(p) && x % p != a % p
    requires Eval(c, x) % p == 0 && Eval(c, a) % p == 0
    ensures Eval(Quotient(c, a), x) % p == 0
  {
    EvalQuotient(c, a, x);
    RootOfFactor(x, a, Eval(Quotient(c, a), x), Eval(c, x), Eval(c, a), p);
  }

  /** If c / (X - a) vanishes everywhere and c vanishes at a, c vanishes everywhere. */
  lemma QuotientVanishes(c: Poly, a: int, x: int, p: int)
    requires p > 1 && Eval(c, a) % p == 0
    requires forall y :: Eval(Quotient(c, a), y) % p == 0
    ensures Eval(c, x) % p == 0
  {
    var e, r := Eval(Quotient(c, a), x), Eval(c, a);
    EvalQuotient(c, a, x);
    assert e % p == 0;
    MultipleOfRoot(x - a, e, r, p);
  }

  /** If (x - a) * e + r and r vanish modulo a prime and x, a differ, e vanishes. */
  lemma RootOfFactor(x: int, a: int, e: int, v: int, r: int, p: int)
    requires IsPrime(p) && x % p != a % p
    requires v == (x - a) * e + r && v % p == 0 && r % p == 0
    ensures e % p == 0
  {
    DividesCombination(p, v, r, 1, -1);
    assert ((x - a) * e) % p == 0;
    DifferenceNonzero(x, a, p);
    PrimeDividesProduct(x - a, e, p);
  }

  lemma DifferenceNonzero(x: int, a: int, p: int)
    requires p > 0 && x % p != a % p
    ensures (x - a) % p != 0
  {
    ModAddLeft(x - a, a, p);
  }

  /** d * e + r vanishes modulo p when e and r do. */
  lemma MultipleOfRoot(d: int, e: int, r: int, p: int)
    requires p > 1 && e % p == 0 && r % p == 0
    ensures (d * e + r) % p == 0
  {
    DividesCombination(p, e, r, d, 1);
  }
}
