/**
 * Lagrange interpolation at x = 0 over the integers modulo a prime, the
 * `lagrange_interpolate_at_zero` of
 * miscellaneous/vx_underground_COMPLETE/decrypt.py.
 *
 * For share i the source accumulates, over every other share j,
 *   num = prod (-x_j)          and   den = prod (x_i - x_j)      (mod p)
 * then adds y_i * num * inverse(den) to the running total.  `Interpolate`
 * states that value; `LagrangeInterpolateAtZero` is the loop that computes
 * it; the lemmas say what it means: the constant term of any polynomial of
 * degree below the number of shares that passes through them.
 */
module Interpolator {
  import opened Outcomes
  import opened FieldArithmetic
  import opened Polynomial

  /** A share: a point x and the value y of the hidden polynomial there. */
  datatype Share = Share(x: int, y: int)

  /** The x-coordinates of the shares. */
  function Xs(s: seq<Share>): (xs: seq<int>)
    ensures |xs| == |s| && forall i :: 0 <= i < |s| ==> xs[i] == s[i].x
  {
    seq(|s|, i requires 0 <= i < |s| => s[i].x)
  }

  /** No two shares sit at the same point modulo p. */
  ghost predicate DistinctPoints(s: seq<Share>, p: int)
    requires p > 0
  {
    DistinctModulo(Xs(s), p)
  }

  /** prod over j < k, j != i, of (X - x_j). */
  function ProdExcept(s: seq<Share>, i: int, X: int, k: nat): int
    requires k <= |s|
  {
    if k == 0 then 1
    else ProdExcept(s, i, X, k - 1) * (if k - 1 == i then 1 else X - s[k - 1].x)
  }

  /** The numerator of share i: prod over j != i of (-x_j), reduced. */
  function Num(s: seq<Share>, i: int, p: int): int
    requires p > 0
  {
    ProdExcept(s, i, 0, |s|) % p
  }

  /** The denominator of share i: prod over j != i of (x_i - x_j), reduced. */
  function Den(s: seq<Share>, i: int, p: int): int
    requires 0 <= i < |s| && p > 0
  {
    ProdExcept(s, i, s[i].x, |s|) % p
  }

  /** The contribution of share i: y_i * num * inverse(den). */
  function Term(s: seq<Share>, i: int, p: int): int
    requires 0 <= i < |s| && p > 1
  {
    s[i].y * Num(s, i, p) * EuclidInverse(Den(s, i, p), p)
  }

  /** The sum of the contributions of the first k shares. */
  function TermSum(s: seq<Share>, p: int, k: nat): int
    requires k <= |s| && p > 1
  {
    if k == 0 then 0 else TermSum(s, p, k - 1) + Term(s, k - 1, p)
  }

  /** Some share has a denominator that vanishes modulo p. */
  ghost predicate ZeroDenominator(s: seq<Share>, p: int)
    requires p > 0
  {
    exists i :: 0 <= i < |s| && Den(s, i, p) == 0
  }

  /** What the source's interpolation returns, or the error it raises. */
  ghost function Interpolate(s: seq<Share>, p: int): (r: Result<int, ArithError>)
    requires p > 1
    ensures r.Err? <==> ZeroDenominator(s, p)
    ensures r.Err? ==> r.error == DivisionByZero
    ensures r.Ok? ==> 0 <= r.value < p
  {
    if ZeroDenominator(s, p) then Err(DivisionByZero) else Ok(TermSum(s, p, |s|) % p)
  }

  /** The constant term of a polynomial, its value at 0. */
  function ConstantTerm(c: Poly): int {
    if c == [] then 0 else c[0]
  }

  // ---------------------------------------------------------------------
  // The source's loops

  /**
   * `lagrange_interpolate_at_zero`: the outer loop of the source, with
   * `modinv` raising on a zero denominator.
   */
  method LagrangeInterpolateAtZero(shares: seq<Share>, prime: int) returns (r: Result<int, ArithError>)
    requires prime > 1
    ensures r == Interpolate(shares, prime)
    ensures r.Ok? ==> 0 <= r.value < prime
  {
    var total := 0;
    var i := 0;
    while i < |shares|
      invariant 0 <= i <= |shares|
      invariant forall k :: 0 <= k < i ==> Den(shares, k, prime) != 0
      invariant total == TermSum(shares, prime, i) % prime
    {
      var num, den := BasisAtZero(shares, i, prime);
      var inv := ModInv(den, prime);
      if inv.Err? {
        ZeroDenominatorAt(shares, prime, i);
        assert inv.error == DivisionByZero;
        return Err(inv.error);
      }
      var term := shares[i].y * num * inv.value;
      SumStep(shares, prime, i, total, inv.value, term);
      total := (total + term) % prime;
      i := i + 1;
    }
    AllDenominatorsNonzero(shares, prime, total);
    return Ok(total);
  }

  /**
   * The inner loop of the source for share i: the numerator and denominator
   * of its Lagrange coefficient at 0, reduced modulo the prime after every
   * factor.
   */
  method BasisAtZero(shares: seq<Share>, i: nat, prime: int) returns (num: int, den: int)
    requires i < |shares| && prime > 1
    ensures num == Num(shares, i, prime) && den == Den(shares, i, prime)
    ensures 0 <= num < prime && 0 <= den < prime
  {
    var xi := shares[i].x;
    num, den := 1, 1;
    var j := 0;
    while j < |shares|
      invariant 0 <= j <= |shares|
      invariant num == ProdExcept(shares, i, 0, j) % prime
      invariant den == ProdExcept(shares, i, xi, j) % prime
    {
      var xj := shares[j].x;
      ProductStep(shares, i, 0, j, prime, num, -xj);
      ProductStep(shares, i, xi, j, prime, den, xi - xj);
      if i != j {
        num := (num * (-xj)) % prime;
        den := (den * (xi - xj)) % prime;
      }
      j := j + 1;
    }
  }

  /** One pass of the inner loop of `LagrangeInterpolateAtZero`. */
  lemma ProductStep(s: seq<Share>, i: int, X: int, j: nat, p: int, acc: int, f: int)
    requires p > 1 && j < |s|
    requires acc == ProdExcept(s, i, X, j) % p && f == X - s[j].x
    ensures i != j ==> (acc * f) % p == ProdExcept(s, i, X, j + 1) % p
    ensures i == j ==> acc == ProdExcept(s, i, X, j + 1) % p
  {
    if i != j {
      ModMulLeft(ProdExcept(s, i, X, j), f, p);
    }
  }

  /** One pass of the outer loop of `LagrangeInterpolateAtZero`. */
  lemma SumStep(s: seq<Share>, p: int, i: nat, total: int, inv: int, term: int)
    requires p > 1 && i < |s|
    requires total == TermSum(s, p, i) % p
    requires inv == EuclidInverse(Den(s, i, p), p)
    requires term == s[i].y * Num(s, i, p) * inv
    ensures (total + term) % p == TermSum(s, p, i + 1) % p
  {
    assert TermSum(s, p, i + 1) == TermSum(s, p, i) + term;
    ModAddLeft(TermSum(s, p, i), term, p);
  }

  /** A nonzero residue modulo a prime is its own reduction and is coprime to it. */
  lemma ReducedUnit(a: int, p: int)
    requires IsPrime(p) && 0 < a < p
    ensures a % p == a && a % p != 0 && Gcd(a % p, p) == 1
  {
    ModUnique(a, p, 0, a);
    PrimeCoprime(a, p);
  }

  lemma ZeroDenominatorAt(s: seq<Share>, p: int, i: int)
    requires p > 1 && 0 <= i < |s| && Den(s, i, p) == 0
    ensures Interpolate(s, p) == Err(DivisionByZero)
  {
  }

  lemma AllDenominatorsNonzero(s: seq<Share>, p: int, total: int)
    requires p > 1
    requires forall k :: 0 <= k < |s| ==> Den(s, k, p) != 0
    requires total == TermSum(s, p, |s|) % p
    ensures Interpolate(s, p) == Ok(total)
  {
  }

  // ---------------------------------------------------------------------
  // Zero denominators

  /** A factor that vanishes modulo p makes the whole product vanish. */
  lemma {:induction false} ProdExceptVanishes(s: seq<Share>, i: int, X: int, j: int, k: nat, p: int)
    requires p > 1 && k <= |s| && 0 <= j < k && j != i && (X - s[j].x) % p == 0
    ensures ProdExcept(s, i, X, k) % p == 0
  {
    var f := if k - 1 == i then 1 else X - s[k - 1].x;
    assert ProdExcept(s, i, X, k) == ProdExcept(s, i, X, k - 1) * f;
    if j == k - 1 {
      ZeroFactorRight(ProdExcept(s, i, X, k - 1), f, p);
    } else {
      ProdExceptVanishes(s, i, X, j, k - 1, p);
      ZeroFactorLeft(ProdExcept(s, i, X, k - 1), f, p);
    }
  }

  lemma ZeroFactorRight(u: int, v: int, p: int)
    requires p > 0 && v % p == 0
    ensures (u * v) % p == 0
  {
    ModMulRight(u, v, p);
  }

  lemma ZeroFactorLeft(u: int, v: int, p: int)
    requires p > 0 && u % p == 0
    ensures (u * v) % p == 0
  {
    ModMulLeft(u, v, p);
  }

  /** Modulo a prime, a product of nonvanishing factors does not vanish. */
  lemma {:induction false} ProdExceptNonzero(s: seq<Share>, i: int, k: nat, p: int)
    requires IsPrime(p) && 0 <= i < |s| && k <= |s|
    requires forall j :: 0 <= j < k && j != i ==> s[i].x % p != s[j].x % p
    ensures ProdExcept(s, i, s[i].x, k) % p != 0
  {
    if k > 0 {
      ProdExceptNonzero(s, i, k - 1, p);
      var f := if k - 1 == i then 1 else s[i].x - s[k - 1].x;
      if k - 1 != i {
        DifferenceNonzero(s[i].x, s[k - 1].x, p);
      }
      if ProdExcept(s, i, s[i].x, k) % p == 0 {
        PrimeDividesProduct(ProdExcept(s, i, s[i].x, k - 1), f, p);
      }
    }
  }

  /** Two shares at the same point modulo p make the interpolation fail. */
  lemma CollisionGivesZeroDenominator(s: seq<Share>, p: int, i: int, j: int)
    requires p > 1 && 0 <= i < |s| && 0 <= j < |s| && i != j && s[i].x % p == s[j].x % p
    ensures Den(s, i, p) == 0
    ensures Interpolate(s, p) == Err(DivisionByZero)
  {
    DifferenceNonzeroConverse(s[i].x, s[j].x, p);
    ProdExceptVanishes(s, i, s[i].x, j, |s|, p);
  }

  lemma DifferenceNonzeroConverse(x: int, a: int, p: int)
    requires p > 0 && x % p == a % p
    ensures (x - a) % p == 0
  {
    var d := x / p - a / p;
    assert x == (x / p) * p + x % p;
    assert a == (a / p) * p + a % p;
    assert x - a == d * p + 0;
    ModUnique(x - a, p, d, 0);
  }

  /**
   * Modulo a prime the interpolation raises a division by zero exactly when
   * two shares sit at the same point.
   */
  lemma ZeroDenominatorIffCollision(s: seq<Share>, p: int)
    requires IsPrime(p)
    ensures ZeroDenominator(s, p) <==> !DistinctPoints(s, p)
    ensures Interpolate(s, p).Err? <==> !DistinctPoints(s, p)
  {
    var xs := Xs(s);
    if !DistinctPoints(s, p) {
      var i, j :| 0 <= i < j < |xs| && xs[i] % p == xs[j] % p;
      CollisionGivesZeroDenominator(s, p, i, j);
    } else {
      forall i | 0 <= i < |s|
        ensures Den(s, i, p) != 0
      {
        forall j | 0 <= j < |s| && j != i
          ensures s[i].x % p != s[j].x % p
        {
          if j < i {
            assert xs[j] % p != xs[i] % p;
          } else {
            assert xs[i] % p != xs[j] % p;
          }
        }
        ProdExceptNonzero(s, i, |s|, p);
      }
    }
  }

  // ---------------------------------------------------------------------
  // Small cases

  /** With a single share (x, y) the result is y mod p. */
  lemma SingleShare(x: int, y: int, p: int)
    requires p > 1
    ensures Interpolate([Share(x, y)], p) == Ok(y % p)
  {
    var s := [Share(x, y)];
    assert ProdExcept(s, 0, 0, 1) == 1;
    assert ProdExcept(s, 0, x, 1) == 1;
    ModUnique(1, p, 0, 1);
    InverseOfOne(p);
    assert Term(s, 0, p) == y;
    assert TermSum(s, p, 1) == y;
    assert Den(s, 0, p) != 0;
  }

  lemma InverseOfOne(p: int)
    requires p > 1
    ensures EuclidInverse(1, p) == 1
  {
    ModUnique(1, p, 0, 1);
  }
}
