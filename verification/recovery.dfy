/**
 * What `lagrange_interpolate_at_zero` computes: modulo a prime, the constant
 * term of every polynomial with fewer coefficients than there are shares
 * that passes through all of them.  This is the property that makes Shamir's
 * scheme recover its secret.
 *
 * The proof builds the Lagrange polynomial L explicitly, as a coefficient
 * list, shows that it passes through every share and that L(0) is the sum
 * the source accumulates, and then applies `Polynomial.Vanishing` to the
 * difference of L and the dealer's polynomial.
 */
module LagrangeRecovery {
  import opened Outcomes
  import opened FieldArithmetic
  import opened Polynomial
  import opened Interpolator

  /** prod over j < k, j != i, of (X - x_j), as a polynomial in X. */
  function Nodal(s: seq<Share>, i: int, k: nat): (n: Poly)
    requires k <= |s|
    ensures |n| == (if 0 <= i < k then k else k + 1)
  {
    if k == 0 then [1]
    else if k - 1 == i then Nodal(s, i, k - 1)
    else MulLinear(Nodal(s, i, k - 1), s[k - 1].x)
  }

  /** The weight y_i * inverse(den_i) of the basis polynomial of share i. */
  function Weight(s: seq<Share>, i: int, p: int): int
    requires 0 <= i < |s| && p > 1
  {
    s[i].y * EuclidInverse(Den(s, i, p), p)
  }

  /** sum over i < k of Weight(i) * Nodal(i): the Lagrange polynomial when k = |s|. */
  function LagrangePoly(s: seq<Share>, p: int, k: nat): (l: Poly)
    requires k <= |s| && p > 1
    ensures |l| <= |s|
  {
    if k == 0 then []
    else Add(LagrangePoly(s, p, k - 1), Scale(Weight(s, k - 1, p), Nodal(s, k - 1, |s|)))
  }

  /** The value of `LagrangePoly(s, p, k)` at X, term by term. */
  function LagrangeSum(s: seq<Share>, p: int, X: int, k: nat): int
    requires k <= |s| && p > 1
  {
    if k == 0 then 0
    else LagrangeSum(s, p, X, k - 1) + Weight(s, k - 1, p) * ProdExcept(s, k - 1, X, |s|)
  }

  lemma {:induction false} EvalNodal(s: seq<Share>, i: int, X: int, k: nat)
    requires k <= |s|
    ensures Eval(Nodal(s, i, k), X) == ProdExcept(s, i, X, k)
  {
    if k == 0 {
      assert [1][1..] == [];
    } else {
      EvalNodal(s, i, X, k - 1);
      if k - 1 != i {
        var f := X - s[k - 1].x;
        EvalMulLinear(Nodal(s, i, k - 1), s[k - 1].x, X);
        assert ProdExcept(s, i, X, k) == ProdExcept(s, i, X, k - 1) * f;
        Commute(f, ProdExcept(s, i, X, k - 1));
      }
    }
  }

  lemma Commute(a: int, b: int)
    ensures a * b == b * a
  {
  }

  lemma {:induction false} EvalLagrangePoly(s: seq<Share>, p: int, X: int, k: nat)
    requires k <= |s| && p > 1
    ensures Eval(LagrangePoly(s, p, k), X) == LagrangeSum(s, p, X, k)
  {
    if k > 0 {
      EvalLagrangePoly(s, p, X, k - 1);
      var n, w := Nodal(s, k - 1, |s|), Weight(s, k - 1, p);
      EvalAdd(LagrangePoly(s, p, k - 1), Scale(w, n), X);
      EvalScale(w, n, X);
      EvalNodal(s, k - 1, X, |s|);
      assert LagrangePoly(s, p, k) == Add(LagrangePoly(s, p, k - 1), Scale(w, n));
      assert LagrangeSum(s, p, X, k) == LagrangeSum(s, p, X, k - 1) + w * ProdExcept(s, k - 1, X, |s|);
    }
  }

  // ---------------------------------------------------------------------
  // L(0) is the source's sum

  /** Each contribution the source adds agrees with the basis term at 0. */
  lemma TermAtZero(s: seq<Share>, p: int, i: int)
    requires 0 <= i < |s| && p > 1
    ensures Term(s, i, p) % p == (Weight(s, i, p) * ProdExcept(s, i, 0, |s|)) % p
  {
    var y, inv, P := s[i].y, EuclidInverse(Den(s, i, p), p), ProdExcept(s, i, 0, |s|);
    Rearrange(y, P % p, inv);
    Rearrange(y, P, inv);
    ModMulLeft(P, y * inv, p);
  }

  lemma Rearrange(y: int, n: int, v: int)
    ensures y * n * v == n * (y * v) && (y * v) * n == n * (y * v)
  {
  }

  lemma {:induction false} TermSumAtZero(s: seq<Share>, p: int, k: nat)
    requires k <= |s| && p > 1
    ensures TermSum(s, p, k) % p == LagrangeSum(s, p, 0, k) % p
  {
    if k > 0 {
      TermSumAtZero(s, p, k - 1);
      TermAtZero(s, p, k - 1);
      ModAddCongruent(TermSum(s, p, k - 1), Term(s, k - 1, p),
        LagrangeSum(s, p, 0, k - 1), Weight(s, k - 1, p) * ProdExcept(s, k - 1, 0, |s|), p);
    }
  }

  /** Sums of congruent terms are congruent. */
  lemma ModAddCongruent(a: int, b: int, a': int, b': int, p: int)
    requires p > 0 && a % p == a' % p && b % p == b' % p
    ensures (a + b) % p == (a' + b') % p
  {
    ModAddLeft(a, b, p);
    ModAddLeft(b, a % p, p);
    ModAddLeft(a', b', p);
    ModAddLeft(b', a' % p, p);
  }

  // ---------------------------------------------------------------------
  // L passes through every share

  /** The basis term of share i vanishes at the point of another share m. */
  lemma OtherTermVanishes(s: seq<Share>, p: int, i: int, m: int)
    requires p > 1 && 0 <= i < |s| && 0 <= m < |s| && i != m
    ensures (Weight(s, i, p) * ProdExcept(s, i, s[m].x, |s|)) % p == 0
  {
    ProdExceptVanishes(s, i, s[m].x, m, |s|, p);
    ZeroFactorRight(Weight(s, i, p), ProdExcept(s, i, s[m].x, |s|), p);
  }

  /** The basis term of share m is y_m at its own point. */
  lemma OwnTerm(s: seq<Share>, p: int, m: int)
    requires IsPrime(p) && 0 <= m < |s| && Den(s, m, p) != 0
    ensures (Weight(s, m, p) * ProdExcept(s, m, s[m].x, |s|)) % p == s[m].y % p
  {
    var y, d, inv, P := s[m].y, Den(s, m, p), EuclidInverse(Den(s, m, p), p), ProdExcept(s, m, s[m].x, |s|);
    ReducedUnit(d, p);
    EuclidInverseCorrect(d, p);
    assert (d * inv) % p == 1;
    ModMulRight(inv, P, p);
    assert (inv * P) % p == 1 by {
      assert inv * d == d * inv;
    }
    MulAssoc(y, inv, P);
    ModMulRight(y, inv * P, p);
  }

  lemma {:induction false} LagrangeSumAtShare(s: seq<Share>, p: int, m: int, k: nat)
    requires IsPrime(p) && k <= |s| && 0 <= m < |s| && Den(s, m, p) != 0
    ensures LagrangeSum(s, p, s[m].x, k) % p == (if m < k then s[m].y % p else 0)
  {
    if k > 0 {
      LagrangeSumAtShare(s, p, m, k - 1);
      var t := Weight(s, k - 1, p) * ProdExcept(s, k - 1, s[m].x, |s|);
      if k - 1 == m {
        OwnTerm(s, p, m);
        ModAddCongruent(LagrangeSum(s, p, s[m].x, k - 1), t, 0, s[m].y, p);
      } else {
        OtherTermVanishes(s, p, k - 1, m);
        ModAddCongruent(LagrangeSum(s, p, s[m].x, k - 1), t, LagrangeSum(s, p, s[m].x, k - 1), 0, p);
      }
    }
  }

  /**
   * With shares at distinct points modulo a prime, the Lagrange polynomial
   * takes the value y_m at every x_m, and its value at 0 is what the source
   * returns.
   */
  lemma LagrangeInterpolates(s: seq<Share>, p: int)
    requires IsPrime(p) && DistinctPoints(s, p)
    ensures forall m :: 0 <= m < |s| ==> Eval(LagrangePoly(s, p, |s|), s[m].x) % p == s[m].y % p
    ensures Interpolate(s, p) == Ok(Eval(LagrangePoly(s, p, |s|), 0) % p)
  {
    ZeroDenominatorIffCollision(s, p);
    forall m | 0 <= m < |s|
      ensures Eval(LagrangePoly(s, p, |s|), s[m].x) % p == s[m].y % p
    {
      EvalLagrangePoly(s, p, s[m].x, |s|);
      LagrangeSumAtShare(s, p, m, |s|);
    }
    EvalLagrangePoly(s, p, 0, |s|);
    TermSumAtZero(s, p, |s|);
  }

  // ---------------------------------------------------------------------
  // Recovery of the secret

  /** The polynomial c passes through every share, modulo p. */
  ghost predicate PassesThrough(c: Poly, s: seq<Share>, p: int)
    requires p > 0
  {
    forall m :: 0 <= m < |s| ==> Eval(c, s[m].x) % p == s[m].y % p
  }

  /**
   * Shamir recovery: if the shares lie, modulo a prime, on a polynomial with
   * at most as many coefficients as there are shares, and sit at distinct
   * points, the interpolation returns that polynomial's constant term.
   */
  lemma RecoversConstantTerm(s: seq<Share>, c: Poly, p: int)
    requires IsPrime(p) && DistinctPoints(s, p) && |c| <= |s| && PassesThrough(c, s, p)
    ensures Interpolate(s, p) == Ok(ConstantTerm(c) % p)
  {
    var l := LagrangePoly(s, p, |s|);
    LagrangeInterpolates(s, p);
    var d := Sub(l, c);
    var xs := Xs(s);
    forall m | 0 <= m < |xs|
      ensures Eval(d, xs[m]) % p == 0
    {
      EvalSub(l, c, xs[m]);
      DifferenceNonzeroConverse(Eval(l, xs[m]), Eval(c, xs[m]), p);
    }
    Vanishing(d, xs, p);
    EvalSub(l, c, 0);
    assert Eval(d, 0) % p == 0;
    EvalAtZero(c);
    CongruentFromDifference(Eval(l, 0), Eval(c, 0), p);
  }

  /** The value at 0 is the constant term. */
  lemma EvalAtZero(c: Poly)
    ensures Eval(c, 0) == ConstantTerm(c)
  {
  }

  lemma CongruentFromDifference(a: int, b: int, p: int)
    requires p > 0 && (a - b) % p == 0
    ensures a % p == b % p
  {
    ModAddLeft(a - b, b, p);
  }

  /**
   * Two shares on the line a + b X, at distinct points modulo a prime,
   * recover a.
   */
  lemma TwoShareLine(a: int, b: int, x1: int, x2: int, p: int)
    requires IsPrime(p) && x1 % p != x2 % p
    ensures Interpolate([Share(x1, a + b * x1), Share(x2, a + b * x2)], p) == Ok(a % p)
  {
    var s := [Share(x1, a + b * x1), Share(x2, a + b * x2)];
    var c := [a, b];
    assert Xs(s) == [x1, x2];
    forall m | 0 <= m < |s|
      ensures Eval(c, s[m].x) % p == s[m].y % p
    {
      LineValue(a, b, s[m].x);
    }
    RecoversConstantTerm(s, c, p);
  }

  lemma LineValue(a: int, b: int, x: int)
    ensures Eval([a, b], x) == a + b * x
  {
    assert [a, b][1..] == [b];
    assert [b][1..] == [];
    assert Eval([b], x) == b;
    Commute(x, b);
  }

  // ---------------------------------------------------------------------
  // The order of the shares does not matter

  /**
   * The source interpolates the shares in file order; any reordering of the
   * same shares gives the same result, or the same error.
   */
  lemma PermutationInvariant(s: seq<Share>, t: seq<Share>, p: int)
    requires IsPrime(p) && multiset(s) == multiset(t)
    ensures Interpolate(s, p) == Interpolate(t, p)
  {
    ZeroDenominatorIffCollision(s, p);
    ZeroDenominatorIffCollision(t, p);
    DistinctIffReordered(s, t, p);
    if DistinctPoints(s, p) {
      var l := LagrangePoly(s, p, |s|);
      LagrangeInterpolates(s, p);
      forall m | 0 <= m < |t|
        ensures Eval(l, t[m].x) % p == t[m].y % p
      {
        assert t[m] in multiset(s);
        var j :| 0 <= j < |s| && s[j] == t[m];
      }
      assert |t| == |multiset(t)| == |s|;
      assert PassesThrough(l, t, p);
      RecoversConstantTerm(t, l, p);
      EvalAtZero(l);
      assert Interpolate(s, p) == Ok(ConstantTerm(l) % p);
    } else {
      assert Interpolate(s, p).error == DivisionByZero;
      assert Interpolate(t, p).error == DivisionByZero;
    }
  }

  lemma DistinctIffReordered(s: seq<Share>, t: seq<Share>, p: int)
    requires p > 1 && multiset(s) == multiset(t)
    ensures DistinctPoints(s, p) <==> DistinctPoints(t, p)
  {
    if DistinctPoints(s, p) {
      DistinctTransfers(s, t, p);
    }
    if DistinctPoints(t, p) {
      DistinctTransfers(t, s, p);
    }
  }

  /** Shares at distinct points stay at distinct points when reordered. */
  lemma DistinctTransfers(s: seq<Share>, t: seq<Share>, p: int)
    requires p > 1 && multiset(s) == multiset(t) && DistinctPoints(s, p)
    ensures DistinctPoints(t, p)
  {
    var xs, xt := Xs(s), Xs(t);
    forall i, j | 0 <= i < j < |xt|
      ensures xt[i] % p != xt[j] % p
    {
      var a, b := MatchingPositions(s, t, i, j);
      if a < b {
        assert xs[a] % p != xs[b] % p;
      } else {
        assert xs[b] % p != xs[a] % p;
      }
    }
  }

  /** Two positions of t hold values found at two different positions of s. */
  lemma MatchingPositions(s: seq<Share>, t: seq<Share>, i: int, j: int) returns (a: int, b: int)
    requires multiset(s) == multiset(t) && 0 <= i < j < |t|
    ensures 0 <= a < |s| && 0 <= b < |s| && a != b && s[a] == t[i] && s[b] == t[j]
  {
    if t[i] == t[j] {
      Repeated(t, i, j);
      TwoOccurrences(s, t[i]);
      a, b :| 0 <= a < b < |s| && s[a] == t[i] && s[b] == t[i];
    } else {
      assert t[i] in multiset(s) && t[j] in multiset(s);
      a :| 0 <= a < |s| && s[a] == t[i];
      b :| 0 <= b < |s| && s[b] == t[j];
    }
  }

  /** A value at two positions occurs at least twice. */
  lemma Repeated(t: seq<Share>, i: int, j: int)
    requires 0 <= i < j < |t| && t[i] == t[j]
    ensures multiset(t)[t[i]] >= 2
  {
    assert t == t[..j] + t[j..];
    assert t[i] in t[..j];
    assert t[j] in t[j..];
    assert multiset(t) == multiset(t[..j]) + multiset(t[j..]);
  }

  /** A value occurring at least twice sits at two positions. */
  lemma {:induction false} TwoOccurrences(s: seq<Share>, v: Share)
    requires multiset(s)[v] >= 2
    ensures exists a, b :: 0 <= a < b < |s| && s[a] == v && s[b] == v
  {
    var n := |s|;
    var init := s[..n - 1];
    assert s == init + [s[n - 1]];
    assert multiset(s) == multiset(init) + multiset{s[n - 1]};
    if s[n - 1] == v {
      assert v in multiset(init);
      var a :| 0 <= a < |init| && init[a] == v;
      assert s[a] == v && s[n - 1] == v;
    } else {
      TwoOccurrences(init, v);
      var a, b :| 0 <= a < b < |init| && init[a] == v && init[b] == v;
      assert s[a] == v && s[b] == v;
    }
  }
}
